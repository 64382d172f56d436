/**
 Record frames of the write-ahead log, and what survives of a segment file
 whose last writes were lost.

 `[magic:4][version:1][reserved:3][length:u32 LE][crc32:u32 LE][payload]`

 The checksum and the payload codec are parameters: nothing below depends on
 which checksum or which encoding is used.
 */
module WalFrame {
  import opened Wrappers

  type byte = x: int | 0 <= x < 0x100
  type u32 = x: int | 0 <= x < 0x1_0000_0000

  const MAGIC: seq<byte> := [0x48, 0x47, 0x4C, 0x57]
  const VERSION: byte := 1
  const RECORD_HEADER_BYTES: nat := 16

  /** Checksum, payload decoding, and whether a decoded batch holds no event. */
  datatype Codec<!B> = Codec(crc: seq<byte> -> u32, parse: seq<byte> -> Option<B>, isEmpty: B -> bool)

  datatype Reason =
    | IncompleteHeader | BadMagic | BadVersion | NonZeroReserved
    | LengthExceedsLimit | IncompletePayload | ChecksumMismatch | InvalidPayload | EmptyBatch

  datatype Corruption = Corruption(byteOffset: nat, reason: Reason)

  datatype SegmentScan = SegmentScan(validBytes: nat, truncatedTail: bool)

  // ------------------------------------------------------------------ encoding

  function Le32(n: u32): (r: seq<byte>)
    ensures |r| == 4
  {
    [n % 0x100, n / 0x100 % 0x100, n / 0x1_0000 % 0x100, n / 0x100_0000]
  }

  function FromLe32(b: seq<byte>): u32
    requires |b| == 4
  {
    var b0: int, b1: int, b2: int, b3: int := b[0], b[1], b[2], b[3];
    b0 + 0x100 * b1 + 0x1_0000 * b2 + 0x100_0000 * b3
  }

  lemma Le32RoundTrip(n: u32)
    ensures FromLe32(Le32(n)) == n
  {
    var q1: int := n / 0x100;
    var q2: int := q1 / 0x100;
    assert n / 0x1_0000 == q2 && n / 0x100_0000 == q2 / 0x100;
  }

  /** `encode_frame`; the writer refuses payloads longer than the configured limit first. */
  function EncodeFrame<B>(c: Codec<B>, payload: seq<byte>): (frame: seq<byte>)
    requires |payload| < 0x1_0000_0000
    ensures |frame| == RECORD_HEADER_BYTES + |payload|
  {
    MAGIC + [VERSION] + [0, 0, 0] + Le32(|payload|) + Le32(c.crc(payload)) + payload
  }

  /** The layout of a frame, byte by byte. */
  lemma FrameLayout<B>(c: Codec<B>, payload: seq<byte>)
    requires |payload| < 0x1_0000_0000
    ensures var f := EncodeFrame(c, payload);
            && |f| == 16 + |payload|
            && f[0] == 0x48 && f[1] == 0x47 && f[2] == 0x4C && f[3] == 0x57 && f[4] == 1 && f[5] == f[6] == f[7] == 0
            && f[8] as int + 0x100 * f[9] as int + 0x1_0000 * f[10] as int + 0x100_0000 * f[11] as int == |payload|
            && f[12] as int + 0x100 * f[13] as int + 0x1_0000 * f[14] as int + 0x100_0000 * f[15] as int == c.crc(payload)
            && f[16..] == payload
  {
    Le32RoundTrip(|payload|);
    Le32RoundTrip(c.crc(payload));
    var f := EncodeFrame(c, payload);
    assert f[8..12] == Le32(|payload|) && f[12..16] == Le32(c.crc(payload));
  }

  // ----------------------------------------------------------------- inspecting

  /** `validate_header`. */
  function ValidateHeader(header: seq<byte>): Option<Reason>
    requires |header| == RECORD_HEADER_BYTES
  {
    if header[..4] != MAGIC then Some(BadMagic)
    else if header[4] != VERSION then Some(BadVersion)
    else if header[5..8] != [0, 0, 0] then Some(NonZeroReserved)
    else None
  }

  function LengthOf(header: seq<byte>): nat
    requires |header| == RECORD_HEADER_BYTES
  {
    FromLe32(header[8..12])
  }

  function CrcOf(header: seq<byte>): u32
    requires |header| == RECORD_HEADER_BYTES
  {
    FromLe32(header[12..16])
  }

  predicate AllZero(bytes: seq<byte>) {
    forall i | 0 <= i < |bytes| :: bytes[i] == 0
  }

  /** What a scan decides about the bytes that start at a record boundary. */
  datatype Verdict = Whole(frameBytes: nat) | Torn | Damaged(reason: Reason)

  /** `rest` is everything from a record boundary to the end of the file; it is not empty. */
  function Inspect<B>(c: Codec<B>, limit: nat, rest: seq<byte>): (v: Verdict)
    requires rest != []
    ensures v.Whole? ==> RECORD_HEADER_BYTES <= v.frameBytes <= |rest| && c.parse(rest[RECORD_HEADER_BYTES..v.frameBytes]).Some?
  {
    if |rest| < RECORD_HEADER_BYTES then Torn
    else
      var header := rest[..RECORD_HEADER_BYTES];
      if ValidateHeader(header).Some? then
        if AllZero(rest) then Torn else Damaged(ValidateHeader(header).value)
      else if LengthOf(header) > limit then Damaged(LengthExceedsLimit)
      else
        var end := RECORD_HEADER_BYTES + LengthOf(header);
        if end > |rest| then Torn
        else
          var payload := rest[RECORD_HEADER_BYTES..end];
          if c.crc(payload) != CrcOf(header) then
            if end == |rest| then Torn else Damaged(ChecksumMismatch)
          else
            match c.parse(payload)
            case None => if end == |rest| then Torn else Damaged(InvalidPayload)
            case Some(batch) => if c.isEmpty(batch) then Damaged(EmptyBatch) else Whole(end)
  }

  /** The complaint about bytes that only an active segment may drop. */
  function TornReason<B>(c: Codec<B>, rest: seq<byte>): Reason
  {
    if |rest| < RECORD_HEADER_BYTES then IncompleteHeader
    else
      var header := rest[..RECORD_HEADER_BYTES];
      var end := RECORD_HEADER_BYTES + LengthOf(header);
      if ValidateHeader(header).Some? then ValidateHeader(header).value
      else if end > |rest| then IncompletePayload
      else if c.crc(rest[RECORD_HEADER_BYTES..end]) != CrcOf(header) then ChecksumMismatch
      else InvalidPayload
  }

  /** The meaning of `scan_segment` from a record boundary on. */
  function Scan<B>(c: Codec<B>, limit: nat, data: seq<byte>, offset: nat, repair: bool): (r: Result<SegmentScan, Corruption>)
    requires offset <= |data|
    ensures r.Success? ==> offset <= r.value.validBytes <= |data|
    ensures r.Failure? ==> offset <= r.error.byteOffset
    decreases |data| - offset
  {
    if offset == |data| then Success(SegmentScan(offset, false))
    else
      match Inspect(c, limit, data[offset..])
      case Whole(n) => Scan(c, limit, data, offset + n, repair)
      case Torn =>
        if repair then Success(SegmentScan(offset, true)) else Failure(Corruption(offset, TornReason(c, data[offset..])))
      case Damaged(reason) => Failure(Corruption(offset, reason))
  }

  lemma ScanUnfolds<B>(c: Codec<B>, limit: nat, data: seq<byte>, offset: nat, repair: bool)
    requires offset < |data|
    ensures var v, rest := Inspect(c, limit, data[offset..]), data[offset..];
            Scan(c, limit, data, offset, repair)
            == if v.Whole? then Scan(c, limit, data, offset + v.frameBytes, repair)
               else if v.Damaged? then Failure(Corruption(offset, v.reason))
               else if repair then Success(SegmentScan(offset, true))
               else Failure(Corruption(offset, TornReason(c, rest)))
  {
    hide Inspect, TornReason;
  }

  lemma Slice(bytes: seq<byte>, offset: nat, from: nat, to: nat)
    requires offset + to <= |bytes| && from <= to
    ensures bytes[offset..][from..to] == bytes[offset + from..offset + to]
    ensures to == |bytes| - offset ==> bytes[offset + from..offset + to] == bytes[offset..][from..]
    ensures offset == 0 && from == 0 && to == |bytes| ==> bytes[..to] == bytes
    ensures from == 0 ==> bytes[offset..][..to] == bytes[offset..offset + to]
  {
  }

  lemma ScanEnds<B>(c: Codec<B>, limit: nat, data: seq<byte>, repair: bool)
    ensures Scan(c, limit, data, |data|, repair) == Success(SegmentScan(|data|, false))
  {
  }

  lemma TornReasons<B>(c: Codec<B>, rest: seq<byte>)
    ensures |rest| < RECORD_HEADER_BYTES ==> TornReason(c, rest) == IncompleteHeader
    ensures (RECORD_HEADER_BYTES <= |rest| ==>
               var header := rest[..RECORD_HEADER_BYTES];
               var end := RECORD_HEADER_BYTES + LengthOf(header);
               && (ValidateHeader(header).Some? ==> TornReason(c, rest) == ValidateHeader(header).value)
               && (ValidateHeader(header).None? && end > |rest| ==> TornReason(c, rest) == IncompletePayload)
               && (ValidateHeader(header).None? && end <= |rest| ==>
                     TornReason(c, rest) == if c.crc(rest[RECORD_HEADER_BYTES..end]) != CrcOf(header) then ChecksumMismatch else InvalidPayload))
  {
    hide LengthOf, CrcOf, ValidateHeader;
  }

  // ----------------------------------------------------------------- procedures

  class SegmentFile {
    var data: seq<byte>

    constructor (bytes: seq<byte>)
      ensures data == bytes
    {
      data := bytes;
    }

    /** `is_zero_tail`, a buffer at a time. */
    method IsZeroTail(from: nat, to: nat, buffer: nat) returns (zero: bool)
      requires from <= to <= |data| && 0 < buffer
      ensures zero <==> AllZero(data[from..to])
    {
      var at := from;
      while at < to
        invariant from <= at <= to
        invariant forall i | from <= i < at :: data[i] == 0
      {
        var take := if to - at < buffer then to - at else buffer;
        if exists i | at <= i < at + take :: data[i] != 0 {
          ghost var i :| at <= i < at + take && data[i] != 0;
          assert data[from..to][i - from] != 0;
          return false;
        }
        at := at + take;
      }
      return true;
    }

    /** Validate the segment; with `repair`, cut an incomplete tail off the file. */
    method ScanSegment<B>(c: Codec<B>, limit: nat, repair: bool) returns (r: Result<SegmentScan, Corruption>)
      modifies this
      ensures r == Scan(c, limit, old(data), 0, repair)
      ensures data == if r.Success? then old(data)[..r.value.validBytes] else old(data)
    {
      hide LengthOf, CrcOf, ValidateHeader, Scan, AllZero, TornReason;
      var bytes := data;
      var offset := 0;
      var truncated := false;
      while offset < |bytes|
        invariant 0 <= offset <= |bytes| && data == bytes == old(data) && !truncated
        invariant Scan(c, limit, bytes, 0, repair) == Scan(c, limit, bytes, offset, repair)
        decreases |bytes| - offset
      {
        ghost var rest := bytes[offset..];
        ScanUnfolds(c, limit, bytes, offset, repair);
        TornReasons(c, rest);
        if |bytes| - offset < RECORD_HEADER_BYTES {
          if repair {
            truncated := true;
            break;
          }
          return Failure(Corruption(offset, IncompleteHeader));
        }
        var header := bytes[offset..offset + RECORD_HEADER_BYTES];
        Slice(bytes, offset, 0, RECORD_HEADER_BYTES);
        var complaint := ValidateHeader(header);
        if complaint.Some? {
          var zero := false;
          if repair {
            zero := IsZeroTail(offset, |bytes|, 64 * 1024);
            Slice(bytes, offset, 0, |rest|);
          }
          if zero {
            truncated := true;
            break;
          }
          return Failure(Corruption(offset, complaint.value));
        }
        var length := LengthOf(header);
        if length > limit {
          return Failure(Corruption(offset, LengthExceedsLimit));
        }
        var end := offset + RECORD_HEADER_BYTES + length;
        if end > |bytes| {
          if repair {
            truncated := true;
            break;
          }
          return Failure(Corruption(offset, IncompletePayload));
        }
        var payload := bytes[offset + RECORD_HEADER_BYTES..end];
        Slice(bytes, offset, RECORD_HEADER_BYTES, RECORD_HEADER_BYTES + length);
        var final := end == |bytes|;
        if c.crc(payload) != CrcOf(header) {
          if repair && final {
            truncated := true;
            break;
          }
          return Failure(Corruption(offset, ChecksumMismatch));
        }
        var batch := c.parse(payload);
        if batch.None? {
          if repair && final {
            truncated := true;
            break;
          }
          return Failure(Corruption(offset, InvalidPayload));
        }
        if c.isEmpty(batch.value) {
          return Failure(Corruption(offset, EmptyBatch));
        }
        offset := end;
      }
      if truncated {
        data := data[..offset];
      } else {
        ScanEnds(c, limit, bytes, repair);
        Slice(bytes, 0, 0, offset);
      }
      return Success(SegmentScan(offset, truncated));
    }

    /** `is_record_boundary`: walk the headers of an already validated segment up to `target`. */
    method IsRecordBoundary<B>(ghost c: Codec<B>, limit: nat, ghost payloads: seq<seq<byte>>, target: nat)
      returns (found: bool)
      requires AllWritable(c, limit, payloads) && data == Log(c, limit, payloads) && target <= |data|
      ensures found <==> IsBoundary(c, limit, payloads, target)
    {
      hide EncodeFrame;
      if target == 0 {
        assert payloads[..0] == [];
        return true;
      }
      var offset := 0;
      ghost var k := 0;
      while offset < target
        invariant k <= |payloads| && offset == |Log(c, limit, payloads[..k])| <= target
        invariant forall j | 0 <= j < k :: |Log(c, limit, payloads[..j])| < target
      {
        assert k < |payloads| by { assert payloads[..|payloads|] == payloads; }
        LogAt(c, limit, payloads, k);
        LogGrows(c, limit, payloads, k);
        var header := data[offset..offset + RECORD_HEADER_BYTES];
        HeaderOfFrame(c, payloads[k]);
        assert header == EncodeFrame(c, payloads[k])[..RECORD_HEADER_BYTES];
        offset := offset + RECORD_HEADER_BYTES + LengthOf(header);
        k := k + 1;
        if offset > target {
          LogMonotone(c, limit, payloads, k, target);
          return false;
        }
      }
      return true;
    }

    /** Up to `count` bytes from `offset`; fewer at the end of the file. */
    method ReadUpTo(offset: nat, count: nat) returns (bytes: seq<byte>)
      requires offset <= |data|
      ensures bytes == data[offset..if offset + count <= |data| then offset + count else |data|]
    {
      bytes := data[offset..if offset + count <= |data| then offset + count else |data|];
    }

    /** `read_record`: the batch at `offset` and the bytes it occupies, or nothing at the end. */
    method ReadRecord<B>(c: Codec<B>, limit: nat, offset: nat) returns (r: Result<Option<(B, nat)>, Corruption>)
      requires offset <= |data|
      ensures offset == |data| ==> r == Success(None)
      ensures offset < |data| ==>
                match Inspect(c, limit, data[offset..])
                case Whole(n) =>
                  r == Success(Some((c.parse(data[offset..][RECORD_HEADER_BYTES..n]).value, n)))
                case Torn => r == Failure(Corruption(offset, TornReason(c, data[offset..])))
                case Damaged(reason) => r == Failure(Corruption(offset, reason))
    {
      ghost var rest := data[offset..];
      var header := ReadUpTo(offset, RECORD_HEADER_BYTES);
      if |header| == 0 {
        return Success(None);
      }
      if |header| != RECORD_HEADER_BYTES {
        return Failure(Corruption(offset, IncompleteHeader));
      }
      assert header == rest[..RECORD_HEADER_BYTES];
      if ValidateHeader(header).Some? {
        return Failure(Corruption(offset, ValidateHeader(header).value));
      }
      var length := LengthOf(header);
      if length > limit {
        return Failure(Corruption(offset, LengthExceedsLimit));
      }
      var payload := ReadUpTo(offset + RECORD_HEADER_BYTES, length);
      if |payload| != length {
        return Failure(Corruption(offset, IncompletePayload));
      }
      assert payload == rest[RECORD_HEADER_BYTES..RECORD_HEADER_BYTES + length];
      if c.crc(payload) != CrcOf(header) {
        return Failure(Corruption(offset, ChecksumMismatch));
      }
      match c.parse(payload) {
        case None => return Failure(Corruption(offset, InvalidPayload));
        case Some(batch) =>
          if c.isEmpty(batch) {
            return Failure(Corruption(offset, EmptyBatch));
          }
          return Success(Some((batch, RECORD_HEADER_BYTES + length)));
      }
    }
  }

  // ------------------------------------------------------------------- theorems

  /** A payload the writer accepts: within the limit, and a non-empty batch. */
  predicate Writable<B>(c: Codec<B>, limit: nat, payload: seq<byte>) {
    |payload| <= limit < 0x1_0000_0000 && c.parse(payload).Some? && !c.isEmpty(c.parse(payload).value)
  }

  predicate AllWritable<B>(c: Codec<B>, limit: nat, payloads: seq<seq<byte>>) {
    forall i | 0 <= i < |payloads| :: Writable(c, limit, payloads[i])
  }

  /** The bytes of a segment that holds these records. */
  function Log<B>(c: Codec<B>, limit: nat, payloads: seq<seq<byte>>): seq<byte>
    requires AllWritable(c, limit, payloads)
  {
    if payloads == [] then [] else EncodeFrame(c, payloads[0]) + Log(c, limit, payloads[1..])
  }

  /** Whatever follows it, an encoded record reads back as exactly that record. */
  lemma FrameReadsBack<B>(c: Codec<B>, limit: nat, payload: seq<byte>, more: seq<byte>)
    requires Writable(c, limit, payload)
    ensures var rest := EncodeFrame(c, payload) + more;
            Inspect(c, limit, rest) == Whole(RECORD_HEADER_BYTES + |payload|)
            && rest[RECORD_HEADER_BYTES..RECORD_HEADER_BYTES + |payload|] == payload
  {
    var frame := EncodeFrame(c, payload);
    var rest := frame + more;
    var header := rest[..RECORD_HEADER_BYTES];
    HeaderOfFrame(c, payload);
    assert header == frame[..RECORD_HEADER_BYTES];
    assert rest[RECORD_HEADER_BYTES..RECORD_HEADER_BYTES + |payload|] == payload;
  }

  lemma HeaderOfFrame<B>(c: Codec<B>, payload: seq<byte>)
    requires |payload| < 0x1_0000_0000
    ensures var header := EncodeFrame(c, payload)[..RECORD_HEADER_BYTES];
            ValidateHeader(header).None? && LengthOf(header) == |payload| && CrcOf(header) == c.crc(payload)
  {
    var header := EncodeFrame(c, payload)[..RECORD_HEADER_BYTES];
    assert header[..4] == MAGIC && header[5..8] == [0, 0, 0];
    assert header[8..12] == Le32(|payload|) && header[12..16] == Le32(c.crc(payload));
    Le32RoundTrip(|payload|);
    Le32RoundTrip(c.crc(payload));
  }

  /** Reading the log from its start: each whole record in turn, then whatever the tail amounts to. */
  lemma {:induction false} ScanWalksLog<B>(c: Codec<B>, limit: nat, before: seq<byte>, payloads: seq<seq<byte>>, tail: seq<byte>, repair: bool)
    requires AllWritable(c, limit, payloads)
    ensures var data := before + Log(c, limit, payloads) + tail;
            (Scan(c, limit, data, |before|, repair)
             == Scan(c, limit, data, |before| + |Log(c, limit, payloads)|, repair))
    decreases |payloads|
  {
    hide Inspect, EncodeFrame;
    if payloads != [] {
      var frame, others := EncodeFrame(c, payloads[0]), Log(c, limit, payloads[1..]);
      var data := before + Log(c, limit, payloads) + tail;
      assert data[|before|..] == frame + (others + tail);
      FrameReadsBack(c, limit, payloads[0], others + tail);
      assert data == (before + frame) + others + tail;
      ScanWalksLog(c, limit, before + frame, payloads[1..], tail, repair);
    }
  }

  /** Where the record at the start of these bytes ends, going by its length field. */
  function FrameEnd(tail: seq<byte>): nat
    requires RECORD_HEADER_BYTES <= |tail|
  {
    RECORD_HEADER_BYTES + LengthOf(tail[..RECORD_HEADER_BYTES])
  }

  /** The bytes after the header up to `end` match the checksum and decode. */
  predicate ChecksOut<B>(c: Codec<B>, tail: seq<byte>, end: nat)
    requires RECORD_HEADER_BYTES <= end <= |tail|
  {
    var payload := tail[RECORD_HEADER_BYTES..end];
    c.crc(payload) == CrcOf(tail[..RECORD_HEADER_BYTES]) && c.parse(payload).Some?
  }

  /** They do, but hold no event. */
  predicate ChecksOutEmpty<B>(c: Codec<B>, tail: seq<byte>, end: nat)
    requires RECORD_HEADER_BYTES <= end <= |tail|
  {
    ChecksOut(c, tail, end) && c.isEmpty(c.parse(tail[RECORD_HEADER_BYTES..end]).value)
  }

  /**
   Bytes after the last whole record that recovery treats as a write that never
   finished: too few for a header, nothing but zeros, or a sound header whose record
   reaches past the end of the file, or ends right there without checking out.
   */
  predicate TornTail<B>(c: Codec<B>, limit: nat, tail: seq<byte>) {
    && tail != []
    && (|| |tail| < RECORD_HEADER_BYTES
        || AllZero(tail)
        || (&& ValidateHeader(tail[..RECORD_HEADER_BYTES]).None?
            && LengthOf(tail[..RECORD_HEADER_BYTES]) <= limit
            && (|| |tail| < FrameEnd(tail)
                || (|tail| == FrameEnd(tail) && !ChecksOut(c, tail, FrameEnd(tail))))))
  }

  lemma TornTailIsTorn<B>(c: Codec<B>, limit: nat, tail: seq<byte>)
    requires tail != []
    ensures TornTail(c, limit, tail) <==> Inspect(c, limit, tail) == Torn
  {
    hide LengthOf, CrcOf;
    if RECORD_HEADER_BYTES <= |tail| && AllZero(tail) {
      assert tail[..RECORD_HEADER_BYTES][..4][0] != MAGIC[0];
    }
  }

  /** Record `k` of a log sits right after the records before it. */
  lemma {:induction false} LogAt<B>(c: Codec<B>, limit: nat, payloads: seq<seq<byte>>, k: nat)
    requires AllWritable(c, limit, payloads) && k < |payloads|
    ensures Log(c, limit, payloads)
         == Log(c, limit, payloads[..k]) + EncodeFrame(c, payloads[k]) + Log(c, limit, payloads[k + 1..])
  {
    hide EncodeFrame, Writable;
    if k == 0 {
      assert payloads[..0] == [];
    } else {
      LogAt(c, limit, payloads[1..], k - 1);
      assert payloads[..k][1..] == payloads[1..][..k - 1] && payloads[1..][k..] == payloads[k + 1..];
    }
  }

  lemma LogGrows<B>(c: Codec<B>, limit: nat, payloads: seq<seq<byte>>, k: nat)
    requires AllWritable(c, limit, payloads) && k < |payloads|
    ensures |Log(c, limit, payloads[..k + 1])| == |Log(c, limit, payloads[..k])| + RECORD_HEADER_BYTES + |payloads[k]|
  {
    LogAt(c, limit, payloads[..k + 1], k);
    assert payloads[..k + 1][..k] == payloads[..k] && payloads[..k + 1][k + 1..] == [];
  }

  lemma {:induction false} LogMonotone<B>(c: Codec<B>, limit: nat, payloads: seq<seq<byte>>, k: nat, target: nat)
    requires AllWritable(c, limit, payloads) && k <= |payloads| && target < |Log(c, limit, payloads[..k])|
    ensures forall j | k <= j <= |payloads| :: target < |Log(c, limit, payloads[..j])|
    decreases |payloads| - k
  {
    if k < |payloads| {
      LogGrows(c, limit, payloads, k);
      LogMonotone(c, limit, payloads, k + 1, target);
    }
  }

  /** The offsets a cursor may name: where a record starts, or the end of the log. */
  predicate IsBoundary<B>(c: Codec<B>, limit: nat, payloads: seq<seq<byte>>, target: nat)
    requires AllWritable(c, limit, payloads)
  {
    exists k | 0 <= k <= |payloads| :: target == |Log(c, limit, payloads[..k])|
  }

  /** Recovery keeps every whole record of a log and drops a torn tail. */
  lemma ScanOfLog<B>(c: Codec<B>, limit: nat, payloads: seq<seq<byte>>, tail: seq<byte>, repair: bool)
    requires AllWritable(c, limit, payloads)
    requires tail == [] || (repair && TornTail(c, limit, tail))
    ensures Scan(c, limit, Log(c, limit, payloads) + tail, 0, repair)
         == Success(SegmentScan(|Log(c, limit, payloads)|, tail != []))
  {
    hide Log, Inspect, EncodeFrame, TornTail, Scan, Writable;
    ScanWalksLog(c, limit, [], payloads, tail, repair);
    var log := Log(c, limit, payloads);
    assert [] + log + tail == log + tail;
    assert (log + tail)[|log|..] == tail;
    if tail == [] {
      assert log + tail == log;
      ScanEnds(c, limit, log, repair);
    } else {
      TornTailIsTorn(c, limit, tail);
      ScanUnfolds(c, limit, log + tail, |log|, repair);
    }
  }

  /** The records a successful scan has accepted. */
  lemma {:induction false} ScanFindsRecords<B>(c: Codec<B>, limit: nat, data: seq<byte>, offset: nat, repair: bool)
    returns (payloads: seq<seq<byte>>)
    requires limit < 0x1_0000_0000 && offset <= |data| && Scan(c, limit, data, offset, repair).Success?
    ensures AllWritable(c, limit, payloads)
    ensures var r := Scan(c, limit, data, offset, repair).value;
            && data[offset..r.validBytes] == Log(c, limit, payloads)
            && (r.truncatedTail <==> r.validBytes < |data|)
            && (r.truncatedTail ==> repair && TornTail(c, limit, data[r.validBytes..]))
    decreases |data| - offset
  {
    hide EncodeFrame, TornTail, Inspect, Writable;
    if offset < |data| {
      TornTailIsTorn(c, limit, data[offset..]);
    }
    if offset == |data| || Inspect(c, limit, data[offset..]).Torn? {
      payloads := [];
    } else {
      var rest := data[offset..];
      var n := Inspect(c, limit, rest).frameBytes;
      var others := ScanFindsRecords(c, limit, data, offset + n, repair);
      var payload := rest[RECORD_HEADER_BYTES..n];
      WholeIsFrame(c, limit, rest);
      payloads := [payload] + others;
      var valid := Scan(c, limit, data, offset, repair).value.validBytes;
      assert data[offset..valid] == rest[..n] + data[offset + n..valid];
      assert payloads[1..] == others;
    }
  }

  /** A frame that passes every check is, byte for byte, the encoding of its payload. */
  lemma WholeIsFrame<B>(c: Codec<B>, limit: nat, rest: seq<byte>)
    requires limit < 0x1_0000_0000 && rest != [] && Inspect(c, limit, rest).Whole?
    ensures var n := Inspect(c, limit, rest).frameBytes;
            Writable(c, limit, rest[RECORD_HEADER_BYTES..n])
            && rest[..n] == EncodeFrame(c, rest[RECORD_HEADER_BYTES..n])
  {
    var n := Inspect(c, limit, rest).frameBytes;
    var header, payload := rest[..RECORD_HEADER_BYTES], rest[RECORD_HEADER_BYTES..n];
    Le32Unique(header[8..12]);
    Le32Unique(header[12..16]);
    assert header == header[..4] + [header[4]] + header[5..8] + header[8..12] + header[12..16];
    assert rest[..n] == header + payload;
  }

  lemma Le32Unique(b: seq<byte>)
    requires |b| == 4
    ensures Le32(FromLe32(b)) == b
  {
    var n, b0: int, b1: int, b2: int, b3: int := FromLe32(b), b[0], b[1], b[2], b[3];
    Digit(b[0], b1 + 0x100 * (b2 + 0x100 * b3));
    Digit(b[1], b2 + 0x100 * b3);
    Digit(b[2], b3);
    assert n == b0 + 0x100 * (b1 + 0x100 * (b2 + 0x100 * b3));
    assert n / 0x1_0000 == n / 0x100 / 0x100 && n / 0x100_0000 == n / 0x1_0000 / 0x100;
  }

  lemma Digit(low: byte, high: int)
    ensures (low + 0x100 * high) % 0x100 == low && (low + 0x100 * high) / 0x100 == high
  {
  }

  /**
   Exactly which files recovery accepts, and what it keeps: a file is accepted with
   `valid` bytes kept if and only if those bytes are whole records and the rest, if
   any, is a torn tail in a file that may be repaired.
   */
  lemma RecoveryIsExact<B>(c: Codec<B>, limit: nat, data: seq<byte>, valid: nat, repair: bool)
    requires limit < 0x1_0000_0000 && valid <= |data|
    ensures Scan(c, limit, data, 0, repair) == Success(SegmentScan(valid, valid < |data|))
       <==> && (exists payloads | AllWritable(c, limit, payloads) :: data[..valid] == Log(c, limit, payloads))
            && (valid == |data| || (repair && TornTail(c, limit, data[valid..])))
  {
    hide EncodeFrame, Inspect, TornTail;
    if Scan(c, limit, data, 0, repair) == Success(SegmentScan(valid, valid < |data|)) {
      var payloads := ScanFindsRecords(c, limit, data, 0, repair);
      assert data[0..valid] == data[..valid];
    }
    if && (exists payloads | AllWritable(c, limit, payloads) :: data[..valid] == Log(c, limit, payloads))
       && (valid == |data| || (repair && TornTail(c, limit, data[valid..])))
    {
      var payloads :| AllWritable(c, limit, payloads) && data[..valid] == Log(c, limit, payloads);
      ScanOfLog(c, limit, payloads, data[valid..], repair);
      assert data == data[..valid] + data[valid..];
    }
  }

  /** Recovering what recovery left finds the same records and nothing more to repair. */
  lemma RecoveringTwice<B>(c: Codec<B>, limit: nat, data: seq<byte>, repair: bool)
    requires limit < 0x1_0000_0000 && Scan(c, limit, data, 0, true).Success?
    ensures var valid := Scan(c, limit, data, 0, true).value.validBytes;
            Scan(c, limit, data[..valid], 0, repair) == Success(SegmentScan(valid, false))
  {
    var payloads := ScanFindsRecords(c, limit, data, 0, true);
    var valid := Scan(c, limit, data, 0, true).value.validBytes;
    ScanOfLog(c, limit, payloads, [], repair);
    assert data[0..valid] + [] == data[..valid];
  }

  /** How many records of the log lie wholly before the cut. */
  function WholeRecords<B>(c: Codec<B>, limit: nat, payloads: seq<seq<byte>>, cut: nat): (k: nat)
    requires AllWritable(c, limit, payloads)
    ensures k <= |payloads|
  {
    if payloads == [] || cut < RECORD_HEADER_BYTES + |payloads[0]| then 0
    else 1 + WholeRecords(c, limit, payloads[1..], cut - (RECORD_HEADER_BYTES + |payloads[0]|))
  }

  /** A proper, non-empty piece of a frame is a torn tail. */
  lemma PieceIsTorn<B>(c: Codec<B>, limit: nat, payload: seq<byte>, n: nat)
    requires Writable(c, limit, payload) && 0 < n < RECORD_HEADER_BYTES + |payload|
    ensures TornTail(c, limit, EncodeFrame(c, payload)[..n])
  {
    hide LengthOf;
    if RECORD_HEADER_BYTES <= n {
      HeaderOfFrame(c, payload);
      assert EncodeFrame(c, payload)[..n][..RECORD_HEADER_BYTES] == EncodeFrame(c, payload)[..RECORD_HEADER_BYTES];
    }
  }

  /** A log cut anywhere is its whole records before the cut, then a piece of the next one. */
  lemma {:induction false} CutSplits<B>(c: Codec<B>, limit: nat, payloads: seq<seq<byte>>, cut: nat) returns (tail: seq<byte>)
    requires AllWritable(c, limit, payloads) && cut <= |Log(c, limit, payloads)|
    ensures var k := WholeRecords(c, limit, payloads, cut);
            && Log(c, limit, payloads)[..cut] == Log(c, limit, payloads[..k]) + tail
            && (tail == [] || TornTail(c, limit, tail))
  {
    hide EncodeFrame, TornTail;
    if payloads == [] {
      tail := [];
    } else {
      var frame, others := EncodeFrame(c, payloads[0]), payloads[1..];
      if cut < |frame| {
        tail := frame[..cut];
        assert Log(c, limit, payloads)[..cut] == tail;
        if 0 < cut { PieceIsTorn(c, limit, payloads[0], cut); }
      } else {
        tail := CutSplits(c, limit, others, cut - |frame|);
        var k := WholeRecords(c, limit, others, cut - |frame|);
        assert payloads[..k + 1][1..] == others[..k];
        assert Log(c, limit, payloads)[..cut] == frame + Log(c, limit, others)[..cut - |frame|];
      }
    }
  }

  /**
   A log cut at any byte recovers to exactly the records that lie wholly before the
   cut; every record that was synced before the crash is among them.
   */
  lemma CutLogRecovers<B>(c: Codec<B>, limit: nat, payloads: seq<seq<byte>>, cut: nat, synced: nat)
    requires AllWritable(c, limit, payloads) && cut <= |Log(c, limit, payloads)|
    requires synced <= |payloads| && |Log(c, limit, payloads[..synced])| <= cut
    ensures var k := WholeRecords(c, limit, payloads, cut);
            var kept := |Log(c, limit, payloads[..k])|;
            && synced <= k && kept <= cut
            && Log(c, limit, payloads)[..kept] == Log(c, limit, payloads[..k])
            && Scan(c, limit, Log(c, limit, payloads)[..cut], 0, true) == Success(SegmentScan(kept, kept < cut))
  {
    var tail := CutSplits(c, limit, payloads, cut);
    var k := WholeRecords(c, limit, payloads, cut);
    var kept := Log(c, limit, payloads[..k]);
    assert Log(c, limit, payloads)[..|kept|] == Log(c, limit, payloads)[..cut][..|kept|];
    ScanOfLog(c, limit, payloads[..k], tail, true);
    SyncedSurvive(c, limit, payloads, cut, synced);
  }

  lemma {:induction false} SyncedSurvive<B>(c: Codec<B>, limit: nat, payloads: seq<seq<byte>>, cut: nat, synced: nat)
    requires AllWritable(c, limit, payloads) && synced <= |payloads| && |Log(c, limit, payloads[..synced])| <= cut
    ensures synced <= WholeRecords(c, limit, payloads, cut)
  {
    if 0 < synced {
      assert payloads[..synced][1..] == payloads[1..][..synced - 1];
      SyncedSurvive(c, limit, payloads[1..], cut - |EncodeFrame(c, payloads[0])|, synced - 1);
    }
  }

  function Zeros(n: nat): seq<byte> { seq(n, _ => 0) }

  /** Blocks that were allocated but never written, right after a record: dropped, nothing lost. */
  lemma ZeroTailRecovers<B>(c: Codec<B>, limit: nat, payloads: seq<seq<byte>>, n: nat)
    requires AllWritable(c, limit, payloads)
    ensures Scan(c, limit, Log(c, limit, payloads) + Zeros(n), 0, true)
         == Success(SegmentScan(|Log(c, limit, payloads)|, 0 < n))
  {
    var tail := Zeros(n);
    ScanOfLog(c, limit, payloads, tail, true);
  }

  // ---------------------------------------- part of a frame, then zero-filled blocks

  /** The first `landed` bytes of a frame reached the disk; the file system fills up with `n` zeros. */
  function Partial<B>(c: Codec<B>, payload: seq<byte>, landed: nat, n: nat): (tail: seq<byte>)
    requires |payload| < 0x1_0000_0000 && landed <= RECORD_HEADER_BYTES + |payload|
    ensures |tail| == landed + n
  {
    EncodeFrame(c, payload)[..landed] + Zeros(n)
  }

  /** The number spelled by the bytes of the length field that landed, the others being zero. */
  function LandedLength(length: nat, landed: nat): nat {
    if landed <= 8 then 0
    else if landed == 9 then length % 0x100
    else if landed == 10 then length % 0x1_0000
    else if landed == 11 then length % 0x100_0000
    else length
  }

  lemma LandedBytes(length: nat, landed: nat, field: seq<byte>)
    requires length < 0x1_0000_0000 && |field| == 4
    requires forall i | 0 <= i < 4 :: field[i] == if 8 + i < landed then Le32(length)[i] else 0
    ensures FromLe32(field) == LandedLength(length, landed)
  {
    Le32RoundTrip(length);
    if landed == 9 {
      assert field[1] == 0 && field[2] == 0 && field[3] == 0;
    } else if landed == 10 {
      Digit2(length);
    } else if landed == 11 {
      Digit3(length);
    }
  }

  lemma Digit2(n: nat)
    ensures n % 0x100 + 0x100 * (n / 0x100 % 0x100) == n % 0x1_0000
  {
    var q, m := n / 0x1_0000, n % 0x1_0000;
    assert n == m + 0x1_0000 * q;
  }

  lemma Digit3(n: nat)
    ensures n % 0x100 + 0x100 * (n / 0x100 % 0x100) + 0x1_0000 * (n / 0x1_0000 % 0x100) == n % 0x100_0000
  {
    Digit2(n);
    var q, m := n / 0x100_0000, n % 0x100_0000;
    assert n == m + 0x100_0000 * q;
  }

  lemma FrameBytes<B>(c: Codec<B>, payload: seq<byte>)
    requires |payload| < 0x1_0000_0000
    ensures var f := EncodeFrame(c, payload);
            && f[..4] == MAGIC && f[4] == VERSION && f[5] == f[6] == f[7] == 0
            && forall i | 0 <= i < 4 :: f[8 + i] == Le32(|payload|)[i]
  {
  }

  /** From the fifth byte on, what landed reads as a sound header with a shortened length. */
  lemma LandedHeader<B>(c: Codec<B>, payload: seq<byte>, landed: nat, n: nat)
    requires |payload| < 0x1_0000_0000 && landed <= RECORD_HEADER_BYTES + |payload|
    requires 5 <= landed && RECORD_HEADER_BYTES <= landed + n
    ensures var header := Partial(c, payload, landed, n)[..RECORD_HEADER_BYTES];
            ValidateHeader(header).None? && LengthOf(header) == LandedLength(|payload|, landed)
  {
    hide EncodeFrame, FromLe32, Le32, LandedLength;
    var header := Partial(c, payload, landed, n)[..RECORD_HEADER_BYTES];
    FrameBytes(c, payload);
    assert forall i | 0 <= i < RECORD_HEADER_BYTES :: header[i] == if i < landed then EncodeFrame(c, payload)[i] else 0;
    assert header[..4] == MAGIC && header[5..8] == [0, 0, 0];
    LandedBytes(|payload|, landed, header[8..12]);
  }

  lemma PartialMagic<B>(c: Codec<B>, payload: seq<byte>, landed: nat, n: nat)
    requires |payload| < 0x1_0000_0000 && 1 <= landed <= 4 && RECORD_HEADER_BYTES <= landed + n
    ensures var tail := Partial(c, payload, landed, n);
            tail[0] != 0 && ValidateHeader(tail[..RECORD_HEADER_BYTES]) == Some(if landed < 4 then BadMagic else BadVersion)
  {
    hide EncodeFrame;
    FrameBytes(c, payload);
    var tail := Partial(c, payload, landed, n);
    assert tail[0] == EncodeFrame(c, payload)[..4][0];
    if landed < 4 {
      assert tail[..RECORD_HEADER_BYTES][..4][landed] == 0 != MAGIC[landed];
    } else {
      assert tail[..RECORD_HEADER_BYTES][..4] == EncodeFrame(c, payload)[..4];
    }
  }

  lemma LandedAtMost(length: nat, landed: nat)
    ensures LandedLength(length, landed) <= length
  {
  }

  /**
   What recovery makes of such a tail: `end` is where the record ends by the part of
   its length that landed. Torn if the file is shorter than a header, none of the frame
   landed, or the version byte landed and the file stops before `end`, or at it.
   */
  lemma PartialVerdict<B>(c: Codec<B>, limit: nat, payload: seq<byte>, landed: nat, n: nat)
    requires Writable(c, limit, payload) && landed <= RECORD_HEADER_BYTES + |payload| && 0 < landed + n
    ensures var tail, end := Partial(c, payload, landed, n), RECORD_HEADER_BYTES + LandedLength(|payload|, landed);
            if landed + n < RECORD_HEADER_BYTES || landed == 0 then Inspect(c, limit, tail) == Torn
            else if landed <= 4 then Inspect(c, limit, tail) == Damaged(if landed < 4 then BadMagic else BadVersion)
            else
              && FrameEnd(tail) == end
              && if landed + n < end then Inspect(c, limit, tail) == Torn
                 else if !ChecksOut(c, tail, end) then
                   (landed + n == end ==> Inspect(c, limit, tail) == Torn) && (landed + n > end ==> Inspect(c, limit, tail).Damaged?)
                 else Inspect(c, limit, tail) == if ChecksOutEmpty(c, tail, end) then Damaged(EmptyBatch) else Whole(end)
  {
    hide LengthOf, CrcOf, ValidateHeader, Partial, EncodeFrame, LandedLength;
    var tail := Partial(c, payload, landed, n);
    if landed == 0 {
      assert tail == Zeros(n) by { NothingLanded(c, payload, n); }
      if RECORD_HEADER_BYTES <= n { ZeroHeader(tail); }
    } else if RECORD_HEADER_BYTES <= landed + n {
      if landed <= 4 {
        PartialMagic(c, payload, landed, n);
      } else {
        LandedHeader(c, payload, landed, n);
        LandedAtMost(|payload|, landed);
      }
    }
  }

  lemma NothingLanded<B>(c: Codec<B>, payload: seq<byte>, n: nat)
    requires |payload| < 0x1_0000_0000
    ensures Partial(c, payload, 0, n) == Zeros(n)
  {
  }

  lemma ZeroHeader(tail: seq<byte>)
    requires RECORD_HEADER_BYTES <= |tail| && AllZero(tail)
    ensures ValidateHeader(tail[..RECORD_HEADER_BYTES]) == Some(BadMagic)
  {
    assert tail[..RECORD_HEADER_BYTES][..4][0] != MAGIC[0];
  }

  lemma ScanAtTail<B>(c: Codec<B>, limit: nat, payloads: seq<seq<byte>>, tail: seq<byte>)
    requires AllWritable(c, limit, payloads) && tail != []
    ensures var log := Log(c, limit, payloads);
            var r := Scan(c, limit, log + tail, 0, true);
            match Inspect(c, limit, tail)
            case Whole(k) => (r.Success? ==> |log| < r.value.validBytes) && (r.Failure? ==> |log| < r.error.byteOffset)
            case Torn => r == Success(SegmentScan(|log|, true))
            case Damaged(reason) => r == Failure(Corruption(|log|, reason))
  {
    hide Log, Inspect, EncodeFrame, Scan, Writable;
    ScanWalksLog(c, limit, [], payloads, tail, true);
    var log := Log(c, limit, payloads);
    assert [] + log + tail == log + tail;
    assert (log + tail)[|log|..] == tail;
    ScanUnfolds(c, limit, log + tail, |log|, true);
  }

  predicate RefusedAt(r: Result<SegmentScan, Corruption>, offset: nat) {
    r.Failure? && r.error.byteOffset == offset
  }

  /**
   Exactly when recovery drops such a tail and keeps the log before it, and exactly
   when it refuses the segment at that boundary. Only a tail that by chance checks
   out as a record is read as one.
   */
  lemma PartialFrameKeptIff<B>(c: Codec<B>, limit: nat, payloads: seq<seq<byte>>, payload: seq<byte>, landed: nat, n: nat)
    requires AllWritable(c, limit, payloads) && Writable(c, limit, payload)
    requires landed <= RECORD_HEADER_BYTES + |payload| && 0 < landed + n
    ensures var log, tail := Log(c, limit, payloads), Partial(c, payload, landed, n);
            var size, end := landed + n, RECORD_HEADER_BYTES + LandedLength(|payload|, landed);
            var r := Scan(c, limit, log + tail, 0, true);
            && (r == Success(SegmentScan(|log|, true))
                <==> || size < RECORD_HEADER_BYTES || landed == 0
                     || (5 <= landed && (size < end || (size == end && !ChecksOut(c, tail, end)))))
            && (RefusedAt(r, |log|)
                <==> && RECORD_HEADER_BYTES <= size
                     && (|| 1 <= landed <= 4
                         || (5 <= landed && end < size && !ChecksOut(c, tail, end))
                         || (5 <= landed && end <= size && ChecksOutEmpty(c, tail, end))))
  {
    hide Log, Inspect, EncodeFrame, Partial, LandedLength, ChecksOut, FrameEnd, Scan;
    var tail := Partial(c, payload, landed, n);
    PartialVerdict(c, limit, payload, landed, n);
    ScanAtTail(c, limit, payloads, tail);
  }

  /** The magic's first bytes, then zeros: refused. */
  lemma PartialMagicThenZerosRefused<B>(c: Codec<B>, limit: nat, payloads: seq<seq<byte>>, payload: seq<byte>, landed: nat, n: nat)
    requires AllWritable(c, limit, payloads) && Writable(c, limit, payload)
    requires 1 <= landed <= 4 && RECORD_HEADER_BYTES <= landed + n
    ensures Scan(c, limit, Log(c, limit, payloads) + Partial(c, payload, landed, n), 0, true)
         == Failure(Corruption(|Log(c, limit, payloads)|, if landed < 4 then BadMagic else BadVersion))
  {
    hide Log, Inspect, EncodeFrame, Partial, Scan, ChecksOut, ChecksOutEmpty, FrameEnd;
    PartialVerdict(c, limit, payload, landed, n);
    ScanAtTail(c, limit, payloads, Partial(c, payload, landed, n));
  }

  /** Magic and version landed, the length did not, and zeros follow the header: refused. */
  lemma LostLengthThenZerosRefused<B>(c: Codec<B>, limit: nat, payloads: seq<seq<byte>>, payload: seq<byte>, landed: nat, n: nat)
    requires AllWritable(c, limit, payloads) && Writable(c, limit, payload) && c.parse([]).None?
    requires 5 <= landed <= 8 && landed <= RECORD_HEADER_BYTES + |payload| && RECORD_HEADER_BYTES < landed + n
    ensures RefusedAt(Scan(c, limit, Log(c, limit, payloads) + Partial(c, payload, landed, n), 0, true), |Log(c, limit, payloads)|)
  {
    hide Log, EncodeFrame, Partial, Scan, Inspect;
    var tail := Partial(c, payload, landed, n);
    PartialVerdict(c, limit, payload, landed, n);
    assert tail[RECORD_HEADER_BYTES..RECORD_HEADER_BYTES] == [];
    PartialFrameKeptIff(c, limit, payloads, payload, landed, n);
  }

  /** The header landed, its payload did not, and zeros run past the record's end: refused. */
  lemma LostPayloadThenZerosRefused<B>(c: Codec<B>, limit: nat, payloads: seq<seq<byte>>, payload: seq<byte>, landed: nat, n: nat)
    requires AllWritable(c, limit, payloads) && Writable(c, limit, payload)
    requires RECORD_HEADER_BYTES <= landed < RECORD_HEADER_BYTES + |payload| < landed + n
    requires var read := payload[..landed - RECORD_HEADER_BYTES] + Zeros(RECORD_HEADER_BYTES + |payload| - landed);
             c.crc(read) != c.crc(payload)
    ensures RefusedAt(Scan(c, limit, Log(c, limit, payloads) + Partial(c, payload, landed, n), 0, true), |Log(c, limit, payloads)|)
  {
    hide Log, Scan, Inspect, EncodeFrame, LengthOf, CrcOf;
    var tail, end := Partial(c, payload, landed, n), RECORD_HEADER_BYTES + |payload|;
    PartialVerdict(c, limit, payload, landed, n);
    HeaderOfFrame(c, payload);
    assert tail[..RECORD_HEADER_BYTES] == EncodeFrame(c, payload)[..RECORD_HEADER_BYTES];
    PayloadOfFrame(c, payload);
    assert tail[RECORD_HEADER_BYTES..end] == payload[..landed - RECORD_HEADER_BYTES] + Zeros(end - landed);
    PartialFrameKeptIff(c, limit, payloads, payload, landed, n);
  }

  lemma PayloadOfFrame<B>(c: Codec<B>, payload: seq<byte>)
    requires |payload| < 0x1_0000_0000
    ensures forall i | 0 <= i < |payload| :: EncodeFrame(c, payload)[RECORD_HEADER_BYTES + i] == payload[i]
  {
  }
}
