/**
 Reading the write-ahead log: sealed segments, cursors, byte-bounded windows and
 reclamation, as the publisher sees them while the writer keeps sealing.
 */
module WalWindow {
  import opened Wrappers

  /** One durable record and the bytes its frame occupies. */
  datatype Rec<T> = Rec(value: T, framedBytes: nat)

  datatype Segment<T> = Segment(number: nat, records: seq<Rec<T>>)

  /** The next byte a consumer has not incorporated yet. */
  datatype Cursor = Cursor(segment: nat, byteOffset: nat)

  datatype Layout<T> = Layout(sealed: seq<Segment<T>>, active: Option<Segment<T>>)

  /** No record is empty: a frame has at least its header. */
  predicate Framed<T>(records: seq<Rec<T>>) {
    forall i | 0 <= i < |records| :: 0 < records[i].framedBytes
  }

  predicate Contiguous<T>(segments: seq<Segment<T>>) {
    forall i | 0 <= i < |segments| :: segments[i].number == segments[0].number + i && Framed(segments[i].records)
  }

  /** What `discover_segment_layout` accepts. */
  predicate WellFormed<T>(layout: Layout<T>) {
    && Contiguous(layout.sealed)
    && (layout.sealed != [] ==> 1 <= layout.sealed[0].number)
    && (layout.active.Some? ==>
          && 1 <= layout.active.value.number && Framed(layout.active.value.records)
          && (layout.sealed != [] ==> layout.active.value.number == layout.sealed[0].number + |layout.sealed|))
  }

  function Bytes<T>(records: seq<Rec<T>>): nat {
    if records == [] then 0 else records[0].framedBytes + Bytes(records[1..])
  }

  function Flatten<T>(segments: seq<Segment<T>>): seq<Rec<T>> {
    if segments == [] then [] else segments[0].records + Flatten(segments[1..])
  }

  /** Byte offset of record `k` in its segment. */
  function Offset<T>(records: seq<Rec<T>>, k: nat): nat
    requires k <= |records|
  {
    Bytes(records[..k])
  }

  lemma {:induction false} OffsetStep<T>(records: seq<Rec<T>>, k: nat)
    requires k < |records|
    ensures Offset(records, k + 1) == Offset(records, k) + records[k].framedBytes
  {
    if 0 < k {
      OffsetStep(records[1..], k - 1);
      assert records[..k][1..] == records[1..][..k - 1];
      assert records[..k + 1][1..] == records[1..][..k];
    } else {
      assert records[..1] == [records[0]] && records[..0] == [];
      assert records[..1][1..] == [];
    }
  }

  lemma {:induction false} OffsetsGrow<T>(records: seq<Rec<T>>, j: nat, k: nat)
    requires Framed(records) && j < k <= |records|
    ensures Offset(records, j) < Offset(records, k)
  {
    OffsetStep(records, k - 1);
    if j < k - 1 {
      OffsetsGrow(records, j, k - 1);
    }
  }

  /** The records a cursor still has before it in one segment: those starting at or after its offset. */
  function Rest<T>(records: seq<Rec<T>>, offset: nat): seq<Rec<T>> {
    if records == [] || offset == 0 then records
    else Rest(records[1..], if records[0].framedBytes <= offset then offset - records[0].framedBytes else 0)
  }

  lemma {:induction false} RestAtBoundary<T>(records: seq<Rec<T>>, k: nat)
    requires Framed(records) && k <= |records|
    ensures Rest(records, Offset(records, k)) == records[k..]
  {
    if k == 0 {
      assert records[..0] == [];
    } else {
      assert records[..k][1..] == records[1..][..k - 1];
      RestAtBoundary(records[1..], k - 1);
    }
  }

  /** Everything sealed and not yet incorporated by a consumer at `cursor`, in log order. */
  function Pending<T>(segments: seq<Segment<T>>, cursor: Cursor): seq<Rec<T>> {
    if segments == [] then []
    else
      (if segments[0].number < cursor.segment then []
       else if segments[0].number == cursor.segment then Rest(segments[0].records, cursor.byteOffset)
       else segments[0].records)
      + Pending(segments[1..], cursor)
  }

  lemma {:induction false} PendingBeyond<T>(segments: seq<Segment<T>>, cursor: Cursor)
    requires forall i | 0 <= i < |segments| :: segments[i].number < cursor.segment
    ensures Pending(segments, cursor) == []
  {
    if segments != [] {
      PendingBeyond(segments[1..], cursor);
    }
  }

  lemma {:induction false} PendingBefore<T>(segments: seq<Segment<T>>, cursor: Cursor)
    requires forall i | 0 <= i < |segments| :: cursor.segment < segments[i].number || cursor == Cursor(segments[i].number, 0)
    ensures Pending(segments, cursor) == Flatten(segments)
  {
    if segments != [] {
      PendingBefore(segments[1..], cursor);
    }
  }

  lemma {:induction false} PendingSplit<T>(a: seq<Segment<T>>, b: seq<Segment<T>>, cursor: Cursor)
    ensures Pending(a + b, cursor) == Pending(a, cursor) + Pending(b, cursor)
  {
    if a == [] {
      assert a + b == b;
    } else {
      assert (a + b)[1..] == a[1..] + b;
      PendingSplit(a[1..], b, cursor);
    }
  }

  // -------------------------------------------------------------------- cursors

  /** Start of the segment the writer creates next, while it is mid-seal. */
  function NextSegmentCursor<T>(layout: Layout<T>): Option<Cursor> {
    if layout.active.Some? || layout.sealed == [] then None
    else Some(Cursor(layout.sealed[|layout.sealed| - 1].number + 1, 0))
  }

  predicate BoundaryOf<T>(segment: Segment<T>, cursor: Cursor) {
    cursor.segment == segment.number
    && exists k | 0 <= k <= |segment.records| :: cursor.byteOffset == Offset(segment.records, k)
  }

  /** What `validate_cursor` accepts. */
  predicate ValidCursor<T>(layout: Layout<T>, cursor: Cursor) {
    || (exists i | 0 <= i < |layout.sealed| :: BoundaryOf(layout.sealed[i], cursor))
    || (layout.active.Some? && BoundaryOf(layout.active.value, cursor))
    || NextSegmentCursor(layout) == Some(cursor)
  }

  /** The writer seals no empty segment. */
  predicate NoneEmpty<T>(segments: seq<Segment<T>>) {
    forall i | 0 <= i < |segments| :: segments[i].records != []
  }

  /** The cursor is the end of its own sealed segment. */
  predicate AtSealedEnd<T>(segments: seq<Segment<T>>, cursor: Cursor) {
    exists i | 0 <= i < |segments| :: cursor == Cursor(segments[i].number, Bytes(segments[i].records))
  }

  lemma StartIsBoundary<T>(segment: Segment<T>)
    ensures BoundaryOf(segment, Cursor(segment.number, 0))
  {
    assert segment.records[..0] == [];
    assert Offset(segment.records, 0) == 0;
  }

  /** Where a consumer stands after every sealed record: the start of the segment being written, or about to be. */
  function Terminal<T>(layout: Layout<T>): Option<Cursor> {
    if layout.active.Some? then Some(Cursor(layout.active.value.number, 0)) else NextSegmentCursor(layout)
  }

  // --------------------------------------------------------------- sealed records

  datatype Span = Span(start: Cursor, end: Cursor)

  class SealedRecords<T> {
    const segments: seq<Segment<T>>
    const terminal: Option<Cursor>
    const openedAt: Cursor
    var segmentIndex: nat
    var isOpen: bool
    var next: Cursor
    var finished: bool
    /** Record of the current segment that the file position names. */
    ghost var index: nat

    ghost function Left(): seq<Rec<T>>
      reads this
    {
      if segmentIndex < |segments| && index <= |segments[segmentIndex].records|
      then segments[segmentIndex].records[index..] + Flatten(segments[segmentIndex + 1..])
      else []
    }

    /** The reader stands at record `index` of segment `segmentIndex`, and `next` says so. */
    ghost predicate Valid()
      reads this
    {
      && Contiguous(segments)
      && (segments != [] ==> terminal == Some(Cursor(segments[0].number + |segments|, 0)))
      && segmentIndex <= |segments|
      && (segmentIndex < |segments| ==>
            && index <= |segments[segmentIndex].records|
            && next == Cursor(segments[segmentIndex].number, Offset(segments[segmentIndex].records, index)))
      && (segmentIndex == |segments| ==> !isOpen && (segments != [] ==> Some(next) == terminal))
      && (segments == [] ==> next == openedAt)
      && (segmentIndex < |segments| && next != openedAt ==>
            index < |segments[segmentIndex].records| || segments[segmentIndex].records == [])
      && (finished ==> Left() == [])
    }

    /** `open_once`, for a layout and cursor that were accepted. */
    constructor (layout: Layout<T>, cursor: Cursor)
      requires WellFormed(layout) && ValidCursor(layout, cursor)
      ensures Valid() && fresh(this) && next == cursor == openedAt && !finished
      ensures Left() == Pending(layout.sealed, cursor)
      ensures segments == From(layout.sealed, cursor.segment)
      ensures segments == [] ==> Pending(layout.sealed, cursor) == []
      ensures segments != [] ==> terminal == Terminal(layout)
    {
      ghost var k := OpensAt(layout, cursor);
      segments := From(layout.sealed, cursor.segment);
      terminal, openedAt := Terminal(layout), cursor;
      segmentIndex, isOpen, next, finished := 0, false, cursor, false;
      index := k;
    }

    /** `next_record`: the next whole record, opening the following segments as needed. */
    method NextRecord() returns (r: Option<(Rec<T>, Span)>)
      requires Valid()
      modifies this
      ensures Valid() && finished == old(finished)
      ensures old(Left()) == [] ==> r == None && Left() == [] && segmentIndex == |segments|
      ensures old(Left()) != [] ==>
                && r.Some? && r.value.0 == old(Left())[0] && Left() == old(Left())[1..]
                && r.value.1.end == Cursor(r.value.1.start.segment, r.value.1.start.byteOffset + r.value.0.framedBytes)
    {
      hide Rest, Bytes, Offset, Flatten, Contiguous, Framed;
      while segmentIndex < |segments|
        invariant Valid() && Left() == old(Left()) && finished == old(finished)
        decreases |segments| - segmentIndex
      {
        var segment := segments[segmentIndex];
        Open();
        var start := next;
        var rest := Rest(segment.records, start.byteOffset);
        StandsInSegment();
        if rest != [] {
          var end := Cursor(start.segment, start.byteOffset + rest[0].framedBytes);
          Pass(end);
          return Some((rest[0], Span(start, end)));
        }
        Advance(next);
      }
      return None;
    }

    /** Open the current segment where the cursor says, unless it is open. */
    method Open()
      requires Valid() && segmentIndex < |segments|
      modifies this`isOpen, this`next
      ensures Valid() && isOpen && next == old(next) && Left() == old(Left())
    {
      hide Offset, Flatten, Contiguous;
      if !isOpen {
        var segment := segments[segmentIndex];
        var offset := if segment.number == next.segment then next.byteOffset else 0;
        next := Cursor(segment.number, offset);
        isOpen := true;
      }
    }

    /** What the file holds from the cursor on is what is left of the segment. */
    lemma StandsInSegment()
      requires Valid() && segmentIndex < |segments|
      ensures Rest(segments[segmentIndex].records, next.byteOffset) == segments[segmentIndex].records[index..]
    {
      hide Rest, Bytes, Offset, Flatten;
      RestAtBoundary(segments[segmentIndex].records, index);
    }

    /** Step past the record that ends at `end`. */
    method Pass(end: Cursor)
      requires Valid() && segmentIndex < |segments| && index < |segments[segmentIndex].records|
      requires end == Cursor(next.segment, next.byteOffset + segments[segmentIndex].records[index].framedBytes)
      modifies this
      ensures Valid() && finished == old(finished) && Left() == old(Left())[1..]
    {
      var records := segments[segmentIndex].records;
      assert Framed(records);
      hide Bytes, Offset, Flatten, Contiguous, Framed, Rest;
      ghost var others := Flatten(segments[segmentIndex + 1..]);
      DropsOne(records, index, others);
      assert !finished;
      OffsetStep(records, index);
      index := index + 1;
      EndOffset(records);
      if end.byteOffset == Bytes(records) {
        AtEnd(records, index);
        assert records[index..] + others == others;
        Advance(end);
      } else {
        next := end;
      }
    }

    /** Leave the current segment for the start of the following one, or of the one being written. */
    method Advance(end: Cursor)
      requires Contiguous(segments) && segmentIndex < |segments|
      requires terminal == Some(Cursor(segments[0].number + |segments|, 0))
      requires index == |segments[segmentIndex].records|
      requires finished ==> Flatten(segments[segmentIndex + 1..]) == []
      modifies this
      ensures Valid() && finished == old(finished) && segmentIndex == old(segmentIndex) + 1
      ensures Left() == Flatten(segments[old(segmentIndex) + 1..])
    {
      segmentIndex, isOpen := segmentIndex + 1, false;
      index := 0;
      if segmentIndex < |segments| {
        next := Cursor(segments[segmentIndex].number, 0);
        assert segments[segmentIndex].records[..0] == [];
        assert segments[segmentIndex..][1..] == segments[segmentIndex + 1..];
      } else {
        next := if terminal.Some? then terminal.value else end;
      }
    }

    method Finish()
      requires Valid() && Left() == []
      modifies this`finished
      ensures Valid() && finished && Left() == []
    {
      finished := true;
    }

    /** A consumer that stops here and resumes from `next` later finds exactly what is left. */
    lemma LeftIsPending(layout: Layout<T>, cursor: Cursor)
      requires Valid() && WellFormed(layout) && segments != [] && terminal == Terminal(layout)
      requires segments == From(layout.sealed, cursor.segment)
      ensures Left() == Pending(layout.sealed, next) && ValidCursor(layout, next)
      ensures next != openedAt && NoneEmpty(layout.sealed) ==> !AtSealedEnd(layout.sealed, next)
    {
      LeftMatches(layout, cursor);
      NextIsValid(layout, cursor);
    }

    lemma LeftMatches(layout: Layout<T>, cursor: Cursor)
      requires Valid() && WellFormed(layout) && segments != [] && segments == From(layout.sealed, cursor.segment)
      ensures Left() == Pending(layout.sealed, next)
    {
      hide Rest, Bytes, Offset, Flatten, Pending, From, Framed;
      var sealed := layout.sealed;
      FromIsSuffix(sealed, cursor.segment);
      var n := |sealed| - |segments|;
      assert segments[0] == sealed[n] && sealed[n].number == sealed[0].number + n;
      StandsAt(sealed, n + segmentIndex, index, next);
      if segmentIndex < |segments| {
        assert sealed[n + segmentIndex + 1..] == segments[segmentIndex + 1..];
      }
    }

    lemma NextIsValid(layout: Layout<T>, cursor: Cursor)
      requires Valid() && WellFormed(layout) && segments != [] && terminal == Terminal(layout)
      requires segments == From(layout.sealed, cursor.segment)
      ensures ValidCursor(layout, next)
      ensures next != openedAt && NoneEmpty(layout.sealed) ==> !AtSealedEnd(layout.sealed, next)
    {
      hide Rest, Bytes, Offset, Flatten, Pending, From, Framed;
      var sealed := layout.sealed;
      FromIsSuffix(sealed, cursor.segment);
      var n := |sealed| - |segments|;
      assert segments[0] == sealed[n] && sealed[n].number == sealed[0].number + n;
      if segmentIndex < |segments| {
        assert sealed[n + segmentIndex] == segments[segmentIndex];
        assert BoundaryOf(sealed[n + segmentIndex], next);
        if next != openedAt && NoneEmpty(sealed) {
          BeforeEnd(segments[segmentIndex].records, index);
        }
      } else if layout.active.Some? {
        StartIsBoundary(layout.active.value);
        assert BoundaryOf(layout.active.value, next);
      }
    }
  }

  lemma DropsOne<R>(records: seq<R>, index: nat, others: seq<R>)
    requires index < |records|
    ensures records[index..] + others != [] && (records[index..] + others)[1..] == records[index + 1..] + others
  {
  }

  /** Lazy byte-bounded view over sealed records. */
  class PublicationWindow<T> {
    const records: SealedRecords<T>
    const maxBytes: nat
    var checkpoint: Cursor
    var framedBytes: nat
    var finished: bool

    constructor (layout: Layout<T>, cursor: Cursor, maxBytes: nat)
      requires WellFormed(layout) && ValidCursor(layout, cursor)
      ensures fresh(this) && fresh(records) && records.Valid()
      ensures checkpoint == cursor && framedBytes == 0 && !finished && this.maxBytes == maxBytes
      ensures records.Left() == Pending(layout.sealed, cursor) && records.next == cursor == records.openedAt && !records.finished
      ensures records.segments == From(layout.sealed, cursor.segment)
      ensures records.segments == [] ==> Pending(layout.sealed, cursor) == []
      ensures records.segments != [] ==> records.terminal == Terminal(layout)
    {
      records := new SealedRecords(layout, cursor);
      this.maxBytes := maxBytes;
      checkpoint, framedBytes, finished := cursor, 0, false;
    }

    /** The view stands at a cursor a consumer may resume from, and what is left is what is pending there. */
    ghost predicate Reads(layout: Layout<T>, cursor: Cursor)
      reads this, records
    {
      && records.Valid() && !finished && !records.finished && checkpoint == records.next
      && WellFormed(layout) && records.openedAt == cursor && records.segments == From(layout.sealed, cursor.segment)
      && (records.segments != [] ==> records.terminal == Terminal(layout))
      && (records.segments == [] ==> Pending(layout.sealed, cursor) == [])
      && records.Left() == Pending(layout.sealed, checkpoint) && ValidCursor(layout, checkpoint)
      && (checkpoint != cursor && NoneEmpty(layout.sealed) ==> !AtSealedEnd(layout.sealed, checkpoint))
    }

    /** `next`, in terms of what is pending at the checkpoint. */
    method Pull(layout: Layout<T>, cursor: Cursor) returns (r: Option<Rec<T>>)
      requires Reads(layout, cursor)
      modifies this, records
      ensures r.Some? ==>
                && Reads(layout, cursor)
                && old(Pending(layout.sealed, checkpoint)) != [] && r.value == old(Pending(layout.sealed, checkpoint))[0]
                && Pending(layout.sealed, checkpoint) == old(Pending(layout.sealed, checkpoint))[1..]
                && framedBytes == old(framedBytes) + r.value.framedBytes && (old(framedBytes) > 0 ==> framedBytes <= maxBytes)
      ensures r.None? ==>
                && framedBytes == old(framedBytes) && ValidCursor(layout, checkpoint)
                && Pending(layout.sealed, checkpoint) == old(Pending(layout.sealed, checkpoint))
                && (checkpoint != cursor && NoneEmpty(layout.sealed) ==> !AtSealedEnd(layout.sealed, checkpoint))
                && (if Pending(layout.sealed, checkpoint) == [] then checkpoint == cursor || Some(checkpoint) == Terminal(layout)
                    else 0 < framedBytes && maxBytes < framedBytes + Pending(layout.sealed, checkpoint)[0].framedBytes)
    {
      hide Pending, Rest, Flatten, Offset, From, ValidCursor, WellFormed, Terminal, Contiguous, Framed, Bytes, AtSealedEnd, NoneEmpty;
      r := Next();
      if records.segments != [] {
        records.LeftIsPending(layout, cursor);
      }
    }

    /** The next record that still fits, or nothing; a record pulled past the budget is left for the next window. */
    method Next() returns (r: Option<Rec<T>>)
      requires records.Valid()
      modifies this, records
      ensures records.Valid()
      ensures r.Some? ==>
                && old(records.Left()) != [] && r.value == old(records.Left())[0]
                && records.Left() == old(records.Left())[1..]
                && framedBytes == old(framedBytes) + r.value.framedBytes
                && (old(framedBytes) > 0 ==> framedBytes <= maxBytes)
                && checkpoint == records.next && finished == old(finished)
      ensures r.None? ==> finished && framedBytes == old(framedBytes)
      ensures r.Some? ==> !records.finished
      ensures r.None? && !old(finished) && !old(records.finished) && old(records.Left()) == [] ==>
                records.Left() == [] && checkpoint == records.next && records.segmentIndex == |records.segments|
      ensures r.None? && !old(finished) && old(records.Left()) != [] ==>
                && checkpoint == old(checkpoint)
                && 0 < framedBytes && maxBytes < framedBytes + old(records.Left())[0].framedBytes
      ensures old(finished) ==> r.None? && checkpoint == old(checkpoint)
    {
      if finished {
        return None;
      }
      var pulled: Option<Rec<T>> := None;
      if !records.finished {
        var got := records.NextRecord();
        if got.Some? {
          pulled := Some(got.value.0);
        } else {
          records.Finish();
        }
      }
      if pulled.None? {
        checkpoint := records.next;
        finished := true;
        return None;
      }
      var record := pulled.value;
      if framedBytes > 0 && framedBytes + record.framedBytes > maxBytes {
        finished := true;
        return None;
      }
      framedBytes := framedBytes + record.framedBytes;
      checkpoint := records.next;
      return Some(record);
    }
  }

  /**
   One bounded window from `cursor`: the records read and the cursor to resume
   from. What the window yields and what is left at the new cursor are together
   exactly what was pending.
   */
  method ReadWindow<T>(layout: Layout<T>, cursor: Cursor, maxBytes: nat) returns (window: seq<Rec<T>>, next: Cursor)
    requires WellFormed(layout) && ValidCursor(layout, cursor)
    ensures window + Pending(layout.sealed, next) == Pending(layout.sealed, cursor)
    ensures ValidCursor(layout, next)
    ensures next != cursor && NoneEmpty(layout.sealed) ==> !AtSealedEnd(layout.sealed, next)
    ensures window == [] <==> Pending(layout.sealed, cursor) == []
    ensures |window| <= 1 || Bytes(window) <= maxBytes
    ensures Pending(layout.sealed, next) != [] ==> maxBytes < Bytes(window) + Pending(layout.sealed, next)[0].framedBytes
    ensures window != [] && Pending(layout.sealed, next) == [] ==> Some(next) == Terminal(layout)
    ensures window == [] ==> next == cursor || Some(next) == Terminal(layout)
  {
    FramedLayout(layout, cursor);
    window := [];
    assert Bytes(window) == 0;
    hide Pending, Rest, Flatten, Offset, From, ValidCursor, WellFormed, Terminal, Contiguous, Framed, Bytes, AtSealedEnd, NoneEmpty;
    var reader := new PublicationWindow(layout, cursor, maxBytes);
    ghost var all := Pending(layout.sealed, cursor);
    ghost var left := all;
    while true
      invariant fresh(reader) && fresh(reader.records) && reader.Reads(layout, cursor)
      invariant left == Pending(layout.sealed, reader.checkpoint) && window + left == all
      invariant reader.framedBytes == Bytes(window) && Framed(left) && (0 < |window| ==> 0 < Bytes(window))
      invariant |window| <= 1 || Bytes(window) <= maxBytes
      decreases |left|
    {
      var record := reader.Pull(layout, cursor);
      if record.None? {
        break;
      }
      TakenIntoWindow(window, left);
      window := window + [record.value];
      left := left[1..];
    }
    next := reader.checkpoint;
  }

  /** Moving the next record into the window. */
  lemma TakenIntoWindow<T>(window: seq<Rec<T>>, left: seq<Rec<T>>)
    requires Framed(left) && left != []
    ensures window + left == (window + [left[0]]) + left[1..]
    ensures Bytes(window + [left[0]]) == Bytes(window) + left[0].framedBytes && 0 < left[0].framedBytes
    ensures Framed(left[1..])
  {
    BytesAppend(window, left[0]);
  }

  lemma {:induction false} BytesAppend<T>(records: seq<Rec<T>>, record: Rec<T>)
    ensures Bytes(records + [record]) == Bytes(records) + record.framedBytes
  {
    if records != [] {
      assert (records + [record])[1..] == records[1..] + [record];
      BytesAppend(records[1..], record);
    }
  }

  lemma FramedLayout<T>(layout: Layout<T>, cursor: Cursor)
    requires WellFormed(layout)
    ensures Framed(Pending(layout.sealed, cursor))
  {
    PendingFramed(layout.sealed, cursor);
  }

  lemma {:induction false} PendingFramed<T>(segments: seq<Segment<T>>, cursor: Cursor)
    requires forall i | 0 <= i < |segments| :: Framed(segments[i].records)
    ensures Framed(Pending(segments, cursor))
  {
    if segments != [] {
      RestFramed(segments[0].records, cursor.byteOffset);
      PendingFramed(segments[1..], cursor);
    }
  }

  lemma {:induction false} RestFramed<T>(records: seq<Rec<T>>, offset: nat)
    requires Framed(records)
    ensures Framed(Rest(records, offset))
  {
    if records != [] && offset != 0 {
      RestFramed(records[1..], if records[0].framedBytes <= offset then offset - records[0].framedBytes else 0);
    }
  }

  /** Cursors at or after `number` see the same records in the filtered segments. */
  lemma {:induction false} PendingFiltered<T>(segments: seq<Segment<T>>, number: nat, cursor: Cursor)
    requires number <= cursor.segment
    ensures Pending(From(segments, number), cursor) == Pending(segments, cursor)
  {
    if segments != [] {
      PendingFiltered(segments[1..], number, cursor);
    }
  }

  /** Offset `|segment|` is reached only after the last record. */
  lemma AtEnd<T>(records: seq<Rec<T>>, k: nat)
    requires Framed(records) && k <= |records| && Offset(records, k) == Bytes(records)
    ensures k == |records|
  {
    assert records[..|records|] == records;
    if k < |records| {
      OffsetsGrow(records, k, |records|);
    }
  }

  lemma EndOffset<T>(records: seq<Rec<T>>)
    ensures Offset(records, |records|) == Bytes(records)
  {
    assert records[..|records|] == records;
  }

  lemma BeforeEnd<T>(records: seq<Rec<T>>, k: nat)
    requires Framed(records) && k < |records|
    ensures Offset(records, k) < Bytes(records)
  {
    assert records[..|records|] == records;
    OffsetsGrow(records, k, |records|);
  }

  /** Segments numbered `number` and up: the filter of the open. */
  function From<T>(segments: seq<Segment<T>>, number: nat): seq<Segment<T>> {
    if segments == [] then []
    else if segments[0].number < number then From(segments[1..], number)
    else [segments[0]] + From(segments[1..], number)
  }

  /** For contiguous segments the filter keeps a suffix. */
  lemma {:induction false} FromIsSuffix<T>(segments: seq<Segment<T>>, number: nat)
    requires Contiguous(segments)
    ensures var n := if segments == [] || number <= segments[0].number then 0
                     else if number - segments[0].number <= |segments| then number - segments[0].number
                     else |segments|;
            From(segments, number) == segments[n..]
  {
    if segments != [] {
      FromIsSuffix(segments[1..], number);
      if number <= segments[0].number && |segments| > 1 {
        assert segments[1..][0].number == segments[0].number + 1;
      }
    }
  }

  /** Standing at record `k` of segment `i`, with a cursor that says so. */
  lemma StandsAt<T>(segments: seq<Segment<T>>, i: nat, k: nat, cursor: Cursor)
    requires Contiguous(segments) && i <= |segments|
    requires i < |segments| ==> k <= |segments[i].records| && cursor == Cursor(segments[i].number, Offset(segments[i].records, k))
    requires i == |segments| && segments != [] ==> cursor == Cursor(segments[0].number + |segments|, 0)
    ensures Pending(segments, cursor)
         == if i < |segments| then segments[i].records[k..] + Flatten(segments[i + 1..]) else []
  {
    if segments != [] {
      assert segments == segments[..i] + segments[i..];
      PendingSplit(segments[..i], segments[i..], cursor);
      PendingBeyond(segments[..i], cursor);
      if i < |segments| {
        RestAtBoundary(segments[i].records, k);
        PendingBefore(segments[i..][1..], cursor);
        assert segments[i..][1..] == segments[i + 1..];
      }
    }
  }

  /** The record that starts at `offset`, when one does. */
  ghost function RecordAt<T>(records: seq<Rec<T>>, offset: nat): (k: nat) {
    if j :| 0 <= j <= |records| && offset == Offset(records, j) then j else 0
  }

  /** Where a valid cursor stands in the first segment the open keeps. */
  lemma OpensAt<T>(layout: Layout<T>, cursor: Cursor) returns (k: nat)
    requires WellFormed(layout) && ValidCursor(layout, cursor)
    ensures var segments := From(layout.sealed, cursor.segment);
            && Contiguous(segments)
            && (segments == [] ==> Pending(layout.sealed, cursor) == [])
            && (segments != [] ==>
                  && k <= |segments[0].records|
                  && cursor == Cursor(segments[0].number, Offset(segments[0].records, k))
                  && Terminal(layout) == Some(Cursor(segments[0].number + |segments|, 0))
                  && Pending(layout.sealed, cursor) == segments[0].records[k..] + Flatten(segments[1..]))
  {
    hide Rest, Bytes, Offset, Flatten, Pending, From;
    var sealed := layout.sealed;
    var segments := From(sealed, cursor.segment);
    FromIsSuffix(sealed, cursor.segment);
    k := 0;
    if segments == [] {
      PendingBeyond(sealed, cursor);
    } else {
      var i := |sealed| - |segments|;
      assert segments[0] == sealed[i];
      assert sealed[i].number == sealed[0].number + i;
      assert BoundaryOf(sealed[i], cursor);
      k := RecordAt(segments[0].records, cursor.byteOffset);
      StandsAt(sealed, i, k, cursor);
      assert segments[1..] == sealed[i + 1..];
    }
  }
}
