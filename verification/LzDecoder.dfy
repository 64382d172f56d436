/**
 The bounded LZ-string decoder of the capture edge: a bit reader over base64
 symbols, an adaptive dictionary whose codes widen as it grows, and UTF-16 output
 that stops at its byte budget.
 */
module LzDecoder {
  import opened Wrappers
  import opened Powers

  datatype DecodeError = TooLarge | Undecodable

  /** One UTF-16 code unit. */
  type CodeUnit = n: nat | n < 0x1_0000

  /** A Unicode scalar value. */
  type Scalar = n: nat | n < 0xD800 || 0xE000 <= n < 0x11_0000

  const U8_CODE := 0
  const U16_CODE := 1
  const CLOSE_CODE := 2

  /** The alphabet `A-Z a-z 0-9 + /` and the padding character. */
  function KeyChar(n: nat): char
    requires n < 65
  {
    if n < 26 then 'A' + n as char
    else if n < 52 then 'a' + (n - 26) as char
    else if n < 62 then '0' + (n - 52) as char
    else if n == 62 then '+'
    else if n == 63 then '/'
    else '='
  }

  function Base64Key(): string {
    seq(65, n requires 0 <= n < 65 => KeyChar(n))
  }

  // ------------------------------------------------------------------------ bits

  /** Bit `i` of a six-bit symbol, the highest first; the padding symbol `=` is 64 and reads as six zeros. */
  function BitOf(symbol: nat, i: nat): bool
    requires i < 6
  {
    symbol / Pow2(5 - i) % 2 == 1
  }

  function Unpacked(symbols: seq<nat>): (r: seq<bool>)
    ensures |r| == 6 * |symbols|
  {
    seq(6 * |symbols|, n requires 0 <= n < 6 * |symbols| => BitOf(symbols[n / 6], n % 6))
  }

  /** Little-endian number. */
  function Number(bits: seq<bool>): (r: nat)
    ensures r < Pow2(|bits|)
  {
    if bits == [] then 0 else (if bits[0] then 1 else 0) + 2 * Number(bits[1..])
  }

  lemma {:induction false} NumberAppend(bits: seq<bool>, bit: bool)
    ensures Number(bits + [bit]) == Number(bits) + (if bit then Pow2(|bits|) else 0)
  {
    if bits != [] {
      assert (bits + [bit])[1..] == bits[1..] + [bit];
      NumberAppend(bits[1..], bit);
    } else {
      assert [bit][1..] == [];
    }
  }

  /**
   A bit reader. It fetches the following symbol as soon as the current one is
   used up, so the very last bit of the input can never be read.
   */
  class Bits {
    const input: seq<nat>
    var fetched: nat
    var value: nat
    var position: nat
    ghost var consumed: nat

    ghost predicate Valid()
      reads this
    {
      && 1 <= fetched <= |input| && value == input[fetched - 1]
      && consumed / 6 == fetched - 1 && consumed <= |Readable(input)| && position == Pow2(5 - consumed % 6)
    }

    constructor (symbols: seq<nat>)
      requires symbols != []
      ensures Valid() && fresh(this) && input == symbols && consumed == 0
    {
      input, fetched, value, position, consumed := symbols, 1, symbols[0], Pow2(5), 0;
    }

    method ReadBit() returns (bit: Option<bool>)
      requires Valid()
      modifies this
      ensures bit.Some? <==> old(consumed) < |Readable(input)|
      ensures bit.Some? ==> Valid() && consumed == old(consumed) + 1 && bit.value == Readable(input)[old(consumed)]
    {
      hide Readable, Unpacked, Pow2;
      ReadableAt(input, consumed);
      NextPosition(consumed);
      var taken := value / position % 2 == 1;
      position := position / 2;
      consumed := consumed + 1;
      if position == 0 {
        position := Pow2(5);
        if fetched == |input| {
          return None;
        }
        value, fetched := input[fetched], fetched + 1;
      }
      return Some(taken);
    }

    method ReadBits(count: nat) returns (number: Option<nat>)
      requires Valid()
      modifies this
      ensures number == Read(Readable(input), old(consumed), count)
      ensures number.Some? ==> Valid() && consumed == old(consumed) + count
    {
      hide Unpacked, Readable, Number;
      ghost var start, bits := consumed, Readable(input);
      var result, bit, weight := 0, 0, 1;
      NothingRead(bits, start);
      while bit < count
        invariant Valid() && bit <= count && consumed == start + bit && weight == Pow2(bit)
        invariant start + bit <= |bits| && result == Number(bits[start..start + bit])
      {
        var next := ReadBit();
        if next.None? {
          return None;
        }
        NumberAppend(bits[start..start + bit], next.value);
        assert bits[start..start + bit] + [next.value] == bits[start..start + bit + 1];
        result := result + if next.value then weight else 0;
        bit, weight := bit + 1, 2 * weight;
      }
      return Some(result);
    }
  }

  lemma ReadableAt(symbols: seq<nat>, n: nat)
    requires symbols != []
    ensures |Readable(symbols)| == 6 * |symbols| - 1
    ensures n < |Readable(symbols)| ==> Readable(symbols)[n] == BitOf(symbols[n / 6], n % 6)
  {
  }

  /** The mask moves from 32 down to 1 and starts over with the next symbol. */
  lemma NextPosition(n: nat)
    ensures Pow2(5 - n % 6) / 2 == if n % 6 == 5 then 0 else Pow2(5 - (n + 1) % 6)
    ensures (n + 1) / 6 == if n % 6 == 5 then n / 6 + 1 else n / 6
    ensures n % 6 == 5 ==> (n + 1) % 6 == 0
  {
  }

  lemma NothingRead(bits: seq<bool>, at: nat)
    ensures at <= |bits| ==> Number(bits[at..at + 0]) == 0
  {
  }

  /** The bits a reader can deliver. */
  function Readable(symbols: seq<nat>): seq<bool> {
    if symbols == [] then [] else Unpacked(symbols)[..6 * |symbols| - 1]
  }

  function Read(bits: seq<bool>, at: nat, count: nat): (r: Option<nat>)
    ensures r.Some? ==> r.value < Pow2(count) && at + count <= |bits|
  {
    if at + count <= |bits| then Some(Number(bits[at..at + count])) else None
  }

  // ----------------------------------------------------------------- UTF-16 output

  type HighSurrogate = n: nat | 0xD800 <= n < 0xDC00 witness 0xD800

  /** Text so far, its UTF-8 length, and a high surrogate waiting for its low half. */
  datatype Text = Text(scalars: seq<Scalar>, bytes: nat, high: Option<HighSurrogate>)

  const NoText := Text([], 0, None)

  type Byte = n: nat | n < 0x100

  /** The UTF-8 bytes of a scalar: the lead byte says how many there are, each continuation byte carries six bits. */
  function Utf8(scalar: Scalar): (r: seq<Byte>)
    ensures r != []
  {
    if scalar < 0x80 then [scalar]
    else if scalar < 0x800 then [0xC0 + scalar / 0x40, 0x80 + scalar % 0x40]
    else if scalar < 0x1_0000 then [0xE0 + scalar / 0x1000, 0x80 + scalar / 0x40 % 0x40, 0x80 + scalar % 0x40]
    else [0xF0 + scalar / 0x4_0000, 0x80 + scalar / 0x1000 % 0x40, 0x80 + scalar / 0x40 % 0x40, 0x80 + scalar % 0x40]
  }

  /** Six bits of each of the first `n` continuation bytes, the highest first. */
  function Continued(lead: nat, bytes: seq<Byte>, n: nat): Option<nat>
    decreases n
  {
    if n == 0 then Some(lead)
    else if bytes == [] || bytes[0] < 0x80 || 0xC0 <= bytes[0] then None
    else Continued(lead * 0x40 + (bytes[0] - 0x80), bytes[1..], n - 1)
  }

  /** What a UTF-8 reader finds at the start of some bytes: a number, and how many bytes it took. */
  function FromUtf8(bytes: seq<Byte>): Option<(nat, nat)> {
    if bytes == [] then None
    else
      var lead := bytes[0];
      if lead < 0x80 then Some((lead, 1))
      else if lead < 0xC0 then None
      else if lead < 0xE0 then Took(Continued(lead - 0xC0, bytes[1..], 1), 2)
      else if lead < 0xF0 then Took(Continued(lead - 0xE0, bytes[1..], 2), 3)
      else if lead < 0xF8 then Took(Continued(lead - 0xF0, bytes[1..], 3), 4)
      else None
  }

  function Took(value: Option<nat>, bytes: nat): Option<(nat, nat)> {
    match value case Some(n) => Some((n, bytes)) case None => None
  }

  lemma OneMoreByte(lead: nat, byte: Byte, rest: seq<Byte>, n: nat)
    requires 1 <= n && 0x80 <= byte < 0xC0
    ensures Continued(lead, [byte] + rest, n) == Continued(lead * 0x40 + (byte - 0x80), rest, n - 1)
  {
    assert ([byte] + rest)[1..] == rest;
  }

  /** The digits of a scalar in base 64. */
  lemma SixBits(scalar: Scalar)
    ensures scalar / 0x40 * 0x40 + scalar % 0x40 == scalar
    ensures scalar / 0x1000 * 0x40 + scalar / 0x40 % 0x40 == scalar / 0x40
    ensures scalar / 0x4_0000 * 0x40 + scalar / 0x1000 % 0x40 == scalar / 0x1000
  {
  }

  /** Whatever follows, a reader finds the scalar and takes exactly its bytes. */
  lemma Utf8ReadsBack(scalar: Scalar, more: seq<Byte>)
    ensures FromUtf8(Utf8(scalar) + more) == Some((scalar as nat, |Utf8(scalar)|))
  {
    hide Continued;
    var all, bytes := Utf8(scalar) + more, Utf8(scalar);
    SixBits(scalar);
    assert forall lead: nat :: Continued(lead, more, 0) == Some(lead) by { NoneLeft(more); }
    if 0x80 <= scalar < 0x800 {
      assert all[1..] == [bytes[1]] + more;
      OneMoreByte(scalar / 0x40, bytes[1], more, 1);
    } else if 0x800 <= scalar < 0x1_0000 {
      assert all[1..] == [bytes[1]] + ([bytes[2]] + more);
      OneMoreByte(scalar / 0x1000, bytes[1], [bytes[2]] + more, 2);
      OneMoreByte(scalar / 0x40, bytes[2], more, 1);
    } else if 0x1_0000 <= scalar {
      assert all[1..] == [bytes[1]] + ([bytes[2]] + ([bytes[3]] + more));
      OneMoreByte(scalar / 0x4_0000, bytes[1], [bytes[2]] + ([bytes[3]] + more), 3);
      OneMoreByte(scalar / 0x1000, bytes[2], [bytes[3]] + more, 2);
      OneMoreByte(scalar / 0x40, bytes[3], more, 1);
    }
  }

  lemma NoneLeft(more: seq<Byte>)
    ensures forall lead: nat :: Continued(lead, more, 0) == Some(lead)
  {
  }

  /** The UTF-8 encoding of a text. */
  function Utf8Text(scalars: seq<Scalar>): seq<Byte> {
    if scalars == [] then [] else Utf8Text(scalars[..|scalars| - 1]) + Utf8(scalars[|scalars| - 1])
  }

  /** The budget is counted in UTF-8 bytes. */
  lemma {:induction false} Utf8BytesCount(scalars: seq<Scalar>)
    ensures Utf8Bytes(scalars) == |Utf8Text(scalars)|
  {
    if scalars != [] {
      Utf8BytesCount(scalars[..|scalars| - 1]);
    }
  }

  function Utf8Length(scalar: Scalar): nat {
    if scalar < 0x80 then 1 else if scalar < 0x800 then 2 else if scalar < 0x1_0000 then 3 else 4
  }

  function Utf8Bytes(scalars: seq<Scalar>): nat {
    if scalars == [] then 0 else Utf8Bytes(scalars[..|scalars| - 1]) + Utf8Length(scalars[|scalars| - 1])
  }

  function Push(t: Text, scalar: Scalar, max: nat): Result<Text, DecodeError> {
    if t.bytes + Utf8Length(scalar) > max then Failure(TooLarge)
    else Success(Text(t.scalars + [scalar], t.bytes + Utf8Length(scalar), None))
  }

  function AppendUnit(t: Text, unit: CodeUnit, max: nat): Result<Text, DecodeError> {
    if t.high.Some? then
      if 0xDC00 <= unit < 0xE000 then Push(t, 0x1_0000 + (t.high.value - 0xD800) * 0x400 + (unit - 0xDC00), max)
      else Failure(Undecodable)
    else if 0xD800 <= unit < 0xDC00 then Success(t.(high := Some(unit)))
    else if 0xDC00 <= unit < 0xE000 then Failure(Undecodable)
    else Push(t, unit, max)
  }

  function Append(t: Text, units: seq<CodeUnit>, max: nat): Result<Text, DecodeError>
    decreases |units|
  {
    if units == [] then Success(t)
    else
      match AppendUnit(t, units[0], max)
      case Success(next) => Append(next, units[1..], max)
      case Failure(e) => Failure(e)
  }

  function Finished(t: Text): Result<seq<Scalar>, DecodeError> {
    if t.high.Some? then Failure(Undecodable) else Success(t.scalars)
  }

  /** The code units a text came from. */
  function UnitsIn(t: Text): nat {
    UnitCount(t.scalars) + if t.high.Some? then 1 else 0
  }

  function UnitCount(scalars: seq<Scalar>): nat {
    if scalars == [] then 0
    else UnitCount(scalars[..|scalars| - 1]) + if scalars[|scalars| - 1] < 0x1_0000 then 1 else 2
  }

  predicate WithinBudget(t: Text, max: nat) {
    t.bytes == Utf8Bytes(t.scalars) && t.bytes <= max && UnitCount(t.scalars) <= t.bytes
  }

  lemma {:induction false} AppendKeepsBudget(t: Text, units: seq<CodeUnit>, max: nat)
    requires WithinBudget(t, max)
    ensures Append(t, units, max).Success? ==>
              WithinBudget(Append(t, units, max).value, max) && UnitsIn(Append(t, units, max).value) == UnitsIn(t) + |units|
    decreases |units|
  {
    if units != [] {
      var next := AppendUnit(t, units[0], max);
      if next.Success? {
        if next.value.scalars != t.scalars {
          assert next.value.scalars[..|t.scalars|] == t.scalars;
        }
        AppendKeepsBudget(next.value, units[1..], max);
      }
    }
  }

  class Utf16Output {
    const maximumBytes: nat
    var text: seq<Scalar>
    var bytes: nat
    var high: Option<HighSurrogate>

    function Model(): Text
      reads this
    {
      Text(text, bytes, high)
    }

    constructor (max: nat)
      ensures fresh(this) && maximumBytes == max && Model() == NoText
    {
      maximumBytes, text, bytes, high := max, [], 0, None;
    }

    /** `append`: one unit at a time, stopping at the first that does not fit. */
    method AppendAll(units: seq<CodeUnit>) returns (error: Option<DecodeError>)
      modifies this
      ensures match old(Append(Model(), units, maximumBytes))
              case Success(t) => error == None && Model() == t
              case Failure(e) => error == Some(e)
    {
      var i := 0;
      while i < |units|
        invariant i <= |units|
        invariant Append(Model(), units[i..], maximumBytes) == old(Append(Model(), units, maximumBytes))
      {
        var unit := units[i];
        assert units[i..][1..] == units[i + 1..];
        i := i + 1;
        var character: Scalar;
        if high.Some? {
          var first: nat := high.value;
          if !(0xDC00 <= unit < 0xE000) {
            return Some(Undecodable);
          }
          character := 0x1_0000 + (first - 0xD800) * 0x400 + (unit - 0xDC00);
        } else if 0xD800 <= unit < 0xDC00 {
          high := Some(unit);
          continue;
        } else if 0xDC00 <= unit < 0xE000 {
          return Some(Undecodable);
        } else {
          character := unit;
        }
        if bytes + Utf8Length(character) > maximumBytes {
          return Some(TooLarge);
        }
        text, bytes, high := text + [character], bytes + Utf8Length(character), None;
      }
      return None;
    }
  }

  // ---------------------------------------------------------------------- decoding

  type Entry = e: seq<CodeUnit> | e != [] witness [0]

  datatype Decoder = Decoder(dictionary: seq<Entry>, previous: Entry, width: nat, enlarge: nat, at: nat, text: Text)

  /** When the current width is used up the next code takes one more bit. */
  function Widened(d: Decoder): Decoder {
    if d.enlarge == 0 then d.(width := d.width + 1, enlarge := Pow2(d.width)) else d
  }

  /** Add an entry; it uses up one code of the current width. */
  function Learned(d: Decoder, entry: Entry): Decoder
    requires 1 <= d.enlarge
  {
    Widened(d.(dictionary := d.dictionary + [entry], enlarge := d.enlarge - 1))
  }

  /** The codes in use and those left at this width are together all codes of the width. */
  predicate CodesFit(d: Decoder) {
    && |d.dictionary| + d.enlarge == Pow2(d.width) && 1 <= d.enlarge && 3 <= d.width
    && 4 <= |d.dictionary|
  }

  datatype Progress = More(d: Decoder) | Closed(text: Text) | Failed(error: DecodeError)

  /** Write out entry `code`, which may be the one being defined right now, and learn the previous entry plus its first unit. */
  function Emit(d: Decoder, code: nat, max: nat): (r: Progress)
    requires CodesFit(d)
    ensures r.More? ==> CodesFit(r.d) && r.d.at == d.at
  {
    if |d.dictionary| < code then Failed(Undecodable)
    else
      var entry: Entry := if code < |d.dictionary| then d.dictionary[code] else d.previous + [d.previous[0]];
      match Append(d.text, entry, max)
      case Failure(e) => Failed(e)
      case Success(text) => More(Learned(d, d.previous + [entry[0]]).(previous := entry, text := text))
  }

  datatype Fetched = Broken | Close | Code(d: Decoder, index: nat)

  /** Read the next code; a literal unit becomes a dictionary entry of its own before it is written out. */
  function Fetch(bits: seq<bool>, d: Decoder): (r: Fetched)
    requires CodesFit(d)
    ensures r.Code? ==> CodesFit(r.d) && d.at + 3 <= r.d.at <= |bits|
  {
    match Read(bits, d.at, d.width)
    case None => Broken
    case Some(code) =>
      if code == CLOSE_CODE then Close
      else if code == U8_CODE || code == U16_CODE then FetchLiteral(bits, d.(at := d.at + d.width), 8 * code + 8)
      else Code(d.(at := d.at + d.width), code)
  }

  function FetchLiteral(bits: seq<bool>, d: Decoder, width: nat): (r: Fetched)
    requires CodesFit(d) && (width == 8 || width == 16)
    ensures r.Code? ==> CodesFit(r.d) && d.at <= r.d.at <= |bits|
  {
    match Read(bits, d.at, width)
    case None => Broken
    case Some(unit) => LiteralFits(width); Code(Learned(d, [unit]).(at := d.at + width), |d.dictionary|)
  }

  function Step(bits: seq<bool>, d: Decoder, max: nat): (r: Progress)
    requires CodesFit(d)
    ensures r.More? ==> CodesFit(r.d) && d.at + 3 <= r.d.at <= |bits|
  {
    match Fetch(bits, d)
    case Broken => Failed(Undecodable)
    case Close => Closed(d.text)
    case Code(next, index) => Emit(next, index, max)
  }

  lemma LiteralFits(width: nat)
    requires width == 8 || width == 16
    ensures Pow2(width) <= 0x1_0000
  {
    assert Pow2(8) == 256;
  }

  function Loop(bits: seq<bool>, d: Decoder, max: nat): Result<seq<Scalar>, DecodeError>
    requires CodesFit(d)
    decreases |bits| - d.at
  {
    match Step(bits, d, max)
    case Failed(e) => Failure(e)
    case Closed(text) => Finished(text)
    case More(next) => Loop(bits, next, max)
  }

  // ---------------------------------------------------------------- a whole payload

  function Position(key: string, c: char): Option<nat> {
    if key == "" then None
    else if key[0] == c then Some(0)
    else match Position(key[1..], c) case Some(n) => Some(n + 1) case None => None
  }

  function Symbols(payload: string): Option<seq<nat>> {
    if payload == "" then Some([])
    else
      match (Position(Base64Key(), payload[0]), Symbols(payload[1..]))
      case (Some(n), Some(rest)) => Some([n] + rest)
      case _ => None
  }

  /** Dictionary after the first unit; the entries 0, 1 and 2 are never looked up. */
  function First(unit: CodeUnit, at: nat, text: Text): (d: Decoder)
    ensures CodesFit(d)
  {
    assert Pow2(3) == 8;
    Decoder([[0], [1], [2], [unit]], [unit], 3, 4, at, text)
  }

  /** The first symbol has two bits and is never a back reference. */
  function Begin(bits: seq<bool>, max: nat): Result<seq<Scalar>, DecodeError> {
    match Read(bits, 0, 2)
    case None => Failure(Undecodable)
    case Some(code) =>
      if code == CLOSE_CODE then Success([])
      else if code != U8_CODE && code != U16_CODE then Failure(Undecodable)
      else
        match Read(bits, 2, 8 * code + 8)
        case None => Failure(Undecodable)
        case Some(unit) =>
          LiteralFits(8 * code + 8);
          match Append(NoText, [unit], max)
          case Failure(e) => Failure(e)
          case Success(text) => Loop(bits, First(unit, 10 + 8 * code, text), max)
  }

  /** What `decompress_lz64_bounded` answers. */
  function Decompressed(payload: string, max: nat): Result<seq<Scalar>, DecodeError> {
    match Symbols(payload)
    case None => Failure(Undecodable)
    case Some(symbols) => if symbols == [] then Failure(Undecodable) else Begin(Readable(symbols), max)
  }

  /** Work done so far is paid for by bits read and units written. */
  predicate Affordable(d: Decoder, max: nat) {
    && WithinBudget(d.text, max)
    && |d.dictionary| <= d.at && 1 <= d.width && d.enlarge <= Pow2(d.width - 1)
    && Weight(d.dictionary) + |d.previous| <= UnitsIn(d.text) + |d.dictionary|
  }

  function Weight(dictionary: seq<Entry>): nat {
    if dictionary == [] then 0 else Weight(dictionary[..|dictionary| - 1]) + |dictionary[|dictionary| - 1]|
  }

  lemma WeightAppend(dictionary: seq<Entry>, entry: Entry)
    ensures Weight(dictionary + [entry]) == Weight(dictionary) + |entry|
  {
    assert (dictionary + [entry])[..|dictionary|] == dictionary;
  }

  /** Every step keeps the accounts balanced. */
  lemma EmitAffordable(d: Decoder, code: nat, max: nat)
    requires CodesFit(d) && Affordable(d, max) && |d.dictionary| < d.at
    ensures Emit(d, code, max).More? ==> Affordable(Emit(d, code, max).d, max)
  {
    hide Pow2, Utf8Bytes, UnitCount, Append, Weight;
    if Emit(d, code, max).More? {
      var entry: Entry := if code < |d.dictionary| then d.dictionary[code] else d.previous + [d.previous[0]];
      AppendKeepsBudget(d.text, entry, max);
      WeightAppend(d.dictionary, d.previous + [entry[0]]);
    }
  }

  lemma FetchAffordable(bits: seq<bool>, d: Decoder, max: nat)
    requires CodesFit(d) && Affordable(d, max)
    ensures var f := Fetch(bits, d); f.Code? ==> Affordable(f.d, max) && |f.d.dictionary| < f.d.at
  {
    hide Utf8Bytes, UnitCount, Weight, Number, Pow2;
    var f := Fetch(bits, d);
    if f.Code? && f.d.dictionary != d.dictionary {
      WeightAppend(d.dictionary, f.d.dictionary[|d.dictionary|]);
    }
  }

  lemma StepAffordable(bits: seq<bool>, d: Decoder, max: nat)
    requires CodesFit(d) && Affordable(d, max)
    ensures Step(bits, d, max).More? ==> Affordable(Step(bits, d, max).d, max)
  {
    hide Affordable, CodesFit, Emit, Fetch;
    FetchAffordable(bits, d, max);
    var f := Fetch(bits, d);
    if f.Code? {
      EmitAffordable(f.d, f.index, max);
    }
  }

  const MAX_BATCH_BODY_BYTES := 20 * 1024 * 1024

  lemma {:induction false} Pow2Grows(a: nat, b: nat)
    requires a <= b
    ensures Pow2(a) <= Pow2(b)
  {
    if a < b {
      Pow2Grows(a, b - 1);
    }
  }

  /** A code always fits 32 bits: so many dictionary entries need more input than any accepted body holds. */
  lemma CodesStayNarrow(d: Decoder, max: nat, symbols: nat)
    requires CodesFit(d) && Affordable(d, max) && d.at <= 6 * symbols && symbols <= MAX_BATCH_BODY_BYTES
    ensures d.width < 32 && |d.dictionary| < 0x1_0000_0000
  {
    PowerOf27();
    if 28 <= d.width {
      Pow2Grows(27, d.width - 1);
    }
  }

  lemma PowerOf27()
    ensures Pow2(27) == 0x800_0000
  {
    assert Pow2(9) == 512;
    assert Pow2(18) == 512 * 512;
  }

  /** The dictionary costs no more than what was written, plus one unit per entry. */
  lemma DictionaryIsLinear(d: Decoder, max: nat)
    requires Affordable(d, max)
    ensures Weight(d.dictionary) <= max + 1 + |d.dictionary|
  {
  }

  /** The decoder after that many turns of its loop, if it gets that far. */
  function StateAfter(bits: seq<bool>, d: Decoder, turns: nat, max: nat): (r: Option<Decoder>)
    requires CodesFit(d)
    ensures r.Some? ==> CodesFit(r.value) && (r.value.at <= |bits| || r.value == d)
    decreases turns
  {
    if turns == 0 then Some(d)
    else
      match Step(bits, d, max)
      case More(next) => StateAfter(bits, next, turns - 1, max)
      case _ => None
  }

  /**
   At every loop head, for every accepted body: the next code fits the current
   width, the width fits a machine word, and the dictionary has cost no more than
   the output and its own entry count.
   */
  lemma {:induction false} EveryLoopHead(symbols: seq<nat>, d: Decoder, turns: nat, max: nat)
    requires |symbols| <= 20_971_520 && CodesFit(d) && Affordable(d, max) && d.at <= |Readable(symbols)|
    requires StateAfter(Readable(symbols), d, turns, max).Some?
    ensures var r := StateAfter(Readable(symbols), d, turns, max).value;
            && |r.dictionary| + r.enlarge == Pow2(r.width) && r.width < 32
            && Weight(r.dictionary) <= max + 1 + |r.dictionary| && |Utf8Text(r.text.scalars)| <= max
    decreases turns
  {
    hide Step, Weight, Utf8Bytes, Pow2, Unpacked;
    if turns == 0 {
      CodesStayNarrow(d, max, |symbols|);
      DictionaryIsLinear(d, max);
      Utf8BytesCount(d.text.scalars);
    } else {
      StepAffordable(Readable(symbols), d, max);
      EveryLoopHead(symbols, Step(Readable(symbols), d, max).d, turns - 1, max);
    }
  }

  /** `decompress_lz64_bounded`. */
  method Decompress(payload: string, maximumBytes: nat) returns (result: Result<seq<Scalar>, DecodeError>)
    ensures result == Decompressed(payload, maximumBytes)
    ensures result.Success? ==> |Utf8Text(result.value)| <= maximumBytes
  {
    forall text { Utf8BytesCount(text); }
    hide Append, Number, Pow2, Read, Readable, Utf8Bytes, Weight, UnitCount, Symbols, CodesFit, Affordable, Loop;
    var symbols := Symbols(payload);
    if symbols.None? || symbols.value == [] {
      NothingCostsNothing();
      return Failure(Undecodable);
    }
    var bits := new Bits(symbols.value);
    ghost var readable := Readable(symbols.value);
    var initialCode := bits.ReadBits(2);
    if initialCode.None? {
      return Failure(Undecodable);
    }
    if initialCode.value == CLOSE_CODE {
      NothingCostsNothing();
      return Success([]);
    }
    if initialCode.value != U8_CODE && initialCode.value != U16_CODE {
      return Failure(Undecodable);
    }
    var first := bits.ReadBits(8 * initialCode.value + 8);
    if first.None? {
      return Failure(Undecodable);
    }
    LiteralFits(8 * initialCode.value + 8);
    var unit: CodeUnit := first.value;
    var output := new Utf16Output(maximumBytes);
    var failed := output.AppendAll([unit]);
    if failed.Some? {
      return Failure(failed.value);
    }
    FirstAffordable(unit, bits.consumed, maximumBytes);
    result := DecodeRest(bits, output, unit);
  }

  /** The main loop, after the first unit was written out. */
  method DecodeRest(bits: Bits, output: Utf16Output, unit: CodeUnit) returns (result: Result<seq<Scalar>, DecodeError>)
    requires bits.Valid() && Affordable(First(unit, bits.consumed, output.Model()), output.maximumBytes)
    modifies bits, output
    ensures result == old(Loop(Readable(bits.input), First(unit, bits.consumed, output.Model()), output.maximumBytes))
    ensures result.Success? ==> Utf8Bytes(result.value) <= output.maximumBytes
  {
    hide Append, Number, Pow2, Read, Readable, Utf8Bytes, Weight, UnitCount, CodesFit, Affordable, Loop, Fetch, Emit, Learned, Widened;
    var maximumBytes := output.maximumBytes;
    ghost var readable := Readable(bits.input);
    ghost var start := First(unit, bits.consumed, output.Model());
    ghost var d := start;
    var dictionary: seq<Entry>, previous: Entry, codeWidth, enlargeIn := [[0], [1], [2], [unit]], [unit], 3, 4;
    assert d == Decoder(dictionary, previous, codeWidth, enlargeIn, bits.consumed, output.Model());
    hide First, Finished, WithinBudget;
    while true
      invariant bits.Valid()
      invariant d == Decoder(dictionary, previous, codeWidth, enlargeIn, bits.consumed, output.Model())
      invariant CodesFit(d) && Affordable(d, maximumBytes)
      invariant Loop(readable, d, maximumBytes) == Loop(readable, start, maximumBytes)
      decreases |readable| - d.at
    {
      StepAffordable(readable, d, maximumBytes);
      LoopUnfolds(readable, d, maximumBytes);
      FetchCases(readable, d);
      assert enlargeIn > 0 by { CodesLeft(d); }
      var read := bits.ReadBits(codeWidth);
      if read.None? {
        return Failure(Undecodable);
      }
      var code := read.value;
      if code == CLOSE_CODE {
        WithinMaximum(d, maximumBytes);
        return if output.high.Some? then Failure(Undecodable) else Success(output.text);
      }
      if code == U8_CODE || code == U16_CODE {
        var literal := bits.ReadBits(8 * code + 8);
        if literal.None? {
          return Failure(Undecodable);
        }
        LiteralFits(8 * code + 8);
        var added: CodeUnit := literal.value;
        code := |dictionary|;
        dictionary := dictionary + [[added]];
        enlargeIn := enlargeIn - 1;
        if enlargeIn == 0 {
          enlargeIn, codeWidth := Pow2(codeWidth), codeWidth + 1;
        }
      }
      d := Decoder(dictionary, previous, codeWidth, enlargeIn, bits.consumed, output.Model());
      EmitCases(d, code, maximumBytes);
      if |dictionary| < code {
        return Failure(Undecodable);
      }
      var entry: Entry := if code < |dictionary| then dictionary[code] else previous + [previous[0]];
      var failed := output.AppendAll(entry);
      if failed.Some? {
        return Failure(failed.value);
      }
      dictionary := dictionary + [previous + [entry[0]]];
      assert enlargeIn > 0 by { CodesLeft(d); }
      enlargeIn := enlargeIn - 1;
      previous := entry;
      if enlargeIn == 0 {
        enlargeIn, codeWidth := Pow2(codeWidth), codeWidth + 1;
      }
      d := Decoder(dictionary, previous, codeWidth, enlargeIn, bits.consumed, output.Model());
    }
  }

  /** `Fetch`, case by case. */
  lemma FetchCases(bits: seq<bool>, d: Decoder)
    requires CodesFit(d)
    ensures var read := Read(bits, d.at, d.width);
            && (read == None ==> Fetch(bits, d) == Broken)
            && (read == Some(CLOSE_CODE) ==> Fetch(bits, d) == Close)
            && (read.Some? && read.value > CLOSE_CODE ==> Fetch(bits, d) == Code(d.(at := d.at + d.width), read.value))
            && (read.Some? && read.value < CLOSE_CODE ==>
                  var at, width := d.at + d.width, 8 * read.value + 8;
                  var unit := Read(bits, at, width);
                  && (unit == None ==> Fetch(bits, d) == Broken)
                  && (unit.Some? && unit.value < 0x1_0000 ==>
                        Fetch(bits, d) == Code(Decoder(d.dictionary + [[unit.value]], d.previous,
                                                       if d.enlarge == 1 then d.width + 1 else d.width,
                                                       if d.enlarge == 1 then Pow2(d.width) else d.enlarge - 1,
                                                       at + width, d.text),
                                               |d.dictionary|)))
    ensures Fetch(bits, d).Code? ==> CodesFit(Fetch(bits, d).d)
  {
    hide Number, Pow2, Read;
  }

  /** `Emit`, case by case. */
  lemma EmitCases(d: Decoder, code: nat, max: nat)
    requires CodesFit(d)
    ensures |d.dictionary| < code ==> Emit(d, code, max) == Failed(Undecodable)
    ensures (code <= |d.dictionary| ==>
               var entry: Entry := if code < |d.dictionary| then d.dictionary[code] else d.previous + [d.previous[0]];
               var text := Append(d.text, entry, max);
               && (text.Failure? ==> Emit(d, code, max) == Failed(text.error))
               && (text.Success? ==>
                     Emit(d, code, max) == More(Decoder(d.dictionary + [d.previous + [entry[0]]], entry,
                                                        if d.enlarge == 1 then d.width + 1 else d.width,
                                                        if d.enlarge == 1 then Pow2(d.width) else d.enlarge - 1,
                                                        d.at, text.value))))
  {
    hide Append, Pow2;
  }

  lemma CodesLeft(d: Decoder)
    requires CodesFit(d)
    ensures 0 < d.enlarge
  {
  }

  lemma WithinMaximum(d: Decoder, max: nat)
    requires Affordable(d, max)
    ensures Utf8Bytes(d.text.scalars) <= max
  {
  }

  lemma FirstAffordable(unit: CodeUnit, at: nat, max: nat)
    requires 10 <= at
    ensures var t := Append(NoText, [unit], max); t.Success? ==> Affordable(First(unit, at, t.value), max)
  {
    var dictionary: seq<Entry> := [[0], [1], [2], [unit]];
    WeightAppend([], [0]);
    WeightAppend([[0]], [1]);
    WeightAppend([[0], [1]], [2]);
    WeightAppend([[0], [1], [2]], [unit]);
    assert [[0], [1], [2]] + [[unit]] == dictionary;
    AppendKeepsBudget(NoText, [unit], max);
  }

  lemma LoopUnfolds(bits: seq<bool>, d: Decoder, max: nat)
    requires CodesFit(d)
    ensures var p := Step(bits, d, max);
            Loop(bits, d, max) == (if p.Failed? then Failure(p.error) else if p.Closed? then Finished(p.text) else Loop(bits, p.d, max))
  {
  }

  lemma NothingCostsNothing()
    ensures Utf8Bytes([]) == 0
  {
  }
}
