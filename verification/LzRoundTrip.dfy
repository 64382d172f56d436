/**
 A reference LZ-string encoder (the client's `compressToBase64`), and the proof
 that the bounded decoder inverts it.
 */
module LzRoundTrip {
  import opened Wrappers
  import opened Powers
  import opened LzDecoder

  // ---------------------------------------------------------------------- the encoder

  /** `pendingUnit`: the current phrase is a unit the decoder has not been sent yet. */
  datatype Encoder = Encoder(dictionary: seq<Entry>, phrase: Entry, pendingUnit: bool, width: nat, enlarge: nat)

  /** The lowest code of an entry; codes 0, 1 and 2 are not entries. */
  function Find(dictionary: seq<Entry>, e: Entry, from: nat): (r: Option<nat>)
    ensures r.Some? ==> from <= r.value < |dictionary| && dictionary[r.value] == e
    ensures r.None? ==> forall i | from <= i < |dictionary| :: dictionary[i] != e
    decreases |dictionary| - from
  {
    if |dictionary| <= from then None
    else if dictionary[from] == e then Some(from)
    else Find(dictionary, e, from + 1)
  }

  predicate Has(dictionary: seq<Entry>, e: Entry) {
    Find(dictionary, e, 3).Some?
  }

  /** `count` bits of `n`, the lowest first. */
  function Write(n: nat, count: nat): (r: seq<bool>)
    ensures |r| == count
  {
    if count == 0 then [] else [n % 2 == 1] + Write(n / 2, count - 1)
  }

  function LiteralWidth(unit: CodeUnit): nat {
    if unit < 256 then 8 else 16
  }

  function LiteralCode(unit: CodeUnit): nat {
    if unit < 256 then U8_CODE else U16_CODE
  }

  function CodeBits(c: Encoder): seq<bool>
    requires !c.pendingUnit ==> Has(c.dictionary, c.phrase)
  {
    if c.pendingUnit then Write(LiteralCode(c.phrase[0]), c.width) + Write(c.phrase[0], LiteralWidth(c.phrase[0]))
    else Write(Find(c.dictionary, c.phrase, 3).value, c.width)
  }

  /** One code spent. */
  function Spent(width: nat, enlarge: nat): (nat, nat) {
    if enlarge <= 1 then (width + 1, Pow2(width)) else (width, enlarge - 1)
  }

  /** The width and remaining codes after the current phrase was sent. */
  function After(c: Encoder): (nat, nat) {
    var once := Spent(c.width, c.enlarge);
    if c.pendingUnit then Spent(once.0, once.1) else once
  }

  function WithUnit(dictionary: seq<Entry>, u: CodeUnit): seq<Entry> {
    if Has(dictionary, [u]) then dictionary else dictionary + [[u]]
  }

  /** The phrase is sent; the phrase plus the next unit becomes an entry. */
  function Sent(c: Encoder, u: CodeUnit): Encoder {
    var width := After(c);
    Encoder(WithUnit(c.dictionary, u) + [c.phrase + [u]], [u], !Has(c.dictionary, [u]), width.0, width.1)
  }

  function Encode(c: Encoder, rest: seq<CodeUnit>): seq<bool>
    requires !c.pendingUnit ==> Has(c.dictionary, c.phrase)
    decreases |rest|
  {
    if rest == [] then CodeBits(c) + Write(CLOSE_CODE, After(c).0)
    else
      var u := rest[0];
      var dictionary := WithUnit(c.dictionary, u);
      if Has(dictionary, c.phrase + [u]) then
        Encode(c.(dictionary := dictionary, phrase := c.phrase + [u], pendingUnit := false), rest[1..])
      else
        assert Has(c.dictionary, [u]) ==> Has(Sent(c, u).dictionary, [u]) by { if Has(c.dictionary, [u]) { HasMore(c.dictionary, [c.phrase + [u]], [u]); } }
        CodeBits(c) + Encode(Sent(c, u), rest[1..])
  }

  lemma HasMore(dictionary: seq<Entry>, more: seq<Entry>, e: Entry)
    requires Has(dictionary, e)
    ensures Has(dictionary + more, e)
  {
    var i := Find(dictionary, e, 3).value;
    assert (dictionary + more)[i] == e;
  }

  function Opening(u: CodeUnit): Encoder {
    Encoder([[0], [1], [2], [u]], [u], true, 2, 2)
  }

  function Compressed(units: seq<CodeUnit>): seq<bool> {
    if units == [] then Write(CLOSE_CODE, 2) else Encode(Opening(units[0]), units[1..])
  }

  // ------------------------------------------------------------------------- bits

  lemma {:induction false} WriteReads(n: nat, count: nat)
    requires n < Pow2(count)
    ensures Number(Write(n, count)) == n
  {
    if count > 0 {
      WriteReads(n / 2, count - 1);
    }
  }

  /** A number written at `at` is the number read there. */
  lemma ReadsWritten(bits: seq<bool>, at: nat, n: nat, count: nat, rest: seq<bool>)
    requires at <= |bits| && bits[at..] == Write(n, count) + rest && n < Pow2(count)
    ensures Read(bits, at, count) == Some(n) && at + count <= |bits| && bits[at + count..] == rest
  {
    WriteReads(n, count);
    var tail := bits[at..];
    assert |tail| == count + |rest|;
    assert bits[at..at + count] == tail[..count];
    assert tail[..count] == Write(n, count);
    assert bits[at + count..] == tail[count..];
    assert tail[count..] == rest;
  }

  // ------------------------------------------------------------ encoder and decoder in step

  /** Every unit of every entry is an entry itself. */
  predicate UnitsKnown(dictionary: seq<Entry>) {
    forall i, j | 3 <= i < |dictionary| && 0 <= j < |dictionary[i]| :: Has(dictionary, [dictionary[i][j]])
  }

  predicate Sound(c: Encoder) {
    && 4 <= |c.dictionary| && UnitsKnown(c.dictionary) && Has(c.dictionary, c.phrase)
    && (c.pendingUnit ==>
          && |c.phrase| == 1
          && forall i | 3 <= i < |c.dictionary| && c.dictionary[i][0] == c.phrase[0] :: c.dictionary[i] == c.phrase)
  }

  /** The decoder lags by the unit it has not been sent and the entry it cannot complete yet. */
  predicate InStep(c: Encoder, d: Decoder) {
    && CodesFit(d) && Sound(c)
    && c.width == d.width && c.enlarge == d.enlarge
    && c.dictionary == d.dictionary + (if c.pendingUnit then [c.phrase] else []) + [d.previous + [c.phrase[0]]]
  }

  /** Adding a unit, then a phrase over known units, keeps all units known. */
  lemma KnownGrows(dictionary: seq<Entry>, u: CodeUnit, phrase: Entry)
    requires 3 <= |dictionary| && UnitsKnown(dictionary) && Has(dictionary, phrase)
    ensures var r := WithUnit(dictionary, u) + [phrase + [u]];
            UnitsKnown(r) && Has(r, [u]) && UnitsKnown(WithUnit(dictionary, u)) && Has(WithUnit(dictionary, u), [u])
  {
    var one := WithUnit(dictionary, u);
    assert Has(one, [u]) by {
      if !Has(dictionary, [u]) { assert one[|dictionary|] == [u]; }
    }
    forall i, j | 3 <= i < |one| && 0 <= j < |one[i]| ensures Has(one, [one[i][j]]) {
      if i < |dictionary| {
        assert Has(dictionary, [dictionary[i][j]]);
        if one != dictionary { HasMore(dictionary, [[u]], [dictionary[i][j]]); }
      }
    }
    var r := one + [phrase + [u]];
    HasMore(one, [phrase + [u]], [u]);
    var p := Find(dictionary, phrase, 3).value;
    assert one[p] == phrase;
    forall i, j | 3 <= i < |r| && 0 <= j < |r[i]| ensures Has(r, [r[i][j]]) {
      if i < |one| {
        assert Has(one, [one[i][j]]);
      } else {
        assert r[i] == phrase + [u];
        assert j < |phrase| ==> phrase[j] == one[p][j];
        assert Has(one, [r[i][j]]);
      }
      HasMore(one, [phrase + [u]], [r[i][j]]);
    }
  }

  /** A unit the dictionary does not know starts no entry. */
  lemma UnknownStartsNothing(dictionary: seq<Entry>, u: CodeUnit)
    requires UnitsKnown(dictionary) && !Has(dictionary, [u])
    ensures forall i | 3 <= i < |dictionary| :: u !in dictionary[i]
  {
  }

  /** A phrase that grows stays in step: the decoder knows nothing of it yet. */
  lemma GrowKeepsStep(c: Encoder, d: Decoder, u: CodeUnit)
    requires InStep(c, d) && Has(WithUnit(c.dictionary, u), c.phrase + [u])
    ensures WithUnit(c.dictionary, u) == c.dictionary && !c.pendingUnit
    ensures InStep(c.(phrase := c.phrase + [u], pendingUnit := false), d)
  {
    var longer: Entry := c.phrase + [u];
    var one := WithUnit(c.dictionary, u);
    var i := Find(one, longer, 3).value;
    assert |longer| >= 2;
    if one != c.dictionary {
      UnknownStartsNothing(c.dictionary, u);
      assert false;
    }
  }

  /** The encoder after sending its phrase. */
  lemma SentSound(c: Encoder, u: CodeUnit)
    requires Sound(c) && !Has(WithUnit(c.dictionary, u), c.phrase + [u])
    ensures Sound(Sent(c, u))
  {
    var r := Sent(c, u);
    KnownGrows(c.dictionary, u, c.phrase);
    if r.pendingUnit {
      UnknownStartsNothing(c.dictionary, u);
      var p := Find(c.dictionary, c.phrase, 3).value;
      assert c.phrase[0] in c.dictionary[p];
    }
  }

  /** Codes of the current width can name everything the encoder may send. */
  lemma CodeFitsWidth(c: Encoder, d: Decoder)
    requires InStep(c, d)
    ensures 4 <= Pow2(c.width) && (!c.pendingUnit ==> CLOSE_CODE < Find(c.dictionary, c.phrase, 3).value < Pow2(c.width))
  {
  }

  lemma LiteralRange(u: CodeUnit)
    ensures u < Pow2(LiteralWidth(u)) && LiteralWidth(u) == 8 * LiteralCode(u) + 8
  {
    assert Pow2(8) == 256;
    assert Pow2(16) == 0x1_0000;
  }

  /** The decoder's state after reading the code the encoder sent: the entry to write out is the encoder's phrase. */
  lemma FetchesSent(c: Encoder, d: Decoder, bits: seq<bool>, rest: seq<bool>)
    requires InStep(c, d) && d.at <= |bits| && bits[d.at..] == CodeBits(c) + rest
    ensures var f := Fetch(bits, d);
            && f.Code? && CodesFit(f.d) && f.index <= |f.d.dictionary| && f.d.text == d.text && f.d.previous == d.previous
            && (f.index < |f.d.dictionary| ==> f.d.dictionary[f.index] == c.phrase)
            && (f.index == |f.d.dictionary| ==> d.previous + [d.previous[0]] == c.phrase)
            && f.d.dictionary + [d.previous + [c.phrase[0]]] == c.dictionary
            && (f.d.width, f.d.enlarge) == (if c.pendingUnit then Spent(c.width, c.enlarge) else (c.width, c.enlarge))
            && f.d.at <= |bits| && bits[f.d.at..] == rest
  {
    hide Pow2, Number, Write, Find, UnitsKnown;
    CodeFitsWidth(c, d);
    FetchCases(bits, d);
    if c.pendingUnit {
      var u := c.phrase[0];
      LiteralRange(u);
      var second := Write(u, LiteralWidth(u)) + rest;
      assert bits[d.at..] == Write(LiteralCode(u), c.width) + second;
      ReadsWritten(bits, d.at, LiteralCode(u), c.width, second);
      ReadsWritten(bits, d.at + c.width, u, LiteralWidth(u), rest);
    } else {
      ReadsWritten(bits, d.at, Find(c.dictionary, c.phrase, 3).value, c.width, rest);
    }
  }

  lemma {:induction false} AppendConcat(t: Text, a: seq<CodeUnit>, b: seq<CodeUnit>, max: nat)
    ensures Append(t, a + b, max) == match Append(t, a, max) case Success(next) => Append(next, b, max) case Failure(e) => Failure(e)
    decreases |a|
  {
    if a == [] {
      assert a + b == b;
    } else {
      assert (a + b)[1..] == a[1..] + b;
      var next := AppendUnit(t, a[0], max);
      if next.Success? {
        AppendConcat(next.value, a[1..], b, max);
      }
    }
  }

  /** Writing out the phrase leaves the decoder where the encoder's next state expects it. */
  lemma EmitsSent(c: Encoder, d: Decoder, f: Decoder, index: nat, max: nat)
    requires InStep(c, d) && CodesFit(f) && index <= |f.dictionary| && f.text == d.text && f.previous == d.previous
    requires index < |f.dictionary| ==> f.dictionary[index] == c.phrase
    requires index == |f.dictionary| ==> d.previous + [d.previous[0]] == c.phrase
    requires f.dictionary + [d.previous + [c.phrase[0]]] == c.dictionary
    requires (f.width, f.enlarge) == (if c.pendingUnit then Spent(c.width, c.enlarge) else (c.width, c.enlarge))
    ensures var text := Append(d.text, c.phrase, max);
            && (text.Failure? ==> Emit(f, index, max) == Failed(text.error))
            && (text.Success? ==>
                  var p := Emit(f, index, max);
                  p == More(Decoder(c.dictionary, c.phrase, After(c).0, After(c).1, f.at, text.value)) && CodesFit(p.d))
  {
    hide Append, Pow2, Find, UnitsKnown, Sound;
    EmitCases(f, index, max);
  }

  function Answer(r: Result<Text, DecodeError>): Result<seq<Scalar>, DecodeError> {
    match r case Success(t) => Finished(t) case Failure(e) => Failure(e)
  }

  /** From any pair of states in step, the decoder writes out exactly what the encoder has left. */
  lemma {:induction false} LoopInverts(c: Encoder, d: Decoder, rest: seq<CodeUnit>, bits: seq<bool>, tail: seq<bool>, max: nat)
    requires InStep(c, d) && d.at <= |bits| && bits[d.at..] == Encode(c, rest) + tail
    ensures Loop(bits, d, max) == Answer(Append(d.text, c.phrase + rest, max))
    decreases |rest|
  {
    hide Pow2, Number, Write, Find, UnitsKnown, Append, Fetch, Emit, CodesFit, Sound, Has, CodeBits;
    if rest == [] {
      LastInverts(c, d, bits, tail, max);
      assert c.phrase + rest == c.phrase;
    } else {
      var u := rest[0];
      assert rest == [u] + rest[1..];
      assert c.phrase + rest == c.phrase + [u] + rest[1..];
      if Has(WithUnit(c.dictionary, u), c.phrase + [u]) {
        GrowKeepsStep(c, d, u);
        LoopInverts(c.(dictionary := WithUnit(c.dictionary, u), phrase := c.phrase + [u], pendingUnit := false), d, rest[1..], bits, tail, max);
      } else {
        SentInverts(c, d, rest, bits, tail, max);
      }
    }
  }

  lemma SentInverts(c: Encoder, d: Decoder, rest: seq<CodeUnit>, bits: seq<bool>, tail: seq<bool>, max: nat)
    requires InStep(c, d) && d.at <= |bits| && bits[d.at..] == Encode(c, rest) + tail
    requires rest != [] && !Has(WithUnit(c.dictionary, rest[0]), c.phrase + [rest[0]])
    ensures Loop(bits, d, max) == Answer(Append(d.text, c.phrase + rest, max))
    decreases |rest|, 0
  {
    hide Pow2, Number, Write, Find, UnitsKnown, Append, Fetch, Emit, Has, CodeBits;
    var u := rest[0];
    var next := Sent(c, u);
    SentSound(c, u);
    var after := Encode(next, rest[1..]) + tail;
    assert bits[d.at..] == CodeBits(c) + after;
    FetchesSent(c, d, bits, after);
    var f := Fetch(bits, d);
    EmitsSent(c, d, f.d, f.index, max);
    LoopUnfolds(bits, d, max);
    AppendConcat(d.text, c.phrase, rest, max);
    var text := Append(d.text, c.phrase, max);
    if text.Success? {
      var e := Emit(f.d, f.index, max).d;
      assert WithUnit(c.dictionary, u) == c.dictionary + (if next.pendingUnit then [[u]] else []);
      assert next.dictionary == e.dictionary + (if next.pendingUnit then [next.phrase] else []) + [e.previous + [u]];
      assert rest == next.phrase + rest[1..];
      LoopInverts(next, e, rest[1..], bits, tail, max);
    }
  }

  lemma LastInverts(c: Encoder, d: Decoder, bits: seq<bool>, tail: seq<bool>, max: nat)
    requires InStep(c, d) && d.at <= |bits| && bits[d.at..] == Encode(c, []) + tail
    ensures Loop(bits, d, max) == Answer(Append(d.text, c.phrase, max))
  {
    hide Pow2, Number, Write, Find, UnitsKnown, Append, Fetch, Emit, Has, CodeBits;
    var close := Write(CLOSE_CODE, After(c).0);
    assert bits[d.at..] == CodeBits(c) + (close + tail);
    FetchesSent(c, d, bits, close + tail);
    var f := Fetch(bits, d);
    EmitsSent(c, d, f.d, f.index, max);
    LoopUnfolds(bits, d, max);
    if Append(d.text, c.phrase, max).Success? {
      var e := Emit(f.d, f.index, max).d;
      ClosesAt(e, bits, tail, max);
    }
  }

  lemma ClosesAt(d: Decoder, bits: seq<bool>, tail: seq<bool>, max: nat)
    requires CodesFit(d) && d.at <= |bits| && bits[d.at..] == Write(CLOSE_CODE, d.width) + tail
    ensures Loop(bits, d, max) == Finished(d.text)
  {
    hide Number, Write, Emit;
    ReadsWritten(bits, d.at, CLOSE_CODE, d.width, tail);
    FetchCases(bits, d);
  }

  // ------------------------------------------------------------------ a whole payload

  lemma OpeningIsSound(u: CodeUnit)
    ensures Sound(Opening(u))
  {
    assert Opening(u).dictionary[3] == [u];
  }

  lemma OpeningCannotGrow(u: CodeUnit, v: CodeUnit)
    ensures !Has(WithUnit(Opening(u).dictionary, v), [u] + [v])
  {
    var longer: Entry := [u] + [v];
    assert |longer| == 2;
    assert forall i | 3 <= i < |WithUnit(Opening(u).dictionary, v)| :: |WithUnit(Opening(u).dictionary, v)[i]| == 1;
  }

  /** The first symbol, sent with two-bit codes, brings both sides to three-bit codes. */
  lemma BeginInverts(units: seq<CodeUnit>, bits: seq<bool>, tail: seq<bool>, max: nat)
    requires units != [] && bits == Compressed(units) + tail
    ensures Begin(bits, max) == Answer(Append(NoText, units, max))
  {
    hide Number, Write, Find, UnitsKnown, Has, Loop, Sound, Encode, Begin;
    var u, rest := units[0], units[1..];
    var c := Opening(u);
    OpeningBits(u, rest);
    var after := if rest == [] then Write(CLOSE_CODE, 3) else Encode(Sent(c, rest[0]), rest[1..]);
    assert bits == Write(LiteralCode(u), 2) + (Write(u, LiteralWidth(u)) + (after + tail));
    BeginReads(u, bits, after + tail, max);
    assert units == [u] + rest;
    AppendConcat(NoText, [u], rest, max);
    var text := Append(NoText, [u], max);
    if text.Success? {
      var d := First(u, 2 + LiteralWidth(u), text.value);
      if rest == [] {
        ClosesAt(d, bits, tail, max);
      } else {
        OpeningInStep(u, rest[0], d);
        assert rest == [rest[0]] + rest[1..];
        LoopInverts(Sent(c, rest[0]), d, rest[1..], bits, tail, max);
      }
    }
  }

  /** The decoder's first two reads. */
  lemma BeginReads(u: CodeUnit, bits: seq<bool>, rest: seq<bool>, max: nat)
    requires bits == Write(LiteralCode(u), 2) + (Write(u, LiteralWidth(u)) + rest)
    ensures Begin(bits, max) == (match Append(NoText, [u], max)
                                 case Failure(e) => Failure(e)
                                 case Success(text) => Loop(bits, First(u, 2 + LiteralWidth(u), text), max))
    ensures 2 + LiteralWidth(u) <= |bits| && bits[2 + LiteralWidth(u)..] == rest
  {
    assert Pow2(2) == 4;
    hide Number, Write, Loop, Append, Pow2, First;
    LiteralRange(u);
    assert bits[0..] == bits;
    ReadsWritten(bits, 0, LiteralCode(u), 2, Write(u, LiteralWidth(u)) + rest);
    ReadsWritten(bits, 2, u, LiteralWidth(u), rest);
  }

  lemma OpeningBits(u: CodeUnit, rest: seq<CodeUnit>)
    ensures Encode(Opening(u), rest)
         == Write(LiteralCode(u), 2) + Write(u, LiteralWidth(u))
            + (if rest == [] then Write(CLOSE_CODE, 3) else Encode(Sent(Opening(u), rest[0]), rest[1..]))
    ensures rest != [] ==> !Sent(Opening(u), rest[0]).pendingUnit ==> Has(Sent(Opening(u), rest[0]).dictionary, [rest[0]])
  {
    if rest != [] {
      OpeningCannotGrow(u, rest[0]);
      OpeningIsSound(u);
      SentSound(Opening(u), rest[0]);
    }
  }

  lemma OpeningInStep(u: CodeUnit, v: CodeUnit, d: Decoder)
    requires d.dictionary == [[0], [1], [2], [u]] && d.previous == [u] && d.width == 3 && d.enlarge == 4
    ensures InStep(Sent(Opening(u), v), d)
  {
    OpeningIsSound(u);
    OpeningCannotGrow(u, v);
    SentSound(Opening(u), v);
    assert Pow2(2) == 4 && Pow2(3) == 8;
  }

  /** Bits as six-bit symbols, the highest bit first, with at least one bit of zero padding. */
  function Packed(bits: seq<bool>): seq<nat> {
    seq(|bits| / 6 + 1, n requires 0 <= n < |bits| / 6 + 1 => SymbolAt(bits, 6 * n))
  }

  function SymbolAt(bits: seq<bool>, at: nat): (r: nat)
    ensures r < 64
  {
    Weight1(bits, at, 32) + Weight1(bits, at + 1, 16) + Weight1(bits, at + 2, 8)
    + Weight1(bits, at + 3, 4) + Weight1(bits, at + 4, 2) + Weight1(bits, at + 5, 1)
  }

  function Weight1(bits: seq<bool>, at: nat, weight: nat): nat {
    if at < |bits| && bits[at] then weight else 0
  }

  lemma SymbolBit(bits: seq<bool>, at: nat, i: nat)
    requires i < 6
    ensures BitOf(SymbolAt(bits, at), i) == (at + i < |bits| && bits[at + i])
  {
    assert Pow2(0) == 1 && Pow2(1) == 2 && Pow2(2) == 4 && Pow2(3) == 8 && Pow2(4) == 16 && Pow2(5) == 32;
  }

  /** Whatever symbols follow, the reader delivers the packed bits first. */
  lemma PackedReads(bits: seq<bool>, padding: seq<nat>)
    ensures |bits| <= |Readable(Packed(bits) + padding)| && Readable(Packed(bits) + padding)[..|bits|] == bits
  {
    var symbols := Packed(bits) + padding;
    assert symbols != [];
    ReadableAt(symbols, 0);
    forall n | 0 <= n < |bits| ensures Readable(symbols)[n] == bits[n] {
      ReadableAt(symbols, n);
      assert symbols[n / 6] == SymbolAt(bits, 6 * (n / 6));
      SymbolBit(bits, 6 * (n / 6), n % 6);
    }
  }

  function Chars(symbols: seq<nat>): string
    requires forall i | 0 <= i < |symbols| :: symbols[i] < 65
  {
    if symbols == [] then "" else [KeyChar(symbols[0])] + Chars(symbols[1..])
  }

  /** `=` up to a multiple of four characters. */
  function Padding(length: nat): seq<nat> {
    if length % 4 == 0 then [] else if length % 4 == 1 then [64, 64, 64] else if length % 4 == 2 then [64, 64] else [64]
  }

  /** `compressToBase64`. */
  function Payload(units: seq<CodeUnit>): string {
    var symbols := Packed(Compressed(units));
    Chars(symbols + Padding(|symbols|))
  }

  lemma {:induction false} PositionFound(key: string, n: nat)
    requires n < |key| && forall i | 0 <= i < n :: key[i] != key[n]
    ensures Position(key, key[n]) == Some(n)
  {
    if n > 0 {
      assert forall i | 0 <= i < n - 1 :: key[1..][i] == key[i + 1];
      PositionFound(key[1..], n - 1);
    }
  }

  lemma KeyPosition(n: nat)
    requires n < 65
    ensures Position(Base64Key(), KeyChar(n)) == Some(n)
  {
    assert Base64Key()[n] == KeyChar(n);
    forall i | 0 <= i < n ensures Base64Key()[i] != Base64Key()[n] {
      assert Base64Key()[i] == KeyChar(i);
    }
    PositionFound(Base64Key(), n);
  }

  lemma {:induction false} SymbolsOfChars(symbols: seq<nat>)
    requires forall i | 0 <= i < |symbols| :: symbols[i] < 65
    ensures Symbols(Chars(symbols)) == Some(symbols)
  {
    hide Position;
    if symbols != [] {
      KeyPosition(symbols[0]);
      SymbolsOfChars(symbols[1..]);
      assert Chars(symbols)[1..] == Chars(symbols[1..]);
      assert [symbols[0]] + symbols[1..] == symbols;
    }
  }

  /** Decoding what the encoder produced writes out exactly its input, within the budget. */
  lemma DecoderInvertsEncoder(units: seq<CodeUnit>, max: nat)
    ensures Decompressed(Payload(units), max) == Answer(Append(NoText, units, max))
  {
    hide Compressed, Packed, Begin, Append, Padding, Chars, Symbols, Readable;
    var bits := Compressed(units);
    var packed := Packed(bits);
    var symbols := packed + Padding(|packed|);
    SymbolsInRange(bits);
    SymbolsOfChars(symbols);
    PackedReads(bits, Padding(|packed|));
    var readable := Readable(symbols);
    assert readable == bits + readable[|bits|..];
    if units == [] {
      EmptyInverts(readable, readable[|bits|..], max);
    } else {
      BeginInverts(units, readable, readable[|bits|..], max);
    }
  }

  lemma SymbolsInRange(bits: seq<bool>)
    ensures var symbols := Packed(bits) + Padding(|Packed(bits)|);
            symbols != [] && forall i | 0 <= i < |symbols| :: symbols[i] < 65
  {
  }

  lemma EmptyInverts(bits: seq<bool>, tail: seq<bool>, max: nat)
    requires bits == Compressed([]) + tail
    ensures Begin(bits, max) == Answer(Append(NoText, [], max))
  {
    assert Pow2(2) == 4;
    assert bits[0..] == bits;
    ReadsWritten(bits, 0, CLOSE_CODE, 2, tail);
  }

  // ------------------------------------------------------------------------- text

  /** One scalar in UTF-16 (section 2.1 of RFC 2781). */
  function UnitsOf(scalar: Scalar): seq<CodeUnit> {
    if scalar < 0x1_0000 then [scalar] else [HighHalf(scalar), LowHalf(scalar)]
  }

  function HighHalf(scalar: nat): (r: HighSurrogate)
    requires 0x1_0000 <= scalar < 0x11_0000
  {
    0xD800 + (scalar - 0x1_0000) / 0x400
  }

  function LowHalf(scalar: nat): (r: CodeUnit)
    requires 0x1_0000 <= scalar < 0x11_0000
    ensures 0xDC00 <= r < 0xE000
  {
    0xDC00 + (scalar - 0x1_0000) % 0x400
  }

  function Utf16(text: seq<Scalar>): seq<CodeUnit> {
    if text == [] then [] else Utf16(text[..|text| - 1]) + UnitsOf(text[|text| - 1])
  }

  /** Reading UTF-16 back gives the text if it fits, and stops at the budget otherwise. */
  lemma {:induction false} ReadsUtf16(text: seq<Scalar>, max: nat)
    ensures Append(NoText, Utf16(text), max)
         == (if Utf8Bytes(text) <= max then Success(Text(text, Utf8Bytes(text), None)) else Failure(TooLarge))
  {
    hide UnitsOf, AppendUnit, Utf8Length;
    if text != [] {
      var front, last := text[..|text| - 1], text[|text| - 1];
      assert text == front + [last];
      ReadsUtf16(front, max);
      var units := UnitsOf(last);
      AppendConcat(NoText, Utf16(front), units, max);
      if Utf8Bytes(front) <= max {
        ReadsScalar(Text(front, Utf8Bytes(front), None), last, max);
      }
    }
  }

  lemma ReadsScalar(t: Text, scalar: Scalar, max: nat)
    requires t.high == None
    ensures Append(t, UnitsOf(scalar), max) == Push(t, scalar, max)
  {
    if 0x1_0000 <= scalar {
      var high: nat, low: nat := HighHalf(scalar), LowHalf(scalar);
      var waiting := t.(high := Some(high));
      assert AppendUnit(t, high, max) == Success(waiting);
      assert 0x1_0000 + (high - 0xD800) * 0x400 + (low - 0xDC00) == scalar;
      assert AppendUnit(waiting, low, max) == Push(waiting, scalar, max) == Push(t, scalar, max);
      assert [high, low][1..] == [low] && [low][1..] == [];
      assert Append(t, [high, low], max) == Append(waiting, [low], max);
    } else {
      assert [scalar][1..] == [];
    }
  }

  /** A text the client compressed arrives unchanged, or is refused as too large; nothing else can happen to it. */
  lemma RoundTrip(text: seq<Scalar>, max: nat)
    ensures Decompressed(Payload(Utf16(text)), max) == (if |Utf8Text(text)| <= max then Success(text) else Failure(TooLarge))
  {
    hide Decompressed, Payload, Append, Utf16;
    Utf8BytesCount(text);
    DecoderInvertsEncoder(Utf16(text), max);
    ReadsUtf16(text, max);
  }

  /** The units a text in the making has used up. */
  function Spelled(t: Text): seq<CodeUnit> {
    Utf16(t.scalars) + if t.high.Some? then [t.high.value] else []
  }

  lemma UnitSpells(t: Text, unit: CodeUnit, max: nat)
    requires AppendUnit(t, unit, max).Success?
    ensures Spelled(AppendUnit(t, unit, max).value) == Spelled(t) + [unit]
  {
    var r := AppendUnit(t, unit, max).value;
    if r.high.None? {
      var last := r.scalars[|r.scalars| - 1];
      assert r.scalars[..|r.scalars| - 1] == t.scalars;
      assert Utf16(r.scalars) == Utf16(t.scalars) + UnitsOf(last);
      if t.high.Some? {
        SurrogatesSplit(t.high.value, unit);
      }
    }
  }

  lemma SurrogatesSplit(high: nat, low: nat)
    requires 0xD800 <= high < 0xDC00 <= low < 0xE000
    ensures var scalar := 0x1_0000 + (high - 0xD800) * 0x400 + (low - 0xDC00);
            0x1_0000 <= scalar < 0x11_0000 && HighHalf(scalar) == high && LowHalf(scalar) == low
  {
  }

  lemma {:induction false} AppendSpells(t: Text, units: seq<CodeUnit>, max: nat)
    requires Append(t, units, max).Success?
    ensures Spelled(Append(t, units, max).value) == Spelled(t) + units
    decreases |units|
  {
    hide AppendUnit, Spelled;
    if units != [] {
      UnitSpells(t, units[0], max);
      AppendSpells(AppendUnit(t, units[0], max).value, units[1..], max);
      assert units == [units[0]] + units[1..];
    }
  }

  /** Exactly what a compressed sequence of units decodes to: a text whose UTF-16 it is, within the budget, or nothing. */
  lemma DecodesOnlyUtf16(units: seq<CodeUnit>, max: nat, text: seq<Scalar>)
    ensures Decompressed(Payload(units), max) == Success(text) <==> units == Utf16(text) && |Utf8Text(text)| <= max
  {
    hide Decompressed, Payload, Append, Utf16, Spelled, AppendUnit;
    DecoderInvertsEncoder(units, max);
    if Decompressed(Payload(units), max) == Success(text) {
      AppendSpells(NoText, units, max);
      NothingSpelled(Append(NoText, units, max).value);
    }
    if units == Utf16(text) || Decompressed(Payload(units), max) == Success(text) {
      RoundTrip(text, max);
    }
  }

  lemma NothingSpelled(t: Text)
    ensures Spelled(NoText) == []
    ensures t.high.None? ==> Spelled(t) == Utf16(t.scalars)
  {
  }

  // ------------------------------------------------------------- known payloads

  /** The alphabet, written out. */
  lemma Alphabet()
    ensures |Base64Key()| == 65
    ensures forall n | 0 <= n < 26 :: Base64Key()[n] == "ABCDEFGHIJKLMNOPQRSTUVWXYZ"[n]
    ensures forall n | 26 <= n < 52 :: Base64Key()[n] == "abcdefghijklmnopqrstuvwxyz"[n - 26]
    ensures forall n | 52 <= n < 65 :: Base64Key()[n] == "0123456789+/="[n - 52]
  {
    hide KeyChar;
    forall n | 0 <= n < 26 ensures Base64Key()[n] == "ABCDEFGHIJKLMNOPQRSTUVWXYZ"[n] { CapitalAt(n); }
    forall n | 26 <= n < 52 ensures Base64Key()[n] == "abcdefghijklmnopqrstuvwxyz"[n - 26] { SmallAt(n); }
    forall n | 52 <= n < 65 ensures Base64Key()[n] == "0123456789+/="[n - 52] { OtherAt(n); }
  }

  lemma CapitalAt(n: nat)
    requires n < 26
    ensures KeyChar(n) == "ABCDEFGHIJKLMNOPQRSTUVWXYZ"[n]
  {
  }

  lemma SmallAt(n: nat)
    requires 26 <= n < 52
    ensures KeyChar(n) == "abcdefghijklmnopqrstuvwxyz"[n - 26]
  {
  }

  lemma OtherAt(n: nat)
    requires 52 <= n < 65
    ensures KeyChar(n) == "0123456789+/="[n - 52]
  {
  }

  /** `97` in eight bits, the lowest first. */
  lemma BitsOf97()
    ensures Write(97, 8) == [true, false, false, false, false, true, true, false]
  {
    BitsOf6();
    hide Write;
    WriteMore(12, 5);
    WriteMore(24, 6);
    WriteMore(48, 7);
    WriteMore(97, 8);
  }

  lemma WriteMore(n: nat, count: nat)
    requires 0 < count
    ensures Write(n, count) == [n % 2 == 1] + Write(n / 2, count - 1)
  {
  }

  lemma BitsOf6()
    ensures Write(6, 4) == [false, true, true, false]
  {
    assert Write(0, 1) == [false];
    assert Write(1, 2) == [true, false];
    assert Write(3, 3) == [true, true, false];
  }

  lemma ShortCodes()
    ensures Write(2, 2) == [false, true] && Write(0, 2) == [false, false]
    ensures Write(2, 3) == [false, true, false] && Write(4, 3) == [false, false, true]
  {
    assert Write(1, 1) == [true] && Write(0, 1) == [false];
    assert Write(1, 2) == [true, false];
    assert Write(2, 2) == [false] + Write(1, 1) && Write(0, 2) == [false] + Write(0, 1);
    assert Write(2, 3) == [false] + Write(1, 2) && Write(4, 3) == [false] + Write(2, 2);
  }

  /** `aaa`: the letter, then the entry the decoder learns while reading it, then the end. */
  lemma TripleBits()
    ensures Compressed([97, 97, 97])
         == [false, false] + [true, false, false, false, false, true, true, false] + [false, false, true] + [false, true, false]
  {
    hide Write;
    BitsOf97();
    ShortCodes();
    var a: seq<CodeUnit> := [97, 97, 97];
    var c := Opening(97);
    assert a[1..] == [97, 97] && [97, 97][1..] == [97] && [97][1..] == [];
    assert c.dictionary[3] == [97] && Find(c.dictionary, [97], 3) == Some(3);
    assert Find(c.dictionary, [97, 97], 4) == None && Find(c.dictionary, [97, 97], 3) == None;
    assert Pow2(2) == 4;
    assert [97] + [97] == [97, 97];
    assert After(c) == (3, 4);
    assert c.dictionary + [[97, 97]] == [[0], [1], [2], [97], [97, 97]];
    var d := Sent(c, 97);
    assert d == Encoder([[0], [1], [2], [97], [97, 97]], [97], false, 3, 4);
    assert Find(d.dictionary, [97], 3) == Some(3);
    assert Find(d.dictionary, [97, 97], 4) == Some(4) && Find(d.dictionary, [97, 97], 3) == Some(4);
    var e := d.(phrase := [97, 97]);
    assert Encode(e, []) == Write(4, 3) + Write(2, 3);
    assert Encode(d, [97]) == Encode(e, []);
    assert Encode(c, [97, 97]) == CodeBits(c) + Encode(d, [97]);
  }

  lemma SymbolsOfTriple(bits: seq<bool>)
    requires bits == [false, false, true, false, false, false, false, true, true, false, false, false, true, false, true, false]
    ensures Packed(bits) == [8, 24, 40]
  {
    assert SymbolAt(bits, 0) == 8 && SymbolAt(bits, 6) == 24 && SymbolAt(bits, 12) == 40;
  }

  lemma CharsOfTriple()
    ensures Chars([8, 24, 40, 64]) == "IYo="
  {
    assert [8, 24, 40, 64][1..] == [24, 40, 64] && [24, 40, 64][1..] == [40, 64] && [40, 64][1..] == [64];
    assert KeyChar(8) == 'I' && KeyChar(24) == 'Y' && KeyChar(40) == 'o' && KeyChar(64) == '=';
    assert Chars([64]) == "=";
    assert Chars([40, 64]) == "o=";
    assert Chars([24, 40, 64]) == "Yo=";
  }

  /** The payload clients send for `aaa` is `IYo=`, and it decodes to `aaa`. */
  lemma KnownPayload(max: nat)
    requires 3 <= max
    ensures Payload([97, 97, 97]) == "IYo=" && Decompressed("IYo=", max) == Success([97, 97, 97])
  {
    hide Compressed, Chars, Decompressed, Packed;
    TripleBits();
    var bits := Compressed([97, 97, 97]);
    assert bits == [false, false, true, false, false, false, false, true, true, false, false, false, true, false, true, false];
    SymbolsOfTriple(bits);
    CharsOfTriple();
    assert Packed(bits) + Padding(3) == [8, 24, 40, 64];
    Triple();
    RoundTrip([97, 97, 97], max);
  }

  lemma Triple()
    ensures Utf16([97, 97, 97]) == [97, 97, 97] && |Utf8Text([97, 97, 97])| == 3
  {
    var a: seq<Scalar> := [97, 97, 97];
    assert a[..2] == [97, 97] && a[..2][..1] == [97] && a[..2][..1][..0] == [];
    assert Utf16([97]) == [97] && Utf16([97, 97]) == [97, 97];
    assert |Utf8Text([97])| == 1 && |Utf8Text([97, 97])| == 2;
  }
}
