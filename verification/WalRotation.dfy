/**
 The publisher's loop against a writer that keeps appending, sealing and opening
 segments: reclamation, and publishing through a given segment.
 */
module WalRotation {
  import opened Wrappers
  import opened WalWindow

  // ---------------------------------------------------------------- reclamation

  datatype ReclaimError = CursorSegmentDoesNotExist

  /** No record of the segment is still to be read by a consumer at `cursor`. */
  predicate WhollyBefore<T>(segment: Segment<T>, cursor: Cursor) {
    || segment.number < cursor.segment
    || (segment.number == cursor.segment && cursor.byteOffset == Bytes(segment.records))
  }

  /** A segment is wholly before a record boundary exactly if none of its records is pending there. */
  lemma WhollyBeforeIff<T>(segment: Segment<T>, cursor: Cursor)
    requires Framed(segment.records) && segment.records != []
    requires segment.number == cursor.segment ==> BoundaryOf(segment, cursor)
    ensures WhollyBefore(segment, cursor) <==> Pending([segment], cursor) == []
  {
    assert [segment][1..] == [];
    assert Pending([segment][1..], cursor) == [];
    if segment.number == cursor.segment {
      var k :| 0 <= k <= |segment.records| && cursor.byteOffset == Offset(segment.records, k);
      RestAtBoundary(segment.records, k);
      EndOffset(segment.records);
      if k < |segment.records| { BeforeEnd(segment.records, k); }
    }
  }

  /**
   Remove the sealed segments a committed checkpoint covers. Nothing a consumer at
   the checkpoint still has to read goes; and the checkpoint stays one that the
   next read accepts, unless it named the end of a removed segment or no segment
   is left at all.
   */
  method ReclaimThrough<T>(layout: Layout<T>, checkpoint: Cursor) returns (r: Result<Layout<T>, ReclaimError>)
    requires WellFormed(layout)
    ensures r.Success? <==> ValidCursor(layout, checkpoint)
    ensures r.Success? ==>
              && WellFormed(r.value) && r.value.active == layout.active
              && (exists n | 0 <= n <= |layout.sealed| ::
                    && r.value.sealed == layout.sealed[n..]
                    && (forall i | 0 <= i < |layout.sealed| :: i < n <==> WhollyBefore(layout.sealed[i], checkpoint)))
              && Pending(r.value.sealed, checkpoint) == Pending(layout.sealed, checkpoint)
              && (ValidCursor(r.value, checkpoint) <==>
                    !AtSealedEnd(layout.sealed, checkpoint) && (r.value.sealed != [] || r.value.active.Some?))
  {
    hide Rest, Bytes, Flatten, Pending, BoundaryOf, ValidCursor, AtSealedEnd;
    if !ValidCursor(layout, checkpoint) {
      return Failure(CursorSegmentDoesNotExist);
    }
    var n := 0;
    while n < |layout.sealed| && WhollyBefore(layout.sealed[n], checkpoint)
      invariant 0 <= n <= |layout.sealed|
      invariant forall i | 0 <= i < n :: WhollyBefore(layout.sealed[i], checkpoint)
    {
      n := n + 1;
    }
    r := Success(Layout(layout.sealed[n..], layout.active));
    CoveredPrefix(layout, checkpoint, n);
    CoveredHoldNothing(layout.sealed, checkpoint, n);
    StaysValid(layout, checkpoint, n);
  }

  lemma CoveredPrefix<T>(layout: Layout<T>, checkpoint: Cursor, n: nat)
    requires WellFormed(layout) && n <= |layout.sealed|
    requires forall i | 0 <= i < n :: WhollyBefore(layout.sealed[i], checkpoint)
    requires n < |layout.sealed| ==> !WhollyBefore(layout.sealed[n], checkpoint)
    ensures WellFormed(Layout(layout.sealed[n..], layout.active))
    ensures forall i | 0 <= i < |layout.sealed| :: i < n <==> WhollyBefore(layout.sealed[i], checkpoint)
  {
    hide Bytes;
    forall i | n < i < |layout.sealed| ensures !WhollyBefore(layout.sealed[i], checkpoint) {
      assert layout.sealed[i].number == layout.sealed[n].number + i - n;
    }
  }

  lemma {:induction false} CoveredHoldNothing<T>(segments: seq<Segment<T>>, checkpoint: Cursor, n: nat)
    requires forall i | 0 <= i < |segments| :: Framed(segments[i].records)
    requires n <= |segments| && forall i | 0 <= i < n :: WhollyBefore(segments[i], checkpoint)
    ensures Pending(segments[n..], checkpoint) == Pending(segments, checkpoint)
  {
    if n == 0 {
      assert segments[0..] == segments;
    } else {
      var first := segments[0];
      if first.number == checkpoint.segment {
        EndOffset(first.records);
        RestAtBoundary(first.records, |first.records|);
      }
      assert segments[1..][n - 1..] == segments[n..];
      CoveredHoldNothing(segments[1..], checkpoint, n - 1);
    }
  }

  lemma StaysValid<T>(layout: Layout<T>, checkpoint: Cursor, n: nat)
    requires WellFormed(layout) && n <= |layout.sealed| && ValidCursor(layout, checkpoint)
    requires forall i | 0 <= i < |layout.sealed| :: i < n <==> WhollyBefore(layout.sealed[i], checkpoint)
    ensures var kept := Layout(layout.sealed[n..], layout.active);
            (ValidCursor(kept, checkpoint) <==>
               !AtSealedEnd(layout.sealed, checkpoint) && (kept.sealed != [] || kept.active.Some?))
  {
    hide Bytes, Offset;
    var kept := Layout(layout.sealed[n..], layout.active);
    var sealed := layout.sealed;
    if AtSealedEnd(sealed, checkpoint) {
      var i :| 0 <= i < |sealed| && checkpoint == Cursor(sealed[i].number, Bytes(sealed[i].records));
      assert WhollyBefore(sealed[i], checkpoint);
      forall j | 0 <= j < |kept.sealed| ensures kept.sealed[j].number != checkpoint.segment {
        assert kept.sealed[j] == sealed[n + j];
        assert sealed[n + j].number == sealed[0].number + n + j && sealed[i].number == sealed[0].number + i;
      }
    } else if exists i | 0 <= i < |sealed| :: BoundaryOf(sealed[i], checkpoint) {
      var i :| 0 <= i < |sealed| && BoundaryOf(sealed[i], checkpoint);
      assert !WhollyBefore(sealed[i], checkpoint);
      assert kept.sealed[i - n] == sealed[i];
    }
  }

  // -------------------------------------------------------------- the writer's moves

  /** The log directory with the writer's sequence number; `log` is every record ever sealed. */
  datatype Directory<T> = Directory(layout: Layout<T>, sequence: nat, log: seq<Rec<T>>)

  datatype Move<T> = Append(record: Rec<T>) | Rename | Create

  predicate Sound<T>(d: Directory<T>) {
    && WellFormed(d.layout) && NoneEmpty(d.layout.sealed) && 1 <= d.sequence
    && (d.layout.active.Some? ==> d.layout.active.value.number == d.sequence)
    && (d.layout.active.None? && d.layout.sealed != [] ==> d.layout.sealed[0].number + |d.layout.sealed| == d.sequence + 1)
  }

  /** One writer step; `Rename` and `Create` are the two halves of a seal. */
  function Moved<T>(d: Directory<T>, move: Move<T>): Directory<T> {
    match move
    case Append(record) =>
      if d.layout.active.Some? && 0 < record.framedBytes then
        var active := d.layout.active.value;
        d.(layout := d.layout.(active := Some(active.(records := active.records + [record]))))
      else d
    case Rename =>
      if d.layout.active.Some? && d.layout.active.value.records != [] then
        var active := d.layout.active.value;
        d.(layout := Layout(d.layout.sealed + [active], None), log := d.log + active.records)
      else d
    case Create =>
      if d.layout.active.None? then
        Directory(d.layout.(active := Some(Segment(d.sequence + 1, []))), d.sequence + 1, d.log)
      else d
  }

  function MovedAll<T>(d: Directory<T>, moves: seq<Move<T>>): Directory<T>
    decreases |moves|
  {
    if moves == [] then d else MovedAll(Moved(d, moves[0]), moves[1..])
  }

  /** The segments those moves sealed. */
  function SealedBy<T>(d: Directory<T>, moves: seq<Move<T>>): seq<Segment<T>>
    decreases |moves|
  {
    if moves == [] then []
    else SealedNow(d, moves[0]) + SealedBy(Moved(d, moves[0]), moves[1..])
  }

  function SealedNow<T>(d: Directory<T>, move: Move<T>): seq<Segment<T>> {
    if move.Rename? && d.layout.active.Some? && d.layout.active.value.records != [] then [d.layout.active.value] else []
  }

  /** First segment number that is not sealed. */
  function FirstUnsealed<T>(d: Directory<T>): nat {
    if d.layout.active.Some? then d.sequence else d.sequence + 1
  }

  /** The publisher's checkpoint: before a sealed record, or at the start of the first segment not sealed. */
  ghost predicate Standing<T>(d: Directory<T>, cursor: Cursor) {
    || cursor == Cursor(FirstUnsealed(d), 0)
    || exists i, k | 0 <= i < |d.layout.sealed| && 0 <= k < |d.layout.sealed[i].records| ::
         cursor == Cursor(d.layout.sealed[i].number, Offset(d.layout.sealed[i].records, k))
  }

  /** What the publisher relies on between its own steps. */
  ghost predicate Tiled<T>(d: Directory<T>, cursor: Cursor, published: seq<Rec<T>>) {
    Sound(d) && Standing(d, cursor) && d.log == published + Pending(d.layout.sealed, cursor)
  }

  lemma MoveKeepsTiling<T>(d: Directory<T>, move: Move<T>, cursor: Cursor, published: seq<Rec<T>>)
    requires Tiled(d, cursor, published)
    ensures Tiled(Moved(d, move), cursor, published)
  {
    hide Bytes, Offset, Pending;
    if move.Rename? && Moved(d, move) != d {
      var active := d.layout.active.value;
      RenameKeepsCursor(d, cursor);
      assert d.log + active.records == published + (Pending(d.layout.sealed, cursor) + active.records);
    }
  }

  /** Whatever the writer does between two publisher steps, the publisher's view only grows, in order. */
  lemma {:induction false} MovesKeepTiling<T>(d: Directory<T>, moves: seq<Move<T>>, cursor: Cursor, published: seq<Rec<T>>)
    requires Tiled(d, cursor, published)
    ensures Tiled(MovedAll(d, moves), cursor, published)
    ensures MovedAll(d, moves).layout.sealed == d.layout.sealed + SealedBy(d, moves)
    ensures Above(SealedBy(d, moves), FirstUnsealed(d))
    ensures FirstUnsealed(d) <= FirstUnsealed(MovedAll(d, moves))
    ensures FirstUnsealed(d) == FirstUnsealed(MovedAll(d, moves)) ==> SealedBy(d, moves) == []
    decreases |moves|
  {
    hide Tiled, Moved, FirstUnsealed, SealedNow;
    if moves == [] {
      assert d.layout.sealed + [] == d.layout.sealed;
    } else {
      var next := Moved(d, moves[0]);
      MoveKeepsTiling(d, moves[0], cursor, published);
      MoveSeals(d, moves[0], cursor, published);
      MovesKeepTiling(next, moves[1..], cursor, published);
      AboveBoth(SealedNow(d, moves[0]), SealedBy(next, moves[1..]), FirstUnsealed(d), FirstUnsealed(next));
      assert d.layout.sealed + SealedNow(d, moves[0]) + SealedBy(next, moves[1..])
          == d.layout.sealed + SealedBy(d, moves);
    }
  }

  lemma MoveSeals<T>(d: Directory<T>, move: Move<T>, cursor: Cursor, published: seq<Rec<T>>)
    requires Tiled(d, cursor, published)
    ensures Moved(d, move).layout.sealed == d.layout.sealed + SealedNow(d, move)
    ensures Above(SealedNow(d, move), FirstUnsealed(d)) && FirstUnsealed(d) <= FirstUnsealed(Moved(d, move))
    ensures FirstUnsealed(d) == FirstUnsealed(Moved(d, move)) ==> SealedNow(d, move) == []
  {
    assert d.layout.sealed + [] == d.layout.sealed;
  }

  lemma AboveBoth<T>(a: seq<Segment<T>>, b: seq<Segment<T>>, low: nat, high: nat)
    requires Above(a, low) && Above(b, high) && low <= high
    ensures Above(a + b, low)
  {
  }

  /** Sealing the active segment adds exactly its records to what a standing consumer will read. */
  lemma RenameKeepsCursor<T>(d: Directory<T>, cursor: Cursor)
    requires Sound(d) && Standing(d, cursor) && d.layout.active.Some? && d.layout.active.value.records != []
    ensures Standing(Moved(d, Rename), cursor) && Sound(Moved(d, Rename))
    ensures Pending(Moved(d, Rename).layout.sealed, cursor) == Pending(d.layout.sealed, cursor) + d.layout.active.value.records
  {
    hide Bytes;
    var active := d.layout.active.value;
    var sealed := d.layout.sealed;
    var after := Moved(d, Rename).layout.sealed;
    assert after[|sealed|] == active;
    if cursor == Cursor(d.sequence, 0) {
      assert active.records[..0] == [];
      assert cursor == Cursor(after[|sealed|].number, Offset(after[|sealed|].records, 0)) by {
        StartIsBoundary(active);
        assert Offset(active.records, 0) == 0 by { EmptyBytes(active.records); }
      }
    } else {
      var i, k :| 0 <= i < |sealed| && 0 <= k < |sealed[i].records| && cursor == Cursor(sealed[i].number, Offset(sealed[i].records, k));
      assert after[i] == sealed[i];
      assert sealed[i].number == sealed[0].number + i;
    }
    PendingSplit(sealed, [active], cursor);
    PendingBefore([active], cursor);
    assert Flatten([active]) == active.records + Flatten([active][1..]);
    assert Flatten([active][1..]) == [];
  }

  lemma EmptyBytes<T>(records: seq<Rec<T>>)
    ensures Offset(records, 0) == 0
  {
    assert records[..0] == [];
  }

  /** A standing checkpoint is accepted by the next read unless no segment exists at that moment. */
  lemma StandingIsValid<T>(d: Directory<T>, cursor: Cursor)
    requires Sound(d) && Standing(d, cursor)
    ensures ValidCursor(d.layout, cursor) <==> d.layout.sealed != [] || d.layout.active.Some?
    ensures !AtSealedEnd(d.layout.sealed, cursor)
  {
    var sealed := d.layout.sealed;
    if cursor == Cursor(FirstUnsealed(d), 0) {
      if d.layout.active.Some? {
        StartIsBoundary(d.layout.active.value);
      }
      forall i | 0 <= i < |sealed| ensures sealed[i].number < cursor.segment {
        assert sealed[i].number == sealed[0].number + i;
      }
    } else {
      var i, k :| 0 <= i < |sealed| && 0 <= k < |sealed[i].records| && cursor == Cursor(sealed[i].number, Offset(sealed[i].records, k));
      BeforeEnd(sealed[i].records, k);
      assert BoundaryOf(sealed[i], cursor);
      forall j | 0 <= j < |sealed| && sealed[j].number == sealed[i].number ensures j == i {
        assert sealed[i].number == sealed[0].number + i && sealed[j].number == sealed[0].number + j;
      }
    }
  }

  /** Conversely, an accepted cursor that ends no sealed segment and enters no active one stands. */
  lemma ValidIsStanding<T>(d: Directory<T>, cursor: Cursor)
    requires Sound(d) && ValidCursor(d.layout, cursor) && !AtSealedEnd(d.layout.sealed, cursor)
    requires d.layout.active.Some? && cursor.segment == d.sequence ==> cursor.byteOffset == 0
    ensures Standing(d, cursor)
  {
    var sealed := d.layout.sealed;
    if exists i | 0 <= i < |sealed| :: BoundaryOf(sealed[i], cursor) {
      var i :| 0 <= i < |sealed| && BoundaryOf(sealed[i], cursor);
      var k :| 0 <= k <= |sealed[i].records| && cursor.byteOffset == Offset(sealed[i].records, k);
      EndOffset(sealed[i].records);
    }
  }

  predicate Above<T>(segments: seq<Segment<T>>, number: nat) {
    forall i | 0 <= i < |segments| :: number <= segments[i].number
  }

  // --------------------------------------------------------------- publishing through

  /** The records `publish_through` has to get past: pending, in segments up to `through`. */
  function Due<T>(segments: seq<Segment<T>>, cursor: Cursor, through: nat): seq<Rec<T>> {
    if segments == [] then []
    else
      (if segments[0].number <= through then Pending([segments[0]], cursor) else []) + Due(segments[1..], cursor, through)
  }

  function Beyond<T>(segments: seq<Segment<T>>, through: nat): seq<Rec<T>> {
    if segments == [] then []
    else (if segments[0].number <= through then [] else segments[0].records) + Beyond(segments[1..], through)
  }

  lemma {:induction false} DueThenBeyond<T>(segments: seq<Segment<T>>, cursor: Cursor, through: nat)
    requires Contiguous(segments) && cursor.segment <= through
    ensures Pending(segments, cursor) == Due(segments, cursor, through) + Beyond(segments, through)
  {
    hide Rest, Framed, Contiguous, Pending, Due, Beyond, Above;
    if segments == [] {
      NothingSealed(cursor, through, segments);
    } else {
      FirstAndRest(segments, cursor, through);
      RestContiguous(segments);
      DueThenBeyond(segments[1..], cursor, through);
      if through < segments[0].number {
        AboveMore(segments[1..], segments[0].number + 1, through + 1);
        NothingDue(segments[1..], cursor, through);
        FirstWhole(segments[0], cursor);
      }
    }
  }

  lemma NothingSealed<T>(cursor: Cursor, through: nat, segments: seq<Segment<T>>)
    requires segments == []
    ensures Pending(segments, cursor) == Due(segments, cursor, through) == Beyond(segments, through) == []
  {
  }

  lemma AboveMore<T>(segments: seq<Segment<T>>, high: nat, low: nat)
    requires Above(segments, high) && low <= high
    ensures Above(segments, low)
  {
  }

  lemma FirstAndRest<T>(segments: seq<Segment<T>>, cursor: Cursor, through: nat)
    requires segments != []
    ensures var first, rest := segments[0], segments[1..];
            && Pending(segments, cursor) == Pending([first], cursor) + Pending(rest, cursor)
            && Due(segments, cursor, through) == (if first.number <= through then Pending([first], cursor) else []) + Due(rest, cursor, through)
            && Beyond(segments, through) == (if first.number <= through then [] else first.records) + Beyond(rest, through)
  {
    hide Pending;
    assert segments == [segments[0]] + segments[1..];
    PendingSplit([segments[0]], segments[1..], cursor);
  }

  lemma RestContiguous<T>(segments: seq<Segment<T>>)
    requires Contiguous(segments) && segments != []
    ensures Contiguous(segments[1..]) && Above(segments[1..], segments[0].number + 1)
  {
    hide Framed;
    assert forall i | 0 <= i < |segments[1..]| :: segments[1..][i] == segments[i + 1];
  }

  lemma FirstWhole<T>(first: Segment<T>, cursor: Cursor)
    requires cursor.segment < first.number
    ensures Pending([first], cursor) == first.records
  {
    PendingBefore([first], cursor);
    assert Flatten([first]) == first.records + Flatten([first][1..]);
  }

  lemma {:induction false} NothingDue<T>(segments: seq<Segment<T>>, cursor: Cursor, through: nat)
    requires Above(segments, through + 1) || through < cursor.segment
    ensures Due(segments, cursor, through) == []
  {
    if segments != [] {
      NothingDue(segments[1..], cursor, through);
      if segments[0].number <= through {
        PendingBeyond([segments[0]], cursor);
      }
    }
  }

  lemma {:induction false} DueSplit<T>(a: seq<Segment<T>>, b: seq<Segment<T>>, cursor: Cursor, through: nat)
    ensures Due(a + b, cursor, through) == Due(a, cursor, through) + Due(b, cursor, through)
  {
    if a == [] {
      assert a + b == b;
    } else {
      assert (a + b)[1..] == a[1..] + b;
      DueSplit(a[1..], b, cursor, through);
    }
  }

  datatype Outcome = Nothing | Published | Unreadable

  /** Is any segment file there to read? Reclaiming mid-seal can leave none for a moment. */
  predicate HasSegment<T>(d: Directory<T>) {
    d.layout.sealed != [] || d.layout.active.Some?
  }

  /**
   One publication: read a window, commit it with its checkpoint, then reclaim what
   the checkpoint covers; `moves` is what the writer does before the reclamation.
   */
  method PublishWindow<T>(d: Directory<T>, checkpoint: Cursor, maxBytes: nat, moves: seq<Move<T>>, ghost published: seq<Rec<T>>)
    returns (outcome: Outcome, window: seq<Rec<T>>, next: Cursor, after: Directory<T>)
    requires Tiled(d, checkpoint, published)
    ensures outcome.Unreadable? <==> !HasSegment(d)
    ensures outcome.Published? <==> window != []
    ensures outcome.Nothing? ==> Pending(d.layout.sealed, checkpoint) == []
    ensures !outcome.Published? ==> next == checkpoint
    ensures !outcome.Published? ==> after == d
    ensures window + Pending(d.layout.sealed, next) == Pending(d.layout.sealed, checkpoint)
    ensures |window| <= 1 || Bytes(window) <= maxBytes
    ensures Tiled(d, next, published + window) && Tiled(after, next, published + window)
    ensures outcome.Published? ==> Reclaimed(MovedAll(d, moves), next, after)
  {
    hide Pending, Bytes, Offset, Tiled, Standing, Sound, ValidCursor, MovedAll;
    window, next, after := [], checkpoint, d;
    assert published + window == published;
    StandingOf(d, checkpoint, published);
    StandingIsValid(d, checkpoint);
    if !ValidCursor(d.layout, checkpoint) {
      outcome := Unreadable;
      return;
    }
    window, next := ReadWindow(d.layout, checkpoint, maxBytes);
    if window == [] {
      outcome := Nothing;
      if next != checkpoint {
        after := ReclaimNow(d, moves, checkpoint, published);
      }
      EmptyMeansTerminal(d, checkpoint);
      next := checkpoint;
      return;
    }
    outcome := Published;
    WindowStands(d, checkpoint, published, window, next);
    after := ReclaimNow(d, moves, next, published + window);
  }

  /** With nothing pending a standing checkpoint is where every consumer ends, so an empty window never moves it. */
  lemma EmptyMeansTerminal<T>(d: Directory<T>, checkpoint: Cursor)
    requires Sound(d) && Standing(d, checkpoint) && HasSegment(d) && Pending(d.layout.sealed, checkpoint) == []
    ensures Some(checkpoint) == Terminal(d.layout)
  {
    hide Bytes, Rest, Flatten;
    var sealed := d.layout.sealed;
    if checkpoint != Cursor(FirstUnsealed(d), 0) {
      var i, k :| 0 <= i < |sealed| && 0 <= k < |sealed[i].records| && checkpoint == Cursor(sealed[i].number, Offset(sealed[i].records, k));
      StandsAt(sealed, i, k, checkpoint);
    }
  }

  /** Reclaim what the checkpoint covers, after the writer has made some moves. */
  method ReclaimNow<T>(d: Directory<T>, moves: seq<Move<T>>, next: Cursor, ghost published: seq<Rec<T>>) returns (after: Directory<T>)
    requires Tiled(d, next, published) && HasSegment(d)
    ensures Tiled(after, next, published) && Reclaimed(MovedAll(d, moves), next, after)
  {
    hide Pending, Bytes, Offset, Tiled, Standing, Sound, ValidCursor, MovedAll;
    MovesKeepTiling(d, moves, next, published);
    after := MovedAll(d, moves);
    StillThere(d, moves);
    StandingOf(after, next, published);
    StandingIsValid(after, next);
    var kept := ReclaimThrough(after.layout, next);
    ReclaimKeepsTiling(after, next, published, kept.value);
    after := after.(layout := kept.value);
  }

  /** Only segments wholly before the checkpoint are gone. */
  ghost predicate Reclaimed<T>(before: Directory<T>, checkpoint: Cursor, after: Directory<T>) {
    && after == before.(layout := Layout(after.layout.sealed, before.layout.active))
    && exists n | 0 <= n <= |before.layout.sealed| ::
         && after.layout.sealed == before.layout.sealed[n..]
         && forall i | 0 <= i < |before.layout.sealed| :: i < n <==> WhollyBefore(before.layout.sealed[i], checkpoint)
  }

  lemma StandingOf<T>(d: Directory<T>, cursor: Cursor, published: seq<Rec<T>>)
    requires Tiled(d, cursor, published)
    ensures Standing(d, cursor) && Sound(d) && WellFormed(d.layout)
  {
  }

  /** A window's cursor is one the publisher may keep as its checkpoint. */
  lemma WindowStands<T>(d: Directory<T>, checkpoint: Cursor, published: seq<Rec<T>>, window: seq<Rec<T>>, next: Cursor)
    requires Tiled(d, checkpoint, published) && window != []
    requires window + Pending(d.layout.sealed, next) == Pending(d.layout.sealed, checkpoint)
    requires ValidCursor(d.layout, next)
    requires next != checkpoint && NoneEmpty(d.layout.sealed) ==> !AtSealedEnd(d.layout.sealed, next)
    requires Pending(d.layout.sealed, next) == [] ==> Some(next) == Terminal(d.layout)
    ensures Tiled(d, next, published + window)
  {
    hide Pending, Bytes, Offset, ValidCursor;
    var sealed := d.layout.sealed;
    assert next != checkpoint;
    if d.layout.active.Some? && next.segment == d.sequence {
      forall i | 0 <= i < |sealed| ensures sealed[i].number < next.segment {
        assert sealed[i].number == sealed[0].number + i;
      }
      PendingBeyond(sealed, next);
    }
    ValidIsStanding(d, next);
    assert published + (window + Pending(sealed, next)) == published + window + Pending(sealed, next);
  }

  /** The writer never removes a segment. */
  lemma {:induction false} StillThere<T>(d: Directory<T>, moves: seq<Move<T>>)
    requires HasSegment(d)
    ensures HasSegment(MovedAll(d, moves))
    decreases |moves|
  {
    if moves != [] {
      StillThere(Moved(d, moves[0]), moves[1..]);
    }
  }

  lemma ReclaimKeepsTiling<T>(d: Directory<T>, cursor: Cursor, published: seq<Rec<T>>, kept: Layout<T>)
    requires Tiled(d, cursor, published) && WellFormed(kept) && kept.active == d.layout.active
    requires Reclaimed(d, cursor, d.(layout := kept))
    requires Pending(kept.sealed, cursor) == Pending(d.layout.sealed, cursor)
    ensures Tiled(d.(layout := kept), cursor, published)
  {
    hide Pending, Bytes, Offset, Framed, Standing;
    var sealed := d.layout.sealed;
    var n :| 0 <= n <= |sealed| && kept.sealed == sealed[n..]
             && forall i | 0 <= i < |sealed| :: i < n <==> WhollyBefore(sealed[i], cursor);
    ReclaimKeepsStanding(d, cursor, kept, n);
    if n < |sealed| {
      assert sealed[n].number == sealed[0].number + n;
    }
  }

  lemma ReclaimKeepsStanding<T>(d: Directory<T>, cursor: Cursor, kept: Layout<T>, n: nat)
    requires Sound(d) && Standing(d, cursor) && kept.active == d.layout.active
    requires n <= |d.layout.sealed| && kept.sealed == d.layout.sealed[n..]
    requires forall i | 0 <= i < |d.layout.sealed| :: i < n <==> WhollyBefore(d.layout.sealed[i], cursor)
    ensures Standing(d.(layout := kept), cursor)
  {
    hide Bytes, Offset;
    var sealed := d.layout.sealed;
    if cursor != Cursor(FirstUnsealed(d), 0) {
      var i, k :| 0 <= i < |sealed| && 0 <= k < |sealed[i].records| && cursor == Cursor(sealed[i].number, Offset(sealed[i].records, k));
      BeforeEnd(sealed[i].records, k);
      assert !WhollyBefore(sealed[i], cursor);
      assert kept.sealed[i - n] == sealed[i];
    }
  }

  /** What is due shrinks by a window, unless the checkpoint leaves `through` behind. */
  lemma WindowShortensDue<T>(segments: seq<Segment<T>>, checkpoint: Cursor, next: Cursor, window: seq<Rec<T>>, through: nat)
    requires Contiguous(segments) && checkpoint.segment <= through && window != []
    requires window + Pending(segments, next) == Pending(segments, checkpoint)
    ensures |Due(segments, next, through)| <= |Due(segments, checkpoint, through)|
    ensures next.segment <= through ==> |Due(segments, next, through)| < |Due(segments, checkpoint, through)|
  {
    hide Pending, Due, Beyond, Contiguous;
    DueThenBeyond(segments, checkpoint, through);
    if next.segment <= through {
      DueThenBeyond(segments, next, through);
      assert |window| + |Pending(segments, next)| == |Pending(segments, checkpoint)|;
    } else {
      NothingDue(segments, next, through);
    }
  }

  lemma {:induction false} CoveredAreNotDue<T>(segments: seq<Segment<T>>, checkpoint: Cursor, n: nat, through: nat)
    requires forall i | 0 <= i < |segments| :: Framed(segments[i].records)
    requires n <= |segments| && forall i | 0 <= i < n :: WhollyBefore(segments[i], checkpoint)
    ensures Due(segments[n..], checkpoint, through) == Due(segments, checkpoint, through)
  {
    if n == 0 {
      assert segments[0..] == segments;
    } else {
      CoveredHoldNothing([segments[0]], checkpoint, 1);
      assert [segments[0]][1..] == [];
      assert segments[1..][n - 1..] == segments[n..];
      CoveredAreNotDue(segments[1..], checkpoint, n - 1, through);
    }
  }

  /** Segments up to `through` the writer has yet to seal. */
  function Unsealed<T>(d: Directory<T>, through: nat): nat {
    if FirstUnsealed(d) <= through then through + 1 - FirstUnsealed(d) else 0
  }

  /** The writer's moves put nothing new before `through`, except by sealing a segment up to it. */
  lemma MovesAndDue<T>(d: Directory<T>, moves: seq<Move<T>>, cursor: Cursor, published: seq<Rec<T>>, through: nat)
    requires Tiled(d, cursor, published)
    ensures Unsealed(MovedAll(d, moves), through) <= Unsealed(d, through)
    ensures (Unsealed(MovedAll(d, moves), through) == Unsealed(d, through) ==>
               Due(MovedAll(d, moves).layout.sealed, cursor, through) == Due(d.layout.sealed, cursor, through))
  {
    hide Tiled, Due, MovedAll, SealedBy;
    MovesKeepTiling(d, moves, cursor, published);
    if Unsealed(MovedAll(d, moves), through) == Unsealed(d, through) {
      DueSplit(d.layout.sealed, SealedBy(d, moves), cursor, through);
      NothingDue(SealedBy(d, moves), cursor, through);
    }
  }

  lemma ReclaimAndDue<T>(d: Directory<T>, cursor: Cursor, after: Directory<T>, through: nat)
    requires Sound(d) && Reclaimed(d, cursor, after)
    ensures Unsealed(after, through) == Unsealed(d, through)
    ensures Due(after.layout.sealed, cursor, through) == Due(d.layout.sealed, cursor, through)
  {
    hide Due;
    var n :| 0 <= n <= |d.layout.sealed| && after.layout.sealed == d.layout.sealed[n..]
             && forall i | 0 <= i < |d.layout.sealed| :: i < n <==> WhollyBefore(d.layout.sealed[i], cursor);
    CoveredAreNotDue(d.layout.sealed, cursor, n, through);
  }

  /**
   Publish windows until every segment up to `through` is published. `schedule`
   is the writer: the moves it makes before each publisher step. It may seal as
   fast as it likes; the loop still ends, and what it published continues exactly
   where the checkpoint stood. `d` is the directory as last read, `left` what the last
   reclamation leaves.
   */
  method PublishThrough<T>(start: Directory<T>, from: Cursor, through: nat, maxBytes: nat,
                           schedule: nat -> seq<Move<T>>, ghost before: seq<Rec<T>>)
    returns (windows: seq<seq<Rec<T>>>, checkpoint: Cursor, d: Directory<T>, left: Directory<T>, failed: bool)
    requires Tiled(start, from, before)
    ensures Tiled(d, checkpoint, before + Joined(windows)) && Tiled(left, checkpoint, before + Joined(windows))
    ensures forall i | 0 <= i < |windows| :: windows[i] != [] && (|windows[i]| == 1 || Bytes(windows[i]) <= maxBytes)
    ensures !failed ==> Due(d.layout.sealed, checkpoint, through) == []
    ensures failed ==> !HasSegment(d)
  {
    hide Tiled, Due, MovedAll, Bytes, Pending, Joined, Reclaimed, Unsealed, Beyond, Standing, Sound, Contiguous, FirstUnsealed;
    windows, checkpoint, d, left, failed := [], from, start, start, false;
    assert before + Joined<Rec<T>>([]) == before by { NothingJoined<Rec<T>>(before); }
    var step := 0;
    while checkpoint.segment <= through
      invariant Tiled(d, checkpoint, before + Joined(windows)) && left == d && !failed
      invariant forall i | 0 <= i < |windows| :: windows[i] != [] && (|windows[i]| == 1 || Bytes(windows[i]) <= maxBytes)
      decreases Unsealed(d, through), |Due(d.layout.sealed, checkpoint, through)|, through + 1 - checkpoint.segment
    {
      ghost var published := before + Joined(windows);
      MovesAndDue(d, schedule(step), checkpoint, published, through);
      MovesKeepTiling(d, schedule(step), checkpoint, published);
      ghost var was := d;
      d := MovedAll(d, schedule(step));
      var outcome, window, next, after := PublishWindow(d, checkpoint, maxBytes, schedule(step + 1), published);
      StandingOf(d, checkpoint, published);
      if !outcome.Published? {
        left := after;
        assert published + window == published;
        failed := outcome.Unreadable?;
        if !failed {
          DueThenBeyond(d.layout.sealed, checkpoint, through);
        }
        return;
      }
      WindowShortensDue(d.layout.sealed, checkpoint, next, window, through);
      PublicationShortens(d, schedule(step + 1), next, published + window, after, through);
      JoinedAppend(before, windows, window);
      windows, checkpoint, d, left := windows + [window], next, after, after;
      step := step + 2;
    }
    NothingDue(d.layout.sealed, checkpoint, through);
  }

  lemma PublicationShortens<T>(d: Directory<T>, moves: seq<Move<T>>, next: Cursor, published: seq<Rec<T>>,
                               after: Directory<T>, through: nat)
    requires Tiled(d, next, published) && Reclaimed(MovedAll(d, moves), next, after)
    ensures Unsealed(after, through) <= Unsealed(d, through)
    ensures (Unsealed(after, through) == Unsealed(d, through) ==>
               Due(after.layout.sealed, next, through) == Due(d.layout.sealed, next, through))
  {
    hide Tiled, Due, MovedAll, Reclaimed, Unsealed;
    MovesAndDue(d, moves, next, published, through);
    MovesKeepTiling(d, moves, next, published);
    StandingOf(MovedAll(d, moves), next, published);
    ReclaimAndDue(MovedAll(d, moves), next, after, through);
  }

  function Joined<R>(parts: seq<seq<R>>): seq<R> {
    if parts == [] then [] else parts[0] + Joined(parts[1..])
  }

  lemma NothingJoined<R>(before: seq<R>)
    ensures before + Joined<R>([]) == before
  {
  }

  lemma {:induction false} JoinedAppend<R>(before: seq<R>, parts: seq<seq<R>>, part: seq<R>)
    ensures before + Joined(parts + [part]) == before + Joined(parts) + part
    decreases |parts|
  {
    if parts == [] {
      assert [part][1..] == [];
    } else {
      assert (parts + [part])[1..] == parts[1..] + [part];
      JoinedAppend([], parts[1..], part);
      assert Joined(parts + [part]) == parts[0] + ([] + Joined(parts[1..] + [part]));
    }
  }
}
