/**
 The identity override feed: how a reader that keeps only changed rows stays in
 step with the id table, while the publisher keeps merging and erasing between
 any two of its reads.
 */
module OverrideFeed {
  import opened Wrappers
  import opened Identity
  import opened IdentityRuns

  const MAX_SYNC_ROUNDS: nat := 10_000

  /** What a reader must end up with: every stored id that resolves elsewhere. */
  function Overrides(s: State): map<Key, string> {
    map k | k in s.ids && s.ids[k].person != k.id :: s.ids[k].person
  }

  // ------------------------------------------------ what writers may do meanwhile

  /**
   One table state may follow another: inside an epoch rows are only added (with
   no stamp) or restamped from beyond the current counter, and nothing is removed.
   */
  ghost predicate Follows(s: State, r: State) {
    && s.stamp <= r.stamp && s.epoch <= r.epoch
    && (s.epoch == r.epoch ==>
          && (forall k <- s.ids :: k in r.ids)
          && (forall k <- r.ids :: r.ids[k].stamp <= s.stamp ==>
                if k in s.ids then r.ids[k] == s.ids[k] else r.ids[k].stamp == 0))
  }

  lemma FollowsSelf(s: State)
    requires Valid(s)
    ensures Follows(s, s)
  {
  }

  lemma FollowsTransitive(s: State, m: State, r: State)
    requires Valid(s) && Follows(s, m) && Follows(m, r)
    ensures Follows(s, r)
  {
  }

  lemma StepFollows(s: State, step: Step)
    requires Valid(s)
    ensures Follows(s, Next(s, step))
  {
    hide RowsResolve, PersonsAreRoots, FirstSeenIsOwn, Folded, Apply;
    if step.Publish? {
      RowsAfter(s, step.project, step.event);
    }
  }

  lemma {:induction false} RunFollows(s: State, steps: seq<Step>)
    requires Valid(s)
    ensures Follows(s, Run(s, steps))
    decreases |steps|
  {
    if steps == [] {
      FollowsSelf(s);
    } else {
      StepFollows(s, steps[0]);
      RunFollows(Next(s, steps[0]), steps[1..]);
      FollowsTransitive(s, Next(s, steps[0]), Run(s, steps));
    }
  }

  /** Within an epoch an id that has an override never loses it: removal entries are never needed. */
  lemma {:induction false} OverrideNeverReverts(s: State, steps: seq<Step>, k: Key)
    requires Valid(s) && k in s.ids && s.ids[k].person != k.id
    requires Run(s, steps).epoch == s.epoch
    ensures var r := Run(s, steps); k in r.ids && r.ids[k].person != k.id && s.ids[k].stamp <= r.ids[k].stamp
  {
    RunFollows(s, steps);
  }

  // ------------------------------------------------------------- reading a batch

  /** A schedule of table states: read number i sees `world(i)`, and writers run in between. */
  type World = nat -> State

  ghost predicate Schedule(world: World) {
    && (forall i: nat :: Valid(world(i)))
    && (forall i: nat, j: nat :: i <= j ==> Follows(world(i), world(j)))
  }

  /** The table after the writers' steps between reads 0, 1, ..., i. */
  function WorldOf(s: State, writes: nat -> seq<Step>, i: nat): (r: State)
    requires Valid(s)
    ensures Valid(r)
  {
    if i == 0 then s else Run(WorldOf(s, writes, i - 1), writes(i - 1))
  }

  lemma {:induction false} WorldsFollow(s: State, writes: nat -> seq<Step>, i: nat, j: nat)
    requires Valid(s) && i <= j
    ensures Follows(WorldOf(s, writes, i), WorldOf(s, writes, j))
    decreases j
  {
    hide Valid, Follows, Run;
    if i == j {
      FollowsSelf(WorldOf(s, writes, i));
    } else {
      WorldsFollow(s, writes, i, j - 1);
      RunFollows(WorldOf(s, writes, j - 1), writes(j - 1));
      FollowsTransitive(WorldOf(s, writes, i), WorldOf(s, writes, j - 1), WorldOf(s, writes, j));
    }
  }

  /** Any interleaving of events and erasures between the reads is a schedule the reader copes with. */
  lemma EveryInterleavingIsASchedule(s: State, writes: nat -> seq<Step>)
    requires Valid(s)
    ensures Schedule((i: nat) => WorldOf(s, writes, i))
  {
    hide Valid, Follows, WorldOf;
    forall i: nat, j: nat | i <= j ensures Follows(WorldOf(s, writes, i), WorldOf(s, writes, j)) {
      WorldsFollow(s, writes, i, j);
    }
  }

  datatype Change = Change(key: Key, person: string)

  datatype Stamped = Stamped(stamp: nat, change: Change)

  datatype Batch = Batch(epoch: nat, maxSeq: nat, changes: seq<Change>, truncated: bool)

  function RowsBetween(s: State, after: nat, upTo: nat): set<Key> {
    set k | k in s.ids && after < s.ids[k].stamp <= upTo
  }

  /** `rows` are table rows of `s`, oldest stamp first. */
  ghost predicate ReadsRows(s: State, rows: seq<Stamped>) {
    && (forall i | 0 <= i < |rows| ::
          rows[i].change.key in s.ids && s.ids[rows[i].change.key] == Row(rows[i].change.person, rows[i].stamp))
    && (forall i, j | 0 <= i < j < |rows| :: rows[i].change.key != rows[j].change.key && rows[i].stamp <= rows[j].stamp)
  }

  function KeysOf(rows: seq<Stamped>): set<Key> {
    set i | 0 <= i < |rows| :: rows[i].change.key
  }

  /** `SELECT ... WHERE seq > after AND seq <= upTo ORDER BY seq LIMIT limit`; ties in any order. */
  method SelectRows(s: State, after: nat, upTo: nat, limit: Option<nat>) returns (rows: seq<Stamped>)
    ensures ReadsRows(s, rows) && (limit.Some? ==> |rows| <= limit.value)
    ensures forall i | 0 <= i < |rows| :: after < rows[i].stamp <= upTo
    ensures limit.None? || |rows| < limit.value ==> KeysOf(rows) == RowsBetween(s, after, upTo)
    ensures forall k, i | k in RowsBetween(s, after, upTo) && k !in KeysOf(rows) && 0 <= i < |rows| ::
              rows[i].stamp <= s.ids[k].stamp
  {
    rows := [];
    var rest := RowsBetween(s, after, upTo);
    while rest != {} && (limit.None? || |rows| < limit.value)
      invariant limit.Some? ==> |rows| <= limit.value
      invariant ReadsRows(s, rows)
      invariant forall i | 0 <= i < |rows| :: after < rows[i].stamp <= upTo
      invariant KeysOf(rows) !! rest && KeysOf(rows) + rest == RowsBetween(s, after, upTo)
      invariant forall k, i | k in rest && 0 <= i < |rows| :: rows[i].stamp <= s.ids[k].stamp
      decreases rest
    {
      var k := OldestRow(s, rest);
      ghost var before := rows;
      rows := rows + [Stamped(s.ids[k].stamp, Change(k, s.ids[k].person))];
      rest := rest - {k};
      assert KeysOf(rows) == KeysOf(before) + {k} by {
        assert rows[|before|].change.key == k;
        assert forall i | 0 <= i < |before| :: rows[i] == before[i];
      }
    }
  }

  method OldestRow(s: State, rest: set<Key>) returns (k: Key)
    requires rest != {} && rest <= s.ids.Keys
    ensures k in rest && forall x <- rest :: s.ids[k].stamp <= s.ids[x].stamp
  {
    k :| k in rest;
    var left := rest - {k};
    while left != {}
      invariant k in rest && left <= rest
      invariant forall x <- rest - left :: s.ids[k].stamp <= s.ids[x].stamp
      decreases left
    {
      var x :| x in left;
      if s.ids[x].stamp < s.ids[k].stamp {
        k := x;
      }
      left := left - {x};
    }
  }

  /** `changes` are exactly the rows of `s` stamped in `(after, upTo]`, each once. */
  ghost predicate Covers(s: State, after: nat, upTo: nat, changes: seq<Change>) {
    && (forall i | 0 <= i < |changes| ::
          changes[i].key in RowsBetween(s, after, upTo) && s.ids[changes[i].key].person == changes[i].person)
    && (forall k <- RowsBetween(s, after, upTo) :: exists i :: 0 <= i < |changes| && changes[i].key == k)
  }

  /** `truncated` tells whether the limit cut the result: the loop over the selected rows. */
  method TakeBatch(rows: seq<Stamped>, limit: nat) returns (changes: seq<Stamped>, truncated: bool)
    ensures changes == rows[..if |rows| <= limit then |rows| else limit]
    ensures truncated <==> limit < |rows|
  {
    changes, truncated := [], false;
    var i := 0;
    while i < |rows|
      invariant i == |changes| <= |rows| && i <= limit && changes == rows[..i]
    {
      if |changes| == limit {
        truncated := true;
        break;
      }
      changes := changes + [rows[i]];
      i := i + 1;
    }
  }

  /** `retain(seq < last)` over rows ordered by stamp keeps a prefix. */
  method KeepBefore(rows: seq<Stamped>, last: nat) returns (kept: seq<Stamped>)
    requires forall i, j | 0 <= i < j < |rows| :: rows[i].stamp <= rows[j].stamp
    ensures |kept| <= |rows| && kept == rows[..|kept|]
    ensures forall i | 0 <= i < |rows| :: rows[i].stamp < last <==> i < |kept|
  {
    kept := [];
    for i := 0 to |rows|
      invariant |kept| <= i && kept == rows[..|kept|]
      invariant forall j | 0 <= j < i :: rows[j].stamp < last <==> j < |kept|
      invariant |kept| == i || last <= rows[|kept|].stamp
    {
      if rows[i].stamp < last {
        kept := kept + [rows[i]];
      }
    }
  }

  method Plain(rows: seq<Stamped>) returns (changes: seq<Change>)
    ensures |changes| == |rows| && forall i | 0 <= i < |rows| :: changes[i] == rows[i].change
  {
    changes := [];
    for i := 0 to |rows|
      invariant |changes| == i && forall j | 0 <= j < i :: changes[j] == rows[j].change
    {
      changes := changes + [rows[i].change];
    }
  }

  lemma SelectedCover(s: State, after: nat, upTo: nat, rows: seq<Stamped>, changes: seq<Change>)
    requires ReadsRows(s, rows) && KeysOf(rows) == RowsBetween(s, after, upTo)
    requires |changes| == |rows| && forall i | 0 <= i < |rows| :: changes[i] == rows[i].change
    ensures Covers(s, after, upTo, changes)
    ensures forall i, j | 0 <= i < j < |changes| :: changes[i].key != changes[j].key
  {
    forall i | 0 <= i < |changes| ensures changes[i].key in RowsBetween(s, after, upTo) {
      assert rows[i].change.key in KeysOf(rows);
    }
    forall k | k in RowsBetween(s, after, upTo) ensures exists i :: 0 <= i < |changes| && changes[i].key == k {
      assert k in KeysOf(rows);
      var i :| 0 <= i < |rows| && rows[i].change.key == k;
      assert changes[i].key == k;
    }
  }

  /** Cutting a full selection just before its last stamp leaves out no row of an earlier stamp. */
  lemma CutIsComplete(s: State, after: nat, upTo: nat, rows: seq<Stamped>, limit: nat, kept: seq<Stamped>, last: nat)
    requires ReadsRows(s, rows) && 0 < limit < |rows|
    requires forall i | 0 <= i < |rows| :: after < rows[i].stamp <= upTo
    requires forall k, i | k in RowsBetween(s, after, upTo) && k !in KeysOf(rows) && 0 <= i < |rows| ::
               rows[i].stamp <= s.ids[k].stamp
    requires last == rows[limit - 1].stamp
    requires |kept| <= limit && kept == rows[..|kept|]
    requires forall i | 0 <= i < limit :: rows[i].stamp < last <==> i < |kept|
    ensures ReadsRows(s, kept) && KeysOf(kept) == RowsBetween(s, after, last - 1)
    ensures kept == [] ==> RowsBetween(s, after, last - 1) == {}
  {
    forall k ensures k in KeysOf(kept) <==> k in RowsBetween(s, after, last - 1) {
      if k in KeysOf(kept) {
        var i :| 0 <= i < |kept| && kept[i].change.key == k;
        assert rows[i] == kept[i];
      }
      if k in RowsBetween(s, after, last - 1) {
        assert k in RowsBetween(s, after, upTo) by { assert rows[limit - 1].stamp <= upTo; }
        var i :| 0 <= i < |rows| && rows[i].change.key == k;
        assert kept[i] == rows[i];
      }
    }
  }

  /** When the whole selection carries one stamp, a later read of that stamp covers everything up to it. */
  lemma OneStampCovers(s: State, later: State, after: nat, last: nat)
    requires Valid(s) && Follows(s, later) && s.epoch == later.epoch && 0 < last <= s.stamp
    requires RowsBetween(s, after, last - 1) == {} && after < last
    ensures RowsBetween(later, after, last) == RowsBetween(later, last - 1, last)
  {
    forall k | k in RowsBetween(later, after, last) ensures k in RowsBetween(later, last - 1, last) {
      assert k !in RowsBetween(s, after, last - 1);
    }
  }

  /** What a batch promises: a contiguous stretch of stamps, whole stamps only, always moving forward. */
  ghost predicate Faithful(batch: Batch, world: World, at: nat, after: nat) {
    && batch.epoch == world(at).epoch
    && (forall i, j | 0 <= i < j < |batch.changes| :: batch.changes[i].key != batch.changes[j].key)
    && after <= batch.maxSeq
    && (batch.truncated ==> after < batch.maxSeq <= world(at).stamp)
    && (!batch.truncated ==> world(at).stamp <= batch.maxSeq && (after <= world(at).stamp ==> batch.maxSeq == world(at).stamp))
    && (world(at).epoch == world(at + 2).epoch ==>
          || Covers(world(at + 1), after, batch.maxSeq, batch.changes)
          || Covers(world(at + 2), after, batch.maxSeq, batch.changes))
  }

  /** A truncated batch: drop the last stamp if an earlier one is complete, else read that one stamp whole. */
  method CutBatch(world: World, at: nat, after: nat, rows: seq<Stamped>, changes: seq<Stamped>) returns (batch: Batch)
    requires Schedule(world) && 0 < |changes| < |rows| && changes == rows[..|changes|]
    requires ReadsRows(world(at + 1), rows)
    requires forall i | 0 <= i < |rows| :: after < rows[i].stamp <= world(at).stamp
    requires forall k, i | k in RowsBetween(world(at + 1), after, world(at).stamp) && k !in KeysOf(rows) && 0 <= i < |rows| ::
               rows[i].stamp <= world(at + 1).ids[k].stamp
    ensures batch.truncated && Faithful(batch, world, at, after)
  {
    hide Schedule, Covers, KeysOf, RowsBetween;
    var last := changes[|changes| - 1].stamp;
    assert last == rows[|changes| - 1].stamp;
    var kept := KeepBefore(changes, last);
    CutIsComplete(world(at + 1), after, world(at).stamp, rows, |changes|, kept, last);
    if kept != [] {
      assert kept[0] == rows[0];
      var plain := Plain(kept);
      SelectedCover(world(at + 1), after, last - 1, kept, plain);
      batch := Batch(world(at).epoch, last - 1, plain, true);
    } else {
      batch := WholeStamp(world, at, after, last);
    }
  }

  lemma Consecutive(world: World, at: nat)
    requires Schedule(world)
    ensures Valid(world(at)) && Valid(world(at + 1)) && Follows(world(at), world(at + 1))
    ensures world(at).epoch <= world(at + 1).epoch && world(at).stamp <= world(at + 1).stamp
  {
  }

  method WholeStamp(world: World, at: nat, after: nat, last: nat) returns (batch: Batch)
    requires Schedule(world) && after < last <= world(at).stamp
    requires RowsBetween(world(at + 1), after, last - 1) == {}
    ensures batch.truncated && Faithful(batch, world, at, after)
  {
    hide Schedule, RowsBetween, ReadsRows, KeysOf, Covers;
    var rest := SelectRows(world(at + 2), last - 1, last, None);
    var plain := Plain(rest);
    SelectedCover(world(at + 2), last - 1, last, rest, plain);
    WholeStampCovers(world, at, after, last, plain);
    batch := Batch(world(at).epoch, last, plain, true);
  }

  lemma WholeStampCovers(world: World, at: nat, after: nat, last: nat, changes: seq<Change>)
    requires Schedule(world) && after < last <= world(at).stamp
    requires RowsBetween(world(at + 1), after, last - 1) == {}
    requires Covers(world(at + 2), last - 1, last, changes)
    ensures world(at).epoch == world(at + 2).epoch ==> Covers(world(at + 2), after, last, changes)
  {
    hide Schedule, Valid, Follows, RowsBetween;
    Consecutive(world, at);
    Consecutive(world, at + 1);
    if world(at).epoch == world(at + 2).epoch {
      OneStampCovers(world(at + 1), world(at + 2), after, last);
    }
  }

  /**
   `overrides_since`: separate reads, numbered `at`, `at + 1`, `at + 2`; writers
   may commit between any two of them.
   */
  method OverridesSince(world: World, at: nat, after: nat, limit: nat) returns (batch: Batch)
    requires Schedule(world) && 0 < limit
    ensures Faithful(batch, world, at, after)
  {
    hide Schedule;
    var current := world(at).stamp;
    var rows := SelectRows(world(at + 1), after, current, Some(limit + 1));
    var changes, truncated := TakeBatch(rows, limit);
    if truncated {
      batch := CutBatch(world, at, after, rows, changes);
    } else {
      assert changes == rows;
      var maxSeq := if current < after then after else current;
      var plain := Plain(changes);
      SelectedCover(world(at + 1), after, current, rows, plain);
      assert RowsBetween(world(at + 1), after, current) == RowsBetween(world(at + 1), after, maxSeq);
      batch := Batch(world(at).epoch, maxSeq, plain, truncated);
    }
  }

  // --------------------------------------------------------------- the reader

  /**
   What the reader's copy means against the table: unless an erasure has made it
   obsolete, it is right about every row stamped up to the reader's cursor.
   */
  ghost predicate InStep(table: map<Key, string>, epoch: Option<nat>, cursor: nat, s: State) {
    epoch.Some? ==>
      && epoch.value <= s.epoch
      && (epoch.value == s.epoch ==>
            && cursor <= s.stamp
            && table.Keys <= s.ids.Keys
            && forall k <- s.ids :: s.ids[k].stamp <= cursor ==>
                 (k in table <==> s.ids[k].person != k.id) && (k in table ==> table[k] == s.ids[k].person))
  }

  lemma InStepLater(table: map<Key, string>, epoch: Option<nat>, cursor: nat, s: State, r: State)
    requires Valid(s) && Valid(r) && Follows(s, r) && InStep(table, epoch, cursor, s)
    ensures InStep(table, epoch, cursor, r)
  {
    hide RowsResolve, PersonsAreRoots, FirstSeenIsOwn;
  }

  /** A copy that reached the counter is the override table. */
  lemma CaughtUp(table: map<Key, string>, epoch: Option<nat>, cursor: nat, s: State)
    requires Valid(s) && InStep(table, epoch, cursor, s) && epoch == Some(s.epoch) && cursor == s.stamp
    ensures table == Overrides(s)
  {
    hide RowsResolve, PersonsAreRoots, FirstSeenIsOwn;
  }

  /** Apply `changes` to a copy: the last word on each key wins, self entries mean removal. */
  ghost predicate AppliedTo(before: map<Key, string>, changes: seq<Change>, table: map<Key, string>) {
    && (forall i | 0 <= i < |changes| ::
          var c := changes[i];
          (c.key in table <==> c.person != c.key.id) && (c.key in table ==> table[c.key] == c.person))
    && (forall k | (forall i | 0 <= i < |changes| :: changes[i].key != k) ::
          (k in table <==> k in before) && (k in table ==> table[k] == before[k]))
  }

  lemma ApplyingAdvances(before: map<Key, string>, table: map<Key, string>, after: nat, upTo: nat, changes: seq<Change>, s: State)
    requires InStep(before, Some(s.epoch), after, s) && after <= upTo <= s.stamp
    requires Covers(s, after, upTo, changes) && AppliedTo(before, changes, table)
    ensures InStep(table, Some(s.epoch), upTo, s)
  {
    forall k | k in s.ids && s.ids[k].stamp <= upTo
      ensures (k in table <==> s.ids[k].person != k.id) && (k in table ==> table[k] == s.ids[k].person)
    {
      if after < s.ids[k].stamp {
        assert k in RowsBetween(s, after, upTo);
      } else {
        assert forall i | 0 <= i < |changes| :: changes[i].key in RowsBetween(s, after, upTo);
      }
    }
    forall k | k in table ensures k in s.ids {
      if i :| 0 <= i < |changes| && changes[i].key == k {
        assert changes[i].key in RowsBetween(s, after, upTo);
      }
    }
  }

  /** What can go wrong in one round, besides nothing. */
  datatype Fault = NoFault | ReadFails | ClearFails | ApplyFails

  datatype Outcome = Synced | Failed | NotConverged

  class Reader {
    var epoch: Option<nat>
    var cursor: nat
    var table: map<Key, string>

    constructor ()
      ensures epoch == None && cursor == 0 && table == map[]
    {
      epoch, cursor, table := None, 0, map[];
    }

    ghost predicate Tracks(s: State)
      reads this
    {
      InStep(table, epoch, cursor, s)
    }

    /** Delete every changed key, then insert those that resolve elsewhere; all or nothing. */
    method ApplyOverrideChanges(changes: seq<Change>)
      requires forall i, j | 0 <= i < j < |changes| :: changes[i].key != changes[j].key
      modifies this`table
      ensures AppliedTo(old(table), changes, table)
    {
      var rows := table;
      for i := 0 to |changes|
        invariant forall j | 0 <= j < i :: changes[j].key !in rows
        invariant forall k | (forall j | 0 <= j < |changes| :: changes[j].key != k) ::
                    (k in rows <==> k in old(table)) && (k in rows ==> rows[k] == old(table)[k])
      {
        rows := rows - {changes[i].key};
      }
      for i := 0 to |changes|
        invariant forall j | 0 <= j < i ::
                    (changes[j].key in rows <==> changes[j].person != changes[j].key.id)
                    && (changes[j].key in rows ==> rows[changes[j].key] == changes[j].person)
        invariant forall j | i <= j < |changes| :: changes[j].key !in rows
        invariant forall k | (forall j | 0 <= j < |changes| :: changes[j].key != k) ::
                    (k in rows <==> k in old(table)) && (k in rows ==> rows[k] == old(table)[k])
      {
        if changes[i].person != changes[i].key.id {
          rows := rows[changes[i].key := changes[i].person];
        }
      }
      table := rows;
    }

    /** One round of the sync loop: a batch, and what the reader does with it. */
    method Round(world: World, at: nat, fault: Fault, limit: nat) returns (failed: bool, again: bool)
      requires Schedule(world) && 0 < limit && Tracks(world(at))
      modifies this
      ensures Tracks(world(at + 3))
      ensures failed ==> fault != NoFault
      ensures !failed && !again && world(at) == world(at + 3) ==> table == Overrides(world(at + 3))
      ensures !failed ==> epoch == Some(world(at).epoch)
      ensures !failed && again && old(epoch) == epoch ==> old(cursor) < cursor <= world(at).stamp
    {
      hide Schedule, Follows, Valid, InStep;
      Spans(world, at);
      if fault == ReadFails {
        InStepLater(table, epoch, cursor, world(at), world(at + 3));
        return true, false;
      }
      var after := if epoch.Some? then cursor else 0;
      var batch := OverridesSince(world, at, after, limit);
      if epoch != Some(batch.epoch) {
        if fault == ClearFails {
          InStepLater(table, epoch, cursor, world(at), world(at + 3));
          return true, false;
        }
        table := map[];
        var reload := epoch.Some? && 0 < after;
        epoch, cursor := Some(batch.epoch), 0;
        EmptyCopyInStep(world(at));
        if reload {
          InStepLater(table, epoch, cursor, world(at), world(at + 3));
          return false, true;
        }
      }
      ghost var before := table;
      if batch.changes != [] {
        if fault == ApplyFails {
          InStepLater(table, epoch, cursor, world(at), world(at + 3));
          return true, false;
        }
        ApplyOverrideChanges(batch.changes);
      }
      CursorWithin(before, epoch, cursor, world(at));
      RoundAdvances(world, at, after, batch, before, table);
      cursor := batch.maxSeq;
      if !batch.truncated && world(at) == world(at + 3) {
        CaughtUp(table, epoch, cursor, world(at + 3));
      }
      return false, batch.truncated;
    }

    /**
     `sync_overrides`: rounds until the feed is drained. Read `3 * i + j` is the
     `j`-th read of round `i`; `made` is how many were made.
     */
    method SyncOverrides(world: World, faults: nat -> Fault, limit: nat) returns (outcome: Outcome, ghost made: nat)
      requires Schedule(world) && 0 < limit && Tracks(world(0))
      modifies this
      ensures Tracks(world(made))
      ensures outcome == Synced ==> 3 <= made
      ensures outcome == NotConverged ==> made == 3 * 10_000
      ensures outcome == Synced && world(made - 3) == world(made) ==> table == Overrides(world(made))
      ensures (forall i :: faults(i) == NoFault) ==> outcome != Failed
      ensures ((forall i :: faults(i) == NoFault) && (forall i: nat :: world(i) == world(0))
               && world(0).stamp + 2 < 10_000) ==>
                (outcome == Synced && table == Overrides(world(0)))
    {
      hide Schedule, Valid, Follows, InStep, Overrides;
      made := 0;
      var round := 0;
      while round < MAX_SYNC_ROUNDS
        invariant made == 3 * round && round <= MAX_SYNC_ROUNDS && Tracks(world(made))
        invariant (forall i: nat :: world(i) == world(0)) && 0 < round ==>
                    epoch == Some(world(0).epoch) && (1 < round ==> round <= cursor + 1 && cursor <= world(0).stamp)
      {
        var failed, again := Round(world, 3 * round, faults(round), limit);
        made := made + 3;
        round := round + 1;
        if failed {
          return Failed, made;
        }
        if !again {
          return Synced, made;
        }
      }
      return NotConverged, made;
    }
  }

  lemma Spans(world: World, at: nat)
    requires Schedule(world)
    ensures forall j | at <= j <= at + 3 :: Valid(world(j)) && Follows(world(at), world(j)) && Follows(world(j), world(at + 3))
    ensures world(at).epoch <= world(at + 1).epoch <= world(at + 2).epoch <= world(at + 3).epoch
    ensures world(at).stamp <= world(at + 1).stamp <= world(at + 2).stamp
  {
    assert Follows(world(at), world(at + 1)) && Follows(world(at + 1), world(at + 2)) && Follows(world(at + 2), world(at + 3));
  }

  lemma EmptyCopyInStep(s: State)
    requires Valid(s)
    ensures InStep(map[], Some(s.epoch), 0, s)
  {
  }

  lemma CursorWithin(table: map<Key, string>, epoch: Option<nat>, cursor: nat, s: State)
    requires InStep(table, epoch, cursor, s)
    ensures epoch == Some(s.epoch) ==> cursor <= s.stamp
  {
  }

  lemma RoundAdvances(world: World, at: nat, after: nat, batch: Batch, before: map<Key, string>, table: map<Key, string>)
    requires Schedule(world) && Faithful(batch, world, at, after)
    requires InStep(before, Some(batch.epoch), after, world(at)) && after <= world(at).stamp
    requires AppliedTo(before, batch.changes, table)
    ensures InStep(table, Some(batch.epoch), batch.maxSeq, world(at + 3))
  {
    hide Schedule, Valid, Follows, Covers, AppliedTo;
    Spans(world, at);
    if world(at).epoch == world(at + 3).epoch {
      var j := if Covers(world(at + 1), after, batch.maxSeq, batch.changes) then at + 1 else at + 2;
      InStepLater(before, Some(batch.epoch), after, world(at), world(j));
      ApplyingAdvances(before, table, after, batch.maxSeq, batch.changes, world(j));
      InStepLater(table, Some(batch.epoch), batch.maxSeq, world(j), world(at + 3));
    }
  }
}
