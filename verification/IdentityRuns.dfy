/** What the identity projection keeps over whole runs of events and erasures. */
module IdentityRuns {
  import opened Wrappers
  import opened Json
  import opened Identity

  datatype Step = Publish(project: string, event: Event) | ErasePerson(person: Key)

  function Next(s: State, step: Step): (r: State)
    requires Valid(s)
    ensures Valid(r)
  {
    match step
    case Publish(project, e) => Apply(s, project, e)
    case ErasePerson(person) => Erase(s, person)
  }

  function Run(s: State, steps: seq<Step>): (r: State)
    requires Valid(s)
    ensures Valid(r)
    decreases |steps|
  {
    if steps == [] then s else Run(Next(s, steps[0]), steps[1..])
  }

  predicate OnlyEvents(steps: seq<Step>) {
    forall i | 0 <= i < |steps| :: steps[i].Publish?
  }

  // ------------------------------------------------- what one event can change

  /** The two people a merge request folds together, loser first, when the guard lets it. */
  function FoldedIn(both: State, losing: Key, winning: Key, guard: MergeGuard): Option<(Key, Key)>
    requires Valid(both) && losing in both.ids && winning in both.ids
  {
    var winner, loser := both.Resolve(winning), both.Resolve(losing);
    if winner == loser then None
    else
      match Judge(guard, both.persons[loser].identified, both.persons[winner].identified)
      case Refuse => None
      case Fold => Some((loser, winner))
      case FoldSwapped => Some((winner, loser))
  }

  /** The fold an event causes, if any, decided once both ids are known. */
  function Folded(s: State, project: string, e: Event): (r: Option<(Key, Key)>)
    requires Valid(s)
    ensures r.Some? ==> MergeRequest(e).Some?
  {
    match MergeRequest(e)
    case None => None
    case Some((other, guard)) =>
      var losing, winning := Key(project, other), Key(project, e.distinctId);
      FoldedIn(EnsureBoth(Seen(s, project, e), losing, winning, e.at), losing, winning, guard)
  }

  /** The ids an event makes known: its own, and the one it asks to merge. */
  function Named(project: string, e: Event): set<Key> {
    {Key(project, e.distinctId)} + (match MergeRequest(e) case Some((other, _)) => {Key(project, other)} case None => {})
  }

  /** The row an id has, or would start with. */
  function Was(s: State, k: Key): Row {
    if k in s.ids then s.ids[k] else Row(k.id, 0)
  }

  /** The row of `k` after `folded` (loser, winner) have been folded under the next stamp. */
  function Moved(s: State, k: Key, folded: Option<(Key, Key)>): Row {
    var was := Was(s, k);
    match folded
    case Some((loser, winner)) => if Key(k.project, was.person) == loser then Row(winner.id, s.stamp + 1) else was
    case None => was
  }

  lemma BothRows(s: State, losing: Key, winning: Key, at: Time)
    requires Valid(s) && winning in s.ids
    ensures var r := EnsureBoth(s, losing, winning, at);
            r.epoch == s.epoch && r.pending == s.pending && r.stamp == s.stamp && r.ids == s.ids[losing := Was(s, losing)]
  {
    hide Valid;
  }

  /** Folding two known people, or leaving them apart. */
  lemma MergedRows(s: State, losing: Key, winning: Key, guard: MergeGuard)
    requires Valid(s) && losing in s.ids && winning in s.ids && losing.project == winning.project
    ensures var r := Merge(s, losing, winning, guard);
            var folded := FoldedIn(s, losing, winning, guard);
            && r.epoch == s.epoch && r.pending == s.pending && r.ids.Keys == s.ids.Keys
            && r.stamp == s.stamp + (if folded.Some? then 1 else 0)
            && forall k <- r.ids :: r.ids[k] == Moved(s, k, folded)
  {
    hide Valid;
  }

  lemma MergeRows(s: State, project: string, e: Event)
    requires Valid(s) && Key(project, e.distinctId) in s.ids && MergeRequest(e).Some?
    ensures var r := ApplyMerge(s, project, e);
            var other := Key(project, MergeRequest(e).value.0);
            var both := EnsureBoth(s, other, Key(project, e.distinctId), e.at);
            var folded := FoldedIn(both, other, Key(project, e.distinctId), MergeRequest(e).value.1);
            && r.epoch == s.epoch && r.pending == s.pending
            && r.ids.Keys == s.ids.Keys + {other}
            && r.stamp == s.stamp + (if folded.Some? then 1 else 0)
            && forall k <- r.ids :: r.ids[k] == Moved(s, k, folded)
  {
    hide Valid, Merge, EnsureBoth, FoldedIn, MergeRequest;
    var other, own := Key(project, MergeRequest(e).value.0), Key(project, e.distinctId);
    BothRows(s, other, own, e.at);
    MergedRows(EnsureBoth(s, other, own, e.at), other, own, MergeRequest(e).value.1);
  }

  function Seen(s: State, project: string, e: Event): (r: State)
    requires Valid(s)
    ensures Valid(r) && Key(project, e.distinctId) in r.ids
  {
    Touch(Ensure(s, Key(project, e.distinctId), e.at), Key(project, e.distinctId), e.at)
  }

  /** Marking, describing groups and editing properties never touch the id table. */
  lemma OnlyMergesMoveRows(s: State, project: string, e: Event)
    requires Valid(s)
    ensures SameRows(ApplyMerge(Seen(s, project, e), project, e), Apply(s, project, e))
  {
    hide Valid, Touch, Ensure, ApplyMerge;
  }

  lemma SeenRows(s: State, project: string, e: Event)
    requires Valid(s)
    ensures var r, k := Seen(s, project, e), Key(project, e.distinctId);
            && r.epoch == s.epoch && r.pending == s.pending && r.stamp == s.stamp
            && r.ids == s.ids[k := Was(s, k)]
  {
    hide Valid;
  }

  /**
   Exactly what one event does to the id table: the ids it names become known,
   each starting as its own person; if it folds, the loser's ids move to the
   winner under the next stamp; nothing else moves.
   */
  lemma RowsAfter(s: State, project: string, e: Event)
    requires Valid(s)
    ensures var r := Apply(s, project, e);
            && r.epoch == s.epoch && r.pending == s.pending
            && r.ids.Keys == s.ids.Keys + Named(project, e)
            && r.stamp == s.stamp + (if Folded(s, project, e).Some? then 1 else 0)
            && forall k <- r.ids :: r.ids[k] == Moved(s, k, Folded(s, project, e))
  {
    hide Valid, Seen, EnsureBoth, FoldedIn, Apply, Merge, MergeRequest, Repointed, WithoutLoser;
    OnlyMergesMoveRows(s, project, e);
    SeenRows(s, project, e);
    if MergeRequest(e).Some? {
      MergeRows(Seen(s, project, e), project, e);
    }
  }

  ghost predicate KeepsIdentified(s: State, r: State) {
    forall p <- s.persons :: s.persons[p].identified ==> p in r.persons && r.persons[p].identified
  }

  lemma EnsureKeepsIdentified(s: State, k: Key, at: Time)
    requires Valid(s)
    ensures KeepsIdentified(s, Ensure(s, k, at))
  {
    hide RowsResolve, StampsMarkOverrides, FirstSeenIsOwn;
  }

  lemma BothKeepIdentified(s: State, losing: Key, winning: Key, at: Time)
    requires Valid(s)
    ensures KeepsIdentified(s, EnsureBoth(s, losing, winning, at))
  {
    EnsureKeepsIdentified(s, winning, at);
    EnsureKeepsIdentified(Ensure(s, winning, at), losing, at);
    hide Valid, Ensure;
  }

  lemma SeenKeepsIdentified(s: State, project: string, e: Event)
    requires Valid(s)
    ensures KeepsIdentified(s, Seen(s, project, e))
  {
    EnsureKeepsIdentified(s, Key(project, e.distinctId), e.at);
    hide Valid, Ensure;
  }

  /** A fold joins exactly the two people the event's ids resolve to. */
  lemma FoldedPeople(s: State, project: string, e: Event)
    requires Valid(s) && Folded(s, project, e).Some?
    ensures var (loser, winner) := Folded(s, project, e).value;
            var own := Key(project, Was(s, Key(project, e.distinctId)).person);
            var other := Key(project, Was(s, Key(project, MergeRequest(e).value.0)).person);
            && loser != winner && loser.project == winner.project == project
            && ((loser == own && winner == other) || (loser == other && winner == own))
  {
    hide PersonsAreRoots, StampsMarkOverrides, FirstSeenIsOwn;
  }

  lemma GuardSparesIdentified(s: State, losing: Key, winning: Key, guard: MergeGuard)
    requires Valid(s) && losing in s.ids && winning in s.ids && guard != Always
    requires FoldedIn(s, losing, winning, guard).Some?
    ensures var loser := FoldedIn(s, losing, winning, guard).value.0;
            loser in s.persons && !s.persons[loser].identified
  {
  }

  /** Outside `$merge_dangerously`, the person a fold removes is never identified. */
  lemma FoldSparesIdentified(s: State, project: string, e: Event)
    requires Valid(s) && Folded(s, project, e).Some? && e.name != "$merge_dangerously"
    ensures var loser := Folded(s, project, e).value.0;
            loser in s.persons ==> !s.persons[loser].identified
  {
    hide Valid, Seen, EnsureBoth, FoldedIn;
    var losing, winning := Key(project, MergeRequest(e).value.0), Key(project, e.distinctId);
    SeenKeepsIdentified(s, project, e);
    BothKeepIdentified(Seen(s, project, e), losing, winning, e.at);
    GuardSparesIdentified(EnsureBoth(Seen(s, project, e), losing, winning, e.at), losing, winning, MergeRequest(e).value.1);
  }

  // ---------------------------------------------------- logged-in people stay apart

  lemma IdentifiedSurvive(s: State, project: string, e: Event)
    requires Valid(s) && e.name != "$merge_dangerously"
    ensures KeepsIdentified(s, Apply(s, project, e))
  {
    var seen := Seen(s, project, e);
    SeenKeepsIdentified(s, project, e);
    MergeKeepsIdentified(seen, project, e);
    EditsKeepIdentified(seen, project, e);
    hide Valid, Seen, ApplyMerge, Apply;
  }

  lemma EditsKeepIdentified(seen: State, project: string, e: Event)
    requires Valid(seen) && Key(project, e.distinctId) in seen.ids
    ensures KeepsIdentified(ApplyMerge(seen, project, e),
                            EditProperties(ApplyKind(seen, project, e), Key(project, e.distinctId), e))
  {
    hide Valid, ApplyMerge;
  }

  lemma MergeKeepsIdentified(s: State, project: string, e: Event)
    requires Valid(s) && Key(project, e.distinctId) in s.ids && e.name != "$merge_dangerously"
    ensures KeepsIdentified(s, ApplyMerge(s, project, e))
  {
    hide Valid, EnsureBoth, Merge;
    if MergeRequest(e).Some? {
      var losing, winning := Key(project, MergeRequest(e).value.0), Key(project, e.distinctId);
      BothKeepIdentified(s, losing, winning, e.at);
      GuardedFoldKeepsIdentified(EnsureBoth(s, losing, winning, e.at), losing, winning, MergeRequest(e).value.1);
    }
  }

  lemma GuardedFoldKeepsIdentified(s: State, losing: Key, winning: Key, guard: MergeGuard)
    requires Valid(s) && losing in s.ids && winning in s.ids && losing.project == winning.project
    requires guard != Always
    ensures KeepsIdentified(s, Merge(s, losing, winning, guard))
  {
    hide PersonsAreRoots, StampsMarkOverrides, FirstSeenIsOwn;
  }

  predicate Guarded(steps: seq<Step>) {
    forall i | 0 <= i < |steps| :: steps[i].Publish? && steps[i].event.name != "$merge_dangerously"
  }

  /**
   Two ids of two different logged-in people keep resolving to those same two
   people, whatever identify and alias events follow.
   */
  lemma {:induction false} LoggedInStayApart(s: State, steps: seq<Step>, a: Key, b: Key)
    requires Valid(s) && Guarded(steps) && a in s.ids && b in s.ids
    requires s.Resolve(a) in s.persons && s.persons[s.Resolve(a)].identified
    requires s.Resolve(b) in s.persons && s.persons[s.Resolve(b)].identified
    requires s.Resolve(a) != s.Resolve(b)
    ensures var r := Run(s, steps);
            && a in r.ids && b in r.ids
            && r.Resolve(a) == s.Resolve(a) && r.Resolve(b) == s.Resolve(b)
            && r.Resolve(a) != r.Resolve(b)
    decreases |steps|
  {
    hide Valid, Apply;
    if steps != [] {
      var project, e := steps[0].project, steps[0].event;
      StaysPut(s, project, e, a);
      StaysPut(s, project, e, b);
      LoggedInStayApart(Apply(s, project, e), steps[1..], a, b);
    }
  }

  lemma StaysPut(s: State, project: string, e: Event, a: Key)
    requires Valid(s) && e.name != "$merge_dangerously" && a in s.ids
    requires s.Resolve(a) in s.persons && s.persons[s.Resolve(a)].identified
    ensures var r := Apply(s, project, e);
            && a in r.ids && r.Resolve(a) == s.Resolve(a)
            && r.Resolve(a) in r.persons && r.persons[r.Resolve(a)].identified
  {
    hide Valid, Apply, Folded;
    RowsAfter(s, project, e);
    IdentifiedSurvive(s, project, e);
    if Folded(s, project, e).Some? {
      FoldSparesIdentified(s, project, e);
    }
  }

  // ------------------------------------------------------ replaying one event

  /** A merge request that has nothing left to do. */
  ghost predicate Settled(s: State, project: string, e: Event)
    requires Valid(s) && Key(project, e.distinctId) in s.ids
  {
    MergeRequest(e).Some? ==>
      var other := Key(project, MergeRequest(e).value.0);
      other in s.ids && FoldedIn(s, other, Key(project, e.distinctId), MergeRequest(e).value.1).None?
  }

  lemma MergeSettles(s: State, project: string, e: Event)
    requires Valid(s) && Key(project, e.distinctId) in s.ids
    ensures Key(project, e.distinctId) in ApplyMerge(s, project, e).ids
    ensures Settled(ApplyMerge(s, project, e), project, e)
  {
    hide RowsResolve, StampsMarkOverrides, FirstSeenIsOwn;
  }

  lemma SettledIsDone(s: State, project: string, e: Event)
    requires Valid(s) && Key(project, e.distinctId) in s.ids && Settled(s, project, e)
    ensures ApplyMerge(s, project, e) == s
  {
    hide Valid;
  }

  /** Only the identified flags may have been raised, and other person columns changed. */
  ghost predicate Raises(s: State, r: State) {
    r.ids == s.ids && r.persons.Keys == s.persons.Keys && KeepsIdentified(s, r)
  }

  lemma StaysSettled(s: State, r: State, project: string, e: Event)
    requires Valid(s) && Valid(r) && Raises(s, r) && Key(project, e.distinctId) in s.ids
    requires Settled(s, project, e)
    ensures Settled(r, project, e)
  {
    hide PersonsAreRoots, StampsMarkOverrides, FirstSeenIsOwn;
  }

  lemma MarkTwice(s: State, k: Key)
    requires Valid(s) && k in s.ids
    ensures var m := MarkIdentified(s, k); Raises(s, m) && m.persons[m.Resolve(k)].identified
  {
    hide PersonsAreRoots, StampsMarkOverrides, FirstSeenIsOwn;
  }

  lemma EditTwice(p: Fields, e: Event)
    ensures Edited(Edited(p, e), e) == Edited(p, e)
  {
  }

  lemma PutTwice(p: Fields, put: Fields)
    ensures p + put + put == p + put
  {
  }

  lemma GroupTwice(s: State, project: string, e: Event)
    requires Valid(s)
    ensures var g := ApplyGroup(s, project, e);
            ApplyGroup(g, project, e) == g && g.persons == s.persons && g.ids == s.ids
  {
    hide Valid;
    if e.name == "$groupidentify" && GroupKind(e).Some? && GroupId(e).Some? {
      var key := GroupKey(project, GroupKind(e).value, GroupId(e).value);
      var put := match AsObject(Get(e.properties, "$group_set")) case Some(f) => f case None => map[];
      PutTwice(if key in s.groups then s.groups[key].properties else map[], put);
      var g := ApplyGroup(s, project, e);
      assert ApplyGroup(g, project, e).groups == g.groups;
    }
  }

  /** The person of `k` is known to have been active at `at` or later. */
  ghost predicate ActiveAt(s: State, k: Key, at: Time)
    requires Valid(s) && k in s.ids
  {
    var seen := s.persons[s.Resolve(k)].lastSeen;
    seen.Some? && Sortable(at) <= seen.value
  }

  lemma TouchMakesActive(s: State, k: Key, at: Time)
    requires Valid(s) && k in s.ids
    ensures ActiveAt(Touch(s, k, at), k, at)
  {
    hide PersonsAreRoots, StampsMarkOverrides, FirstSeenIsOwn;
  }

  lemma FoldKeepsActive(s: State, losing: Key, winning: Key, guard: MergeGuard, at: Time)
    requires Valid(s) && losing in s.ids && winning in s.ids && losing.project == winning.project
    requires ActiveAt(s, winning, at)
    ensures winning in Merge(s, losing, winning, guard).ids
    ensures ActiveAt(Merge(s, losing, winning, guard), winning, at)
  {
    hide PersonsAreRoots, StampsMarkOverrides, FirstSeenIsOwn;
  }

  lemma EnsureKeepsActive(s: State, losing: Key, winning: Key, at: Time)
    requires Valid(s) && winning in s.ids && ActiveAt(s, winning, at)
    ensures ActiveAt(EnsureBoth(s, losing, winning, at), winning, at)
  {
    hide StampsMarkOverrides, FirstSeenIsOwn;
  }

  lemma MergeKeepsActive(s: State, project: string, e: Event)
    requires Valid(s) && Key(project, e.distinctId) in s.ids && ActiveAt(s, Key(project, e.distinctId), e.at)
    ensures ActiveAt(ApplyMerge(s, project, e), Key(project, e.distinctId), e.at)
  {
    hide Valid, ActiveAt, EnsureBoth, Merge;
    if MergeRequest(e).Some? {
      var losing, winning := Key(project, MergeRequest(e).value.0), Key(project, e.distinctId);
      EnsureKeepsActive(s, losing, winning, e.at);
      FoldKeepsActive(EnsureBoth(s, losing, winning, e.at), losing, winning, MergeRequest(e).value.1, e.at);
    }
  }

  /** Everything `e` would do has been done. */
  ghost predicate Done(s: State, project: string, e: Event)
    requires Valid(s)
  {
    var k := Key(project, e.distinctId);
    && k in s.ids && ActiveAt(s, k, e.at) && Settled(s, project, e)
    && (Identifies(e) ==> s.persons[s.Resolve(k)].identified)
    && ApplyGroup(s, project, e) == s
    && Edited(s.persons[s.Resolve(k)].properties, e) == s.persons[s.Resolve(k)].properties
  }

  lemma DoneIsFixed(s: State, project: string, e: Event)
    requires Valid(s) && Done(s, project, e)
    ensures Apply(s, project, e) == s
  {
    hide PersonsAreRoots, StampsMarkOverrides, FirstSeenIsOwn, ApplyGroup, Edited, Settled;
    SettledIsDone(s, project, e);
    var k := Key(project, e.distinctId);
    assert Touch(s, k, e.at).persons == s.persons;
    assert MarkIdentified(s, k).persons == s.persons || !Identifies(e);
    assert EditProperties(s, k, e).persons == s.persons;
  }

  /** The columns of `k`'s person that marking and editing leave alone still witness what the event did. */
  lemma EditsKeepDone(merged: State, project: string, e: Event)
    requires Valid(merged) && Key(project, e.distinctId) in merged.ids
    requires ActiveAt(merged, Key(project, e.distinctId), e.at) && Settled(merged, project, e)
    ensures var k := Key(project, e.distinctId);
            var marked := if Identifies(e) then MarkIdentified(merged, k) else merged;
            Done(EditProperties(ApplyGroup(marked, project, e), k, e), project, e)
  {
    hide PersonsAreRoots, StampsMarkOverrides, FirstSeenIsOwn, Settled, Edited;
    var k := Key(project, e.distinctId);
    var marked := if Identifies(e) then MarkIdentified(merged, k) else merged;
    var grouped := ApplyGroup(marked, project, e);
    var r := EditProperties(grouped, k, e);
    MarkTwice(merged, k);
    GroupTwice(marked, project, e);
    EditTwice(grouped.persons[grouped.Resolve(k)].properties, e);
    assert Raises(merged, r);
    StaysSettled(merged, r, project, e);
  }

  /**
   Replaying an event right after it was applied changes nothing at all: not
   people, ids, groups or properties, and not the change stamp.
   */
  lemma ReplayChangesNothing(s: State, project: string, e: Event)
    requires Valid(s)
    ensures Apply(Apply(s, project, e), project, e) == Apply(s, project, e)
  {
    hide Valid, ActiveAt, Settled, Done;
    var k := Key(project, e.distinctId);
    var seen := Touch(Ensure(s, k, e.at), k, e.at);
    TouchMakesActive(Ensure(s, k, e.at), k, e.at);
    MergeKeepsActive(seen, project, e);
    MergeSettles(seen, project, e);
    EditsKeepDone(ApplyMerge(seen, project, e), project, e);
    DoneIsFixed(Apply(s, project, e), project, e);
  }
}
