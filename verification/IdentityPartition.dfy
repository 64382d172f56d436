/**
 Which ids count as one human: between erasures, exactly those connected by the
 merges that were accepted.
 */
module IdentityPartition {
  import opened Wrappers
  import opened Identity
  import opened IdentityRuns

  /** The person of any id, as queries see it: an id never stored is its own person. */
  function PersonOf(s: State, k: Key): Key {
    Key(k.project, Was(s, k).person)
  }

  /** The effect of one event on every id at once: the loser's ids become the winner's. */
  lemma PersonsAfter(s: State, project: string, e: Event, k: Key)
    requires Valid(s)
    ensures PersonOf(Apply(s, project, e), k)
         == match Folded(s, project, e)
            case Some((loser, winner)) => if PersonOf(s, k) == loser then winner else PersonOf(s, k)
            case None => PersonOf(s, k)
  {
    hide Valid, Apply, Folded;
    RowsAfter(s, project, e);
    if Folded(s, project, e).Some? {
      FoldedPeople(s, project, e);
      if k !in s.ids && k !in Named(project, e) {
        StrangersNeverFold(s, project, e, k);
      }
    }
  }

  /** An id neither stored nor named by the event is not the person folded away. */
  lemma StrangersNeverFold(s: State, project: string, e: Event, k: Key)
    requires Valid(s) && Folded(s, project, e).Some? && k !in s.ids && k !in Named(project, e)
    ensures k != Folded(s, project, e).value.0
  {
    hide Folded, StampsMarkOverrides, FirstSeenIsOwn;
    FoldedPeople(s, project, e);
    var own, other := Key(project, e.distinctId), Key(project, MergeRequest(e).value.0);
    assert own in Named(project, e) && other in Named(project, e);
    assert own in s.ids ==> s.Resolve(own) in s.ids;
    assert other in s.ids ==> s.Resolve(other) in s.ids;
  }

  /** The two ids a merging event names. */
  function Asked(project: string, e: Event): (Key, Key)
    requires MergeRequest(e).Some?
  {
    (Key(project, MergeRequest(e).value.0), Key(project, e.distinctId))
  }

  function AcceptedNow(s: State, project: string, e: Event): set<(Key, Key)>
    requires Valid(s)
  {
    if Folded(s, project, e).Some? then {Asked(project, e)} else {}
  }

  /** The pairs of ids whose merge was accepted during a run. */
  function Accepted(s: State, steps: seq<Step>): set<(Key, Key)>
    requires Valid(s) && OnlyEvents(steps)
    decreases |steps|
  {
    if steps == [] then {}
    else
      var (project, e) := (steps[0].project, steps[0].event);
      AcceptedNow(s, project, e) + Accepted(Apply(s, project, e), steps[1..])
  }

  ghost predicate Equivalence(related: (Key, Key) -> bool) {
    && (forall a :: related(a, a))
    && (forall a, b :: related(a, b) ==> related(b, a))
    && (forall a, b, c {:trigger related(a, b), related(b, c)} :: related(a, b) && related(b, c) ==> related(a, c))
  }

  /** Once two ids share a person they always do, and every accepted merge joins the ids it named. */
  lemma {:induction false} AcceptedAreJoined(s: State, steps: seq<Step>, a: Key, b: Key)
    requires Valid(s) && OnlyEvents(steps)
    requires PersonOf(s, a) == PersonOf(s, b) || (a, b) in Accepted(s, steps)
    ensures PersonOf(Run(s, steps), a) == PersonOf(Run(s, steps), b)
    decreases |steps|
  {
    hide Valid, Apply, Folded;
    if steps != [] {
      var project, e := steps[0].project, steps[0].event;
      PersonsAfter(s, project, e, a);
      PersonsAfter(s, project, e, b);
      if Folded(s, project, e).Some? {
        FoldedPeople(s, project, e);
      }
      AcceptedAreJoined(Apply(s, project, e), steps[1..], a, b);
    }
  }

  /** What one event joins was related already, or is related through the pair it names. */
  lemma StepJoinsOnly(s: State, project: string, e: Event, related: (Key, Key) -> bool, a: Key, b: Key)
    requires Valid(s) && Equivalence(related)
    requires forall x, y {:trigger related(x, y)} :: PersonOf(s, x) == PersonOf(s, y) ==> related(x, y)
    requires Folded(s, project, e).Some? ==> related(Asked(project, e).0, Asked(project, e).1)
    requires PersonOf(Apply(s, project, e), a) == PersonOf(Apply(s, project, e), b)
    ensures related(a, b)
  {
    hide Valid, Apply, Folded;
    PersonsAfter(s, project, e, a);
    PersonsAfter(s, project, e, b);
    if Folded(s, project, e).Some? && PersonOf(s, a) != PersonOf(s, b) {
      FoldedPeople(s, project, e);
      var (other, own) := Asked(project, e);
      assert related(a, other) || related(a, own);
      assert related(b, other) || related(b, own);
      assert related(own, other);
    }
  }

  /**
   The partition is the smallest one: any equivalence that contains the sharing
   at the start and every accepted merge contains all sharing at the end.
   */
  lemma {:induction false} OnlyAcceptedAreJoined(s: State, steps: seq<Step>, related: (Key, Key) -> bool)
    requires Valid(s) && OnlyEvents(steps) && Equivalence(related)
    requires forall x, y {:trigger related(x, y)} :: PersonOf(s, x) == PersonOf(s, y) ==> related(x, y)
    requires forall pair <- Accepted(s, steps) :: related(pair.0, pair.1)
    ensures forall a, b {:trigger related(a, b)} :: PersonOf(Run(s, steps), a) == PersonOf(Run(s, steps), b) ==> related(a, b)
    decreases |steps|
  {
    hide Valid, Apply, Folded;
    if steps != [] {
      var project, e := steps[0].project, steps[0].event;
      var r := Apply(s, project, e);
      if Folded(s, project, e).Some? {
        assert Asked(project, e) in Accepted(s, steps);
      }
      forall x, y | PersonOf(r, x) == PersonOf(r, y) ensures related(x, y) {
        StepJoinsOnly(s, project, e, related, x, y);
      }
      OnlyAcceptedAreJoined(r, steps[1..], related);
    }
  }

  /** Starting from nothing, the ids that share a person are exactly those the accepted merges connect. */
  lemma PartitionFromEmpty(steps: seq<Step>, a: Key, b: Key)
    requires OnlyEvents(steps)
    ensures PersonOf(Run(Empty, steps), a) == PersonOf(Run(Empty, steps), b)
       <==> Connects(Accepted(Empty, steps), a, b)
  {
    var pairs := Accepted(Empty, steps);
    if PersonOf(Run(Empty, steps), a) == PersonOf(Run(Empty, steps), b) {
      forall related: (Key, Key) -> bool | Equivalence(related) && Contains(related, pairs) ensures related(a, b) {
        OnlyAcceptedAreJoined(Empty, steps, related);
      }
    }
    if Connects(pairs, a, b) {
      var end := Run(Empty, steps);
      var shared := (x: Key, y: Key) => PersonOf(end, x) == PersonOf(end, y);
      forall pair | pair in pairs ensures shared(pair.0, pair.1) {
        AcceptedAreJoined(Empty, steps, pair.0, pair.1);
      }
      assert Equivalence(shared) && Contains(shared, pairs);
      assert shared(a, b);
    }
  }

  ghost predicate Contains(related: (Key, Key) -> bool, pairs: set<(Key, Key)>) {
    forall pair <- pairs :: related(pair.0, pair.1)
  }

  /** Related by every equivalence that contains the pairs: connected through them. */
  ghost predicate Connects(pairs: set<(Key, Key)>, a: Key, b: Key) {
    forall related: (Key, Key) -> bool | Equivalence(related) && Contains(related, pairs) :: related(a, b)
  }
}
