/**
 Experience continuity: the id a flag is bucketed by survives login.
 Part one: a person's `first_seen_key` is always their oldest id. Part two:
 exactly when the bucketing id is the same before, during and after `$identify`.
 */
module Continuity {
  import opened Wrappers
  import opened Json
  import opened Identity
  import opened IdentityRuns

  // -------------------------------------------------------------- oldest id

  /** When each stored id was first seen (since it was last erased). */
  type Births = map<Key, Time>

  ghost predicate Earliest(s: State, births: Births) {
    && births.Keys == s.ids.Keys
    && (forall p {:trigger s.persons[p].firstSeenKey} :: p in s.persons ==>
          var first := Key(p.project, s.persons[p].firstSeenKey);
          first in births && births[first] == s.persons[p].createdAt)
    && (forall k <- s.ids :: s.Resolve(k) in s.persons ==> s.persons[s.Resolve(k)].createdAt <= births[k])
  }

  function Born(births: Births, k: Key, at: Time): Births {
    if k in births then births else births[k := at]
  }

  lemma EnsureKeepsEarliest(s: State, births: Births, k: Key, at: Time)
    requires Valid(s) && Earliest(s, births)
    ensures Earliest(Ensure(s, k, at), Born(births, k, at))
  {
    hide StampsMarkOverrides;
    var r, b := Ensure(s, k, at), Born(births, k, at);
    if k !in s.ids {
      assert k !in s.persons;
      forall p | p in r.persons ensures
        Key(p.project, r.persons[p].firstSeenKey) in b && b[Key(p.project, r.persons[p].firstSeenKey)] == r.persons[p].createdAt {
      }
      forall x | x in r.ids && r.Resolve(x) in r.persons ensures r.persons[r.Resolve(x)].createdAt <= b[x] {
        if x != k { assert s.Resolve(x) in s.persons; }
      }
    }
  }

  /** Same ids, same people, same creation times and bucketing keys. */
  ghost predicate SameOrigins(s: State, r: State) {
    && r.ids == s.ids && r.persons.Keys == s.persons.Keys
    && forall p <- s.persons ::
         r.persons[p].createdAt == s.persons[p].createdAt && r.persons[p].firstSeenKey == s.persons[p].firstSeenKey
  }

  lemma FoldKeepsEarliest(s: State, births: Births, winner: Key, loser: Key)
    requires CanFold(s, winner, loser) && Earliest(s, births)
    ensures Earliest(FoldInto(s, winner, loser), births)
  {
    hide Valid, Blend, WithoutLoser, Repointed;
    var r := FoldInto(s, winner, loser);
    forall k | k in r.ids && r.Resolve(k) in r.persons ensures r.persons[r.Resolve(k)].createdAt <= births[k] {
      FoldedIdIsOlder(s, births, winner, loser, k);
    }
    forall p | p in r.persons ensures
      Key(p.project, r.persons[p].firstSeenKey) in births
      && births[Key(p.project, r.persons[p].firstSeenKey)] == r.persons[p].createdAt
    {
      FoldedFirstIsBirth(s, births, winner, loser, p);
    }
  }

  lemma FoldedFirstIsBirth(s: State, births: Births, winner: Key, loser: Key, p: Key)
    requires CanFold(s, winner, loser) && Earliest(s, births) && p in FoldInto(s, winner, loser).persons
    ensures var person := FoldInto(s, winner, loser).persons[p];
            Key(p.project, person.firstSeenKey) in births && births[Key(p.project, person.firstSeenKey)] == person.createdAt
  {
    hide Valid;
  }

  lemma FoldedIdIsOlder(s: State, births: Births, winner: Key, loser: Key, k: Key)
    requires CanFold(s, winner, loser) && Earliest(s, births) && k in s.ids
    ensures var r := FoldInto(s, winner, loser);
            k in r.ids && r.Resolve(k) in r.persons && r.persons[r.Resolve(k)].createdAt <= births[k]
  {
    FoldResolves(s, winner, loser, k);
    assert s.persons[s.Resolve(k)].createdAt <= births[k] by { assert s.Resolve(k) in s.persons; }
    hide Valid, Earliest;
  }

  lemma MergeKeepsEarliest(s: State, births: Births, project: string, e: Event)
    requires Valid(s) && Key(project, e.distinctId) in s.ids && Earliest(s, births)
    ensures Earliest(ApplyMerge(s, project, e),
                     match MergeRequest(e)
                     case Some((other, _)) => Born(births, Key(project, other), e.at)
                     case None => births)
  {
    hide Earliest, FirstSeenIsOwn, StampsMarkOverrides, Born;
    if MergeRequest(e).Some? {
      var losing, winning := Key(project, MergeRequest(e).value.0), Key(project, e.distinctId);
      EnsureKeepsEarliest(s, births, losing, e.at);
      var both, b := EnsureBoth(s, losing, winning, e.at), Born(births, losing, e.at);
      var winner, loser := both.Resolve(winning), both.Resolve(losing);
      if winner != loser {
        FoldKeepsEarliest(both, b, winner, loser);
        FoldKeepsEarliest(both, b, loser, winner);
      }
    }
  }

  lemma OriginsKept(s: State, project: string, e: Event)
    requires Valid(s)
    ensures SameOrigins(Ensure(s, Key(project, e.distinctId), e.at), Seen(s, project, e))
    ensures SameOrigins(ApplyMerge(Seen(s, project, e), project, e), Apply(s, project, e))
  {
    hide PersonsAreRoots, StampsMarkOverrides, FirstSeenIsOwn, Ensure, ApplyMerge, Edited, Later, Sortable;
  }

  function BirthsAfter(births: Births, project: string, e: Event): Births {
    var own := Born(births, Key(project, e.distinctId), e.at);
    match MergeRequest(e)
    case Some((other, _)) => Born(own, Key(project, other), e.at)
    case None => own
  }

  lemma ApplyKeepsEarliest(s: State, births: Births, project: string, e: Event)
    requires Valid(s) && Earliest(s, births)
    ensures Earliest(Apply(s, project, e), BirthsAfter(births, project, e))
  {
    hide Valid, Ensure, ApplyMerge, Seen, Apply;
    var own := Born(births, Key(project, e.distinctId), e.at);
    EnsureKeepsEarliest(s, births, Key(project, e.distinctId), e.at);
    OriginsKept(s, project, e);
    var seen := Seen(s, project, e);
    SameOriginsKeepEarliest(Ensure(s, Key(project, e.distinctId), e.at), seen, own);
    MergeKeepsEarliest(seen, own, project, e);
    SameOriginsKeepEarliest(ApplyMerge(seen, project, e), Apply(s, project, e), BirthsAfter(births, project, e));
  }

  lemma SameOriginsKeepEarliest(s: State, r: State, births: Births)
    requires SameOrigins(s, r) && Earliest(s, births)
    ensures Earliest(r, births)
  {
    forall k | k in r.ids && r.Resolve(k) in r.persons ensures r.persons[r.Resolve(k)].createdAt <= births[k] {
      assert s.Resolve(k) == r.Resolve(k);
    }
  }

  lemma EraseKeepsEarliest(s: State, births: Births, person: Key)
    requires Valid(s) && Earliest(s, births)
    ensures Earliest(Erase(s, person), births - IdsOf(s, person))
  {
    hide StampsMarkOverrides, PersonsAreRoots;
  }

  function RunBirths(s: State, births: Births, steps: seq<Step>): Births
    requires Valid(s)
    decreases |steps|
  {
    if steps == [] then births
    else
      RunBirths(Next(s, steps[0]),
                match steps[0]
                case Publish(project, e) => BirthsAfter(births, project, e)
                case ErasePerson(person) => births - IdsOf(s, person),
                steps[1..])
  }

  lemma {:induction false} RunKeepsEarliest(s: State, births: Births, steps: seq<Step>)
    requires Valid(s) && Earliest(s, births)
    ensures Earliest(Run(s, steps), RunBirths(s, births, steps))
    decreases |steps|
  {
    hide Valid, Earliest, BirthsAfter, Apply, Erase, IdsOf;
    if steps != [] {
      match steps[0] {
        case Publish(project, e) =>
          ApplyKeepsEarliest(s, births, project, e);
          RunKeepsEarliest(Next(s, steps[0]), BirthsAfter(births, project, e), steps[1..]);
        case ErasePerson(person) =>
          EraseKeepsEarliest(s, births, person);
          RunKeepsEarliest(Next(s, steps[0]), births - IdsOf(s, person), steps[1..]);
      }
    }
  }

  /**
   In every reachable state a person's bucketing key is one of their own ids, and
   none of their ids is older.
   */
  lemma FirstSeenKeyIsOldest(steps: seq<Step>, person: Key, k: Key)
    requires person in Run(Empty, steps).persons
    requires k in Run(Empty, steps).ids && Run(Empty, steps).Resolve(k) == person
    ensures var s, births := Run(Empty, steps), RunBirths(Empty, map[], steps);
            var first := Key(person.project, s.persons[person].firstSeenKey);
            && first in s.ids && s.Resolve(first) == person
            && first in births && k in births && births[first] <= births[k]
  {
    hide Valid, Earliest, RunBirths, Run;
    NobodyYet();
    RunKeepsEarliest(Empty, map[], steps);
    OwnKeyIsOldest(Run(Empty, steps), RunBirths(Empty, map[], steps), person, k);
  }

  lemma NobodyYet()
    ensures Valid(Empty) && Earliest(Empty, map[])
  {
  }

  lemma OwnKeyIsOldest(s: State, births: Births, person: Key, k: Key)
    requires Valid(s) && Earliest(s, births) && person in s.persons && k in s.ids && s.Resolve(k) == person
    ensures var first := Key(person.project, s.persons[person].firstSeenKey);
            && first in s.ids && s.Resolve(first) == person
            && first in births && k in births && births[first] <= births[k]
  {
    hide RowsResolve, PersonsAreRoots, StampsMarkOverrides;
    assert s.persons[person].firstSeenKey == s.persons[person].firstSeenKey;
  }

  // ------------------------------------------------------------- bucketing id

  datatype Hints = Hints(anonDistinctId: Option<string>, personProperties: Option<Fields>)

  datatype Subject = Subject(distinctId: string, properties: Fields, continuityId: string)

  function Lookup(s: State, project: string, id: string): Option<Person>
    requires Valid(s)
  {
    var k := Key(project, id);
    if k in s.ids then Some(s.persons[s.Resolve(k)]) else None
  }

  function UsableHint(hints: Hints): Option<string> {
    match hints.anonDistinctId case Some(id) => if id == "" then None else Some(id) case None => None
  }

  /** The bucketing id when the person store answers. */
  function ContinuityId(s: State, project: string, id: string, hint: Option<string>): string
    requires Valid(s)
  {
    match Lookup(s, project, id)
    case Some(person) => person.firstSeenKey
    case None =>
      match hint
      case Some(anon) => (match Lookup(s, project, anon) case Some(person) => person.firstSeenKey case None => anon)
      case None => id
  }

  /** One read of the person store; it may fail. */
  type Reads = string -> Result<Option<Person>, ()>

  /** `resolve_subject`: `failed` reports a store error, and evaluation goes on without the person. */
  method ResolveSubject(lookups: Reads, distinctId: string, hints: Hints, needsPerson: bool)
    returns (subject: Subject, failed: bool)
    ensures subject.distinctId == distinctId
    ensures var hint := if hints.anonDistinctId == Some("") then None else hints.anonDistinctId;
            failed <==>
            (needsPerson
             && (|| lookups(distinctId).Failure?
                 || (lookups(distinctId) == Success(None) && hint.Some? && lookups(hint.value).Failure?)))
    ensures var hint := if hints.anonDistinctId == Some("") then None else hints.anonDistinctId;
            !needsPerson || failed ==> subject.continuityId == if hint.Some? then hint.value else distinctId
    ensures var hint := if hints.anonDistinctId == Some("") then None else hints.anonDistinctId;
            forall s, project | Valid(s) && (forall id :: lookups(id) == Success(Lookup(s, project, id))) ::
              && (needsPerson ==> subject.continuityId == ContinuityId(s, project, distinctId, hint))
              && subject.properties ==
                 (if needsPerson && Lookup(s, project, distinctId).Some? then Lookup(s, project, distinctId).value.properties else map[])
                 + (if hints.personProperties.Some? then hints.personProperties.value else map[])
  {
    failed := false;
    var properties: Fields := map[];
    var continuity: Option<string> := None;
    if needsPerson {
      match lookups(distinctId) {
        case Success(Some(person)) =>
          properties := person.properties;
          continuity := Some(person.firstSeenKey);
        case Success(None) =>
        case Failure(_) =>
          failed := true;
      }
      if continuity.None? && !failed && UsableHint(hints).Some? {
        var anon := UsableHint(hints).value;
        match lookups(anon) {
          case Success(Some(person)) => continuity := Some(person.firstSeenKey);
          case Success(None) => continuity := Some(anon);
          case Failure(_) =>
            failed := true;
            continuity := Some(anon);
        }
      }
    }
    ghost var stored := properties;
    if hints.personProperties.Some? {
      properties := properties + hints.personProperties.value;
    }
    assert stored + map[] == stored;
    if continuity.None? {
      continuity := UsableHint(hints);
    }
    subject := Subject(distinctId, properties, if continuity.Some? then continuity.value else distinctId);
  }

  /** A visitor logs in as an id never seen before, naming `anon` as who they were. */
  ghost predicate FirstLogin(s: State, project: string, e: Event, anon: string) {
    && Valid(s) && e.name == "$identify" && OtherId(e, "$anon_distinct_id") == Some(anon)
    && Key(project, e.distinctId) !in s.ids
  }

  /** The person known for `anon` can still be absorbed and is strictly older than the login. */
  predicate Continues(s: State, project: string, e: Event, anon: string)
    requires Valid(s)
  {
    match Lookup(s, project, anon)
    case Some(person) => !person.identified && person.createdAt < e.at
    case None => false
  }

  /** The state in which the login's merge is decided: a brand-new user person next to the visitor's. */
  lemma LoginMeets(s: State, project: string, e: Event, anon: string)
    requires FirstLogin(s, project, e, anon)
    ensures var user, visitor := Key(project, e.distinctId), Key(project, anon);
            var both := EnsureBoth(Seen(s, project, e), visitor, user, e.at);
            && both.Resolve(user) == user && user in both.persons
            && both.persons[user].createdAt == e.at && both.persons[user].firstSeenKey == e.distinctId
            && both.Resolve(visitor) in both.persons && both.Resolve(visitor) != user
            && var known := both.persons[both.Resolve(visitor)];
               match Lookup(s, project, anon)
               case Some(person) => known == person
               case None => !known.identified && known.createdAt == e.at && known.firstSeenKey == anon
  {
    hide StampsMarkOverrides;
    var user, visitor := Key(project, e.distinctId), Key(project, anon);
    assert user !in s.persons;
    if visitor in s.ids {
      assert s.Resolve(visitor) in s.persons;
    } else {
      assert visitor !in s.persons;
    }
  }

  lemma LoginMerges(s: State, project: string, e: Event, anon: string)
    requires FirstLogin(s, project, e, anon)
    ensures var m, user := ApplyMerge(Seen(s, project, e), project, e), Key(project, e.distinctId);
            && user in m.ids && m.Resolve(user) == user && user in m.persons
            && m.persons[user].firstSeenKey ==
               (if Continues(s, project, e, anon) then Lookup(s, project, anon).value.firstSeenKey else e.distinctId)
  {
    hide RowsResolve, StampsMarkOverrides, FirstSeenIsOwn, PersonsAreRoots, EnsureBoth, Seen;
    LoginMeets(s, project, e, anon);
  }

  /** What login leaves as the new user's bucketing key, in every case. */
  lemma LoginOutcome(s: State, project: string, e: Event, anon: string, hint: Option<string>)
    requires FirstLogin(s, project, e, anon)
    ensures ContinuityId(Apply(s, project, e), project, e.distinctId, hint)
         == if Continues(s, project, e, anon) then Lookup(s, project, anon).value.firstSeenKey else e.distinctId
  {
    hide Valid, ApplyMerge, Seen, Apply;
    LoginMerges(s, project, e, anon);
    OriginsKept(s, project, e);
  }

  /**
   The bucketing id before login, between login and its publication (the SDK
   still sends the anonymous id as a hint), and after publication are one and the
   same exactly when the visitor is known, not logged in, and strictly older than
   the login event. The first two always agree.
   */
  lemma SameBucketAcrossLogin(s: State, project: string, e: Event, anon: string, later: Option<string>)
    requires FirstLogin(s, project, e, anon)
    ensures ContinuityId(s, project, anon, None) == ContinuityId(s, project, e.distinctId, Some(anon))
    ensures ContinuityId(Apply(s, project, e), project, e.distinctId, later) == ContinuityId(s, project, anon, None)
       <==> Continues(s, project, e, anon)
  {
    LoginOutcome(s, project, e, anon, later);
    if Key(project, anon) in s.ids {
      assert s.persons[s.Resolve(Key(project, anon))].firstSeenKey != e.distinctId;
    }
    hide Valid, Apply;
  }

  /** The edge the strict comparison leaves: a first visit and a login at the same instant change the bucket. */
  lemma SameInstantLoginMovesBucket(visit: Event, login: Event)
    requires visit == Event("$pageview", "visitor", 0, map[])
    requires login == Event("$identify", "user", 0, map["$anon_distinct_id" := Text("visitor")])
    ensures var s := Apply(Empty, "p", visit);
            ContinuityId(Apply(s, "p", login), "p", "user", Some("visitor")) != ContinuityId(s, "p", "visitor", None)
  {
    hide Apply, Valid, Earliest, ContinuityId, Folded, Moved;
    EmptyIsEarliest();
    var s, births := Apply(Empty, "p", visit), BirthsAfter(map[], "p", visit);
    RowsAfter(Empty, "p", visit);
    ApplyKeepsEarliest(Empty, map[], "p", visit);
    assert FirstLogin(s, "p", login, "visitor") by {
      assert |"user"| != |"visitor"|;
    }
    SameBucketAcrossLogin(s, "p", login, "visitor", Some("visitor"));
    VisitorNotOlder(s, "p", login, "visitor", births);
  }

  lemma EmptyIsEarliest()
    ensures Valid(Empty) && Earliest(Empty, map[])
  {
  }

  lemma VisitorNotOlder(s: State, project: string, e: Event, anon: string, births: Births)
    requires Valid(s) && Earliest(s, births) && forall k <- births :: e.at <= births[k]
    ensures !Continues(s, project, e, anon)
  {
    var k := Key(project, anon);
    if k in s.ids {
      assert s.persons[s.Resolve(k)].firstSeenKey == s.persons[s.Resolve(k)].firstSeenKey;
    }
  }
}
