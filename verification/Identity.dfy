/**
 The identity projection: which person each distinct id resolves to, and what
 is known about each person. Everything here is the mathematical meaning of one
 event; `IdentityStore` executes the statements and is proved to compute it.
 */
module Identity {
  import opened Wrappers
  import opened Json

  /** A distinct id or a person id, scoped to its project. */
  datatype Key = Key(project: string, id: string)

  /** Event times are nanoseconds since the epoch. */
  type Time = int

  datatype Event = Event(name: string, distinctId: string, at: Time, properties: Fields)

  datatype Person = Person(
    createdAt: Time,
    identified: bool,
    properties: Fields,
    firstSeenKey: string,
    lastSeen: Option<Time>)

  /** One row of `distinct_ids`: the person it resolves to and its change stamp. */
  datatype Row = Row(person: string, stamp: nat)

  datatype GroupKey = GroupKey(project: string, kind: string, id: string)

  datatype Group = Group(properties: Fields, createdAt: Time)

  datatype State = State(
    persons: map<Key, Person>,
    ids: map<Key, Row>,
    groups: map<GroupKey, Group>,
    stamp: nat,
    epoch: nat,
    pending: set<Key>)
  {
    /** The person a stored distinct id resolves to: one lookup, never a chain. */
    function Resolve(k: Key): Key
      requires k in ids
    {
      Key(k.project, ids[k].person)
    }
  }

  const Empty := State(map[], map[], map[], 0, 0, {})

  /** Foreign key: every distinct id names a live person. */
  ghost predicate RowsResolve(s: State) {
    forall k <- s.ids :: s.Resolve(k) in s.persons
  }

  /** Every live person's id is itself a distinct id, and maps to that person. */
  ghost predicate PersonsAreRoots(s: State) {
    forall p <- s.persons :: p in s.ids && s.Resolve(p) == p
  }

  /** A row carries a stamp exactly when it is an override, and no stamp is from the future. */
  ghost predicate StampsMarkOverrides(s: State) {
    forall k {:trigger s.ids[k].stamp} :: k in s.ids ==> s.ids[k].stamp <= s.stamp && (s.ids[k].stamp == 0 <==> s.ids[k].person == k.id)
  }

  /** The bucketing key of a person is one of that person's own distinct ids. */
  ghost predicate FirstSeenIsOwn(s: State) {
    forall p {:trigger s.persons[p].firstSeenKey} :: p in s.persons ==>
      var k := Key(p.project, s.persons[p].firstSeenKey);
      k in s.ids && s.Resolve(k) == p
  }

  ghost predicate Valid(s: State) {
    RowsResolve(s) && PersonsAreRoots(s) && StampsMarkOverrides(s) && FirstSeenIsOwn(s)
  }

  /** Nothing a reader of the override feed could notice has changed. */
  predicate SameRows(s: State, r: State) {
    r.ids == s.ids && r.stamp == s.stamp && r.epoch == s.epoch && r.pending == s.pending
  }

  // ---------------------------------------------------------------- one event

  /** `ensure_person`: an unknown distinct id starts as its own anonymous person. */
  function Ensure(s: State, k: Key, at: Time): (r: State)
    requires Valid(s)
    ensures Valid(r) && k in r.ids
  {
    if k in s.ids then s
    else s.(persons := s.persons[k := Person(at, false, map[], k.id, None)], ids := s.ids[k := Row(k.id, 0)])
  }

  /** `persons.last_seen` is stored with microsecond precision. */
  function Sortable(at: Time): Time { at / 1000 }

  function Later(a: Option<Time>, b: Option<Time>): Option<Time> {
    match (a, b)
    case (None, _) => b
    case (_, None) => a
    case (Some(x), Some(y)) => if x < y then b else a
  }

  function Touch(s: State, k: Key, at: Time): (r: State)
    requires Valid(s) && k in s.ids
    ensures Valid(r) && SameRows(s, r)
  {
    var p := s.Resolve(k);
    s.(persons := s.persons[p := s.persons[p].(lastSeen := Later(s.persons[p].lastSeen, Some(Sortable(at))))])
  }

  function MarkIdentified(s: State, k: Key): (r: State)
    requires Valid(s) && k in s.ids
    ensures Valid(r) && SameRows(s, r)
  {
    var p := s.Resolve(k);
    s.(persons := s.persons[p := s.persons[p].(identified := true)])
  }

  datatype MergeGuard = RefuseIdentifiedSource | RefuseBothIdentified | Always

  datatype Verdict = Refuse | Fold | FoldSwapped

  /** Whether the loser may be folded into the winner, or must absorb it instead. */
  function Judge(guard: MergeGuard, loserIdentified: bool, winnerIdentified: bool): Verdict {
    match guard
    case Always => Fold
    case RefuseIdentifiedSource => if loserIdentified then Refuse else Fold
    case RefuseBothIdentified =>
      if !loserIdentified then Fold else if winnerIdentified then Refuse else FoldSwapped
  }

  /** The survivor of a fold: its own properties win, the older side keeps its creation time and bucketing key. */
  function Blend(winner: Person, loser: Person): Person {
    var older := if loser.createdAt < winner.createdAt then loser else winner;
    Person(older.createdAt, true, loser.properties + winner.properties, older.firstSeenKey,
           Later(winner.lastSeen, loser.lastSeen))
  }

  /** Repoint every id of the loser to the winner under one fresh stamp. */
  function Repointed(s: State, winner: Key, loser: Key, stamp: nat): (r: map<Key, Row>)
    ensures r.Keys == s.ids.Keys
  {
    map k | k in s.ids :: if s.Resolve(k) == loser then Row(winner.id, stamp) else s.ids[k]
  }

  function WithoutLoser(persons: map<Key, Person>, winner: Key, loser: Key): (r: map<Key, Person>)
    requires winner in persons && loser in persons && winner != loser
    ensures r.Keys == persons.Keys - {loser}
    ensures r[winner] == Blend(persons[winner], persons[loser])
    ensures forall p <- r :: p != winner ==> r[p] == persons[p]
  {
    persons[winner := Blend(persons[winner], persons[loser])] - {loser}
  }

  /** Fold one person into another. */
  function FoldInto(s: State, winner: Key, loser: Key): (r: State)
    requires winner in s.persons && loser in s.persons && winner != loser
  {
    s.(persons := WithoutLoser(s.persons, winner, loser),
       ids := Repointed(s, winner, loser, s.stamp + 1),
       stamp := s.stamp + 1)
  }

  ghost predicate CanFold(s: State, winner: Key, loser: Key) {
    Valid(s) && winner in s.persons && loser in s.persons && winner != loser && winner.project == loser.project
  }

  /** After a fold an id resolves to the winner if it resolved to either side, and is untouched otherwise. */
  lemma FoldResolves(s: State, winner: Key, loser: Key, k: Key)
    requires CanFold(s, winner, loser) && k in s.ids
    ensures var r := FoldInto(s, winner, loser);
            && r.ids[k] == (if s.Resolve(k) == loser then Row(winner.id, s.stamp + 1) else s.ids[k])
            && r.Resolve(k) == (if s.Resolve(k) == loser then winner else s.Resolve(k))
            && r.Resolve(k) in r.persons
  {
  }

  lemma FoldKeepsRows(s: State, winner: Key, loser: Key)
    requires CanFold(s, winner, loser)
    ensures RowsResolve(FoldInto(s, winner, loser))
  {
    var r := FoldInto(s, winner, loser);
    forall k | k in r.ids ensures r.Resolve(k) in r.persons { FoldResolves(s, winner, loser, k); }
  }

  lemma FoldKeepsRoots(s: State, winner: Key, loser: Key)
    requires CanFold(s, winner, loser)
    ensures PersonsAreRoots(FoldInto(s, winner, loser))
  {
    var r := FoldInto(s, winner, loser);
    forall p | p in r.persons ensures p in r.ids && r.Resolve(p) == p { FoldResolves(s, winner, loser, p); }
  }

  lemma FoldKeepsStamps(s: State, winner: Key, loser: Key)
    requires CanFold(s, winner, loser)
    ensures StampsMarkOverrides(FoldInto(s, winner, loser))
  {
    var r := FoldInto(s, winner, loser);
    forall k | k in r.ids
      ensures r.ids[k].stamp <= r.stamp && (r.ids[k].stamp == 0 <==> r.ids[k].person == k.id)
    {
      FoldResolves(s, winner, loser, k);
      assert s.Resolve(winner) == winner;
    }
  }

  lemma FoldKeepsFirstSeen(s: State, winner: Key, loser: Key)
    requires CanFold(s, winner, loser)
    ensures FirstSeenIsOwn(FoldInto(s, winner, loser))
  {
    var r := FoldInto(s, winner, loser);
    forall p | p in r.persons
      ensures Key(p.project, r.persons[p].firstSeenKey) in r.ids
      ensures r.Resolve(Key(p.project, r.persons[p].firstSeenKey)) == p
    {
      FoldResolves(s, winner, loser, Key(p.project, r.persons[p].firstSeenKey));
    }
  }

  lemma FoldKeepsValid(s: State, winner: Key, loser: Key)
    requires CanFold(s, winner, loser)
    ensures Valid(FoldInto(s, winner, loser))
  {
    hide RowsResolve, PersonsAreRoots, StampsMarkOverrides, FirstSeenIsOwn;
    FoldKeepsRows(s, winner, loser);
    FoldKeepsRoots(s, winner, loser);
    FoldKeepsStamps(s, winner, loser);
    FoldKeepsFirstSeen(s, winner, loser);
  }

  /** `merge_persons` after both people are known to exist. */
  function Merge(s: State, losing: Key, winning: Key, guard: MergeGuard): (r: State)
    requires Valid(s) && losing in s.ids && winning in s.ids && losing.project == winning.project
    ensures Valid(r)
  {
    var winner, loser := s.Resolve(winning), s.Resolve(losing);
    if winner == loser then s
    else
      match Judge(guard, s.persons[loser].identified, s.persons[winner].identified)
      case Refuse => s
      case Fold => FoldKeepsValid(s, winner, loser); FoldInto(s, winner, loser)
      case FoldSwapped => FoldKeepsValid(s, loser, winner); FoldInto(s, loser, winner)
  }

  /**
   What a guard decides, read off the two people: whether the ids end up with one
   person, who survives, and that a refused merge changes nothing.
   */
  ghost predicate GuardDecides(s: State, r: State, losing: Key, winning: Key, guard: MergeGuard)
    requires Valid(s) && losing in s.ids && winning in s.ids
  {
    var (l, w) := (s.Resolve(losing), s.Resolve(winning));
    && losing in r.ids && winning in r.ids
    && (l == w ==> r == s)
    && (l != w ==>
          var (loserKnown, winnerKnown) := (s.persons[l].identified, s.persons[w].identified);
          && (r.Resolve(losing) == r.Resolve(winning)
              <==> || guard == Always
                   || (guard == RefuseIdentifiedSource && !loserKnown)
                   || (guard == RefuseBothIdentified && !(loserKnown && winnerKnown)))
          && (if r.Resolve(losing) == r.Resolve(winning)
              then r.Resolve(winning) == if guard == RefuseBothIdentified && loserKnown then l else w
              else r == s))
  }

  lemma MergeDecides(s: State, losing: Key, winning: Key, guard: MergeGuard)
    requires Valid(s) && losing in s.ids && winning in s.ids && losing.project == winning.project
    ensures GuardDecides(s, Merge(s, losing, winning, guard), losing, winning, guard)
  {
    hide FoldInto, Valid;
    PersonKnown(s, losing);
    PersonKnown(s, winning);
    var l, w := s.Resolve(losing), s.Resolve(winning);
    if l != w {
      FoldJoins(s, w, l, losing, winning);
      FoldJoins(s, l, w, losing, winning);
    }
  }

  lemma PersonKnown(s: State, k: Key)
    requires Valid(s) && k in s.ids
    ensures s.Resolve(k) in s.persons
  {
  }

  /** Two ids of the two sides of a fold share the winner afterwards. */
  lemma FoldJoins(s: State, winner: Key, loser: Key, a: Key, b: Key)
    requires CanFold(s, winner, loser) && a in s.ids && b in s.ids
    requires (s.Resolve(a) == winner && s.Resolve(b) == loser) || (s.Resolve(a) == loser && s.Resolve(b) == winner)
    ensures var r := FoldInto(s, winner, loser); a in r.ids && b in r.ids && r.Resolve(a) == winner && r.Resolve(b) == winner
  {
    hide Valid;
    FoldKeys(s, winner, loser);
    FoldResolves(s, winner, loser, a);
    FoldResolves(s, winner, loser, b);
  }

  lemma FoldKeys(s: State, winner: Key, loser: Key)
    requires winner in s.persons && loser in s.persons && winner != loser
    ensures FoldInto(s, winner, loser).ids.Keys == s.ids.Keys
  {
    hide WithoutLoser;
  }

  function EnsureBoth(s: State, losing: Key, winning: Key, at: Time): (r: State)
    requires Valid(s)
    ensures Valid(r) && losing in r.ids && winning in r.ids
  {
    Ensure(Ensure(s, winning, at), losing, at)
  }

  /** A usable second id in the event: non-empty text that differs from the event's own id. */
  function OtherId(e: Event, key: string): Option<string> {
    match AsText(Get(e.properties, key))
    case Some(id) => if id != "" && id != e.distinctId then Some(id) else None
    case None => None
  }

  /** Which second id an event asks to merge, under which guard. */
  function MergeRequest(e: Event): Option<(string, MergeGuard)> {
    if e.name == "$identify" then WithGuard(OtherId(e, "$anon_distinct_id"), RefuseIdentifiedSource)
    else if e.name == "$create_alias" then WithGuard(OtherId(e, "alias"), RefuseBothIdentified)
    else if e.name == "$merge_dangerously" then WithGuard(OtherId(e, "alias"), Always)
    else None
  }

  function WithGuard(id: Option<string>, guard: MergeGuard): Option<(string, MergeGuard)> {
    match id case Some(id) => Some((id, guard)) case None => None
  }

  predicate Identifies(e: Event) {
    e.name == "$identify" || e.name == "$create_alias"
  }

  function ApplyMerge(s: State, project: string, e: Event): (r: State)
    requires Valid(s) && Key(project, e.distinctId) in s.ids
    ensures Valid(r) && s.ids.Keys <= r.ids.Keys
  {
    match MergeRequest(e)
    case None => s
    case Some((other, guard)) =>
      var losing, winning := Key(project, other), Key(project, e.distinctId);
      Merge(EnsureBoth(s, losing, winning, e.at), losing, winning, guard)
  }

  function GroupKind(e: Event): Option<string> { AsText(Get(e.properties, "$group_type")) }

  function GroupId(e: Event): Option<string> {
    match Get(e.properties, "$group_key")
    case Some(Text(t)) => Some(t)
    case Some(Number(t)) => Some(t)
    case _ => None
  }

  function ApplyGroup(s: State, project: string, e: Event): (r: State)
    requires Valid(s)
    ensures Valid(r) && SameRows(s, r)
  {
    if e.name != "$groupidentify" || GroupKind(e).None? || GroupId(e).None? then s
    else
      var g := GroupKey(project, GroupKind(e).value, GroupId(e).value);
      var before := if g in s.groups then s.groups[g] else Group(map[], e.at);
      var put := match AsObject(Get(e.properties, "$group_set")) case Some(f) => f case None => map[];
      s.(groups := s.groups[g := before.(properties := before.properties + put)])
  }

  /** `$set_once` never overwrites, `$set` always does, `$unset` removes last. */
  function Edited(p: Fields, e: Event): Fields {
    var once := match AsObject(Get(e.properties, "$set_once")) case Some(f) => f case None => map[];
    var put := match AsObject(Get(e.properties, "$set")) case Some(f) => f case None => map[];
    var unset := match AsArray(Get(e.properties, "$unset")) case Some(a) => TextItems(a) case None => {};
    once + p + put - unset
  }

  function EditProperties(s: State, k: Key, e: Event): (r: State)
    requires Valid(s) && k in s.ids
    ensures Valid(r) && SameRows(s, r)
  {
    var p := s.Resolve(k);
    s.(persons := s.persons[p := s.persons[p].(properties := Edited(s.persons[p].properties, e))])
  }

  /** What the event's name alone decides: merge, mark as identified, or describe a group. */
  function ApplyKind(s: State, project: string, e: Event): (r: State)
    requires Valid(s) && Key(project, e.distinctId) in s.ids
    ensures Valid(r) && Key(project, e.distinctId) in r.ids
  {
    var merged := ApplyMerge(s, project, e);
    var marked := if Identifies(e) then MarkIdentified(merged, Key(project, e.distinctId)) else merged;
    ApplyGroup(marked, project, e)
  }

  /** `apply_identity`: everything one event does to the projection. */
  function Apply(s: State, project: string, e: Event): (r: State)
    requires Valid(s)
    ensures Valid(r)
  {
    var k := Key(project, e.distinctId);
    EditProperties(ApplyKind(Touch(Ensure(s, k, e.at), k, e.at), project, e), k, e)
  }

  // ------------------------------------------------------------------ erasure

  function IdsOf(s: State, person: Key): set<Key> {
    set k | k in s.ids && s.Resolve(k) == person
  }

  /** `erase_person`: the person and every id of theirs go, the ids stay listed until their events are gone too. */
  function Erase(s: State, person: Key): (r: State)
    requires Valid(s)
    ensures Valid(r)
  {
    var gone := IdsOf(s, person);
    s.(persons := s.persons - {person}, ids := s.ids - gone, stamp := s.stamp + 1, epoch := s.epoch + 1,
       pending := s.pending + gone)
  }
}
