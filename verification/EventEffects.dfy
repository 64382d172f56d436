/**
 What one event does, read off the tables before and after it: who shares a person,
 who counts as logged in, and what becomes of a person's properties and times.
 */
module EventEffects {
  import opened Wrappers
  import opened Json
  import opened Identity
  import opened IdentityRuns
  import opened IdentityPartition

  /** The event carries the text `id` under that key. */
  predicate Says(e: Event, key: string, id: string) {
    key in e.properties && e.properties[key] == Text(id)
  }

  predicate LoggedIn(s: State, p: Key) {
    p in s.persons && s.persons[p].identified
  }

  /** The event asks to join the person of `other`, and the two people allow it. */
  predicate Joins(s: State, project: string, e: Event, other: string) {
    var (own, them) := (PersonOf(s, Key(project, e.distinctId)), PersonOf(s, Key(project, other)));
    && other != "" && other != e.distinctId && own != them
    && (|| (e.name == "$identify" && Says(e, "$anon_distinct_id", other) && !LoggedIn(s, them))
        || (e.name == "$create_alias" && Says(e, "alias", other) && !(LoggedIn(s, own) && LoggedIn(s, them)))
        || (e.name == "$merge_dangerously" && Says(e, "alias", other)))
  }

  /** The person that survives. */
  function Survivor(s: State, project: string, e: Event, other: string): Key {
    var (own, them) := (PersonOf(s, Key(project, e.distinctId)), PersonOf(s, Key(project, other)));
    if e.name == "$create_alias" && LoggedIn(s, them) then them else own
  }

  function Gone(s: State, project: string, e: Event, other: string): Key {
    var (own, them) := (PersonOf(s, Key(project, e.distinctId)), PersonOf(s, Key(project, other)));
    if e.name == "$create_alias" && LoggedIn(s, them) then own else them
  }

  // ------------------------------------------------------------------ who is who

  /** Same people behind every id, and the same ones logged in. */
  ghost predicate SameWho(s: State, r: State) {
    (forall k :: PersonOf(r, k) == PersonOf(s, k)) && (forall p :: LoggedIn(r, p) == LoggedIn(s, p))
  }

  lemma EnsureSameWho(s: State, k: Key, at: Time)
    requires Valid(s)
    ensures SameWho(s, Ensure(s, k, at)) && s.ids.Keys <= Ensure(s, k, at).ids.Keys
  {
    hide StampsMarkOverrides, FirstSeenIsOwn;
    assert k !in s.ids ==> k !in s.persons;
  }

  lemma TouchSameWho(s: State, k: Key, at: Time)
    requires Valid(s) && k in s.ids
    ensures SameWho(s, Touch(s, k, at))
  {
    hide PersonsAreRoots, StampsMarkOverrides, FirstSeenIsOwn;
  }

  lemma BothPeople(s: State, project: string, e: Event, other: string)
    requires Valid(s)
    ensures var own, them := Key(project, e.distinctId), Key(project, other);
            var both := EnsureBoth(Seen(s, project, e), them, own, e.at);
            && SameWho(s, both)
            && both.Resolve(own) == PersonOf(s, own) && both.Resolve(own) in both.persons
            && both.Resolve(them) == PersonOf(s, them) && both.Resolve(them) in both.persons
  {
    hide Valid, Ensure, Touch;
    var own, them := Key(project, e.distinctId), Key(project, other);
    var a := Ensure(s, own, e.at);
    EnsureSameWho(s, own, e.at);
    TouchSameWho(a, own, e.at);
    var b := Touch(a, own, e.at);
    EnsureSameWho(b, own, e.at);
    var c := Ensure(b, own, e.at);
    EnsureSameWho(c, them, e.at);
    PersonKnown(Ensure(c, them, e.at), own);
    PersonKnown(Ensure(c, them, e.at), them);
  }

  /** Exactly which event folds which people. */
  lemma FoldsWhen(s: State, project: string, e: Event, other: string)
    requires Valid(s)
    ensures Joins(s, project, e, other) ==> Folded(s, project, e) == Some((Gone(s, project, e, other), Survivor(s, project, e, other)))
    ensures Folded(s, project, e).Some? && MergeRequest(e).value.0 == other ==> Joins(s, project, e, other)
  {
    hide Valid, Seen, EnsureBoth, PersonOf;
    BothPeople(s, project, e, other);
  }

  /**
   After an event two ids share a person if and only if they did before, or the event
   joined their people; and the joined ids belong to the survivor.
   */
  lemma WhoShares(s: State, project: string, e: Event, a: Key, b: Key)
    requires Valid(s)
    ensures var r := Apply(s, project, e);
            (PersonOf(r, a) == PersonOf(r, b)
             <==> || PersonOf(s, a) == PersonOf(s, b)
                  || exists other :: Joins(s, project, e, other)
                                     && {PersonOf(s, a), PersonOf(s, b)}
                                        == {PersonOf(s, Key(project, e.distinctId)), PersonOf(s, Key(project, other))})
    ensures (forall other | Joins(s, project, e, other) && PersonOf(s, a) == Gone(s, project, e, other) ::
               PersonOf(Apply(s, project, e), a) == Survivor(s, project, e, other))
    ensures (forall other | Joins(s, project, e, other) :: PersonOf(s, a) != Gone(s, project, e, other)) ==>
              PersonOf(Apply(s, project, e), a) == PersonOf(s, a)
  {
    hide Valid, Apply, PersonOf, Folded, Joins;
    PersonsAfter(s, project, e, a);
    PersonsAfter(s, project, e, b);
    forall other ensures Joins(s, project, e, other) ==> Folded(s, project, e) == Some((Gone(s, project, e, other), Survivor(s, project, e, other))) {
      FoldsWhen(s, project, e, other);
    }
    if Folded(s, project, e).Some? {
      FoldsWhen(s, project, e, MergeRequest(e).value.0);
    }
  }

  // ----------------------------------------------------------- what is known of them

  /** What is known of an id's person, or would be when it is first seen. */
  function Known(s: State, k: Key, at: Time): Person
    requires Valid(s)
  {
    PersonKnownHere(s, k);
    if k in s.ids then s.persons[s.Resolve(k)] else Person(at, false, map[], k.id, None)
  }

  lemma PersonKnownHere(s: State, k: Key)
    requires Valid(s)
    ensures k in s.ids ==> s.Resolve(k) in s.persons
  {
  }

  /** One of the three lists of property edits an event may carry. */
  function Edit(e: Event, key: string): Fields {
    if key in e.properties && e.properties[key].Object? then e.properties[key].fields else map[]
  }

  predicate Unsets(e: Event, name: string) {
    "$unset" in e.properties && e.properties["$unset"].Array? && Text(name) in e.properties["$unset"].items
  }

  function Max(a: Time, b: Option<Time>): Time {
    if b.Some? && a < b.value then b.value else a
  }

  /** The person `p` now has this record; everyone else's is as before. */
  ghost predicate OnlyChanges(s: State, r: State, p: Key, record: Person) {
    && p in r.persons && r.persons[p] == record
    && forall q <- s.persons :: q != p ==> q in r.persons && r.persons[q] == s.persons[q]
  }

  lemma OnlyChangesTwice(s: State, m: State, r: State, p: Key, first: Person, second: Person)
    requires OnlyChanges(s, m, p, first) && OnlyChanges(m, r, p, second)
    ensures OnlyChanges(s, r, p, second)
  {
  }

  lemma SeenRecord(s: State, project: string, e: Event)
    requires Valid(s)
    ensures var r, own := Seen(s, project, e), Key(project, e.distinctId);
            var was := Known(s, own, e.at);
            && own in r.ids && r.Resolve(own) == PersonOf(s, own)
            && OnlyChanges(s, r, PersonOf(s, own), was.(lastSeen := Some(Max(e.at / 1000, was.lastSeen))))
  {
    hide StampsMarkOverrides, FirstSeenIsOwn;
  }

  /** A merge that folds nobody leaves every record alone. */
  lemma NoFoldRecord(s: State, project: string, e: Event, own: Key)
    requires Valid(s) && own == Key(project, e.distinctId) && own in s.ids
    requires (MergeRequest(e).Some? ==>
                var other := Key(project, MergeRequest(e).value.0);
                FoldedIn(EnsureBoth(s, other, own, e.at), other, own, MergeRequest(e).value.1).None?)
    ensures var r := ApplyMerge(s, project, e);
            own in r.ids && r.Resolve(own) == s.Resolve(own) && s.Resolve(own) in s.persons
            && OnlyChanges(s, r, s.Resolve(own), s.persons[s.Resolve(own)])
  {
    hide StampsMarkOverrides, FirstSeenIsOwn, MergeRequest, FoldInto;
    if MergeRequest(e).Some? {
      EnsureRecord(s, own, e.at);
      EnsureRecord(s, Key(project, MergeRequest(e).value.0), e.at);
    }
  }

  lemma EnsureRecord(s: State, k: Key, at: Time)
    requires Valid(s)
    ensures var r := Ensure(s, k, at);
            && (forall q <- s.persons :: q in r.persons && r.persons[q] == s.persons[q])
            && (forall x <- s.ids :: x in r.ids && r.ids[x] == s.ids[x])
  {
    hide StampsMarkOverrides, FirstSeenIsOwn, RowsResolve;
  }

  /** What the name and the property edits of an event do to its person. */
  lemma MarkedRecord(s: State, project: string, e: Event, own: Key)
    requires Valid(s) && own == Key(project, e.distinctId) && own in s.ids && s.Resolve(own) in s.persons
    ensures var marked := ApplyGroup(if Identifies(e) then MarkIdentified(s, own) else s, project, e);
            var r := EditProperties(marked, own, e);
            var was := s.persons[s.Resolve(own)];
            && own in r.ids && r.Resolve(own) == s.Resolve(own) && r.persons.Keys == s.persons.Keys
            && OnlyChanges(s, r, s.Resolve(own), was.(identified := was.identified || Identifies(e), properties := Edited(was.properties, e)))
  {
    hide Valid, Edited, GroupKind, GroupId;
  }

  /** `$unset` wins over `$set`, `$set` over what is stored, and what is stored over `$set_once`. */
  ghost predicate Cascades(stored: Fields, now: Fields, e: Event, name: string) {
    if Unsets(e, name) then name !in now
    else if name in Edit(e, "$set") then name in now && now[name] == Edit(e, "$set")[name]
    else if name in stored then name in now && now[name] == stored[name]
    else if name in Edit(e, "$set_once") then name in now && now[name] == Edit(e, "$set_once")[name]
    else name !in now
  }

  lemma EditsCascade(stored: Fields, e: Event, name: string)
    ensures Cascades(stored, Edited(stored, e), e, name)
  {
    if Unsets(e, name) {
      assert name in TextItems(e.properties["$unset"].items);
    }
  }

  /** After an event that joins nobody, what is known of its person; everyone else is as before. */
  lemma PersonAfter(s: State, project: string, e: Event, name: string)
    requires Valid(s) && forall other :: !Joins(s, project, e, other)
    ensures var r, own := Apply(s, project, e), Key(project, e.distinctId);
            var was, now := Known(s, own, e.at), Known(r, own, e.at);
            && own in r.ids && now.lastSeen == Some(Max(e.at / 1000, was.lastSeen)) && Cascades(was.properties, now.properties, e, name)
            && now.createdAt == was.createdAt && now.firstSeenKey == was.firstSeenKey
            && (now.identified <==> was.identified || e.name == "$identify" || e.name == "$create_alias")
            && forall p <- s.persons :: p != PersonOf(s, own) ==> p in r.persons && r.persons[p] == s.persons[p]
  {
    hide Valid, Seen, ApplyMerge, ApplyGroup, MarkIdentified, EditProperties, Edited, EnsureBoth, FoldedIn, Joins, Cascades, Ensure, Touch,
         MergeRequest;
    var own := Key(project, e.distinctId);
    var was := Known(s, own, e.at);
    if Folded(s, project, e).Some? {
      FoldsWhen(s, project, e, MergeRequest(e).value.0);
    }
    var seen := Seen(s, project, e);
    SeenRecord(s, project, e);
    NoFoldRecord(seen, project, e, own);
    var merged := ApplyMerge(seen, project, e);
    MarkedRecord(merged, project, e, own);
    var p, first := PersonOf(s, own), was.(lastSeen := Some(Max(e.at / 1000, was.lastSeen)));
    OnlyChangesTwice(s, seen, merged, p, first, first);
    var second := first.(identified := first.identified || Identifies(e), properties := Edited(first.properties, e));
    ApplySteps(s, project, e);
    OnlyChangesTwice(s, merged, Apply(s, project, e), p, first, second);
    EditsCascade(first.properties, e, name);
  }

  lemma ApplySteps(s: State, project: string, e: Event)
    requires Valid(s)
    ensures var own, merged := Key(project, e.distinctId), ApplyMerge(Seen(s, project, e), project, e);
            Apply(s, project, e) == EditProperties(ApplyGroup(if Identifies(e) then MarkIdentified(merged, own) else merged, project, e), own, e)
  {
    hide Valid, ApplyMerge, ApplyGroup, MarkIdentified, EditProperties, Ensure, Touch;
  }

  /** A fold keeps both sides' properties, the survivor's first; the older side's creation time and key; the later sight. */
  lemma FoldRecord(s: State, project: string, e: Event, other: string, own: Key)
    requires Valid(s) && own == Key(project, e.distinctId) && own in s.ids && MergeRequest(e).Some? && MergeRequest(e).value.0 == other
    requires FoldedIn(EnsureBoth(s, Key(project, other), own, e.at), Key(project, other), own, MergeRequest(e).value.1).Some?
    ensures var both := EnsureBoth(s, Key(project, other), own, e.at);
            var (loser, winner) := FoldedIn(both, Key(project, other), own, MergeRequest(e).value.1).value;
            var r := ApplyMerge(s, project, e);
            && own in r.ids && r.Resolve(own) == winner && winner in both.persons && loser in both.persons && loser !in r.persons
            && OnlyChangesBut(both, r, winner, Blend(both.persons[winner], both.persons[loser]), loser)
  {
    hide StampsMarkOverrides, FirstSeenIsOwn, MergeRequest, Blend, EnsureBoth;
    var both := EnsureBoth(s, Key(project, other), own, e.at);
    var (loser, winner) := FoldedIn(both, Key(project, other), own, MergeRequest(e).value.1).value;
    FoldResolves(both, winner, loser, own);
  }

  ghost predicate OnlyChangesBut(s: State, r: State, p: Key, record: Person, gone: Key) {
    && p in r.persons && r.persons[p] == record
    && forall q <- s.persons :: q != p && q != gone ==> q in r.persons && r.persons[q] == s.persons[q]
  }

  /** What a fold makes of two people, the survivor first. */
  ghost predicate Folds(a: Person, b: Person, now: Person) {
    && now.identified
    && now.createdAt == (if b.createdAt < a.createdAt then b.createdAt else a.createdAt)
    && now.firstSeenKey == (if b.createdAt < a.createdAt then b.firstSeenKey else a.firstSeenKey)
    && (forall x {:trigger x in now.properties} :: x in now.properties <==> x in a.properties || x in b.properties)
    && (forall x <- now.properties :: now.properties[x] == if x in a.properties then a.properties[x] else b.properties[x])
    && now.lastSeen == (if b.lastSeen.None? then a.lastSeen
                        else if a.lastSeen.None? then b.lastSeen
                        else Some(Max(a.lastSeen.value, b.lastSeen)))
  }

  lemma BlendFolds(a: Person, b: Person)
    ensures Folds(a, b, Blend(a, b))
  {
  }

  lemma BothRecords(s: State, them: Key, own: Key, at: Time)
    requires Valid(s) && own in s.ids
    ensures var r := EnsureBoth(s, them, own, at);
            && (forall q <- s.persons :: q in r.persons && r.persons[q] == s.persons[q])
            && own in r.ids && r.Resolve(own) == s.Resolve(own) && them in r.ids
            && r.Resolve(them) in r.persons && r.persons[r.Resolve(them)] == Known(s, them, at)
  {
    hide StampsMarkOverrides, FirstSeenIsOwn;
  }

  /** Seeing an event changes nothing that is known of anybody else. */
  lemma OthersKnown(s: State, project: string, e: Event, them: Key)
    requires Valid(s) && PersonOf(s, them) != PersonOf(s, Key(project, e.distinctId))
    ensures Known(Seen(s, project, e), them, e.at) == Known(s, them, e.at)
  {
    hide StampsMarkOverrides, FirstSeenIsOwn;
  }

  /** The record a join leaves before the event's own edits. */
  function Joined(s: State, project: string, e: Event, other: string): Person
    requires Valid(s)
  {
    var mine, theirs := Known(s, Key(project, e.distinctId), e.at), Known(s, Key(project, other), e.at);
    var seen := mine.(lastSeen := Some(Max(e.at / 1000, mine.lastSeen)));
    if Survivor(s, project, e, other) == PersonOf(s, Key(project, e.distinctId)) then Blend(seen, theirs) else Blend(theirs, seen)
  }

  lemma JoinedRecord(s: State, project: string, e: Event, other: string)
    requires Valid(s) && Joins(s, project, e, other)
    ensures var own, merged := Key(project, e.distinctId), ApplyMerge(Seen(s, project, e), project, e);
            && own in merged.ids && merged.Resolve(own) == Survivor(s, project, e, other) && Gone(s, project, e, other) !in merged.persons
            && OnlyChangesBut(s, merged, Survivor(s, project, e, other), Joined(s, project, e, other), Gone(s, project, e, other))
  {
    hide Valid, Seen, ApplyMerge, EnsureBoth, FoldedIn, Ensure, Touch, Blend, Max, PersonOf, Known;
    var own, them := Key(project, e.distinctId), Key(project, other);
    FoldsWhen(s, project, e, other);
    var seen := Seen(s, project, e);
    SeenRecord(s, project, e);
    BothPeople(s, project, e, other);
    BothRecords(seen, them, own, e.at);
    OthersKnown(s, project, e, them);
    assert MergeRequest(e).Some? && MergeRequest(e).value.0 == other;
    hide Joins, MergeRequest;
    FoldRecord(seen, project, e, other, own);
  }

  /**
   After an event that joins two people: one record is left, of the survivor, made of
   both; the event's own sight and edits apply to it as to any other.
   */
  lemma PersonAfterJoin(s: State, project: string, e: Event, other: string, name: string)
    requires Valid(s) && Joins(s, project, e, other)
    ensures var r, own, them := Apply(s, project, e), Key(project, e.distinctId), Key(project, other);
            var mine, theirs := Known(s, own, e.at), Known(s, them, e.at);
            var seen := mine.(lastSeen := Some(Max(e.at / 1000, mine.lastSeen)));
            var blend, now := Joined(s, project, e, other), Known(r, own, e.at);
            && own in r.ids && PersonOf(r, own) == Survivor(s, project, e, other) && Gone(s, project, e, other) !in r.persons
            && (if Survivor(s, project, e, other) == PersonOf(s, own) then Folds(seen, theirs, blend) else Folds(theirs, seen, blend))
            && now.createdAt == blend.createdAt && now.firstSeenKey == blend.firstSeenKey && now.identified && now.lastSeen == blend.lastSeen
            && Cascades(blend.properties, now.properties, e, name)
            && forall p <- s.persons :: p != PersonOf(s, own) && p != PersonOf(s, them) ==> p in r.persons && r.persons[p] == s.persons[p]
  {
    hide Valid, Seen, ApplyMerge, ApplyGroup, MarkIdentified, EditProperties, Edited, EnsureBoth, FoldedIn, Joins, Cascades, Ensure, Touch,
         MergeRequest, Blend, Max, Folds;
    var own := Key(project, e.distinctId);
    var merged := ApplyMerge(Seen(s, project, e), project, e);
    var blend := Joined(s, project, e, other);
    JoinedRecord(s, project, e, other);
    MarkedRecord(merged, project, e, own);
    ApplySteps(s, project, e);
    EditsCascade(blend.properties, e, name);
    var mine, theirs := Known(s, own, e.at), Known(s, Key(project, other), e.at);
    var seen := mine.(lastSeen := Some(Max(e.at / 1000, mine.lastSeen)));
    BlendFolds(seen, theirs);
    BlendFolds(theirs, seen);
  }

  // ------------------------------------------------------------------------- groups

  /** A `$groupidentify` of this group: its type and its key, a text or a number. */
  predicate Describes(project: string, e: Event, g: GroupKey) {
    && e.name == "$groupidentify" && g.project == project && Says(e, "$group_type", g.kind)
    && "$group_key" in e.properties && (e.properties["$group_key"] == Text(g.id) || e.properties["$group_key"] == Number(g.id))
  }

  /** Describing a group edits its properties; no other event touches it. */
  lemma GroupAfter(s: State, project: string, e: Event, g: GroupKey, name: string)
    requires Valid(s)
    ensures var r := Apply(s, project, e);
            if !Describes(project, e, g) then (g in r.groups <==> g in s.groups) && (g in s.groups ==> r.groups[g] == s.groups[g])
            else
              && g in r.groups
              && r.groups[g].createdAt == (if g in s.groups then s.groups[g].createdAt else e.at)
              && (if name in Edit(e, "$group_set") then name in r.groups[g].properties && r.groups[g].properties[name] == Edit(e, "$group_set")[name]
                  else if g in s.groups && name in s.groups[g].properties
                  then name in r.groups[g].properties && r.groups[g].properties[name] == s.groups[g].properties[name]
                  else name !in r.groups[g].properties)
  {
    hide Valid, Seen, ApplyMerge, MarkIdentified, Edited, Ensure, Touch;
    ApplySteps(s, project, e);
    GroupsUntouched(s, project, e);
  }

  lemma GroupsUntouched(s: State, project: string, e: Event)
    requires Valid(s)
    ensures var own, merged := Key(project, e.distinctId), ApplyMerge(Seen(s, project, e), project, e);
            merged.groups == s.groups && MarkIdentified(merged, own).groups == s.groups
  {
    hide Valid, Repointed, WithoutLoser, MergeRequest;
  }

  // ------------------------------------------------------------------------ erasure

  /** An erasure takes the person and exactly the ids that resolve to them, lists those, and leaves everyone else alone. */
  lemma ErasureAfter(s: State, person: Key, k: Key)
    requires Valid(s)
    ensures var r := Erase(s, person);
            var theirs := k in s.ids && Key(k.project, s.ids[k].person) == person;
            && (k in r.ids <==> k in s.ids && !theirs) && (k in r.ids ==> r.ids[k] == s.ids[k])
            && (k in r.pending <==> k in s.pending || theirs)
            && (k in r.persons <==> k in s.persons && k != person) && (k in r.persons ==> r.persons[k] == s.persons[k])
            && r.epoch == s.epoch + 1 && r.stamp == s.stamp + 1 && r.groups == s.groups
  {
    hide Valid;
  }
}
