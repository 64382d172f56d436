/**
 The identity tables of `projections.db` and the statements that change them.
 Constraints of the schema are preconditions here: that every statement can run
 (no primary-key collision, no missing row) is proved at each call from the
 invariant, and each operation is proved to compute its meaning in `Identity`.
 */
module IdentityStore {
  import opened Wrappers
  import opened Json
  import opened Identity

  class Store {
    var persons: map<Key, Person>
    var distinctIds: map<Key, Row>
    var groups: map<GroupKey, Group>
    var stamp: nat
    var epoch: nat
    var pendingErasures: set<Key>

    ghost function Model(): State
      reads this
    {
      State(persons, distinctIds, groups, stamp, epoch, pendingErasures)
    }

    ghost predicate Sound()
      reads this
    {
      Valid(Model())
    }

    constructor ()
      ensures Sound() && Model() == Empty
    {
      persons, distinctIds, groups := map[], map[], map[];
      stamp, epoch, pendingErasures := 0, 0, {};
    }

    /** `INSERT INTO persons`; the primary key must be free. */
    method InsertPerson(k: Key, person: Person)
      requires k !in persons
      modifies this`persons
      ensures persons == old(persons)[k := person]
    {
      persons := persons[k := person];
    }

    /** `INSERT INTO distinct_ids`; the primary key must be free and the person must exist. */
    method InsertDistinctId(k: Key, person: string)
      requires k !in distinctIds && Key(k.project, person) in persons
      modifies this`distinctIds
      ensures distinctIds == old(distinctIds)[k := Row(person, 0)]
    {
      distinctIds := distinctIds[k := Row(person, 0)];
    }

    /** `UPDATE persons ... WHERE id = k`; changes nothing when the row is missing. */
    method UpdatePerson(k: Key, person: Person)
      modifies this`persons
      ensures persons == if k in old(persons) then old(persons)[k := person] else old(persons)
    {
      if k in persons {
        persons := persons[k := person];
      }
    }

    /** `UPDATE distinct_ids SET person_id, seq WHERE person_id = from`. */
    method Repoint(from: Key, to: string, next: nat)
      modifies this`distinctIds
      ensures distinctIds.Keys == old(distinctIds).Keys
      ensures forall k <- distinctIds ::
                (distinctIds[k] == if Key(k.project, old(distinctIds)[k].person) == from then Row(to, next)
                                   else old(distinctIds)[k])
    {
      distinctIds := map k | k in distinctIds ::
        if Key(k.project, distinctIds[k].person) == from then Row(to, next) else distinctIds[k];
    }

    /** `DELETE FROM persons`; the foreign key cascades to every id still naming the person. */
    method DeletePerson(person: Key)
      modifies this`persons, this`distinctIds
      ensures persons == old(persons) - {person}
      ensures distinctIds.Keys == set k | k in old(distinctIds) && Key(k.project, old(distinctIds)[k].person) != person
      ensures forall k <- distinctIds :: distinctIds[k] == old(distinctIds)[k]
    {
      persons := persons - {person};
      distinctIds := map k | k in distinctIds && Key(k.project, distinctIds[k].person) != person :: distinctIds[k];
    }

    /** `next_identity_seq`. */
    method NextIdentitySeq() returns (next: nat)
      modifies this`stamp
      ensures next == stamp == old(stamp) + 1
    {
      stamp := stamp + 1;
      next := stamp;
    }

    method EnsurePerson(project: string, distinctId: string, at: Time) returns (person: string)
      requires Sound()
      modifies this`persons, this`distinctIds
      ensures Sound() && Model() == Ensure(old(Model()), Key(project, distinctId), at)
      ensures Key(project, person) == Model().Resolve(Key(project, distinctId))
      ensures Key(project, person) in persons
    {
      var k := Key(project, distinctId);
      if k in distinctIds {
        return distinctIds[k].person;
      }
      person := distinctId;
      InsertPerson(k, Person(at, false, map[], distinctId, None));
      InsertDistinctId(k, person);
    }

    method SetIdentified(project: string, distinctId: string)
      requires Sound() && Key(project, distinctId) in distinctIds
      modifies this`persons
      ensures Sound() && Model() == MarkIdentified(old(Model()), Key(project, distinctId))
    {
      var p := Key(project, distinctIds[Key(project, distinctId)].person);
      UpdatePerson(p, persons[p].(identified := true));
    }

    method MergePersons(project: string, losing: string, winning: string, at: Time, guard: MergeGuard)
      requires Sound()
      modifies this
      ensures Sound()
      ensures var l, w := Key(project, losing), Key(project, winning);
              Model() == Merge(EnsureBoth(old(Model()), l, w, at), l, w, guard)
      ensures var (a, b) := (Key(project, losing), Key(project, winning));
              GuardDecides(EnsureBoth(old(Model()), a, b, at), Model(), a, b, guard)
    {
      hide Valid, FoldInto, GuardDecides;
      MergeDecides(EnsureBoth(Model(), Key(project, losing), Key(project, winning), at), Key(project, losing), Key(project, winning), guard);
      var winner := EnsurePerson(project, winning, at);
      var loser := EnsurePerson(project, losing, at);
      if winner == loser {
        return;
      }
      var w, l := Key(project, winner), Key(project, loser);
      ghost var before := Model();
      if persons[l].identified {
        if guard == RefuseIdentifiedSource {
          return;
        }
        if guard == RefuseBothIdentified {
          if persons[w].identified {
            return;
          }
          w, l := l, w;
        }
      }
      FoldRows(w, l);
      assert Model() == FoldInto(before, w, l);
    }

    /** The statements of an accepted merge, in their order. */
    method FoldRows(w: Key, l: Key)
      requires Sound() && w in persons && l in persons && w != l && w.project == l.project
      modifies this
      ensures Sound() && Model() == FoldInto(old(Model()), w, l)
    {
      hide Valid, FoldInto, Repointed, WithoutLoser, Blend, Later;
      ghost var before := Model();
      FoldKeepsValid(before, w, l);
      var merged := persons[l].properties + persons[w].properties;
      var createdAt, firstSeenKey := persons[w].createdAt, persons[w].firstSeenKey;
      if persons[l].createdAt < createdAt {
        createdAt, firstSeenKey := persons[l].createdAt, persons[l].firstSeenKey;
      }
      var next := NextIdentitySeq();
      Repoint(l, w.id, next);
      RepointedIs(before, w, l, next, distinctIds);
      UpdatePerson(w, persons[w].(lastSeen := Later(persons[w].lastSeen, persons[l].lastSeen)));
      UpdatePerson(w, Person(createdAt, true, merged, firstSeenKey, persons[w].lastSeen));
      assert persons == before.persons[w := persons[w]];
      SurvivorIs(before, w, l, persons[w]);
      NothingCascades(before, w, l, next);
      DeletePerson(l);
      assert distinctIds == Repointed(before, w, l, next);
      FoldIs(before, w, l);
    }

    /** Fill in what is missing (`entry(key).or_insert`), key by key. */
    static method InsertMissing(properties: Fields, values: Fields) returns (r: Fields)
      ensures r == values + properties
    {
      r := properties;
      var rest := values.Keys;
      while rest != {}
        invariant rest <= values.Keys
        invariant r.Keys == properties.Keys + (values.Keys - rest)
        invariant forall k <- r :: r[k] == if k in properties then properties[k] else values[k]
      {
        var key :| key in rest;
        if key !in r {
          r := r[key := values[key]];
        }
        rest := rest - {key};
      }
    }

    static method InsertAll(properties: Fields, values: Fields) returns (r: Fields)
      ensures r == properties + values
    {
      r := properties;
      var rest := values.Keys;
      while rest != {}
        invariant rest <= values.Keys
        invariant r.Keys == properties.Keys + (values.Keys - rest)
        invariant forall k <- r :: r[k] == if k in values && k !in rest then values[k] else properties[k]
      {
        var key :| key in rest;
        r := r[key := values[key]];
        rest := rest - {key};
      }
    }

    static method RemoveTexts(properties: Fields, items: seq<Json>) returns (r: Fields)
      ensures r == properties - TextItems(items)
    {
      r := properties;
      for i := 0 to |items|
        invariant r == properties - TextItems(items[..i])
      {
        assert items[..i + 1] == items[..i] + [items[i]];
        if items[i].Text? {
          r := r - {items[i].text};
        }
      }
      assert items[..|items|] == items;
    }

    method ApplyGroupIdentify(project: string, e: Event)
      requires Sound() && e.name == "$groupidentify"
      modifies this`groups
      ensures Sound() && Model() == ApplyGroup(old(Model()), project, e)
    {
      var kind, id := GroupKind(e), GroupId(e);
      if kind.None? || id.None? {
        return;
      }
      var g := GroupKey(project, kind.value, id.value);
      var properties: Fields := if g in groups then groups[g].properties else map[];
      var put := AsObject(Get(e.properties, "$group_set"));
      assert properties + map[] == properties;
      if put.Some? {
        properties := InsertAll(properties, put.value);
      }
      // ON CONFLICT keeps the stored creation time.
      groups := groups[g := if g in groups then groups[g].(properties := properties) else Group(properties, e.at)];
    }

    /** `$set_once`, then `$set`, then `$unset`. */
    static method EditedProperties(before: Fields, e: Event) returns (properties: Fields)
      ensures properties == Edited(before, e)
    {
      properties := before;
      var once := AsObject(Get(e.properties, "$set_once"));
      if once.Some? {
        properties := InsertMissing(properties, once.value);
      }
      assert map[] + before == before;
      var put := AsObject(Get(e.properties, "$set"));
      ghost var filled := properties;
      if put.Some? {
        properties := InsertAll(properties, put.value);
      }
      assert filled + map[] == filled;
      var unset := AsArray(Get(e.properties, "$unset"));
      if unset.Some? {
        properties := RemoveTexts(properties, unset.value);
      }
    }

    method ApplyPersonProperties(project: string, e: Event)
      requires Sound() && Key(project, e.distinctId) in distinctIds
      modifies this
      ensures Sound() && Model() == EditProperties(old(Model()), Key(project, e.distinctId), e)
    {
      var once := AsObject(Get(e.properties, "$set_once"));
      var put := AsObject(Get(e.properties, "$set"));
      var unset := AsArray(Get(e.properties, "$unset"));
      if once.None? && put.None? && unset.None? {
        NothingEdited(Model(), Key(project, e.distinctId), e);
        return;
      }
      var person := EnsurePerson(project, e.distinctId, e.at);
      var p := Key(project, person);
      var properties := EditedProperties(persons[p].properties, e);
      UpdatePerson(p, persons[p].(properties := properties));
      assert Model() == EditProperties(old(Model()), Key(project, e.distinctId), e);
    }

    /** The branch on the event name. */
    method ApplyNamed(project: string, e: Event)
      requires Sound() && Key(project, e.distinctId) in distinctIds
      modifies this
      ensures Sound() && Model() == ApplyKind(old(Model()), project, e)
    {
      hide Valid;
      if e.name == "$identify" {
        var other := OtherId(e, "$anon_distinct_id");
        if other.Some? {
          MergePersons(project, other.value, e.distinctId, e.at, RefuseIdentifiedSource);
        }
        SetIdentified(project, e.distinctId);
      } else if e.name == "$create_alias" {
        var other := OtherId(e, "alias");
        if other.Some? {
          MergePersons(project, other.value, e.distinctId, e.at, RefuseBothIdentified);
        }
        SetIdentified(project, e.distinctId);
      } else if e.name == "$merge_dangerously" {
        var other := OtherId(e, "alias");
        if other.Some? {
          MergePersons(project, other.value, e.distinctId, e.at, Always);
        }
      } else if e.name == "$groupidentify" {
        ApplyGroupIdentify(project, e);
      }
    }

    /** All identity effects of one event. */
    method ApplyIdentity(project: string, e: Event)
      requires Sound()
      modifies this
      ensures Sound() && Model() == Apply(old(Model()), project, e)
    {
      hide Valid;
      var k := Key(project, e.distinctId);
      var person := EnsurePerson(project, e.distinctId, e.at);
      NoteSeen(project, e.distinctId, person, e.at);
      ApplyNamed(project, e);
      ApplyPersonProperties(project, e);
    }

    /** `UPDATE persons SET last_seen` when the event is newer than what is stored. */
    method NoteSeen(project: string, distinctId: string, person: string, at: Time)
      requires Sound() && Key(project, distinctId) in distinctIds
      requires Key(project, person) == Model().Resolve(Key(project, distinctId))
      modifies this`persons
      ensures Sound() && Model() == Touch(old(Model()), Key(project, distinctId), at)
    {
      var p := Key(project, person);
      if persons[p].lastSeen.None? || persons[p].lastSeen.value < Sortable(at) {
        UpdatePerson(p, persons[p].(lastSeen := Some(Sortable(at))));
      }
      assert persons == Touch(old(Model()), Key(project, distinctId), at).persons;
    }

    /** `erase_person`: returns the distinct ids whose events must now be removed. */
    method ErasePerson(person: Key) returns (gone: set<Key>)
      requires Sound()
      modifies this
      ensures Sound() && Model() == Erase(old(Model()), person)
      ensures gone == IdsOf(old(Model()), person)
    {
      hide Valid;
      gone := set k | k in distinctIds && Key(k.project, distinctIds[k].person) == person;
      pendingErasures := pendingErasures + gone;
      distinctIds := distinctIds - gone;
      DeletePerson(person);
      assert distinctIds == old(distinctIds) - gone;
      epoch, stamp := epoch + 1, stamp + 1;
      assert Model() == Erase(old(Model()), person);
    }
  }

  /** An event without property edits leaves the person as it is. */
  lemma NothingEdited(s: State, k: Key, e: Event)
    requires Valid(s) && k in s.ids
    requires AsObject(Get(e.properties, "$set_once")).None?
    requires AsObject(Get(e.properties, "$set")).None?
    requires AsArray(Get(e.properties, "$unset")).None?
    ensures EditProperties(s, k, e) == s
  {
    var p := s.persons[s.Resolve(k)];
    assert map[] + p.properties + map[] - {} == p.properties;
    assert Edited(p.properties, e) == p.properties;
  }

  /** Once the loser's ids are repointed, deleting the loser cascades to no row. */
  lemma RepointedIs(s: State, w: Key, l: Key, next: nat, ids: map<Key, Row>)
    requires ids.Keys == s.ids.Keys
    requires forall k <- ids :: ids[k] == if Key(k.project, s.ids[k].person) == l then Row(w.id, next) else s.ids[k]
    ensures ids == Repointed(s, w, l, next)
  {
  }

  lemma SurvivorIs(s: State, w: Key, l: Key, survivor: Person)
    requires w in s.persons && l in s.persons
    requires var (a, b) := (s.persons[w], s.persons[l]);
             var older := if b.createdAt < a.createdAt then b else a;
             survivor == Person(older.createdAt, true, b.properties + a.properties, older.firstSeenKey, Later(a.lastSeen, b.lastSeen))
    ensures survivor == Blend(s.persons[w], s.persons[l])
  {
  }

  lemma FoldIs(s: State, w: Key, l: Key)
    requires w in s.persons && l in s.persons && w != l
    ensures FoldInto(s, w, l)
         == s.(persons := s.persons[w := Blend(s.persons[w], s.persons[l])] - {l}, ids := Repointed(s, w, l, s.stamp + 1), stamp := s.stamp + 1)
  {
    hide Blend, Repointed;
  }

  lemma NothingCascades(s: State, winner: Key, loser: Key, next: nat)
    requires winner != loser && winner.project == loser.project
    ensures forall k <- Repointed(s, winner, loser, next) ::
      Key(k.project, Repointed(s, winner, loser, next)[k].person) != loser
  {
  }
}
