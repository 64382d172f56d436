/**
 The generation-guarded cache of compiled flag definitions, with any number of
 readers and writers interleaved wherever a lock is released.
 */
module FlagCache {
  import opened Wrappers

  const MAX_CACHED_PROJECTS := 1024

  /** `wrapping_add` on an unsigned 64-bit counter. */
  const GENERATIONS: nat := 0x1_0000_0000_0000_0000

  /** A `compiled` call between its critical sections. `floor` is the newest write that had returned when the call began. */
  datatype Reader =
    | LookedUp(project: string, generation: nat, floor: nat, since: nat)
    | Loaded(project: string, generation: nat, floor: nat, since: nat, version: nat)
    | Returned(project: string, floor: nat, version: nat)

  /** A create, update or delete that has committed but not invalidated the cache yet. */
  datatype Writer = Committed(project: string, version: nat)

  /**
   `stored` counts the committed writes of each project, which is also the version
   of its definitions; `returned` is the newest version whose write has returned.
   */
  datatype Flags = Flags(
    stored: map<string, nat>,
    returned: map<string, nat>,
    generation: nat,
    cached: map<string, nat>,
    invalidations: nat,
    readers: map<nat, Reader>,
    writers: map<nat, Writer>)

  const Opened := Flags(map[], map[], 0, map[], 0, map[], map[])

  datatype Action =
    | LookUp(call: nat, project: string)
    | Load(call: nat)
    | Keep(call: nat)
    | Commit(call: nat, project: string)
    | Invalidate(call: nat)

  function Of(m: map<string, nat>, project: string): nat {
    if project in m then m[project] else 0
  }

  function Newer(a: nat, b: nat): nat {
    if a < b then b else a
  }

  /** First critical section of `compiled`: a hit returns at once, a miss notes the generation. */
  function LooksUp(s: Flags, call: nat, project: string): Flags {
    var floor := Of(s.returned, project);
    if project in s.cached then s.(readers := s.readers[call := Returned(project, floor, s.cached[project])])
    else s.(readers := s.readers[call := LookedUp(project, s.generation, floor, s.invalidations)])
  }

  /** Last critical section of `compiled`: cache what was read unless a write has invalidated since. */
  function Keeps(s: Flags, call: nat, r: Reader): Flags
    requires r.Loaded?
  {
    var done := s.(readers := s.readers[call := Returned(r.project, r.floor, r.version)]);
    if s.generation == r.generation then
      done.(cached := (if |s.cached| >= MAX_CACHED_PROJECTS then map[] else s.cached)[r.project := r.version])
    else done
  }

  function Step(s: Flags, a: Action): Flags {
    match a
    case LookUp(call, project) =>
      if call in s.readers then s else LooksUp(s, call, project)
    case Load(call) =>
      if call in s.readers && s.readers[call].LookedUp? then
        var r := s.readers[call];
        s.(readers := s.readers[call := Loaded(r.project, r.generation, r.floor, r.since, Of(s.stored, r.project))])
      else s
    case Keep(call) =>
      if call in s.readers && s.readers[call].Loaded? then Keeps(s, call, s.readers[call]) else s
    case Commit(call, project) =>
      if call in s.writers then s
      else
        var version := Of(s.stored, project) + 1;
        s.(stored := s.stored[project := version], writers := s.writers[call := Committed(project, version)])
    case Invalidate(call) =>
      if call in s.writers then
        var w := s.writers[call];
        s.(generation := (s.generation + 1) % GENERATIONS, cached := s.cached - {w.project}, invalidations := s.invalidations + 1,
           writers := s.writers - {call}, returned := s.returned[w.project := Newer(Of(s.returned, w.project), w.version)])
      else s
  }

  function Run(s: Flags, actions: seq<Action>): Flags
    decreases |actions|
  {
    if actions == [] then s else Step(Run(s, actions[..|actions| - 1]), actions[|actions| - 1])
  }

  // ------------------------------------------------------------------- invariant

  /** Write `version` of the project has committed and not returned. */
  ghost predicate InFlight(s: Flags, project: string, version: nat) {
    exists call :: call in s.writers && s.writers[call] == Committed(project, version)
  }

  /** Definitions of that version lack only writes that have not returned. */
  ghost predicate Current(s: Flags, project: string, version: nat) {
    && version <= Of(s.stored, project)
    && Of(s.returned, project) <= version
    && forall v | version < v <= Of(s.stored, project) :: InFlight(s, project, v)
  }

  ghost predicate ReaderSound(s: Flags, r: Reader) {
    match r
    case LookedUp(project, generation, floor, since) =>
      since <= s.invalidations && generation == since % GENERATIONS && floor <= Of(s.stored, project)
    case Loaded(project, generation, floor, since, version) =>
      since <= s.invalidations && generation == since % GENERATIONS && floor <= version
      && (since == s.invalidations ==> Current(s, project, version))
    case Returned(_, floor, version) => floor <= version
  }

  ghost predicate WritersSound(s: Flags) {
    && (forall p: string {:trigger Of(s.returned, p)} :: Of(s.returned, p) <= Of(s.stored, p))
    && (forall call <- s.writers :: s.writers[call].version <= Of(s.stored, s.writers[call].project))
    && (forall a, b | a in s.writers && b in s.writers && s.writers[a] == s.writers[b] :: a == b)
  }

  ghost predicate CacheSound(s: Flags) {
    |s.cached| <= MAX_CACHED_PROJECTS && forall p <- s.cached :: Current(s, p, s.cached[p])
  }

  ghost predicate ReadersSound(s: Flags) {
    forall call <- s.readers :: ReaderSound(s, s.readers[call])
  }

  ghost predicate Inv(s: Flags) {
    s.generation == s.invalidations % GENERATIONS && WritersSound(s) && CacheSound(s) && ReadersSound(s)
  }

  /** A new write of a project is the one version ahead of it that is in flight. */
  lemma CommitKeeps(s: Flags, call: nat, project: string)
    requires Inv(s)
    ensures Inv(Step(s, Commit(call, project)))
  {
    hide Current;
    var r := Step(s, Commit(call, project));
    if call !in s.writers {
      forall p, v: nat | Current(s, p, v) ensures Current(r, p, v) { CommitKeepsCurrent(s, call, project, p, v); }
    }
  }

  lemma CommitKeepsCurrent(s: Flags, call: nat, project: string, p: string, v: nat)
    requires call !in s.writers && Current(s, p, v)
    ensures Current(Step(s, Commit(call, project)), p, v)
  {
    var r := Step(s, Commit(call, project));
    assert InFlight(r, project, Of(s.stored, project) + 1) by {
      assert r.writers[call] == Committed(project, Of(s.stored, project) + 1);
    }
    forall n: nat | InFlight(s, p, n) ensures InFlight(r, p, n) {
      var w :| w in s.writers && s.writers[w] == Committed(p, n);
      assert r.writers[w] == Committed(p, n);
    }
  }

  lemma InvalidateKeeps(s: Flags, call: nat)
    requires Inv(s)
    ensures Inv(Step(s, Invalidate(call)))
  {
    hide WritersSound, CacheSound, ReadersSound;
    if call in s.writers {
      InvalidateKeepsWriters(s, call);
      InvalidateKeepsCache(s, call);
      InvalidateKeepsReaders(s, call);
    }
  }

  lemma InvalidateKeepsWriters(s: Flags, call: nat)
    requires WritersSound(s) && call in s.writers
    ensures WritersSound(Step(s, Invalidate(call)))
  {
    var r := Step(s, Invalidate(call));
    forall p: string ensures Of(r.returned, p) <= Of(r.stored, p) {
      assert Of(s.returned, p) <= Of(s.stored, p);
    }
  }

  lemma InvalidateKeepsCache(s: Flags, call: nat)
    requires CacheSound(s) && call in s.writers
    ensures CacheSound(Step(s, Invalidate(call)))
  {
    hide Current, Of;
    var r := Step(s, Invalidate(call));
    assert r.cached.Keys <= s.cached.Keys;
    CardinalitySubset(r.cached.Keys, s.cached.Keys);
    assert |r.cached| == |r.cached.Keys| && |s.cached| == |s.cached.Keys|;
    forall p | p in r.cached ensures Current(r, p, r.cached[p]) { InvalidateKeepsCurrent(s, call, p, s.cached[p]); }
  }

  lemma InvalidateKeepsReaders(s: Flags, call: nat)
    requires ReadersSound(s) && call in s.writers
    ensures ReadersSound(Step(s, Invalidate(call)))
  {
    hide Current;
  }

  lemma InvalidateKeepsCurrent(s: Flags, call: nat, p: string, v: nat)
    requires call in s.writers && s.writers[call].project != p && Current(s, p, v)
    ensures Current(Step(s, Invalidate(call)), p, v)
  {
    var r := Step(s, Invalidate(call));
    forall n: nat | InFlight(s, p, n) ensures InFlight(r, p, n) {
      var o :| o in s.writers && s.writers[o] == Committed(p, n);
      assert r.writers[o] == Committed(p, n);
    }
  }

  lemma CardinalitySubset(a: set<string>, b: set<string>)
    requires a <= b
    ensures |a| <= |b|
  {
    assert b == a + (b - a);
    assert |b| == |a| + |b - a|;
  }

  /** Reading and caching move no write. */
  lemma SameCurrent(s: Flags, r: Flags)
    requires s.writers == r.writers && s.stored == r.stored && s.returned == r.returned
    ensures forall p, v: nat :: Current(s, p, v) <==> Current(r, p, v)
  {
    forall p: string, v: nat ensures InFlight(s, p, v) <==> InFlight(r, p, v) {}
  }

  lemma LookUpKeeps(s: Flags, call: nat, project: string)
    requires Inv(s)
    ensures Inv(Step(s, LookUp(call, project)))
  {
    var r := Step(s, LookUp(call, project));
    assert project in s.cached ==> Of(s.returned, project) <= s.cached[project];
    hide Current;
    SameCurrent(s, r);
  }

  lemma LoadKeeps(s: Flags, call: nat)
    requires Inv(s)
    ensures Inv(Step(s, Load(call)))
  {
    var r := Step(s, Load(call));
    assert forall p :: Current(s, p, Of(s.stored, p));
    hide Current;
    SameCurrent(s, r);
  }

  lemma KeepKeeps(s: Flags, call: nat)
    requires Inv(s) && s.invalidations < GENERATIONS
    ensures Inv(Step(s, Keep(call)))
  {
    hide Current, Of, CacheSound, ReadersSound;
    KeepKeepsCache(s, call);
    KeepKeepsReaders(s, call);
  }

  lemma KeepKeepsReaders(s: Flags, call: nat)
    requires ReadersSound(s)
    ensures ReadersSound(Step(s, Keep(call)))
  {
    hide Current, Of;
    var r := Step(s, Keep(call));
    SameCurrent(s, r);
    if r != s {
      assert ReaderSound(s, s.readers[call]);
    }
  }

  lemma KeepKeepsCache(s: Flags, call: nat)
    requires Inv(s) && s.invalidations < GENERATIONS
    ensures CacheSound(Step(s, Keep(call)))
  {
    hide Current, Of, WritersSound;
    var r := Step(s, Keep(call));
    SameCurrent(s, r);
    if r != s && s.generation == s.readers[call].generation {
      assert ReaderSound(s, s.readers[call]);
      SmallCounters(s.invalidations, s.readers[call].since);
      var kept := if |s.cached| >= MAX_CACHED_PROJECTS then map[] else s.cached;
      InsertSize(kept, s.readers[call].project, s.readers[call].version);
    }
  }

  lemma SmallCounters(a: nat, b: nat)
    requires a < GENERATIONS && b <= a && a % GENERATIONS == b % GENERATIONS
    ensures a == b
  {
  }

  lemma InsertSize(m: map<string, nat>, k: string, v: nat)
    ensures |m[k := v]| <= |m| + 1
  {
    assert m[k := v].Keys == m.Keys + {k};
    assert |m[k := v]| == |m[k := v].Keys| && |m| == |m.Keys|;
  }

  lemma StepKeeps(s: Flags, a: Action)
    requires Inv(s) && s.invalidations < GENERATIONS
    ensures Inv(Step(s, a))
  {
    hide Inv, Step;
    match a
    case LookUp(call, project) => LookUpKeeps(s, call, project);
    case Load(call) => LoadKeeps(s, call);
    case Keep(call) => KeepKeeps(s, call);
    case Commit(call, project) => CommitKeeps(s, call, project);
    case Invalidate(call) => InvalidateKeeps(s, call);
  }

  lemma {:induction false} RunKeeps(actions: seq<Action>)
    requires Run(Opened, actions).invalidations < GENERATIONS
    ensures Inv(Run(Opened, actions))
    decreases |actions|
  {
    hide Inv, Step;
    if actions == [] {
      assert Inv(Opened) by { OpenedInv(); }
    } else {
      var front := actions[..|actions| - 1];
      CounterGrows(Run(Opened, front), actions[|actions| - 1]);
      RunKeeps(front);
      StepKeeps(Run(Opened, front), actions[|actions| - 1]);
    }
  }

  lemma CounterGrows(s: Flags, a: Action)
    ensures s.invalidations <= Step(s, a).invalidations
  {
  }

  lemma OpenedInv()
    ensures Inv(Opened)
  {
  }

  lemma {:induction false} RunConcat(s: Flags, a: seq<Action>, b: seq<Action>)
    ensures Run(s, a + b) == Run(Run(s, a), b)
    decreases |b|
  {
    hide Step;
    if b == [] {
      assert a + b == a;
    } else {
      assert (a + b)[..|a + b| - 1] == a + b[..|b| - 1];
      RunConcat(s, a, b[..|b| - 1]);
    }
  }

  /** The newest returned version of a project only grows. */
  lemma {:induction false} ReturnedGrows(s: Flags, actions: seq<Action>, project: string)
    ensures Of(s.returned, project) <= Of(Run(s, actions).returned, project)
    decreases |actions|
  {
    hide Step, Of;
    if actions != [] {
      ReturnedGrows(s, actions[..|actions| - 1], project);
      ReturnedStep(Run(s, actions[..|actions| - 1]), actions[|actions| - 1], project);
    }
  }

  lemma ReturnedStep(s: Flags, a: Action, project: string)
    ensures Of(s.returned, project) <= Of(Step(s, a).returned, project)
  {
  }

  /** A call keeps its project and the newest version returned when it began. */
  lemma {:induction false} FloorStays(s: Flags, actions: seq<Action>, call: nat)
    requires call in s.readers
    ensures var r := Run(s, actions);
            call in r.readers && r.readers[call].project == s.readers[call].project && r.readers[call].floor == s.readers[call].floor
    decreases |actions|
  {
    hide Step;
    if actions != [] {
      FloorStays(s, actions[..|actions| - 1], call);
      FloorStep(Run(s, actions[..|actions| - 1]), actions[|actions| - 1], call);
    }
  }

  lemma FloorStep(s: Flags, a: Action, call: nat)
    requires call in s.readers
    ensures var r := Step(s, a);
            call in r.readers && r.readers[call].project == s.readers[call].project && r.readers[call].floor == s.readers[call].floor
  {
  }

  /**
   A `compiled` call never returns definitions older than a write that had returned
   before the call began, however readers and writers interleave, as long as the
   generation counter has not gone all the way around: `writer` returns in its last
   step, then the call looks up, and when the call returns it has at least that version.
   */
  lemma NeverOlderThanAReturnedWrite(before: seq<Action>, writer: nat, between: seq<Action>, call: nat, project: string, after: seq<Action>)
    requires var s := Run(Opened, before); writer in s.writers && s.writers[writer].project == project
    requires call !in Run(Opened, before + [Invalidate(writer)] + between).readers
    requires var r := Run(Opened, before + [Invalidate(writer)] + between + [LookUp(call, project)] + after);
             r.invalidations < 0x1_0000_0000_0000_0000 && call in r.readers && r.readers[call].Returned?
    ensures var r := Run(Opened, before + [Invalidate(writer)] + between + [LookUp(call, project)] + after);
            r.readers[call].project == project && Run(Opened, before).writers[writer].version <= r.readers[call].version
  {
    hide Run, Step;
    var s := Run(Opened, before);
    var returned := before + [Invalidate(writer)];
    LastStep(Opened, before, Invalidate(writer));
    Returns(s, writer);
    RunConcat(Opened, returned, between);
    ReturnedGrows(Run(Opened, returned), between, project);
    var begun := returned + between;
    LastStep(Opened, begun, LookUp(call, project));
    Begins(Run(Opened, begun), call, project);
    RunConcat(Opened, begun + [LookUp(call, project)], after);
    FloorStays(Run(Opened, begun + [LookUp(call, project)]), after, call);
    var all := begun + [LookUp(call, project)] + after;
    RunKeeps(all);
    assert ReaderSound(Run(Opened, all), Run(Opened, all).readers[call]);
  }

  lemma LastStep(s: Flags, actions: seq<Action>, a: Action)
    ensures Run(s, actions + [a]) == Step(Run(s, actions), a)
  {
    assert (actions + [a])[..|actions|] == actions;
  }

  lemma Returns(s: Flags, writer: nat)
    requires writer in s.writers
    ensures s.writers[writer].version <= Of(Step(s, Invalidate(writer)).returned, s.writers[writer].project)
  {
  }

  lemma Begins(s: Flags, call: nat, project: string)
    requires call !in s.readers
    ensures var r := Step(s, LookUp(call, project));
            call in r.readers && r.readers[call].project == project && r.readers[call].floor == Of(s.returned, project)
  {
  }

  /** Every write is a version of its own: committing makes the project's next version, and stores it. */
  lemma WritesCount(s: Flags, call: nat, project: string)
    requires call !in s.writers
    ensures var r := Step(s, Commit(call, project));
            r.stored == s.stored[project := Of(s.stored, project) + 1] && r.writers[call] == Committed(project, Of(s.stored, project) + 1)
  {
  }

  /** A cached project differs from the database only by writes that have not returned; with none in flight it is the database. */
  lemma CachedIsCurrent(actions: seq<Action>, project: string)
    requires var s := Run(Opened, actions); s.invalidations < 0x1_0000_0000_0000_0000 && project in s.cached
    ensures var s := Run(Opened, actions);
            && |s.cached| <= 1_024
            && Current(s, project, s.cached[project])
            && ((forall call <- s.writers :: s.writers[call].project != project) ==> s.cached[project] == Of(s.stored, project))
  {
    hide Run;
    RunKeeps(actions);
    var s := Run(Opened, actions);
    assert Current(s, project, s.cached[project]);
    if s.cached[project] < Of(s.stored, project) {
      assert InFlight(s, project, s.cached[project] + 1);
    }
  }

  /** A miss reads what is stored at that moment. */
  lemma MissReadsStored(s: Flags, call: nat)
    requires call in s.readers && s.readers[call].LookedUp?
    ensures var r := Step(s, Load(call)).readers[call];
            r.Loaded? && r.project == s.readers[call].project && r.version == Of(s.stored, r.project)
  {
  }

  /** With no write returning in between, what a miss read is kept, and the next call for the project is a hit. */
  lemma NextCallHits(s: Flags, call: nat, next: nat)
    requires call in s.readers && s.readers[call].Loaded? && s.readers[call].generation == s.generation && next !in s.readers
    ensures var project, version := s.readers[call].project, s.readers[call].version;
            var kept := Step(s, Keep(call));
            && kept.readers[call].Returned? && kept.readers[call].version == version
            && project in kept.cached && kept.cached[project] == version
            && (var hit := Step(kept, LookUp(next, project)).readers[next]; hit.Returned? && hit.version == version)
  {
  }

  /** A returning write drops its project from the cache, and keeps any read that began before it from being cached. */
  lemma WriteInvalidates(s: Flags, writer: nat, call: nat)
    requires Inv(s) && s.invalidations + 1 < GENERATIONS && writer in s.writers && call in s.readers && s.readers[call].Loaded?
    ensures var after := Step(s, Invalidate(writer));
            s.writers[writer].project !in after.cached && Step(after, Keep(call)).cached == after.cached
  {
    hide WritersSound, CacheSound, Current;
    var since := s.readers[call].since;
    assert ReaderSound(s, s.readers[call]);
    NewGeneration(s.invalidations, since);
  }

  lemma NewGeneration(now: nat, since: nat)
    requires since <= now && now + 1 < GENERATIONS
    ensures (now % GENERATIONS + 1) % GENERATIONS != since % GENERATIONS
  {
  }
}
