/** `Lake::activate` and `Lake::sweep_graveyard`, as the loops that change the shared snapshot and the graveyard in place. */
module LakeStore {
  import opened Wrappers
  import opened LakeFiles

  /** Days the project will gain files on get their entry before any file is pushed. */
  function Prepared(days: Days, added: seq<LakeFile>, project: string): Days {
    if added == [] then days
    else
      var before := Prepared(days, added[..|added| - 1], project);
      var f := added[|added| - 1];
      if f.project == project && f.day !in before then before[f.day := []] else before
  }

  lemma {:induction false} PreparedDays(days: Days, added: seq<LakeFile>, project: string, d: Day)
    ensures d in Prepared(days, added, project) <==> d in days || exists i :: 0 <= i < |added| && added[i].project == project && added[i].day == d
    ensures d in Prepared(days, added, project) ==> Prepared(days, added, project)[d] == (if d in days then days[d] else [])
  {
    if added != [] {
      var front, f := added[..|added| - 1], added[|added| - 1];
      PreparedDays(days, front, project, d);
      assert forall i | 0 <= i < |front| :: front[i] == added[i];
      if exists i :: 0 <= i < |added| && added[i].project == project && added[i].day == d {
        var i :| 0 <= i < |added| && added[i].project == project && added[i].day == d;
        assert i < |front| ==> front[i].day == d;
      }
    }
  }

  /** Pushing every file over the prepared days gives the same as pushing over the kept ones. */
  lemma {:induction false} PushedDays(days: Days, added: seq<LakeFile>, project: string, k: nat, d: Day)
    requires k <= |added|
    ensures var pushed := WithFiles(Prepared(days, added, project), added[..k], project);
            var plain := WithFiles(days, added[..k], project);
            && (d in plain ==> d in pushed && pushed[d] == plain[d])
            && (d in pushed && d !in plain ==> pushed[d] == [] && exists i :: k <= i < |added| && added[i].project == project && added[i].day == d)
  {
    if k == 0 {
      PreparedDays(days, added, project, d);
    } else {
      PushedDays(days, added, project, k - 1, d);
      assert added[..k][..k - 1] == added[..k - 1];
      PushedDays(days, added, project, k - 1, added[k - 1].day);
    }
  }

  lemma AllPushed(days: Days, added: seq<LakeFile>, project: string)
    ensures WithFiles(Prepared(days, added, project), added, project) == WithFiles(days, added, project)
  {
    assert added[..|added|] == added;
    var pushed := WithFiles(Prepared(days, added, project), added, project);
    var plain := WithFiles(days, added, project);
    forall d: Day ensures d in pushed <==> d in plain {
      PushedDays(days, added, project, |added|, d);
    }
    forall d | d in plain ensures pushed[d] == plain[d] {
      PushedDays(days, added, project, |added|, d);
    }
  }

  class Lake {
    var current: Snapshot
    var graveyard: seq<LakeFile>

    constructor (snapshot: Snapshot)
      ensures current == snapshot && graveyard == [] && fresh(this)
    {
      current, graveyard := snapshot, [];
    }

    /** Split one day's files. */
    method KeepFiles(files: seq<LakeFile>, retired: set<nat>) returns (stays: seq<LakeFile>, buried: seq<LakeFile>)
      ensures stays == Without(files, retired)
      ensures forall f :: f in buried <==> f in files && f.id in retired
    {
      stays, buried := [], [];
      var i := 0;
      while i < |files|
        invariant 0 <= i <= |files|
        invariant stays == Without(files[..i], retired)
        invariant forall f :: f in buried <==> f in files[..i] && f.id in retired
      {
        assert files[..i + 1][..i] == files[..i] && files[..i + 1] == files[..i] + [files[i]];
        if files[i].id in retired {
          buried := buried + [files[i]];
        } else {
          stays := stays + [files[i]];
        }
        i := i + 1;
      }
      assert files[..i] == files;
    }

    /** Split one project's days into what stays and what is buried. */
    method KeepDays(days: Days, retired: set<nat>) returns (kept: Days, buried: seq<LakeFile>)
      ensures kept == KeptDays(days, retired)
      ensures forall f :: f in buried <==> f in InDays(days) && f.id in retired
    {
      kept, buried := map[], [];
      var todo: set<Day> := days.Keys;
      while todo != {}
        invariant todo <= days.Keys
        invariant kept == KeptOutside(days, retired, todo)
        invariant forall f :: f in buried <==> BuriedOutside(days, retired, todo, f)
        decreases |todo|
      {
        var d :| d in todo;
        var stays, gone := KeepFiles(days[d], retired);
        OneMoreDay(days, retired, todo, d, stays, gone);
        todo := todo - {d};
        buried := buried + gone;
        if stays != [] {
          kept := kept[d := stays];
        }
      }
    }

    /** Give the days of the added files their entries. */
    method Prepare(days: Days, added: seq<LakeFile>, project: string) returns (r: Days)
      ensures r == Prepared(days, added, project)
    {
      r := days;
      var i := 0;
      while i < |added|
        invariant 0 <= i <= |added| && r == Prepared(days, added[..i], project)
      {
        assert added[..i + 1][..i] == added[..i];
        if added[i].project == project && added[i].day !in r {
          r := r[added[i].day := []];
        }
        i := i + 1;
      }
      assert added[..i] == added;
    }

    /** Rebuild every touched project without its retired files. */
    method RebuildTouched(projects: map<string, ProjectFiles>, generation: nat, added: seq<LakeFile>, retired: set<nat>)
      returns (r: map<string, ProjectFiles>, buried: seq<LakeFile>, built: set<string>)
      ensures built == Touched(projects, added, retired)
      ensures r == Rebuilt(projects, generation, added, retired, Touched(projects, added, retired))
      ensures forall f :: f in buried <==> f in InProjects(projects) && f.id in retired
    {
      hide Prepared, KeptDays, InDays, InProjects, Touched;
      var touched := Touched(projects, added, retired);
      r, buried, built := projects, [], {};
      var todo := touched;
      while todo != {}
        invariant todo <= touched && built == touched - todo
        invariant r == Rebuilt(projects, generation, added, retired, touched - todo)
        invariant forall f :: f in buried <==> BuriedIn(projects, retired, touched - todo, f)
        decreases |todo|
      {
        var project :| project in todo;
        var days, gone := KeepDays(OldDays(projects, project), retired);
        days := Prepare(days, added, project);
        OneMoreProject(projects, generation, added, retired, touched, todo, project, gone);
        NextBuilt(touched, todo, project);
        todo, built := todo - {project}, built + {project};
        r := r[project := ProjectFiles(generation, days)];
        buried := buried + gone;
      }
      assert touched - todo == touched;
      forall f ensures BuriedIn(projects, retired, touched, f) <==> f in InProjects(projects) && f.id in retired {
        BuriedAll(projects, added, retired, f);
      }
    }

    /**
     Install a committed generation. Retired files go to the graveyard; old snapshots and
     leases keep them alive. `built` are the projects whose files were built in this call,
     so that nobody else can hold them; the added files are pushed to these only.
     */
    method Activate(generation: nat, added: seq<LakeFile>, retired: set<nat>) returns (built: set<string>)
      requires NoneEmpty(current.projects)
      modifies this
      ensures current == Snapshot(generation, Installed(old(current.projects), generation, added, retired))
      ensures NoneEmpty(current.projects)
      ensures forall f <- added :: f.project in built
      ensures forall p <- built :: p in current.projects ==> current.projects[p].version == generation
      ensures forall p | p !in built :: (p in current.projects <==> p in old(current.projects))
      ensures forall p <- current.projects :: p !in built ==> current.projects[p] == old(current.projects)[p]
      ensures |old(graveyard)| <= |graveyard| && graveyard[..|old(graveyard)|] == old(graveyard)
      ensures forall f :: f in graveyard[|old(graveyard)|..] <==> f in InProjects(old(current.projects)) && f.id in retired
    {
      hide Prepared, KeptDays, InDays, WithFiles, Installed;
      var before := current.projects;
      var projects, buried;
      projects, buried, built := RebuildTouched(before, generation, added, retired);
      NothingPushed(before, generation, added, retired);
      var i := 0;
      while i < |added|
        invariant 0 <= i <= |added|
        invariant projects == Pushed(before, generation, added, retired, i)
        invariant current == old(current) && graveyard == old(graveyard)
      {
        var file := added[i];
        TouchedByAdded(before, added, retired, i);
        // The two expectations in the source: the project was inserted above, and built there.
        assert file.project in projects;
        assert file.project in built;
        OneMorePushed(before, generation, added, retired, i);
        projects := projects[file.project := projects[file.project].(days := WithFile(projects[file.project].days, file))];
        i := i + 1;
      }
      AllInstalled(before, generation, added, retired);
      projects := map p | p in projects && projects[p].days != map[] :: projects[p];
      current := Snapshot(generation, projects);
      graveyard := graveyard + buried;
      assert graveyard[|old(graveyard)|..] == buried;
      AllTouched(before, added, retired);
      OthersAsBefore(before, generation, added, retired);
      InstalledNoneEmpty(before, generation, added, retired);
    }

    /**
     Unlink the buried files nobody else holds. `shared` is the reference count
     being above one, `unlinkable` whether the unlink succeeds.
     */
    method SweepGraveyard(shared: set<nat>, unlinkable: set<nat>) returns (removed: set<LakeFile>)
      modifies this`graveyard
      ensures forall f :: f in removed <==> f in old(graveyard) && f.id !in shared && f.id in unlinkable
      ensures forall f :: f in graveyard <==> f in old(graveyard) && (f.id in shared || f.id !in unlinkable)
    {
      hide Gone;
      removed := {};
      assert Gone([], shared, unlinkable) == {} by { NothingGone(shared, unlinkable); }
      var files, kept, i := graveyard, [], 0;
      while i < |files|
        invariant 0 <= i <= |files|
        invariant kept == Without(files[..i], unlinkable - shared)
        invariant removed == Gone(files[..i], shared, unlinkable)
      {
        assert files[..i + 1][..i] == files[..i] && files[..i + 1] == files[..i] + [files[i]];
        OneMoreGone(files[..i], files[i], shared, unlinkable);
        if files[i].id in shared || files[i].id !in unlinkable {
          kept := kept + [files[i]];
        } else {
          removed := removed + {files[i]};
        }
        i := i + 1;
      }
      assert files[..i] == files;
      graveyard := kept;
      forall f ensures f in graveyard <==> f in files && f.id !in unlinkable - shared {
        WithoutMembers(files, unlinkable - shared, f);
      }
      GoneAre(files, shared, unlinkable);
    }
  }

  /** The buried files nobody shares whose unlink succeeds. */
  function Gone(files: seq<LakeFile>, shared: set<nat>, unlinkable: set<nat>): set<LakeFile> {
    set f | f in files && f.id !in shared && f.id in unlinkable
  }

  lemma GoneAre(files: seq<LakeFile>, shared: set<nat>, unlinkable: set<nat>)
    ensures forall f :: f in Gone(files, shared, unlinkable) <==> f in files && f.id !in shared && f.id in unlinkable
  {
  }

  lemma NothingGone(shared: set<nat>, unlinkable: set<nat>)
    ensures Gone([], shared, unlinkable) == {}
  {
  }

  lemma OneMoreGone(files: seq<LakeFile>, f: LakeFile, shared: set<nat>, unlinkable: set<nat>)
    ensures Gone(files + [f], shared, unlinkable)
         == Gone(files, shared, unlinkable) + if f.id in shared || f.id !in unlinkable then {} else {f}
  {
  }

  /** No project is kept without files. */
  predicate NoneEmpty(projects: map<string, ProjectFiles>) {
    forall p <- projects :: projects[p].days != map[]
  }

  function RebuiltDays(projects: map<string, ProjectFiles>, added: seq<LakeFile>, retired: set<nat>, p: string): Days {
    Prepared(KeptDays(OldDays(projects, p), retired), added, p)
  }

  /** The touched projects in `done` rebuilt, nothing pushed yet. */
  function Rebuilt(projects: map<string, ProjectFiles>, generation: nat, added: seq<LakeFile>, retired: set<nat>, done: set<string>)
    : map<string, ProjectFiles>
  {
    map p | p in projects.Keys + done :: if p in done then ProjectFiles(generation, RebuiltDays(projects, added, retired, p)) else projects[p]
  }

  /** Every touched project rebuilt and the first `k` files pushed. */
  function Pushed(projects: map<string, ProjectFiles>, generation: nat, added: seq<LakeFile>, retired: set<nat>, k: nat)
    : map<string, ProjectFiles>
    requires k <= |added|
  {
    var touched := Touched(projects, added, retired);
    map p | p in projects.Keys + touched ::
      if p in touched then ProjectFiles(generation, WithFiles(RebuiltDays(projects, added, retired, p), added[..k], p)) else projects[p]
  }

  predicate BuriedIn(projects: map<string, ProjectFiles>, retired: set<nat>, done: set<string>, f: LakeFile) {
    f.id in retired && exists p :: p in done && f in InDays(OldDays(projects, p))
  }

  lemma NextBuilt(touched: set<string>, todo: set<string>, p: string)
    requires p in todo && todo <= touched
    ensures touched - (todo - {p}) == touched - todo + {p}
  {
  }

  lemma OneMoreProject(projects: map<string, ProjectFiles>, generation: nat, added: seq<LakeFile>, retired: set<nat>,
                       touched: set<string>, todo: set<string>, p: string, gone: seq<LakeFile>)
    requires p in todo && todo <= touched
    requires forall f :: f in gone <==> f in InDays(OldDays(projects, p)) && f.id in retired
    ensures Rebuilt(projects, generation, added, retired, touched - (todo - {p}))
         == Rebuilt(projects, generation, added, retired, touched - todo)[p := ProjectFiles(generation, RebuiltDays(projects, added, retired, p))]
    ensures forall f :: BuriedIn(projects, retired, touched - (todo - {p}), f) <==> BuriedIn(projects, retired, touched - todo, f) || f in gone
  {
    assert touched - (todo - {p}) == (touched - todo) + {p};
  }

  lemma BuriedAll(projects: map<string, ProjectFiles>, added: seq<LakeFile>, retired: set<nat>, f: LakeFile)
    ensures BuriedIn(projects, retired, Touched(projects, added, retired), f) <==> f in InProjects(projects) && f.id in retired
  {
    forall p ensures InDays(OldDays(projects, p)) <= InProjects(projects) {
      OldDaysIn(projects, p);
    }
    if f in InProjects(projects) && f.id in retired {
      var p :| p in projects && f in InDays(projects[p].days);
      assert f.id in Ids(InDays(projects[p].days)) * retired;
      assert p in Touched(projects, added, retired);
    }
  }

  lemma NothingPushed(projects: map<string, ProjectFiles>, generation: nat, added: seq<LakeFile>, retired: set<nat>)
    ensures Rebuilt(projects, generation, added, retired, Touched(projects, added, retired)) == Pushed(projects, generation, added, retired, 0)
  {
    assert added[..0] == [];
  }

  lemma TouchedByAdded(projects: map<string, ProjectFiles>, added: seq<LakeFile>, retired: set<nat>, i: nat)
    requires i < |added|
    ensures added[i].project in Touched(projects, added, retired)
  {
    assert added[i] in added;
  }

  lemma AllTouched(projects: map<string, ProjectFiles>, added: seq<LakeFile>, retired: set<nat>)
    ensures forall f <- added :: f.project in Touched(projects, added, retired)
  {
  }

  lemma OthersAsBefore(projects: map<string, ProjectFiles>, generation: nat, added: seq<LakeFile>, retired: set<nat>)
    ensures var r, touched := Installed(projects, generation, added, retired), Touched(projects, added, retired);
            && (forall p <- touched :: p in r ==> r[p].version == generation)
            && (forall p | p !in touched :: (p in r <==> p in projects) && (p in r ==> r[p] == projects[p]))
  {
    hide Touched, NewDays;
  }

  lemma OneMorePushed(projects: map<string, ProjectFiles>, generation: nat, added: seq<LakeFile>, retired: set<nat>, i: nat)
    requires i < |added|
    ensures var before, p := Pushed(projects, generation, added, retired, i), added[i].project;
            && p in before
            && Pushed(projects, generation, added, retired, i + 1) == before[p := before[p].(days := WithFile(before[p].days, added[i]))]
  {
    TouchedByAdded(projects, added, retired, i);
    assert added[..i + 1][..i] == added[..i];
  }

  /** Dropping the projects left empty gives exactly the installed ones. */
  lemma AllInstalled(projects: map<string, ProjectFiles>, generation: nat, added: seq<LakeFile>, retired: set<nat>)
    requires NoneEmpty(projects)
    ensures var all := Pushed(projects, generation, added, retired, |added|);
            (map p | p in all && all[p].days != map[] :: all[p]) == Installed(projects, generation, added, retired)
  {
    hide WithFiles, Prepared, KeptDays;
    var all := Pushed(projects, generation, added, retired, |added|);
    assert added[..|added|] == added;
    forall p | p in Touched(projects, added, retired) ensures all[p].days == NewDays(projects, p, added, retired) {
      AllPushed(KeptDays(OldDays(projects, p), retired), added, p);
    }
  }

  lemma InstalledNoneEmpty(projects: map<string, ProjectFiles>, generation: nat, added: seq<LakeFile>, retired: set<nat>)
    requires NoneEmpty(projects)
    ensures NoneEmpty(Installed(projects, generation, added, retired))
  {
  }

  function KeptOutside(days: Days, retired: set<nat>, todo: set<Day>): Days {
    map d | d in days && d !in todo && Without(days[d], retired) != [] :: Without(days[d], retired)
  }

  predicate BuriedOutside(days: Days, retired: set<nat>, todo: set<Day>, f: LakeFile) {
    f.id in retired && exists d :: d in days && d !in todo && f in days[d]
  }

  lemma OneMoreDay(days: Days, retired: set<nat>, todo: set<Day>, d: Day, stays: seq<LakeFile>, gone: seq<LakeFile>)
    requires d in todo && todo <= days.Keys && stays == Without(days[d], retired)
    requires forall f :: f in gone <==> f in days[d] && f.id in retired
    ensures KeptOutside(days, retired, todo - {d})
         == (if stays != [] then KeptOutside(days, retired, todo)[d := stays] else KeptOutside(days, retired, todo))
    ensures forall f :: BuriedOutside(days, retired, todo - {d}, f) <==> BuriedOutside(days, retired, todo, f) || f in gone
  {
  }
}
