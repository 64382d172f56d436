/**
 The in-memory snapshot of event files: how a committed generation is installed,
 and how retired files wait for the last reader before they are unlinked.
 */
module LakeFiles {
  import opened Wrappers

  /** A UTC calendar day. */
  datatype Day = Day(number: int)

  datatype Path = Path(project: string, day: Day, generation: nat, index: nat)

  /** One immutable event file. Readers share it by reference; `id` is its identity. */
  datatype LakeFile = LakeFile(id: nat, project: string, day: Day, path: Path)

  type Days = map<Day, seq<LakeFile>>

  /** `version` is the generation of the last change to the project's files. */
  datatype ProjectFiles = ProjectFiles(version: nat, days: Days)

  datatype Snapshot = Snapshot(generation: nat, projects: map<string, ProjectFiles>)

  function InDays(days: Days): set<LakeFile> {
    set d, f | d in days && f in days[d] :: f
  }

  function InProjects(projects: map<string, ProjectFiles>): set<LakeFile> {
    set p, f | p in projects && f in InDays(projects[p].days) :: f
  }

  function Ids(files: set<LakeFile>): set<nat> {
    set f | f in files :: f.id
  }

  function Without(files: seq<LakeFile>, retired: set<nat>): seq<LakeFile> {
    if files == [] then []
    else
      var front, last := files[..|files| - 1], files[|files| - 1];
      Without(front, retired) + (if last.id in retired then [] else [last])
  }

  /** Days keep their surviving files; a day left with none goes. */
  function KeptDays(days: Days, retired: set<nat>): Days {
    map d | d in days && Without(days[d], retired) != [] :: Without(days[d], retired)
  }

  function WithFile(days: Days, f: LakeFile): Days {
    days[f.day := (if f.day in days then days[f.day] else []) + [f]]
  }

  function WithFiles(days: Days, added: seq<LakeFile>, project: string): Days {
    if added == [] then days
    else
      var before := WithFiles(days, added[..|added| - 1], project);
      var f := added[|added| - 1];
      if f.project == project then WithFile(before, f) else before
  }

  /** Projects that gain a file, or lose one. */
  function Touched(projects: map<string, ProjectFiles>, added: seq<LakeFile>, retired: set<nat>): set<string> {
    (set f | f in added :: f.project) + (set p | p in projects && Ids(InDays(projects[p].days)) * retired != {})
  }

  function OldDays(projects: map<string, ProjectFiles>, p: string): Days {
    if p in projects then projects[p].days else map[]
  }

  function NewDays(projects: map<string, ProjectFiles>, p: string, added: seq<LakeFile>, retired: set<nat>): Days {
    WithFiles(KeptDays(OldDays(projects, p), retired), added, p)
  }

  /** The projects after a generation: touched ones rebuilt under its number, the others as they were, empty ones gone. */
  function Installed(projects: map<string, ProjectFiles>, generation: nat, added: seq<LakeFile>, retired: set<nat>): map<string, ProjectFiles> {
    var touched := Touched(projects, added, retired);
    map p | p in projects.Keys + touched && (p in touched ==> NewDays(projects, p, added, retired) != map[]) ::
      if p in touched then ProjectFiles(generation, NewDays(projects, p, added, retired)) else projects[p]
  }

  // ------------------------------------------------------- what installing does to the files

  lemma {:induction false} WithoutMembers(files: seq<LakeFile>, retired: set<nat>, f: LakeFile)
    ensures f in Without(files, retired) <==> f in files && f.id !in retired
  {
    if files != [] {
      var front, last := files[..|files| - 1], files[|files| - 1];
      WithoutMembers(front, retired, f);
      assert files == front + [last];
    }
  }

  lemma KeptMembers(days: Days, retired: set<nat>, f: LakeFile)
    ensures f in InDays(KeptDays(days, retired)) <==> f in InDays(days) && f.id !in retired
  {
    forall d | d in days ensures f in Without(days[d], retired) <==> f in days[d] && f.id !in retired {
      WithoutMembers(days[d], retired, f);
    }
    if f in InDays(days) && f.id !in retired {
      var d :| d in days && f in days[d];
      assert d in KeptDays(days, retired) && f in KeptDays(days, retired)[d];
    }
  }

  lemma WithFileMembers(days: Days, g: LakeFile)
    ensures InDays(WithFile(days, g)) == InDays(days) + {g}
  {
    var r := WithFile(days, g);
    forall f ensures f in InDays(r) <==> f in InDays(days) || f == g {
      if f in InDays(days) {
        var d :| d in days && f in days[d];
        assert d in r && f in r[d];
      } else if f == g {
        assert g in r[g.day];
      }
    }
  }

  lemma {:induction false} WithFilesMembers(days: Days, added: seq<LakeFile>, project: string)
    ensures InDays(WithFiles(days, added, project)) == InDays(days) + set f | f in added && f.project == project
  {
    if added != [] {
      var front, g := added[..|added| - 1], added[|added| - 1];
      WithFilesMembers(days, front, project);
      assert added == front + [g];
      if g.project == project {
        WithFileMembers(WithFiles(days, front, project), g);
      }
    }
  }

  /** Every file stands under its own project and day. */
  predicate Filed(projects: map<string, ProjectFiles>) {
    forall p <- projects :: DaysFiled(projects[p].days, p)
  }

  predicate DaysFiled(days: Days, p: string) {
    forall d, f | d in days && f in days[d] :: f.project == p && f.day == d
  }

  /** No file is listed twice on a day. */
  predicate EachOnce(projects: map<string, ProjectFiles>) {
    forall p <- projects :: DaysOnce(projects[p].days)
  }

  predicate DaysOnce(days: Days) {
    forall d <- days :: Distinct(days[d])
  }

  predicate Distinct(files: seq<LakeFile>) {
    forall i, j | 0 <= i < j < |files| :: files[i].id != files[j].id
  }

  lemma {:induction false} WithoutDistinct(files: seq<LakeFile>, retired: set<nat>)
    requires Distinct(files)
    ensures Distinct(Without(files, retired))
  {
    if files != [] {
      var front, last := files[..|files| - 1], files[|files| - 1];
      WithoutDistinct(front, retired);
      forall f | f in Without(front, retired) ensures f.id != last.id {
        WithoutMembers(front, retired, f);
      }
    }
  }

  lemma KeptArranged(days: Days, retired: set<nat>, p: string)
    ensures DaysFiled(days, p) ==> DaysFiled(KeptDays(days, retired), p)
    ensures DaysOnce(days) ==> DaysOnce(KeptDays(days, retired))
  {
    forall d, f | d in days ensures f in Without(days[d], retired) ==> f in days[d] {
      WithoutMembers(days[d], retired, f);
    }
    if DaysOnce(days) {
      forall d | d in days ensures Distinct(Without(days[d], retired)) {
        WithoutDistinct(days[d], retired);
      }
    }
  }

  lemma {:induction false} WithFilesArranged(days: Days, added: seq<LakeFile>, p: string)
    requires DaysFiled(days, p) && DaysOnce(days) && Distinct(added)
    requires forall f <- added, g <- InDays(days) :: f.id != g.id
    ensures DaysFiled(WithFiles(days, added, p), p) && DaysOnce(WithFiles(days, added, p))
  {
    if added != [] {
      var front, f := added[..|added| - 1], added[|added| - 1];
      assert forall g <- front :: g in added;
      WithFilesArranged(days, front, p);
      if f.project == p {
        var before := WithFiles(days, front, p);
        forall g | g in InDays(before) ensures g.id != f.id {
          WithFilesMembers(days, front, p);
          if g in front {
            var i :| 0 <= i < |front| && front[i] == g;
            assert added[i] == g;
          }
        }
        OneMoreArranged(before, f, p);
      }
    }
  }

  lemma OneMoreArranged(days: Days, f: LakeFile, p: string)
    requires DaysFiled(days, p) && DaysOnce(days) && f.project == p
    requires forall g <- InDays(days) :: g.id != f.id
    ensures DaysFiled(WithFile(days, f), p) && DaysOnce(WithFile(days, f))
  {
    var there := if f.day in days then days[f.day] else [];
    forall i | 0 <= i < |there| ensures there[i].id != f.id {
      assert f.day in days && there[i] in days[f.day];
      assert there[i] in InDays(days);
    }
    assert Distinct(there + [f]);
  }

  /** Installing a generation keeps every file filed, and listed once. */
  lemma InstalledArranged(projects: map<string, ProjectFiles>, generation: nat, added: seq<LakeFile>, retired: set<nat>)
    requires Filed(projects) && EachOnce(projects) && Distinct(added)
    requires forall f <- added, g <- InProjects(projects) :: f.id != g.id
    ensures Filed(Installed(projects, generation, added, retired)) && EachOnce(Installed(projects, generation, added, retired))
  {
    hide WithFiles, KeptDays, InDays, InProjects, Touched, DaysFiled, DaysOnce;
    forall p ensures var days := NewDays(projects, p, added, retired); DaysFiled(days, p) && DaysOnce(days) {
      NewArranged(projects, p, added, retired);
    }
  }

  lemma NewArranged(projects: map<string, ProjectFiles>, p: string, added: seq<LakeFile>, retired: set<nat>)
    requires Filed(projects) && EachOnce(projects) && Distinct(added)
    requires forall f <- added, g <- InProjects(projects) :: f.id != g.id
    ensures var days := NewDays(projects, p, added, retired); DaysFiled(days, p) && DaysOnce(days)
  {
    hide WithFiles, KeptDays, InDays, InProjects;
    var before := OldDays(projects, p);
    assert DaysFiled(before, p) && DaysOnce(before);
    KeptArranged(before, retired, p);
    OldDaysIn(projects, p);
    forall g ensures g in InDays(KeptDays(before, retired)) ==> g in InProjects(projects) {
      KeptMembers(before, retired, g);
    }
    WithFilesArranged(KeptDays(before, retired), added, p);
  }

  lemma NewDaysMembers(projects: map<string, ProjectFiles>, p: string, added: seq<LakeFile>, retired: set<nat>, f: LakeFile)
    ensures (f in InDays(NewDays(projects, p, added, retired))
             <==> (f in InDays(OldDays(projects, p)) && f.id !in retired) || (f in added && f.project == p))
  {
    KeptMembers(OldDays(projects, p), retired, f);
    WithFilesMembers(KeptDays(OldDays(projects, p), retired), added, p);
  }

  /** Installing a generation adds exactly the new files and drops exactly the retired ones. */
  lemma InstalledMembers(projects: map<string, ProjectFiles>, generation: nat, added: seq<LakeFile>, retired: set<nat>)
    requires Filed(projects) && forall f <- added :: f.id !in retired
    ensures var r := Installed(projects, generation, added, retired);
            && (forall f :: f in InProjects(r) <==> (f in InProjects(projects) && f.id !in retired) || f in added)
  {
    hide NewDays;
    var r := Installed(projects, generation, added, retired);
    var touched := Touched(projects, added, retired);
    forall f: LakeFile ensures f in InProjects(r) <==> (f in InProjects(projects) && f.id !in retired) || f in added {
      InstalledMember(projects, generation, added, retired, f);
    }
  }

  lemma InstalledMember(projects: map<string, ProjectFiles>, generation: nat, added: seq<LakeFile>, retired: set<nat>, f: LakeFile)
    requires Filed(projects)
    ensures (f in InProjects(Installed(projects, generation, added, retired))
             <==> (f in InProjects(projects) && f.id !in retired) || f in added)
  {
    var r := Installed(projects, generation, added, retired);
    if (f in InProjects(projects) && f.id !in retired) || f in added {
      StaysOrComes(projects, generation, added, retired, f);
    }
    if f in InProjects(r) {
      var q :| q in r && f in InDays(r[q].days);
      CameFrom(projects, generation, added, retired, q, f);
    }
  }

  lemma StaysOrComes(projects: map<string, ProjectFiles>, generation: nat, added: seq<LakeFile>, retired: set<nat>, f: LakeFile)
    requires Filed(projects) && ((f in InProjects(projects) && f.id !in retired) || f in added)
    ensures f in InProjects(Installed(projects, generation, added, retired))
  {
    hide NewDays;
    var r := Installed(projects, generation, added, retired);
    var p := f.project;
    NewDaysMembers(projects, p, added, retired, f);
    assert InDays(map[]) == {};
    if f in InProjects(projects) {
      var q :| q in projects && f in InDays(projects[q].days);
      assert q == p;
    }
    assert p in r && f in InDays(r[p].days);
  }

  lemma CameFrom(projects: map<string, ProjectFiles>, generation: nat, added: seq<LakeFile>, retired: set<nat>, q: string, f: LakeFile)
    requires var r := Installed(projects, generation, added, retired); q in r && f in InDays(r[q].days)
    ensures (f in InProjects(projects) && f.id !in retired) || f in added
  {
    hide NewDays;
    NewDaysMembers(projects, q, added, retired, f);
    OldDaysIn(projects, q);
    if q !in Touched(projects, added, retired) {
      var ids := Ids(InDays(projects[q].days));
      assert f.id in ids && ids * retired == {};
      assert f.id !in ids * retired;
    }
  }

  lemma OldDaysIn(projects: map<string, ProjectFiles>, p: string)
    ensures InDays(OldDays(projects, p)) <= InProjects(projects)
  {
    forall f | f in InDays(OldDays(projects, p)) ensures f in InProjects(projects) {
      assert p in projects && f in InDays(projects[p].days);
    }
  }

  /** A project's files change only with its version. */
  lemma InstalledVersions(projects: map<string, ProjectFiles>, generation: nat, added: seq<LakeFile>, retired: set<nat>, p: string)
    ensures var r := Installed(projects, generation, added, retired);
            p in r ==> r[p].version == generation || (p in projects && r[p] == projects[p])
  {
  }
}
