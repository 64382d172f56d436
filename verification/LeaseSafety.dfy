/**
 Leases over every interleaving of readers with commits, activations, sweeps and
 restarts: no file a reader can still reach is unlinked, and the snapshot is the catalog.
 */
module LeaseSafety {
  import opened Wrappers
  import opened LakeFiles

  /** A row of `lake_files`. */
  datatype Row = Row(file: LakeFile, retired: bool)

  /** What a catalog transaction decided, until the snapshot is updated. */
  datatype Change = Change(generation: nat, added: seq<LakeFile>, retired: set<nat>)

  datatype Lease = Lease(files: seq<LakeFile>, version: nat)

  /**
   `held` are snapshots readers still hold, `leases` what they keep of one;
   `seen` is every snapshot of this process, newest last.
   */
  datatype Lake = Lake(
    rows: map<nat, Row>,
    generation: nat,
    disk: set<Path>,
    seen: seq<Snapshot>,
    graveyard: set<LakeFile>,
    held: map<nat, Snapshot>,
    leases: map<nat, Lease>,
    committed: Option<Change>)

  datatype Action =
    | WriteFile(path: Path)
    | DiscardFile(path: Path)
    | Commit(change: Change)
    | Activate
    | Hold(reader: nat)
    | TakeLease(reader: nat, project: string, from: int, to: int)
    | ReleaseSnapshot(reader: nat)
    | DropLease(reader: nat)
    | Unlink(file: LakeFile)
    | ForgetRow(id: nat)
    | Restart(loaded: Snapshot)

  function Current(l: Lake): Snapshot
    requires l.seen != []
  {
    l.seen[|l.seen| - 1]
  }

  /** Files of `project` for days from `from` up to `to`, in order. */
  function Leased(snapshot: Snapshot, project: string, from: int, to: int): Lease {
    if project in snapshot.projects
    then Lease(FilesOn(snapshot.projects[project].days, from, to), snapshot.projects[project].version)
    else Lease([], 0)
  }

  function FilesOn(days: Days, from: int, to: int): seq<LakeFile>
    decreases if from < to then to - from else 0
  {
    if to <= from then []
    else FilesOn(days, from, to - 1) + (if Day(to - 1) in days then days[Day(to - 1)] else [])
  }

  /** Live rows, and retired ones still waiting to be unlinked. */
  function Live(rows: map<nat, Row>): set<LakeFile> {
    set id | id in rows && !rows[id].retired :: rows[id].file
  }

  function Paths(files: set<LakeFile>): set<Path> {
    set f | f in files :: f.path
  }

  /** The reference count of a buried file is above one: a snapshot or a lease still has it. */
  predicate Shared(l: Lake, f: LakeFile)
    requires l.seen != []
  {
    || f in InProjects(Current(l).projects)
    || (exists r :: r in l.held && f in InProjects(l.held[r].projects))
    || (exists r :: r in l.leases && f in l.leases[r].files)
  }

  /** A new file: unknown to the catalog, written under the generation being committed. */
  ghost predicate Fresh(l: Lake, change: Change) {
    && change.generation == l.generation + 1
    && (forall f <- change.added :: f.id !in l.rows && f.path.generation == change.generation && f.path in l.disk)
    && (forall i, j | 0 <= i < j < |change.added| :: change.added[i].id != change.added[j].id && change.added[i].path != change.added[j].path)
    && (forall id <- change.retired :: id in l.rows && !l.rows[id].retired)
  }

  function AddedPaths(change: Change): set<Path> {
    set f | f in change.added :: f.path
  }

  ghost predicate Enabled(l: Lake, a: Action)
    requires l.seen != []
  {
    match a
    case WriteFile(path) => l.committed == None && path.generation == l.generation + 1
    case DiscardFile(path) =>
      || (l.committed == None && path.generation == l.generation + 1)
      || (l.committed.Some? && path.generation == l.generation && path !in AddedPaths(l.committed.value))
    case Commit(change) => l.committed == None && Fresh(l, change)
    case Activate => l.committed.Some?
    case TakeLease(reader, _, _, _) => reader in l.held
    case Unlink(f) => f in l.graveyard && !Shared(l, f)
    case ForgetRow(id) => id in l.rows && l.rows[id].retired && l.committed == None && forall f <- l.graveyard :: f.id != id
    case Restart(loaded) => Loads(loaded, l)
    case _ => true
  }

  function AddedRows(added: seq<LakeFile>): map<nat, Row> {
    if added == [] then map[] else AddedRows(added[..|added| - 1])[added[|added| - 1].id := Row(added[|added| - 1], false)]
  }

  function RetiredRows(rows: map<nat, Row>, retired: set<nat>): map<nat, Row> {
    map id | id in rows :: if id in retired then rows[id].(retired := true) else rows[id]
  }

  /** What `Lake::open` builds from the catalog: any grouping of exactly the live rows. */
  ghost predicate Loads(snapshot: Snapshot, l: Lake) {
    && snapshot.generation == l.generation && Filed(snapshot.projects) && EachOnce(snapshot.projects)
    && InProjects(snapshot.projects) == Live(l.rows)
    && forall p <- snapshot.projects :: 1 <= snapshot.projects[p].version <= l.generation
  }

  function LiveRows(rows: map<nat, Row>): map<nat, Row> {
    map id | id in rows && !rows[id].retired :: rows[id]
  }

  function Buried(l: Lake, retired: set<nat>): set<LakeFile>
    requires l.seen != []
  {
    set f | f in InProjects(Current(l).projects) && f.id in retired
  }

  function Step(l: Lake, a: Action): (r: Lake)
    requires l.seen != [] && Enabled(l, a)
    ensures r.seen != []
  {
    match a
    case WriteFile(path) => l.(disk := l.disk + {path})
    case DiscardFile(path) => l.(disk := l.disk - {path})
    case Commit(change) =>
      l.(rows := RetiredRows(l.rows, change.retired) + AddedRows(change.added), generation := change.generation, committed := Some(change))
    case Activate =>
      var change := l.committed.value;
      var projects := Installed(Current(l).projects, change.generation, change.added, change.retired);
      l.(seen := l.seen + [Snapshot(change.generation, projects)], graveyard := l.graveyard + Buried(l, change.retired), committed := None)
    case Hold(reader) => l.(held := l.held[reader := Current(l)])
    case TakeLease(reader, project, from, to) => l.(leases := l.leases[reader := Leased(l.held[reader], project, from, to)])
    case ReleaseSnapshot(reader) => l.(held := l.held - {reader})
    case DropLease(reader) => l.(leases := l.leases - {reader})
    case Unlink(f) => l.(disk := l.disk - {f.path}, graveyard := l.graveyard - {f})
    case ForgetRow(id) => l.(rows := l.rows - {id})
    case Restart(loaded) =>
      Lake(LiveRows(l.rows), l.generation, Paths(Live(l.rows)), [loaded], {}, map[], map[], None)
  }

  ghost function Run(l: Lake, actions: seq<Action>): (r: Lake)
    requires l.seen != []
    ensures r.seen != []
    decreases |actions|
  {
    if actions == [] then l
    else
      var before := Run(l, actions[..|actions| - 1]);
      var a := actions[|actions| - 1];
      if Enabled(before, a) then Step(before, a) else before
  }

  const NewLake := Lake(map[], 0, {}, [Snapshot(0, map[])], {}, map[], map[], None)

  // ------------------------------------------------------------------- invariant

  ghost predicate RowsSound(l: Lake) {
    && (forall id <- l.rows :: l.rows[id].file.id == id && l.rows[id].file.path.generation <= l.generation)
    && (forall a, b | a in l.rows && b in l.rows && l.rows[a].file.path == l.rows[b].file.path :: a == b)
    && (forall id <- l.rows :: !l.rows[id].retired ==> l.rows[id].file.path in l.disk)
  }

  /** The file's row, as the snapshot still sees it: live, or retired by the change not installed yet. */
  ghost predicate Installs(l: Lake, f: LakeFile) {
    && f.id in l.rows && l.rows[f.id].file == f
    && match l.committed
       case None => !l.rows[f.id].retired
       case Some(change) => f !in change.added && (!l.rows[f.id].retired || f.id in change.retired)
  }

  ghost predicate SnapshotSound(l: Lake) {
    && l.seen != []
    && (forall f: LakeFile :: f in InProjects(Current(l).projects) <==> Installs(l, f))
    && (forall f <- InProjects(Current(l).projects) :: f.path in l.disk)
    && (l.committed == None ==> Current(l).generation == l.generation)
  }

  ghost predicate ChangeSound(l: Lake) {
    l.seen != [] && l.committed.Some? ==>
      var change := l.committed.value;
      && change.generation == l.generation && Current(l).generation < l.generation
      && Distinct(change.added)
      && (forall f <- change.added :: f.id in l.rows && l.rows[f.id] == Row(f, false) && f.id !in change.retired)
      && (forall id <- change.retired :: id in l.rows && l.rows[id].retired)
      && (forall id <- l.rows :: l.rows[id].file.path.generation == l.generation ==> l.rows[id].file in change.added)
      && (forall f <- l.graveyard :: f.id !in change.retired)
  }

  ghost predicate GraveyardSound(l: Lake) {
    forall f <- l.graveyard :: f.id in l.rows && l.rows[f.id] == Row(f, true) && f.path in l.disk
  }

  /** A file some reader may open is in the snapshot or waits in the graveyard. */
  ghost predicate ReadersSound(l: Lake) {
    && l.seen != []
    && (forall r <- l.held, f <- InProjects(l.held[r].projects) :: f in InProjects(Current(l).projects) || f in l.graveyard)
    && (forall r <- l.leases, f <- l.leases[r].files :: f in InProjects(Current(l).projects) || f in l.graveyard)
  }

  function VersionOf(snapshot: Snapshot, p: string): nat {
    if p in snapshot.projects then snapshot.projects[p].version else 0
  }

  /** Versions name contents, and none is newer than its snapshot. */
  ghost predicate VersionsSound(l: Lake) {
    && (forall i, p | 0 <= i < |l.seen| && p in l.seen[i].projects :: 1 <= l.seen[i].projects[p].version <= Current(l).generation)
    && (forall i, j, p | 0 <= i < |l.seen| && 0 <= j < |l.seen| && VersionOf(l.seen[i], p) == VersionOf(l.seen[j], p) ::
          OldDays(l.seen[i].projects, p) == OldDays(l.seen[j].projects, p))
    && (forall r <- l.held :: l.held[r] in l.seen)
    && (forall r <- l.leases :: exists i, p, from, to :: 0 <= i < |l.seen| && l.leases[r] == Leased(l.seen[i], p, from, to))
  }

  ghost predicate SeenArranged(l: Lake) {
    forall i | 0 <= i < |l.seen| :: Filed(l.seen[i].projects) && EachOnce(l.seen[i].projects)
  }

  ghost predicate Inv(l: Lake) {
    l.seen != [] && SeenArranged(l) && RowsSound(l) && SnapshotSound(l) && ChangeSound(l) && GraveyardSound(l) && ReadersSound(l) && VersionsSound(l)
  }

  // ------------------------------------------------------------- steps keep it

  /** A step that touches neither snapshots nor readers leaves their side of it alone. */
  lemma SameReaders(l: Lake, r: Lake)
    requires l.seen != [] && r.seen == l.seen && r.held == l.held && r.leases == l.leases
    ensures VersionsSound(l) ==> VersionsSound(r)
    ensures ReadersSound(l) && l.graveyard <= r.graveyard ==> ReadersSound(r)
  {
    hide InProjects, OldDays, Leased;
  }

  /** And one that touches only readers leaves the catalog's side alone. */
  lemma SameCatalog(l: Lake, r: Lake)
    requires l.seen != [] && r.seen == l.seen && r.rows == l.rows && r.generation == l.generation && r.disk == l.disk
    requires r.graveyard == l.graveyard && r.committed == l.committed
    ensures RowsSound(l) ==> RowsSound(r)
    ensures SnapshotSound(l) ==> SnapshotSound(r)
    ensures ChangeSound(l) ==> ChangeSound(r)
    ensures GraveyardSound(l) ==> GraveyardSound(r)
  {
    hide InProjects, Filed;
    assert forall f: LakeFile :: Installs(l, f) <==> Installs(r, f);
  }

  lemma DiskStepKeeps(l: Lake, a: Action)
    requires Inv(l) && Enabled(l, a) && (a.WriteFile? || a.DiscardFile?)
    ensures Inv(Step(l, a))
  {
    hide InProjects, OldDays, Filed, ReadersSound, VersionsSound;
    var r := Step(l, a);
    SameReaders(l, r);
    assert forall f: LakeFile :: Installs(l, f) <==> Installs(r, f);
    assert forall f <- InProjects(Current(l).projects) :: Installs(l, f);
  }

  lemma {:induction false} AddedMembers(added: seq<LakeFile>, id: nat)
    requires forall i, j | 0 <= i < j < |added| :: added[i].id != added[j].id
    ensures id in AddedRows(added) <==> exists i :: 0 <= i < |added| && added[i].id == id
    ensures forall i | 0 <= i < |added| && added[i].id == id :: id in AddedRows(added) && AddedRows(added)[id] == Row(added[i], false)
  {
    if added != [] {
      var front, last := added[..|added| - 1], added[|added| - 1];
      AddedMembers(front, id);
      if exists i :: 0 <= i < |added| && added[i].id == id {
        var i :| 0 <= i < |added| && added[i].id == id;
        assert i < |front| ==> front[i].id == id;
      }
      assert forall i | 0 <= i < |front| :: front[i] == added[i];
    }
  }

  /** The catalog after a commit: new rows live, retired ones marked, the rest as before. */
  lemma CommittedRow(l: Lake, change: Change, id: nat)
    requires RowsSound(l) && Fresh(l, change)
    ensures var rows := RetiredRows(l.rows, change.retired) + AddedRows(change.added);
            && (id in rows <==> id in l.rows || exists i :: 0 <= i < |change.added| && change.added[i].id == id)
            && (id in l.rows ==> rows[id] == Row(l.rows[id].file, l.rows[id].retired || id in change.retired))
            && (forall i | 0 <= i < |change.added| && change.added[i].id == id :: id in rows && rows[id] == Row(change.added[i], false))
  {
    AddedMembers(change.added, id);
    if id in l.rows {
      assert forall i | 0 <= i < |change.added| :: change.added[i] in change.added;
      assert id !in AddedRows(change.added);
    }
  }

  lemma CommitKeepsRows(l: Lake, change: Change)
    requires Inv(l) && l.committed == None && Fresh(l, change)
    ensures RowsSound(Step(l, Commit(change)))
  {
    hide SnapshotSound, ChangeSound, GraveyardSound, ReadersSound, VersionsSound, AddedRows, RetiredRows;
    var r := Step(l, Commit(change));
    forall id ensures id in r.rows ==>
              && r.rows[id].file.id == id
              && (if id in l.rows then r.rows[id].file == l.rows[id].file else r.rows[id].file in change.added)
              && (!r.rows[id].retired ==> r.rows[id].file.path in l.disk)
    {
      CommittedRow(l, change, id);
    }
    forall a, b | a in r.rows && b in r.rows && r.rows[a].file.path == r.rows[b].file.path ensures a == b {
      if a !in l.rows && b !in l.rows {
        var i :| 0 <= i < |change.added| && change.added[i] == r.rows[a].file;
        var j :| 0 <= j < |change.added| && change.added[j] == r.rows[b].file;
      }
    }
  }

  /** Only the added files carry the new generation. */
  lemma OnlyNewGeneration(l: Lake, change: Change, id: nat)
    requires RowsSound(l) && Fresh(l, change)
    ensures var rows := RetiredRows(l.rows, change.retired) + AddedRows(change.added);
            id in rows && rows[id].file.path.generation == change.generation ==> rows[id].file in change.added
  {
    hide AddedRows, RetiredRows;
    CommittedRow(l, change, id);
  }

  lemma CommitKeeps(l: Lake, change: Change)
    requires Inv(l) && l.committed == None && Fresh(l, change)
    ensures Inv(Step(l, Commit(change)))
  {
    hide InProjects, AddedRows, RetiredRows, VersionsSound, RowsSound, Filed;
    var r := Step(l, Commit(change));
    CommitKeepsRows(l, change);
    forall id ensures id in l.rows ==> id in r.rows && r.rows[id] == Row(l.rows[id].file, l.rows[id].retired || id in change.retired) {
      CommittedRow(l, change, id);
    }
    forall f | f in change.added ensures f.id in r.rows && r.rows[f.id] == Row(f, false) {
      CommittedRow(l, change, f.id);
      var i :| 0 <= i < |change.added| && change.added[i] == f;
    }
    forall f: LakeFile ensures Installs(l, f) <==> Installs(r, f) {
      CommittedRow(l, change, f.id);
      assert f !in change.added && f.id in r.rows && f.id !in l.rows ==> r.rows[f.id].file in change.added;
    }
    assert VersionsSound(r) by { CommitKeepsVersions(l, change); }
    forall id | id in r.rows && r.rows[id].file.path.generation == r.generation ensures r.rows[id].file in change.added {
      OnlyNewGeneration(l, change, id);
    }
  }

  lemma CommitKeepsVersions(l: Lake, change: Change)
    requires VersionsSound(l) && l.seen != [] && Enabled(l, Commit(change))
    ensures VersionsSound(Step(l, Commit(change)))
  {
    hide AddedRows, RetiredRows, InProjects, OldDays;
  }

  lemma ActivateKeepsFiles(l: Lake)
    requires Inv(l) && l.committed.Some?
    ensures var r := Step(l, Activate); SeenArranged(r) && RowsSound(r) && SnapshotSound(r) && ChangeSound(r) && GraveyardSound(r) && ReadersSound(r)
  {
    hide InProjects, Installed, VersionsSound;
    var r := Step(l, Activate);
    var change := l.committed.value;
    assert l.seen[|l.seen| - 1] == Current(l);
    forall f, g | f in change.added && g in InProjects(Current(l).projects) ensures f.id != g.id {
      assert Installs(l, g);
    }
    InstalledArranged(Current(l).projects, change.generation, change.added, change.retired);
    InstalledMembers(Current(l).projects, change.generation, change.added, change.retired);
    forall f: LakeFile ensures f in InProjects(Current(r).projects) <==> Installs(r, f) {
      assert f in InProjects(Current(l).projects) <==> Installs(l, f);
    }
    forall f | f in r.graveyard ensures f.id in r.rows && r.rows[f.id] == Row(f, true) && f.path in r.disk {
      assert f !in l.graveyard ==> f in InProjects(Current(l).projects) && Installs(l, f);
    }
  }

  /** A generation number is new, so the version it stamps was never used before. */
  lemma ActivateKeepsVersions(l: Lake)
    requires Inv(l) && l.committed.Some?
    ensures VersionsSound(Step(l, Activate))
  {
    hide InProjects, Installed, RowsSound, SnapshotSound, GraveyardSound, ReadersSound;
    var r := Step(l, Activate);
    var change := l.committed.value;
    var n := |l.seen|;
    assert forall i | 0 <= i < n :: r.seen[i] == l.seen[i];
    forall p: string
      ensures p in Current(r).projects ==> Current(r).projects[p].version == change.generation
                                           || (p in Current(l).projects && Current(r).projects[p] == Current(l).projects[p])
      ensures p !in Current(r).projects ==> OldDays(Current(r).projects, p) == map[]
    {
      InstalledVersions(Current(l).projects, change.generation, change.added, change.retired, p);
    }
    forall i, j, p | 0 <= i < |r.seen| && 0 <= j < |r.seen| && VersionOf(r.seen[i], p) == VersionOf(r.seen[j], p)
      ensures OldDays(r.seen[i].projects, p) == OldDays(r.seen[j].projects, p)
    {
      assert l.seen[n - 1] == Current(l);
      assert i < n ==> VersionOf(l.seen[i], p) <= Current(l).generation;
      assert j < n ==> VersionOf(l.seen[j], p) <= Current(l).generation;
    }
    forall i, p | 0 <= i < |r.seen| && p in r.seen[i].projects
      ensures 1 <= r.seen[i].projects[p].version <= Current(r).generation
    {
      assert i < n ==> 1 <= l.seen[i].projects[p].version <= Current(l).generation;
      assert p in Current(l).projects ==> 1 <= l.seen[n - 1].projects[p].version;
    }
    forall q | q in r.held ensures r.held[q] in r.seen {
      assert r.held[q] in l.seen;
    }
    forall q | q in r.leases ensures exists i, p, from, to :: 0 <= i < |r.seen| && r.leases[q] == Leased(r.seen[i], p, from, to) {
      var i, p, from, to :| 0 <= i < |l.seen| && l.leases[q] == Leased(l.seen[i], p, from, to);
      assert r.leases[q] == Leased(r.seen[i], p, from, to);
    }
  }

  lemma {:induction false} LeasedMembers(days: Days, from: int, to: int, f: LakeFile)
    ensures f in FilesOn(days, from, to) <==> exists d <- days :: from <= d.number < to && f in days[d]
    decreases if from < to then to - from else 0
  {
    if from < to {
      LeasedMembers(days, from, to - 1, f);
      if Day(to - 1) in days && f in days[Day(to - 1)] {
        assert from <= Day(to - 1).number < to;
      }
    }
  }

  /** A lease holds exactly the files the snapshot shows for the project on the leased days. */
  lemma LeasedExactly(snapshot: Snapshot, p: string, from: int, to: int, f: LakeFile)
    requires Filed(snapshot.projects)
    ensures (f in Leased(snapshot, p, from, to).files
             <==> f in InProjects(snapshot.projects) && f.project == p && from <= f.day.number < to)
  {
    if p in snapshot.projects {
      LeasedMembers(snapshot.projects[p].days, from, to, f);
      assert DaysFiled(snapshot.projects[p].days, p);
      if f in Leased(snapshot, p, from, to).files {
        assert f in InDays(snapshot.projects[p].days);
      }
    }
    if f in InProjects(snapshot.projects) {
      var q :| q in snapshot.projects && f in InDays(snapshot.projects[q].days);
      assert DaysFiled(snapshot.projects[q].days, q);
    }
  }

  /** And each of them once. */
  lemma {:induction false} LeasedOnce(days: Days, p: string, from: int, to: int)
    requires DaysFiled(days, p) && DaysOnce(days)
    ensures forall i, j | 0 <= i < j < |FilesOn(days, from, to)| :: FilesOn(days, from, to)[i] != FilesOn(days, from, to)[j]
    decreases if from < to then to - from else 0
  {
    if from < to {
      LeasedOnce(days, p, from, to - 1);
      var front := FilesOn(days, from, to - 1);
      forall i | 0 <= i < |front| ensures front[i].day.number < to - 1 {
        LeasedMembers(days, from, to - 1, front[i]);
      }
    }
  }

  lemma LeaseFromSnapshot(snapshot: Snapshot, p: string, from: int, to: int)
    ensures forall f <- Leased(snapshot, p, from, to).files :: f in InProjects(snapshot.projects)
  {
    forall f | f in Leased(snapshot, p, from, to).files ensures f in InProjects(snapshot.projects) {
      LeasedMembers(snapshot.projects[p].days, from, to, f);
      assert f in InDays(snapshot.projects[p].days);
    }
  }

  predicate ReaderStep(a: Action) {
    a.Hold? || a.TakeLease? || a.ReleaseSnapshot? || a.DropLease?
  }

  lemma ReaderStepKeeps(l: Lake, a: Action)
    requires Inv(l) && Enabled(l, a) && ReaderStep(a)
    ensures Inv(Step(l, a))
  {
    hide RowsSound, SnapshotSound, ChangeSound, GraveyardSound, ReadersSound, VersionsSound, Leased;
    SameCatalog(l, Step(l, a));
    ReaderStepKeepsReach(l, a);
    ReaderStepKeepsVersions(l, a);
  }

  lemma ReaderStepKeepsReach(l: Lake, a: Action)
    requires ReadersSound(l) && Enabled(l, a) && ReaderStep(a)
    ensures ReadersSound(Step(l, a))
  {
    hide InProjects, Leased;
    if a.TakeLease? {
      LeaseFromSnapshot(l.held[a.reader], a.project, a.from, a.to);
    }
  }

  lemma ReaderStepKeepsVersions(l: Lake, a: Action)
    requires l.seen != [] && VersionsSound(l) && Enabled(l, a) && ReaderStep(a)
    ensures VersionsSound(Step(l, a))
  {
    hide InProjects, Leased, OldDays, VersionOf;
    var r := Step(l, a);
    assert Current(l) in l.seen;
    if a.TakeLease? {
      assert l.held[a.reader] in l.seen;
      var i :| 0 <= i < |l.seen| && l.seen[i] == l.held[a.reader];
      assert r.leases[a.reader] == Leased(r.seen[i], a.project, a.from, a.to);
    }
  }

  /** Unlinking takes one path, and no other file has it. */
  lemma UnlinkKeeps(l: Lake, f: LakeFile)
    requires Inv(l) && f in l.graveyard && !Shared(l, f)
    ensures Inv(Step(l, Unlink(f)))
  {
    hide InProjects, OldDays, Leased, Filed, VersionsSound;
    var r := Step(l, Unlink(f));
    assert forall g: LakeFile :: Installs(l, g) <==> Installs(r, g);
    assert forall g <- InProjects(Current(l).projects) :: Installs(l, g);
    SameReaders(l, r);
    forall q, g | q in l.held && g in InProjects(l.held[q].projects) ensures g in InProjects(Current(r).projects) || g in r.graveyard {
      assert f !in InProjects(l.held[q].projects);
    }
    forall q, g | q in l.leases && g in l.leases[q].files ensures g in InProjects(Current(r).projects) || g in r.graveyard {
      assert f !in l.leases[q].files;
    }
  }

  lemma ForgetKeeps(l: Lake, id: nat)
    requires Inv(l) && Enabled(l, ForgetRow(id))
    ensures Inv(Step(l, ForgetRow(id)))
  {
    hide InProjects, Filed, ReadersSound, VersionsSound;
    var r := Step(l, ForgetRow(id));
    SameReaders(l, r);
    assert forall g: LakeFile :: Installs(l, g) <==> Installs(r, g);
  }

  /** After a restart nothing but the live files is on disk, and no reader is left. */
  lemma RestartKeeps(l: Lake, loaded: Snapshot)
    requires Inv(l) && Loads(loaded, l)
    ensures Inv(Step(l, Restart(loaded)))
  {
    hide InProjects, Leased, Filed, VersionsSound;
    var r := Step(l, Restart(loaded));
    FreshVersions(r);
    forall id | id in r.rows ensures r.rows[id].file in Live(l.rows) && r.rows[id].file.path in r.disk {
      assert id in l.rows && !l.rows[id].retired;
    }
    forall f: LakeFile ensures f in InProjects(Current(r).projects) <==> Installs(r, f) {
      if f in Live(l.rows) {
        var id :| id in l.rows && !l.rows[id].retired && l.rows[id].file == f;
      }
    }
  }

  lemma FreshVersions(r: Lake)
    requires |r.seen| == 1 && r.held == map[] && r.leases == map[]
    requires forall p <- Current(r).projects :: 1 <= Current(r).projects[p].version <= Current(r).generation
    ensures VersionsSound(r)
  {
    hide OldDays;
    assert forall i | 0 <= i < |r.seen| :: r.seen[i] == Current(r);
  }

  lemma StepKeeps(l: Lake, a: Action)
    requires Inv(l) && Enabled(l, a)
    ensures Inv(Step(l, a))
  {
    hide RowsSound, SnapshotSound, ChangeSound, GraveyardSound, ReadersSound, VersionsSound, Step, Fresh, Shared, Loads;
    match a
    case WriteFile(_) => DiskStepKeeps(l, a);
    case DiscardFile(_) => DiskStepKeeps(l, a);
    case Commit(change) => CommitKeeps(l, change);
    case Activate => ActivateKeepsFiles(l); ActivateKeepsVersions(l);
    case Unlink(f) => UnlinkKeeps(l, f);
    case ForgetRow(id) => ForgetKeeps(l, id);
    case Restart(loaded) => RestartKeeps(l, loaded);
    case _ => ReaderStepKeeps(l, a);
  }

  lemma {:induction false} RunKeeps(actions: seq<Action>)
    ensures Inv(Run(NewLake, actions))
    decreases |actions|
  {
    hide Inv, Enabled, Step;
    if actions == [] {
      assert Inv(NewLake) by { NewLakeInv(); }
    } else {
      var front, a := actions[..|actions| - 1], actions[|actions| - 1];
      RunKeeps(front);
      if Enabled(Run(NewLake, front), a) {
        StepKeeps(Run(NewLake, front), a);
      }
    }
  }

  lemma NewLakeInv()
    ensures Inv(NewLake)
  {
  }

  // ------------------------------------------------------------------ main results

  /** No file a lease or a held snapshot can still reach was ever unlinked. */
  lemma ReadersNeverMissAFile(actions: seq<Action>, reader: nat, f: LakeFile)
    requires var l := Run(NewLake, actions);
             || (reader in l.leases && f in l.leases[reader].files)
             || (reader in l.held && f in InProjects(l.held[reader].projects))
    ensures f.path in Run(NewLake, actions).disk
  {
    hide InProjects, RowsSound, VersionsSound, ChangeSound;
    RunKeeps(actions);
    assert ReadersSound(Run(NewLake, actions));
  }

  /** Between a commit and its activation aside, the snapshot is exactly the catalog's live rows, at the catalog's generation, and all of them are on disk. */
  lemma SnapshotIsCatalog(actions: seq<Action>)
    requires Run(NewLake, actions).committed == None
    ensures var l := Run(NewLake, actions);
            && InProjects(Current(l).projects) == Live(l.rows) && Current(l).generation == l.generation
            && Paths(Live(l.rows)) <= l.disk
  {
    hide InProjects, VersionsSound, ChangeSound, ReadersSound;
    RunKeeps(actions);
    var l := Run(NewLake, actions);
    forall f: LakeFile ensures f in Live(l.rows) <==> Installs(l, f) {
      if Installs(l, f) {
        assert l.rows[f.id].file in Live(l.rows);
      }
    }
  }

  /**
   With no commit awaiting activation, a lease taken from the current snapshot holds
   exactly the project's live catalog rows of the leased days, each once.
   */
  lemma LeaseIsCatalog(actions: seq<Action>, p: string, from: int, to: int, f: LakeFile)
    requires Run(NewLake, actions).committed == None
    ensures var l := Run(NewLake, actions);
            var files := Leased(Current(l), p, from, to).files;
            && (f in files <==> f in Live(l.rows) && f.project == p && from <= f.day.number < to)
            && (forall i, j | 0 <= i < j < |files| :: files[i] != files[j])
  {
    hide InProjects, VersionsSound, ChangeSound, ReadersSound, RowsSound, SnapshotSound, Live, Filed;
    RunKeeps(actions);
    SnapshotIsCatalog(actions);
    var l := Run(NewLake, actions);
    assert l.seen[|l.seen| - 1] == Current(l);
    LeasedExactly(Current(l), p, from, to, f);
    if p in Current(l).projects {
      assert DaysFiled(Current(l).projects[p].days, p) by { FiledDays(Current(l), p); }
      LeasedOnce(Current(l).projects[p].days, p, from, to);
    }
  }

  lemma FiledDays(snapshot: Snapshot, p: string)
    requires Filed(snapshot.projects) && p in snapshot.projects
    ensures DaysFiled(snapshot.projects[p].days, p)
  {
  }

  /** Within one process a project's data version determines its visible files: equal versions, equal leases. */
  lemma VersionNamesFiles(actions: seq<Action>, i: nat, j: nat, p: string, from: int, to: int)
    requires var l := Run(NewLake, actions);
             i < |l.seen| && j < |l.seen| && Leased(l.seen[i], p, from, to).version == Leased(l.seen[j], p, from, to).version
    ensures var l := Run(NewLake, actions);
            Leased(l.seen[i], p, from, to) == Leased(l.seen[j], p, from, to)
  {
    hide InProjects, RowsSound, SnapshotSound, ChangeSound, GraveyardSound, ReadersSound;
    RunKeeps(actions);
    var l := Run(NewLake, actions);
    assert OldDays(l.seen[i].projects, p) == OldDays(l.seen[j].projects, p);
    assert p in l.seen[i].projects ==> 1 <= l.seen[i].projects[p].version;
    assert p in l.seen[j].projects ==> 1 <= l.seen[j].projects[p].version;
  }
}
