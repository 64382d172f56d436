/**
 Two runs in which an erasure removes an event that was acknowledged after it: one
 where the erasure fails part-way, one where nothing fails but the person has more
 ids than one resumption takes up after a crash.
 */
module ErasureOverreach {
  import opened Wrappers
  import opened Json
  import opened Identity
  import opened Publication
  import opened Pipeline
  import Erasure
  import IdentityRuns
  import WalCrash

  const PROJECT := "p"
  const DAY := Partition(PROJECT, 0)

  // --------------------------------------------------------------------- the input

  function Id(i: nat): string
    requires i <= MAX_PENDING_ERASURES_PER_PROJECT
  {
    [(0x1000 + i) as char]
  }

  function KeyOf(i: nat): Key
    requires i <= MAX_PENDING_ERASURES_PER_PROJECT
  {
    Key(PROJECT, Id(i))
  }

  lemma KeysDiffer(i: nat, j: nat)
    requires i <= MAX_PENDING_ERASURES_PER_PROJECT && j <= MAX_PENDING_ERASURES_PER_PROJECT && KeyOf(i) == KeyOf(j)
    ensures i == j
  {
    assert Id(i)[0] as int == 0x1000 + i && Id(j)[0] as int == 0x1000 + j;
  }

  function Visit(n: nat, uuid: nat): Item
    requires n <= MAX_PENDING_ERASURES_PER_PROJECT
  {
    Item(PROJECT, uuid, Event("visit", Id(n), 0, map[]))
  }

  function Alias(n: nat, i: nat): Item
    requires i < n <= MAX_PENDING_ERASURES_PER_PROJECT
  {
    Item(PROJECT, i + 1, Event("$merge_dangerously", Id(n), 0, map["alias" := Text(Id(i))]))
  }

  /** The person `n` visits, and takes over `k` other ids. */
  function First(n: nat, k: nat): Batch
    requires k <= n <= MAX_PENDING_ERASURES_PER_PROJECT
  {
    if k == 0 then [Visit(n, 0)] else First(n, k - 1) + [Alias(n, k - 1)]
  }

  /** The event that must not be lost: the same visitor, after the erasure. */
  function LateItem(n: nat): Item
    requires n <= MAX_PENDING_ERASURES_PER_PROJECT
  {
    Visit(n, n + 1)
  }

  function Late(n: nat): Batch
    requires n <= MAX_PENDING_ERASURES_PER_PROJECT
  {
    [LateItem(n)]
  }

  function Aliases(k: nat): set<Key>
    requires k <= MAX_PENDING_ERASURES_PER_PROJECT
  {
    set i: nat | i < k :: KeyOf(i)
  }

  lemma {:induction false} AliasCount(k: nat)
    requires k <= MAX_PENDING_ERASURES_PER_PROJECT
    ensures |Aliases(k)| == k
  {
    if k > 0 {
      AliasCount(k - 1);
      assert Aliases(k) == Aliases(k - 1) + {KeyOf(k - 1)};
      forall i: nat | i < k - 1 ensures KeyOf(i) != KeyOf(k - 1) {
        if KeyOf(i) == KeyOf(k - 1) { KeysDiffer(i, k - 1); }
      }
    }
  }

  lemma {:induction false} FirstItems(n: nat, k: nat, x: Item)
    requires k <= n <= MAX_PENDING_ERASURES_PER_PROJECT && x in First(n, k)
    ensures Owner(x) == KeyOf(n) && PartitionOf(x) == DAY && x.uuid <= k
  {
    if k > 0 && x != Alias(n, k - 1) {
      FirstItems(n, k - 1, x);
    }
  }

  lemma OneBatch(batch: Batch, base: nat)
    ensures Rows([batch], base) == RowsOf(batch, base)
  {
    assert Rows([batch], base) == Rows([], base) + RowsOf(batch, base);
  }

  lemma {:induction false} AllFirstCopies(n: nat, k: nat)
    requires k <= n <= MAX_PENDING_ERASURES_PER_PROJECT
    ensures FirstCopies(RowsOf(First(n, k), 0)) == RowsOf(First(n, k), 0)
  {
    var rows := RowsOf(First(n, k), 0);
    if k == 0 {
      assert rows == [Stored(Visit(n, 0), 0)];
      assert rows[..0] == [];
    } else {
      var front, last := RowsOf(First(n, k - 1), 0), Stored(Alias(n, k - 1), 0);
      assert rows == front + [last];
      AllFirstCopies(n, k - 1);
      forall r | r in front ensures UniqueOf(r.item) != UniqueOf(last.item) {
        FirstItems(n, k - 1, r.item);
      }
    }
  }

  /** Taking over an id nobody has folds it into the person. */
  lemma AliasFolds(s: State, n: nat, i: nat)
    requires Valid(s) && i < n <= MAX_PENDING_ERASURES_PER_PROJECT
    requires KeyOf(n) in s.ids && s.ids[KeyOf(n)].person == Id(n) && KeyOf(i) !in s.ids
    ensures IdentityRuns.Folded(s, PROJECT, Alias(n, i).event) == Some((KeyOf(i), KeyOf(n)))
    ensures IdentityRuns.Named(PROJECT, Alias(n, i).event) == {KeyOf(n), KeyOf(i)}
  {
    hide Valid;
    if Id(i) == Id(n) {
      KeysDiffer(i, n);
      assert false;
    }
  }

  function Known(n: nat, k: nat): set<Key>
    requires k <= n <= MAX_PENDING_ERASURES_PER_PROJECT
  {
    Aliases(k) + {KeyOf(n)}
  }

  ghost predicate AllOnePerson(s: State, n: nat, k: nat)
    requires k <= n <= MAX_PENDING_ERASURES_PER_PROJECT
  {
    s.ids.Keys == Known(n, k) && forall x <- s.ids :: s.ids[x].person == Id(n)
  }

  lemma {:induction false} FirstMakesOnePerson(n: nat, k: nat)
    requires k <= n <= MAX_PENDING_ERASURES_PER_PROJECT
    ensures AllOnePerson(IdentityRuns.Run(Empty, Effects(RowsOf(First(n, k), 0))), n, k)
  {
    hide Valid, Apply, AllOnePerson;
    EmptyIsValid();
    var steps := Effects(RowsOf(First(n, k), 0));
    if k == 0 {
      assert steps == [IdentityRuns.Step.Publish(PROJECT, Visit(n, 0).event)];
      VisitMakesOnePerson(n);
    } else {
      FirstMakesOnePerson(n, k - 1);
      var before := Effects(RowsOf(First(n, k - 1), 0));
      var e := Alias(n, k - 1).event;
      assert steps == before + [IdentityRuns.Step.Publish(PROJECT, e)];
      RunAppend(Empty, before, IdentityRuns.Step.Publish(PROJECT, e));
      AliasJoins(IdentityRuns.Run(Empty, before), n, k - 1);
    }
  }

  lemma EmptyIsValid()
    ensures Valid(Empty)
  {
  }

  lemma VisitMakesOnePerson(n: nat)
    requires n <= MAX_PENDING_ERASURES_PER_PROJECT
    ensures AllOnePerson(IdentityRuns.Run(Empty, [IdentityRuns.Step.Publish(PROJECT, Visit(n, 0).event)]), n, 0)
  {
    hide Valid, Apply;
    EmptyIsValid();
    var step := IdentityRuns.Step.Publish(PROJECT, Visit(n, 0).event);
    assert [step][1..] == [];
    IdentityRuns.RowsAfter(Empty, PROJECT, Visit(n, 0).event);
    assert Known(n, 0) == {KeyOf(n)};
  }

  lemma AliasJoins(s: State, n: nat, i: nat)
    requires Valid(s) && i < n <= MAX_PENDING_ERASURES_PER_PROJECT && AllOnePerson(s, n, i)
    ensures AllOnePerson(Apply(s, PROJECT, Alias(n, i).event), n, i + 1)
  {
    hide Valid, Apply;
    if KeyOf(i) in s.ids {
      if KeyOf(i) == KeyOf(n) { KeysDiffer(i, n); }
      else { var j: nat :| j < i && KeyOf(j) == KeyOf(i); KeysDiffer(i, j); }
      assert false;
    }
    AliasFolds(s, n, i);
    IdentityRuns.RowsAfter(s, PROJECT, Alias(n, i).event);
    assert Known(n, i + 1) == Known(n, i) + {KeyOf(n), KeyOf(i)};
  }

  // ---------------------------------------------------------------- what the log does

  function Ready1(b: Batch): WalCrash.Wal<Batch> {
    WalCrash.Wal(WalCrash.Listing(1, 2, true), WalCrash.Listing(1, 2, true), [], map[1 := [b], 2 := []], 0, WalCrash.Mark(1, 0), [], 1,
                 map[0 := b], WalCrash.Ready, true)
  }

  function Published1(b: Batch): WalCrash.Wal<Batch> {
    Ready1(b).(checkpoint := WalCrash.Mark(2, 0), published := [b])
  }

  function Acked2(b: Batch, c: Batch): WalCrash.Wal<Batch> {
    Published1(b).(content := map[1 := [b], 2 := [c]], synced := 1, acked := map[0 := b, 1 := c], groupStart := 2)
  }

  function Ready2(b: Batch, c: Batch): WalCrash.Wal<Batch> {
    Acked2(b, c).(listing := WalCrash.Listing(1, 3, true), durable := WalCrash.Listing(1, 3, true), synced := 0,
                  content := map[1 := [b], 2 := [c], 3 := []])
  }

  function SealSteps(): seq<WalCrash.Action<Batch>> {
    [WalCrash.SyncSegment, WalCrash.RenameSegment, WalCrash.SyncDirectory, WalCrash.CreateSegment, WalCrash.SyncCreated]
  }

  function WriteSteps(b: Batch): seq<WalCrash.Action<Batch>> {
    [WalCrash.Write(b), WalCrash.SyncAndAck]
  }

  function OpenSteps(): seq<WalCrash.Action<Batch>> {
    [WalCrash.Reopen, WalCrash.CreateSegment, WalCrash.SyncCreated, WalCrash.Serve]
  }

  lemma Seals(w: WalCrash.Wal<Batch>)
    requires w.writer == WalCrash.Ready && w.listing.isOpen && WalCrash.At(w, w.listing.next) != []
    ensures var l := WalCrash.Listing(w.listing.first, w.listing.next + 1, true);
            WalCrash.Run(w, SealSteps()) == w.(listing := l, durable := l, unsynced := [], synced := 0,
                                               content := w.content[w.listing.next + 1 := []])
  {
    hide WalCrash.Run, WalCrash.Step;
    FiveSteps(w, WalCrash.SyncSegment, WalCrash.RenameSegment, WalCrash.SyncDirectory, WalCrash.CreateSegment, WalCrash.SyncCreated);
    Renames(w);
    Creates(WalCrash.Step(WalCrash.Step(WalCrash.Step(w, WalCrash.SyncSegment), WalCrash.RenameSegment), WalCrash.SyncDirectory));
  }

  lemma FiveSteps(w: WalCrash.Wal<Batch>, a: WalCrash.Action<Batch>, b: WalCrash.Action<Batch>, c: WalCrash.Action<Batch>,
                  d: WalCrash.Action<Batch>, e: WalCrash.Action<Batch>)
    ensures WalCrash.Run(w, [a, b, c, d, e])
         == WalCrash.Step(WalCrash.Step(WalCrash.Step(WalCrash.Step(WalCrash.Step(w, a), b), c), d), e)
  {
    hide WalCrash.Run, WalCrash.Step;
    var steps := [a, b, c, d, e];
    WalCrash.RunNothing(w);
    assert steps[..0] == [];
    WalCrash.FourSteps(w, steps, 0);
    WalCrash.RunPrefix(w, steps, 4);
    assert steps[..5] == steps;
  }

  lemma Renames(w: WalCrash.Wal<Batch>)
    requires w.writer == WalCrash.Ready && w.listing.isOpen && WalCrash.At(w, w.listing.next) != []
    ensures var l := WalCrash.Listing(w.listing.first, w.listing.next + 1, false);
            WalCrash.Step(WalCrash.Step(WalCrash.Step(w, WalCrash.SyncSegment), WalCrash.RenameSegment), WalCrash.SyncDirectory)
            == w.(listing := l, durable := l, unsynced := [], synced := 0, writer := WalCrash.DirSynced)
  {
  }

  lemma Creates(w: WalCrash.Wal<Batch>)
    requires w.writer == WalCrash.DirSynced
    ensures var l := w.listing.(isOpen := true);
            WalCrash.Step(WalCrash.Step(w, WalCrash.CreateSegment), WalCrash.SyncCreated)
            == w.(listing := l, durable := l, unsynced := [], synced := 0, content := w.content[w.listing.next := []], writer := WalCrash.Ready)
  {
  }

  lemma RunTwo(w: WalCrash.Wal<Batch>, a: WalCrash.Action<Batch>, b: WalCrash.Action<Batch>)
    ensures WalCrash.Run(w, [a, b]) == WalCrash.Step(WalCrash.Step(w, a), b)
  {
    WalCrash.RunFirst(w, a, [b]);
    WalCrash.RunFirst(WalCrash.Step(w, a), b, []);
    assert [a] + [b] == [a, b] && [b] + [] == [b];
  }

  /** From a new installation to the first batch acknowledged and sealed. */
  lemma FirstSealed(b: Batch)
    ensures WalCrash.Run(WalCrash.Fresh(), OpenSteps() + WriteSteps(b) + SealSteps()) == Ready1(b)
  {
    hide WalCrash.Step, WalCrash.Run, Ready1;
    WalCrash.RunConcat(WalCrash.Fresh(), OpenSteps() + WriteSteps(b), SealSteps());
    WalCrash.RunConcat(WalCrash.Fresh(), OpenSteps(), WriteSteps(b));
    WalCrash.RunNothing(WalCrash.Fresh<Batch>());
    assert OpenSteps()[..4] == OpenSteps() && OpenSteps()[..0] == [];
    WalCrash.FourSteps(WalCrash.Fresh(), OpenSteps(), 0);
    WalCrash.FirstServes<Batch>();
    RunTwo(WalCrash.Serving1(), WalCrash.Write(b), WalCrash.SyncAndAck);
    FirstAcked(b);
    Seals(Acked1(b));
    assert Ready1(b) == Acked1(b).(listing := WalCrash.Listing(1, 2, true), durable := WalCrash.Listing(1, 2, true), unsynced := [],
                                   synced := 0, content := map[1 := [b]][2 := []]) by { Ready1Is(b); }
  }

  function Acked1(b: Batch): WalCrash.Wal<Batch> {
    WalCrash.Serving1().(content := map[1 := [b]], synced := 1, acked := map[0 := b], groupStart := 1)
  }

  lemma Ready1Is(b: Batch)
    ensures Ready1(b) == Acked1(b).(listing := WalCrash.Listing(1, 2, true), durable := WalCrash.Listing(1, 2, true), unsynced := [],
                                    synced := 0, content := map[1 := [b]][2 := []])
  {
    assert map[1 := [b]][2 := []] == map[1 := [b], 2 := []];
  }

  lemma FirstAcked(b: Batch)
    ensures WalCrash.Step(WalCrash.Step(WalCrash.Serving1(), WalCrash.Write(b)), WalCrash.SyncAndAck) == Acked1(b)
  {
    var w := WalCrash.Step(WalCrash.Serving1(), WalCrash.Write(b));
    assert [] + [b] == [b];
    assert map[1 := []][1 := [b]] == map[1 := [b]];
    assert w == WalCrash.Serving1().(content := map[1 := [b]]);
    WalCrash.SpanOne(w.content, 1);
    assert WalCrash.Log(w) == [b];
    assert WalCrash.Acknowledged(w) == map[0 := b];
  }

  lemma FirstCommitted(b: Batch)
    ensures WalCrash.Sealed(Ready1(b)) == [b] && WalCrash.Step(Ready1(b), WalCrash.Commit(1)) == Published1(b)
  {
    var w := Ready1(b);
    WalCrash.SpanOne(w.content, 1);
    assert WalCrash.Sealed(w) == [b];
    assert WalCrash.Walk(w.content, WalCrash.Mark(1, 0), 1, 2) == WalCrash.Walk(w.content, WalCrash.Mark(2, 0), 0, 2) == WalCrash.Mark(2, 0);
  }

  lemma SecondAcked(b: Batch, c: Batch)
    ensures WalCrash.Run(Published1(b), WriteSteps(c)) == Acked2(b, c)
  {
    hide WalCrash.Run;
    RunTwo(Published1(b), WalCrash.Write(c), WalCrash.SyncAndAck);
    var w := WalCrash.Step(Published1(b), WalCrash.Write(c));
    assert [] + [c] == [c];
    assert map[1 := [b], 2 := []][2 := [c]] == map[1 := [b], 2 := [c]];
    assert w == Published1(b).(content := map[1 := [b], 2 := [c]]);
    WalCrash.SpanOne(w.content, 2);
    assert WalCrash.Log(w) == [b, c];
    assert WalCrash.Acknowledged(w) == map[0 := b, 1 := c];
  }

  lemma SecondSealed(b: Batch, c: Batch)
    ensures WalCrash.Run(Acked2(b, c), SealSteps()) == Ready2(b, c)
  {
    hide WalCrash.Run;
    Seals(Acked2(b, c));
    assert map[1 := [b], 2 := [c]][3 := []] == map[1 := [b], 2 := [c], 3 := []];
  }

  /** A crash after the acknowledgement, and the next start: the same log, sealed. */
  lemma SecondReopened(b: Batch, c: Batch)
    ensures WalCrash.Run(WalCrash.Step(Acked2(b, c), WalCrash.Crash(0, 1)), [WalCrash.Reopen] + SealSteps() + [WalCrash.Serve]) == Ready2(b, c)
  {
    hide WalCrash.Run;
    var w := WalCrash.Step(Acked2(b, c), WalCrash.Crash(0, 1));
    assert [c][..1] == [c];
    assert map[1 := [b], 2 := [c]][2 := [c]] == map[1 := [b], 2 := [c]];
    WalCrash.SpanOne(map[1 := [b], 2 := [c]], 2);
    assert w == Acked2(b, c).(writer := WalCrash.Down, serving := false);
    var reopened := Acked2(b, c).(serving := false);
    assert WalCrash.Step(w, WalCrash.Reopen) == reopened;
    WalCrash.RunAppend(w, [WalCrash.Reopen] + SealSteps(), WalCrash.Serve);
    WalCrash.RunFirst(w, WalCrash.Reopen, SealSteps());
    Seals(reopened);
    assert map[1 := [b], 2 := [c]][3 := []] == map[1 := [b], 2 := [c], 3 := []];
  }

  lemma SecondCommitted(b: Batch, c: Batch)
    ensures WalCrash.Sealed(Ready2(b, c)) == [c]
    ensures var w := WalCrash.Step(Ready2(b, c), WalCrash.Commit(1));
            w == Ready2(b, c).(checkpoint := WalCrash.Mark(3, 0), published := [b, c])
  {
    var w := Ready2(b, c);
    WalCrash.SpanOne(w.content, 2);
    assert WalCrash.Sealed(w) == [c];
    assert WalCrash.Walk(w.content, WalCrash.Mark(2, 0), 1, 3) == WalCrash.Walk(w.content, WalCrash.Mark(3, 0), 0, 3) == WalCrash.Mark(3, 0);
    assert [b] + [c] == [b, c];
  }

  // ------------------------------------------------------------------------ the runs

  function Logs(steps: seq<WalCrash.Action<Batch>>): seq<Action> {
    seq(|steps|, i requires 0 <= i < |steps| => Action.Log(steps[i]))
  }

  lemma {:induction false} LogRun(s: System, steps: seq<WalCrash.Action<Batch>>)
    requires Valid(s.identity) && forall a <- steps :: WriterStep(a)
    ensures Run(s, Logs(steps)) == s.(wal := WalCrash.Run(s.wal, steps))
    decreases |steps|
  {
    hide Valid, WalCrash.Step, WriterStep;
    if steps != [] {
      var front := steps[..|steps| - 1];
      LogRun(s, front);
      assert Logs(steps)[..|front|] == Logs(front);
    }
  }

  lemma RunOne(s: System, a: Action)
    requires Valid(s.identity) && Enabled(s, a)
    ensures Run(s, [a]) == Step(s, a)
  {
    hide Enabled, Step, Valid;
    assert [a][..0] == [];
    assert Run(s, []) == s;
  }

  lemma RunThen(s: System, actions: seq<Action>, a: Action)
    requires Valid(s.identity) && Enabled(Run(s, actions), a)
    ensures Run(s, actions + [a]) == Step(Run(s, actions), a)
  {
    hide Enabled, Step, Valid;
    assert (actions + [a])[..|actions|] == actions;
  }

  /** The log's part of the head comes first, then the publisher starts. */
  function Opening(n: nat): seq<Action>
    requires n <= MAX_PENDING_ERASURES_PER_PROJECT
  {
    Logs(OpenSteps() + WriteSteps(First(n, n)) + SealSteps()) + [Resume([])] + [NextGroup]
  }

  /** The visitor's first batch is published, and the visitor is erased. */
  function Head(n: nat): seq<Action>
    requires n <= MAX_PENDING_ERASURES_PER_PROJECT
  {
    Opening(n) + [PublishWindow(1)] + [RequestErasure(KeyOf(n))] + [Resume([])] + [NextGroup] + [ErasePerson]
  }

  function Opened(n: nat): System
    requires n <= MAX_PENDING_ERASURES_PER_PROJECT
  {
    Start().(wal := Ready1(First(n, n)), publisher := Idle)
  }

  lemma NothingToGroup()
    ensures Groups({}, [])
  {
  }

  lemma Opens(n: nat)
    requires n <= MAX_PENDING_ERASURES_PER_PROJECT
    ensures Run(Start(), Opening(n)) == Opened(n)
  {
    hide WalCrash.Run, Groups, Valid;
    EmptyIsValid();
    NothingToGroup();
    var b := First(n, n);
    var steps := OpenSteps() + WriteSteps(b) + SealSteps();
    FirstSealed(b);
    LogRun(Start(), steps);
    var s := Start().(wal := Ready1(b));
    RunThen(Start(), Logs(steps), Resume([]));
    RunThen(Start(), Logs(steps) + [Resume([])], NextGroup);
  }

  /** What is known once the first batch is published. */
  ghost predicate FirstIsOut(s: System, n: nat)
    requires n <= MAX_PENDING_ERASURES_PER_PROJECT
  {
    && s.files.Keys == {FileName(DAY, 1)} && s.generation == 1
    && s.wal == Published1(First(n, n))
    && s.requests == []
  }

  lemma FirstPublished(n: nat)
    requires n <= MAX_PENDING_ERASURES_PER_PROJECT
    ensures Enabled(Opened(n), PublishWindow(1))
    ensures var r := Step(Opened(n), PublishWindow(1));
            FirstIsOut(r, n) && AllOnePerson(r.identity, n, n) && r.pending == {} && r.publisher == Idle
  {
    hide Valid, IdentityRuns.Run, WalCrash.Sealed, WalCrash.Step, AllOnePerson, InPartition, FirstCopies, Ready1, Published1;
    EmptyIsValid();
    var b, s := First(n, n), Opened(n);
    FirstCommitted(b);
    assert s.wal.serving by { assert Ready1(b).serving by { Ready1Is(b); } }
    assert [b][..1] == [b];
    OneBatch(b, 0);
    AllFirstCopies(n, n);
    FirstMakesOnePerson(n, n);
    assert s.wal.published == [] by { Ready1Is(b); }
    forall x | x in b ensures PartitionOf(x) == DAY { FirstItems(n, n, x); }
    OnlyOneDay(b, 0);
  }

  lemma OnlyOneDay(b: Batch, origin: nat)
    requires b != [] && forall x <- b :: PartitionOf(x) == DAY
    ensures Partitions(RowsOf(b, origin)) == {DAY}
  {
    assert RowsOf(b, origin)[0].item == b[0];
  }

  /** Both runs continue from here: the erasure is committed, and nothing is rewritten yet. */
  ghost predicate JustErased(s: System, n: nat)
    requires n <= MAX_PENDING_ERASURES_PER_PROJECT
  {
    && FirstIsOut(s, n) && s.pending == Known(n, n)
    && s.publisher == Rewriting(Known(n, n), {DAY}, [], Done)
  }

  lemma WholePerson(s: State, n: nat)
    requires n <= MAX_PENDING_ERASURES_PER_PROJECT && AllOnePerson(s, n, n)
    ensures IdsOf(s, KeyOf(n)) == Known(n, n)
  {
    assert forall k <- Known(n, n) :: k.project == PROJECT;
  }

  lemma DayOnly(files: Files, ids: set<Key>, k: Key)
    requires k in ids && k.project == PROJECT && files.Keys != {} && forall f <- files :: f.partition == DAY
    ensures PartitionsOf(files, ids) == {DAY}
  {
    var f :| f in files.Keys;
    assert f in files && f.partition.project == k.project;
  }

  lemma Erases(s: System, n: nat)
    requires n <= MAX_PENDING_ERASURES_PER_PROJECT && Valid(s.identity)
    requires FirstIsOut(s, n) && AllOnePerson(s.identity, n, n) && s.pending == {} && s.publisher == Idle
    ensures JustErased(Run(s, [RequestErasure(KeyOf(n)), Resume([]), NextGroup, ErasePerson]), n)
  {
    hide Valid, AllOnePerson, Run, Enabled, Step, JustErased, First, Published1;
    AsksFirst(s, n);
    var a := Step(s, RequestErasure(KeyOf(n)));
    GoesThrough(a);
    var c := Step(Step(a, Resume([])), NextGroup);
    TakesPerson(c, n);
    FourMoves(s, RequestErasure(KeyOf(n)), Resume([]), NextGroup, ErasePerson);
  }

  lemma AsksFirst(s: System, n: nat)
    requires n <= MAX_PENDING_ERASURES_PER_PROJECT && Valid(s.identity) && FirstIsOut(s, n)
    ensures Enabled(s, RequestErasure(KeyOf(n)))
    ensures var r := Step(s, RequestErasure(KeyOf(n)));
            r == s.(requests := r.requests) && |r.requests| == 1 && r.requests[0].person == KeyOf(n) && r.requests[0].through == 1
            && r.wal.serving && r.wal == Published1(First(n, n))
  {
    hide Valid, First;
  }

  /** With nothing pending, the request is what the publisher turns to. */
  lemma GoesThrough(s: System)
    requires Valid(s.identity) && s.wal.serving && s.pending == {} && s.publisher.Idle? && |s.requests| == 1
    ensures Enabled(s, Resume([])) && Enabled(Step(s, Resume([])), NextGroup)
    ensures Step(Step(s, Resume([])), NextGroup) == s.(publisher := Through(s.requests[0]), requests := [])
  {
    hide Valid, Groups;
    NothingToGroup();
    assert s.requests[1..] == [];
  }

  lemma TakesPerson(s: System, n: nat)
    requires n <= MAX_PENDING_ERASURES_PER_PROJECT && Valid(s.identity) && AllOnePerson(s.identity, n, n)
    requires FirstIsOut(s, n) && s.pending == {}
    requires s.publisher.Through? && s.publisher.request.person == KeyOf(n) && s.publisher.request.through == 1
    ensures Enabled(s, ErasePerson) && JustErased(Step(s, ErasePerson), n)
  {
    hide Valid, AllOnePerson, Known, Erase, IdsOf, PartitionsOf, First;
    WholePerson(s.identity, n);
    KnownSelf(n);
    DayOnly(s.files, Known(n, n), KeyOf(n));
  }

  lemma KnownSelf(n: nat)
    requires n <= MAX_PENDING_ERASURES_PER_PROJECT
    ensures KeyOf(n) in Known(n, n)
  {
  }

  lemma FourMoves(s: System, a: Action, b: Action, c: Action, d: Action)
    requires Valid(s.identity) && Enabled(s, a) && Enabled(Step(s, a), b) && Enabled(Step(Step(s, a), b), c)
    requires Enabled(Step(Step(Step(s, a), b), c), d)
    ensures Run(s, [a, b, c, d]) == Step(Step(Step(Step(s, a), b), c), d)
  {
    hide Enabled, Step, Valid, Run;
    assert [a] + [b] == [a, b] && [a, b] + [c] == [a, b, c] && [a, b, c] + [d] == [a, b, c, d];
    RunOne(s, a);
    RunThen(s, [a], b);
    RunThen(s, [a, b], c);
    RunThen(s, [a, b, c], d);
  }

  lemma HeadErases(n: nat)
    requires n <= MAX_PENDING_ERASURES_PER_PROJECT
    ensures JustErased(Run(Start(), Head(n)), n)
  {
    hide Enabled, Step, Valid, Run, JustErased, FirstIsOut, AllOnePerson;
    EmptyIsValid();
    Opens(n);
    FirstPublished(n);
    RunThen(Start(), Opening(n), PublishWindow(1));
    var s := Step(Opened(n), PublishWindow(1));
    var rest := [RequestErasure(KeyOf(n)), Resume([]), NextGroup, ErasePerson];
    assert Head(n) == Opening(n) + [PublishWindow(1)] + rest;
    Erasure.RunConcat(Start(), Opening(n) + [PublishWindow(1)], rest);
    Erases(s, n);
  }

  /** The late batch is acknowledged and sealed, the person's own id is still pending, and the publisher goes on. */
  ghost predicate LateIsNext(s: System, n: nat)
    requires n <= MAX_PENDING_ERASURES_PER_PROJECT
  {
    && s.files.Keys == {FileName(DAY, 1)} && s.generation == 1
    && s.wal == Ready2(First(n, n), Late(n))
    && s.requests == [] && s.publisher == Idle && s.pending == {KeyOf(n)}
  }

  // -------------------------------------------------------- first run: a failure

  function Failing(): seq<Action> {
    Logs(WriteSteps(Late(0))) + [ErasureFails] + Logs(SealSteps())
  }

  lemma FailureGoesOn(s: System)
    requires Valid(s.identity) && JustErased(s, 0)
    ensures LateIsNext(Run(s, Failing()), 0)
  {
    hide Valid, WalCrash.Run, WalCrash.Step, Ready2, Acked2, Published1, Run;
    var b, c := First(0, 0), Late(0);
    LogRun(s, WriteSteps(c));
    SecondAcked(b, c);
    var acked := s.(wal := Acked2(b, c));
    RunThen(s, Logs(WriteSteps(c)), ErasureFails);
    var failed := Step(acked, ErasureFails);
    Erasure.RunConcat(s, Logs(WriteSteps(c)) + [ErasureFails], Logs(SealSteps()));
    LogRun(failed, SealSteps());
    SecondSealed(b, c);
    assert Aliases(0) == {};
  }

  // ------------------------------------------------ second run: one id too many

  /** The resumption takes the first ids up to its limit, and leaves the person's own. */
  function Resuming1(n: nat): seq<Action>
    requires n == MAX_PENDING_ERASURES_PER_PROJECT
  {
    [Resume([Aliases(n)]), NextGroup, RewritePartition(DAY, []), ClearGroup] + [NextGroup]
  }

  function Reopening(): seq<WalCrash.Action<Batch>> {
    [WalCrash.Reopen] + SealSteps() + [WalCrash.Serve]
  }

  function Crashing(n: nat): seq<Action>
    requires n == MAX_PENDING_ERASURES_PER_PROJECT
  {
    Logs(WriteSteps(Late(n))) + [Action.Crash(0, 1)] + Logs(Reopening()) + Resuming1(n)
  }

  lemma AllButOne(n: nat)
    requires n == MAX_PENDING_ERASURES_PER_PROJECT
    ensures Groups(Known(n, n), [Aliases(n)]) && Known(n, n) - Aliases(n) == {KeyOf(n)} && KeyOf(0) in Aliases(n)
    ensures forall k <- Aliases(n) :: k.project == PROJECT && k != KeyOf(n)
  {
    hide Groups;
    assert KeyOf(0) in Aliases(n);
    forall i: nat | i < n ensures KeyOf(i) != KeyOf(n) {
      if KeyOf(i) == KeyOf(n) { KeysDiffer(i, n); }
    }
    AliasesMayGo(n);
  }

  lemma AliasesMayGo(n: nat)
    requires n == MAX_PENDING_ERASURES_PER_PROJECT
    ensures Groups(Known(n, n), [Aliases(n)])
  {
    AliasCount(n);
    var ids := Aliases(n);
    assert forall k <- ids + {KeyOf(n)} :: k.project == PROJECT;
    assert KeyOf(0) in ids;
    hide Aliases;
    assert OfProject(ids, PROJECT);
    assert [ids][0] == ids;
  }

  /** Every stored row is the visitor's own. */
  lemma AllRowsOwn(s: System, n: nat, c: Batch)
    requires n <= MAX_PENDING_ERASURES_PER_PROJECT && RowsHonest(s)
    requires s.wal.published == [First(n, n)] || (s.wal.published == [First(n, n), c] && forall x <- c :: Owner(x) == KeyOf(n))
    ensures forall r <- Readable(s.files) :: Owner(r.item) == KeyOf(n)
  {
    hide Readable;
    forall r | r in Readable(s.files) ensures Owner(r.item) == KeyOf(n) {
      if r.origin == 0 { FirstItems(n, n, r.item); }
    }
  }

  lemma ResumptionLeavesOne(s: System, n: nat)
    requires n == MAX_PENDING_ERASURES_PER_PROJECT && Inv(s)
    requires s.files.Keys == {FileName(DAY, 1)} && s.generation == 1 && s.requests == [] && s.publisher == Off
    requires s.pending == Known(n, n) && s.wal == Ready2(First(n, n), Late(n))
    ensures LateIsNext(Run(s, Resuming1(n)), n)
  {
    hide Run, Groups, Inv, Known, Aliases, PartitionsOf, Readable, Valid, Condensed, Rewritten, HoldsNoneOf;
    assert Valid(s.identity) by { IdentityIsValid(s); }
    AllButOne(n);
    var ids := Aliases(n);
    FirstRowsOwn(s, n);
    DayOnly(s.files, ids, KeyOf(0));
    TakesUp(s, ids);
    var b := Step(Step(s, Resume([ids])), NextGroup);
    assert Erasure.NoneOwned(s.files, ids);
    Erasure.NothingToRewrite(b, DAY, ids);
    LeavesDayAlone(b);
    hide Enabled, Step;
    FourMoves(s, Resume([ids]), NextGroup, RewritePartition(DAY, []), ClearGroup);
    RunThen(s, [Resume([ids]), NextGroup, RewritePartition(DAY, []), ClearGroup], NextGroup);
  }

  /** One group and one partition: the publisher starts rewriting it. */
  lemma TakesUp(s: System, ids: set<Key>)
    requires Valid(s.identity) && s.wal.serving && Groups(s.pending, [ids]) && PartitionsOf(s.files, ids) == {DAY}
    requires (s.publisher.Off? && s.requests == []) || (s.publisher.Idle? && |s.requests| == 1)
    ensures Enabled(s, Resume([ids])) && Enabled(Step(s, Resume([ids])), NextGroup)
    ensures var r := Step(Step(s, Resume([ids])), NextGroup);
            r == s.(publisher := Rewriting(ids, {DAY}, [], if s.publisher.Off? then Boot else Serve(s.requests[0])), requests := [])
  {
    hide Valid, Groups, PartitionsOf;
    assert [ids][1..] == [];
    if s.publisher.Idle? {
      assert s.requests[1..] == [];
    }
  }

  /** None of the taken rows is there: the partition stays, and the group is done. */
  lemma LeavesDayAlone(s: System)
    requires Valid(s.identity) && s.publisher.Rewriting? && s.publisher.todo == {DAY} && s.publisher.next.Boot? && s.publisher.groups == []
    requires HoldsNoneOf(s.files, DAY, s.publisher.taken)
    ensures var a := Step(s, RewritePartition(DAY, []));
            var b := Step(a, ClearGroup);
            && Enabled(s, RewritePartition(DAY, [])) && Enabled(a, ClearGroup) && Enabled(b, NextGroup)
            && (var r := Step(b, NextGroup);
                && r.files == s.files && r.wal == s.wal && r.requests == s.requests && r.generation == s.generation
                && r.pending == s.pending - s.publisher.taken && r.publisher == Idle)
  {
    hide Valid, HoldsNoneOf;
  }

  lemma DayDone(s: System)
    requires Valid(s.identity) && Enabled(s, RewritePartition(DAY, [])) && s.publisher.todo == {DAY}
    ensures var r := Step(s, RewritePartition(DAY, []));
            Enabled(r, ClearGroup) && r.publisher.taken == s.publisher.taken && r.pending == s.pending && r.wal == s.wal
  {
    hide Valid, HoldsNoneOf, Rewritten, Condensed;
  }

  lemma Asks(s: System, n: nat)
    requires n <= MAX_PENDING_ERASURES_PER_PROJECT && Valid(s.identity) && LateIsOut(s, n)
    ensures Enabled(s, RequestErasure(KeyOf(n)))
    ensures var r := Step(s, RequestErasure(KeyOf(n))); |r.requests| == 1 && r == s.(requests := r.requests)
  {
    hide Valid;
  }

  lemma FirstRowsOwn(s: System, n: nat)
    requires n <= MAX_PENDING_ERASURES_PER_PROJECT && Inv(s) && s.wal == Ready2(First(n, n), Late(n))
    ensures forall r <- Readable(s.files) :: Owner(r.item) == KeyOf(n)
  {
    hide WalCrash.Inv, Readable, First;
    AllRowsOwn(s, n, []);
  }

  lemma IdentityIsValid(s: System)
    requires Inv(s)
    ensures Valid(s.identity)
  {
  }

  lemma CrashGoesOn(s: System, n: nat)
    requires n == MAX_PENDING_ERASURES_PER_PROJECT && Inv(s) && JustErased(s, n)
    ensures LateIsNext(Run(s, Crashing(n)), n)
  {
    hide Inv, Valid, WalCrash.Run, WalCrash.Step, Ready2, Acked2, Published1, Run, LateIsNext, Resuming1;
    assert Valid(s.identity) by { IdentityIsValid(s); }
    var b, c := First(n, n), Late(n);
    LogRun(s, WriteSteps(c));
    SecondAcked(b, c);
    var acked := s.(wal := Acked2(b, c));
    var front := Logs(WriteSteps(c));
    RunThen(s, front, Action.Crash(0, 1));
    var crashed := Step(acked, Action.Crash(0, 1));
    LogRun(crashed, Reopening());
    SecondReopened(b, c);
    Erasure.RunConcat(s, front + [Action.Crash(0, 1)], Logs(Reopening()));
    Erasure.RunConcat(s, front + [Action.Crash(0, 1)] + Logs(Reopening()), Resuming1(n));
    var up := Run(crashed, Logs(Reopening()));
    RunsKeep(s, front + [Action.Crash(0, 1)] + Logs(Reopening()));
    ResumptionLeavesOne(up, n);
  }

  lemma {:induction false} RunsKeep(s: System, actions: seq<Action>)
    requires Inv(s)
    ensures Inv(Run(s, actions))
    decreases |actions|
  {
    assert Valid(s.identity);
    hide Inv, Enabled, Step;
    if actions != [] {
      var front := actions[..|actions| - 1];
      RunsKeep(s, front);
      if Enabled(Run(s, front), actions[|actions| - 1]) {
        StepKeeps(Run(s, front), actions[|actions| - 1]);
      }
    }
  }

  // --------------------------------------------------------- how both of them end

  /** The next erasure request resumes the one left over. */
  function Ending(n: nat): seq<Action>
    requires n <= MAX_PENDING_ERASURES_PER_PROJECT
  {
    [PublishWindow(1)] + [RequestErasure(KeyOf(n)), Resume([{KeyOf(n)}]), NextGroup, RewritePartition(DAY, [])] + [ClearGroup]
  }

  ghost predicate LateIsOut(s: System, n: nat)
    requires n <= MAX_PENDING_ERASURES_PER_PROJECT
  {
    && s.files.Keys == {FileName(DAY, 1), FileName(DAY, 2)} && s.generation == 2
    && s.wal == Ready2(First(n, n), Late(n)).(checkpoint := WalCrash.Mark(3, 0), published := [First(n, n), Late(n)])
    && s.requests == [] && s.publisher == Idle && s.pending == {KeyOf(n)}
  }

  lemma LatePublished(s: System, n: nat)
    requires n <= MAX_PENDING_ERASURES_PER_PROJECT && Valid(s.identity) && LateIsNext(s, n)
    ensures Enabled(s, PublishWindow(1)) && LateIsOut(Step(s, PublishWindow(1)), n)
  {
    hide Valid, IdentityRuns.Run, WalCrash.Sealed, WalCrash.Step, InPartition, FirstCopies;
    var b, c := First(n, n), Late(n);
    SecondCommitted(b, c);
    assert [c][..1] == [c];
    OneBatch(c, 1);
    SingleFirstCopy(Stored(LateItem(n), 1));
    assert RowsOf(c, 1) == [Stored(LateItem(n), 1)];
    OnlyOneDay(c, 1);
  }

  lemma SingleFirstCopy(r: Stored)
    ensures FirstCopies([r]) == [r]
  {
    assert FirstCopies([r]) == FirstCopies([]) + [r];
  }

  lemma ResumedTakesLate(s: System, n: nat)
    requires n <= MAX_PENDING_ERASURES_PER_PROJECT && Inv(s) && LateIsOut(s, n)
    ensures var r := Run(s, [RequestErasure(KeyOf(n)), Resume([{KeyOf(n)}]), NextGroup, RewritePartition(DAY, [])]);
            Enabled(r, ClearGroup) && r.publisher.taken == {KeyOf(n)} && r.pending == {KeyOf(n)} && r.wal == s.wal
  {
    hide Run, WalCrash.Inv, NothingMissing, PromisesKept, RequestsSound, DueRowsSwept, IdentityFollows, RewriteOnTrack,
         PartitionsOf, Readable, Valid, Groups, FilesPlaced, RowsHonest;
    assert Valid(s.identity) by { IdentityIsValid(s); }
    var k := KeyOf(n);
    OnlyGroup(k);
    DayOnly(s.files, {k}, k);
    LateRowsOwn(s, n);
    Asks(s, n);
    hide Enabled, Step, LateIsOut;
    var a := Step(s, RequestErasure(k));
    TakesUp(a, {k});
    var c := Step(Step(a, Resume([{k}])), NextGroup);
    MayRewriteDay(c, k);
    DayDone(c);
    FourMoves(s, RequestErasure(k), Resume([{k}]), NextGroup, RewritePartition(DAY, []));
  }

  lemma LateRowsOwn(s: System, n: nat)
    requires n <= MAX_PENDING_ERASURES_PER_PROJECT && Inv(s) && LateIsOut(s, n)
    ensures forall r <- Readable(s.files) :: Owner(r.item) == KeyOf(n)
  {
    hide WalCrash.Inv, Readable, First, Ready2;
    AllRowsOwn(s, n, Late(n));
  }

  /** With nothing but rows of `k` stored, an empty file is what the erasing query writes. */
  lemma MayRewriteDay(s: System, k: Key)
    requires Valid(s.identity) && s.publisher.Rewriting? && s.publisher.taken == {k} && s.publisher.todo == {DAY}
    requires forall r <- Readable(s.files) :: Owner(r.item) == k
    ensures Enabled(s, RewritePartition(DAY, []))
  {
    hide Readable, Valid;
    forall r | r in Input(s.files, FilesOf(s.files, DAY)) ensures Owner(r.item) == k {
      InputIsReadable(s.files, DAY, r);
    }
  }

  lemma InputIsReadable(files: Files, p: Partition, r: Stored)
    requires r in Input(files, FilesOf(files, p))
    ensures r in Readable(files)
  {
  }

  lemma OnlyGroup(k: Key)
    ensures Groups({k}, [{k}])
  {
    assert OfProject({k}, k.project);
  }

  lemma EndsWithoutLate(s: System, n: nat)
    requires n <= MAX_PENDING_ERASURES_PER_PROJECT && Inv(s) && LateIsNext(s, n)
    ensures var r := Run(s, Ending(n));
            && r.wal.published == [First(n, n), Late(n)] && r.wal.acked == map[0 := First(n, n), 1 := Late(n)]
            && r.pending == {} && !Shown(r.files, UniqueOf(LateItem(n)))
  {
    hide Inv, Step, Run, Readable, Enabled, Groups;
    assert Valid(s.identity) by { IdentityIsValid(s); }
    LatePublished(s, n);
    RunOne(s, PublishWindow(1));
    StepKeeps(s, PublishWindow(1));
    var out := Step(s, PublishWindow(1));
    var moves := [RequestErasure(KeyOf(n)), Resume([{KeyOf(n)}]), NextGroup, RewritePartition(DAY, [])];
    ResumedTakesLate(out, n);
    Erasure.RunConcat(s, [PublishWindow(1)], moves);
    RunsKeep(out, moves);
    var done := Run(out, moves);
    RunThen(s, [PublishWindow(1)] + moves, ClearGroup);
    assert done.publisher.Rewriting? && done.publisher.todo == {} by { ClearReady(done); }
    NothingStored(done, n);
    assert Valid(done.identity) by { IdentityIsValid(done); }
    ClearEnds(done, n);
  }

  lemma ClearEnds(s: System, n: nat)
    requires n <= MAX_PENDING_ERASURES_PER_PROJECT && Valid(s.identity)
    requires Enabled(s, ClearGroup) && s.publisher.taken == {KeyOf(n)} && s.pending == {KeyOf(n)} && Readable(s.files) == {}
    ensures var r := Step(s, ClearGroup); r.pending == {} && r.wal == s.wal && !Shown(r.files, UniqueOf(LateItem(n)))
  {
    hide Readable, Valid;
  }

  lemma ClearReady(s: System)
    requires Enabled(s, ClearGroup)
    ensures s.publisher.Rewriting? && s.publisher.todo == {}
  {
  }

  /** With the visitor's rows gone, no row is left at all. */
  lemma NothingStored(s: System, n: nat)
    requires n <= MAX_PENDING_ERASURES_PER_PROJECT
    requires s.publisher.Rewriting? && s.publisher.todo == {} && s.publisher.taken == {KeyOf(n)}
    requires s.wal.published == [First(n, n), Late(n)] && Inv(s)
    ensures Readable(s.files) == {}
  {
    hide Readable, WalCrash.Inv, NothingMissing, PromisesKept, RequestsSound, DueRowsSwept, IdentityFollows, RewriteOnTrack, First;
    AllRowsOwn(s, n, Late(n));
    forall r ensures r !in Readable(s.files) {
      if r in Readable(s.files) { Erasure.ClearLeavesNone(s, r); }
    }
  }

  // -------------------------------------------------------------------- the results

  /**
   A failure: the visitor is erased, comes back and is acknowledged, the erasure
   fails half-way, and resuming it removes the new event too.
   */
  lemma FailedErasureTakesTooMuch()
    ensures Run(Start(), Head(0)).wal.acked == map[0 := First(0, 0)] && Run(Start(), Head(0)).pending == {KeyOf(0)}
    ensures var s := Run(Start(), Head(0) + Failing() + Ending(0));
            && s.wal.published == [First(0, 0), Late(0)] && s.wal.acked == map[0 := First(0, 0), 1 := Late(0)]
            && s.pending == {} && !Shown(s.files, UniqueOf(LateItem(0)))
  {
    hide Inv, Step, Enabled, Run, Valid, Head, Failing, Ending, LateIsNext;
    EmptyIsValid();
    HeadErases(0);
    RunKeeps(Head(0));
    var s := Run(Start(), Head(0));
    assert Valid(s.identity) by { IdentityIsValid(s); }
    assert Aliases(0) == {};
    FailureGoesOn(s);
    Erasure.RunConcat(Start(), Head(0), Failing());
    Erasure.RunConcat(Start(), Head(0) + Failing(), Ending(0));
    RunKeeps(Head(0) + Failing());
    EndsWithoutLate(Run(Start(), Head(0) + Failing()), 0);
  }

  /**
   One id too many: nothing fails, but after a crash the resumption leaves the
   10,001st id pending, and the event acknowledged after the erasure goes with it.
   */
  lemma OversizedErasureTakesTooMuch(n: nat)
    requires n == MAX_PENDING_ERASURES_PER_PROJECT
    ensures Run(Start(), Head(n)).wal.acked == map[0 := First(n, n)]
    ensures |Run(Start(), Head(n)).pending| == 10_001
    ensures ErasureFails !in Head(n) + Crashing(n) + Ending(n)
    ensures var s := Run(Start(), Head(n) + Crashing(n) + Ending(n));
            && s.wal.published == [First(n, n), Late(n)] && s.wal.acked == map[0 := First(n, n), 1 := Late(n)]
            && s.pending == {} && !Shown(s.files, UniqueOf(LateItem(n)))
  {
    hide Inv, Step, Enabled, Run, Valid, LateIsNext, First, Aliases;
    EmptyIsValid();
    HeadErases(n);
    RunKeeps(Head(n));
    var s := Run(Start(), Head(n));
    KnownCount(n);
    CrashGoesOn(s, n);
    Erasure.RunConcat(Start(), Head(n), Crashing(n));
    Erasure.RunConcat(Start(), Head(n) + Crashing(n), Ending(n));
    RunKeeps(Head(n) + Crashing(n));
    EndsWithoutLate(Run(Start(), Head(n) + Crashing(n)), n);
  }

  lemma KnownCount(n: nat)
    requires n == MAX_PENDING_ERASURES_PER_PROJECT
    ensures |Known(n, n)| == MAX_PENDING_ERASURES_PER_PROJECT + 1
  {
    hide Aliases;
    AliasCount(n);
    AllButOne(n);
    assert KeyOf(n) !in Aliases(n);
  }
}
