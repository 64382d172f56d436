/**
 One publication: a window of records becomes identity effects and one event file
 per partition; and the two ways files are rewritten afterwards.
 */
module Publication {
  import opened Wrappers
  import opened Identity
  import opened IdentityRuns
  import FeedPaging

  /** A captured event of a project; its uuid identifies it across client retries. */
  datatype Item = Item(project: string, uuid: nat, event: Event)

  type Batch = seq<Item>

  /** A row of an event file. `origin` is the log position of the record it came from. */
  datatype Stored = Stored(item: Item, origin: nat)

  datatype Partition = Partition(project: string, day: int)

  /** A file's path: its partition directory and the generation that created it. */
  datatype FileName = FileName(partition: Partition, generation: nat)

  type Files = map<FileName, seq<Stored>>

  datatype Unique = Unique(project: string, uuid: nat)

  const NANOS_PER_DAY := 86_400_000_000_000

  function UniqueOf(item: Item): Unique { Unique(item.project, item.uuid) }

  function Owner(item: Item): Key { Key(item.project, item.event.distinctId) }

  /** UTC day of the event's timestamp. */
  function PartitionOf(item: Item): Partition { Partition(item.project, item.event.at / NANOS_PER_DAY) }

  function RowsOf(batch: Batch, origin: nat): seq<Stored> {
    seq(|batch|, i requires 0 <= i < |batch| => Stored(batch[i], origin))
  }

  /** The rows of a window whose first record is at log position `base`. */
  function Rows(batches: seq<Batch>, base: nat): seq<Stored> {
    if batches == [] then [] else Rows(batches[..|batches| - 1], base) + RowsOf(batches[|batches| - 1], base + |batches| - 1)
  }

  function Uniques(rows: seq<Stored>): set<Unique> {
    set r | r in rows :: UniqueOf(r.item)
  }

  /** Retries of one event inside a window collapse onto the first copy. */
  function FirstCopies(rows: seq<Stored>): seq<Stored> {
    if rows == [] then []
    else
      var front, last := rows[..|rows| - 1], rows[|rows| - 1];
      FirstCopies(front) + (if UniqueOf(last.item) in Uniques(front) then [] else [last])
  }

  function Effects(rows: seq<Stored>): seq<Step> {
    seq(|rows|, i requires 0 <= i < |rows| => Step.Publish(rows[i].item.project, rows[i].item.event))
  }

  function InPartition(rows: seq<Stored>, p: Partition): seq<Stored> {
    if rows == [] then []
    else
      var front, last := rows[..|rows| - 1], rows[|rows| - 1];
      InPartition(front, p) + (if PartitionOf(last.item) == p then [last] else [])
  }

  function Partitions(rows: seq<Stored>): set<Partition> {
    set r | r in rows :: PartitionOf(r.item)
  }

  function Grouped(rows: seq<Stored>): map<Partition, seq<Stored>> {
    map p | p in Partitions(rows) :: InPartition(rows, p)
  }

  lemma RunAppend(s: State, steps: seq<Step>, step: Step)
    requires Valid(s)
    ensures Run(s, steps + [step]) == Next(Run(s, steps), step)
    decreases |steps|
  {
    if steps == [] {
      assert [step][1..] == [];
    } else {
      assert (steps + [step])[1..] == steps[1..] + [step];
      RunAppend(Next(s, steps[0]), steps[1..], step);
    }
  }

  /**
   The loops of `publish_window`: walk the window once, skip an event already seen
   in it, apply its identity effects, and append it to its partition.
   */
  method Gather(batches: seq<Batch>, base: nat, identity: State)
    returns (partitions: map<Partition, seq<Stored>>, after: State, events: nat)
    requires Valid(identity)
    ensures partitions == Grouped(FirstCopies(Rows(batches, base)))
    ensures after == Run(identity, Effects(FirstCopies(Rows(batches, base))))
    ensures events == |FirstCopies(Rows(batches, base))|
    ensures forall p, r | p in partitions && r in partitions[p] ::
              p.project == r.item.project && p.day * 86_400_000_000_000 <= r.item.event.at < (p.day + 1) * 86_400_000_000_000
    ensures Valid(after)
  {
    GroupedByDay(FirstCopies(Rows(batches, base)));
    hide Valid, Apply, Uniques, Grouped, FirstCopies, Effects, Run;
    EmptyGather(identity);
    var seen: set<Unique> := {};
    partitions, after, events := map[], identity, 0;
    ghost var rows: seq<Stored> := [];
    var b := 0;
    while b < |batches|
      invariant 0 <= b <= |batches|
      invariant rows == Rows(batches[..b], base)
      invariant Gathered(rows, identity, seen, partitions, after, events)
    {
      var batch := batches[b];
      ghost var before := rows;
      var i := 0;
      while i < |batch|
        invariant 0 <= i <= |batch|
        invariant rows == before + RowsOf(batch, base + b)[..i]
        invariant Gathered(rows, identity, seen, partitions, after, events)
      {
        var item := batch[i];
        var row := Stored(item, base + b);
        GatheredStep(rows, identity, seen, partitions, after, events, row);
        assert rows + [row] == before + RowsOf(batch, base + b)[..i + 1];
        rows := rows + [row];
        i := i + 1;
        if UniqueOf(item) in seen {
          continue;
        }
        seen := seen + {UniqueOf(item)};
        after := Apply(after, item.project, item.event);
        events := events + 1;
        var p := PartitionOf(item);
        partitions := partitions[p := (if p in partitions then partitions[p] else []) + [row]];
      }
      assert RowsOf(batch, base + b)[..|batch|] == RowsOf(batch, base + b);
      assert batches[..b + 1][..b] == batches[..b];
      b := b + 1;
    }
    assert batches[..b] == batches;
  }

  /** The rows grouped under a partition are those of its project and UTC day. */
  lemma GroupedByDay(rows: seq<Stored>)
    ensures forall p, r | p in Grouped(rows) && r in Grouped(rows)[p] ::
              p.project == r.item.project && p.day * 86_400_000_000_000 <= r.item.event.at < (p.day + 1) * 86_400_000_000_000
  {
    hide InPartition;
    forall p, r | p in Grouped(rows) && r in Grouped(rows)[p]
      ensures p.project == r.item.project && p.day * 86_400_000_000_000 <= r.item.event.at < (p.day + 1) * 86_400_000_000_000
    {
      InPartitionMembers(rows, p, r);
      DayOf(r.item);
    }
  }

  /** An event is filed under the UTC day of its time, the day the feed looks for it. */
  lemma DayOf(x: Item)
    ensures PartitionOf(x).day * 86_400_000_000_000 <= x.event.at < (PartitionOf(x).day + 1) * 86_400_000_000_000
    ensures PartitionOf(x).day == FeedPaging.Day(x.event.at / 1000)
  {
  }

  lemma EmptyGather(identity: State)
    requires Valid(identity)
    ensures Gathered([], identity, {}, map[], identity, 0)
  {
    hide Valid;
  }

  ghost predicate Gathered(rows: seq<Stored>, identity: State, seen: set<Unique>, partitions: map<Partition, seq<Stored>>,
                           after: State, events: nat)
  {
    && Valid(identity) && Valid(after)
    && seen == Uniques(rows)
    && partitions == Grouped(FirstCopies(rows))
    && after == Run(identity, Effects(FirstCopies(rows)))
    && events == |FirstCopies(rows)|
  }

  lemma GatheredStep(rows: seq<Stored>, identity: State, seen: set<Unique>, partitions: map<Partition, seq<Stored>>,
                     after: State, events: nat, row: Stored)
    requires Gathered(rows, identity, seen, partitions, after, events)
    ensures var item, p := row.item, PartitionOf(row.item);
            if UniqueOf(item) in seen then Gathered(rows + [row], identity, seen, partitions, after, events)
            else Gathered(rows + [row], identity, seen + {UniqueOf(item)},
                          partitions[p := (if p in partitions then partitions[p] else []) + [row]],
                          Apply(after, item.project, item.event), events + 1)
  {
    hide Valid, Apply, Run;
    var all := rows + [row];
    assert all[..|all| - 1] == rows;
    assert Uniques(all) == Uniques(rows) + {UniqueOf(row.item)};
    if UniqueOf(row.item) in seen {
      assert Uniques(all) == seen;
      assert FirstCopies(all) == FirstCopies(rows);
    } else {
      var kept := FirstCopies(rows);
      assert FirstCopies(all) == kept + [row];
      assert Effects(kept + [row]) == Effects(kept) + [Step.Publish(row.item.project, row.item.event)];
      RunAppend(identity, Effects(kept), Step.Publish(row.item.project, row.item.event));
      GroupedAppend(kept, row);
    }
  }

  lemma GroupedAppend(rows: seq<Stored>, row: Stored)
    ensures var p := PartitionOf(row.item);
            Grouped(rows + [row]) == Grouped(rows)[p := (if p in Grouped(rows) then Grouped(rows)[p] else []) + [row]]
  {
    var all, p := rows + [row], PartitionOf(row.item);
    assert all[..|all| - 1] == rows;
    assert Partitions(all) == Partitions(rows) + {p};
    if p !in Partitions(rows) {
      NotInPartition(rows, p);
    }
    var r := Grouped(rows)[p := (if p in Grouped(rows) then Grouped(rows)[p] else []) + [row]];
    assert Grouped(all).Keys == r.Keys;
    forall q | q in Partitions(all) ensures Grouped(all)[q] == r[q] {
      assert InPartition(all, q) == InPartition(rows, q) + (if p == q then [row] else []);
    }
  }

  lemma {:induction false} NotInPartition(rows: seq<Stored>, p: Partition)
    requires p !in Partitions(rows)
    ensures InPartition(rows, p) == []
  {
    if rows != [] {
      var front, last := rows[..|rows| - 1], rows[|rows| - 1];
      assert PartitionOf(last.item) in Partitions(rows);
      assert Partitions(front) <= Partitions(rows);
      NotInPartition(front, p);
    }
  }

  // ------------------------------------------------------------------ the event files

  /** Every row a query may return. */
  function Readable(files: Files): set<Stored> {
    set n, r | n in files && r in files[n] :: r
  }

  function NewFiles(rows: seq<Stored>, generation: nat): Files {
    map n | n in (set p | p in Partitions(rows) :: FileName(p, generation)) :: InPartition(rows, n.partition)
  }

  lemma {:induction false} InPartitionMembers(rows: seq<Stored>, p: Partition, r: Stored)
    ensures r in InPartition(rows, p) <==> r in rows && PartitionOf(r.item) == p
  {
    if rows != [] {
      var front, last := rows[..|rows| - 1], rows[|rows| - 1];
      InPartitionMembers(front, p, r);
      assert rows == front + [last];
    }
  }

  /** Splitting a window into partition files loses and invents no row. */
  lemma NewFilesRead(rows: seq<Stored>, generation: nat)
    ensures Readable(NewFiles(rows, generation)) == set r | r in rows
  {
    var files := NewFiles(rows, generation);
    forall r ensures r in Readable(files) <==> r in rows {
      InPartitionMembers(rows, PartitionOf(r.item), r);
      if r in rows {
        assert PartitionOf(r.item) in Partitions(rows);
        assert FileName(PartitionOf(r.item), generation) in files;
      } else if r in Readable(files) {
        var n :| n in files && r in files[n];
        InPartitionMembers(rows, n.partition, r);
      }
    }
  }

  lemma AddedFilesRead(files: Files, more: Files)
    requires files.Keys !! more.Keys
    ensures Readable(files + more) == Readable(files) + Readable(more)
  {
    var all := files + more;
    forall r ensures r in Readable(all) <==> r in Readable(files) + Readable(more) {
      if r in Readable(files) {
        var n :| n in files && r in files[n];
        assert n in all && r in all[n];
      } else if r in Readable(more) {
        var n :| n in more && r in more[n];
        assert n in all && r in all[n];
      }
    }
  }

  /** The first copies of a window are some of its rows, carry all of its events, and none twice. */
  lemma {:induction false} FirstCopiesCover(rows: seq<Stored>)
    ensures forall r <- FirstCopies(rows) :: r in rows
    ensures Uniques(FirstCopies(rows)) == Uniques(rows)
    ensures forall i, j | 0 <= i < j < |FirstCopies(rows)| :: UniqueOf(FirstCopies(rows)[i].item) != UniqueOf(FirstCopies(rows)[j].item)
  {
    if rows != [] {
      var front, last := rows[..|rows| - 1], rows[|rows| - 1];
      FirstCopiesCover(front);
      assert rows == front + [last];
      assert Uniques(rows) == Uniques(front) + {UniqueOf(last.item)};
      if UniqueOf(last.item) !in Uniques(front) {
        assert Uniques(FirstCopies(front) + [last]) == Uniques(FirstCopies(front)) + {UniqueOf(last.item)};
        forall i, j | 0 <= i < j < |FirstCopies(rows)|
          ensures UniqueOf(FirstCopies(rows)[i].item) != UniqueOf(FirstCopies(rows)[j].item)
        {
          assert UniqueOf(FirstCopies(front)[i].item) in Uniques(FirstCopies(front));
        }
      }
    }
  }

  /** Two rows are copies of one event when project and uuid agree. */
  predicate Copies(a: Stored, b: Stored) {
    a.item.project == b.item.project && a.item.uuid == b.item.uuid
  }

  /** No row before row `i` is a copy of it. */
  predicate IsFirst(rows: seq<Stored>, i: nat) {
    i < |rows| && forall j | 0 <= j < i :: !Copies(rows[j], rows[i])
  }

  lemma FirstInFront(rows: seq<Stored>, i: nat)
    requires i + 1 < |rows|
    ensures IsFirst(rows[..|rows| - 1], i) <==> IsFirst(rows, i)
  {
    var front := rows[..|rows| - 1];
    assert forall j | 0 <= j <= i :: front[j] == rows[j];
  }

  lemma LastIsFirst(rows: seq<Stored>)
    requires rows != []
    ensures var n := |rows| - 1; IsFirst(rows, n) <==> UniqueOf(rows[n].item) !in Uniques(rows[..n])
  {
    var n := |rows| - 1;
    if UniqueOf(rows[n].item) in Uniques(rows[..n]) {
      var r :| r in rows[..n] && UniqueOf(r.item) == UniqueOf(rows[n].item);
      var j :| 0 <= j < n && rows[..n][j] == r;
      assert Copies(rows[j], rows[n]);
    } else {
      forall j | 0 <= j < n ensures !Copies(rows[j], rows[n]) {
        assert rows[..n][j] == rows[j] && rows[j] in rows[..n];
      }
    }
  }

  /** `kept` are the rows at the positions `at`, in their order. */
  predicate Picks(rows: seq<Stored>, kept: seq<Stored>, at: seq<nat>) {
    && |at| == |kept|
    && (forall k | 0 <= k < |at| :: at[k] < |rows| && rows[at[k]] == kept[k])
    && (forall k, l | 0 <= k < l < |at| :: at[k] < at[l])
  }

  lemma PicksGrow(rows: seq<Stored>, kept: seq<Stored>, at: seq<nat>)
    requires rows != [] && Picks(rows[..|rows| - 1], kept, at)
    ensures Picks(rows, kept, at) && Picks(rows, kept + [rows[|rows| - 1]], at + [|rows| - 1])
  {
  }

  /** The copies kept are the first ones, in the window's order: row `i` is kept exactly if it is the first copy. */
  lemma {:induction false} FirstCopiesAre(rows: seq<Stored>) returns (at: seq<nat>)
    ensures Picks(rows, FirstCopies(rows), at)
    ensures forall i: nat :: i in at <==> IsFirst(rows, i)
  {
    hide Uniques, IsFirst, Copies, Picks;
    if rows == [] {
      at := [];
      assert Picks([], [], []) by { NothingPicked(); }
      assert forall i: nat :: !IsFirst(rows, i) by { NoneIsFirst(); }
    } else {
      var n := |rows| - 1;
      var before := FirstCopiesAre(rows[..n]);
      LastIsFirst(rows);
      PicksGrow(rows, FirstCopies(rows[..n]), before);
      at := if UniqueOf(rows[n].item) in Uniques(rows[..n]) then before else before + [n];
      assert FirstCopies(rows) == if UniqueOf(rows[n].item) in Uniques(rows[..n]) then FirstCopies(rows[..n]) else FirstCopies(rows[..n]) + [rows[n]];
      forall i: nat ensures i in at <==> IsFirst(rows, i) {
        OnlyRows(rows, i);
        OnlyRows(rows[..n], i);
        if i < n { FirstInFront(rows, i); }
      }
    }
  }

  lemma NothingPicked()
    ensures Picks([], [], [])
  {
  }

  lemma OnlyRows(rows: seq<Stored>, i: nat)
    ensures IsFirst(rows, i) ==> i < |rows|
  {
  }

  lemma NoneIsFirst()
    ensures forall i: nat :: !IsFirst([], i)
  {
  }

  lemma {:induction false} RowsMembers(batches: seq<Batch>, base: nat, r: Stored)
    ensures r in Rows(batches, base) <==> base <= r.origin < base + |batches| && r.item in batches[r.origin - base]
  {
    if batches != [] {
      var front, last := batches[..|batches| - 1], batches[|batches| - 1];
      RowsMembers(front, base, r);
      var rows := RowsOf(last, base + |front|);
      assert r in rows <==> r.origin == base + |front| && r.item in last by {
        if r.origin == base + |front| && r.item in last {
          var i :| 0 <= i < |last| && last[i] == r.item;
          assert rows[i] == r;
        }
      }
    }
  }

  // ----------------------------------------------------------------------- rewriting

  function Input(files: Files, inputs: set<FileName>): set<Stored> {
    set n, r | n in inputs && n in files && r in files[n] :: r
  }

  /**
   What `merge_sql` and the erasing query write: of the rows not owned by `gone`,
   one per event, the earliest; nothing else.
   */
  ghost predicate Condensed(input: set<Stored>, gone: set<Key>, output: seq<Stored>) {
    && (forall r <- output :: r in input && Owner(r.item) !in gone)
    && (forall x <- input :: Owner(x.item) in gone || UniqueOf(x.item) in Uniques(output))
    && (forall i, j | 0 <= i < j < |output| :: UniqueOf(output[i].item) != UniqueOf(output[j].item))
    && (forall r <- output, x <- input ::
          UniqueOf(r.item) == UniqueOf(x.item) && Owner(x.item) !in gone ==> r.item.event.at <= x.item.event.at)
  }

  /** `QUALIFY row_number() OVER (PARTITION BY uuid ORDER BY timestamp) = 1` over the rows not owned by `gone`. */
  function Merged(rows: seq<Stored>, gone: set<Key>): seq<Stored> {
    if rows == [] then []
    else
      var kept, last := Merged(rows[..|rows| - 1], gone), rows[|rows| - 1];
      if Owner(last.item) in gone then kept else WithCopy(kept, last)
  }

  /** The earliest copy of each event stays. */
  function WithCopy(kept: seq<Stored>, row: Stored): seq<Stored> {
    match CopyIn(kept, UniqueOf(row.item))
    case None => kept + [row]
    case Some(i) => if row.item.event.at < kept[i].item.event.at then kept[i := row] else kept
  }

  function CopyIn(rows: seq<Stored>, u: Unique): (r: Option<nat>)
    ensures r.Some? ==> r.value < |rows| && UniqueOf(rows[r.value].item) == u
    ensures r.None? ==> forall i | 0 <= i < |rows| :: UniqueOf(rows[i].item) != u
  {
    if rows == [] then None
    else if UniqueOf(rows[|rows| - 1].item) == u then Some(|rows| - 1)
    else CopyIn(rows[..|rows| - 1], u)
  }

  /** One more row, whichever way it goes. */
  lemma MergeStep(input: set<Stored>, gone: set<Key>, kept: seq<Stored>, last: Stored)
    requires Condensed(input, gone, kept)
    ensures Condensed(input + {last}, gone, if Owner(last.item) in gone then kept else WithCopy(kept, last))
  {
    if Owner(last.item) !in gone {
      var at := CopyIn(kept, UniqueOf(last.item));
      if at.None? {
        NewCopy(input, gone, kept, last);
      } else if last.item.event.at < kept[at.value].item.event.at {
        EarlierCopy(input, gone, kept, at.value, last);
      }
    }
  }

  lemma NewCopy(input: set<Stored>, gone: set<Key>, kept: seq<Stored>, last: Stored)
    requires Condensed(input, gone, kept) && Owner(last.item) !in gone
    requires forall i | 0 <= i < |kept| :: UniqueOf(kept[i].item) != UniqueOf(last.item)
    ensures Condensed(input + {last}, gone, kept + [last])
  {
    assert Uniques(kept + [last]) == Uniques(kept) + {UniqueOf(last.item)};
    assert UniqueOf(last.item) !in Uniques(kept);
    assert forall x | x in input && UniqueOf(x.item) == UniqueOf(last.item) :: Owner(x.item) in gone;
  }

  lemma EarlierCopy(input: set<Stored>, gone: set<Key>, kept: seq<Stored>, i: nat, last: Stored)
    requires Condensed(input, gone, kept) && Owner(last.item) !in gone && i < |kept|
    requires UniqueOf(kept[i].item) == UniqueOf(last.item) && last.item.event.at < kept[i].item.event.at
    ensures Condensed(input + {last}, gone, kept[i := last])
  {
    var after := kept[i := last];
    forall u | u in Uniques(kept) ensures u in Uniques(after) {
      var r :| r in kept && UniqueOf(r.item) == u;
      var j :| 0 <= j < |kept| && kept[j] == r;
      assert after[j] in after && UniqueOf(after[j].item) == u;
    }
  }

  /** The query's result is one a rewrite may have. */
  lemma {:induction false} MergedIsCondensed(rows: seq<Stored>, gone: set<Key>)
    ensures Condensed((set r | r in rows), gone, Merged(rows, gone))
  {
    hide Condensed, CopyIn, WithCopy;
    if rows == [] {
      assert Condensed({}, gone, []) by { NothingCondensed(gone); }
      assert (set r | r in rows) == {};
    } else {
      var front, last := rows[..|rows| - 1], rows[|rows| - 1];
      MergedIsCondensed(front, gone);
      MergeStep((set r | r in front), gone, Merged(front, gone), last);
      OneMoreMember(front, last);
      assert rows == front + [last];
    }
  }

  lemma OneMoreMember(front: seq<Stored>, last: Stored)
    ensures (set r | r in front + [last]) == (set r | r in front) + {last}
  {
  }

  lemma NothingCondensed(gone: set<Key>)
    ensures Condensed({}, gone, [])
  {
  }

  /** Retire `inputs` for one new file; an empty rewrite leaves no file. */
  function Rewritten(files: Files, inputs: set<FileName>, name: FileName, output: seq<Stored>): Files {
    if output == [] then files - inputs else (files - inputs)[name := output]
  }

  lemma RewrittenReads(files: Files, inputs: set<FileName>, name: FileName, output: seq<Stored>)
    requires name !in files
    ensures Readable(Rewritten(files, inputs, name, output)) == Readable(files - inputs) + (set r | r in output)
  {
    var rest := files - inputs;
    if output != [] {
      assert Rewritten(files, inputs, name, output) == rest + map[name := output];
      AddedFilesRead(rest, map[name := output]);
      assert Readable(map[name := output]) == (set r | r in output) by {
        forall r | r in output ensures r in Readable(map[name := output]) {
          assert name in map[name := output];
        }
      }
    }
  }

  /**
   A rewrite keeps every event not owned by `gone`, adds none, and drops every row
   of its inputs that `gone` owns.
   */
  lemma RewriteKeepsOthers(files: Files, inputs: set<FileName>, name: FileName, gone: set<Key>, output: seq<Stored>, x: Stored)
    requires name !in files && inputs <= files.Keys && Condensed(Input(files, inputs), gone, output)
    ensures var after := Readable(Rewritten(files, inputs, name, output));
            && after <= Readable(files)
            && (x in Readable(files) && Owner(x.item) !in gone ==>
                  exists y :: y in after && UniqueOf(y.item) == UniqueOf(x.item) && Owner(y.item) !in gone && y.item.event.at <= x.item.event.at)
            && (x in after && Owner(x.item) in gone ==> x in Readable(files - inputs))
  {
    RewrittenReads(files, inputs, name, output);
    var after := Readable(Rewritten(files, inputs, name, output));
    forall r | r in after ensures r in Readable(files) {
      if r in output {
        assert r in Input(files, inputs);
      } else {
        var n :| n in files - inputs && r in (files - inputs)[n];
        assert r in files[n];
      }
    }
    if x in Readable(files) && Owner(x.item) !in gone {
      var n :| n in files && x in files[n];
      if n in inputs {
        assert x in Input(files, inputs);
        assert UniqueOf(x.item) in Uniques(output);
        var y :| y in output && UniqueOf(y.item) == UniqueOf(x.item);
        assert y in after;
      } else {
        assert n in files - inputs && x in (files - inputs)[n];
        assert x in after;
      }
    }
  }
}
