/**
 Erasing a person, over every run: what was promised stays true, an erasure that
 crashes interrupt removes exactly that person's events, and when it takes more.
 */
module Erasure {
  import opened Wrappers
  import opened Identity
  import opened Publication
  import opened Pipeline
  import IdentityRuns
  import WalCrash

  // ------------------------------------------------------------ completed erasures

  /** A request is handed over after everything acknowledged was sealed: its mark lies beyond every acknowledged record. */
  lemma RequestCoversAcknowledged(s: System, person: Key, i: nat)
    requires Inv(s) && Enabled(s, RequestErasure(person)) && i in s.wal.acked
    ensures var r := Step(s, RequestErasure(person)); i < r.requests[|r.requests| - 1].mark
  {
    hide WalCrash.Shape, WalCrash.WriterStands, WalCrash.Pending, WalCrash.Unsynced, RowsHonest, NothingMissing, PromisesKept, RequestsSound,
         RewriteOnTrack, DueRowsSwept, FilesPlaced, Valid, Folded, Windows;
    assert i < WalCrash.Durable(s.wal);
  }

  /** The request handed over for a person in state `s`. */
  function RequestFor(s: System, person: Key): Request {
    Request(person, Before(s.wal.listing.next), |WalCrash.Log(s.wal)|)
  }

  /**
   A batch acknowledged before an erasure was requested, in any run: once the request's
   promise is closed for an id, the batch has left the log, and no row of it is readable
   under that id, then or ever after.
   */
  lemma ErasedForGood(actions: seq<Action>, person: Key, more: seq<Action>, i: nat, p: nat, r: Stored)
    requires var s := Run(Start(), actions); Enabled(s, RequestErasure(person)) && i in s.wal.acked
    requires var t := Run(Run(Start(), actions + [RequestErasure(person)]), more);
             && p < |t.promises| && t.promises[p].request == RequestFor(Run(Start(), actions), person)
             && Owner(r.item) in t.promises[p].ids && Owner(r.item) !in t.promises[p].open
             && r in Readable(t.files)
    ensures var t := Run(Run(Start(), actions + [RequestErasure(person)]), more);
            i < |t.wal.published| && r.origin != i
  {
    hide WalCrash.Inv, Readable, Run, Enabled, Step;
    RunKeeps(actions);
    RequestCoversAcknowledged(Run(Start(), actions), person, i);
    RequestIs(Run(Start(), actions), person);
    RunConcat(Start(), actions + [RequestErasure(person)], more);
    RunKeeps(actions + [RequestErasure(person)] + more);
    PromiseHolds(Run(Run(Start(), actions + [RequestErasure(person)]), more), p, r);
  }

  lemma RequestIs(s: System, person: Key)
    requires Valid(s.identity) && Enabled(s, RequestErasure(person))
    ensures var r := Step(s, RequestErasure(person)); |r.requests| > 0 && r.requests[|r.requests| - 1] == RequestFor(s, person)
  {
  }

  lemma PromiseHolds(s: System, p: nat, r: Stored)
    requires Inv(s) && p < |s.promises| && r in Readable(s.files)
    requires Owner(r.item) in s.promises[p].ids && Owner(r.item) !in s.promises[p].open
    ensures s.promises[p].request.mark <= r.origin && s.promises[p].request.mark <= |s.wal.published|
  {
    hide WalCrash.Inv, Readable;
  }

  lemma {:induction false} RunConcat(s: System, a: seq<Action>, b: seq<Action>)
    requires Valid(s.identity)
    ensures Run(s, a + b) == Run(Run(s, a), b)
    decreases |b|
  {
    hide Enabled, Step;
    if b == [] {
      assert a + b == a;
    } else {
      var front, last := b[..|b| - 1], b[|b| - 1];
      assert a + b == (a + front) + [last];
      assert (a + b)[..|a + b| - 1] == a + front;
      RunConcat(s, a, front);
    }
  }

  /** When the person is erased, everything logged before the request has been published: nothing of theirs is still to come. */
  lemma RequestIsPublished(actions: seq<Action>)
    requires Enabled(Run(Start(), actions), ErasePerson)
    ensures var s := Run(Start(), actions); s.publisher.request.mark <= |s.wal.published|
  {
    hide WalCrash.Inv, Readable, Reach, RowsHonest, NothingMissing, PromisesKept, DueRowsSwept, RewriteOnTrack, FilesPlaced, IdentityFollows, Run;
    RunKeeps(actions);
    var s := Run(Start(), actions);
    assert s.publisher.request in Waiting(s);
    PublishedReach(s.wal, s.publisher.request.through);
  }

  /** When the rewrite of a project is done, nothing of the taken ids is stored any more. */
  lemma ClearLeavesNone(s: System, r: Stored)
    requires Inv(s) && Enabled(s, ClearGroup) && r in Readable(s.files)
    ensures Owner(r.item) !in s.publisher.taken
  {
    hide WalCrash.Inv, Readable;
  }

  /** `pending_erasures`: the listed ids by project, at most so many each. */
  method PendingErasures(rows: seq<Key>) returns (groups: seq<set<Key>>)
    requires forall i, j | 0 <= i < j < |rows| :: rows[i] != rows[j]
    ensures Groups((set k | k in rows), groups)
  {
    hide Collects, Groups;
    var grouped: map<string, set<Key>> := map[];
    assert Collects(rows[..0], grouped) by { NothingCollected(rows); }
    for i := 0 to |rows|
      invariant Collects(rows[..i], grouped)
    {
      var k := rows[i];
      var ids := if k.project in grouped then grouped[k.project] else {};
      CollectsMore(rows, i, grouped);
      if |ids| < MAX_PENDING_ERASURES_PER_PROJECT {
        ids := ids + {k};
      }
      grouped := grouped[k.project := ids];
    }
    assert rows[..|rows|] == rows;
    groups := ListGroups(rows, grouped);
  }

  method ListGroups(ghost rows: seq<Key>, grouped: map<string, set<Key>>) returns (groups: seq<set<Key>>)
    requires Collects(rows, grouped)
    ensures Groups((set k | k in rows), groups)
  {
    hide Collects, Groups;
    groups := [];
    var todo := grouped.Keys;
    ghost var projects: seq<string> := [];
    while todo != {}
      invariant todo <= grouped.Keys && |groups| == |projects|
      invariant forall i | 0 <= i < |projects| :: projects[i] in grouped && projects[i] !in todo && groups[i] == grouped[projects[i]]
      invariant forall p | p in grouped && p !in todo :: p in projects
      invariant forall i, j | 0 <= i < j < |projects| :: projects[i] != projects[j]
      decreases |todo|
    {
      var p :| p in todo;
      groups, projects := groups + [grouped[p]], projects + [p];
      todo := todo - {p};
    }
    CollectedGroups(rows, grouped, groups, projects);
  }

  lemma NothingCollected(rows: seq<Key>)
    ensures Collects(rows[..0], map[])
  {
  }

  /** The map the loop over the listed ids fills. */
  ghost predicate Collects(rows: seq<Key>, grouped: map<string, set<Key>>) {
    && (forall p <- grouped :: Collected(rows, p, grouped[p]))
    && (forall k <- rows :: Taken(grouped, k))
  }

  ghost predicate Taken(grouped: map<string, set<Key>>, k: Key) {
    k.project in grouped && (k in grouped[k.project] || |grouped[k.project]| == MAX_PENDING_ERASURES_PER_PROJECT)
  }

  ghost predicate Collected(rows: seq<Key>, p: string, ids: set<Key>) {
    ids != {} && |ids| <= MAX_PENDING_ERASURES_PER_PROJECT && forall k <- ids :: k in rows && k.project == p
  }

  lemma CollectsMore(rows: seq<Key>, i: nat, grouped: map<string, set<Key>>)
    requires i < |rows| && Collects(rows[..i], grouped) && forall a, b | 0 <= a < b < |rows| :: rows[a] != rows[b]
    ensures var k := rows[i];
            var ids := if k.project in grouped then grouped[k.project] else {};
            Collects(rows[..i + 1], grouped[k.project := if |ids| < MAX_PENDING_ERASURES_PER_PROJECT then ids + {k} else ids])
  {
    hide Collected, Taken;
    var k := rows[i];
    var ids := if k.project in grouped then grouped[k.project] else {};
    var more := if |ids| < MAX_PENDING_ERASURES_PER_PROJECT then ids + {k} else ids;
    var after := grouped[k.project := more];
    assert rows[..i + 1] == rows[..i] + [k];
    NotListed(rows, i);
    if k.project in grouped {
      CollectedMore(rows[..i], k, ids);
      StillCollected(rows[..i], k, k.project, ids);
    } else {
      FirstCollected(rows[..i], k);
    }
    forall p | p in after ensures Collected(rows[..i + 1], p, after[p]) {
      if p != k.project { StillCollected(rows[..i], k, p, grouped[p]); }
    }
    forall x | x in rows[..i + 1] ensures Taken(after, x) {
      TakenMore(grouped, k, x);
    }
  }

  lemma TakenMore(grouped: map<string, set<Key>>, k: Key, x: Key)
    requires x == k || Taken(grouped, x)
    requires k.project in grouped ==> |grouped[k.project]| <= MAX_PENDING_ERASURES_PER_PROJECT
    ensures var ids := if k.project in grouped then grouped[k.project] else {};
            Taken(grouped[k.project := if |ids| < MAX_PENDING_ERASURES_PER_PROJECT then ids + {k} else ids], x)
  {
  }

  lemma NotListed(rows: seq<Key>, i: nat)
    requires i < |rows| && forall a, b | 0 <= a < b < |rows| :: rows[a] != rows[b]
    ensures rows[i] !in rows[..i]
  {
  }

  lemma StillCollected(rows: seq<Key>, k: Key, p: string, ids: set<Key>)
    requires Collected(rows, p, ids)
    ensures Collected(rows + [k], p, ids)
  {
  }

  lemma FirstCollected(rows: seq<Key>, k: Key)
    ensures Collected(rows + [k], k.project, {} + {k}) && |{} + {k}| == 1
  {
  }

  lemma CollectedMore(rows: seq<Key>, k: Key, ids: set<Key>)
    requires Collected(rows, k.project, ids) && k !in rows
    ensures |ids| < MAX_PENDING_ERASURES_PER_PROJECT ==> Collected(rows + [k], k.project, ids + {k})
    ensures |ids| <= MAX_PENDING_ERASURES_PER_PROJECT
  {
    assert k !in ids;
    assert |ids + {k}| == |ids| + 1;
  }

  lemma CollectedGroups(rows: seq<Key>, grouped: map<string, set<Key>>, groups: seq<set<Key>>, projects: seq<string>)
    requires Collects(rows, grouped) && |groups| == |projects|
    requires forall i | 0 <= i < |projects| :: projects[i] in grouped && groups[i] == grouped[projects[i]]
    requires forall p <- grouped :: p in projects
    requires forall i, j | 0 <= i < j < |projects| :: projects[i] != projects[j]
    ensures Groups((set k | k in rows), groups)
  {
    forall k | k in rows
      ensures exists i :: 0 <= i < |groups| && OfProject(groups[i], k.project)
                          && (k in groups[i] || |groups[i]| == MAX_PENDING_ERASURES_PER_PROJECT)
    {
      var i :| 0 <= i < |projects| && projects[i] == k.project;
      var x :| x in groups[i];
      assert x.project == k.project;
      assert OfProject(groups[i], k.project);
    }
  }

  // ------------------------------------------- an interrupted erasure finishes first

  predicate Small(ids: set<Key>) {
    |ids| <= MAX_PENDING_ERASURES_PER_PROJECT
  }

  /** The ids an erasure would take now. */
  function PersonsIds(s: System): set<Key> {
    if s.publisher.Through? then IdsOf(s.identity, s.publisher.request.person) else {}
  }

  /** No erased person had more ids than one resumption takes. */
  ghost predicate Within(actions: seq<Action>)
    decreases |actions|
  {
    actions == [] ||
    (&& Within(actions[..|actions| - 1])
     && (actions[|actions| - 1] == ErasePerson ==> Small(PersonsIds(Run(Start(), actions[..|actions| - 1])))))
  }

  /** Whatever is pending is in the publisher's hands, unless it has stopped working on it. */
  ghost predicate Tidy(s: System) {
    && Small(s.pending)
    && match s.publisher
       case Off => true
       case Idle => true
       case Through(_) => s.pending == {}
       case _ => forall k <- s.pending :: InHands(s.publisher, k)
  }

  lemma SubsetIsSmall(a: set<Key>, b: set<Key>)
    requires a <= b
    ensures |a| <= |b| && (|a| == |b| ==> a == b)
  {
    assert b == a + (b - a);
    assert |b| == |a| + |b - a|;
  }

  /** Within the limit, one resumption takes up all that is pending. */
  lemma GroupsAreAll(pending: set<Key>, groups: seq<set<Key>>, k: Key)
    requires Groups(pending, groups) && Small(pending) && k in pending
    ensures exists g <- groups :: k in g
  {
    var i :| 0 <= i < |groups| && OfProject(groups[i], k.project) && (k in groups[i] || |groups[i]| == MAX_PENDING_ERASURES_PER_PROJECT);
    SubsetIsSmall(groups[i], pending);
  }

  lemma StepStaysTidy(s: System, a: Action)
    requires Valid(s.identity) && Tidy(s) && Enabled(s, a)
    requires a == ErasePerson ==> Small(PersonsIds(s))
    ensures Tidy(Step(s, a))
  {
    hide Valid, Tidy, Step, Enabled, Small;
    match a
    case Resume(groups) => ResumeStaysTidy(s, groups);
    case NextGroup => NextStaysTidy(s);
    case ClearId(_) => ClearStaysTidy(s, a);
    case ClearGroup => ClearStaysTidy(s, a);
    case ErasePerson => EraseStaysTidy(s);
    case RewritePartition(_, _) => RewriteStaysTidy(s, a);
    case PublishWindow(_) => PublishStaysTidy(s, a);
    case _ => OtherStaysTidy(s, a);
  }

  lemma ResumeStaysTidy(s: System, groups: seq<set<Key>>)
    requires Valid(s.identity) && Tidy(s) && Enabled(s, Resume(groups))
    ensures Tidy(Step(s, Resume(groups)))
  {
    hide Valid, Groups, Small;
    var r := Step(s, Resume(groups));
    forall k | k in s.pending ensures InHands(r.publisher, k) { GroupsAreAll(s.pending, groups, k); }
  }

  lemma NextStaysTidy(s: System)
    requires Valid(s.identity) && Tidy(s) && Enabled(s, NextGroup)
    ensures Tidy(Step(s, NextGroup))
  {
    hide Valid, Small, PartitionsOf;
    var groups := s.publisher.groups;
    assert groups != [] ==> groups == [groups[0]] + groups[1..];
    var r := Step(s, NextGroup);
    if groups == [] {
      assert s.pending == {};
    } else {
      forall k | k in s.pending ensures InHands(r.publisher, k) {
        assert InHands(s.publisher, k);
      }
    }
  }

  lemma ClearStaysTidy(s: System, a: Action)
    requires Valid(s.identity) && Tidy(s) && Enabled(s, a) && (a.ClearId? || a.ClearGroup?)
    ensures Tidy(Step(s, a))
  {
    hide Valid, PartitionsOf;
    SubsetIsSmall(Step(s, a).pending, s.pending);
  }

  lemma EraseStaysTidy(s: System)
    requires Valid(s.identity) && Tidy(s) && Enabled(s, ErasePerson) && Small(PersonsIds(s))
    ensures Tidy(Step(s, ErasePerson))
  {
    hide Valid, Erase, IdsOf, PartitionsOf, PublishedThrough;
    assert Step(s, ErasePerson).pending == PersonsIds(s);
  }

  lemma RewriteStaysTidy(s: System, a: Action)
    requires Valid(s.identity) && Tidy(s) && Enabled(s, a) && a.RewritePartition?
    ensures Tidy(Step(s, a))
  {
    hide Valid, Small, Condensed, Rewritten, HoldsNoneOf;
    var r := Step(s, a);
    assert forall k :: InHands(s.publisher, k) ==> InHands(r.publisher, k);
  }

  lemma PublishStaysTidy(s: System, a: Action)
    requires Valid(s.identity) && Tidy(s) && Enabled(s, a) && a.PublishWindow?
    ensures Tidy(Step(s, a))
  {
    hide Valid, Small, IdentityRuns.Run, WalCrash.Step, WalCrash.Sealed, NewFiles, FirstCopies, Rows, InHands;
  }

  lemma OtherStaysTidy(s: System, a: Action)
    requires Valid(s.identity) && Tidy(s) && Enabled(s, a)
    requires a.Log? || a.Crash? || a.RequestErasure? || a.ErasureFails? || a.Compact?
    ensures Tidy(Step(s, a))
  {
    hide Valid, Small, WalCrash.Step, Condensed, Rewritten, InHands;
  }

  lemma {:induction false} RunsAreTidy(actions: seq<Action>)
    requires Within(actions)
    ensures Tidy(Run(Start(), actions))
    decreases |actions|
  {
    hide Enabled, Step, Tidy;
    if actions == [] {
      assert Tidy(Start()) by { StartIsTidy(); }
    } else {
      var before := Run(Start(), actions[..|actions| - 1]);
      RunsAreTidy(actions[..|actions| - 1]);
      if Enabled(before, actions[|actions| - 1]) {
        StepStaysTidy(before, actions[|actions| - 1]);
      }
    }
  }

  lemma StartIsTidy()
    ensures Tidy(Start())
  {
  }

  /** Without a failure the publisher is idle only with nothing pending. */
  lemma {:induction false} IdleMeansNonePending(actions: seq<Action>)
    requires Within(actions) && ErasureFails !in actions
    ensures Run(Start(), actions).publisher.Idle? ==> Run(Start(), actions).pending == {}
    decreases |actions|
  {
    hide Enabled, Step, Tidy;
    if actions != [] {
      var front, last := actions[..|actions| - 1], actions[|actions| - 1];
      assert actions == front + [last];
      var before := Run(Start(), front);
      IdleMeansNonePending(front);
      RunsAreTidy(front);
      if Enabled(before, last) {
        StepKeepsIdleClean(before, last);
      }
    }
  }

  lemma StepKeepsIdleClean(s: System, a: Action)
    requires Valid(s.identity) && Tidy(s) && Enabled(s, a) && a != ErasureFails
    requires s.publisher.Idle? ==> s.pending == {}
    ensures Step(s, a).publisher.Idle? ==> Step(s, a).pending == {}
  {
    hide Valid, Groups, Condensed, Rewritten, HoldsNoneOf, IdentityRuns.Run, WalCrash.Step, WalCrash.Sealed, NewFiles, FirstCopies,
         Rows, Erase, IdsOf, PartitionsOf, PublishedThrough;
    if a.NextGroup? && s.publisher.groups == [] {
      assert forall k :: !InHands(s.publisher, k);
    }
  }

  /**
   An erasure a crash interrupted is finished before anything is published: whenever
   the publisher may commit a window, no id is pending.
   */
  lemma PublishingWaitsForErasure(actions: seq<Action>, count: nat)
    requires Within(actions) && ErasureFails !in actions && Enabled(Run(Start(), actions), PublishWindow(count))
    ensures Run(Start(), actions).pending == {}
  {
    hide WalCrash.Sealed;
    RunsAreTidy(actions);
    IdleMeansNonePending(actions);
  }

  /** And an erasure starts with nothing left over from an earlier one, whatever failed before. */
  lemma ErasureStartsClean(actions: seq<Action>)
    requires Within(actions) && Enabled(Run(Start(), actions), ErasePerson)
    ensures Run(Start(), actions).pending == {}
  {
    RunsAreTidy(actions);
  }

  // ------------------------------------------------------------- exactly one person

  /** The event is readable as somebody else's. */
  ghost predicate OthersShow(files: Files, ids: set<Key>, u: Unique) {
    exists r :: r in Readable(files) && UniqueOf(r.item) == u && Owner(r.item) !in ids
  }

  ghost predicate NoneOwned(files: Files, ids: set<Key>) {
    forall r <- Readable(files) :: Owner(r.item) !in ids
  }

  ghost predicate KeepsOthers(files: Files, ids: set<Key>, after: Files) {
    Readable(after) <= Readable(files) && forall u :: OthersShow(after, ids, u) <==> OthersShow(files, ids, u)
  }

  /** Some of `ids` are still pending: all of them, or none of their rows is left. */
  ghost predicate Underway(s: System, ids: set<Key>) {
    && s.pending != {} && s.pending <= ids
    && (s.pending == ids || NoneOwned(s.files, ids))
    && match s.publisher
       case Off => true
       case Resuming(groups, _) => groups == [s.pending]
       case Rewriting(taken, _, groups, _) => groups == [] && s.pending <= taken <= ids && (taken == ids || NoneOwned(s.files, ids))
       case _ => false
  }

  /** All ids of one person form one group. */
  lemma OneGroup(pending: set<Key>, groups: seq<set<Key>>)
    requires Groups(pending, groups) && pending != {} && OneProject(pending) && Small(pending)
    ensures groups == [pending]
  {
    hide Groups, OneProject, Small;
    var k :| k in pending;
    GroupsAreAll(pending, groups, k);
    if |groups| > 1 {
      TwoProjects(pending, groups);
    }
    assert |groups| == 1;
    forall j | j in pending ensures j in groups[0] {
      GroupsAreAll(pending, groups, j);
    }
    GroupsArePending(pending, groups);
    assert groups[0] == pending;
  }

  lemma TwoProjects(pending: set<Key>, groups: seq<set<Key>>)
    requires Groups(pending, groups) && |groups| > 1
    ensures !OneProject(pending)
  {
    assert groups[0] != {} && groups[1] != {};
    var a :| a in groups[0];
    var b :| b in groups[1];
    assert a in pending && b in pending && a.project != b.project;
  }

  lemma RewriteKeepsOthersShown(s: System, p: Partition, ids: set<Key>, output: seq<Stored>)
    requires FilesPlaced(s) && Condensed(Input(s.files, FilesOf(s.files, p)), ids, output)
    ensures KeepsOthers(s.files, ids, Rewritten(s.files, FilesOf(s.files, p), FileName(p, s.generation + 1), output))
  {
    hide Readable, Condensed, Rewritten;
    var name, inputs := FileName(p, s.generation + 1), FilesOf(s.files, p);
    assert name !in s.files;
    var after := Rewritten(s.files, inputs, name, output);
    forall x: Stored
      ensures x in Readable(after) ==> x in Readable(s.files)
      ensures x in Readable(s.files) && Owner(x.item) !in ids ==> OthersShow(after, ids, UniqueOf(x.item))
    {
      RewriteKeepsOthers(s.files, inputs, name, ids, output, x);
    }
  }

  /** Once no row of `ids` is left, no further pass finds one. */
  lemma NothingToRewrite(s: System, p: Partition, ids: set<Key>)
    requires NoneOwned(s.files, ids)
    ensures HoldsNoneOf(s.files, p, ids)
  {
    forall r | r in Input(s.files, FilesOf(s.files, p)) ensures r in Readable(s.files) {
      var n :| n in FilesOf(s.files, p) && n in s.files && r in s.files[n];
    }
  }

  lemma RewriteStaysUnderway(s: System, ids: set<Key>, p: Partition, output: seq<Stored>)
    requires Inv(s) && Underway(s, ids) && Enabled(s, RewritePartition(p, output))
    ensures var r := Step(s, RewritePartition(p, output)); KeepsOthers(s.files, ids, r.files) && Underway(r, ids)
  {
    hide WalCrash.Inv, Readable, Condensed, Rewritten, PromisesKept, RequestsSound, Folded, Windows, Valid, NothingMissing, HoldsNoneOf,
         RowsHonest, DueRowsSwept, RewriteOnTrack, Input, FilesOf;
    if NoneOwned(s.files, ids) {
      NothingToRewrite(s, p, s.publisher.taken);
    }
    if !HoldsNoneOf(s.files, p, s.publisher.taken) {
      RewriteKeepsOthersShown(s, p, ids, output);
    }
  }

  lemma ClearStaysUnderway(s: System, ids: set<Key>, a: Action)
    requires Inv(s) && Underway(s, ids) && Enabled(s, a) && (a.ClearId? || a.ClearGroup?)
    ensures var r := Step(s, a); r.files == s.files && NoneOwned(r.files, ids) && (r.pending != {} ==> Underway(r, ids))
  {
    hide WalCrash.Inv, Readable, PromisesKept, RequestsSound, Folded, Windows, Valid, NothingMissing, RowsHonest, DueRowsSwept;
  }

  lemma PhaseStaysUnderway(s: System, ids: set<Key>, a: Action)
    requires Valid(s.identity) && Underway(s, ids) && Small(ids) && OneProject(ids) && Enabled(s, a)
    requires a.Log? || a.Crash? || a.RequestErasure? || a.Resume? || a.NextGroup?
    ensures Step(s, a).files == s.files && Underway(Step(s, a), ids)
  {
    hide Valid, Readable, WalCrash.Step, PartitionsOf, Groups, NoneOwned;
    if a.Resume? {
      SubsetIsSmall(s.pending, ids);
      OneGroup(s.pending, a.groups);
    }
  }

  lemma StepStaysUnderway(s: System, ids: set<Key>, a: Action)
    requires Inv(s) && Underway(s, ids) && Small(ids) && OneProject(ids)
    requires Enabled(s, a) && a != ErasureFails
    ensures var r := Step(s, a);
            KeepsOthers(s.files, ids, r.files) && (if r.pending != {} then Underway(r, ids) else NoneOwned(r.files, ids))
  {
    hide Step, Groups, Condensed, WalCrash.Inv, Readable;
    match a
    case RewritePartition(p, output) => RewriteStaysUnderway(s, ids, p, output);
    case ClearId(_) => ClearStaysUnderway(s, ids, a);
    case ClearGroup => ClearStaysUnderway(s, ids, a);
    case Log(_) => PhaseStaysUnderway(s, ids, a);
    case Crash(_, _) => PhaseStaysUnderway(s, ids, a);
    case RequestErasure(_) => PhaseStaysUnderway(s, ids, a);
    case Resume(_) => PhaseStaysUnderway(s, ids, a);
    case NextGroup => PhaseStaysUnderway(s, ids, a);
    case _ =>
  }

  /** The first `k` actions of the erasure leave some id pending, for every `k` short of all. */
  ghost predicate PendingThroughout(s: System, actions: seq<Action>)
    requires Valid(s.identity)
  {
    forall k | 0 <= k < |actions| :: Run(s, actions[..k]).pending != {}
  }

  lemma {:induction false} RunStaysUnderway(s: System, ids: set<Key>, actions: seq<Action>)
    requires Inv(s) && Small(ids) && OneProject(ids) && (if s.pending != {} then Underway(s, ids) else NoneOwned(s.files, ids))
    requires PendingThroughout(s, actions) && ErasureFails !in actions
    ensures var r := Run(s, actions);
            && Inv(r) && KeepsOthers(s.files, ids, r.files)
            && (if r.pending != {} then Underway(r, ids) else NoneOwned(r.files, ids))
    decreases |actions|
  {
    assert Valid(s.identity);
    hide Inv, Underway, Enabled, Step, Readable, OthersShow, NoneOwned, KeepsOthers, Small, OneProject, Valid;
    OthersKept(s.files, ids, s.files, s.files);
    if actions != [] {
      var front, last := actions[..|actions| - 1], actions[|actions| - 1];
      assert actions == front + [last];
      forall k | 0 <= k < |front| ensures Run(s, front[..k]).pending != {} {
        assert front[..k] == actions[..k];
      }
      RunStaysUnderway(s, ids, front);
      var before := Run(s, front);
      assert before.pending != {} by { assert actions[..|front|] == front; }
      if Enabled(before, last) {
        StepKeeps(before, last);
        StepStaysUnderway(before, ids, last);
        OthersKept(s.files, ids, before.files, Step(before, last).files);
      }
    }
  }

  lemma OthersKept(a: Files, ids: set<Key>, b: Files, c: Files)
    ensures KeepsOthers(a, ids, a)
    ensures KeepsOthers(a, ids, b) && KeepsOthers(b, ids, c) ==> KeepsOthers(a, ids, c)
  {
    hide Readable, OthersShow;
  }

  lemma ErasureBegins(s: System)
    requires Inv(s) && Enabled(s, ErasePerson) && s.pending == {}
    ensures var r, ids := Step(s, ErasePerson), PersonsIds(s);
            && r.files == s.files && OneProject(ids)
            && (if r.pending != {} then Underway(r, ids) else NoneOwned(r.files, ids))
  {
    hide WalCrash.Inv, Readable, Erase, PartitionsOf, PromisesKept, RequestsSound, Folded, Windows, NothingMissing, RowsHonest;
    assert Step(s, ErasePerson).pending == PersonsIds(s);
  }

  /**
   However often crashes interrupt it, once an erasure is complete the readable events
   are exactly those somebody else's row carried when the erasure was committed.
   */
  lemma ErasureIsExact(actions: seq<Action>, more: seq<Action>, u: Unique)
    requires Within(actions + [ErasePerson]) && Enabled(Run(Start(), actions), ErasePerson)
    requires ErasureFails !in more
    requires var erased := Step(Run(Start(), actions), ErasePerson);
             PendingThroughout(erased, more) && Run(erased, more).pending == {}
    ensures var s := Run(Start(), actions);
            var done := Run(Step(s, ErasePerson), more);
            && (Shown(done.files, u) <==> OthersShow(s.files, PersonsIds(s), u))
            && Readable(done.files) <= Readable(s.files)
            && (forall r <- Readable(done.files) :: Owner(r.item) !in PersonsIds(s))
  {
    hide Inv, Underway, Enabled, Step, Readable;
    assert (actions + [ErasePerson])[..|actions|] == actions;
    var s := Run(Start(), actions);
    RunKeeps(actions);
    ErasureStartsClean(actions);
    StepKeeps(s, ErasePerson);
    ErasureBegins(s);
    var erased, ids := Step(s, ErasePerson), PersonsIds(s);
    RunStaysUnderway(erased, ids, more);
    assert forall r <- Readable(Run(erased, more).files) :: Owner(r.item) !in ids;
  }

  // --------------------------------------------------------- when it takes too much

  /** Log position of the commit that last took this id, or 0. */
  function ErasedAt(commits: seq<Commit>, k: Key): nat {
    if commits == [] then 0
    else
      var front, last := commits[..|commits| - 1], commits[|commits| - 1];
      if last.Erased? && k in IdsOf(Folded(front), last.person) then |Windows(front)| else ErasedAt(front, k)
  }

  /** A pending erasure is about to remove a row published after the erasure's own commit. */
  ghost predicate TakesTooMuch(s: System) {
    exists r :: r in Readable(s.files) && Owner(r.item) in s.pending && ErasedAt(s.commits, Owner(r.item)) <= r.origin
  }

  /** The window about to be committed holds a row of the pending id `k`. */
  ghost predicate PublishesPending(s: System, a: Action, k: Key) {
    a.PublishWindow? && Enabled(s, a) && k in s.pending && k in Owners(FirstCopies(WindowRows(s, a.count)))
  }

  /** What a caller can check before committing each window: none of its rows belongs to a pending id. */
  ghost predicate Guarded(actions: seq<Action>) {
    forall t, k | 0 <= t < |actions| :: !PublishesPending(Run(Start(), actions[..t]), actions[t], k)
  }

  lemma {:induction false} ErasedAtIsPast(commits: seq<Commit>, k: Key)
    ensures ErasedAt(commits, k) <= |Windows(commits)|
  {
    hide Folded;
    if commits != [] {
      ErasedAtIsPast(commits[..|commits| - 1], k);
    }
  }

  /** What `swept` means, in every run: the last erase commit that took the id, and later windows committed while it was pending. */
  ghost predicate SweptFor(actions: seq<Action>, k: Key, position: nat) {
    || position < ErasedAt(Run(Start(), actions).commits, k)
    || exists t | 0 <= t < |actions| ::
         PublishesPending(Run(Start(), actions[..t]), actions[t], k) && position < |Run(Start(), actions[..t + 1]).wal.published|
  }

  lemma StepSweeps(s: System, a: Action, k: Key, position: nat)
    requires Inv(s) && Enabled(s, a)
    ensures var r := Step(s, a);
            && (Swept(r, k, position) ==>
                  || (PublishesPending(s, a, k) && position < |r.wal.published|)
                  || position < ErasedAt(r.commits, k)
                  || Swept(s, k, position))
            && (ErasedAt(s.commits, k) <= ErasedAt(r.commits, k))
  {
    hide WalCrash.Inv, Readable, PromisesKept, RequestsSound, NothingMissing, RowsHonest, WalCrash.Step, WalCrash.Sealed, NewFiles,
         FirstCopies, Rows, IdentityRuns.Run, Erase, Condensed, Rewritten, HoldsNoneOf, Groups, PartitionsOf, Folded, Windows, Valid, IdsOf;
    var r := Step(s, a);
    if a.PublishWindow? {
      PublishSweeps(s, a.count);
      assert r.commits[..|s.commits|] == s.commits;
    } else if a.ErasePerson? {
      assert r.commits[..|s.commits|] == s.commits;
      ErasedAtIsPast(s.commits, k);
    }
  }

  lemma PublishSweeps(s: System, count: nat)
    requires Inv(s) && Enabled(s, PublishWindow(count))
    ensures var r := Step(s, PublishWindow(count));
            && r.swept == s.swept + (map k | k in Owners(FirstCopies(WindowRows(s, count))) * s.pending :: |s.wal.published| + count)
            && |r.wal.published| == |s.wal.published| + count
            && (exists batches :: r.commits == s.commits + [Window(batches)])
  {
    hide WalCrash.Inv, WalCrash.Step, WalCrash.Sealed, Readable, IdentityRuns.Run, Valid, FirstCopies, NewFiles, Rows, Effects;
    PublishedLog(s, count);
    assert Step(s, PublishWindow(count)).commits == s.commits + [Window(WalCrash.Sealed(s.wal)[..count])];
  }

  lemma {:induction false} SweptMeans(actions: seq<Action>, k: Key, position: nat)
    requires Swept(Run(Start(), actions), k, position)
    ensures SweptFor(actions, k, position)
    decreases |actions|
  {
    hide Inv, Enabled, Step, PublishesPending, Swept, ErasedAt, SweptFor;
    if actions == [] {
      NothingSwept(k, position);
    } else {
      var front, last := actions[..|actions| - 1], actions[|actions| - 1];
      var s := Run(Start(), front);
      RunKeeps(front);
      if Enabled(s, last) {
        StepSweeps(s, last, k, position);
        if !Swept(s, k, position) {
          SweptNow(actions, k, position);
        }
      }
      if Swept(s, k, position) {
        SweptMeans(front, k, position);
        SweptStill(actions, k, position);
      }
    }
  }

  lemma SweptNow(actions: seq<Action>, k: Key, position: nat)
    requires actions != []
    requires var n := |actions| - 1;
             var s := Run(Start(), actions[..n]);
             || (PublishesPending(s, actions[n], k) && position < |Run(Start(), actions).wal.published|)
             || position < ErasedAt(Run(Start(), actions).commits, k)
    ensures SweptFor(actions, k, position)
  {
    hide Run, PublishesPending, ErasedAt;
    assert actions[..|actions|] == actions;
  }

  lemma SweptStill(actions: seq<Action>, k: Key, position: nat)
    requires actions != [] && SweptFor(actions[..|actions| - 1], k, position)
    requires ErasedAt(Run(Start(), actions[..|actions| - 1]).commits, k) <= ErasedAt(Run(Start(), actions).commits, k)
    ensures SweptFor(actions, k, position)
  {
    hide Run, PublishesPending, ErasedAt;
    var front := actions[..|actions| - 1];
    if t :| 0 <= t < |front| && PublishesPending(Run(Start(), front[..t]), front[t], k) && position < |Run(Start(), front[..t + 1]).wal.published| {
      assert front[..t] == actions[..t] && front[..t + 1] == actions[..t + 1];
    }
  }

  lemma NothingSwept(k: Key, position: nat)
    ensures !Swept(Run(Start(), []), k, position)
  {
  }

  /** In a guarded run only the erase commits themselves decide what may go. */
  lemma GuardedSweeps(actions: seq<Action>, k: Key, position: nat)
    requires Guarded(actions) && Swept(Run(Start(), actions), k, position)
    ensures position < ErasedAt(Run(Start(), actions).commits, k)
  {
    hide Inv, Enabled, Step, PublishesPending, Swept, ErasedAt, Run;
    SweptMeans(actions, k, position);
  }

  /** So an event is lost only if a copy of it was published before the commit of an erasure that took its id. */
  lemma GuardedLosses(actions: seq<Action>, u: Unique)
    requires Guarded(actions) && LostToErasure(Run(Start(), actions), u)
    ensures var s := Run(Start(), actions);
            exists j, z :: 0 <= j < |s.wal.published| && z in s.wal.published[j] && UniqueOf(z) == u && j < ErasedAt(s.commits, Owner(z))
  {
    hide Run, Guarded, ErasedAt, Swept;
    var s := Run(Start(), actions);
    var j, z :| 0 <= j < |s.wal.published| && z in s.wal.published[j] && UniqueOf(z) == u && Swept(s, Owner(z), j);
    GuardedSweeps(actions, Owner(z), j);
  }

  /** In a guarded run every row an erasing rewrite removes was published before the commit that took its id. */
  lemma GuardedRemovals(actions: seq<Action>, r: Stored)
    requires Guarded(actions)
    requires var s := Run(Start(), actions); r in Readable(s.files) && Due(s, Owner(r.item))
    ensures r.origin < ErasedAt(Run(Start(), actions).commits, Owner(r.item))
  {
    hide Run, Guarded, ErasedAt, Readable, WalCrash.Inv, Swept;
    RunKeeps(actions);
    GuardedSweeps(actions, Owner(r.item), r.origin);
  }

  lemma PublishedLate(s: System, a: Action, r: Stored)
    requires Inv(s) && PublishesPending(s, a, Owner(r.item)) && r in FirstCopies(WindowRows(s, a.count))
    ensures var after := Step(s, a);
            && r in Readable(after.files) && Owner(r.item) in after.pending && ErasedAt(after.commits, Owner(r.item)) <= r.origin
            && r.origin < |after.wal.published|
  {
    hide WalCrash.Inv, Readable, FirstCopies, NewFiles, Rows, WalCrash.Sealed, WalCrash.Step, IdentityRuns.Run, Folded, Windows, Valid,
         NothingMissing, PromisesKept, RequestsSound, RewriteOnTrack, RowsHonest;
    var rows := WindowRows(s, a.count);
    PublishSweeps(s, a.count);
    IsPublished(s, a.count);
    WindowReads(s, a.count);
    FirstCopiesCover(rows);
    RowsMembers(WalCrash.Sealed(s.wal)[..a.count], |s.wal.published|, r);
    ErasedAtIsPast(s.commits, Owner(r.item));
    var after := Step(s, a);
    assert after.commits[..|s.commits|] == s.commits;
  }

  /** A window that commits a row of a pending id puts it in reach of that erasure. */
  lemma PublishedTooLate(s: System, a: Action, k: Key)
    requires Inv(s) && PublishesPending(s, a, k)
    ensures TakesTooMuch(Step(s, a))
  {
    hide Inv, Step, FirstCopies, Readable, ErasedAt, Valid, Groups;
    var r :| r in FirstCopies(WindowRows(s, a.count)) && Owner(r.item) == k;
    PublishedLate(s, a, r);
  }

  /**
   Exactly when erasures remain exact: at no point of a run is a row published after
   an erasure's commit in reach of that erasure, if and only if no window ever
   commits a row of an id that is pending at that moment.
   */
  lemma ExactIffGuarded(actions: seq<Action>)
    ensures (forall t | 0 <= t <= |actions| :: !TakesTooMuch(Run(Start(), actions[..t]))) <==> Guarded(actions)
  {
    hide Inv, Enabled, Step, Run, PublishesPending, TakesTooMuch;
    if Guarded(actions) {
      forall t | 0 <= t <= |actions| ensures !TakesTooMuch(Run(Start(), actions[..t])) {
        forall n, k | 0 <= n < t ensures !PublishesPending(Run(Start(), actions[..t][..n]), actions[..t][n], k) {
          assert actions[..t][..n] == actions[..n];
        }
        GuardedTakesNoMore(actions[..t]);
      }
    } else {
      var t, k :| 0 <= t < |actions| && PublishesPending(Run(Start(), actions[..t]), actions[t], k);
      RunKeeps(actions[..t]);
      PublishedTooLate(Run(Start(), actions[..t]), actions[t], k);
      RunTakesStep(actions, t, k);
    }
  }

  lemma RunTakesStep(actions: seq<Action>, t: nat, k: Key)
    requires t < |actions| && PublishesPending(Run(Start(), actions[..t]), actions[t], k)
    ensures Run(Start(), actions[..t + 1]) == Step(Run(Start(), actions[..t]), actions[t])
  {
    hide Enabled, Step;
    assert Enabled(Run(Start(), actions[..t]), actions[t]);
    assert actions[..t + 1][..t] == actions[..t];
  }

  lemma GuardedTakesNoMore(actions: seq<Action>)
    requires Guarded(actions)
    ensures !TakesTooMuch(Run(Start(), actions))
  {
    hide Guarded, Run, ErasedAt, Readable;
    var s := Run(Start(), actions);
    if r :| r in Readable(s.files) && Owner(r.item) in s.pending && ErasedAt(s.commits, Owner(r.item)) <= r.origin {
      GuardedRemovals(actions, r);
      assert false;
    }
  }

  /** A row that has disappeared does not come back. */
  lemma StepKeepsGone(s: System, a: Action, r: Stored)
    requires Inv(s) && Enabled(s, a) && r.origin < |s.wal.published|
    ensures r.origin < |Step(s, a).wal.published|
    ensures r !in Readable(s.files) ==> r !in Readable(Step(s, a).files)
  {
    hide WalCrash.Inv, Readable, PromisesKept, RequestsSound, NothingMissing, RowsHonest, WalCrash.Sealed, NewFiles,
         FirstCopies, Rows, IdentityRuns.Run, Erase, Condensed, Rewritten, HoldsNoneOf, Groups, PartitionsOf, Folded, Windows, Valid, IdsOf,
         RewriteOnTrack, DueRowsSwept, WalCrash.Step;
    match a
    case PublishWindow(count) =>
      PublishSweeps(s, count);
      IsPublished(s, count);
      WindowReads(s, count);
      FirstCopiesCover(WindowRows(s, count));
      RowsMembers(WalCrash.Sealed(s.wal)[..count], |s.wal.published|, r);
    case RewritePartition(p, output) =>
      var name := FileName(p, s.generation + 1);
      assert name !in s.files;
      if !HoldsNoneOf(s.files, p, s.publisher.taken) {
        RewriteKeepsOthers(s.files, FilesOf(s.files, p), name, s.publisher.taken, output, r);
      }
    case Compact(inputs, p, output) =>
      var name := FileName(p, s.generation + 1);
      assert name !in s.files;
      RewriteKeepsOthers(s.files, inputs, name, {}, output, r);
    case Log(step) => WriterKeepsPublished(s.wal, step);
    case Crash(_, _) => CrashKeepsPublished(s, a);
    case _ =>
  }

  lemma CrashKeepsPublished(s: System, a: Action)
    requires Valid(s.identity) && a.Crash?
    ensures Step(s, a).wal.published == s.wal.published
  {
    hide Valid, WalCrash.AfterCrash;
  }

  /** An id stops being pending only when none of its rows is left. */
  lemma LeavesPendingEmpty(s: System, a: Action, r: Stored)
    requires Inv(s) && Enabled(s, a) && Owner(r.item) in s.pending && Owner(r.item) !in Step(s, a).pending
    ensures r !in Readable(s.files)
  {
    hide WalCrash.Inv, Readable, PromisesKept, RequestsSound, NothingMissing, RowsHonest, WalCrash.Step, WalCrash.Sealed, NewFiles,
         FirstCopies, Rows, IdentityRuns.Run, Erase, Condensed, Rewritten, HoldsNoneOf, Groups, PartitionsOf, Folded, Windows, Valid, IdsOf;
    if r in Readable(s.files) {
      ClearLeavesNone(s, r);
    }
  }

  lemma {:induction false} PendingRowsGo(s: System, more: seq<Action>, r: Stored)
    requires Inv(s) && r.origin < |s.wal.published| && Owner(r.item) in s.pending
    ensures var t := Run(s, more);
            Inv(t) && r.origin < |t.wal.published| && (Owner(r.item) in t.pending || r !in Readable(t.files))
    decreases |more|
  {
    assert Valid(s.identity);
    hide Inv, Enabled, Step, Readable;
    if more != [] {
      var front, last := more[..|more| - 1], more[|more| - 1];
      PendingRowsGo(s, front, r);
      var before := Run(s, front);
      if Enabled(before, last) {
        StepKeeps(before, last);
        StepKeepsGone(before, last, r);
        if Owner(r.item) in before.pending && Owner(r.item) !in Step(before, last).pending {
          LeavesPendingEmpty(before, last, r);
        }
      }
    }
  }

  /**
   Otherwise the erasure does take it: a row committed under a pending id is readable
   and newer than the erasure's commit, and whatever happens next, it is gone as soon
   as the id is no longer pending.
   */
  lemma LateRowIsRemoved(actions: seq<Action>, a: Action, more: seq<Action>, r: Stored)
    requires var s := Run(Start(), actions);
             PublishesPending(s, a, Owner(r.item)) && r in FirstCopies(WindowRows(s, a.count))
    ensures var after := Step(Run(Start(), actions), a);
            && r in Readable(after.files) && ErasedAt(after.commits, Owner(r.item)) <= r.origin
            && (Owner(r.item) !in Run(after, more).pending ==> r !in Readable(Run(after, more).files))
  {
    hide Inv, Enabled, Step, Readable, Run, FirstCopies, PublishesPending, ErasedAt, WindowRows;
    RunKeeps(actions);
    var s := Run(Start(), actions);
    PublishesWindow(s, a, Owner(r.item));
    StepKeeps(s, a);
    PublishedLate(s, a, r);
    PendingRowsGo(Step(s, a), more, r);
  }

  lemma PublishesWindow(s: System, a: Action, k: Key)
    requires PublishesPending(s, a, k)
    ensures a.PublishWindow? && Enabled(s, a)
  {
  }
}
