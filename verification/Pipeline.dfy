/**
 The whole durable pipeline as one state machine: the log of `WalCrash`, the
 publisher's catalog transactions, compaction, and erasures that span crashes.
 Catalog transactions are atomic; everything between two of them may be cut by a crash.
 */
module Pipeline {
  import opened Wrappers
  import opened Identity
  import opened Publication
  import IdentityRuns
  import WalCrash

  /** Distinct ids one recovery step takes per project. */
  const MAX_PENDING_ERASURES_PER_PROJECT := 10_000

  /** An erasure handed over by the writer: `mark` log entries were sealed by then, in segments up to `through`. */
  datatype Request = Request(person: Key, through: nat, mark: nat)

  datatype Then = Boot | Done | Serve(request: Request)

  datatype Publisher =
    | Off
    | Idle
    | Resuming(groups: seq<set<Key>>, next: Then)
    | Rewriting(taken: set<Key>, todo: set<Partition>, groups: seq<set<Key>>, next: Then)
    | Through(request: Request)

  /** What has been promised about an erasure: no row of `ids - open` older than the request's mark is readable. */
  datatype Promise = Promise(request: Request, ids: set<Key>, open: set<Key>)

  /** What the catalog has committed so far. */
  datatype Commit = Window(batches: seq<Batch>) | Erased(person: Key)

  /**
   `promises` and `swept` are bookkeeping for the statements below: `swept` is the log
   position below which stored rows of an erased id were, or are, due to be removed.
   */
  datatype System = System(
    wal: WalCrash.Wal<Batch>,
    files: Files,
    generation: nat,
    identity: Identity.State,
    pending: set<Key>,
    publisher: Publisher,
    requests: seq<Request>,
    commits: seq<Commit>,
    promises: seq<Promise>,
    swept: map<Key, nat>)

  function Start(): System {
    System(WalCrash.Fresh(), map[], 0, Empty, {}, Off, [], [], [], map[])
  }

  // --------------------------------------------------------------------- actions

  datatype Action =
    | Log(step: WalCrash.Action<Batch>)
    | Crash(kept: nat, cut: nat)
    | PublishWindow(count: nat)
    | RequestErasure(person: Key)
    | Resume(groups: seq<set<Key>>)
    | NextGroup
    | RewritePartition(partition: Partition, output: seq<Stored>)
    | ClearId(id: Key)
    | ClearGroup
    | ErasePerson
    | ErasureFails
    | Compact(inputs: set<FileName>, partition: Partition, output: seq<Stored>)

  /** The log's own steps: everything but committing a window and crashing, which involve the catalog too. */
  predicate WriterStep(a: WalCrash.Action<Batch>) {
    !a.Commit? && !a.Crash?
  }

  /** The pending ids one resumption takes up: grouped by project, at most so many each. */
  ghost predicate Groups(pending: set<Key>, groups: seq<set<Key>>) {
    && (forall i | 0 <= i < |groups| :: groups[i] != {} && groups[i] <= pending && OneProject(groups[i])
                                        && |groups[i]| <= MAX_PENDING_ERASURES_PER_PROJECT)
    && (forall k <- pending :: exists i :: 0 <= i < |groups| && OfProject(groups[i], k.project)
                                         && (k in groups[i] || |groups[i]| == MAX_PENDING_ERASURES_PER_PROJECT))
    && (forall i, j, a, b | 0 <= i < j < |groups| && a in groups[i] && b in groups[j] :: a.project != b.project)
  }

  ghost predicate OneProject(ids: set<Key>) {
    forall a <- ids, b <- ids :: a.project == b.project
  }

  ghost predicate OfProject(ids: set<Key>, project: string) {
    exists k :: k in ids && k.project == project
  }

  function FilesOf(files: Files, p: Partition): set<FileName> {
    set n | n in files && n.partition == p
  }

  /** Partitions of the projects those ids belong to. */
  function PartitionsOf(files: Files, ids: set<Key>): set<Partition> {
    set n, k | n in files && k in ids && n.partition.project == k.project :: n.partition
  }

  /** Everything sealed when the erasure was requested is published, or nothing sealed is left. */
  predicate PublishedThrough(w: WalCrash.Wal<Batch>, through: nat) {
    w.checkpoint.segment > through || WalCrash.Sealed(w) == []
  }

  predicate MayPublish(p: Publisher) {
    p.Idle? || p.Through?
  }

  /** The catalog transaction of one window. */
  function Published(s: System, count: nat): (r: System)
    requires Valid(s.identity)
    requires count <= |WalCrash.Sealed(s.wal)|
    ensures Valid(r.identity)
  {
    var window := WalCrash.Sealed(s.wal)[..count];
    var rows := FirstCopies(Rows(window, |s.wal.published|));
    s.(wal := WalCrash.Step(s.wal, WalCrash.Commit(count)),
       files := s.files + NewFiles(rows, s.generation + 1),
       generation := s.generation + 1,
       identity := IdentityRuns.Run(s.identity, Effects(rows)),
       commits := s.commits + [Window(window)],
       swept := s.swept + map k | k in Owners(rows) * s.pending :: |s.wal.published| + count)
  }

  function Owners(rows: seq<Stored>): set<Key> {
    set r | r in rows :: Owner(r.item)
  }

  /** The catalog transaction that removes the person and lists their ids as pending. */
  function PersonErased(s: System, request: Request): (r: System)
    requires Valid(s.identity)
    ensures Valid(r.identity)
  {
    var ids := IdsOf(s.identity, request.person);
    s.(identity := Erase(s.identity, request.person),
       pending := s.pending + ids,
       publisher := Rewriting(ids, PartitionsOf(s.files, ids), [], Done),
       commits := s.commits + [Erased(request.person)],
       promises := s.promises + [Promise(request, ids, ids)],
       swept := s.swept + map k | k in ids :: |s.wal.published|)
  }

  function Cleared(promises: seq<Promise>, taken: set<Key>): seq<Promise> {
    seq(|promises|, i requires 0 <= i < |promises| => promises[i].(open := promises[i].open - taken))
  }

  /** The seal succeeded, or there was nothing to seal: the open segment is empty. */
  predicate SealedAll(w: WalCrash.Wal<Batch>) {
    w.writer == WalCrash.Ready && w.serving && WalCrash.At(w, w.listing.next) == []
  }

  ghost predicate Enabled(s: System, a: Action) {
    match a
    case Log(step) => WriterStep(step)
    case Crash(_, _) => true
    case PublishWindow(count) => MayPublish(s.publisher) && s.wal.serving && 1 <= count <= |WalCrash.Sealed(s.wal)|
    case RequestErasure(_) => SealedAll(s.wal)
    case Resume(groups) =>
      && s.wal.serving && Groups(s.pending, groups)
      && (s.publisher.Off? || (s.publisher.Idle? && s.requests != []))
    case NextGroup => s.publisher.Resuming?
    case RewritePartition(p, output) =>
      && s.publisher.Rewriting? && p in s.publisher.todo
      && (HoldsNoneOf(s.files, p, s.publisher.taken)
          || Condensed(Input(s.files, FilesOf(s.files, p)), s.publisher.taken, output))
    case ClearId(id) => s.publisher.Rewriting? && s.publisher.todo == {} && id in s.publisher.taken
    case ClearGroup => s.publisher.Rewriting? && s.publisher.todo == {}
    case ErasePerson => s.publisher.Through? && PublishedThrough(s.wal, s.publisher.request.through)
    case ErasureFails => s.publisher.Through? || (s.publisher.Resuming? && !s.publisher.next.Boot?) || (s.publisher.Rewriting? && !s.publisher.next.Boot?)
    case Compact(inputs, p, output) =>
      && s.publisher.Idle? && inputs <= FilesOf(s.files, p) && inputs != {}
      && Condensed(Input(s.files, inputs), {}, output)
  }

  function Before(segment: nat): nat {
    if segment == 0 then 0 else segment - 1
  }

  /** The count query found no row of those ids in the partition. */
  predicate HoldsNoneOf(files: Files, p: Partition, ids: set<Key>) {
    forall r <- Input(files, FilesOf(files, p)) :: Owner(r.item) !in ids
  }

  function Step(s: System, a: Action): (r: System)
    requires Valid(s.identity) && Enabled(s, a)
    ensures Valid(r.identity)
  {
    match a
    case Log(step) => s.(wal := WalCrash.Step(s.wal, step))
    case Crash(kept, cut) => s.(wal := WalCrash.Step(s.wal, WalCrash.Action.Crash(kept, cut)), publisher := Off, requests := [])
    case PublishWindow(count) => Published(s, count)
    case RequestErasure(person) =>
      s.(requests := s.requests + [Request(person, Before(s.wal.listing.next), |WalCrash.Log(s.wal)|)])
    case Resume(groups) =>
      if s.publisher.Off? then s.(publisher := Resuming(groups, Boot))
      else s.(publisher := Resuming(groups, Serve(s.requests[0])), requests := s.requests[1..])
    case NextGroup =>
      if s.publisher.groups != [] then
        var taken := s.publisher.groups[0];
        s.(publisher := Rewriting(taken, PartitionsOf(s.files, taken), s.publisher.groups[1..], s.publisher.next))
      else if s.publisher.next.Serve? then s.(publisher := Through(s.publisher.next.request))
      else s.(publisher := Idle)
    case RewritePartition(p, output) =>
      var todo := s.publisher.(todo := s.publisher.todo - {p});
      var inputs := FilesOf(s.files, p);
      if HoldsNoneOf(s.files, p, s.publisher.taken) then s.(publisher := todo)
      else s.(publisher := todo, files := Rewritten(s.files, inputs, FileName(p, s.generation + 1), output), generation := s.generation + 1)
    case ClearId(id) => s.(pending := s.pending - {id}, promises := Cleared(s.promises, {id}))
    case ClearGroup =>
      s.(pending := s.pending - s.publisher.taken,
         promises := Cleared(s.promises, s.publisher.taken),
         publisher := Resuming(s.publisher.groups, s.publisher.next))
    case ErasePerson => PersonErased(s, s.publisher.request)
    case ErasureFails => s.(publisher := Idle)
    case Compact(inputs, p, output) =>
      s.(files := Rewritten(s.files, inputs, FileName(p, s.generation + 1), output), generation := s.generation + 1)
  }

  ghost function Run(s: System, actions: seq<Action>): System
    requires Valid(s.identity)
    ensures Valid(Run(s, actions).identity)
    decreases |actions|
  {
    if actions == [] then s
    else
      var before := Run(s, actions[..|actions| - 1]);
      var a := actions[|actions| - 1];
      if Enabled(before, a) then Step(before, a) else before
  }

  // ------------------------------------------------------------------- invariant

  /** Every readable row is a published event, and says which record brought it. */
  ghost predicate RowsHonest(s: System) {
    forall r <- Readable(s.files) :: r.origin < |s.wal.published| && r.item in s.wal.published[r.origin]
  }

  ghost predicate Shown(files: Files, u: Unique) {
    exists r :: r in Readable(files) && UniqueOf(r.item) == u
  }

  /** A copy of the event was published under an id whose erasure reaches past that copy. */
  ghost predicate LostToErasure(s: System, u: Unique) {
    exists j, z :: 0 <= j < |s.wal.published| && z in s.wal.published[j] && UniqueOf(z) == u && Swept(s, Owner(z), j)
  }

  predicate Swept(s: System, k: Key, position: nat) {
    k in s.swept && position < s.swept[k]
  }

  /** Every published event is readable, unless an erasure took it. */
  ghost predicate NothingMissing(s: System) {
    forall i, x | 0 <= i < |s.wal.published| && x in s.wal.published[i] :: Shown(s.files, UniqueOf(x)) || LostToErasure(s, UniqueOf(x))
  }

  ghost predicate FilesPlaced(s: System) {
    forall n <- s.files :: n.generation <= s.generation && forall r <- s.files[n] :: PartitionOf(r.item) == n.partition
  }

  ghost predicate PromisesKept(s: System) {
    forall i | 0 <= i < |s.promises| ::
      && s.promises[i].open <= s.pending && s.promises[i].request.mark <= |s.wal.published|
      && forall r <- Readable(s.files) ::
           Owner(r.item) in s.promises[i].ids - s.promises[i].open ==> s.promises[i].request.mark <= r.origin
  }

  /** While a project is rewritten, only the partitions still to do hold rows of the taken ids. */
  ghost predicate RewriteOnTrack(s: System) {
    s.publisher.Rewriting? ==> forall r <- Readable(s.files) :: Owner(r.item) in s.publisher.taken ==> PartitionOf(r.item) in s.publisher.todo
  }

  /** Log position reached once every segment up to `through` is published. */
  function Reach(w: WalCrash.Wal<Batch>, through: nat): nat {
    if w.checkpoint.segment > through then |w.published| else |w.published| + |WalCrash.PendingTo(w, through + 1)|
  }

  ghost predicate RequestSound(s: System, q: Request) {
    q.through < s.wal.listing.next && q.mark <= Reach(s.wal, q.through)
  }

  function Waiting(s: System): seq<Request> {
    s.requests
    + (match s.publisher
       case Through(q) => [q]
       case Resuming(_, Serve(q)) => [q]
       case Rewriting(_, _, _, Serve(q)) => [q]
       case _ => [])
  }

  ghost predicate RequestsSound(s: System) {
    forall q <- Waiting(s) :: RequestSound(s, q)
  }

  ghost predicate IdentityFollows(s: System) {
    && Valid(s.identity)
    && s.identity == Folded(s.commits)
    && s.wal.published == Windows(s.commits)
  }

  predicate InHands(p: Publisher, k: Key) {
    match p
    case Resuming(groups, _) => exists g <- groups :: k in g
    case Rewriting(taken, _, groups, _) => k in taken || exists g <- groups :: k in g
    case _ => false
  }

  /** An id whose rows are still to be removed. */
  predicate Due(s: System, k: Key) {
    k in s.pending || InHands(s.publisher, k)
  }

  ghost predicate DueRowsSwept(s: System) {
    && (forall k <- s.swept :: s.swept[k] <= |s.wal.published|)
    && forall r <- Readable(s.files) :: Due(s, Owner(r.item)) ==> Swept(s, Owner(r.item), r.origin)
  }

  ghost predicate Inv(s: System) {
    && WalCrash.Inv(s.wal)
    && (s.publisher != Off || s.requests != [] ==> s.wal.serving)
    && RowsHonest(s) && NothingMissing(s) && FilesPlaced(s) && PromisesKept(s) && RewriteOnTrack(s)
    && RequestsSound(s) && DueRowsSwept(s) && IdentityFollows(s)
  }

  /** The published log, read off the commits. */
  function Windows(commits: seq<Commit>): seq<Batch> {
    if commits == [] then []
    else
      var last := commits[|commits| - 1];
      Windows(commits[..|commits| - 1]) + (if last.Window? then last.batches else [])
  }

  /** What the identity projection must be: every committed window's events in order, and every erasure between them. */
  function Folded(commits: seq<Commit>): (r: Identity.State)
    ensures Valid(r)
  {
    if commits == [] then Empty
    else
      var front, last := commits[..|commits| - 1], commits[|commits| - 1];
      match last
      case Window(batches) => IdentityRuns.Run(Folded(front), Effects(FirstCopies(Rows(batches, |Windows(front)|))))
      case Erased(person) => Erase(Folded(front), person)
  }

  // ------------------------------------------------------------- the log under it

  /** Writing, sealing, reclaiming and opening move neither the checkpoint nor what it has to reach. */
  lemma WriterKeepsReach(w: WalCrash.Wal<Batch>, a: WalCrash.Action<Batch>, through: nat)
    requires WalCrash.Inv(w) && w.serving && WriterStep(a) && through < w.listing.next
    ensures var r := WalCrash.Step(w, a);
            && r.serving && r.published == w.published && w.listing.next <= r.listing.next && Reach(r, through) == Reach(w, through)
  {
    hide WalCrash.Span;
    WriterKeepsSealed(w, a);
    var r := WalCrash.Step(w, a);
    if r.checkpoint.segment <= through {
      WalCrash.SpanAgrees(w.content, r.content, w.checkpoint.segment, through + 1);
    }
  }

  /** The writer touches no segment below the open one, and no checkpoint. */
  lemma WriterKeepsSealed(w: WalCrash.Wal<Batch>, a: WalCrash.Action<Batch>)
    requires WalCrash.Inv(w) && w.serving && WriterStep(a)
    ensures var r := WalCrash.Step(w, a);
            && r.serving && r.published == w.published && w.listing.next <= r.listing.next && r.checkpoint == w.checkpoint
            && forall n | 0 <= n < w.listing.next :: (n in w.content <==> n in r.content) && (n in w.content ==> w.content[n] == r.content[n])
  {
    hide WalCrash.Span, WalCrash.Placed, WalCrash.Undone, WalCrash.Stranded, WalCrash.MayBecome, WalCrash.AcksKept, WalCrash.Settled, WalCrash.Ops;
  }

  lemma WriterKeepsPublished(w: WalCrash.Wal<Batch>, a: WalCrash.Action<Batch>)
    requires WalCrash.Inv(w) && WriterStep(a)
    ensures var r := WalCrash.Step(w, a); r.published == w.published && (w.serving ==> r.serving)
  {
  }

  /** What is pending up to a segment is a prefix of what is sealed. */
  lemma ReachIsPrefix(w: WalCrash.Wal<Batch>, through: nat)
    requires WalCrash.Shape(w) && WalCrash.Placed(w) && w.checkpoint.segment <= through < w.listing.next
    ensures WalCrash.Sealed(w) == WalCrash.PendingTo(w, through + 1) + WalCrash.Span(w.content, through + 1, w.listing.next)
  {
    hide WalCrash.MayBecome, WalCrash.Ops;
    var from := w.checkpoint.segment;
    WalCrash.SpanSplit(w.content, from, through + 1, w.listing.next);
    WalCrash.SpanSplit(w.content, from, from + 1, through + 1);
    WalCrash.SpanOne(w.content, from);
    WalCrash.DropFirstOver(WalCrash.Span(w.content, from, through + 1), WalCrash.Span(w.content, through + 1, w.listing.next), w.checkpoint.index);
  }

  /** Publishing never moves a request's reach backwards. */
  lemma CommitKeepsReach(w: WalCrash.Wal<Batch>, count: nat, through: nat)
    requires WalCrash.Inv(w) && w.serving && 1 <= count <= |WalCrash.Sealed(w)| && through < w.listing.next
    ensures Reach(w, through) <= Reach(WalCrash.Step(w, WalCrash.Commit(count)), through)
  {
    hide WalCrash.MayBecome, WalCrash.Ops, WalCrash.Span, WalCrash.Walk, WalCrash.Settled;
    var r := WalCrash.Step(w, WalCrash.Commit(count));
    var next := w.listing.next;
    WalCrash.CommitMoves(w, count);
    WalCrash.PendingSplits(w);
    WalCrash.WalkDrops(w.content, w.checkpoint, count, next, next);
    assert |WalCrash.Sealed(r)| == |WalCrash.Sealed(w)| - count;
    if w.checkpoint.segment <= through {
      ReachIsPrefix(w, through);
      if r.checkpoint.segment <= through {
        ReachIsPrefix(r, through);
      } else {
        WalCrash.SpanSplit(w.content, through + 1, r.checkpoint.segment, next);
      }
    }
  }

  /** When everything was sealed, everything in the log is within reach. */
  lemma SealedReach(w: WalCrash.Wal<Batch>)
    requires WalCrash.Inv(w) && SealedAll(w)
    ensures Reach(w, Before(w.listing.next)) == |WalCrash.Log(w)|
  {
    WalCrash.PendingSplits(w);
    WalCrash.SpanEmpty(w.content, w.listing.next, w.listing.next);
  }

  lemma PublishedReach(w: WalCrash.Wal<Batch>, through: nat)
    requires WalCrash.Inv(w) && w.serving && through < w.listing.next && PublishedThrough(w, through)
    ensures Reach(w, through) == |w.published|
  {
    if w.checkpoint.segment <= through {
      ReachIsPrefix(w, through);
    }
  }

  // ------------------------------------------------------- every step keeps the invariant

  lemma LogStepKeeps(s: System, step: WalCrash.Action<Batch>)
    requires Inv(s) && WriterStep(step)
    ensures Inv(Step(s, Log(step)))
  {
    hide WalCrash.Inv, WalCrash.Step, WriterStep, Folded, Windows, Reach;
    var r := Step(s, Log(step));
    WalCrash.StepKeepsInv(s.wal, step);
    WriterKeepsPublished(s.wal, step);
    forall q | q in Waiting(r) ensures RequestSound(r, q) {
      assert RequestSound(s, q) && s.wal.serving;
      WriterKeepsReach(s.wal, step, q.through);
    }
  }

  lemma CrashKeeps(s: System, kept: nat, cut: nat)
    requires Inv(s)
    ensures Inv(Step(s, Action.Crash(kept, cut)))
  {
    hide WalCrash.Inv, Folded, Windows, Reach, Readable, Valid, WalCrash.AfterCrash;
    WalCrash.StepKeepsInv(s.wal, WalCrash.Action.Crash(kept, cut));
    forall u | LostToErasure(s, u) ensures LostToErasure(Step(s, Action.Crash(kept, cut)), u) {}
  }

  lemma RequestKeeps(s: System, person: Key)
    requires Inv(s) && SealedAll(s.wal)
    ensures Inv(Step(s, RequestErasure(person)))
  {
    hide Folded, Windows, Reach, WalCrash.Shape, WalCrash.WriterStands, WalCrash.AcksKept;
    var r := Step(s, RequestErasure(person));
    SealedReach(s.wal);
    assert 1 <= s.wal.listing.next by { WalOpen(s.wal); }
    forall q | q in Waiting(r) ensures RequestSound(r, q) {
      assert q in Waiting(s) || q == r.requests[|s.requests|];
    }
  }

  lemma WalOpen(w: WalCrash.Wal<Batch>)
    requires WalCrash.Inv(w)
    ensures 1 <= w.listing.next
  {
  }

  /** Phase changes of the publisher that touch no file. */
  lemma PhaseKeeps(s: System, a: Action)
    requires Inv(s) && Enabled(s, a) && (a.Resume? || a.NextGroup? || a.ErasureFails?)
    ensures Inv(Step(s, a))
  {
    hide Folded, Windows, Reach, WalCrash.Inv, Groups, Readable, RowsHonest, NothingMissing, FilesPlaced, RewriteOnTrack, DueRowsSwept,
         PartitionsOf, Valid;
    var r := Step(s, a);
    forall q | q in Waiting(r) ensures RequestSound(r, q) {
      assert q in Waiting(s);
    }
    SameRowsKeep(s, r);
    PhaseKeepsTrack(s, a);
    PhaseKeepsDue(s, a);
  }

  /** Properties of the stored rows that no phase change touches. */
  lemma SameRowsKeep(s: System, r: System)
    requires r.files == s.files && r.wal == s.wal && r.swept == s.swept && r.generation == s.generation
    ensures RowsHonest(s) ==> RowsHonest(r)
    ensures NothingMissing(s) ==> NothingMissing(r)
    ensures FilesPlaced(s) ==> FilesPlaced(r)
  {
    hide Readable;
    forall u | LostToErasure(s, u) ensures LostToErasure(r, u) {
      var j, z :| 0 <= j < |s.wal.published| && z in s.wal.published[j] && UniqueOf(z) == u && Swept(s, Owner(z), j);
      assert Swept(r, Owner(z), j);
    }
  }

  lemma PhaseKeepsTrack(s: System, a: Action)
    requires Inv(s) && Enabled(s, a) && (a.Resume? || a.NextGroup? || a.ErasureFails?)
    ensures RewriteOnTrack(Step(s, a))
  {
    hide WalCrash.Inv, Groups, Readable, RowsHonest, NothingMissing, PromisesKept, RequestsSound, DueRowsSwept, IdentityFollows, PartitionsOf, Valid;
    assert Valid(s.identity) by { FollowsValid(s); }
    var r := Step(s, a);
    if r.publisher.Rewriting? {
      TodoCovers(s.files, r.publisher.taken, s.generation);
    }
  }

  lemma PhaseKeepsDue(s: System, a: Action)
    requires Inv(s) && Enabled(s, a) && (a.Resume? || a.NextGroup? || a.ErasureFails?)
    ensures DueRowsSwept(Step(s, a))
  {
    hide WalCrash.Inv, Groups, Readable, RowsHonest, NothingMissing, PromisesKept, RequestsSound, IdentityFollows, PartitionsOf, RewriteOnTrack, Valid;
    assert Valid(s.identity) by { FollowsValid(s); }
    var r := Step(s, a);
    if a.Resume? {
      GroupsArePending(s.pending, a.groups);
    } else if a.NextGroup? && s.publisher.groups != [] {
      assert forall g <- s.publisher.groups[1..] :: g in s.publisher.groups;
      assert s.publisher.groups[0] in s.publisher.groups;
    }
    forall k | Due(r, k) ensures Due(s, k) {}
  }

  lemma GroupsArePending(pending: set<Key>, groups: seq<set<Key>>)
    requires Groups(pending, groups)
    ensures forall g <- groups :: g <= pending
  {
    forall g | g in groups ensures g <= pending {
      var i :| 0 <= i < |groups| && groups[i] == g;
    }
  }

  lemma TodoCovers(files: Files, taken: set<Key>, generation: nat)
    requires forall n <- files :: n.generation <= generation && forall r <- files[n] :: PartitionOf(r.item) == n.partition
    ensures forall r <- Readable(files) :: Owner(r.item) in taken ==> PartitionOf(r.item) in PartitionsOf(files, taken)
  {
    forall r | r in Readable(files) && Owner(r.item) in taken ensures PartitionOf(r.item) in PartitionsOf(files, taken) {
      var n :| n in files && r in files[n];
      assert n.partition.project == Owner(r.item).project;
    }
  }

  lemma ClearKeeps(s: System, a: Action)
    requires Inv(s) && Enabled(s, a) && (a.ClearGroup? || a.ClearId?)
    ensures Inv(Step(s, a))
  {
    hide Folded, Windows, Reach, WalCrash.Inv, Readable, RowsHonest, NothingMissing, FilesPlaced, Valid;
    var r := Step(s, a);
    SameRowsKeep(s, r);
    assert forall k :: Due(r, k) ==> Due(s, k);
    forall q | q in Waiting(r) ensures RequestSound(r, q) {
      assert q in Waiting(s);
    }
    forall i | 0 <= i < |r.promises|
      ensures r.promises[i].open <= r.pending && r.promises[i].request.mark <= |r.wal.published|
      ensures forall x <- Readable(r.files) ::
                Owner(x.item) in r.promises[i].ids - r.promises[i].open ==> r.promises[i].request.mark <= x.origin
    {
      assert s.promises[i].open <= s.pending;
    }
  }

  /** Everything but the identity tables and the requests still waiting. */
  lemma ErasePersonKeepsRows(s: System)
    requires Inv(s) && Enabled(s, ErasePerson)
    ensures var r := Step(s, ErasePerson);
            RowsHonest(r) && NothingMissing(r) && FilesPlaced(r) && PromisesKept(r) && RewriteOnTrack(r) && DueRowsSwept(r)
  {
    hide WalCrash.Inv, Reach, Readable, Erase, IdsOf, PartitionsOf, Valid, Folded, Windows;
    assert Valid(s.identity);
    var r := Step(s, ErasePerson);
    var q := s.publisher.request;
    assert q in Waiting(s) && RequestSound(s, q);
    PublishedReach(s.wal, q.through);
    TodoCovers(s.files, r.publisher.taken, s.generation);
    forall i, x | 0 <= i < |r.wal.published| && x in r.wal.published[i]
      ensures Shown(r.files, UniqueOf(x)) || LostToErasure(r, UniqueOf(x))
    {
      StillAccounted(s, r, UniqueOf(x));
    }
  }

  lemma ErasePersonKeeps(s: System)
    requires Inv(s) && Enabled(s, ErasePerson)
    ensures Inv(Step(s, ErasePerson))
  {
    hide Reach, WalCrash.Inv, Readable, Erase, RowsHonest, NothingMissing, FilesPlaced, PromisesKept, RewriteOnTrack, DueRowsSwept, IdsOf,
         PartitionsOf, Valid;
    var r := Step(s, ErasePerson);
    ErasePersonKeepsRows(s);
    assert r.commits[..|s.commits|] == s.commits;
    forall p | p in Waiting(r) ensures RequestSound(r, p) {
      assert p in Waiting(s);
    }
  }

  // ------------------------------------------------------------ steps that change files

  function WindowRows(s: System, count: nat): seq<Stored>
    requires count <= |WalCrash.Sealed(s.wal)|
  {
    Rows(WalCrash.Sealed(s.wal)[..count], |s.wal.published|)
  }

  lemma PublishedFiles(s: System, count: nat)
    requires Valid(s.identity) && count <= |WalCrash.Sealed(s.wal)|
    ensures Published(s, count).files == s.files + NewFiles(FirstCopies(WindowRows(s, count)), s.generation + 1)
    ensures Published(s, count).generation == s.generation + 1
  {
    hide Valid, NewFiles, FirstCopies, Rows, IdentityRuns.Run, WalCrash.Sealed, WalCrash.Step, Effects;
  }

  /** A window adds exactly its first copies to what is readable. */
  lemma WindowReads(s: System, count: nat)
    requires FilesPlaced(s) && Valid(s.identity) && count <= |WalCrash.Sealed(s.wal)|
    ensures Readable(Published(s, count).files) == Readable(s.files) + set r | r in FirstCopies(WindowRows(s, count))
    ensures FilesPlaced(Published(s, count))
  {
    hide Valid, FirstCopies, Readable, Published, InPartition, WindowRows;
    var rows := FirstCopies(WindowRows(s, count));
    var more := NewFiles(rows, s.generation + 1);
    PublishedFiles(s, count);
    NewFilesRead(rows, s.generation + 1);
    AddedFilesRead(s.files, more);
    forall n: FileName, r: Stored | n in more && r in more[n] ensures PartitionOf(r.item) == n.partition {
      InPartitionMembers(rows, n.partition, r);
    }
  }

  lemma PublishedLog(s: System, count: nat)
    requires WalCrash.Inv(s.wal) && s.wal.serving && 1 <= count <= |WalCrash.Sealed(s.wal)|
    ensures var w := WalCrash.Step(s.wal, WalCrash.Commit(count));
            w.published == s.wal.published + WalCrash.Sealed(s.wal)[..count] && w.serving && w.listing == s.wal.listing
  {
  }

  /** What else a window changes, and what it leaves alone. */
  lemma PublishedFacts(s: System, count: nat)
    requires Inv(s) && Enabled(s, PublishWindow(count))
    ensures var r := Published(s, count);
            && r.publisher == s.publisher && r.pending == s.pending && r.promises == s.promises && r.requests == s.requests
            && MayPublish(r.publisher)
            && r.wal.published == s.wal.published + WalCrash.Sealed(s.wal)[..count]
            && r.swept == s.swept + map k | k in Owners(FirstCopies(WindowRows(s, count))) * s.pending :: |s.wal.published| + count
  {
    hide WalCrash.Inv, WalCrash.Step, Readable, IdentityRuns.Run, Rows, FirstCopies, Valid, WalCrash.Sealed, Folded, Windows, Effects, NewFiles,
         RowsHonest, NothingMissing, FilesPlaced, PromisesKept, RequestsSound, DueRowsSwept, RewriteOnTrack, Owners;
    PublishedLog(s, count);
  }

  /** A row readable afterwards was readable before, or is a first copy of the window. */
  lemma NewRow(s: System, count: nat, x: Stored)
    requires FilesPlaced(s) && Valid(s.identity) && count <= |WalCrash.Sealed(s.wal)|
    requires x in Readable(Published(s, count).files) && x !in Readable(s.files)
    ensures x in FirstCopies(WindowRows(s, count))
    ensures |s.wal.published| <= x.origin < |s.wal.published| + count && x.item in WalCrash.Sealed(s.wal)[x.origin - |s.wal.published|]
  {
    hide Readable, Rows, FirstCopies, Published, Valid, WalCrash.Sealed, FilesPlaced;
    WindowReads(s, count);
    FirstCopiesCover(WindowRows(s, count));
    RowsMembers(WalCrash.Sealed(s.wal)[..count], |s.wal.published|, x);
  }

  lemma FollowsValid(s: System)
    requires IdentityFollows(s)
    ensures Valid(s.identity)
  {
  }

  lemma PublishKeepsPromises(s: System, count: nat)
    requires Inv(s) && Enabled(s, PublishWindow(count))
    ensures var r := Published(s, count); RowsHonest(r) && FilesPlaced(r) && PromisesKept(r) && RewriteOnTrack(r)
  {
    hide WalCrash.Inv, Readable, Published, Valid, WalCrash.Sealed, NothingMissing, RequestsSound, DueRowsSwept, IdentityFollows, WindowRows,
         FirstCopies, Owners;
    assert Valid(s.identity) by { FollowsValid(s); }
    var r := Published(s, count);
    PublishedFacts(s, count);
    WindowReads(s, count);
    forall x | x in Readable(r.files) && x !in Readable(s.files)
      ensures |s.wal.published| <= x.origin < |r.wal.published| && x.item in r.wal.published[x.origin]
    {
      NewRow(s, count, x);
    }
  }

  lemma PublishKeepsSwept(s: System, count: nat)
    requires Inv(s) && Enabled(s, PublishWindow(count))
    ensures DueRowsSwept(Published(s, count))
  {
    hide WalCrash.Inv, Readable, Published, Valid, WalCrash.Sealed, NothingMissing, RequestsSound, RowsHonest, PromisesKept, IdentityFollows,
         WindowRows, FirstCopies, FilesPlaced, RewriteOnTrack;
    assert Valid(s.identity) by { FollowsValid(s); }
    var r := Published(s, count);
    PublishedFacts(s, count);
    forall x | x in Readable(r.files) && Due(r, Owner(x.item)) ensures Swept(r, Owner(x.item), x.origin) {
      if x !in Readable(s.files) {
        NewRow(s, count, x);
      }
    }
  }

  lemma PublishKeepsAccounts(s: System, count: nat)
    requires Inv(s) && Enabled(s, PublishWindow(count))
    ensures NothingMissing(Published(s, count))
  {
    hide WalCrash.Inv, Readable, Published, Valid, WalCrash.Sealed, RequestsSound, RowsHonest, PromisesKept, IdentityFollows, RewriteOnTrack,
         WindowRows, FirstCopies, FilesPlaced, Shown, LostToErasure, Owners;
    assert Valid(s.identity) by { FollowsValid(s); }
    var r := Published(s, count);
    PublishedFacts(s, count);
    WindowReads(s, count);
    forall i, x | 0 <= i < |r.wal.published| && x in r.wal.published[i]
      ensures Shown(r.files, UniqueOf(x)) || LostToErasure(r, UniqueOf(x))
    {
      if i < |s.wal.published| {
        assert x in s.wal.published[i];
        StillAccounted(s, r, UniqueOf(x));
      } else {
        NewEventShown(s, count, i, x);
      }
    }
  }

  lemma StillAccounted(s: System, r: System, u: Unique)
    requires Shown(s.files, u) || LostToErasure(s, u)
    requires Readable(s.files) <= Readable(r.files) && s.wal.published <= r.wal.published
    requires forall k <- s.swept :: k in r.swept && s.swept[k] <= r.swept[k]
    ensures Shown(r.files, u) || LostToErasure(r, u)
  {
    hide Readable;
    if LostToErasure(s, u) {
      var j, z :| 0 <= j < |s.wal.published| && z in s.wal.published[j] && UniqueOf(z) == u && Swept(s, Owner(z), j);
      assert z in r.wal.published[j];
    }
  }

  lemma NewEventShown(s: System, count: nat, i: nat, x: Item)
    requires FilesPlaced(s) && Valid(s.identity) && count <= |WalCrash.Sealed(s.wal)|
    requires |s.wal.published| <= i < |s.wal.published| + count && x in WalCrash.Sealed(s.wal)[i - |s.wal.published|]
    ensures Shown(Published(s, count).files, UniqueOf(x))
  {
    hide Readable, Rows, FirstCopies, WalCrash.Sealed, Published, Valid, FilesPlaced;
    var rows := WindowRows(s, count);
    WindowReads(s, count);
    FirstCopiesCover(rows);
    RowsMembers(WalCrash.Sealed(s.wal)[..count], |s.wal.published|, Stored(x, i));
    assert UniqueOf(x) in Uniques(FirstCopies(rows)) by { assert Stored(x, i) in rows; }
    var y :| y in FirstCopies(rows) && UniqueOf(y.item) == UniqueOf(x);
    assert y in Readable(Published(s, count).files);
  }

  lemma PublishKeeps(s: System, count: nat)
    requires Inv(s) && Enabled(s, PublishWindow(count))
    ensures Inv(Published(s, count))
  {
    hide WalCrash.Inv, WalCrash.Step, Readable, IdentityRuns.Run, Rows, FirstCopies, Valid, WalCrash.Sealed, RowsHonest, NothingMissing,
         FilesPlaced, PromisesKept, RewriteOnTrack, DueRowsSwept, Reach;
    var r := Published(s, count);
    PublishKeepsPromises(s, count);
    PublishKeepsSwept(s, count);
    PublishKeepsAccounts(s, count);
    PublishedLog(s, count);
    WalCrash.StepKeepsInv(s.wal, WalCrash.Commit(count));
    assert r.commits[..|s.commits|] == s.commits;
    forall q | q in Waiting(r) ensures RequestSound(r, q) {
      assert q in Waiting(s) && RequestSound(s, q);
      CommitKeepsReach(s.wal, count, q.through);
    }
  }

  function WithFiles(s: System, inputs: set<FileName>, p: Partition, output: seq<Stored>, publisher: Publisher): System {
    s.(publisher := publisher, files := Rewritten(s.files, inputs, FileName(p, s.generation + 1), output), generation := s.generation + 1)
  }

  /** Replacing files by a condensed one keeps every event accounted for and every promise. */
  lemma RewriteKeeps(s: System, inputs: set<FileName>, p: Partition, gone: set<Key>, output: seq<Stored>, publisher: Publisher)
    requires FilesPlaced(s) && RowsHonest(s) && NothingMissing(s) && PromisesKept(s)
    requires inputs <= FilesOf(s.files, p) && Condensed(Input(s.files, inputs), gone, output)
    requires forall x <- Readable(s.files) :: Owner(x.item) in gone ==> Swept(s, Owner(x.item), x.origin)
    ensures var r := WithFiles(s, inputs, p, output, publisher);
            RowsHonest(r) && NothingMissing(r) && FilesPlaced(r) && PromisesKept(r)
            && Readable(r.files) <= Readable(s.files)
  {
    hide Readable, Condensed, Rewritten;
    var r := WithFiles(s, inputs, p, output, publisher);
    var name := FileName(p, s.generation + 1);
    assert name !in s.files;
    RewritePlaced(s, inputs, p, gone, output);
    forall x: Stored
      ensures x in Readable(r.files) ==> x in Readable(s.files)
      ensures x in Readable(s.files) ==> Owner(x.item) in gone || Shown(r.files, UniqueOf(x.item))
    {
      RewriteKeepsOthers(s.files, inputs, name, gone, output, x);
    }
    forall i, x | 0 <= i < |r.wal.published| && x in r.wal.published[i]
      ensures Shown(r.files, UniqueOf(x)) || LostToErasure(r, UniqueOf(x))
    {
      assert Shown(s.files, UniqueOf(x)) || LostToErasure(s, UniqueOf(x));
      if Shown(s.files, UniqueOf(x)) {
        var y :| y in Readable(s.files) && UniqueOf(y.item) == UniqueOf(x);
        assert y.item in r.wal.published[y.origin];
      }
    }
  }

  lemma RewritePlaced(s: System, inputs: set<FileName>, p: Partition, gone: set<Key>, output: seq<Stored>)
    requires FilesPlaced(s) && inputs <= FilesOf(s.files, p) && Condensed(Input(s.files, inputs), gone, output)
    ensures FilesPlaced(WithFiles(s, inputs, p, output, Idle))
  {
    forall r | r in output ensures PartitionOf(r.item) == p {
      assert r in Input(s.files, inputs);
    }
  }

  lemma RewritePartitionKeeps(s: System, p: Partition, output: seq<Stored>)
    requires Inv(s) && Enabled(s, RewritePartition(p, output))
    ensures Inv(Step(s, RewritePartition(p, output)))
  {
    hide WalCrash.Inv, Reach, Folded, Windows, Readable, Condensed, Rewritten;
    var r := Step(s, RewritePartition(p, output));
    var taken, inputs := s.publisher.taken, FilesOf(s.files, p);
    forall q | q in Waiting(r) ensures RequestSound(r, q) {
      assert q in Waiting(s) && RequestSound(s, q);
    }
    if HoldsNoneOf(s.files, p, taken) {
      NoneLeft(s, p, taken);
    } else {
      assert forall k <- taken :: Due(s, k);
      RewriteKeeps(s, inputs, p, taken, output, r.publisher);
      forall x | x in Readable(r.files) && Owner(x.item) in taken ensures PartitionOf(x.item) in r.publisher.todo {
        RewriteKeepsOthers(s.files, inputs, FileName(p, s.generation + 1), taken, output, x);
        ElsewhereOnly(s, p, x);
      }
    }
  }

  lemma NoneLeft(s: System, p: Partition, taken: set<Key>)
    requires FilesPlaced(s) && HoldsNoneOf(s.files, p, taken)
    ensures forall x <- Readable(s.files) :: Owner(x.item) in taken ==> PartitionOf(x.item) != p
  {
    forall x | x in Readable(s.files) && Owner(x.item) in taken ensures PartitionOf(x.item) != p {
      var n :| n in s.files && x in s.files[n];
      assert n.partition == p ==> x in Input(s.files, FilesOf(s.files, p));
    }
  }

  lemma ElsewhereOnly(s: System, p: Partition, x: Stored)
    requires FilesPlaced(s) && x in Readable(s.files - FilesOf(s.files, p))
    ensures PartitionOf(x.item) != p
  {
    var n :| n in s.files - FilesOf(s.files, p) && x in (s.files - FilesOf(s.files, p))[n];
    assert n in s.files && x in s.files[n];
  }

  lemma CompactKeeps(s: System, inputs: set<FileName>, p: Partition, output: seq<Stored>)
    requires Inv(s) && Enabled(s, Compact(inputs, p, output))
    ensures Inv(Step(s, Compact(inputs, p, output)))
  {
    hide WalCrash.Inv, Reach, Folded, Windows, Readable, Condensed, Rewritten;
    var r := Step(s, Compact(inputs, p, output));
    RewriteKeeps(s, inputs, p, {}, output, Idle);
    forall q | q in Waiting(r) ensures RequestSound(r, q) {
      assert q in Waiting(s) && RequestSound(s, q);
    }
  }

  lemma StepKeeps(s: System, a: Action)
    requires Inv(s) && Enabled(s, a)
    ensures Inv(Step(s, a))
  {
    hide Inv, Step, Enabled;
    match a
    case Log(step) => assert WriterStep(step) by { IsEnabled(s, a); } LogStepKeeps(s, step);
    case Crash(kept, cut) => CrashKeeps(s, kept, cut);
    case PublishWindow(count) => PublishKeeps(s, count); IsPublished(s, count);
    case RequestErasure(person) => assert SealedAll(s.wal) by { IsEnabled(s, a); } RequestKeeps(s, person);
    case Resume(_) => PhaseKeeps(s, a);
    case NextGroup => PhaseKeeps(s, a);
    case RewritePartition(p, output) => RewritePartitionKeeps(s, p, output);
    case ClearId(_) => ClearKeeps(s, a);
    case ClearGroup => ClearKeeps(s, a);
    case ErasePerson => ErasePersonKeeps(s);
    case ErasureFails => PhaseKeeps(s, a);
    case Compact(inputs, p, output) => CompactKeeps(s, inputs, p, output);
  }

  lemma IsEnabled(s: System, a: Action)
    requires Enabled(s, a)
    ensures a.Log? ==> WriterStep(a.step)
    ensures a.RequestErasure? ==> SealedAll(s.wal)
  {
  }

  lemma IsPublished(s: System, count: nat)
    requires Inv(s) && Enabled(s, PublishWindow(count))
    ensures Step(s, PublishWindow(count)) == Published(s, count)
  {
  }

  lemma StartKeeps()
    ensures Inv(Start())
  {
    WalCrash.FreshInv<Batch>();
  }

  lemma {:induction false} RunKeeps(actions: seq<Action>)
    ensures Inv(Run(Start(), actions))
    decreases |actions|
  {
    hide Inv, Enabled, Step;
    if actions == [] {
      StartKeeps();
    } else {
      var before := Run(Start(), actions[..|actions| - 1]);
      RunKeeps(actions[..|actions| - 1]);
      if Enabled(before, actions[|actions| - 1]) {
        StepKeeps(before, actions[|actions| - 1]);
      }
    }
  }
}
