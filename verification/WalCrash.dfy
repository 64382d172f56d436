/**
 The write-ahead log across crashes: group commit, the steps of a seal, the
 publisher's checkpoint and reclamation, and what a crash may lose. Every action
 is one file-system or catalog effect; a step whose guard fails leaves the state alone.
 */
module WalCrash {

  /** Segments `first` up to `next` are sealed; `next` itself exists only while `isOpen`. */
  datatype Listing = Listing(first: nat, next: nat, isOpen: bool)

  /** Directory updates not yet made durable by a directory fsync. */
  datatype DirOp = Renamed | Created | Removed

  /** Where the writer stands in its loop; the phases after `Ready` are the steps of one seal. */
  datatype Writer = Down | Ready | FileSynced | RenamedSegment | DirSynced | CreatedSegment | Poisoned

  datatype Mark = Mark(segment: nat, index: nat)

  datatype Wal<B> = Wal(
    listing: Listing,
    durable: Listing,
    unsynced: seq<DirOp>,
    content: map<nat, seq<B>>,
    synced: nat,
    checkpoint: Mark,
    published: seq<B>,
    groupStart: nat,
    acked: map<nat, B>,
    writer: Writer,
    serving: bool)

  function Op(l: Listing, op: DirOp): Listing {
    match op
    case Renamed => Listing(l.first, l.next + 1, false)
    case Created => l.(isOpen := true)
    case Removed => l.(first := l.first + 1)
  }

  function Ops(l: Listing, ops: seq<DirOp>): Listing {
    if ops == [] then l else Op(Ops(l, ops[..|ops| - 1]), ops[|ops| - 1])
  }

  /** One past the last segment that exists. */
  function Top(l: Listing): nat {
    if l.isOpen then l.next + 1 else l.next
  }

  /** Contents of segments `from` up to `to`, in order. */
  function Span<B>(content: map<nat, seq<B>>, from: nat, to: nat): seq<B>
    decreases if from < to then to - from else 0
  {
    if from >= to then []
    else (if from in content then content[from] else []) + Span(content, from + 1, to)
  }

  function DropFirst<B>(records: seq<B>, n: nat): seq<B> {
    if n <= |records| then records[n..] else []
  }

  function PendingTo<B>(w: Wal<B>, to: nat): seq<B> {
    DropFirst(Span(w.content, w.checkpoint.segment, to), w.checkpoint.index)
  }

  /** Records at or after the committed checkpoint. */
  function Pending<B>(w: Wal<B>): seq<B> {
    PendingTo(w, Top(w.listing))
  }

  /** Every record the log has kept, from the beginning: the published windows, then what is pending. */
  function Log<B>(w: Wal<B>): seq<B> {
    w.published + Pending(w)
  }

  function Unsynced<B>(w: Wal<B>): nat {
    if w.listing.isOpen && w.listing.next in w.content && w.synced <= |w.content[w.listing.next]|
    then |w.content[w.listing.next]| - w.synced else 0
  }

  /** How much of the log no crash can take any more. */
  function Durable<B>(w: Wal<B>): nat {
    if Unsynced(w) <= |Log(w)| then |Log(w)| - Unsynced(w) else 0
  }

  function At<B>(w: Wal<B>, segment: nat): seq<B> {
    if segment in w.content then w.content[segment] else []
  }

  // --------------------------------------------------------------------- actions

  datatype Action<B> =
    | Write(record: B)
    | SyncAndAck
    | SyncSegment
    | RenameSegment
    | SyncDirectory
    | CreateSegment
    | SyncCreated
    | Fail
    | Commit(count: nat)
    | RemoveSegment
    | FlushDirectory
    | Crash(kept: nat, cut: nat)
    | Reopen
    | Serve

  /** Records of sealed segments at or after the checkpoint: what the publisher may read. */
  function Sealed<B>(w: Wal<B>): seq<B> {
    PendingTo(w, w.listing.next)
  }

  /** The normalised checkpoint `count` records further on: never the end of a sealed segment. */
  function Walk<B>(content: map<nat, seq<B>>, mark: Mark, count: nat, next: nat): Mark
    decreases if mark.segment < next then next - mark.segment else 0
  {
    var here := if mark.segment in content then |content[mark.segment]| else 0;
    if mark.segment < next && here <= mark.index + count then
      Walk(content, Mark(mark.segment + 1, 0), mark.index + count - here, next)
    else Mark(mark.segment, mark.index + count)
  }

  function DirectoryOp<B>(w: Wal<B>, op: DirOp): Wal<B> {
    w.(listing := Op(w.listing, op), unsynced := w.unsynced + [op])
  }

  function DirectorySynced<B>(w: Wal<B>): Wal<B> {
    w.(durable := w.listing, unsynced := [])
  }

  function Acknowledged<B>(w: Wal<B>): map<nat, B> {
    w.acked + map i | w.groupStart <= i < |Log(w)| :: Log(w)[i]
  }

  /** Clamp a requested cut to what a crash can do: never below the synced length. */
  function Surviving<B>(records: seq<B>, synced: nat, cut: nat): seq<B> {
    if cut < synced && synced <= |records| then records[..synced] else if cut <= |records| then records[..cut] else records
  }

  /** The directory a crash leaves: the updates since the last directory fsync survive only as a prefix. */
  function AfterCrash<B>(w: Wal<B>, kept: nat): Listing {
    Ops(w.durable, if kept <= |w.unsynced| then w.unsynced[..kept] else w.unsynced)
  }

  function Crashed<B>(w: Wal<B>, kept: nat, cut: nat): Wal<B> {
    var l := AfterCrash(w, kept);
    var content :=
      if l.isOpen && w.listing.isOpen && l.next == w.listing.next then
        w.content[l.next := Surviving(At(w, l.next), w.synced, cut)]
      else w.content;
    var down := w.(listing := l, durable := l, unsynced := [], content := content,
                   synced := if l.isOpen && l.next in content then |content[l.next]| else 0,
                   writer := Down, serving := false);
    down.(groupStart := |Log(down)|)
  }

  /** `WriteAheadLog::open`: take the open segment, or create the one after the last sealed, or start at 1. */
  function Reopened<B>(w: Wal<B>): Wal<B> {
    if w.listing.isOpen then w.(writer := Ready)
    else if w.listing.first < w.listing.next then w.(writer := DirSynced)
    else w.(listing := Listing(1, 1, false), durable := Listing(1, 1, false), writer := DirSynced)
  }

  /** The next read at the checkpoint finds its segment. */
  predicate CheckpointExists<B>(w: Wal<B>) {
    w.listing.first <= w.checkpoint.segment <= w.listing.next
  }

  function Step<B>(w: Wal<B>, a: Action<B>): Wal<B> {
    match a
    case Write(record) =>
      if w.writer == Ready && w.serving then w.(content := w.content[w.listing.next := At(w, w.listing.next) + [record]]) else w
    case SyncAndAck =>
      if w.writer == Ready && w.serving then
        w.(synced := |At(w, w.listing.next)|, acked := Acknowledged(w), groupStart := |Log(w)|)
      else w
    case SyncSegment =>
      if w.writer == Ready && At(w, w.listing.next) != [] then w.(synced := |At(w, w.listing.next)|, writer := FileSynced) else w
    case RenameSegment =>
      if w.writer == FileSynced then DirectoryOp(w, Renamed).(writer := RenamedSegment, synced := 0) else w
    case SyncDirectory =>
      if w.writer == RenamedSegment then DirectorySynced(w).(writer := DirSynced) else w
    case CreateSegment =>
      if w.writer == DirSynced then
        DirectoryOp(w, Created).(content := w.content[w.listing.next := []], synced := 0, writer := CreatedSegment)
      else w
    case SyncCreated =>
      if w.writer == CreatedSegment then DirectorySynced(w).(writer := Ready) else w
    case Fail => if w.writer == Down then w else w.(writer := Poisoned)
    case Commit(count) =>
      if w.serving && 1 <= count <= |Sealed(w)| then
        w.(published := w.published + Sealed(w)[..count], checkpoint := Walk(w.content, w.checkpoint, count, w.listing.next))
      else w
    case RemoveSegment =>
      if w.serving && w.listing.first < w.listing.next && w.listing.first < w.checkpoint.segment then DirectoryOp(w, Removed) else w
    case FlushDirectory => if w.serving then DirectorySynced(w) else w
    case Crash(kept, cut) => Crashed(w, kept, cut)
    case Reopen => if w.writer == Down then Reopened(w) else w
    case Serve =>
      if w.writer == Ready && !w.serving && At(w, w.listing.next) == [] && CheckpointExists(w) then w.(serving := true) else w
  }

  function Run<B>(w: Wal<B>, actions: seq<Action<B>>): Wal<B>
    decreases |actions|
  {
    if actions == [] then w else Step(Run(w, actions[..|actions| - 1]), actions[|actions| - 1])
  }

  /** A new installation: no file, and the checkpoint at the start of segment 1. */
  function Fresh<B>(): Wal<B> {
    Wal(Listing(1, 1, false), Listing(1, 1, false), [], map[], 0, Mark(1, 0), [], 0, map[], Down, false)
  }

  // ------------------------------------------------------------------- invariant

  /** The checkpoint names a record of a sealed segment, or the start of the first segment not sealed. */
  predicate Placed<B>(w: Wal<B>) {
    || w.checkpoint == Mark(w.listing.next, 0)
    || (w.listing.first <= w.checkpoint.segment < w.listing.next && w.checkpoint.index < |At(w, w.checkpoint.segment)|)
  }

  /**
   A crash undid the rename of a segment the publisher had begun, or finished,
   reading: it is open again, whole, and the checkpoint stands inside or right after it.
   */
  predicate Undone<B>(w: Wal<B>) {
    && w.listing.isOpen && !w.serving
    && At(w, w.listing.next) != [] && w.synced == |At(w, w.listing.next)|
    && (|| w.checkpoint == Mark(w.listing.next + 1, 0)
        || (w.checkpoint.segment == w.listing.next && w.checkpoint.index < |At(w, w.listing.next)|))
  }

  /** A crash right after reclaiming the last segment mid-seal: numbering restarted, the checkpoint names a segment that will not exist. */
  predicate Stranded<B>(w: Wal<B>) {
    && w.checkpoint.index == 0 && 1 < w.checkpoint.segment && !w.serving
    && w.listing.first == 1 && w.listing.next == 1 && (w.listing.isOpen ==> At(w, 1) == [])
  }

  /** What a crash may turn the directory into. */
  predicate MayBecome<B>(w: Wal<B>, l: Listing) {
    && 1 <= l.first <= l.next && l.first <= w.listing.first
    && (|| (l.next == w.listing.next && l.isOpen == w.listing.isOpen)
        || (l.next == w.listing.next && !l.isOpen && w.listing.isOpen && At(w, l.next) == [])
        || (l.next + 1 == w.listing.next && l.isOpen && !w.listing.isOpen && At(w, l.next) != []))
  }

  /** No crash can change which segment is open. */
  ghost predicate Settled<B>(w: Wal<B>) {
    forall k | 0 <= k <= |w.unsynced| ::
      var l := Ops(w.durable, w.unsynced[..k]); l.next == w.listing.next && l.isOpen == w.listing.isOpen
  }

  ghost predicate Shape<B>(w: Wal<B>) {
    && 1 <= w.listing.first <= w.listing.next
    && w.listing == Ops(w.durable, w.unsynced)
    && (forall n | w.durable.first <= n < Top(w.listing) :: n in w.content)
    && (w.listing.isOpen ==> w.synced <= |At(w, w.listing.next)|)
    && (forall k | 0 <= k <= |w.unsynced| :: MayBecome(w, Ops(w.durable, w.unsynced[..k])))
    && (Placed(w) || Undone(w) || Stranded(w))
    && (w.serving ==> Placed(w) && w.writer != Down)
    && (!w.serving && w.listing.isOpen ==> w.synced == |At(w, w.listing.next)|)
  }

  ghost predicate WriterStands<B>(w: Wal<B>) {
    match w.writer
    case Down => w.unsynced == []
    case Ready => w.listing.isOpen && Settled(w)
    case FileSynced => w.listing.isOpen && Settled(w) && At(w, w.listing.next) != [] && w.synced == |At(w, w.listing.next)|
    case RenamedSegment => !w.listing.isOpen
    case DirSynced => !w.listing.isOpen && Settled(w)
    case CreatedSegment => w.listing.isOpen && At(w, w.listing.next) == []
    case Poisoned => true
  }

  /** Every acknowledged record is where it was, and out of a crash's reach. */
  ghost predicate AcksKept<B>(w: Wal<B>) {
    forall i <- w.acked :: i < Durable(w) && Log(w)[i] == w.acked[i]
  }

  ghost predicate Inv<B>(w: Wal<B>) {
    Shape(w) && WriterStands(w) && AcksKept(w)
  }

  // ------------------------------------------------------------------ log algebra

  lemma {:induction false} SpanSplit<B>(content: map<nat, seq<B>>, from: nat, mid: nat, to: nat)
    requires from <= mid <= to
    ensures Span(content, from, to) == Span(content, from, mid) + Span(content, mid, to)
    decreases mid - from
  {
    if from < mid {
      SpanSplit(content, from + 1, mid, to);
    }
  }

  /** Segments outside the range do not matter. */
  lemma {:induction false} SpanAgrees<B>(a: map<nat, seq<B>>, b: map<nat, seq<B>>, from: nat, to: nat)
    requires forall n | from <= n < to :: (n in a <==> n in b) && (n in a ==> a[n] == b[n])
    ensures Span(a, from, to) == Span(b, from, to)
    decreases if from < to then to - from else 0
  {
    if from < to {
      SpanAgrees(a, b, from + 1, to);
    }
  }

  lemma SpanOne<B>(content: map<nat, seq<B>>, n: nat)
    ensures Span(content, n, n + 1) == if n in content then content[n] else []
  {
    assert Span(content, n + 1, n + 1) == [];
  }

  lemma DropFirstOver<B>(a: seq<B>, b: seq<B>, n: nat)
    requires n <= |a|
    ensures DropFirst(a + b, n) == DropFirst(a, n) + b
  {
  }

  /** Moving the checkpoint `count` records on drops exactly those records. */
  lemma {:induction false} WalkDrops<B>(content: map<nat, seq<B>>, mark: Mark, count: nat, next: nat, to: nat)
    requires next <= to && mark.segment <= next
    requires mark.index + count <= |Span(content, mark.segment, next)|
    ensures var m := Walk(content, mark, count, next);
            && mark.segment <= m.segment <= next
            && DropFirst(Span(content, m.segment, to), m.index) == DropFirst(Span(content, mark.segment, to), mark.index + count)
            && (m == Mark(next, 0) || (m.segment < next && m.index < |Span(content, m.segment, m.segment + 1)|))
    decreases if mark.segment < next then next - mark.segment else 0
  {
    hide Span, DropFirst;
    if mark.segment < next {
      SpanOne(content, mark.segment);
      var here := Span(content, mark.segment, mark.segment + 1);
      SpanSplit(content, mark.segment, mark.segment + 1, next);
      if |here| <= mark.index + count {
        SpanSplit(content, mark.segment, mark.segment + 1, to);
        DropPast(here, Span(content, mark.segment + 1, to), mark.index + count);
        WalkDrops(content, Mark(mark.segment + 1, 0), mark.index + count - |here|, next, to);
      }
    } else {
      SpanEmpty(content, mark.segment, next);
    }
  }

  lemma DropPast<B>(a: seq<B>, b: seq<B>, n: nat)
    requires |a| <= n
    ensures DropFirst(a + b, n) == DropFirst(b, n - |a|)
  {
  }

  // ------------------------------------------------------------ the directory's shape

  lemma OpsAppend(l: Listing, ops: seq<DirOp>, op: DirOp)
    ensures Ops(l, ops + [op]) == Op(Ops(l, ops), op)
    ensures forall k | 0 <= k <= |ops| :: (ops + [op])[..k] == ops[..k]
  {
    assert (ops + [op])[..|ops|] == ops;
  }

  lemma {:induction false} OpsGrow(l: Listing, ops: seq<DirOp>)
    ensures l.first <= Ops(l, ops).first
  {
    if ops != [] {
      OpsGrow(l, ops[..|ops| - 1]);
    }
  }

  /** A directory update is safe when every crash outcome stays one the log can recover from. */
  lemma DirectoryOpKeeps<B>(w: Wal<B>, op: DirOp, r: Wal<B>)
    requires Shape(w)
    requires r.durable == w.durable && r.unsynced == w.unsynced + [op] && r.listing == Op(w.listing, op)
    requires forall k | 0 <= k <= |w.unsynced| :: MayBecome(r, Ops(w.durable, w.unsynced[..k]))
    requires MayBecome(r, r.listing)
    ensures r.listing == Ops(r.durable, r.unsynced)
    ensures forall k | 0 <= k <= |r.unsynced| :: MayBecome(r, Ops(r.durable, r.unsynced[..k]))
  {
    OpsAppend(w.durable, w.unsynced, op);
    forall k | 0 <= k <= |r.unsynced| ensures MayBecome(r, Ops(r.durable, r.unsynced[..k])) {
      if k == |r.unsynced| {
        assert r.unsynced[..k] == r.unsynced;
      }
    }
  }

  lemma WholeIsPrefix<B>(w: Wal<B>)
    requires Shape(w)
    ensures MayBecome(w, w.listing) && w.durable.first <= w.listing.first
  {
    assert w.unsynced[..|w.unsynced|] == w.unsynced;
    assert w.unsynced[..0] == [];
    assert MayBecome(w, Ops(w.durable, w.unsynced[..0]));
  }

  /** After a directory fsync nothing is left for a crash to undo. */
  lemma FlushKeeps<B>(w: Wal<B>)
    requires Shape(w)
    ensures Shape(DirectorySynced(w)) && Settled(DirectorySynced(w))
  {
    WholeIsPrefix(w);
    assert DirectorySynced(w).unsynced[..0] == [];
  }

  lemma WriterKeepsShape<B>(w: Wal<B>, a: Action<B>)
    requires Inv(w)
    requires a.Write? || a.SyncAndAck? || a.SyncSegment? || a.Fail?
    ensures Shape(Step(w, a)) && WriterStands(Step(w, a))
  {
    WholeIsPrefix(w);
    var r := Step(w, a);
    forall k | 0 <= k <= |r.unsynced| ensures MayBecome(r, Ops(r.durable, r.unsynced[..k])) {
      assert MayBecome(w, Ops(w.durable, w.unsynced[..k]));
    }
  }

  lemma RenameKeepsShape<B>(w: Wal<B>)
    requires Inv(w) && w.writer == FileSynced
    ensures Shape(Step(w, RenameSegment)) && WriterStands(Step(w, RenameSegment))
  {
    WholeIsPrefix(w);
    var r := Step(w, RenameSegment);
    forall k | 0 <= k <= |w.unsynced| ensures MayBecome(r, Ops(w.durable, w.unsynced[..k])) {
      assert MayBecome(w, Ops(w.durable, w.unsynced[..k]));
    }
    DirectoryOpKeeps(w, Renamed, r);
  }

  lemma CreateKeepsShape<B>(w: Wal<B>)
    requires Inv(w) && w.writer == DirSynced
    ensures Shape(Step(w, CreateSegment)) && WriterStands(Step(w, CreateSegment))
  {
    hide Ops, AcksKept, Stranded, Undone;
    WholeIsPrefix(w);
    var r := Step(w, CreateSegment);
    forall k | 0 <= k <= |w.unsynced| ensures MayBecome(r, Ops(w.durable, w.unsynced[..k])) {
      CreateMayBecome(w, Ops(w.durable, w.unsynced[..k]));
    }
    DirectoryOpKeeps(w, Created, r);
    CreateKeepsPlace(w);
  }

  /** What a crash could leave before the segment was created, it can leave after. */
  lemma CreateMayBecome<B>(w: Wal<B>, l: Listing)
    requires w.writer == DirSynced && !w.listing.isOpen && MayBecome(w, l) && l.next == w.listing.next && l.isOpen == w.listing.isOpen
    ensures MayBecome(Step(w, CreateSegment), l)
  {
  }

  /** A new, empty open segment moves neither the checkpoint nor what it points to. */
  lemma CreateKeepsPlace<B>(w: Wal<B>)
    requires w.writer == DirSynced && !w.listing.isOpen
    ensures var r := Step(w, CreateSegment);
            && (Placed(w) ==> Placed(r)) && (Stranded(w) ==> Stranded(r)) && !Undone(w)
            && r.synced == 0 && At(r, r.listing.next) == []
  {
  }

  lemma RemoveKeepsShape<B>(w: Wal<B>)
    requires Inv(w)
    ensures Shape(Step(w, RemoveSegment)) && WriterStands(Step(w, RemoveSegment))
  {
    WholeIsPrefix(w);
    var r := Step(w, RemoveSegment);
    if r != w {
      forall k | 0 <= k <= |w.unsynced| ensures MayBecome(r, Ops(w.durable, w.unsynced[..k])) {
        assert MayBecome(w, Ops(w.durable, w.unsynced[..k]));
      }
      DirectoryOpKeeps(w, Removed, r);
      if w.writer.Ready? || w.writer.FileSynced? || w.writer.DirSynced? {
        OpsAppend(w.durable, w.unsynced, Removed);
        forall k | 0 <= k <= |r.unsynced|
          ensures Ops(r.durable, r.unsynced[..k]).next == r.listing.next
          ensures Ops(r.durable, r.unsynced[..k]).isOpen == r.listing.isOpen
        {
          assert k == |r.unsynced| ==> r.unsynced[..k] == r.unsynced;
          assert k <= |w.unsynced| ==> r.unsynced[..k] == w.unsynced[..k];
        }
      }
    }
  }

  lemma SyncsKeepShape<B>(w: Wal<B>, a: Action<B>)
    requires Inv(w) && (a.SyncDirectory? || a.SyncCreated? || a.FlushDirectory? || a.Serve?)
    ensures Shape(Step(w, a)) && WriterStands(Step(w, a))
  {
    FlushKeeps(w);
    WholeIsPrefix(w);
  }

  lemma ReopenKeepsShape<B>(w: Wal<B>)
    requires Inv(w)
    ensures Shape(Step(w, Reopen)) && WriterStands(Step(w, Reopen))
  {
    WholeIsPrefix(w);
  }

  lemma CrashKeepsShape<B>(w: Wal<B>, kept: nat, cut: nat)
    requires Inv(w)
    ensures Shape(Crashed(w, kept, cut)) && WriterStands(Crashed(w, kept, cut))
  {
    WholeIsPrefix(w);
    var l := AfterCrash(w, kept);
    assert MayBecome(w, l) && w.durable.first <= l.first by {
      assert w.unsynced[..|w.unsynced|] == w.unsynced;
      OpsGrow(w.durable, if kept <= |w.unsynced| then w.unsynced[..kept] else w.unsynced);
    }
    var r := Crashed(w, kept, cut);
    assert r.unsynced[..0] == [];
    assert forall n | l.first <= n < w.listing.next && !(l.isOpen && l.next == n) :: At(r, n) == At(w, n);
  }

  // -------------------------------------------------------------- what happens to the log

  function OpenRecords<B>(w: Wal<B>): seq<B> {
    if w.listing.isOpen then At(w, w.listing.next) else []
  }

  /** With the checkpoint placed, what is pending is what is sealed, then the open segment. */
  lemma PendingSplits<B>(w: Wal<B>)
    requires Shape(w) && Placed(w)
    ensures Pending(w) == Sealed(w) + OpenRecords(w)
    ensures Unsynced(w) <= |Pending(w)|
    ensures w.checkpoint.index <= |Span(w.content, w.checkpoint.segment, w.listing.next)|
  {
    var from, next := w.checkpoint.segment, w.listing.next;
    if from < next {
      SpanOne(w.content, from);
      SpanSplit(w.content, from, from + 1, next);
    }
    SpanSplit(w.content, from, next, Top(w.listing));
    SpanOne(w.content, next);
    DropFirstOver(Span(w.content, from, next), OpenRecords(w), w.checkpoint.index);
  }

  /** Otherwise nothing pending is at risk. */
  lemma NothingUnsynced<B>(w: Wal<B>)
    requires Shape(w) && !Placed(w)
    ensures Unsynced(w) == 0
  {
  }

  lemma DurableIsDifference<B>(w: Wal<B>)
    requires Shape(w)
    ensures Durable(w) == |Log(w)| - Unsynced(w)
  {
    if Placed(w) {
      PendingSplits(w);
    } else {
      NothingUnsynced(w);
    }
  }

  lemma WriteAppends<B>(w: Wal<B>, record: B)
    requires Inv(w) && w.writer == Ready && w.serving
    ensures Log(Step(w, Write(record))) == Log(w) + [record]
    ensures Unsynced(Step(w, Write(record))) == Unsynced(w) + 1
  {
    hide Span;
    var r := Step(w, Write(record));
    WriterKeepsShape(w, Write(record));
    PendingSplits(w);
    PendingSplits(r);
    SpanAgrees(w.content, r.content, w.checkpoint.segment, w.listing.next);
    assert w.published + (Sealed(w) + (OpenRecords(w) + [record])) == Log(w) + [record];
  }

  lemma CommitMoves<B>(w: Wal<B>, count: nat)
    requires Inv(w) && w.serving && 1 <= count <= |Sealed(w)|
    ensures var r := Step(w, Commit(count));
            Shape(r) && WriterStands(r) && Log(r) == Log(w) && r.published == Log(w)[..|r.published|]
  {
    hide Shape, WriterStands, Log, Placed;
    CommitMovesLog(w, count);
    CommitKeepsShape(w, count);
  }

  lemma CommitMovesLog<B>(w: Wal<B>, count: nat)
    requires Inv(w) && w.serving && 1 <= count <= |Sealed(w)|
    ensures var r := Step(w, Commit(count));
            Log(r) == Log(w) && r.published == Log(w)[..|r.published|] && Placed(r)
  {
    hide Span, Walk, Inv, DropFirst, Sealed, Placed, OpenRecords;
    assert Shape(w) && Placed(w) by { ServingStands(w); }
    hide Shape;
    var r := Step(w, Commit(count));
    var from, index, top := w.checkpoint.segment, w.checkpoint.index, Top(w.listing);
    PendingSplits(w);
    CommitWalks(w, count);
    DropMore(Span(w.content, from, top), index, count);
    assert Pending(r) == Pending(w)[count..];
    assert Sealed(w)[..count] == Pending(w)[..count];
  }

  lemma ServingStands<B>(w: Wal<B>)
    requires Inv(w) && w.serving
    ensures Shape(w) && Placed(w)
  {
  }

  lemma DropMore<B>(records: seq<B>, n: nat, k: nat)
    requires k <= |DropFirst(records, n)|
    ensures DropFirst(records, n + k) == DropFirst(records, n)[k..]
  {
  }

  /** Where the checkpoint goes, and what is pending there. */
  lemma CommitWalks<B>(w: Wal<B>, count: nat)
    requires Shape(w) && Placed(w) && w.serving && 1 <= count <= |Sealed(w)|
    ensures var r := Step(w, Commit(count));
            && Pending(r) == DropFirst(Span(w.content, w.checkpoint.segment, Top(w.listing)), w.checkpoint.index + count)
            && Placed(r)
  {
    hide Span, Walk, Ops, MayBecome, Undone, Stranded;
    var r := Step(w, Commit(count));
    WalkDrops(w.content, w.checkpoint, count, w.listing.next, w.listing.next);
    WalkDrops(w.content, w.checkpoint, count, w.listing.next, Top(w.listing));
    SpanOne(w.content, r.checkpoint.segment);
  }

  lemma CommitKeepsShape<B>(w: Wal<B>, count: nat)
    requires Inv(w) && w.serving && 1 <= count <= |Sealed(w)| && Placed(Step(w, Commit(count)))
    ensures Shape(Step(w, Commit(count))) && WriterStands(Step(w, Commit(count)))
  {
    hide Walk, Ops, AcksKept, Placed, Undone, Stranded, Sealed;
    var r := Step(w, Commit(count));
    forall k | 0 <= k <= |r.unsynced| ensures MayBecome(r, Ops(r.durable, r.unsynced[..k])) {
      assert MayBecome(w, Ops(w.durable, w.unsynced[..k]));
    }
  }

  /** Sealing, reclaiming and reopening neither add, lose nor reorder a record. */
  lemma OthersKeepLog<B>(w: Wal<B>, a: Action<B>)
    requires Inv(w) && !a.Write? && !a.Commit? && !a.Crash?
    ensures Log(Step(w, a)) == Log(w) && Unsynced(Step(w, a)) <= Unsynced(w)
  {
    if a.CreateSegment? {
      CreateKeepsLog(w);
    } else if a.Reopen? {
      ReopenKeepsLog(w);
    } else {
      hide Span, Placed, Undone, Stranded, MayBecome, Settled, AcksKept, Ops;
    }
  }

  lemma CreateKeepsLog<B>(w: Wal<B>)
    requires Inv(w)
    ensures Log(Step(w, CreateSegment)) == Log(w) && Unsynced(Step(w, CreateSegment)) <= Unsynced(w)
  {
    hide MayBecome, Settled, AcksKept, Ops, Placed, Undone, Stranded;
    var r := Step(w, CreateSegment);
    if w.writer == DirSynced {
      var from, next := w.checkpoint.segment, w.listing.next;
      SpanAgrees(w.content, r.content, from, next);
      if from <= next {
        SpanSplit(r.content, from, next, next + 1);
        SpanOne(r.content, next);
      }
    }
  }

  lemma ReopenKeepsLog<B>(w: Wal<B>)
    requires Inv(w)
    ensures Log(Step(w, Reopen)) == Log(w) && Unsynced(Step(w, Reopen)) <= Unsynced(w)
  {
    hide MayBecome, Settled, AcksKept, Ops;
  }

  /** A crash keeps every durable record, and cuts the log only at its end. */
  lemma CrashCutsTail<B>(w: Wal<B>, kept: nat, cut: nat)
    requires Inv(w)
    ensures var r := Crashed(w, kept, cut);
            Log(r) <= Log(w) && Durable(w) <= |Log(r)| && Unsynced(r) == 0
  {
    hide Span;
    CrashKeepsShape(w, kept, cut);
    WholeIsPrefix(w);
    var l := AfterCrash(w, kept);
    assert MayBecome(w, l) by {
      assert w.unsynced[..|w.unsynced|] == w.unsynced;
    }
    var r := Crashed(w, kept, cut);
    DurableIsDifference(w);
    if l.next != w.listing.next {
      assert r.content == w.content && Top(l) == Top(w.listing);
    } else if Placed(w) {
      CrashCutsOpen(w, r);
    } else {
      SpanAgrees(w.content, r.content, w.checkpoint.segment, Top(l));
      if Stranded(w) {
        SpanEmpty(w.content, w.checkpoint.segment, Top(l));
        SpanEmpty(w.content, w.checkpoint.segment, Top(w.listing));
      }
    }
  }

  lemma SpanEmpty<B>(content: map<nat, seq<B>>, from: nat, to: nat)
    requires to <= from
    ensures Span(content, from, to) == []
  {
  }

  /** With the same segments, a crash can only shorten the open one, and not below its synced length. */
  lemma CrashCutsOpen<B>(w: Wal<B>, r: Wal<B>)
    requires Shape(w) && Placed(w) && Shape(r) && Placed(r)
    requires r.published == w.published && r.checkpoint == w.checkpoint && r.listing.next == w.listing.next
    requires forall n: nat | n < w.listing.next :: (n in w.content <==> n in r.content) && At(r, n) == At(w, n)
    requires OpenRecords(r) <= OpenRecords(w) && (w.listing.isOpen ==> w.synced <= |OpenRecords(r)|)
    ensures Log(r) <= Log(w) && Durable(w) <= |Log(r)|
  {
    hide Span;
    PendingSplits(w);
    PendingSplits(r);
    DurableIsDifference(w);
    SpanAgrees(w.content, r.content, w.checkpoint.segment, w.listing.next);
    assert Sealed(w) == Sealed(r);
    assert w.published + (Sealed(w) + OpenRecords(r)) <= w.published + (Sealed(w) + OpenRecords(w));
  }

  /** And every such cut can happen: nothing that was not fsynced is safe. */
  lemma CrashMayCut<B>(w: Wal<B>, kept: nat, k: nat) returns (cut: nat)
    requires Inv(w) && w.writer == Ready && w.serving && Durable(w) <= k <= |Log(w)|
    ensures Log(Step(w, Crash(kept, cut))) == Log(w)[..k]
  {
    hide Span;
    DurableIsDifference(w);
    PendingSplits(w);
    var open := OpenRecords(w);
    cut := |open| - (|Log(w)| - k);
    var r := Crashed(w, kept, cut);
    CrashKeepsShape(w, kept, cut);
    assert r.listing.next == w.listing.next && r.listing.isOpen by { CrashKeepsOpen(w, kept); }
    PendingSplits(r);
    assert OpenRecords(r) == open[..cut];
    SpanAgrees(w.content, r.content, w.checkpoint.segment, w.listing.next);
    assert w.published + (Sealed(w) + open[..cut]) == (w.published + (Sealed(w) + open))[..k];
  }

  lemma CrashKeepsOpen<B>(w: Wal<B>, kept: nat)
    requires Inv(w) && w.writer == Ready
    ensures AfterCrash(w, kept).next == w.listing.next && AfterCrash(w, kept).isOpen
  {
    assert w.unsynced[..|w.unsynced|] == w.unsynced;
  }

  // ------------------------------------------------------------------- main results

  lemma StepKeepsShape<B>(w: Wal<B>, a: Action<B>)
    requires Inv(w)
    ensures Shape(Step(w, a)) && WriterStands(Step(w, a))
  {
    hide Shape, WriterStands, AcksKept, Step;
    match a
    case Write(_) => WriterKeepsShape(w, a);
    case SyncAndAck => WriterKeepsShape(w, a);
    case SyncSegment => WriterKeepsShape(w, a);
    case Fail => WriterKeepsShape(w, a);
    case RenameSegment => if w.writer == FileSynced { RenameKeepsShape(w); } else { Disabled(w, a); }
    case CreateSegment => if w.writer == DirSynced { CreateKeepsShape(w); } else { Disabled(w, a); }
    case RemoveSegment => RemoveKeepsShape(w);
    case Commit(count) => if w.serving && 1 <= count <= |Sealed(w)| { CommitMoves(w, count); } else { Disabled(w, a); }
    case Crash(kept, cut) => CrashKeepsShape(w, kept, cut); IsCrash(w, kept, cut);
    case Reopen => ReopenKeepsShape(w);
    case SyncDirectory => SyncsKeepShape(w, a);
    case SyncCreated => SyncsKeepShape(w, a);
    case FlushDirectory => SyncsKeepShape(w, a);
    case Serve => SyncsKeepShape(w, a);
  }

  lemma IsCrash<B>(w: Wal<B>, kept: nat, cut: nat)
    ensures Step(w, Crash(kept, cut)) == Crashed(w, kept, cut)
  {
  }

  lemma Disabled<B>(w: Wal<B>, a: Action<B>)
    requires a.RenameSegment? ==> w.writer != FileSynced
    requires a.CreateSegment? ==> w.writer != DirSynced
    requires a.Commit? ==> !(w.serving && 1 <= a.count <= |Sealed(w)|)
    requires a.RenameSegment? || a.CreateSegment? || a.Commit?
    ensures Step(w, a) == w
  {
  }

  /** Everything durable stays in the log, in place; outside a crash nothing at all leaves it. */
  lemma StepKeepsLog<B>(w: Wal<B>, a: Action<B>)
    requires Inv(w)
    ensures Durable(w) <= Durable(Step(w, a)) && Log(w)[..Durable(w)] <= Log(Step(w, a))
    ensures !a.Crash? ==> Log(w) <= Log(Step(w, a))
  {
    hide Shape, WriterStands, AcksKept, Span, Walk, Pending, Unsynced;
    StepKeepsShape(w, a);
    var r := Step(w, a);
    DurableIsDifference(w);
    DurableIsDifference(r);
    if a.Write? {
      if w.writer == Ready && w.serving { WriteAppends(w, a.record); }
    } else if a.Commit? {
      if w.serving && 1 <= a.count <= |Sealed(w)| { CommitMoves(w, a.count); CommitKeepsOpen(w, a.count); }
    } else if a.Crash? {
      CrashCutsTail(w, a.kept, a.cut);
    } else {
      OthersKeepLog(w, a);
    }
  }

  lemma CommitKeepsOpen<B>(w: Wal<B>, count: nat)
    ensures Unsynced(Step(w, Commit(count))) == Unsynced(w)
  {
  }

  lemma StepKeepsInv<B>(w: Wal<B>, a: Action<B>)
    requires Inv(w)
    ensures Inv(Step(w, a))
  {
    hide Shape, WriterStands, Span, Walk, Durable, Log, Unsynced;
    StepKeepsShape(w, a);
    StepKeepsLog(w, a);
    DurableIsDifference(w);
    var r := Step(w, a);
    if a.SyncAndAck? && r != w {
      AckIsDurable(w);
    } else {
      assert r.acked == w.acked;
    }
  }

  /** At the group fsync every record written so far is durable. */
  lemma AckIsDurable<B>(w: Wal<B>)
    requires Inv(w) && w.writer == Ready && w.serving
    ensures AcksKept(Step(w, SyncAndAck))
  {
    hide Shape, Span;
    var r := Step(w, SyncAndAck);
    StepKeepsShape(w, SyncAndAck);
    OthersKeepLog(w, SyncAndAck);
    DurableIsDifference(r);
    DurableIsDifference(w);
  }

  lemma FreshInv<B>()
    ensures Inv(Fresh<B>())
  {
    assert Fresh<B>().unsynced[..0] == [];
  }

  lemma {:induction false} RunKeepsInv<B>(actions: seq<Action<B>>)
    ensures Inv(Run(Fresh(), actions))
    decreases |actions|
  {
    hide Inv;
    if actions == [] {
      FreshInv<B>();
    } else {
      RunKeepsInv(actions[..|actions| - 1]);
      StepKeepsInv(Run(Fresh(), actions[..|actions| - 1]), actions[|actions| - 1]);
    }
  }

  /**
   In every run, with a crash allowed at any step: each acknowledged record has been
   published, or is still in the log at or after the committed checkpoint.
   */
  lemma AcknowledgedSurvive<B>(actions: seq<Action<B>>, i: nat)
    requires i in Run(Fresh<B>(), actions).acked
    ensures var w := Run(Fresh<B>(), actions);
            if i < |w.published| then w.published[i] == w.acked[i]
            else i < |w.published| + |Pending(w)| && Pending(w)[i - |w.published|] == w.acked[i]
  {
    hide Shape, WriterStands, Span, Pending, Unsynced, Run;
    RunKeepsInv(actions);
    var w := Run(Fresh<B>(), actions);
    assert i < Durable(w) && Log(w)[i] == w.acked[i];
  }

  /** What was acknowledged, and what was published, stays so whatever happens next. */
  lemma {:induction false} NothingTakenBack<B>(w: Wal<B>, more: seq<Action<B>>)
    requires Inv(w)
    ensures var r := Run(w, more);
            Inv(r) && w.published <= r.published && (forall i <- w.acked :: i in r.acked && r.acked[i] == w.acked[i])
    decreases |more|
  {
    hide Inv, Log, Sealed, Walk, Crashed, Reopened;
    if more != [] {
      var before := Run(w, more[..|more| - 1]);
      NothingTakenBack(w, more[..|more| - 1]);
      var last := more[|more| - 1];
      StepKeepsInv(before, last);
      StepTakesNothingBack(before, last);
    }
  }

  lemma StepTakesNothingBack<B>(w: Wal<B>, a: Action<B>)
    requires Inv(w)
    ensures var r := Step(w, a);
            w.published <= r.published && (forall i <- w.acked :: i in r.acked && r.acked[i] == w.acked[i])
  {
    if a.SyncAndAck? {
      DurableIsDifference(w);
    }
  }

  // ------------------------------------------------------------------------ reopening

  /** Recovery up to serving: open, seal whatever the open segment holds, read at the checkpoint. */
  function Boot<B>(): seq<Action<B>> {
    [Reopen, SyncSegment, RenameSegment, SyncDirectory, CreateSegment, SyncCreated, Serve]
  }

  /** The segment the writer ends up appending to. */
  function ActiveAfterBoot<B>(w: Wal<B>): nat {
    if w.listing.isOpen then (if At(w, w.listing.next) == [] then w.listing.next else w.listing.next + 1)
    else if w.listing.first < w.listing.next then w.listing.next
    else 1
  }

  lemma RunAppend<B>(w: Wal<B>, actions: seq<Action<B>>, a: Action<B>)
    ensures Run(w, actions + [a]) == Step(Run(w, actions), a)
  {
    assert (actions + [a])[..|actions|] == actions;
  }

  lemma {:induction false} RunConcat<B>(w: Wal<B>, a: seq<Action<B>>, b: seq<Action<B>>)
    ensures Run(w, a + b) == Run(Run(w, a), b)
    decreases |b|
  {
    if b == [] {
      assert a + b == a;
    } else {
      assert a + b == (a + b[..|b| - 1]) + [b[|b| - 1]];
      RunAppend(w, a + b[..|b| - 1], b[|b| - 1]);
      RunConcat(w, a, b[..|b| - 1]);
    }
  }

  lemma RunFirst<B>(w: Wal<B>, a: Action<B>, rest: seq<Action<B>>)
    ensures Run(w, [a] + rest) == Run(Step(w, a), rest)
  {
    RunConcat(w, [a], rest);
    assert [a][..0] == [];
    assert Run(w, [a]) == Step(Run(w, []), a);
  }

  lemma BootUnrolled<B>(w: Wal<B>)
    ensures Run(w, Boot())
         == Step(Step(Step(Step(Step(Step(Step(w, Reopen), SyncSegment), RenameSegment), SyncDirectory), CreateSegment), SyncCreated), Serve)
  {
    hide Step, Run;
    var w1 := Step(w, Reopen);
    var w2 := Step(w1, SyncSegment);
    var w3 := Step(w2, RenameSegment);
    var w4 := Step(w3, SyncDirectory);
    var w5 := Step(w4, CreateSegment);
    var w6 := Step(w5, SyncCreated);
    assert Boot<B>() == [Reopen] + ([SyncSegment] + ([RenameSegment] + ([SyncDirectory] + ([CreateSegment] + ([SyncCreated] + ([Serve] + []))))));
    RunFirst(w, Reopen, [SyncSegment] + ([RenameSegment] + ([SyncDirectory] + ([CreateSegment] + ([SyncCreated] + ([Serve] + []))))));
    RunFirst(w1, SyncSegment, [RenameSegment] + ([SyncDirectory] + ([CreateSegment] + ([SyncCreated] + ([Serve] + [])))));
    RunFirst(w2, RenameSegment, [SyncDirectory] + ([CreateSegment] + ([SyncCreated] + ([Serve] + []))));
    RunFirst(w3, SyncDirectory, [CreateSegment] + ([SyncCreated] + ([Serve] + [])));
    RunFirst(w4, CreateSegment, [SyncCreated] + ([Serve] + []));
    RunFirst(w5, SyncCreated, [Serve] + []);
    RunFirst(w6, Serve, []);
    RunNothing(Step(w6, Serve));
  }

  lemma RunNothing<B>(w: Wal<B>)
    ensures Run(w, []) == w
  {
  }

  /**
   Reopening succeeds exactly when the checkpoint's segment exists once the writer
   has its active one: always, if a segment file survived that the checkpoint knows of.
   */
  lemma ReopenSucceedsIff<B>(w: Wal<B>)
    requires Inv(w) && w.writer == Down
    ensures Run(w, Boot()).serving <==> w.checkpoint.segment <= ActiveAfterBoot(w)
    ensures (w.listing.isOpen || w.listing.first < w.listing.next) && !Stranded(w) ==> Run(w, Boot()).serving
    ensures !w.listing.isOpen && w.listing.first == w.listing.next ==> (Run(w, Boot()).serving <==> w.checkpoint.segment == 1)
  {
    hide Run, Step, Shape, WriterStands, AcksKept;
    BootUnrolled(w);
    var atOpen := Step(w, Reopen);
    StepKeepsInv(w, Reopen);
    OpenStage(w);
    var ended := Step(Step(Step(atOpen, SyncSegment), RenameSegment), SyncDirectory);
    SealStage(atOpen);
    var ready := Step(Step(ended, CreateSegment), SyncCreated);
    CreateStage(ended);
    ServeStage(ready);
    CheckpointNotBefore(w);
  }

  lemma OpenStage<B>(w: Wal<B>)
    requires Inv(w) && w.writer == Down
    ensures var r := Step(w, Reopen);
            && r.checkpoint == w.checkpoint && !r.serving && r.content == w.content
            && (if w.listing.isOpen then r.writer == Ready && r.listing == w.listing
                else r.writer == DirSynced && r.listing.next == ActiveAfterBoot(w)
                     && r.listing.first == if w.listing.first < w.listing.next then w.listing.first else 1)
  {
  }

  lemma SealStage<B>(w: Wal<B>)
    requires !w.serving && (w.writer == Ready || w.writer == DirSynced)
    ensures var r := Step(Step(Step(w, SyncSegment), RenameSegment), SyncDirectory);
            && r.checkpoint == w.checkpoint && !r.serving && r.listing.first == w.listing.first
            && (if w.writer == Ready && At(w, w.listing.next) != [] then r.writer == DirSynced && r.listing.next == w.listing.next + 1
                else r == w)
  {
    var a := Step(w, SyncSegment);
    var b := Step(a, RenameSegment);
    assert a.writer == Ready || a.writer == DirSynced ==> a == w && b == w;
  }

  lemma CreateStage<B>(w: Wal<B>)
    requires !w.serving && (w.writer == DirSynced || (w.writer == Ready && At(w, w.listing.next) == []))
    ensures var r := Step(Step(w, CreateSegment), SyncCreated);
            && r.checkpoint == w.checkpoint && !r.serving && r.listing.first == w.listing.first
            && r.listing.next == w.listing.next && r.writer == Ready && At(r, r.listing.next) == []
  {
    var a := Step(w, CreateSegment);
    assert w.writer == Ready ==> a == w;
  }

  lemma ServeStage<B>(w: Wal<B>)
    requires !w.serving && w.writer == Ready && At(w, w.listing.next) == []
    ensures Step(w, Serve).serving <==> CheckpointExists(w)
  {
  }

  lemma CheckpointNotBefore<B>(w: Wal<B>)
    requires Inv(w) && w.writer == Down
    ensures w.listing.first <= w.checkpoint.segment
    ensures (w.listing.isOpen || w.listing.first < w.listing.next) && !Stranded(w) ==> w.checkpoint.segment <= ActiveAfterBoot(w)
    ensures 1 <= w.checkpoint.segment
  {
  }

  /** Nothing acknowledged is lost even then: all of it was published. */
  lemma StrandedLostNothing<B>(w: Wal<B>, i: nat)
    requires Inv(w) && Stranded(w) && i in w.acked
    ensures i < |w.published| && w.published[i] == w.acked[i]
  {
    SpanEmpty(w.content, w.checkpoint.segment, Top(w.listing));
  }

  /** But no later reopening ever serves again. */
  lemma {:induction false} StrandedForGood<B>(w: Wal<B>, more: seq<Action<B>>)
    requires Inv(w) && Stranded(w)
    ensures Stranded(Run(w, more)) && !Run(w, more).serving
    decreases |more|
  {
    if more != [] {
      var before := Run(w, more[..|more| - 1]);
      NothingTakenBack(w, more[..|more| - 1]);
      StrandedForGood(w, more[..|more| - 1]);
      StrandedStays(before, more[|more| - 1]);
    }
  }

  lemma StrandedStays<B>(w: Wal<B>, a: Action<B>)
    requires Inv(w) && Stranded(w)
    ensures Stranded(Step(w, a))
  {
    StepKeepsShape(w, a);
    if a.Crash? {
      assert w.unsynced[..|w.unsynced|] == w.unsynced;
      assert MayBecome(w, AfterCrash(w, a.kept));
    }
  }

  /** One acknowledged batch, published and reclaimed while its segment is being sealed, then a crash before the next segment exists. */
  function MidSealCrash<B>(record: B): seq<Action<B>> {
    [Reopen, CreateSegment, SyncCreated, Serve, Write(record), SyncAndAck, SyncSegment, RenameSegment]
    + [Commit(1), RemoveSegment, FlushDirectory, Crash(0, 0)]
  }

  lemma RunPrefix<B>(w: Wal<B>, actions: seq<Action<B>>, k: nat)
    requires k < |actions|
    ensures Run(w, actions[..k + 1]) == Step(Run(w, actions[..k]), actions[k])
  {
    assert actions[..k + 1] == actions[..k] + [actions[k]];
    RunAppend(w, actions[..k], actions[k]);
  }

  /** From a stranded log the remaining steps of a boot acknowledge and publish nothing. */
  lemma BootStays<B>(w: Wal<B>)
    requires Inv(w) && Stranded(w)
    ensures var r := Step(Step(Step(Step(Step(Step(w, SyncSegment), RenameSegment), SyncDirectory), CreateSegment), SyncCreated), Serve);
            Stranded(r) && r.acked == w.acked && r.published == w.published
  {
    hide Step, Shape, WriterStands, AcksKept;
    BootStepStays(w, SyncSegment);
    var a := Step(w, SyncSegment);
    BootStepStays(a, RenameSegment);
    var b := Step(a, RenameSegment);
    BootStepStays(b, SyncDirectory);
    var c := Step(b, SyncDirectory);
    BootStepStays(c, CreateSegment);
    var d := Step(c, CreateSegment);
    BootStepStays(d, SyncCreated);
    BootStepStays(Step(d, SyncCreated), Serve);
  }

  lemma BootStepStays<B>(w: Wal<B>, a: Action<B>)
    requires Inv(w) && Stranded(w)
    ensures Inv(Step(w, a)) && Stranded(Step(w, a)) && Step(w, a).acked == w.acked && Step(w, a).published == w.published
  {
    hide Shape, WriterStands, AcksKept, Span, Walk;
    StepKeepsInv(w, a);
    StrandedStays(w, a);
  }

  function Serving1<B>(): Wal<B> {
    Wal(Listing(1, 1, true), Listing(1, 1, true), [], map[1 := []], 0, Mark(1, 0), [], 0, map[], Ready, true)
  }

  function MidSeal1<B>(record: B): Wal<B> {
    Wal(Listing(1, 2, false), Listing(1, 1, true), [Renamed], map[1 := [record]], 0, Mark(1, 0), [], 1, map[0 := record],
        RenamedSegment, true)
  }

  function NoSegment1<B>(record: B): Wal<B> {
    Wal(Listing(2, 2, false), Listing(2, 2, false), [], map[1 := [record]], 0, Mark(2, 0), [record], 1, map[0 := record],
        Down, false)
  }

  lemma FirstServes<B>()
    ensures Step(Step(Step(Step(Fresh<B>(), Reopen), CreateSegment), SyncCreated), Serve) == Serving1<B>()
  {
    var w2 := Step(Step(Fresh<B>(), Reopen), CreateSegment);
    assert w2 == Fresh<B>().(listing := Listing(1, 1, true), unsynced := [Created], content := map[1 := []], writer := CreatedSegment);
  }

  lemma ThenSealsHalfWay<B>(record: B)
    ensures Step(Step(Step(Step(Serving1(), Write(record)), SyncAndAck), SyncSegment), RenameSegment) == MidSeal1(record)
  {
    var w5 := Step(Serving1(), Write(record));
    assert [] + [record] == [record];
    assert map[1 := []][1 := [record]] == map[1 := [record]];
    assert w5 == Serving1().(content := map[1 := [record]]);
    SpanOne(w5.content, 1);
    assert Log(w5) == [record];
    var w6 := Step(w5, SyncAndAck);
    assert Acknowledged(w5) == map[0 := record];
    assert w6 == w5.(synced := 1, acked := map[0 := record], groupStart := 1);
  }

  lemma ThenLosesIt<B>(record: B)
    ensures Step(Step(Step(Step(MidSeal1(record), Commit(1)), RemoveSegment), FlushDirectory), Crash(0, 0)) == NoSegment1(record)
  {
    var w8 := MidSeal1(record);
    SpanOne(w8.content, 1);
    assert Sealed(w8) == [record];
    var w9 := Step(w8, Commit(1));
    assert Walk(w8.content, Mark(1, 0), 1, 2) == Walk(w8.content, Mark(2, 0), 0, 2) == Mark(2, 0);
    assert w9 == w8.(published := [record], checkpoint := Mark(2, 0));
    var w11 := Step(Step(w9, RemoveSegment), FlushDirectory);
    assert w11 == w9.(listing := Listing(2, 2, false), durable := Listing(2, 2, false), unsynced := []);
    SpanEmpty(w11.content, 2, 2);
  }

  lemma MidSealState<B>(record: B)
    ensures Run(Fresh(), MidSealCrash(record)) == NoSegment1(record)
  {
    hide Step, Run, Serving1, MidSeal1, NoSegment1;
    var run := MidSealCrash(record);
    RunNothing(Fresh<B>());
    assert run[..0] == [] && run[..12] == run;
    FourSteps(Fresh(), run, 0);
    FirstServes<B>();
    assert Run(Fresh(), run[..4]) == Serving1<B>();
    FourSteps(Fresh(), run, 4);
    ThenSealsHalfWay(record);
    FourSteps(Fresh(), run, 8);
    ThenLosesIt(record);
  }

  lemma FourSteps<B>(w: Wal<B>, run: seq<Action<B>>, k: nat)
    requires k + 4 <= |run|
    ensures Run(w, run[..k + 4]) == Step(Step(Step(Step(Run(w, run[..k]), run[k]), run[k + 1]), run[k + 2]), run[k + 3])
  {
    hide Step, Run;
    RunPrefix(w, run, k);
    RunPrefix(w, run, k + 1);
    RunPrefix(w, run, k + 2);
    RunPrefix(w, run, k + 3);
  }

  /** Such a run leaves a log that cannot be reopened, although every step of it is one the program takes. */
  lemma MidSealCrashStrands<B>(record: B)
    ensures var w := Run(Run(Fresh(), MidSealCrash(record)), Boot());
            Stranded(w) && !w.serving && w.acked == map[0 := record] && w.published == [record]
  {
    hide Run, Shape, WriterStands, AcksKept;
    RunKeepsInv(MidSealCrash(record));
    MidSealState(record);
    var down := NoSegment1(record);
    BootUnrolled(down);
    StepKeepsInv(down, Reopen);
    var reopened := Step(down, Reopen);
    assert Stranded(reopened) && reopened.acked == down.acked && reopened.published == down.published;
    BootStays(reopened);
  }
}
