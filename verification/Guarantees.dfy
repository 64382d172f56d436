/**
 What the pipeline promises, over every run from a new installation: crashes,
 reopenings, compactions and erasures at any step.
 */
module Guarantees {
  import opened Wrappers
  import opened Identity
  import opened Publication
  import opened Pipeline
  import IdentityRuns
  import WalCrash

  // ------------------------------------------------------------- ack durability

  /** An acknowledged batch is published, each of its events readable unless erased; or it is still in the log at or after the checkpoint. */
  ghost predicate Safe(s: System, i: nat, batch: Batch) {
    if i < |s.wal.published| then
      && s.wal.published[i] == batch
      && forall x <- batch :: Shown(s.files, UniqueOf(x)) || LostToErasure(s, UniqueOf(x))
    else
      i - |s.wal.published| < |WalCrash.Pending(s.wal)| && WalCrash.Pending(s.wal)[i - |s.wal.published|] == batch
  }

  lemma AcknowledgedAreSafe(actions: seq<Action>, i: nat)
    requires i in Run(Start(), actions).wal.acked
    ensures Safe(Run(Start(), actions), i, Run(Start(), actions).wal.acked[i])
  {
    hide WalCrash.Inv, WalCrash.Pending, WalCrash.Durable, Readable, Run, RowsHonest, PromisesKept, RequestsSound, RewriteOnTrack, DueRowsSwept,
         IdentityFollows, FilesPlaced, Shown, LostToErasure;
    RunKeeps(actions);
    var s := Run(Start(), actions);
    AcknowledgedInLog(s.wal, i);
    assert i < |s.wal.published| ==> WalCrash.Log(s.wal)[i] == s.wal.published[i];
  }

  lemma AcknowledgedInLog(w: WalCrash.Wal<Batch>, i: nat)
    requires WalCrash.Inv(w) && i in w.acked
    ensures i < |WalCrash.Log(w)| && WalCrash.Log(w)[i] == w.acked[i]
  {
    hide WalCrash.Shape, WalCrash.WriterStands, WalCrash.Pending;
  }

  // ------------------------------------------------------------------- exactly once

  predicate NothingErased(actions: seq<Action>) {
    forall a <- actions :: a != ErasePerson
  }

  /** An event occurs in a published record. */
  ghost predicate WasPublished(s: System, u: Unique) {
    exists i, x :: 0 <= i < |s.wal.published| && x in s.wal.published[i] && UniqueOf(x) == u
  }

  /**
   The readable events are exactly those of the published prefix of the log, the
   identity projection is exactly the committed windows applied in order, and the
   windows tile that prefix.
   */
  lemma ExactlyOnce(actions: seq<Action>, u: Unique)
    requires NothingErased(actions)
    ensures var s := Run(Start(), actions);
            && (Shown(s.files, u) <==> WasPublished(s, u))
            && s.identity == Folded(s.commits) && Windows(s.commits) == s.wal.published
            && s.wal.published <= WalCrash.Log(s.wal)
            && (forall c <- s.commits :: c.Window?)
  {
    hide WalCrash.Inv, Readable, PromisesKept, RequestsSound, RewriteOnTrack, Folded, Windows;
    RunKeeps(actions);
    OnlyWindows(actions);
    var s := Run(Start(), actions);
    if Shown(s.files, u) {
      var r :| r in Readable(s.files) && UniqueOf(r.item) == u;
      assert r.item in s.wal.published[r.origin];
    }
  }

  /** With erasures too, the projection is the committed windows and erasures in order, and only an erasure makes a published event unreadable. */
  lemma CommitsExplainState(actions: seq<Action>, u: Unique)
    ensures var s := Run(Start(), actions);
            && s.identity == Folded(s.commits) && Windows(s.commits) == s.wal.published
            && (Shown(s.files, u) ==> WasPublished(s, u))
            && (WasPublished(s, u) ==> Shown(s.files, u) || LostToErasure(s, u))
  {
    hide WalCrash.Inv, Readable, PromisesKept, RequestsSound, RewriteOnTrack, Folded, Windows;
    RunKeeps(actions);
    var s := Run(Start(), actions);
    if Shown(s.files, u) {
      var r :| r in Readable(s.files) && UniqueOf(r.item) == u;
      assert r.item in s.wal.published[r.origin];
    }
  }

  lemma {:induction false} OnlyWindows(actions: seq<Action>)
    requires NothingErased(actions)
    ensures var s := Run(Start(), actions); s.pending == {} && s.swept == map[] && forall c <- s.commits :: c.Window?
    decreases |actions|
  {
    hide Enabled, Step;
    if actions != [] {
      var front, last := actions[..|actions| - 1], actions[|actions| - 1];
      assert forall a <- front :: a in actions;
      assert last in actions;
      OnlyWindows(front);
      if Enabled(Run(Start(), front), last) {
        CommitsGrow(Run(Start(), front), last);
      }
    }
  }

  lemma CommitsGrow(s: System, a: Action)
    requires Valid(s.identity) && Enabled(s, a) && a != ErasePerson
    ensures var r := Step(s, a);
            && (r.commits == s.commits || exists batches :: r.commits == s.commits + [Window(batches)])
            && r.pending <= s.pending && (s.pending == {} ==> r.swept == s.swept)
  {
    hide IdentityRuns.Run, WalCrash.Step, Valid, Groups, Condensed, NewFiles, FirstCopies, Rows, Rewritten;
    if a.PublishWindow? {
      assert Step(s, a).commits == s.commits + [Window(WalCrash.Sealed(s.wal)[..a.count])];
    }
  }

  /** A compaction changes no event's visibility, only how many copies of it are stored. */
  lemma CompactionKeepsEvents(s: System, inputs: set<FileName>, p: Partition, output: seq<Stored>, u: Unique)
    requires Inv(s) && Enabled(s, Compact(inputs, p, output))
    ensures var r := Step(s, Compact(inputs, p, output));
            && (Shown(r.files, u) <==> Shown(s.files, u))
            && Readable(r.files) <= Readable(s.files)
            && r.wal == s.wal && r.identity == s.identity && r.commits == s.commits
  {
    hide WalCrash.Inv, Readable, Condensed, Rewritten, PromisesKept, RequestsSound, Folded, Windows, Valid, NothingMissing;
    var r := Step(s, Compact(inputs, p, output));
    var name := FileName(p, s.generation + 1);
    assert name !in s.files;
    forall x: Stored
      ensures x in Readable(r.files) ==> x in Readable(s.files)
      ensures x in Readable(s.files) ==> exists y :: y in Readable(r.files) && UniqueOf(y.item) == UniqueOf(x.item)
    {
      RewriteKeepsOthers(s.files, inputs, name, {}, output, x);
    }
  }
}
