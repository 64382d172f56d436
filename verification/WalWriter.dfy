/**
 The writer itself: `WriteAheadLog::{write, seal, sync}` and one turn of the
 group-commit loop, with every I/O call allowed to fail. Each method is proved to
 take exactly the steps of `WalCrash`.
 */
module WalWriter {
  import opened Wrappers
  import opened WalCrash
  import WalFrame
  import WalWindow

  datatype WalError = Io | EmptyBatch | IsPoisoned | RecordTooLarge

  datatype Receipt = Receipt(start: WalWindow.Cursor, end: WalWindow.Cursor)

  /** Which I/O calls of one method succeed. */
  datatype Faults = Faults(fileSync: bool, rename: bool, directorySync: bool, create: bool, createSync: bool, write: bool)
  {
    predicate Seals() { fileSync && rename && directorySync && create && createSync }

    predicate None() { Seals() && write }
  }

  class WriteAheadLog<B(!new)> {
    const segmentTargetBytes: nat
    const maxRecordBytes: nat
    const payloadLength: B -> nat
    const isEmpty: B -> bool
    var sequence: nat
    var bytes: nat
    var poisoned: bool
    /** The log as the file system and the publisher know it. */
    ghost var wal: Wal<B>

    function Framed(record: B): nat { WalFrame.RECORD_HEADER_BYTES + payloadLength(record) }

    /** What the limits alone say of a batch. */
    predicate Acceptable(record: B) { !isEmpty(record) && payloadLength(record) <= maxRecordBytes }

    function Verdict(record: B): Result<(), WalError> {
      if isEmpty(record) then Failure(EmptyBatch)
      else if payloadLength(record) > maxRecordBytes then Failure(RecordTooLarge)
      else Success(())
    }

    ghost function Size(records: seq<B>): nat {
      if records == [] then 0 else Size(records[..|records| - 1]) + Framed(records[|records| - 1])
    }

    /** The fields describe the open segment, or the writer has given up. */
    ghost predicate Valid()
      reads this
    {
      && Inv(wal) && wal.serving
      && (if poisoned then wal.writer == WalCrash.Poisoned
          else wal.writer == Ready && sequence == wal.listing.next && bytes == Size(At(wal, sequence)))
    }

    lemma SizeAppend(records: seq<B>, record: B)
      ensures Size(records + [record]) == Size(records) + Framed(record)
    {
      assert (records + [record])[..|records|] == records;
    }

    lemma EmptyIsZero(records: seq<B>)
      ensures Size(records) == 0 <==> records == []
    {
    }

    /** An I/O failure: nothing after it can be trusted, so nothing after it is tried. */
    method Poison()
      requires Inv(wal) && wal.serving
      modifies this`poisoned, this`wal
      ensures Valid() && poisoned && Unmoved(old(wal), wal)
    {
      hide Inv, Step, Log, At, Unmoved;
      FailKeeps(wal);
      wal := Step(wal, Fail);
      poisoned := true;
    }

    /** Make the open segment immutable and start the next one: five effects, each of which may fail. */
    method SealNonempty(io: Faults) returns (error: Option<WalError>)
      requires Valid() && !poisoned && 0 < bytes
      modifies this
      ensures Valid() && Unmoved(old(wal), wal) && wal.groupStart == old(wal.groupStart)
      ensures error == (if io.Seals() then None else Some(Io))
      ensures poisoned <==> error.Some?
      ensures error.None? ==> sequence == old(sequence) + 1 && bytes == 0 && wal == Sealed5(old(wal))
    {
      hide Inv, Log, Unsynced, Step, At;
      EmptyIsZero(At(wal, sequence));
      ghost var start := wal;
      if !io.fileSync {
        Poison();
        return Some(Io);
      }
      OneStep(start, wal, SyncSegment);
      wal := Step(wal, SyncSegment);
      if !io.rename {
        Poison();
        return Some(Io);
      }
      OneStep(start, wal, RenameSegment);
      wal := Step(wal, RenameSegment);
      if !io.directorySync {
        Poison();
        return Some(Io);
      }
      OneStep(start, wal, SyncDirectory);
      wal := Step(wal, SyncDirectory);
      if !io.create {
        Poison();
        return Some(Io);
      }
      OneStep(start, wal, CreateSegment);
      wal := Step(wal, CreateSegment);
      if !io.createSync {
        Poison();
        return Some(Io);
      }
      OneStep(start, wal, SyncCreated);
      wal := Step(wal, SyncCreated);
      sequence, bytes := sequence + 1, 0;
      EmptyIsZero(At(wal, sequence));
      return None;
    }

    /** Frame and write one batch; a segment that would grow past its target is sealed first. */
    method Write(record: B, io: Faults) returns (r: Result<Receipt, WalError>)
      requires Valid()
      modifies this
      ensures Valid() && wal.groupStart == old(wal.groupStart)
      ensures wal.acked == old(wal.acked) && wal.published == old(wal.published)
      ensures old(poisoned) ==> r == Failure(IsPoisoned)
      ensures !old(poisoned) && isEmpty(record) ==> r == Failure(EmptyBatch)
      ensures !old(poisoned) && !isEmpty(record) && payloadLength(record) > maxRecordBytes ==> r == Failure(RecordTooLarge)
      ensures !old(poisoned) && !isEmpty(record) && payloadLength(record) <= maxRecordBytes && r.Failure? ==> r == Failure(Io)
      ensures r.Failure? ==> Log(wal) == old(Log(wal)) && (poisoned <==> old(poisoned) || r.error == Io)
      ensures r.Failure? && r.error != Io ==> wal == old(wal)
      ensures r.Success? ==> Log(wal) == old(Log(wal)) + [record] && !poisoned && !isEmpty(record) && payloadLength(record) <= maxRecordBytes
      ensures r.Success? ==> At(wal, sequence) != [] && At(wal, sequence)[|At(wal, sequence)| - 1] == record
      ensures r.Success? ==> r.value == Receipt(WalWindow.Cursor(sequence, bytes - Framed(record)), WalWindow.Cursor(sequence, bytes))
      ensures (r.Success? <==>
                 && !old(poisoned) && !isEmpty(record) && payloadLength(record) <= maxRecordBytes
                 && io.write && (old(bytes) > 0 && old(bytes) + Framed(record) > segmentTargetBytes ==> io.Seals()))
      ensures (r.Success? ==>
                 sequence == old(sequence) + if old(bytes) > 0 && old(bytes) + Framed(record) > segmentTargetBytes then 1 else 0)
    {
      hide Inv, Log, Unsynced, Step, At;
      if poisoned {
        return Failure(IsPoisoned);
      }
      if isEmpty(record) {
        return Failure(EmptyBatch);
      }
      if payloadLength(record) > maxRecordBytes {
        return Failure(RecordTooLarge);
      }
      if bytes > 0 && bytes + Framed(record) > segmentTargetBytes {
        var failed := SealNonempty(io);
        if failed.Some? {
          return Failure(failed.value);
        }
      }
      r := Append(record, io.write);
    }

    /** Write the frame at the end of the open segment. */
    method Append(record: B, written: bool) returns (r: Result<Receipt, WalError>)
      requires Valid() && !poisoned
      modifies this
      ensures Valid() && wal.groupStart == old(wal.groupStart) && wal.acked == old(wal.acked) && wal.published == old(wal.published)
      ensures sequence == old(sequence)
      ensures !written ==> r == Failure(Io) && poisoned && Log(wal) == old(Log(wal))
      ensures written ==>
                && r == Success(Receipt(WalWindow.Cursor(sequence, old(bytes)), WalWindow.Cursor(sequence, bytes)))
                && bytes == old(bytes) + Framed(record) && !poisoned && Log(wal) == old(Log(wal)) + [record]
                && At(wal, sequence) == old(At(wal, sequence)) + [record]
    {
      hide Inv, Log, Unsynced, Step, At;
      var start := WalWindow.Cursor(sequence, bytes);
      if !written {
        Poison();
        return Failure(Io);
      }
      SizeAppend(At(wal, sequence), record);
      WriteStep(wal, record);
      wal := Step(wal, WalCrash.Write(record));
      bytes := bytes + Framed(record);
      return Success(Receipt(start, WalWindow.Cursor(sequence, bytes)));
    }

    /**
     One turn of the writer loop: write every batch of the group, then one fsync for
     all of them. A batch is acknowledged only if its write and the fsync succeeded;
     `positions` are then its places in the log.
     */
    method CommitGroup(batches: seq<B>, io: nat -> Faults, synced: bool) returns (acks: seq<Result<(), WalError>>, ghost positions: seq<nat>)
      requires Valid() && (!poisoned ==> wal.groupStart == |Log(wal)|) && batches != []
      modifies this
      ensures Valid() && |acks| == |positions| == |batches|
      ensures !poisoned ==> wal.groupStart == |Log(wal)|
      ensures forall i | 0 <= i < |acks| :: acks[i].Success? <==> !poisoned && Acceptable(batches[i])
      ensures !poisoned ==> forall i | 0 <= i < |acks| ::
                acks[i].Failure? ==> acks[i] == Failure(if isEmpty(batches[i]) then EmptyBatch else RecordTooLarge)
      ensures old(poisoned) || !synced ==> poisoned
      ensures !old(poisoned) && !synced && (forall i | 0 <= i < |batches| :: io(i).None()) ==>
                forall i | 0 <= i < |acks| :: acks[i] == if Acceptable(batches[i]) then Failure(Io) else Verdict(batches[i])
      ensures !old(poisoned) && synced && (forall i | 0 <= i < |batches| :: io(i).None()) ==> !poisoned
      ensures (forall i | 0 <= i < |acks| && acks[i].Success? ::
                 && positions[i] in wal.acked && wal.acked[positions[i]] == batches[i]
                 && old(|Log(wal)|) <= positions[i] < |Log(wal)|)
      ensures forall i, j | 0 <= i < j < |acks| && acks[i].Success? && acks[j].Success? :: positions[i] < positions[j]
      ensures forall p <- wal.acked :: p in old(wal.acked) || HoldsAcked(acks, positions, p)
    {
      hide Inv, Unsynced, Log, Step, HoldsAcked, At, Pending;
      acks, positions := WriteAll(batches, io);
      if poisoned || !synced {
        var reason := if poisoned then IsPoisoned else Io;
        if !poisoned {
          Poison();
        }
        acks := seq(|acks|, i requires 0 <= i < |acks| => if acks[i].Success? then Failure(reason) else acks[i]);
        return;
      }
      SyncStep(wal);
      wal := Step(wal, SyncAndAck);
    }

    /** The group's writes: each batch in turn, whatever became of the ones before. */
    method WriteAll(batches: seq<B>, io: nat -> Faults) returns (acks: seq<Result<(), WalError>>, ghost positions: seq<nat>)
      requires Valid()
      modifies this
      ensures Valid() && |acks| == |positions| == |batches|
      ensures wal.groupStart == old(wal.groupStart) && wal.acked == old(wal.acked) && old(Log(wal)) <= Log(wal)
      ensures forall i | 0 <= i < |acks| && acks[i].Success? ::
                old(|Log(wal)|) <= positions[i] < |Log(wal)| && Log(wal)[positions[i]] == batches[i]
      ensures forall i, j | 0 <= i < j < |acks| && acks[i].Success? && acks[j].Success? :: positions[i] < positions[j]
      ensures forall p: nat | old(|Log(wal)|) <= p < |Log(wal)| :: HoldsAcked(acks, positions, p)
      ensures old(poisoned) ==> poisoned
      ensures !old(poisoned) && (forall i | 0 <= i < |batches| :: io(i).None()) ==> !poisoned
      ensures !poisoned ==> forall i | 0 <= i < |acks| :: acks[i] == Verdict(batches[i])
    {
      hide Inv, Unsynced, Log, Step, HoldsAcked, At, Pending, Valid;
      acks, positions := [], [];
      ghost var start := wal;
      var k := 0;
      while k < |batches|
        invariant 0 <= k <= |batches| && |acks| == |positions| == k
        invariant Valid() && wal.groupStart == start.groupStart && wal.acked == start.acked
        invariant Log(start) <= Log(wal)
        invariant forall i | 0 <= i < k && acks[i].Success? :: |Log(start)| <= positions[i] < |Log(wal)| && Log(wal)[positions[i]] == batches[i]
        invariant forall i, j | 0 <= i < j < k && acks[i].Success? && acks[j].Success? :: positions[i] < positions[j]
        invariant forall p: nat | |Log(start)| <= p < |Log(wal)| :: HoldsAcked(acks, positions, p)
        invariant old(poisoned) ==> poisoned
        invariant !old(poisoned) && (forall i | 0 <= i < k :: io(i).None()) ==> !poisoned
        invariant !poisoned ==> forall i | 0 <= i < k :: acks[i] == Verdict(batches[i])
      {
        ghost var before := Log(wal);
        var written := Write(batches[k], io(k));
        var ack: Result<(), WalError> := if written.Success? then Success(()) else Failure(written.error);
        HoldsMore(acks, positions, ack, |before|);
        acks, positions := acks + [ack], positions + [|before|];
        k := k + 1;
      }
    }
  }

  /** What the writer counts as a record's size is the size of its frame. */
  lemma FramedIsFrame<B(!new), C>(log: WriteAheadLog<B>, codec: WalFrame.Codec<C>, record: B, payload: seq<WalFrame.byte>)
    requires |payload| == log.payloadLength(record) < 0x1_0000_0000
    ensures log.Framed(record) == |WalFrame.EncodeFrame(codec, payload)|
  {
  }

  /** Log position `p` belongs to an acknowledged batch of the group. */
  ghost predicate HoldsAcked(acks: seq<Result<(), WalError>>, positions: seq<nat>, p: nat) {
    exists i :: 0 <= i < |acks| && i < |positions| && acks[i].Success? && positions[i] == p
  }

  lemma HoldsMore(acks: seq<Result<(), WalError>>, positions: seq<nat>, ack: Result<(), WalError>, at: nat)
    requires |acks| == |positions|
    ensures forall p | HoldsAcked(acks, positions, p) :: HoldsAcked(acks + [ack], positions + [at], p)
    ensures ack.Success? ==> HoldsAcked(acks + [ack], positions + [at], at)
  {
    var more, places := acks + [ack], positions + [at];
    forall p | HoldsAcked(acks, positions, p) ensures HoldsAcked(more, places, p) {
      var i :| 0 <= i < |acks| && acks[i].Success? && positions[i] == p;
      assert more[i].Success? && places[i] == p;
    }
    assert more[|acks|] == ack && places[|positions|] == at;
  }

  /** The whole seal. */
  ghost function Sealed5<B>(w: Wal<B>): Wal<B> {
    Step(Step(Step(Step(Step(w, SyncSegment), RenameSegment), SyncDirectory), CreateSegment), SyncCreated)
  }

  /** Same log, same promises. */
  ghost predicate Unmoved<B(!new)>(before: Wal<B>, after: Wal<B>) {
    && Log(after) == Log(before) && after.acked == before.acked && after.published == before.published
    && after.groupStart == before.groupStart
  }

  lemma FailKeeps<B(!new)>(w: Wal<B>)
    requires Inv(w) && w.serving
    ensures var r := Step(w, Fail); Inv(r) && r.serving && r.writer == WalCrash.Poisoned && Unmoved(w, r)
  {
    StepKeepsInv(w, Fail);
    OthersKeepLog(w, Fail);
  }

  /** The steps of a seal keep the invariant and move nothing in the log. */
  lemma OneStep<B(!new)>(start: Wal<B>, w: Wal<B>, a: Action<B>)
    requires Inv(w) && w.serving && Unmoved(start, w)
    requires a.SyncSegment? || a.RenameSegment? || a.SyncDirectory? || a.CreateSegment? || a.SyncCreated?
    ensures var r := Step(w, a);
            && Inv(r) && r.serving && Unmoved(start, r)
            && (a.SyncSegment? && w.writer == Ready && At(w, w.listing.next) != [] ==> r.writer == FileSynced && r.listing == w.listing)
            && (a.RenameSegment? && w.writer == FileSynced ==> r.writer == RenamedSegment && r.listing.next == w.listing.next + 1)
            && (a.SyncDirectory? && w.writer == RenamedSegment ==> r.writer == DirSynced && r.listing == w.listing)
            && (a.CreateSegment? && w.writer == DirSynced ==>
                  r.writer == CreatedSegment && r.listing.next == w.listing.next && At(r, r.listing.next) == [])
            && (a.SyncCreated? && w.writer == CreatedSegment ==> r.writer == Ready && r.listing == w.listing && At(r, r.listing.next) == At(w, w.listing.next))
  {
    StepKeepsInv(w, a);
    OthersKeepLog(w, a);
  }

  lemma WriteStep<B(!new)>(w: Wal<B>, record: B)
    requires Inv(w) && w.serving && w.writer == Ready
    ensures var r := Step(w, WalCrash.Write(record));
            && Inv(r) && r.serving && r.writer == Ready && r.listing == w.listing && Log(r) == Log(w) + [record]
            && r.acked == w.acked && r.published == w.published && r.groupStart == w.groupStart
            && At(r, w.listing.next) == At(w, w.listing.next) + [record]
  {
    StepKeepsInv(w, WalCrash.Write(record));
    WriteAppends(w, record);
  }

  lemma SyncStep<B(!new)>(w: Wal<B>)
    requires Inv(w) && w.serving && w.writer == Ready
    ensures var r := Step(w, SyncAndAck);
            && Inv(r) && r.serving && r.writer == Ready && r.listing == w.listing && r.content == w.content && Log(r) == Log(w)
            && r.groupStart == |Log(r)|
            && (forall p | w.groupStart <= p < |Log(w)| :: p in r.acked && r.acked[p] == Log(w)[p])
            && (forall p <- r.acked :: p in w.acked || w.groupStart <= p < |Log(w)|)
            && (forall n :: At(r, n) == At(w, n))
  {
    StepKeepsInv(w, SyncAndAck);
    OthersKeepLog(w, SyncAndAck);
  }
}
