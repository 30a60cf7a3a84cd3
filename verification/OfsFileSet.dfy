/**
 A mounted file set: every operation is first appended to the set's log and then
 applied to the map of files kept in memory. Appends and syncs may fail.
 */
module OfsFileSet {
  import opened Coding
  import opened LogFormat
  import opened LogTheorems
  import opened LogIO
  import opened LogFailure
  import opened OfsLog
  import opened OfsRecovery

  class FileSet {
    const c: Checksum
    var files: map<Name, Name>
    var xlog: Writer?           // absent when the set is read only
    ghost var recs: seq<Bytes>  // the records in the log
    ghost var logged: FsState   // the state they add up to
    ghost var last: Option<Op>  // an operation of which only part could be appended
    ghost var lastRec: Bytes    // its record
    ghost var kept: nat         // how much of it, at most
    ghost var broken: bool      // more was appended after it

    ghost predicate Valid()
      reads this, xlog
    {
      xlog != null ==>
        && xlog.Valid() && xlog.c == c && ReplayAll(recs, EmptyState()) == Some(logged)
        && (!broken ==> xlog.dest == LogBytes(c, 0, recs) + Torn())
        && (!broken && last.None? ==> xlog.InStep())
        && (last.Some? ==> WellFormed(last.value) && RedoUndo(lastRec, logged) == Some(Exec(last.value, logged)))
    }

    // What was appended of the last operation.
    ghost function Torn(): Bytes
      reads this
    {
      if last.None? then [] else Fitting(Emit(c, |LogBytes(c, 0, recs)|, lastRec, true), Some(kept))
    }

    // All appends have succeeded so far.
    ghost predicate Whole()
      reads this
    {
      last.None? && !broken
    }

    // A set mounted for reading only.
    constructor ReadOnly(checksum: Checksum, mapped: map<Name, Name>)
      ensures Valid() && c == checksum && files == mapped && xlog == null
    {
      c, files, xlog := checksum, mapped, null;
      recs, logged, last, lastRec, kept, broken := [], FsState(mapped, {}), None, [], 0, false;
    }

    /** A set mounted for writing: the new log starts with a snapshot of what was recovered. */
    constructor Open(checksum: Checksum, mapped: map<Name, Name>, toDelete: set<Name>, now: nat)
      requires GoodState(FsState(mapped, toDelete)) && now < UINT64
      ensures Valid() && Whole() && c == checksum && files == mapped && logged == FsState(mapped, toDelete)
      ensures xlog != null && fresh(xlog) && |recs| == 1 && |recs[0]| >= 8 && RecordTime(recs[0]) == now
    {
      var rec := MakeSnapshot(mapped, toDelete, now);
      var log := new Writer(checksum);
      EmitMod(checksum, log.blockOffset, 0, rec, true);
      var _ := log.AddRecord(rec, None);
      c, files, xlog := checksum, mapped, log;
      recs, logged, last, lastRec, kept, broken := [rec], FsState(mapped, toDelete), None, [], 0, false;
      new;
      LogSingle(c, rec);
      SnapshotReplays(rec);
    }

    /** Append a record holding one operation. If that fails, what was appended of the
        record is left in the log. */
    method Append(op: Op, now: nat, room: Room) returns (ok: bool)
      requires Valid() && xlog != null && WellFormed(op) && Encodable(op) && now < UINT64
      modifies xlog, `recs, `logged, `last, `lastRec, `kept, `broken
      ensures Valid()
      ensures ok <==> room.None? || |Emit(c, old(xlog.blockOffset), Record(now, [op]), true)| < room.value
      ensures if !old(Whole()) then broken && recs == old(recs) && logged == old(logged)
              else if ok then Whole() && recs == old(recs) + [Record(now, [op])] && logged == Exec(op, old(logged))
              else recs == old(recs) && logged == old(logged) && last == Some(op) && !broken
    {
      hide Exec;
      hide Record;
      hide Emit;
      hide WellFormed;
      hide LogBytes;
      hide ReplayAll;
      hide RedoUndo;
      hide Fitting;
      hide SameSpot;
      var rec := Record(now, [op]);
      ghost var log := LogBytes(c, 0, recs);
      ghost var at, was := xlog.blockOffset, xlog.dest;
      ok := xlog.AddRecord(rec, room);
      SingleRecord(now, op, logged);
      if !Whole() {
        broken := true;
      } else {
        InStepEmit(c, at, was, log, rec);
        if ok {
          WholeFits(Emit(c, at, rec, true), room);
          LogAppend(c, 0, recs, [rec]);
          LogSingleAt(c, |log|, rec);
          ReplayAppend(recs, rec, EmptyState());
          recs, logged := recs + [rec], Exec(op, logged);
        } else {
          last, lastRec, kept := Some(op), rec, room.value;
        }
      }
    }

    // Whether the record of an operation is accepted by a writer at this place.
    ghost predicate Accepts(op: Op, now: nat, room: Room, at: nat) {
      now < UINT64 && (room.None? || |Emit(c, at, Record(now, [op]), true)| < room.value)
    }

    /** Append an operation and sync the log. A failure leaves the log with the state before
        the operation or, if only the sync failed, with the one after it. */
    method Perform(op: Op, now: nat, room: Room, synced: bool) returns (ok: bool)
      requires Valid() && WellFormed(op) && Encodable(op) && now < UINT64
      modifies xlog, `recs, `logged, `last, `lastRec, `kept, `broken
      ensures Valid()
      ensures ok <==> xlog != null && synced && Accepts(op, now, room, old(if xlog == null then 0 else xlog.blockOffset))
      ensures ok && old(Whole()) ==> Whole() && recs == old(recs) + [Record(now, [op])] && logged == Exec(op, old(logged))
      ensures !ok ==> logged == old(logged) || (old(Whole()) && Whole() && logged == Exec(op, old(logged)))
    {
      hide Exec;
      hide Record;
      hide Emit;
      hide WellFormed;
      hide LogBytes;
      hide ReplayAll;
      hide RedoUndo;
      if xlog == null { return false; }
      ok := Append(op, now, room);
      ok := ok && synced;
    }

    /** The object may be created from now on; it is garbage until it is linked. */
    method TryCreateObject(obj: Name, now: nat, room: Room, synced: bool) returns (ok: bool)
      requires Valid() && now < UINT64 && GoodName(obj)
      modifies this, xlog
      ensures Valid() && xlog == old(xlog)
      ensures var op := Op(TRY_CREATE_OBJ, obj, []);
              && (ok <==> xlog != null && synced &&
                          Accepts(op, now, room, old(if xlog == null then 0 else xlog.blockOffset)))
              && (ok && old(Whole()) ==>
                    Whole() && recs == old(recs) + [Record(now, [op])] && logged == Exec(op, old(logged)))
              && (!ok ==> logged == old(logged) || (old(Whole()) && Whole() && logged == Exec(op, old(logged))))
      ensures files == old(files)
      ensures ok && old(Whole() && logged.files == files) ==> logged.files == files
    {
      hide LogBytes;
      hide ReplayAll;
      hide RedoUndo;
      hide Record;
      hide Emit;
      ok := Perform(Op(TRY_CREATE_OBJ, obj, []), now, room, synced);
    }

    method Link(name: Name, obj: Name, now: nat, room: Room, synced: bool) returns (ok: bool)
      requires Valid() && now < UINT64 && GoodName(name) && GoodName(obj)
      modifies this, xlog
      ensures Valid() && xlog == old(xlog)
      ensures var op := Op(LINK, name, obj);
              && (ok <==> xlog != null && synced &&
                          Accepts(op, now, room, old(if xlog == null then 0 else xlog.blockOffset)))
              && (ok && old(Whole()) ==>
                    Whole() && recs == old(recs) + [Record(now, [op])] && logged == Exec(op, old(logged)))
              && (!ok ==> logged == old(logged) || (old(Whole()) && Whole() && logged == Exec(op, old(logged))))
      ensures files == if ok then old(files)[name := obj] else old(files)
      ensures ok && old(Whole() && logged.files == files) ==> logged.files == files
    {
      hide LogBytes;
      hide ReplayAll;
      hide RedoUndo;
      hide Record;
      hide Emit;
      ok := Perform(Op(LINK, name, obj), now, room, synced);
      if ok {
        files := files[name := obj];
      }
    }

    method UnlinkAndDelete(name: Name, obj: Name, now: nat, room: Room, synced: bool) returns (ok: bool)
      requires Valid() && now < UINT64 && GoodName(name) && GoodName(obj)
      modifies this, xlog
      ensures Valid() && xlog == old(xlog)
      ensures var op := Op(UNLINK_AND_DEL, name, obj);
              && (ok <==> xlog != null && synced &&
                          Accepts(op, now, room, old(if xlog == null then 0 else xlog.blockOffset)))
              && (ok && old(Whole()) ==>
                    Whole() && recs == old(recs) + [Record(now, [op])] && logged == Exec(op, old(logged)))
              && (!ok ==> logged == old(logged) || (old(Whole()) && Whole() && logged == Exec(op, old(logged))))
      ensures files == if ok then old(files) - {name} else old(files)
      ensures ok && old(Whole() && logged.files == files) ==> logged.files == files
    {
      hide LogBytes;
      hide ReplayAll;
      hide RedoUndo;
      hide Record;
      hide Emit;
      ok := Perform(Op(UNLINK_AND_DEL, name, obj), now, room, synced);
      if ok {
        files := files - {name};
      }
    }

    method Unlink(name: Name, now: nat, room: Room, synced: bool) returns (ok: bool)
      requires Valid() && now < UINT64 && GoodName(name)
      modifies this, xlog
      ensures Valid() && xlog == old(xlog)
      ensures var op := Op(UNLINK, name, []);
              && (ok <==> xlog != null && synced &&
                          Accepts(op, now, room, old(if xlog == null then 0 else xlog.blockOffset)))
              && (ok && old(Whole()) ==>
                    Whole() && recs == old(recs) + [Record(now, [op])] && logged == Exec(op, old(logged)))
              && (!ok ==> logged == old(logged) || (old(Whole()) && Whole() && logged == Exec(op, old(logged))))
      ensures files == if ok then old(files) - {name} else old(files)
      ensures ok && old(Whole() && logged.files == files) ==> logged.files == files
    {
      hide LogBytes;
      hide ReplayAll;
      hide RedoUndo;
      hide Record;
      hide Emit;
      ok := Perform(Op(UNLINK, name, []), now, room, synced);
      if ok {
        files := files - {name};
      }
    }

    method DeletedObject(obj: Name, now: nat, room: Room, synced: bool) returns (ok: bool)
      requires Valid() && now < UINT64 && GoodName(obj)
      modifies this, xlog
      ensures Valid() && xlog == old(xlog)
      ensures var op := Op(OBJ_DELETED, obj, []);
              && (ok <==> xlog != null && synced &&
                          Accepts(op, now, room, old(if xlog == null then 0 else xlog.blockOffset)))
              && (ok && old(Whole()) ==>
                    Whole() && recs == old(recs) + [Record(now, [op])] && logged == Exec(op, old(logged)))
              && (!ok ==> logged == old(logged) || (old(Whole()) && Whole() && logged == Exec(op, old(logged))))
      ensures files == old(files)
      ensures ok && old(Whole() && logged.files == files) ==> logged.files == files
    {
      hide LogBytes;
      hide ReplayAll;
      hide RedoUndo;
      hide Record;
      hide Emit;
      ok := Perform(Op(OBJ_DELETED, obj, []), now, room, synced);
    }

    // The records in the log and the one that may be there in part.
    ghost function Records(): seq<Bytes>
      reads this
    {
      if last.None? then recs else recs + [lastRec]
    }

    /** A crash that leaves any part of the log behind: recovery succeeds and rebuilds the
        state after the last operation whose record is complete, also if the last append
        failed, as long as nothing was appended after that. All of the log rebuilds the
        logged state, or the one after the operation that failed. */
    lemma CrashSafe(t: nat)
      requires Valid() && xlog != null && !broken && t <= |xlog.dest|
      ensures var k := Complete(c, 0, Records(), t);
              && RecoverLog(c, xlog.dest[..t]) == ReplayAll(Records()[..k], EmptyState())
              && RecoverLog(c, xlog.dest[..t]).Some?
      ensures RecoverLog(c, xlog.dest) ==
              Some(if last.Some? && Torn() == Emit(c, |LogBytes(c, 0, recs)|, lastRec, true)
                   then Exec(last.value, logged) else logged)
    {
      hide RecoverLog;
      hide ReplayAll;
      hide LogBytes;
      hide Complete;
      hide Emit;
      hide Exec;
      hide RedoUndo;
      hide WellFormed;
      hide ReadLog;
      var log, all := LogBytes(c, 0, recs), LogBytes(c, 0, Records());
      if last.Some? {
        ReplayAppend(recs, lastRec, EmptyState());
        LogAppend(c, 0, recs, [lastRec]);
        LogSingleAt(c, |log|, lastRec);
        FailedAppend(c, recs, lastRec, kept);
        RecoverReplays(c, xlog.dest, if kept < |Emit(c, |log|, lastRec, true)| then recs else recs + [lastRec]);
      } else {
        assert log + [] == log;
        LogRoundTrip(c, recs);
        RecoverReplays(c, xlog.dest, recs);
      }
      assert xlog.dest <= all && xlog.dest[..t] == all[..t];
      CrashRecovery(c, Records(), t);
      ReplayPrefix(Records(), Complete(c, 0, Records(), t), EmptyState());
    }
  }

  lemma InStepEmit(c: Checksum, at: nat, was: Bytes, log: Bytes, rec: Bytes)
    requires SameSpot(at, |was|) && was == log + []
    ensures Emit(c, at, rec, true) == Emit(c, |log|, rec, true) && was == log
  {
    hide Emit;
    EmitMod(c, at, |log|, rec, true);
  }

  lemma WholeFits(e: Bytes, room: Room)
    requires room.None? || |e| < room.value
    ensures Fitting(e, room) == e
  {
  }

  lemma LogSingle(c: Checksum, rec: Bytes)
    ensures LogBytes(c, 0, [rec]) == [] + Emit(c, 0, rec, true)
  {
    LogSingleAt(c, 0, rec);
  }
}
