/**
 Mounting a file set: which of its two logs is current, what is recovered from it,
 and why switching logs cannot lose anything.
 */
module OfsRecovery {
  import opened Coding
  import opened LogFormat
  import opened LogTheorems
  import opened LogIO
  import opened LogDamage
  import opened OfsLog

  // ------------------------------------------------------------------
  // One log
  // ------------------------------------------------------------------

  function ReplayAll(recs: seq<Bytes>, s: FsState): Option<FsState>
    decreases |recs|
  {
    if recs == [] then Some(s)
    else
      var r := RedoUndo(recs[0], s);
      if r.None? then None else ReplayAll(recs[1..], r.value)
  }

  // Any corruption reported on the way makes recovery fail.
  function RecoverLog(c: Checksum, file: Bytes): Option<FsState> {
    var l := ReadLog(c, file);
    if l.drops != [] then None else ReplayAll(l.recs, EmptyState())
  }

  /** A log is recovered if and only if no corruption is reported on reading it and all its
      records can be replayed, one after the other. */
  lemma RecoverLogIff(c: Checksum, file: Bytes)
    ensures RecoverLog(c, file).Some? <==>
            ReadLog(c, file).drops == [] && ReplayAll(ReadLog(c, file).recs, EmptyState()).Some?
    ensures ReadLog(c, file).drops != [] ==> RecoverLog(c, file) == None
  {
    hide ReadLog;
    hide ReplayAll;
  }

  /** A log with damage at the start of any fragment of any of its records, and anything behind
      that, is not recovered. */
  lemma DamagedLogRefused(c: Checksum, recs: seq<Bytes>, rec: Bytes, file: Bytes, p: nat)
    requires var log := LogBytes(c, 0, recs);
             && FragmentStart(|log|, |rec|, p) && p <= |file|
             && Agrees(file[..p], 0, log + Emit(c, |log|, rec, true))
    requires Damaged(c, file, p)
    ensures RecoverLog(c, file) == None
  {
    hide *;
    DamageReported(c, recs, rec, file, p);
    RecoverLogIff(c, file);
  }

  /** A log cut at any byte recovers exactly the records that were completely written. */
  lemma CrashRecovery(c: Checksum, recs: seq<Bytes>, t: nat)
    requires t <= |LogBytes(c, 0, recs)|
    ensures RecoverLog(c, LogBytes(c, 0, recs)[..t]) == ReplayAll(recs[..Complete(c, 0, recs, t)], EmptyState())
  {
    hide *;
    TruncatedLog(c, recs, t);
    RecoverReplays(c, LogBytes(c, 0, recs)[..t], recs[..Complete(c, 0, recs, t)]);
  }

  lemma RecoverReplays(c: Checksum, file: Bytes, recs: seq<Bytes>)
    requires ReadLog(c, file) == Contents(recs, [])
    ensures RecoverLog(c, file) == ReplayAll(recs, EmptyState())
  {
    hide ReadLog;
    hide ReplayAll;
  }

  lemma {:induction false} ReplayAppend(recs: seq<Bytes>, rec: Bytes, s: FsState)
    requires ReplayAll(recs, s).Some?
    ensures ReplayAll(recs + [rec], s) == RedoUndo(rec, ReplayAll(recs, s).value)
    decreases |recs|
  {
    hide RedoUndo;
    if recs == [] {
      assert (recs + [rec])[1..] == [] && (recs + [rec])[0] == rec;
    } else {
      assert (recs + [rec])[1..] == recs[1..] + [rec];
      ReplayAppend(recs[1..], rec, RedoUndo(recs[0], s).value);
    }
  }

  /** Every prefix of a recoverable log is recoverable. */
  lemma {:induction false} ReplayPrefix(recs: seq<Bytes>, k: nat, s: FsState)
    requires k <= |recs| && ReplayAll(recs, s).Some?
    ensures ReplayAll(recs[..k], s).Some?
    decreases k
  {
    hide RedoUndo;
    if k == 0 {
    } else {
      assert recs[..k][1..] == recs[1..][..k - 1];
      ReplayPrefix(recs[1..], k - 1, RedoUndo(recs[0], s).value);
    }
  }

  // ------------------------------------------------------------------
  // Two logs
  // ------------------------------------------------------------------

  // When a log was started: the time in its first record, and 0 if it has none.
  function Access(c: Checksum, log: Option<Bytes>): Option<nat> {
    if log.None? then Some(0)
    else
      var o := ReadRecord(c, true, log.value, StartState(), false, []);
      if o.drops != [] then None
      else if o.result.None? then Some(0)
      else if |o.result.value| < 8 then None
      else Some(RecordTime(o.result.value))
  }

  datatype Logs = Logs(one: Option<Bytes>, two: Option<Bytes>) {
    function Get(first: bool): Option<Bytes> { if first then one else two }
    function Set(first: bool, log: Option<Bytes>): Logs { if first then this.(one := log) else this.(two := log) }
  }

  // With the state comes the log to be written next, which is the other one.
  datatype Recovery = Recovered(state: FsState, nextIsFirst: bool) | NotFound | Corrupted

  function RecoverFileSet(c: Checksum, logs: Logs): Recovery {
    var time1, time2 := Access(c, logs.one), Access(c, logs.two);
    if time1.None? || time2.None? then Corrupted
    else if time1.value == 0 && time2.value == 0 then NotFound
    else if time1.value == time2.value then Corrupted
    else
      var first := time1.value > time2.value;
      var log := logs.Get(first);
      if log.None? then Corrupted
      else
        var s := RecoverLog(c, log.value);
        if s.None? then Corrupted else Recovered(s.value, !first)
  }

  // The first record of a log can be read: there is none, or it has a time.
  ghost predicate Readable(c: Checksum, log: Option<Bytes>) {
    log.Some? ==>
      var o := ReadRecord(c, true, log.value, StartState(), false, []);
      o.drops == [] && (o.result.Some? ==> |o.result.value| >= 8)
  }

  /** A set is recovered if and only if the start of both its logs can be read, their times
      differ, and the later one is recovered; whatever is wrong with either of them makes
      recovery fail rather than fall back to the other. */
  lemma RecoveredIff(c: Checksum, logs: Logs)
    ensures RecoverFileSet(c, logs).Recovered? <==>
            && Readable(c, logs.one) && Readable(c, logs.two)
            && var first := Later(c, logs.one, logs.two);
            && (first || Later(c, logs.two, logs.one))
            && logs.Get(first).Some? && RecoverLog(c, logs.Get(first).value).Some?
    ensures RecoverFileSet(c, logs).Recovered? ==>
              && RecoverFileSet(c, logs).nextIsFirst == !Later(c, logs.one, logs.two)
              && RecoverLog(c, logs.Get(Later(c, logs.one, logs.two)).value) == Some(RecoverFileSet(c, logs).state)
  {
    hide ReadRecord;
    hide RecoverLog;
    hide RecordTime;
  }

  // One log was started later than the other.
  ghost predicate Later(c: Checksum, a: Option<Bytes>, b: Option<Bytes>) {
    Access(c, a).Some? && Access(c, b).Some? && Access(c, a).value > Access(c, b).value
  }

  // A log whose complete records are recs.
  ghost predicate Holds(c: Checksum, log: Option<Bytes>, recs: seq<Bytes>) {
    log.Some? && ReadLog(c, log.value) == Contents(recs, [])
  }

  lemma StartTime(c: Checksum, log: Option<Bytes>, recs: seq<Bytes>)
    requires Holds(c, log, recs)
    requires recs != [] ==> |recs[0]| >= 8
    ensures Access(c, log) == Some(if recs == [] then 0 else RecordTime(recs[0]))
  {
    hide ReadRecord;
    hide RecordTime;
    var o := ReadRecord(c, true, log.value, StartState(), false, []);
    assert o.drops == [];
    assert o.result.None? <==> recs == [];
  }

  // What the logs of a set look like once it has been mounted for writing: one log is
  // current, and the other one started earlier or never got its first record.
  ghost predicate Current(c: Checksum, logs: Logs, first: bool, recs: seq<Bytes>) {
    && Holds(c, logs.Get(first), recs) && recs != [] && |recs[0]| >= 8
    && Access(c, logs.Get(!first)).Some?
    && RecordTime(recs[0]) > Access(c, logs.Get(!first)).value
    && ReplayAll(recs, EmptyState()).Some?
  }

  lemma CurrentRecovers(c: Checksum, logs: Logs, first: bool, recs: seq<Bytes>)
    requires Current(c, logs, first, recs)
    ensures RecoverFileSet(c, logs) == Recovered(ReplayAll(recs, EmptyState()).value, !first)
  {
    hide Access;
    hide ReadLog;
    hide ReplayAll;
    hide RecoverLog;
    hide RecordTime;
    StartTime(c, logs.Get(first), recs);
    RecoverReplays(c, logs.Get(first).value, recs);
  }

  // The other log truncated and then rewritten up to byte t of a snapshot record.
  function Rewritten(c: Checksum, logs: Logs, first: bool, rec: Bytes, t: nat): Logs
    requires t <= |LogBytes(c, 0, [rec])|
  {
    logs.Set(!first, Some(LogBytes(c, 0, [rec])[..t]))
  }

  lemma SnapshotHolds(c: Checksum, rec: Bytes, t: nat)
    requires t <= |LogBytes(c, 0, [rec])|
    ensures t < |LogBytes(c, 0, [rec])| ==> Holds(c, Some(LogBytes(c, 0, [rec])[..t]), [])
    ensures t == |LogBytes(c, 0, [rec])| ==> Holds(c, Some(LogBytes(c, 0, [rec])[..t]), [rec])
  {
    var k := Complete(c, 0, [rec], t);
    assert k == if t < |LogBytes(c, 0, [rec])| then 0 else 1 by {
      hide Emit;
    }
    hide *;
    TruncatedLog(c, [rec], t);
    assert [rec][..0] == [] && [rec][..1] == [rec];
    Held(c, LogBytes(c, 0, [rec])[..t], [rec][..k]);
  }

  lemma Held(c: Checksum, file: Bytes, recs: seq<Bytes>)
    requires ReadLog(c, file) == Contents(recs, [])
    ensures Holds(c, Some(file), recs)
  {
    hide ReadLog;
  }

  /** Remounting is atomic: while the snapshot is being written, and whatever part of
      it reaches the disk, recovery gives the state of the previous log; and the set's
      logs stay in order, with the new log current if and only if all of it is there. */
  lemma RemountAtomic(c: Checksum, logs: Logs, first: bool, recs: seq<Bytes>, rec: Bytes, t: nat)
    requires Current(c, logs, first, recs)
    requires t <= |LogBytes(c, 0, [rec])| && |rec| >= 8 && RecordTime(rec) > RecordTime(recs[0])
    requires RedoUndo(rec, EmptyState()) == ReplayAll(recs, EmptyState())
    ensures var after := Rewritten(c, logs, first, rec, t);
            && (t == |LogBytes(c, 0, [rec])| ==> Current(c, after, !first, [rec]))
            && (t < |LogBytes(c, 0, [rec])| ==> Current(c, after, first, recs))
            && RecoverFileSet(c, after).Recovered?
            && RecoverFileSet(c, after).state == ReplayAll(recs, EmptyState()).value
            && (RecoverFileSet(c, after).nextIsFirst == first <==> t == |LogBytes(c, 0, [rec])|)
  {
    hide Access;
    hide ReadLog;
    hide RecordTime;
    hide RecoverFileSet;
    hide LogBytes;
    hide RedoUndo;
    var after := Rewritten(c, logs, first, rec, t);
    SnapshotHolds(c, rec, t);
    StartTime(c, logs.Get(first), recs);
    assert after.Get(first) == logs.Get(first);
    assert after.Get(!first) == Some(LogBytes(c, 0, [rec])[..t]);
    if t == |LogBytes(c, 0, [rec])| {
      SnapshotReplays(rec);
      CurrentRecovers(c, after, !first, [rec]);
    } else {
      StartTime(c, after.Get(!first), []);
      CurrentRecovers(c, after, first, recs);
    }
  }

  lemma SnapshotReplays(rec: Bytes)
    ensures ReplayAll([rec], EmptyState()) == RedoUndo(rec, EmptyState())
  {
    hide RedoUndo;
    assert [rec][1..] == [];
  }

  /** The clock matters: once the snapshot is complete, the new log takes over if and
      only if its time is later than the previous log's. With an earlier time the next
      mount goes back to the previous log; with an equal one it fails. */
  lemma RemountNeedsLaterTime(c: Checksum, logs: Logs, first: bool, recs: seq<Bytes>, rec: Bytes)
    requires Current(c, logs, first, recs) && |rec| >= 8
    requires RedoUndo(rec, EmptyState()).Some?
    ensures var after := RecoverFileSet(c, Rewritten(c, logs, first, rec, |LogBytes(c, 0, [rec])|));
            var old_, new_ := RecordTime(recs[0]), RecordTime(rec);
            && (new_ > old_ <==> after == Recovered(RedoUndo(rec, EmptyState()).value, first))
            && (new_ < old_ <==> after == Recovered(ReplayAll(recs, EmptyState()).value, !first))
            && (new_ == old_ <==> after == Corrupted)
  {
    hide Access;
    hide ReadLog;
    hide RecordTime;
    hide RecoverFileSet;
    hide LogBytes;
    hide RedoUndo;
    var t := |LogBytes(c, 0, [rec])|;
    var after := Rewritten(c, logs, first, rec, t);
    SnapshotHolds(c, rec, t);
    SnapshotReplays(rec);
    StartTime(c, logs.Get(first), recs);
    StartTime(c, after.Get(!first), [rec]);
    assert after.Get(first) == logs.Get(first);
    if RecordTime(rec) > RecordTime(recs[0]) {
      CurrentRecovers(c, after, !first, [rec]);
    } else if RecordTime(rec) < RecordTime(recs[0]) {
      CurrentRecovers(c, after, first, recs);
    } else {
      SameTime(c, after, RecordTime(rec));
    }
  }

  lemma SameTime(c: Checksum, logs: Logs, time: nat)
    requires Access(c, logs.one) == Some(time) && Access(c, logs.two) == Some(time) && time > 0
    ensures RecoverFileSet(c, logs) == Corrupted
  {
    hide Access;
  }
}
