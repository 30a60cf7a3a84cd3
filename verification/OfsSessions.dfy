/**
 The life of a file set over any number of sessions: it is mounted, logs operations,
 is mounted again with the other log, and may crash at any byte of either log.
 */
module OfsSessions {
  import opened Coding
  import opened LogFormat
  import opened LogTheorems
  import opened LogIO
  import opened LogFailure
  import opened OfsLog
  import opened OfsRecovery

  // The two logs, which one is current, its complete records, the state they add up to,
  // and whether the current log ends with the last of them, so that more can be appended.
  datatype Volume = Volume(logs: Logs, first: bool, recs: seq<Bytes>, state: FsState, open: bool)

  ghost predicate Sound(c: Checksum, v: Volume) {
    && Current(c, v.logs, v.first, v.recs)
    && ReplayAll(v.recs, EmptyState()) == Some(v.state)
    && (v.open ==> v.logs.Get(v.first) == Some(LogBytes(c, 0, v.recs)))
  }

  datatype Event =
    | Logged(rec: Bytes)              // an operation was logged
    | Torn(rec: Bytes, kept: nat)     // only so much of an operation's record, or all of it but unnoticed
    | Crashed(t: nat)                 // the current log was cut at byte t, behind its first record
    | Remounted(rec: Bytes)           // a snapshot was written to the other log, which is now current
    | CutRemount(rec: Bytes, t: nat)  // only t bytes of the snapshot were written

  ghost predicate Snapshot(v: Volume, rec: Bytes) {
    && v.recs != [] && |v.recs[0]| >= 8 && |rec| >= 8
    && RecordTime(rec) > RecordTime(v.recs[0]) && RedoUndo(rec, EmptyState()) == Some(v.state)
  }

  ghost predicate Enabled(c: Checksum, v: Volume, e: Event) {
    match e
    case Logged(rec) => v.open && RedoUndo(rec, v.state).Some?
    case Torn(rec, _) => v.open && RedoUndo(rec, v.state).Some?
    case Crashed(t) =>
      && v.open && t <= |LogBytes(c, 0, v.recs)| && Complete(c, 0, v.recs, t) >= 1
      && ReplayAll(v.recs[..Complete(c, 0, v.recs, t)], EmptyState()).Some?
    case Remounted(rec) => Snapshot(v, rec)
    case CutRemount(rec, t) => Snapshot(v, rec) && t < |LogBytes(c, 0, [rec])|
  }

  ghost function Next(c: Checksum, v: Volume, e: Event): Volume
    requires Enabled(c, v, e)
  {
    match e
    case Logged(rec) =>
      var recs := v.recs + [rec];
      Volume(v.logs.Set(v.first, Some(LogBytes(c, 0, recs))), v.first, recs, RedoUndo(rec, v.state).value, true)
    case Torn(rec, kept) =>
      var bytes := Emit(c, |LogBytes(c, 0, v.recs)|, rec, true);
      var logs := v.logs.Set(v.first, Some(LogBytes(c, 0, v.recs) + Fitting(bytes, Some(kept))));
      if kept < |bytes| then Volume(logs, v.first, v.recs, v.state, false)
      else Volume(logs, v.first, v.recs + [rec], RedoUndo(rec, v.state).value, false)
    case Crashed(t) =>
      var recs := v.recs[..Complete(c, 0, v.recs, t)];
      Volume(v.logs.Set(v.first, Some(LogBytes(c, 0, v.recs)[..t])), v.first, recs,
             ReplayAll(recs, EmptyState()).value, false)
    case Remounted(rec) =>
      Volume(v.logs.Set(!v.first, Some(LogBytes(c, 0, [rec]))), !v.first, [rec], v.state, true)
    case CutRemount(rec, t) =>
      Volume(v.logs.Set(!v.first, Some(LogBytes(c, 0, [rec])[..t])), v.first, v.recs, v.state, false)
  }

  ghost predicate CanRun(c: Checksum, v: Volume, es: seq<Event>)
    decreases |es|
  {
    es != [] ==> Enabled(c, v, es[0]) && CanRun(c, Next(c, v, es[0]), es[1..])
  }

  ghost function Run(c: Checksum, v: Volume, es: seq<Event>): Volume
    requires CanRun(c, v, es)
    decreases |es|
  {
    if es == [] then v else Run(c, Next(c, v, es[0]), es[1..])
  }

  // ------------------------------------------------------------------
  // Events
  // ------------------------------------------------------------------

  // A log with the same first record is as current as the one it replaces.
  lemma StaysCurrent(c: Checksum, v: Volume, log: Bytes, recs: seq<Bytes>)
    requires Sound(c, v) && ReadLog(c, log) == Contents(recs, []) && recs != [] && recs[0] == v.recs[0]
    requires ReplayAll(recs, EmptyState()).Some?
    ensures Current(c, v.logs.Set(v.first, Some(log)), v.first, recs)
  {
    hide LogBytes;
    hide Access;
    hide ReadLog;
    hide ReplayAll;
    hide RecordTime;
  }

  lemma LoggedKeeps(c: Checksum, v: Volume, rec: Bytes)
    requires Sound(c, v) && Enabled(c, v, Logged(rec))
    ensures Sound(c, Next(c, v, Logged(rec)))
  {
    hide LogBytes;
    hide Current;
    hide ReadLog;
    hide ReplayAll;
    hide RedoUndo;
    ReplayAppend(v.recs, rec, EmptyState());
    LogRoundTrip(c, v.recs + [rec]);
    HasRecord(c, v);
    StaysCurrent(c, v, LogBytes(c, 0, v.recs + [rec]), v.recs + [rec]);
  }

  lemma HasRecord(c: Checksum, v: Volume)
    requires Sound(c, v)
    ensures v.recs != []
  {
  }

  lemma TornKeeps(c: Checksum, v: Volume, rec: Bytes, kept: nat)
    requires Sound(c, v) && Enabled(c, v, Torn(rec, kept))
    ensures Sound(c, Next(c, v, Torn(rec, kept)))
  {
    hide LogBytes;
    hide Emit;
    hide Current;
    hide ReadLog;
    hide ReplayAll;
    hide RedoUndo;
    hide Fitting;
    var e := Emit(c, |LogBytes(c, 0, v.recs)|, rec, true);
    var log := LogBytes(c, 0, v.recs) + Fitting(e, Some(kept));
    ReplayAppend(v.recs, rec, EmptyState());
    FailedAppend(c, v.recs, rec, kept);
    HasRecord(c, v);
    StaysCurrent(c, v, log, if kept < |e| then v.recs else v.recs + [rec]);
  }

  lemma CrashedKeeps(c: Checksum, v: Volume, t: nat)
    requires Sound(c, v) && Enabled(c, v, Crashed(t))
    ensures Sound(c, Next(c, v, Crashed(t)))
  {
    hide LogBytes;
    hide Complete;
    hide Current;
    hide ReadLog;
    hide ReplayAll;
    var recs := v.recs[..Complete(c, 0, v.recs, t)];
    TruncatedLog(c, v.recs, t);
    StaysCurrent(c, v, LogBytes(c, 0, v.recs)[..t], recs);
  }

  lemma RemountedKeeps(c: Checksum, v: Volume, rec: Bytes)
    requires Sound(c, v) && Enabled(c, v, Remounted(rec))
    ensures Sound(c, Next(c, v, Remounted(rec)))
  {
    hide LogBytes;
    hide Current;
    hide ReplayAll;
    hide RedoUndo;
    hide RecordTime;
    hide RecoverFileSet;
    var t := |LogBytes(c, 0, [rec])|;
    RemountAtomic(c, v.logs, v.first, v.recs, rec, t);
    assert LogBytes(c, 0, [rec])[..t] == LogBytes(c, 0, [rec]);
    SnapshotReplays(rec);
  }

  lemma CutRemountKeeps(c: Checksum, v: Volume, rec: Bytes, t: nat)
    requires Sound(c, v) && Enabled(c, v, CutRemount(rec, t))
    ensures Sound(c, Next(c, v, CutRemount(rec, t)))
  {
    hide LogBytes;
    hide Current;
    hide ReplayAll;
    hide RedoUndo;
    hide RecordTime;
    hide RecoverFileSet;
    RemountAtomic(c, v.logs, v.first, v.recs, rec, t);
  }

  // A crash leaves something that can be recovered wherever it cuts the log.
  lemma CrashEnabled(c: Checksum, v: Volume, t: nat)
    requires Sound(c, v) && v.open && t <= |LogBytes(c, 0, v.recs)| && Complete(c, 0, v.recs, t) >= 1
    ensures Enabled(c, v, Crashed(t))
  {
    hide LogBytes;
    hide Complete;
    hide Current;
    hide ReplayAll;
    ReplayPrefix(v.recs, Complete(c, 0, v.recs, t), EmptyState());
  }

  lemma EventKeeps(c: Checksum, v: Volume, e: Event)
    requires Sound(c, v) && Enabled(c, v, e)
    ensures Sound(c, Next(c, v, e))
  {
    hide Sound;
    hide Enabled;
    hide Next;
    match e
    case Logged(rec) => LoggedKeeps(c, v, rec);
    case Torn(rec, kept) => TornKeeps(c, v, rec, kept);
    case Crashed(t) => CrashedKeeps(c, v, t);
    case Remounted(rec) => RemountedKeeps(c, v, rec);
    case CutRemount(rec, t) => CutRemountKeeps(c, v, rec, t);
  }

  lemma SoundRecovers(c: Checksum, v: Volume)
    requires Sound(c, v)
    ensures RecoverFileSet(c, v.logs) == Recovered(v.state, !v.first)
  {
    hide RecoverFileSet;
    hide Current;
    hide ReplayAll;
    CurrentRecovers(c, v.logs, v.first, v.recs);
  }

  /** Over any number of sessions and crashes, whatever part of a record or of a snapshot
      each of them leaves behind, what is recovered is the state that all completely logged
      operations add up to. */
  lemma {:induction false} SessionsRecover(c: Checksum, v: Volume, es: seq<Event>)
    requires Sound(c, v) && CanRun(c, v, es)
    ensures var w := Run(c, v, es);
            Sound(c, w) && RecoverFileSet(c, w.logs) == Recovered(w.state, !w.first)
    decreases |es|
  {
    hide Sound;
    hide RecoverFileSet;
    hide Enabled;
    hide Next;
    if es == [] {
      SoundRecovers(c, v);
    } else {
      EventKeeps(c, v, es[0]);
      SessionsRecover(c, Next(c, v, es[0]), es[1..]);
    }
  }

  /** A crash in a session that keeps at least the snapshot recovers the state after
      some of the session's operations: all those whose records are complete. */
  lemma CrashInSession(c: Checksum, v: Volume, t: nat)
    requires Sound(c, v) && v.open && t <= |LogBytes(c, 0, v.recs)| && Complete(c, 0, v.recs, t) >= 1
    ensures var after := v.logs.Set(v.first, Some(LogBytes(c, 0, v.recs)[..t]));
            var s := ReplayAll(v.recs[..Complete(c, 0, v.recs, t)], EmptyState());
            s.Some? && RecoverFileSet(c, after) == Recovered(s.value, !v.first)
  {
    hide LogBytes;
    hide Complete;
    hide Sound;
    hide ReplayAll;
    hide RecoverFileSet;
    CrashEnabled(c, v, t);
    CrashedKeeps(c, v, t);
    SoundRecovers(c, Next(c, v, Crashed(t)));
  }

  /** The first mount of a set: until its snapshot is complete there is no set, and then
      there is one that recovers to the snapshot. */
  lemma FirstMount(c: Checksum, rec: Bytes, t: nat)
    requires t <= |LogBytes(c, 0, [rec])| && |rec| >= 8 && RecordTime(rec) > 0 && RedoUndo(rec, EmptyState()).Some?
    ensures var logs := Logs(Some(LogBytes(c, 0, [rec])[..t]), None);
            && (t < |LogBytes(c, 0, [rec])| ==> RecoverFileSet(c, logs) == NotFound)
            && (t == |LogBytes(c, 0, [rec])| ==>
                  Sound(c, Volume(logs, true, [rec], RedoUndo(rec, EmptyState()).value, true)))
  {
    hide LogBytes;
    hide Holds;
    hide ReadLog;
    hide ReadRecord;
    hide RecordTime;
    hide RedoUndo;
    var logs := Logs(Some(LogBytes(c, 0, [rec])[..t]), None);
    SnapshotHolds(c, rec, t);
    SnapshotReplays(rec);
    if t < |LogBytes(c, 0, [rec])| {
      StartTime(c, logs.one, []);
    } else {
      assert LogBytes(c, 0, [rec])[..t] == LogBytes(c, 0, [rec]);
      StartTime(c, logs.one, [rec]);
    }
  }
}
