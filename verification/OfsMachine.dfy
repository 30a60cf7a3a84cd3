/**
 File operations down to the bytes of the logs: sets are kept in pairs of logs, an
 operation may be interrupted in the middle of a record, and sets are mounted again,
 also with interruptions. What is recovered from the logs then is a state that cutting
 operations between their steps would have left, so no object is lost track of.
 */
module OfsMachine {
  import opened Coding
  import opened LogFormat
  import opened LogTheorems
  import opened LogIO
  import opened LogFailure
  import opened OfsLog
  import opened OfsRecovery
  import opened OfsCrash
  import S = OfsSessions

  datatype Machine = Machine(vols: map<Name, S.Volume>, store: map<Name, Bytes>)

  // The disk as it would be seen after mounting all sets.
  ghost function Seen(m: Machine): Disk {
    Disk(map t | t in m.vols :: m.vols[t].state, m.store)
  }

  ghost predicate AllSound(c: Checksum, m: Machine) {
    forall t :: t in m.vols ==> S.Sound(c, m.vols[t])
  }

  ghost predicate Good(c: Checksum, m: Machine) {
    AllSound(c, m) && NoOrphans(Seen(m)) && Named(Seen(m))
  }

  // ------------------------------------------------------------------
  // Steps
  // ------------------------------------------------------------------

  // The log of the set can be appended to, and can hold the operation.
  ghost predicate CanDo(m: Machine, s: Micro) {
    s.Log? ==> s.fset in m.vols && m.vols[s.fset].open && WellFormed(s.op) && Encodable(s.op)
  }

  ghost function Do(c: Checksum, m: Machine, s: Micro, now: nat): Machine
    requires CanDo(m, s) && now < UINT64
  {
    match s
    case Log(t, op) =>
      var e := S.Logged(Record(now, [op]));
      LogEnabled(c, m.vols[t], op, now);
      m.(vols := m.vols[t := S.Next(c, m.vols[t], e)])
    case _ => m.(store := Apply(Disk(map[], m.store), s).store)
  }

  lemma LogEnabled(c: Checksum, v: S.Volume, op: Op, now: nat)
    requires v.open && WellFormed(op) && Encodable(op) && now < UINT64
    ensures RedoUndo(Record(now, [op]), v.state) == Some(Exec(op, v.state))
    ensures S.Enabled(c, v, S.Logged(Record(now, [op])))
  {
    hide RedoUndo;
    hide Record;
    SingleRecord(now, op, v.state);
  }

  lemma DoSeen(c: Checksum, m: Machine, s: Micro, now: nat)
    requires CanDo(m, s) && now < UINT64 && AllSound(c, m)
    ensures Seen(Do(c, m, s, now)) == Apply(Seen(m), s) && AllSound(c, Do(c, m, s, now))
  {
    hide RedoUndo;
    hide Record;
    hide S.Sound;
    hide LogBytes;
    hide Exec;
    hide WellFormed;
    if s.Log? {
      LogEnabled(c, m.vols[s.fset], s.op, now);
      S.LoggedKeeps(c, m.vols[s.fset], Record(now, [s.op]));
      assert Seen(Do(c, m, s, now)).sets == Seen(m).sets[s.fset := Exec(s.op, m.vols[s.fset].state)];
    }
  }

  ghost predicate CanDoAll(c: Checksum, m: Machine, steps: seq<Micro>, now: nat)
    decreases |steps|
  {
    now < UINT64 && (steps != [] ==> CanDo(m, steps[0]) && CanDoAll(c, Do(c, m, steps[0], now), steps[1..], now))
  }

  ghost function DoAll(c: Checksum, m: Machine, steps: seq<Micro>, now: nat): Machine
    requires CanDoAll(c, m, steps, now)
    decreases |steps|
  {
    if steps == [] then m else DoAll(c, Do(c, m, steps[0], now), steps[1..], now)
  }

  lemma {:induction false} DoAllSeen(c: Checksum, m: Machine, steps: seq<Micro>, now: nat)
    requires CanDoAll(c, m, steps, now) && AllSound(c, m)
    ensures Seen(DoAll(c, m, steps, now)) == Run(Seen(m), steps) && AllSound(c, DoAll(c, m, steps, now))
    decreases |steps|
  {
    hide Do;
    hide Seen;
    hide AllSound;
    hide Apply;
    if steps == [] {
    } else {
      DoSeen(c, m, steps[0], now);
      DoAllSeen(c, Do(c, m, steps[0], now), steps[1..], now);
    }
  }

  // ------------------------------------------------------------------
  // Events
  // ------------------------------------------------------------------

  datatype Event =
    | Perform(a: Action, k: nat, now: nat)                  // the first k steps of an operation
    | Interrupt(a: Action, k: nat, kept: nat, now: nat)     // and part of the record of the next one
    | Crash                                                 // all sets have to be mounted again
    | Remount(t: Name, rec: Bytes)
    | RemountCut(t: Name, rec: Bytes, bytes: nat)

  ghost predicate Enabled(c: Checksum, m: Machine, e: Event) {
    match e
    case Perform(a, k, now) => Sensible(a) && CanDoAll(c, m, Prefix(Seen(m), a, k), now)
    case Interrupt(a, k, _, now) =>
      var steps := Steps(Seen(m), a);
      && Sensible(a) && k < |steps| && steps[k].Log? && CanDoAll(c, m, steps[..k], now)
      && CanDo(DoAll(c, m, steps[..k], now), steps[k])
    case Crash => true
    case Remount(t, rec) => t in m.vols && S.Enabled(c, m.vols[t], S.Remounted(rec))
    case RemountCut(t, rec, bytes) => t in m.vols && S.Enabled(c, m.vols[t], S.CutRemount(rec, bytes))
  }

  function Prefix(d: Disk, a: Action, k: nat): seq<Micro> {
    var steps := Steps(d, a);
    if k < |steps| then steps[..k] else steps
  }

  ghost function With(m: Machine, t: Name, v: S.Volume): Machine { m.(vols := m.vols[t := v]) }

  ghost function Next(c: Checksum, m: Machine, e: Event): Machine
    requires Enabled(c, m, e)
  {
    match e
    case Perform(a, k, now) => DoAll(c, m, Prefix(Seen(m), a, k), now)
    case Interrupt(a, k, kept, now) =>
      var steps := Steps(Seen(m), a);
      Tear(c, DoAll(c, m, steps[..k], now), steps[k].fset, steps[k].op, kept, now)
    case Crash => Closed(m)
    case Remount(t, rec) => With(m, t, S.Next(c, m.vols[t], S.Remounted(rec)))
    case RemountCut(t, rec, bytes) => With(m, t, S.Next(c, m.vols[t], S.CutRemount(rec, bytes)))
  }

  ghost function Closed(m: Machine): Machine {
    m.(vols := map t | t in m.vols :: m.vols[t].(open := false))
  }

  ghost function Tear(c: Checksum, m: Machine, t: Name, op: Op, kept: nat, now: nat): Machine
    requires CanDo(m, Log(t, op)) && now < UINT64
  {
    LogEnabled(c, m.vols[t], op, now);
    With(m, t, S.Next(c, m.vols[t], S.Torn(Record(now, [op]), kept)))
  }

  // An interrupted record counts if and only if all of it is there.
  lemma TearSeen(c: Checksum, m: Machine, t: Name, op: Op, kept: nat, now: nat)
    requires CanDo(m, Log(t, op)) && now < UINT64 && AllSound(c, m)
    ensures var whole := kept >= |Emit(c, |LogBytes(c, 0, m.vols[t].recs)|, Record(now, [op]), true)|;
            && AllSound(c, Tear(c, m, t, op, kept, now))
            && Seen(Tear(c, m, t, op, kept, now)) == if whole then Apply(Seen(m), Log(t, op)) else Seen(m)
  {
    hide RedoUndo;
    hide Record;
    hide S.Sound;
    hide LogBytes;
    hide Emit;
    hide Exec;
    hide WellFormed;
    LogEnabled(c, m.vols[t], op, now);
    S.TornKeeps(c, m.vols[t], Record(now, [op]), kept);
    var m1 := Tear(c, m, t, op, kept, now);
    assert Seen(m1).sets == Seen(m).sets[t := m1.vols[t].state];
  }

  lemma StateKept(c: Checksum, m: Machine, t: Name, v: S.Volume)
    requires Good(c, m) && t in m.vols && S.Sound(c, v) && v.state == m.vols[t].state
    ensures Good(c, With(m, t, v))
  {
    hide S.Sound;
    assert Seen(With(m, t, v)) == Seen(m);
  }

  lemma CrashKeeps(c: Checksum, m: Machine)
    requires Good(c, m)
    ensures Good(c, Closed(m))
  {
    hide S.Sound;
    hide NoOrphans;
    hide Named;
    assert Seen(Closed(m)) == Seen(m);
    forall t | t in m.vols ensures S.Sound(c, Closed(m).vols[t]) {
      ClosedSound(c, m.vols[t]);
    }
  }

  lemma ClosedSound(c: Checksum, v: S.Volume)
    requires S.Sound(c, v)
    ensures S.Sound(c, v.(open := false))
  {
    hide Current;
    hide ReplayAll;
  }

  lemma EventKeeps(c: Checksum, m: Machine, e: Event)
    requires Good(c, m) && Enabled(c, m, e)
    ensures Good(c, Next(c, m, e))
  {
    hide NoOrphans;
    hide Named;
    hide S.Sound;
    hide Steps;
    hide S.Enabled;
    hide S.Next;
    match e
    case Perform(a, k, now) =>
      DoAllSeen(c, m, Prefix(Seen(m), a, k), now);
      ActKeeps(Seen(m), a, k);
    case Interrupt(a, k, kept, now) => InterruptKeeps(c, m, a, k, kept, now);
    case Crash => CrashKeeps(c, m);
    case Remount(t, rec) =>
      S.EventKeeps(c, m.vols[t], S.Remounted(rec));
      SameState(c, m.vols[t], S.Remounted(rec));
      StateKept(c, m, t, S.Next(c, m.vols[t], S.Remounted(rec)));
    case RemountCut(t, rec, bytes) =>
      S.EventKeeps(c, m.vols[t], S.CutRemount(rec, bytes));
      SameState(c, m.vols[t], S.CutRemount(rec, bytes));
      StateKept(c, m, t, S.Next(c, m.vols[t], S.CutRemount(rec, bytes)));
  }

  lemma SameState(c: Checksum, v: S.Volume, e: S.Event)
    requires S.Enabled(c, v, e) && (e.Remounted? || e.CutRemount?)
    ensures S.Next(c, v, e).state == v.state
  {
    hide LogBytes;
  }

  lemma InterruptKeeps(c: Checksum, m: Machine, a: Action, k: nat, kept: nat, now: nat)
    requires Good(c, m) && Enabled(c, m, Interrupt(a, k, kept, now))
    ensures Good(c, Next(c, m, Interrupt(a, k, kept, now)))
  {
    hide NoOrphans;
    hide Named;
    hide S.Sound;
    hide Steps;
    hide Do;
    hide LogBytes;
    hide Emit;
    hide Record;
    hide Apply;
    hide Tear;
    var d, steps := Seen(m), Steps(Seen(m), a);
    var m1 := DoAll(c, m, steps[..k], now);
    DoAllSeen(c, m, steps[..k], now);
    TearSeen(c, m1, steps[k].fset, steps[k].op, kept, now);
    RunLast(d, steps, k);
    ActKeeps(d, a, k);
    ActKeeps(d, a, k + 1);
    assert k + 1 == |steps| ==> steps[..k + 1] == steps;
  }

  lemma {:induction false} RunLast(d: Disk, steps: seq<Micro>, k: nat)
    requires k < |steps|
    ensures Run(d, steps[..k + 1]) == Apply(Run(d, steps[..k]), steps[k])
    decreases k
  {
    hide Apply;
    if k == 0 {
      assert steps[..1] == [steps[0]] && [steps[0]][1..] == [] && steps[..0] == [];
    } else {
      RunLast(Apply(d, steps[0]), steps[1..], k - 1);
      assert steps[..k + 1][1..] == steps[1..][..k] && steps[..k][1..] == steps[1..][..k - 1];
    }
  }

  // ------------------------------------------------------------------
  // Histories
  // ------------------------------------------------------------------

  ghost predicate CanRun(c: Checksum, m: Machine, es: seq<Event>)
    decreases |es|
  {
    es != [] ==> Enabled(c, m, es[0]) && CanRun(c, Next(c, m, es[0]), es[1..])
  }

  ghost function History(c: Checksum, m: Machine, es: seq<Event>): Machine
    requires CanRun(c, m, es)
    decreases |es|
  {
    if es == [] then m else History(c, Next(c, m, es[0]), es[1..])
  }

  /** Over every history of operations, interruptions at any byte of any record, crashes and
      mounts, each set recovers from its logs, and on the disk so recovered every stored
      object is a file of some set or is garbage that some set will collect. */
  lemma {:induction false} RecoveredDisk(c: Checksum, m: Machine, es: seq<Event>)
    requires Good(c, m) && CanRun(c, m, es)
    ensures var w := History(c, m, es);
            && (forall t :: t in w.vols ==>
                  RecoverFileSet(c, w.vols[t].logs) == Recovered(Seen(w).sets[t], !w.vols[t].first))
            && NoOrphans(Seen(w)) && Named(Seen(w))
    decreases |es|
  {
    hide NoOrphans;
    hide Named;
    hide S.Sound;
    hide RecoverFileSet;
    hide Next;
    hide Enabled;
    if es == [] {
      forall t | t in m.vols ensures RecoverFileSet(c, m.vols[t].logs) == Recovered(Seen(m).sets[t], !m.vols[t].first) {
        S.SoundRecovers(c, m.vols[t]);
      }
    } else {
      EventKeeps(c, m, es[0]);
      RecoveredDisk(c, Next(c, m, es[0]), es[1..]);
    }
  }

  // ------------------------------------------------------------------
  // Logs that are not synced
  // ------------------------------------------------------------------

  // The set as a crash leaves it that loses the last record of its log.
  ghost function Rollback(c: Checksum, v: S.Volume, recs: seq<Bytes>): S.Volume
    requires S.Enabled(c, v, S.Crashed(|LogBytes(c, 0, recs)|))
  {
    S.Next(c, v, S.Crashed(|LogBytes(c, 0, recs)|))
  }

  lemma RollbackSeen(c: Checksum, v: S.Volume, rec: Bytes)
    requires S.Sound(c, v) && S.Enabled(c, v, S.Logged(rec))
    ensures var v1 := S.Next(c, v, S.Logged(rec));
            && S.Enabled(c, v1, S.Crashed(|LogBytes(c, 0, v.recs)|))
            && Rollback(c, v1, v.recs).state == v.state
  {
    hide LogBytes;
    hide Emit;
    hide RedoUndo;
    hide ReplayAll;
    hide Complete;
    hide Current;
    S.HasRecord(c, v);
    LogAppend(c, 0, v.recs, [rec]);
    LastComplete(c, 0, v.recs, rec, |LogBytes(c, 0, v.recs)|);
    assert (v.recs + [rec])[..|v.recs|] == v.recs;
  }

  /** Without sync, a crash may keep an object and lose the record that announced it. After
      such a crash in the middle of PutFile, every object is still known if and only if the
      object was known before. */
  lemma UnsyncedIff(c: Checksum, m: Machine, t: Name, base: Name, data: Bytes, now: nat)
    requires Good(c, m) && t in m.vols && m.vols[t].open && base != [] && now < UINT64
    requires var o := ObjectFor(Seen(m), t, base); Encodable(Op(TRY_CREATE_OBJ, o, []))
    ensures var d, o := Seen(m), ObjectFor(Seen(m), t, base);
            var first := Log(t, Op(TRY_CREATE_OBJ, o, []));
            && CanDo(m, first)
            && var m1 := Do(c, Do(c, m, first, now), Put(o, data), now);
            && S.Enabled(c, m1.vols[t], S.Crashed(|LogBytes(c, 0, m.vols[t].recs)|))
            && var lost := With(m1, t, Rollback(c, m1.vols[t], m.vols[t].recs));
            NoOrphans(Seen(lost)) <==> Known(d, o)
  {
    hide LogBytes;
    hide S.Sound;
    hide Record;
    hide RedoUndo;
    hide S.Enabled;
    hide S.Next;
    hide Rollback;
    hide NoOrphans;
    hide Named;
    var d, o := Seen(m), ObjectFor(Seen(m), t, base);
    ObjectNamed(d, t, base);
    var op := Op(TRY_CREATE_OBJ, o, []);
    LogEnabled(c, m.vols[t], op, now);
    RollbackSeen(c, m.vols[t], Record(now, [op]));
    var m1 := Do(c, Do(c, m, Log(t, op), now), Put(o, data), now);
    var lost := With(m1, t, Rollback(c, m1.vols[t], m.vols[t].recs));
    assert Seen(lost).sets == d.sets;
    StoredUnknown(d, o, data);
  }

  lemma StoredUnknown(d: Disk, o: Name, data: Bytes)
    requires NoOrphans(d)
    ensures NoOrphans(d.(store := d.store[o := data])) <==> Known(d, o)
  {
    var e := d.(store := d.store[o := data]);
    forall p ensures Known(e, p) <==> Known(d, p) {
      if Known(d, p) { SameSets(d, e, p); }
      if Known(e, p) { SameSets(e, d, p); }
    }
  }
}
