/**
 Safety of the lease protocol over every run, and the exact configurations for
 which it holds.
 */
module LeaseSafety {
  import opened Coding
  import opened LeaseProtocol

  // ------------------------------------------------------------------
  // The inductive invariant
  // ------------------------------------------------------------------

  predicate IsDir(db: Db, n: Name) { n in db && db[n].isDir }

  predicate Pending(s: State, n: Name) {
    (NeedsLease(s) && s.writer.op.name == n) || (s.writer.Waiting? && s.writer.name == n)
  }

  // The database is at the published versions, except for a change on its way out.
  ghost predicate DbOk(c: Config, s: State) {
    && s.db.Keys <= c.names
    && (forall n :: IsDir(s.db, n) ==>
          s.db[n].ver == Published(s, n) + (if Pending(s, n) then 1 else 0))
    && (forall n :: n in s.pubs ==> IsDir(s.db, n))
  }

  ghost predicate PubOk(s: State) {
    forall n :: n in s.pubs ==> 0 < s.pubs[n].sn <= s.sn && s.pubs[n].at <= s.now
  }

  ghost predicate TxOk(c: Config, s: State) {
    && (s.tx.Some? <==> s.writer.InTx? || s.writer.Done? || s.writer.Waiting?)
    && (s.tx.Some? ==>
          && s.tx.value.Keys <= c.names
          && forall n :: IsDir(s.tx.value, n) ==> s.tx.value[n].ver >= Published(s, n))
  }

  // Whether "n" changed after the reader took its sequence number.
  predicate Overtaken(s: State, r: Reader) {
    r.name in s.pubs && s.pubs[r.name].sn > r.sn
  }

  ghost predicate ReaderOk(c: Config, s: State, r: Reader) {
    && r.sn <= s.sn
    && r.start <= s.now
    && (Overtaken(s, r) ==> s.pubs[r.name].at >= r.start)
    && (r.Loaded? && r.tx.Some? ==>
          && r.tx.value.Keys <= c.names
          && (IsDir(r.tx.value, r.name) ==>
                Overtaken(s, r) || r.tx.value[r.name].ver >= Published(s, r.name)))
    && (r.Fetched? && IsDirNode(r.node) ==>
          && r.name in c.names
          && (Overtaken(s, r) || r.node.value.ver >= Published(s, r.name)))
  }

  ghost predicate LeaseOk(c: Config, s: State) {
    && s.leases.Keys <= c.names && s.others <= c.foreign && s.held <= s.others
    && (forall n :: n in s.leases ==>
          && s.leases[n].due <= s.now + c.duration
          && (s.leases[n].state == Locked ==> Pinned(s, n)))
    && (s.writer.Waiting? ==>
          && s.writer.name in s.leases
          && IsDir(s.db, s.writer.name)
          && s.leases[s.writer.name].state == Locked
          && s.writer.wake == s.leases[s.writer.name].due + 10)
  }

  // The lease still carries the sequence number of the last change.
  predicate Remembers(c: Config, s: State, n: Name)
    requires n in s.pubs
  {
    && n in s.leases
    && s.leases[n].sn == s.pubs[n].sn
    && s.leases[n].due >= s.pubs[n].at + c.duration
  }

  // A change is remembered for as long as some lookup may be unaware of it.
  ghost predicate Remembered(c: Config, s: State) {
    forall n :: n in s.pubs && (c.policy.AsCoded? || s.pubs[n].at + c.duration > s.now) ==>
      Remembers(c, s, n)
  }

  // Every unexpired grant is covered by the lease in the table.
  ghost predicate Tracked(s: State) {
    forall g :: g in s.grants && g.due > s.now ==>
      g.name in s.leases && s.leases[g.name].due >= g.due && s.leases[g.name].state != Free
  }

  ghost predicate Inv(c: Config, s: State) {
    && DbOk(c, s)
    && PubOk(s)
    && TxOk(c, s)
    && (forall t :: t in s.readers ==> ReaderOk(c, s, s.readers[t]))
    && LeaseOk(c, s)
    && Remembered(c, s)
    && Tracked(s)
    && Safe(s)
  }

  // The configurations in which no active lease is ever dropped.
  predicate Protective(c: Config) {
    match c.policy
    case Documented => c.duration >= 10
    case AsCoded(capacity) => |c.names| + |c.foreign| <= capacity
  }

  lemma SubsetCardinality<T>(a: set<T>, b: set<T>)
    requires a <= b
    ensures |a| <= |b|
    ensures a != b ==> |a| < |b|
  {
    assert b == a + (b - a);
    assert |b| == |a| + |b - a|;
  }

  predicate HasRoom(c: Config, s: State, n: Name) {
    n in s.leases || !IsFull(c, TableOf(s))
  }

  // Whoever asks for an entry finds it or finds room for it.
  lemma NeverFull(c: Config, s: State)
    requires Protective(c) && Inv(c, s)
    ensures forall n :: n in c.names ==> HasRoom(c, s, n)
    ensures forall n :: n in c.foreign && n !in s.others ==> !IsFull(c, TableOf(s))
  {
    SubsetCardinality(s.leases.Keys, c.names);
    SubsetCardinality(s.others, c.foreign);
    assert |s.leases.Keys| == |s.leases|;
  }

  // A slot that differs from the table only in the entry that was acquired.
  ghost predicate Fresh(s: State, n: Name, slot: Slot) {
    && slot.cached && slot.table.others == s.others
    && forall m :: m != n ==>
         && (m in slot.table.leases <==> m in s.leases)
         && (m in s.leases ==> slot.table.leases[m] == s.leases[m])
  }

  function LeaseAt(s: State, n: Name): Lease {
    if n in s.leases then s.leases[n] else NEW_LEASE
  }

  lemma AcquireShape(c: Config, s: State, n: Name)
    requires HasRoom(c, s, n)
    ensures Fresh(s, n, Acquire(c, s, n)) && Acquire(c, s, n).lease == LeaseAt(s, n)
  {
    hide Without;
  }

  lemma TableAfter(s: State, n: Name, slot: Slot, l: Lease)
    requires Fresh(s, n, slot)
    ensures Store(slot, n, l).leases == s.leases[n := l] && Store(slot, n, l).others == s.others
    ensures Release(slot, n, l).leases == s.leases[n := l] && Release(slot, n, l).others == s.others
  {
  }

  // ------------------------------------------------------------------
  // Preservation, step by step
  // ------------------------------------------------------------------

  lemma InitInv(c: Config, s: State)
    requires Init(c, s)
    ensures Inv(c, s)
  {
  }

  lemma TickInv(c: Config, s: State, dt: nat)
    requires Inv(c, s)
    ensures Inv(c, s.(now := s.now + dt))
  {
  }

  lemma EvictInv(c: Config, s: State, n: Name)
    requires Inv(c, s) && c.policy.Documented? && n in s.leases && !Active(s, s.leases[n])
    ensures Inv(c, s.(leases := s.leases - {n}, order := Without(s.order, Own(n))))
  {
    hide Without;
    var s1 := s.(leases := s.leases - {n}, order := Without(s.order, Own(n)));
    forall t | t in s1.readers ensures ReaderOk(c, s1, s1.readers[t]) {
      assert ReaderOk(c, s, s.readers[t]);
    }
  }

  // Entries of other directories come and go without touching this one's leases.
  lemma OtherInv(c: Config, s: State, s1: State)
    requires Inv(c, s)
    requires s1 == s.(others := s1.others, order := s1.order, held := s1.held)
    requires s1.others <= c.foreign && s1.held <= s1.others
    ensures Inv(c, s1)
  {
    forall t | t in s1.readers ensures ReaderOk(c, s1, s1.readers[t]) {
      assert ReaderOk(c, s, s.readers[t]);
    }
  }

  lemma UseOtherInv(c: Config, s: State, n: Name, keep: bool)
    requires Protective(c) && Inv(c, s) && n in c.foreign
    ensures Inv(c, UseOther(c, s, n, keep))
  {
    hide Without;
    NeverFull(c, s);
    var s1 := UseOther(c, s, n, keep);
    assert s1 == s.(others := s1.others, order := s1.order, held := s1.held);
    OtherInv(c, s, s1);
  }

  lemma OtherReleaseInv(c: Config, s: State, n: Name)
    requires Inv(c, s) && n in s.held
    ensures Inv(c, s.(held := s.held - {n}, order := s.order + [Other(n)]))
  {
    OtherInv(c, s, s.(held := s.held - {n}, order := s.order + [Other(n)]));
  }

  lemma SetReaderInv(c: Config, s: State, tid: nat, r: Reader)
    requires Inv(c, s) && ReaderOk(c, s, r)
    ensures Inv(c, s.(readers := s.readers[tid := r]))
  {
    var s1 := s.(readers := s.readers[tid := r]);
    forall t | t in s1.readers ensures ReaderOk(c, s1, s1.readers[t]) {
      assert t != tid ==> ReaderOk(c, s, s.readers[t]);
    }
  }

  lemma LookupStartInv(c: Config, s: State, tid: nat, n: Name)
    requires Inv(c, s)
    ensures Inv(c, s.(readers := s.readers[tid := Started(n, s.now, s.sn)]))
  {
    SetReaderInv(c, s, tid, Started(n, s.now, s.sn));
  }

  lemma LookupLoadInv(c: Config, s: State, tid: nat)
    requires Inv(c, s) && tid in s.readers && s.readers[tid].Started?
    ensures var r := s.readers[tid];
            Inv(c, s.(readers := s.readers[tid := Loaded(r.name, r.start, r.sn, s.tx)]))
  {
    var r := s.readers[tid];
    SetReaderInv(c, s, tid, Loaded(r.name, r.start, r.sn, s.tx));
  }

  lemma LookupFetchInv(c: Config, s: State, tid: nat, node: Option<Node>)
    requires Inv(c, s) && tid in s.readers && s.readers[tid].Loaded?
    requires var r := s.readers[tid];
             var db := if r.tx.Some? then r.tx.value else s.db;
             node == if r.name in db then Some(db[r.name]) else None
    ensures var r := s.readers[tid];
            Inv(c, s.(readers := s.readers[tid := Fetched(r.name, r.start, r.sn, node)]))
  {
    var r := s.readers[tid];
    assert ReaderOk(c, s, r);
    SetReaderInv(c, s, tid, Fetched(r.name, r.start, r.sn, node));
  }

  // A lookup that is given a lease has read the published version, or a newer one;
  // one that was overtaken by a change and is still in time gets none.
  lemma GrantIsCurrent(c: Config, s: State, tid: nat)
    requires Protective(c) && Inv(c, s) && tid in s.readers && s.readers[tid].Fetched?
    requires IsDirNode(s.readers[tid].node) && InTime(c, s, s.readers[tid].start)
    ensures var r := s.readers[tid];
            var slot := Acquire(c, s, r.name);
            if Overtaken(s, r)
            then slot.lease.sn > r.sn && (c.duration >= 10 ==> Active(s, slot.lease))
            else r.node.value.ver >= Published(s, r.name)
  {
    hide Without;
    assert ReaderOk(c, s, s.readers[tid]);
    NeverFull(c, s);
    AcquireShape(c, s, s.readers[tid].name);
  }

  // A lookup that renews the lease keeps the table's promises.
  lemma ExtendInv(c: Config, s: State, s1: State, r: Reader)
    requires LeaseOk(c, s) && PubOk(s) && Remembered(c, s) && Tracked(s) && r.name in c.names
    requires var lease := LeaseAt(s, r.name);
             var l := Extend(c, s, lease, r.sn);
             && s1.leases == s.leases[r.name := l]
             && (forall g :: g in s1.grants && g !in s.grants ==>
                   lease.sn <= r.sn && g.name == r.name && g.due == l.due)
    requires s1 == s.(leases := s1.leases, order := s1.order, grants := s1.grants, readers := s1.readers)
    ensures LeaseOk(c, s1) && Remembered(c, s1) && Tracked(s1)
  {
    forall n | n in s1.pubs && (c.policy.AsCoded? || s1.pubs[n].at + c.duration > s1.now)
      ensures Remembers(c, s1, n)
    {
      assert Remembers(c, s, n);
    }
  }

  // With room in the table, the closing section of a lookup does one of three things.
  lemma LookupEndShape(c: Config, s: State, tid: nat, r: Reader, s1: State)
    requires tid in s.readers && s.readers[tid].Fetched? && r == s.readers[tid]
    requires HasRoom(c, s, r.name) && s1 == EndLookup(c, s, tid)
    ensures s1 == s.(leases := s1.leases, order := s1.order, grants := s1.grants, readers := s.readers - {tid})
    ensures if IsDirNode(r.node) && InTime(c, s, r.start) then
              var lease := LeaseAt(s, r.name);
              var l := Extend(c, s, lease, r.sn);
              && s1.leases == s.leases[r.name := l]
              && s1.grants == if lease.sn <= r.sn
                              then s.grants + {Grant(r.name, r.node.value.ver, l.due)} else s.grants
            else s1.leases == s.leases && s1.grants == s.grants
  {
    hide Acquire;
    hide Store;
    hide Release;
    hide Fresh;
    AcquireShape(c, s, r.name);
    var slot := Acquire(c, s, r.name);
    TableAfter(s, r.name, slot, Extend(c, s, slot.lease, r.sn));
  }

  // Dropping a reader and touching the table leaves the rest of the invariant alone.
  lemma LookupEndFrame(c: Config, s: State, tid: nat, s1: State)
    requires Inv(c, s)
    requires s1 == s.(leases := s1.leases, order := s1.order, grants := s1.grants, readers := s.readers - {tid})
    requires LeaseOk(c, s1) && Remembered(c, s1) && Tracked(s1)
    requires forall g :: g in s1.grants && g !in s.grants ==> g.ver >= Published(s, g.name)
    ensures Inv(c, s1)
  {
    forall t | t in s1.readers ensures ReaderOk(c, s1, s1.readers[t]) {
      assert ReaderOk(c, s, s.readers[t]);
    }
  }

  lemma LookupEndTable(c: Config, s: State, tid: nat, r: Reader, s1: State)
    requires Protective(c) && Inv(c, s) && tid in s.readers && s.readers[tid].Fetched?
    requires r == s.readers[tid] && s1 == EndLookup(c, s, tid)
    requires IsDirNode(r.node) && InTime(c, s, r.start)
    ensures LeaseOk(c, s1) && Remembered(c, s1) && Tracked(s1)
    ensures s1 == s.(leases := s1.leases, order := s1.order, grants := s1.grants, readers := s.readers - {tid})
    ensures forall g :: g in s1.grants && g !in s.grants ==> g.ver >= Published(s, g.name)
  {
    hide EndLookup;
    hide Acquire;
    assert ReaderOk(c, s, r);
    NeverFull(c, s);
    AcquireShape(c, s, r.name);
    LookupEndShape(c, s, tid, r, s1);
    GrantIsCurrent(c, s, tid);
    ExtendInv(c, s, s1, r);
  }

  lemma LookupEndInv(c: Config, s: State, tid: nat)
    requires Protective(c) && Inv(c, s) && tid in s.readers && s.readers[tid].Fetched?
    ensures Inv(c, EndLookup(c, s, tid))
  {
    hide Inv;
    hide Protective;
    var s1 := EndLookup(c, s, tid);
    var r := s.readers[tid];
    if IsDirNode(r.node) && InTime(c, s, r.start) {
      LookupEndTable(c, s, tid, r, s1);
      LookupEndFrame(c, s, tid, s1);
    } else {
      GiveUpInv(c, s, tid);
    }
  }

  lemma GiveUpInv(c: Config, s: State, tid: nat)
    requires Inv(c, s)
    ensures Inv(c, s.(readers := s.readers - {tid}))
  {
    LookupEndFrame(c, s, tid, s.(readers := s.readers - {tid}));
  }

  lemma WriteOpenInv(c: Config, s: State, w: Writer, tx: Option<Db>)
    requires Inv(c, s)
    requires || (s.writer == Idle && w.Begun? && tx == s.tx)
             || (s.writer.Begun? && w == InTx(s.writer.op) && tx == Some(s.db))
    ensures Inv(c, s.(writer := w, tx := tx))
  {
    var s1 := s.(writer := w, tx := tx);
    assert DbOk(c, s1);
    forall t | t in s1.readers ensures ReaderOk(c, s1, s1.readers[t]) {
      assert ReaderOk(c, s, s.readers[t]);
    }
  }

  lemma WriteCommitInv(c: Config, s: State, ok: bool, s1: State)
    requires Inv(c, s) && s.writer.InTx? && (ok ==> Applicable(c, s.db, s.writer.op))
    requires s1 == s.(writer := Done(s.writer.op, ok),
                      db := if ok then Apply(s.db, s.writer.op) else s.db)
    ensures Inv(c, s1)
  {
    assert DbOk(c, s1);
    forall t | t in s1.readers ensures ReaderOk(c, s1, s1.readers[t]) {
      assert ReaderOk(c, s, s.readers[t]);
    }
  }

  lemma PublishInv(c: Config, s: State, n: Name, slot: Slot)
    requires Inv(c, s) && Pending(s, n) && IsDir(s.db, n)
    requires Fresh(s, n, slot)
    requires forall g :: g in s.grants && g.name == n ==> g.due <= s.now
    ensures Inv(c, Publish(c, s, n, slot))
  {
    hide Release;
    hide Fresh;
    var s1 := Publish(c, s, n, slot);
    var l := Lease(Free, s.now + c.duration, s.sn + 1);
    TableAfter(s, n, slot, l);
    PublishReaders(c, s, s1, n, l);
    PublishDb(c, s, s1, n, l);
    PublishTable(c, s, s1, n, l);
  }

  // What publishing a change of "n" does.
  ghost predicate Publishes(c: Config, s: State, s1: State, n: Name, l: Lease) {
    && IsDir(s.db, n) && Pending(s, n) && l == Lease(Free, s.now + c.duration, s.sn + 1)
    && s1 == Finish(s).(sn := s.sn + 1, leases := s.leases[n := l], order := s1.order,
                        pubs := s.pubs[n := Pub(s.db[n].ver, s.sn + 1, s.now)])
  }

  lemma PublishReaders(c: Config, s: State, s1: State, n: Name, l: Lease)
    requires Inv(c, s) && Publishes(c, s, s1, n, l)
    ensures forall t :: t in s1.readers ==> ReaderOk(c, s1, s1.readers[t])
  {
    forall t | t in s1.readers ensures ReaderOk(c, s1, s1.readers[t]) {
      assert ReaderOk(c, s, s.readers[t]);
    }
  }

  lemma PublishDb(c: Config, s: State, s1: State, n: Name, l: Lease)
    requires DbOk(c, s) && PubOk(s) && Publishes(c, s, s1, n, l)
    ensures DbOk(c, s1) && PubOk(s1)
  {
  }

  lemma PublishTable(c: Config, s: State, s1: State, n: Name, l: Lease)
    requires n in c.names && PubOk(s) && LeaseOk(c, s) && Remembered(c, s) && Tracked(s) && Publishes(c, s, s1, n, l)
    requires forall g :: g in s.grants && g.name == n ==> g.due <= s.now
    ensures LeaseOk(c, s1) && Remembered(c, s1) && Tracked(s1)
  {
    forall m | m in s1.pubs && (c.policy.AsCoded? || s1.pubs[m].at + c.duration > s1.now)
      ensures Remembers(c, s1, m)
    {
      assert m != n ==> Remembers(c, s, m);
    }
  }

  // Unless the lease is shared and runs on, all leases given out on the entry are over.
  lemma NoLiveGrants(c: Config, s: State, n: Name)
    requires Inv(c, s) && NeedsLease(s) && s.writer.op.name == n
    ensures n in c.names && Pending(s, n) && IsDir(s.db, n)
    ensures !(LeaseAt(s, n).state == Shared && LeaseAt(s, n).due > s.now) ==>
              forall g :: g in s.grants && g.name == n ==> g.due <= s.now
  {
  }

  // Nor is any live once the writer wakes up.
  lemma WaitedOut(c: Config, s: State)
    requires Inv(c, s) && s.writer.Waiting? && s.now >= s.writer.wake
    ensures forall g :: g in s.grants && g.name == s.writer.name ==> g.due <= s.now
  {
  }

  lemma WriteEndInv(c: Config, s: State)
    requires Protective(c) && Inv(c, s) && s.writer.Done?
    ensures Inv(c, EndWrite(c, s))
  {
    hide Inv;
    hide Protective;
    hide Acquire;
    hide Publish;
    if NeedsLease(s) {
      var n := s.writer.op.name;
      NeverFull(c, s);
      NoLiveGrants(c, s, n);
      AcquireShape(c, s, n);
      var slot := Acquire(c, s, n);
      if slot.lease.state == Shared && slot.lease.due > s.now {
        WaitInv(c, s, n, EndWrite(c, s));
      } else {
        PublishInv(c, s, n, slot);
      }
    } else {
      FinishInv(c, s);
    }
  }

  lemma FinishInv(c: Config, s: State)
    requires Inv(c, s) && s.writer.Done? && !NeedsLease(s)
    ensures Inv(c, Finish(s))
  {
    var s1 := Finish(s);
    assert DbOk(c, s1);
    forall t | t in s1.readers ensures ReaderOk(c, s1, s1.readers[t]) {
      assert ReaderOk(c, s, s.readers[t]);
    }
  }

  // The writer locks the lease and waits for it to run out.
  lemma WaitInv(c: Config, s: State, n: Name, s1: State)
    requires Inv(c, s) && NeedsLease(s) && s.writer.op.name == n && n in s.leases
    requires s1 == s.(leases := s.leases[n := s.leases[n].(state := Locked)], order := s1.order,
                      writer := Waiting(n, s.leases[n].due + 10))
    ensures Inv(c, s1)
  {
    assert DbOk(c, s1);
    forall t | t in s1.readers ensures ReaderOk(c, s1, s1.readers[t]) {
      assert ReaderOk(c, s, s.readers[t]);
    }
  }

  lemma WakeInv(c: Config, s: State)
    requires Inv(c, s) && s.writer.Waiting? && s.now >= s.writer.wake
    ensures var n := s.writer.name;
            Inv(c, Publish(c, s, n, Slot(s.leases[n], TableOf(s), true)))
  {
    var n := s.writer.name;
    PublishInv(c, s, n, Slot(s.leases[n], TableOf(s), true));
  }

  lemma LookupStepInv(c: Config, s: State, step: Step)
    requires Protective(c) && Inv(c, s) && Enabled(c, s, step)
    requires step.LookupStart? || step.LookupLoadTx? || step.LookupFetch? || step.LookupEnd? || step.LookupGiveUp?
    ensures Inv(c, Next(c, s, step))
  {
    hide Inv;
    hide Protective;
    match step
    case LookupStart(tid, n) => LookupStartInv(c, s, tid, n);
    case LookupLoadTx(tid) => LookupLoadInv(c, s, tid);
    case LookupFetch(tid) => LookupFetchInv(c, s, tid, Next(c, s, step).readers[tid].node);
    case LookupEnd(tid) => LookupEndInv(c, s, tid);
    case LookupGiveUp(tid) => GiveUpInv(c, s, tid);
  }

  lemma WriteStepInv(c: Config, s: State, step: Step)
    requires Protective(c) && Inv(c, s) && Enabled(c, s, step)
    requires step.WriteBegin? || step.WriteOpenTx? || step.WriteCommit? || step.WriteEnd? || step.WriteWake?
    ensures Inv(c, Next(c, s, step))
  {
    match step
    case WriteBegin(op) => WriteOpenInv(c, s, Begun(op), s.tx);
    case WriteOpenTx => WriteOpenInv(c, s, InTx(s.writer.op), Some(s.db));
    case WriteCommit(ok) => WriteCommitInv(c, s, ok, Next(c, s, step));
    case WriteEnd => WriteEndInv(c, s);
    case WriteWake => WakeInv(c, s);
  }

  lemma StepInv(c: Config, s: State, step: Step)
    requires Protective(c) && Inv(c, s) && Enabled(c, s, step)
    ensures Inv(c, Next(c, s, step))
  {
    hide Inv;
    hide Protective;
    match step
    case Tick(dt) => TickInv(c, s, dt);
    case Evict(n) => EvictInv(c, s, n);
    case LookupStart(_, _) => LookupStepInv(c, s, step);
    case LookupLoadTx(_) => LookupStepInv(c, s, step);
    case LookupFetch(_) => LookupStepInv(c, s, step);
    case LookupEnd(_) => LookupStepInv(c, s, step);
    case LookupGiveUp(_) => LookupStepInv(c, s, step);
    case OtherTouch(n) => UseOtherInv(c, s, n, false);
    case OtherHold(n) => UseOtherInv(c, s, n, true);
    case OtherRelease(n) => OtherReleaseInv(c, s, n);
    case _ => WriteStepInv(c, s, step);
  }

  lemma {:induction false} RunInv(c: Config, s: State, steps: seq<Step>)
    requires Protective(c) && Inv(c, s) && CanRun(c, s, steps)
    ensures Inv(c, Run(c, s, steps))
    decreases |steps|
  {
    if steps == [] {
    } else {
      StepInv(c, s, steps[0]);
      RunInv(c, Next(c, s, steps[0]), steps[1..]);
    }
  }
}
