/**
 What the sections of the lease protocol do for clients: who gets a lease and for how long,
 when a writer goes ahead and when it waits.
 */
module LeaseEffects {
  import opened Coding
  import opened LeaseProtocol

  // Everything but the lease table, the readers and the leases given out.
  ghost predicate SameRest(s: State, t: State) {
    t.now == s.now && t.sn == s.sn && t.db == s.db && t.tx == s.tx && t.writer == s.writer && t.pubs == s.pubs && t.held == s.held
  }

  /** A lookup gets a lease if and only if it found a directory, is in time and was not
      overtaken. The lease runs for the full duration from now on, and is noted as shared, unless
      a writer waits for it: then it ends when it would have. A lease is on the version read. */
  lemma LookupEffect(c: Config, s: State, tid: nat)
    requires tid in s.readers && s.readers[tid].Fetched?
    ensures var r, t := s.readers[tid], EndLookup(c, s, tid);
            var slot := Acquire(c, s, r.name);
            var closes := IsDirNode(r.node) && InTime(c, s, r.start);
            var given := closes && slot.lease.sn <= r.sn;
            var due := if slot.lease.state == Locked then slot.lease.due else s.now + c.duration;
            && t.grants == (if given then s.grants + {Grant(r.name, r.node.value.ver, due)} else s.grants)
            && t.readers == s.readers - {tid} && SameRest(s, t)
            && (closes && slot.cached ==>
                  && r.name in t.leases
                  && t.leases[r.name] == if given && slot.lease.state != Locked then Lease(Shared, due, slot.lease.sn)
                                         else slot.lease)
            && (!closes ==> TableOf(t) == TableOf(s))
  {
    hide Acquire;
  }

  /** A client whose clock is right can use a lease it was given until 10 microseconds before
      its end. */
  lemma LeaseUsable(c: Config, s: State, tid: nat, clock: nat)
    requires tid in s.readers && s.readers[tid].Fetched?
    requires var r := s.readers[tid];
             var l := Acquire(c, s, r.name).lease;
             IsDirNode(r.node) && InTime(c, s, r.start) && l.sn <= r.sn && l.state != Locked
    requires clock + 10 <= s.now + c.duration
    ensures var r := s.readers[tid];
            exists g :: g in EndLookup(c, s, tid).grants && g.name == r.name && g.ver == r.node.value.ver && ClientReuses(clock, g)
  {
    hide Acquire;
    LookupEffect(c, s, tid);
    var r := s.readers[tid];
    var g := Grant(r.name, r.node.value.ver, s.now + c.duration);
    assert g in EndLookup(c, s, tid).grants && ClientReuses(clock, g);
  }

  /** A committed change of a directory waits if and only if its lease is shared and not yet
      due, until 10 microseconds after that, with the lease locked; else it is published at once
      under a new sequence number. No other write waits or publishes. */
  lemma WriteEffect(c: Config, s: State)
    requires s.writer.Done?
    ensures var t := EndWrite(c, s);
            if NeedsLease(s) then
              var n := s.writer.op.name;
              var slot := Acquire(c, s, n);
              if slot.lease.state == Shared && slot.lease.due > s.now then
                && t.writer == Waiting(n, slot.lease.due + 10)
                && t.sn == s.sn && t.pubs == s.pubs && t.db == s.db && t.grants == s.grants && t.readers == s.readers
                && (slot.cached ==> n in t.leases && t.leases[n] == slot.lease.(state := Locked))
              else
                && t.writer == Idle && t.tx == None && t.db == s.db && t.grants == s.grants && t.readers == s.readers
                && t.sn == s.sn + 1 && t.pubs == s.pubs[n := Pub(s.db[n].ver, t.sn, s.now)]
                && (slot.cached ==> n in t.leases && t.leases[n] == Lease(Free, s.now + c.duration, t.sn))
            else t == s.(writer := Idle, tx := None)
  {
    hide Acquire;
  }

  /** A writer that wakes up publishes its change; the lease is free again. */
  lemma WakeEffect(c: Config, s: State)
    requires s.writer.Waiting? && s.writer.name in s.leases && s.writer.name in s.db
    ensures var t, n := EndWait(c, s), s.writer.name;
            && t.writer == Idle && t.tx == None && t.sn == s.sn + 1 && t.pubs == s.pubs[n := Pub(s.db[n].ver, t.sn, s.now)]
            && n in t.leases && t.leases[n] == Lease(Free, s.now + c.duration, t.sn)
            && t.db == s.db && t.grants == s.grants && t.readers == s.readers
  {
  }

  // ------------------------------------------------------------------
  // What is read and written
  // ------------------------------------------------------------------

  /** A lookup notes the time and the sequence number at which it starts; it reads from the
      transaction that was open when it looked for one, and else from the database as it is. */
  lemma ReadEffect(c: Config, s: State, tid: nat, n: Name)
    ensures tid !in s.readers ==>
              Next(c, s, LookupStart(tid, n)) == s.(readers := s.readers[tid := Started(n, s.now, s.sn)])
    ensures tid in s.readers && s.readers[tid].Started? ==>
              var t := Next(c, s, LookupLoadTx(tid));
              && t == s.(readers := t.readers) && t.readers - {tid} == s.readers - {tid} && tid in t.readers
              && t.readers[tid] == Loaded(s.readers[tid].name, s.readers[tid].start, s.readers[tid].sn, s.tx)
    ensures tid in s.readers && s.readers[tid].Loaded? ==>
              var t, r := Next(c, s, LookupFetch(tid)), s.readers[tid];
              && t == s.(readers := t.readers) && t.readers - {tid} == s.readers - {tid} && tid in t.readers
              && t.readers[tid].Fetched? && t.readers[tid].name == r.name && t.readers[tid].start == r.start
              && t.readers[tid].sn == r.sn
              && (r.tx.Some? ==> t.readers[tid].node == Found(r.tx.value, r.name))
              && (r.tx.None? ==> t.readers[tid].node == Found(s.db, r.name))
  {
  }

  function Found(db: Db, n: Name): Option<Node> {
    if n in db then Some(db[n]) else None
  }

  // A write has opened its transaction and has not finished.
  predicate Writing(s: State) {
    s.writer.InTx? || s.writer.Done? || s.writer.Waiting?
  }

  // The write goes on all through the steps.
  ghost predicate StaysWriting(c: Config, s: State, steps: seq<Step>)
    requires CanRun(c, s, steps)
    decreases |steps|
  {
    Writing(s) && (steps != [] ==> StaysWriting(c, Next(c, s, steps[0]), steps[1..]))
  }

  /** From opening its transaction to the end of a write, through commit and wait, lookups that
      look for a transaction find the database as it was before the write. */
  lemma {:induction false} SnapshotStays(c: Config, s: State, steps: seq<Step>)
    requires CanRun(c, s, steps) && StaysWriting(c, s, steps)
    ensures Run(c, s, steps).tx == s.tx
    decreases |steps|
  {
    hide Next;
    hide Enabled;
    if steps == [] {
    } else {
      StepTx(c, s, steps[0]);
      SnapshotStays(c, Next(c, s, steps[0]), steps[1..]);
    }
  }

  lemma StepTx(c: Config, s: State, step: Step)
    requires Writing(s) && Enabled(c, s, step) && Writing(Next(c, s, step))
    ensures Next(c, s, step).tx == s.tx
  {
    hide Acquire;
    hide AcquireOther;
    hide Store;
    hide Release;
    hide Apply;
  }

  /** Opening a transaction keeps the database as it is for lookups; a commit changes what the
      operation says and only that, and a failed one nothing. */
  lemma CommitEffect(c: Config, s: State, ok: bool)
    ensures s.writer.Begun? ==> Next(c, s, WriteOpenTx) == s.(writer := InTx(s.writer.op), tx := Some(s.db))
    ensures Enabled(c, s, WriteCommit(ok)) ==>
              var t, op := Next(c, s, WriteCommit(ok)), s.writer.op;
              && t == s.(writer := Done(op, ok), db := t.db)
              && (!ok ==> t.db == s.db)
              && (forall m :: m != op.name ==> Found(t.db, m) == Found(s.db, m))
              && (ok ==>
                  match op {
                    case Uperm(n) => n in s.db && Found(t.db, n) == Some(Node(s.db[n].isDir, s.db[n].ver + 1))
                    case Create(n, isDir) => n !in s.db && Found(t.db, n) == Some(Node(isDir, 0))
                    case Remove(n) => n in s.db && !s.db[n].isDir && n !in t.db
                    case Touch(n) => n in s.db && t.db == s.db
                  })
  {
  }
}
