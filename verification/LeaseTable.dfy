/**
 The lease table in every run: the entries that may be dropped are exactly those that
 nobody holds, each listed once, and as coded the table never outgrows its capacity.
 So a writer that waits for a lease always finds its entry in the table again.
 */
module LeaseTable {
  import opened Coding
  import opened LeaseProtocol

  // The table while the entries "holds" are in somebody's hands.
  ghost predicate Exact(c: Config, t: Table, holds: set<Key>) {
    && Distinct(t.order)
    && (forall k :: k in t.order <==> InTable(t, k) && k !in holds)
    && (forall k :: k in holds ==> InTable(t, k))
    && (c.policy.AsCoded? ==> |t.leases| + |t.others| <= c.policy.capacity)
  }

  ghost function Holds(s: State): set<Key> {
    (set n | n in s.held :: Other(n)) + (if s.writer.Waiting? then {Own(s.writer.name)} else {})
  }

  ghost predicate TableOk(c: Config, s: State) {
    && Exact(c, TableOf(s), Holds(s))
    && (s.writer.Waiting? ==> s.leases[s.writer.name].state == Locked)
  }

  // ------------------------------------------------------------------
  // Operations of the table
  // ------------------------------------------------------------------

  lemma {:induction false} WithoutOk(order: seq<Key>, k: Key)
    requires Distinct(order)
    ensures Distinct(Without(order, k))
    ensures forall m :: m in Without(order, k) <==> m in order && m != k
  {
    if order == [] || order[0] == k {
    } else {
      var rest := Without(order[1..], k);
      WithoutOk(order[1..], k);
      assert order == [order[0]] + order[1..];
      assert order[0] !in order[1..];
      assert Without(order, k) == [order[0]] + rest;
      forall i | 0 <= i < |rest| ensures rest[i] != order[0] {
        assert rest[i] in rest;
      }
    }
  }

  lemma FirstOnce(order: seq<Key>)
    requires order != [] && Distinct(order)
    ensures Distinct(order[1..])
    ensures forall k :: k in order[1..] <==> k in order && k != order[0]
  {
    assert order == [order[0]] + order[1..];
  }

  lemma TakeOk(c: Config, t: Table, holds: set<Key>, k: Key)
    requires Exact(c, t, holds) && InTable(t, k)
    ensures Exact(c, t.(order := Without(t.order, k)), holds + {k})
  {
    WithoutOk(t.order, k);
  }

  lemma DropOk(c: Config, t: Table, holds: set<Key>)
    requires Exact(c, t, holds) && t.order != []
    ensures Exact(c, DropFirst(t), holds)
    ensures |DropFirst(t).leases| + |DropFirst(t).others| < |t.leases| + |t.others|
    ensures forall m :: Own(m) in holds ==> DropFirst(t).leases[m] == t.leases[m]
  {
    var t1 := DropFirst(t);
    FirstOnce(t.order);
    assert InTable(t, t.order[0]);
    match t.order[0]
    case Own(m) =>
      assert t1.leases.Keys == t.leases.Keys - {m};
      assert |t1.leases| == |t1.leases.Keys| && |t.leases| == |t.leases.Keys|;
    case Other(m) =>
  }

  lemma RoomOk(c: Config, t: Table, holds: set<Key>)
    requires Exact(c, t, holds)
    ensures MakeRoom(c, t).Some? ==> Exact(c, MakeRoom(c, t).value, holds) && !IsFull(c, MakeRoom(c, t).value)
    ensures forall k :: MakeRoom(c, t).Some? && InTable(MakeRoom(c, t).value, k) ==> InTable(t, k)
    ensures forall m :: MakeRoom(c, t).Some? && Own(m) in holds ==> MakeRoom(c, t).value.leases[m] == t.leases[m]
  {
    if IsFull(c, t) && t.order != [] {
      DropOk(c, t, holds);
    }
  }

  lemma AddOk(c: Config, t: Table, holds: set<Key>, k: Key, t1: Table)
    requires Exact(c, t, holds) && !IsFull(c, t) && !InTable(t, k)
    requires match k
             case Own(n) => t1 == t.(leases := t.leases[n := NEW_LEASE])
             case Other(n) => t1 == t.(others := t.others + {n})
    ensures Exact(c, t1, holds + {k})
  {
    hide Distinct;
    assert forall m :: InTable(t1, m) <==> InTable(t, m) || m == k;
    OneMore(t.leases, k.name);
  }

  lemma OneMore(leases: map<Name, Lease>, n: Name)
    ensures |leases[n := NEW_LEASE]| == |leases| + if n in leases then 0 else 1
  {
    assert leases[n := NEW_LEASE].Keys == leases.Keys + {n};
    assert |leases[n := NEW_LEASE]| == |leases[n := NEW_LEASE].Keys| && |leases| == |leases.Keys|;
  }

  lemma ReleaseOk(c: Config, t: Table, holds: set<Key>, k: Key)
    requires Exact(c, t, holds) && k in holds
    ensures Exact(c, t.(order := t.order + [k]), holds - {k})
  {
  }

  lemma WriteBackOk(c: Config, t: Table, holds: set<Key>, n: Name, l: Lease)
    requires Exact(c, t, holds) && n in t.leases
    ensures Exact(c, t.(leases := t.leases[n := l]), holds)
  {
    assert t.leases[n := l].Keys == t.leases.Keys;
    assert |t.leases[n := l]| == |t.leases[n := l].Keys| && |t.leases| == |t.leases.Keys|;
  }

  lemma WaiterHolds(c: Config, s: State)
    requires TableOk(c, s)
    ensures s.writer.Waiting? ==> s.writer.name in s.leases
    ensures forall n :: Own(n) in Holds(s) <==> Pinned(s, n)
  {
  }

  predicate Kept(n: Name, leases: map<Name, Lease>, leases1: map<Name, Lease>) {
    n in leases && n in leases1 && leases1[n] == leases[n]
  }

  lemma AcquireOk(c: Config, s: State, n: Name)
    requires TableOk(c, s)
    ensures var slot := Acquire(c, s, n);
            && (slot.cached ==> n in slot.table.leases && Exact(c, slot.table, Holds(s) + {Own(n)}))
            && (!slot.cached ==> slot.lease == NEW_LEASE && Exact(c, slot.table, Holds(s)))
            && (Pinned(s, n) ==> slot.cached && slot.lease.state == Locked)
            && (s.writer.Waiting? && s.writer.name != n ==> Kept(s.writer.name, s.leases, slot.table.leases))
  {
    hide Exact;
    hide MakeRoom;
    var t := TableOf(s);
    WaiterHolds(c, s);
    if n in s.leases {
      TakeOk(c, t, Holds(s), Own(n));
    } else {
      RoomOk(c, t, Holds(s));
      var r := MakeRoom(c, t);
      if r.Some? {
        AddOk(c, r.value, Holds(s), Own(n), r.value.(leases := r.value.leases[n := NEW_LEASE]));
      }
    }
  }

  lemma PutBackOk(c: Config, s: State, n: Name, l: Lease)
    requires TableOk(c, s)
    ensures var slot := Acquire(c, s, n);
            && Exact(c, Store(slot, n, l), Holds(s) + if slot.cached then {Own(n)} else {})
            && (!Pinned(s, n) ==> Exact(c, Release(slot, n, l), Holds(s)))
  {
    hide Acquire;
    hide Exact;
    AcquireOk(c, s, n);
    var slot := Acquire(c, s, n);
    if slot.cached {
      WriteBackOk(c, slot.table, Holds(s) + {Own(n)}, n, l);
      if !Pinned(s, n) {
        ReleaseOk(c, Store(slot, n, l), Holds(s) + {Own(n)}, Own(n));
        assert Holds(s) + {Own(n)} - {Own(n)} == Holds(s);
      }
    } else {
      assert Holds(s) + {} == Holds(s);
    }
  }

  // ------------------------------------------------------------------
  // Steps and runs
  // ------------------------------------------------------------------

  lemma LookupEndOk(c: Config, s: State, tid: nat)
    requires TableOk(c, s) && tid in s.readers && s.readers[tid].Fetched?
    ensures TableOk(c, EndLookup(c, s, tid))
  {
    hide Acquire;
    hide Exact;
    hide Store;
    hide Release;
    var r := s.readers[tid];
    var slot := Acquire(c, s, r.name);
    var l := Extend(c, s, slot.lease, r.sn);
    AcquireOk(c, s, r.name);
    PutBackOk(c, s, r.name, l);
    StoredAt(slot, r.name, l);
    assert Pinned(s, r.name) ==> Holds(s) + {Own(r.name)} == Holds(s);
    assert Holds(EndLookup(c, s, tid)) == Holds(s);
  }

  lemma StoredAt(slot: Slot, n: Name, l: Lease)
    ensures slot.cached ==> n in Store(slot, n, l).leases && Store(slot, n, l).leases[n] == l
    ensures Release(slot, n, l).leases == Store(slot, n, l).leases
    ensures forall m :: m in slot.table.leases && m != n ==> Kept(m, slot.table.leases, Store(slot, n, l).leases)
  {
  }

  lemma WriteEndOk(c: Config, s: State)
    requires TableOk(c, s) && s.writer.Done?
    ensures TableOk(c, EndWrite(c, s))
  {
    hide Acquire;
    hide Exact;
    hide Store;
    hide Release;
    if NeedsLease(s) {
      var n := s.writer.op.name;
      var slot := Acquire(c, s, n);
      AcquireOk(c, s, n);
      PutBackOk(c, s, n, slot.lease.(state := Locked));
      StoredAt(slot, n, slot.lease.(state := Locked));
      PutBackOk(c, s, n, Lease(Free, s.now + c.duration, s.sn + 1));
      assert Holds(Finish(s)) == Holds(s);
      assert Holds(s.(writer := Waiting(n, slot.lease.due + 10))) == Holds(s) + {Own(n)};
    } else {
      assert Holds(Finish(s)) == Holds(s);
    }
  }

  lemma WakeOk(c: Config, s: State)
    requires TableOk(c, s) && s.writer.Waiting? && s.writer.name in s.leases && s.writer.name in s.db
    ensures TableOk(c, EndWait(c, s))
  {
    var n, t := s.writer.name, TableOf(s);
    var l := Lease(Free, s.now + c.duration, s.sn + 1);
    WriteBackOk(c, t, Holds(s), n, l);
    ReleaseOk(c, t.(leases := t.leases[n := l]), Holds(s), Own(n));
    assert Holds(EndWait(c, s)) == Holds(s) - {Own(n)};
  }

  lemma HoldsOther(s: State, n: Name)
    ensures Holds(s.(held := s.held + {n})) == Holds(s) + {Other(n)}
    ensures Other(n) in Holds(s) <==> n in s.held
    ensures Holds(s.(held := s.held - {n})) == Holds(s) - {Other(n)}
  {
  }

  lemma HoldsFrame(s: State, s1: State)
    requires s1.held == s.held && s1.writer == s.writer
    ensures Holds(s1) == Holds(s)
  {
  }

  lemma OtherOk(c: Config, s: State, n: Name, keep: bool)
    requires TableOk(c, s) && n !in s.held
    ensures TableOk(c, UseOther(c, s, n, keep))
  {
    hide Exact;
    hide Holds;
    hide AcquireOther;
    OtherTakes(c, s, n);
    HoldsOther(s, n);
    var t, s1 := AcquireOther(c, s, n), UseOther(c, s, n, keep);
    if t.Some? {
      ReleaseOk(c, t.value, Holds(s) + {Other(n)}, Other(n));
      assert Holds(s) + {Other(n)} - {Other(n)} == Holds(s);
      HoldsFrame(if keep then s.(held := s.held + {n}) else s, s1);
    }
  }

  lemma OtherTakes(c: Config, s: State, n: Name)
    requires TableOk(c, s)
    ensures var t := AcquireOther(c, s, n);
            t.Some? ==> Exact(c, t.value, Holds(s) + {Other(n)}) &&
                        (s.writer.Waiting? ==> Kept(s.writer.name, s.leases, t.value.leases))
  {
    var t := TableOf(s);
    if n in s.others {
      TakeOk(c, t, Holds(s), Other(n));
    } else {
      RoomOk(c, t, Holds(s));
      var r := MakeRoom(c, t);
      if r.Some? {
        AddOk(c, r.value, Holds(s), Other(n), r.value.(others := r.value.others + {n}));
      }
    }
  }

  lemma EvictOk(c: Config, s: State, n: Name)
    requires TableOk(c, s) && Enabled(c, s, Evict(n))
    ensures TableOk(c, Next(c, s, Evict(n)))
  {
    hide Holds;
    var s1 := Next(c, s, Evict(n));
    HoldsFrame(s, s1);
    WaiterHolds(c, s);
    WithoutOk(s.order, Own(n));
    assert forall k :: InTable(TableOf(s1), k) <==> InTable(TableOf(s), k) && k != Own(n);
  }

  lemma OtherReleaseOk(c: Config, s: State, n: Name)
    requires TableOk(c, s) && n in s.held
    ensures TableOk(c, Next(c, s, OtherRelease(n)))
  {
    hide Exact;
    hide Holds;
    HoldsOther(s, n);
    ReleaseOk(c, TableOf(s), Holds(s), Other(n));
    HoldsFrame(s.(held := s.held - {n}), Next(c, s, OtherRelease(n)));
  }

  lemma StepOk(c: Config, s: State, step: Step)
    requires TableOk(c, s) && Enabled(c, s, step)
    ensures TableOk(c, Next(c, s, step))
  {
    hide Exact;
    match step
    case LookupEnd(tid) => LookupEndOk(c, s, tid);
    case WriteEnd => WriteEndOk(c, s);
    case WriteWake => WakeOk(c, s);
    case Evict(n) => EvictOk(c, s, n);
    case OtherTouch(n) => OtherOk(c, s, n, false);
    case OtherHold(n) => OtherOk(c, s, n, true);
    case OtherRelease(n) => OtherReleaseOk(c, s, n);
    case _ => assert Holds(Next(c, s, step)) == Holds(s);
  }

  // In every run.
  lemma {:induction false} RunTable(c: Config, s: State, steps: seq<Step>)
    requires TableOk(c, s) && CanRun(c, s, steps)
    ensures TableOk(c, Run(c, s, steps))
    decreases |steps|
  {
    if steps == [] {
    } else {
      StepOk(c, s, steps[0]);
      RunTable(c, Next(c, s, steps[0]), steps[1..]);
    }
  }

  // The entry a waiting writer holds is never dropped, so that writer can always go on.
  lemma WaiterKeepsEntry(c: Config, s: State, steps: seq<Step>)
    requires Init(c, s) && CanRun(c, s, steps)
    ensures var s1 := Run(c, s, steps);
            && TableOk(c, s1)
            && (s1.writer.Waiting? ==> s1.writer.name in s1.leases && s1.leases[s1.writer.name].state == Locked)
  {
    assert Holds(s) == {};
    RunTable(c, s, steps);
  }
}
