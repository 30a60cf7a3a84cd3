/**
 The main results about leases: the exact configurations in which no client ever
 reuses a superseded directory, what a client with a slow clock may rely on, and
 when a lookup is refused a lease.
 */
module LeaseTheorems {
  import opened Coding
  import opened LeaseProtocol
  import opened LeaseSafety

  // ------------------------------------------------------------------
  // Configurations that are safe for other reasons
  // ------------------------------------------------------------------

  // With a zero duration every lease has expired by the time it is granted.
  ghost predicate AllExpired(s: State) {
    && (forall g :: g in s.grants ==> g.due <= s.now)
    && (forall n :: n in s.leases ==> s.leases[n].due <= s.now)
  }

  lemma AllExpiredStep(c: Config, s: State, step: Step)
    requires c.duration == 0 && AllExpired(s) && Enabled(c, s, step)
    ensures AllExpired(Next(c, s, step))
  {
    hide EndLookup;
    hide EndWrite;
    hide UseOther;
    hide Without;
    match step
    case LookupEnd(tid) => AllExpiredLookup(c, s, tid);
    case WriteEnd => AllExpiredWrite(c, s);
    case OtherTouch(n) => AllExpiredOther(c, s, n, false);
    case OtherHold(n) => AllExpiredOther(c, s, n, true);
    case _ =>
  }

  lemma AcquireExpired(c: Config, s: State, n: Name)
    requires AllExpired(s)
    ensures var slot := Acquire(c, s, n);
            && slot.lease.due <= s.now
            && forall m :: m in slot.table.leases ==> slot.table.leases[m].due <= s.now
  {
    hide Without;
  }

  lemma AllExpiredOther(c: Config, s: State, n: Name, keep: bool)
    requires AllExpired(s)
    ensures AllExpired(UseOther(c, s, n, keep))
  {
    hide Without;
  }

  lemma AllExpiredLookup(c: Config, s: State, tid: nat)
    requires c.duration == 0 && AllExpired(s) && tid in s.readers && s.readers[tid].Fetched?
    ensures AllExpired(EndLookup(c, s, tid))
  {
    hide Acquire;
    AcquireExpired(c, s, s.readers[tid].name);
  }

  lemma AllExpiredWrite(c: Config, s: State)
    requires c.duration == 0 && AllExpired(s) && s.writer.Done?
    ensures AllExpired(EndWrite(c, s))
  {
    hide Acquire;
    AcquireExpired(c, s, s.writer.op.name);
  }

  lemma {:induction false} RunAllExpired(c: Config, s: State, steps: seq<Step>)
    requires c.duration == 0 && AllExpired(s) && CanRun(c, s, steps)
    ensures AllExpired(Run(c, s, steps))
    decreases |steps|
  {
    hide Next;
    hide Enabled;
    hide AllExpired;
    if steps == [] {
    } else {
      AllExpiredStep(c, s, steps[0]);
      RunAllExpired(c, Next(c, s, steps[0]), steps[1..]);
    }
  }

  // With a duration of exactly 10 no lookup ever counts as being in time.
  ghost predicate NoGrants(s: State) {
    && s.grants == {}
    && (forall t :: t in s.readers ==> s.readers[t].start <= s.now)
  }

  lemma NoGrantsStep(c: Config, s: State, step: Step)
    requires c.duration == 10 && NoGrants(s) && Enabled(c, s, step)
    ensures NoGrants(Next(c, s, step))
  {
  }

  lemma {:induction false} RunNoGrants(c: Config, s: State, steps: seq<Step>)
    requires c.duration == 10 && NoGrants(s) && CanRun(c, s, steps)
    ensures NoGrants(Run(c, s, steps))
    decreases |steps|
  {
    hide Next;
    hide Enabled;
    hide NoGrants;
    if steps == [] {
    } else {
      NoGrantsStep(c, s, steps[0]);
      RunNoGrants(c, Next(c, s, steps[0]), steps[1..]);
    }
  }

  // Without any entry there is nothing to look up.
  ghost predicate NothingThere(s: State) {
    && s.grants == {}
    && s.db == map[]
    && (s.tx.Some? ==> s.tx.value == map[])
    && (forall t :: t in s.readers ==>
          && (s.readers[t].Loaded? && s.readers[t].tx.Some? ==> s.readers[t].tx.value == map[])
          && (s.readers[t].Fetched? ==> s.readers[t].node == None))
  }

  lemma NothingThereStep(c: Config, s: State, step: Step)
    requires c.names == {} && NothingThere(s) && Enabled(c, s, step)
    ensures NothingThere(Next(c, s, step))
  {
  }

  lemma {:induction false} RunNothingThere(c: Config, s: State, steps: seq<Step>)
    requires c.names == {} && NothingThere(s) && CanRun(c, s, steps)
    ensures NothingThere(Run(c, s, steps))
    decreases |steps|
  {
    hide Next;
    hide Enabled;
    hide NothingThere;
    if steps == [] {
    } else {
      NothingThereStep(c, s, steps[0]);
      RunNothingThere(c, Next(c, s, steps[0]), steps[1..]);
    }
  }

  lemma SafeConfigIsSafe(c: Config)
    requires SafeConfig(c)
    ensures AlwaysSafe(c)
  {
    forall s, steps | Init(c, s) && CanRun(c, s, steps) ensures Safe(Run(c, s, steps)) {
      if Protective(c) {
        InitInv(c, s);
        RunInv(c, s, steps);
      } else if c.duration == 0 {
        RunAllExpired(c, s, steps);
      } else if c.names == {} {
        assert s.db == map[];
        RunNothingThere(c, s, steps);
      } else {
        RunNoGrants(c, s, steps);
      }
    }
  }

  // ------------------------------------------------------------------
  // Every other configuration has an unsafe run
  // ------------------------------------------------------------------

  ghost predicate Reaches(c: Config, s: State, t: State) {
    exists steps :: CanRun(c, s, steps) && Run(c, s, steps) == t
  }

  lemma {:induction false} RunSnoc(c: Config, s: State, steps: seq<Step>, step: Step)
    requires CanRun(c, s, steps) && Enabled(c, Run(c, s, steps), step)
    ensures CanRun(c, s, steps + [step])
    ensures Run(c, s, steps + [step]) == Next(c, Run(c, s, steps), step)
    decreases |steps|
  {
    if steps == [] {
      assert steps + [step] == [step];
      assert CanRun(c, Next(c, s, step), [step][1..]);
    } else {
      assert (steps + [step])[1..] == steps[1..] + [step];
      RunSnoc(c, Next(c, s, steps[0]), steps[1..], step);
    }
  }

  lemma ReachesSelf(c: Config, s: State)
    ensures Reaches(c, s, s)
  {
    assert CanRun(c, s, []) && Run(c, s, []) == s;
  }

  lemma ReachesNext(c: Config, s: State, t: State, step: Step)
    requires Reaches(c, s, t) && Enabled(c, t, step)
    ensures Reaches(c, s, Next(c, t, step))
  {
    var steps :| CanRun(c, s, steps) && Run(c, s, steps) == t;
    RunSnoc(c, s, steps, step);
  }

  lemma UnsafeRun(c: Config, s: State, t: State)
    requires Init(c, s) && Reaches(c, s, t) && !Safe(t)
    ensures !AlwaysSafe(c)
  {
  }

  // All of the named directories, at version 0.
  ghost function Start(c: Config): (s: State)
    ensures Init(c, s)
  {
    State(0, 0, map[], {}, [], {}, map n | n in c.names :: Node(true, 0), None, Idle, map[], {}, map[])
  }

  // A reader has fetched version 0 of "a", and the change to version 1 was then published.
  ghost function Overtaking(c: Config, a: Name, t: Table, grants: set<Grant>): State
    requires a in c.names
  {
    WithTable(Start(c), t).(
      sn := 1,
      db := Start(c).db[a := Node(true, 1)],
      readers := map[0 := Fetched(a, 0, 0, Some(Node(true, 0)))],
      grants := grants,
      pubs := map[a := Pub(1, 1, 0)])
  }

  ghost function FirstTable(c: Config, a: Name): Table {
    if c.policy == AsCoded(0) then Table(map[], {}, []) else Table(map[a := Lease(Free, c.duration, 1)], {}, [Own(a)])
  }

  lemma ReachOvertaking(c: Config, a: Name)
    requires a in c.names
    ensures Reaches(c, Start(c), Overtaking(c, a, FirstTable(c, a), {}))
  {
    hide Reaches;
    hide EndWrite;
    hide EndLookup;
    var s0 := Start(c);
    ReachesSelf(c, s0);
    ReachesNext(c, s0, s0, LookupStart(0, a));
    var s1 := s0.(readers := map[0 := Started(a, 0, 0)]);
    ReachesNext(c, s0, s1, LookupLoadTx(0));
    var s2 := s0.(readers := map[0 := Loaded(a, 0, 0, None)]);
    ReachesNext(c, s0, s2, LookupFetch(0));
    var s3 := s0.(readers := map[0 := Fetched(a, 0, 0, Some(Node(true, 0)))]);
    assert Next(c, s2, LookupFetch(0)) == s3;
    ReachOvertakingWrite(c, a, s3);
  }

  lemma ReachOvertakingWrite(c: Config, a: Name, s3: State)
    requires a in c.names && Reaches(c, Start(c), s3)
    requires s3 == Start(c).(readers := map[0 := Fetched(a, 0, 0, Some(Node(true, 0)))])
    ensures Reaches(c, Start(c), Overtaking(c, a, FirstTable(c, a), {}))
  {
    hide Reaches;
    hide EndLookup;
    hide EndWrite;
    var s0 := Start(c);
    ReachesNext(c, s0, s3, WriteBegin(Uperm(a)));
    var s4 := s3.(writer := Begun(Uperm(a)));
    ReachesNext(c, s0, s4, WriteOpenTx);
    var s5 := s4.(writer := InTx(Uperm(a)), tx := Some(s0.db));
    ReachesNext(c, s0, s5, WriteCommit(true));
    var s6 := s5.(writer := Done(Uperm(a), true), db := s0.db[a := Node(true, 1)]);
    ReachesNext(c, s0, s6, WriteEnd);
    PublishFirst(c, a, s6);
  }

  lemma PublishFirst(c: Config, a: Name, s: State)
    requires a in c.names
    requires s == Start(c).(readers := map[0 := Fetched(a, 0, 0, Some(Node(true, 0)))], tx := Some(Start(c).db),
                            writer := Done(Uperm(a), true), db := Start(c).db[a := Node(true, 1)])
    ensures EndWrite(c, s) == Overtaking(c, a, FirstTable(c, a), {})
  {
  }

  // The closing section of the overtaken reader, once nothing is left to warn it:
  // whichever entry makes way for a new lease, the reader is given it.
  lemma StaleGrant(c: Config, a: Name, s: State)
    requires Reaches(c, Start(c), s) && c.duration > 0
    requires 0 in s.readers && s.readers[0] == Fetched(a, 0, 0, Some(Node(true, 0)))
    requires a in s.pubs && s.pubs[a].ver == 1
    requires a !in s.leases && InTime(c, s, 0)
    ensures !AlwaysSafe(c)
  {
    ReachesNext(c, Start(c), s, LookupEnd(0));
    var t := Next(c, s, LookupEnd(0));
    assert Grant(a, 0, s.now + c.duration) in t.grants;
    UnsafeRun(c, Start(c), t);
  }

  // Under the documented policy: the lease expires, is dropped, and the limit has wrapped.
  lemma ShortDurationUnsafe(c: Config)
    requires c.policy.Documented? && 0 < c.duration < 10 && c.names != {}
    ensures !AlwaysSafe(c)
  {
    hide Reaches;
    hide AlwaysSafe;
    hide EndWrite;
    hide EndLookup;
    var a :| a in c.names;
    ReachOvertaking(c, a);
    var s := Overtaking(c, a, FirstTable(c, a), {});
    ReachesNext(c, Start(c), s, Tick(c.duration));
    var s1 := s.(now := c.duration);
    ReachesNext(c, Start(c), s1, Evict(a));
    StaleGrant(c, a, Next(c, s1, Evict(a)));
  }

  // Another lookup runs up to the point where it closes.
  lemma FetchOther(c: Config, a: Name, s: State, m: Name)
    requires a in c.names && m in c.names && m != a
    requires s == Overtaking(c, a, TableOf(s), s.grants) && Reaches(c, Start(c), s)
    ensures Reaches(c, Start(c), s.(readers := s.readers[1 := Fetched(m, 0, 1, Some(Node(true, 0)))]))
  {
    hide Reaches;
    hide EndWrite;
    hide EndLookup;
    var s0 := Start(c);
    var r := s.readers;
    var node := Some(Node(true, 0));
    ReachesNext(c, s0, s, LookupStart(1, m));
    var s1 := s.(readers := r[1 := Started(m, 0, 1)]);
    ReachesNext(c, s0, s1, LookupLoadTx(1));
    assert r[1 := Started(m, 0, 1)][1 := Loaded(m, 0, 1, None)] == r[1 := Loaded(m, 0, 1, None)];
    var s2 := s.(readers := r[1 := Loaded(m, 0, 1, None)]);
    ReachesNext(c, s0, s2, LookupFetch(1));
    assert r[1 := Loaded(m, 0, 1, None)][1 := Fetched(m, 0, 1, node)] == r[1 := Fetched(m, 0, 1, node)];
  }

  // What a new entry does to the table.
  ghost function Entered(c: Config, t: Table, k: Key): Table
    requires MakeRoom(c, t).Some?
  {
    var r := MakeRoom(c, t).value;
    match k
    case Own(m) => Table(r.leases[m := Lease(Shared, c.duration, 0)], r.others, r.order + [k])
    case Other(m) => Table(r.leases, r.others + {m}, r.order + [k])
  }

  // Some entry that is not in the table yet gets into it: the lookup of another entry
  // of this directory closes, or one of another directory does.
  lemma LookupOther(c: Config, a: Name, s: State, k: Key) returns (grants: set<Grant>)
    requires a in c.names && k != Own(a) && !InTable(TableOf(s), k)
    requires if k.Own? then k.name in c.names else k.name in c.foreign
    requires s == Overtaking(c, a, TableOf(s), s.grants) && Reaches(c, Start(c), s)
    requires InTime(c, s, 0) && MakeRoom(c, TableOf(s)).Some?
    ensures Reaches(c, Start(c), Overtaking(c, a, Entered(c, TableOf(s), k), grants))
  {
    hide Reaches;
    var t := TableOf(s);
    match k
    case Own(m) =>
      var node := Some(Node(true, 0));
      FetchOther(c, a, s, m);
      var s3 := s.(readers := s.readers[1 := Fetched(m, 0, 1, node)]);
      ReachesNext(c, Start(c), s3, LookupEnd(1));
      grants := s.grants + {Grant(m, 0, c.duration)};
      EnterOwn(c, a, s, m);
    case Other(m) =>
      ReachesNext(c, Start(c), s, OtherTouch(m));
      grants := s.grants;
      assert UseOther(c, s, m, false) == Overtaking(c, a, Entered(c, t, k), grants);
  }

  lemma EnterOwn(c: Config, a: Name, s: State, m: Name)
    requires a in c.names && m != a && m !in s.leases
    requires s == Overtaking(c, a, TableOf(s), s.grants) && InTime(c, s, 0) && MakeRoom(c, TableOf(s)).Some?
    ensures var s3 := s.(readers := s.readers[1 := Fetched(m, 0, 1, Some(Node(true, 0)))]);
            EndLookup(c, s3, 1) == Overtaking(c, a, Entered(c, TableOf(s), Own(m)), s.grants + {Grant(m, 0, c.duration)})
  {
    hide MakeRoom;
    var s3 := s.(readers := s.readers[1 := Fetched(m, 0, 1, Some(Node(true, 0)))]);
    assert s3.readers - {1} == s.readers;
    var r := MakeRoom(c, TableOf(s)).value;
    var l := Lease(Shared, c.duration, 0);
    assert r.leases[m := NEW_LEASE][m := l] == r.leases[m := l];
  }

  // There is an entry that is not in the table.
  lemma SomeoneElse(c: Config, t: Table) returns (k: Key)
    requires |t.leases| + |t.others| < |c.names| + |c.foreign|
    ensures !InTable(t, k) && if k.Own? then k.name in c.names else k.name in c.foreign
  {
    if m :| m in c.names && m !in t.leases {
      k := Own(m);
    } else {
      assert c.names <= t.leases.Keys && |t.leases| == |t.leases.Keys|;
      SubsetCardinality(c.names, t.leases.Keys);
      if c.foreign <= t.others {
        SubsetCardinality(c.foreign, t.others);
        assert false;
      }
      var m :| m in c.foreign && m !in t.others;
      k := Other(m);
    }
  }

  // The lease on "a" is the one released first, and all entries can be dropped.
  ghost predicate FirstOut(a: Name, t: Table) {
    a in t.leases && t.order != [] && t.order[0] == Own(a)
  }

  // Lookups of other entries fill the table until the lease on "a" is the one to go.
  lemma CrowdedTableUnsafe(c: Config, a: Name, s: State)
    requires c.policy.AsCoded? && c.duration != 0 && c.duration != 10
    requires 0 < c.policy.capacity < |c.names| + |c.foreign|
    requires a in c.names && FirstOut(a, TableOf(s)) && |s.leases| + |s.others| <= c.policy.capacity
    requires s == Overtaking(c, a, TableOf(s), s.grants) && Reaches(c, Start(c), s)
    ensures !AlwaysSafe(c)
    decreases c.policy.capacity - |s.leases| - |s.others|
  {
    hide Reaches;
    hide AlwaysSafe;
    var t := TableOf(s);
    var k := SomeoneElse(c, t);
    var grants := LookupOther(c, a, s, k);
    var u := Entered(c, t, k);
    if |s.leases| + |s.others| < c.policy.capacity {
      EnteredSize(c, t, k);
      CrowdedTableUnsafe(c, a, Overtaking(c, a, u, grants));
    } else {
      assert a !in u.leases;
      StaleGrant(c, a, Overtaking(c, a, u, grants));
    }
  }

  lemma EnteredSize(c: Config, t: Table, k: Key)
    requires !IsFull(c, t) && !InTable(t, k)
    ensures var u := Entered(c, t, k); |u.leases| + |u.others| == |t.leases| + |t.others| + 1
  {
    var u := Entered(c, t, k);
    if k.Own? {
      assert u.leases.Keys == t.leases.Keys + {k.name};
      assert |u.leases| == |u.leases.Keys| && |t.leases| == |t.leases.Keys|;
    } else {
      assert u.others == t.others + {k.name};
    }
  }

  lemma SmallTableUnsafe(c: Config)
    requires c.policy.AsCoded? && c.names != {} && c.policy.capacity < |c.names| + |c.foreign|
    requires c.duration != 0 && c.duration != 10
    ensures !AlwaysSafe(c)
  {
    hide Reaches;
    hide AlwaysSafe;
    var a :| a in c.names;
    ReachOvertaking(c, a);
    var s := Overtaking(c, a, FirstTable(c, a), {});
    if c.policy.capacity == 0 {
      StaleGrant(c, a, s);
    } else {
      CrowdedTableUnsafe(c, a, s);
    }
  }

  // ------------------------------------------------------------------
  // Main results
  // ------------------------------------------------------------------

  /** No interleaving of lookups and writes ever leaves a client with an unexpired
      lease on a superseded version, if and only if the configuration is a safe one. */
  lemma LeaseSafetyIff(c: Config)
    ensures AlwaysSafe(c) <==> SafeConfig(c)
  {
    if SafeConfig(c) {
      SafeConfigIsSafe(c);
    } else if c.policy.Documented? {
      ShortDurationUnsafe(c);
    } else {
      SmallTableUnsafe(c);
    }
  }

  /** In a safe configuration, a client whose clock lags the server's by less than
      10 microseconds never reuses a version older than the published one. */
  lemma ClientNeverStale(c: Config, s: State, steps: seq<Step>, clock: nat, g: Grant)
    requires SafeConfig(c) && Init(c, s) && CanRun(c, s, steps)
    requires var t := Run(c, s, steps);
             g in t.grants && clock + 10 > t.now && ClientReuses(clock, g)
    ensures g.ver >= Published(Run(c, s, steps), g.name)
  {
    LeaseSafetyIff(c);
    assert Safe(Run(c, s, steps));
  }

  // Which steps publish, and what they go by.
  lemma PublishedBy(c: Config, s: State, step: Step, n: Name)
    requires Enabled(c, s, step) && Published(Next(c, s, step), n) != Published(s, n)
    ensures || (step.WriteWake? && s.writer.name == n)
            || (step.WriteEnd? && NeedsLease(s) && s.writer.op.name == n &&
                var l := Acquire(c, s, n).lease; !(l.state == Shared && l.due > s.now))
  {
    hide Acquire;
    hide Without;
    hide MakeRoom;
  }

  /** A change is published only after every lease on the entry has run out. */
  lemma PublishWaitsOutLeases(c: Config, s: State, steps: seq<Step>, step: Step, n: Name)
    requires Protective(c) && Init(c, s) && CanRun(c, s, steps)
    requires var t := Run(c, s, steps);
             Enabled(c, t, step) && Published(Next(c, t, step), n) != Published(t, n)
    ensures var t := Run(c, s, steps);
            forall g :: g in t.grants && g.name == n ==> g.due <= t.now
  {
    hide Inv;
    hide Next;
    hide Acquire;
    hide Run;
    hide CanRun;
    InitInv(c, s);
    RunInv(c, s, steps);
    var t := Run(c, s, steps);
    PublishedBy(c, t, step, n);
    if step.WriteEnd? {
      NeverFull(c, t);
      NoLiveGrants(c, t, n);
      AcquireShape(c, t, n);
    } else {
      WaitedOut(c, t);
    }
  }

  /** Staleness is always detected: an overtaken lookup that is still in time finds
      a lease with a larger sequence number and is given none; a lookup that is
      given one has read the published version or a newer one. */
  lemma StaleLookupRefused(c: Config, s: State, steps: seq<Step>, tid: nat)
    requires Protective(c) && Init(c, s) && CanRun(c, s, steps)
    requires Enabled(c, Run(c, s, steps), LookupEnd(tid))
    ensures var t := Run(c, s, steps);
            var r := t.readers[tid];
            var slot := Acquire(c, t, r.name);
            var granted := Next(c, t, LookupEnd(tid)).grants - t.grants;
            && (Overtaken(t, r) ==> granted == {})
            && (Overtaken(t, r) && IsDirNode(r.node) && InTime(c, t, r.start) ==>
                  slot.lease.sn > r.sn && (c.duration >= 10 ==> Active(t, slot.lease)))
            && (forall g :: g in granted ==>
                  g.name == r.name && IsDirNode(r.node) && g.ver == r.node.value.ver >= Published(t, r.name))
  {
    InitInv(c, s);
    RunInv(c, s, steps);
    var t := Run(c, s, steps);
    var r := t.readers[tid];
    assert ReaderOk(c, t, r);
    if IsDirNode(r.node) && InTime(c, t, r.start) {
      GrantIsCurrent(c, t, tid);
    }
  }
}
