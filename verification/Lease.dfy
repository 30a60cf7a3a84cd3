/**
 The directory-lease protocol of the metadata server, as a transition system.

 One parent directory is modelled, with any number of concurrent lookups and one
 write operation at a time (the directory lock serializes writers). Every section
 of code that runs under the server mutex is one step; reading the transaction
 pointer, reading the database and committing to it are steps of their own.
 Time is a clock that never goes back.

 All directories of the server share one lease table, so entries of other
 directories take part with the room they take up in it.
 */
module LeaseProtocol {
  import opened Coding

  // Entries of the directory are addressed by the 8-byte hash of their name.
  type Name = nat

  datatype LeaseState = Free | Shared | Locked

  datatype Lease = Lease(state: LeaseState, due: nat, sn: nat)

  // A database entry; "ver" counts the committed changes to its lookup state.
  datatype Node = Node(isDir: bool, ver: nat)

  type Db = map<Name, Node>

  /** How the lease table makes room.
    - Documented: a lease may be dropped only once it is no longer active.
    - AsCoded: a table of "capacity" entries that drops the entry that was released
      first of those nobody holds, be it active or not. */
  datatype Policy = Documented | AsCoded(capacity: nat)

  // The entries of this directory and those of all others.
  datatype Config = Config(duration: nat, names: set<Name>, foreign: set<Name>, policy: Policy)

  // lease_duration - 10, computed on unsigned 64-bit integers.
  function TimeLimit(c: Config): int {
    if c.duration >= 10 then c.duration - 10 else c.duration + UINT64 - 10
  }

  datatype WriteOp = Uperm(name: Name) | Create(name: Name, isDir: bool) | Remove(name: Name) | Touch(name: Name)

  datatype Writer =
    | Idle
    | Begun(op: WriteOp)
    | InTx(op: WriteOp)
    | Done(op: WriteOp, ok: bool)
    | Waiting(name: Name, wake: nat)

  datatype Reader =
    | Started(name: Name, start: nat, sn: nat)
    | Loaded(name: Name, start: nat, sn: nat, tx: Option<Db>)
    | Fetched(name: Name, start: nat, sn: nat, node: Option<Node>)

  // A lease handed to some client: it may reuse version "ver" until "due".
  datatype Grant = Grant(name: Name, ver: nat, due: nat)

  // The last published change of an entry: the version it made visible, the
  // sequence number it gave the directory, and when.
  datatype Pub = Pub(ver: nat, sn: nat, at: nat)

  // An entry of the lease table.
  datatype Key = Own(name: Name) | Other(name: Name)

  // Leases of this directory, entries of other directories that are in the table, and
  // those of all entries that nobody holds, in the order in which they were released.
  datatype Table = Table(leases: map<Name, Lease>, others: set<Name>, order: seq<Key>)

  datatype State = State(
    now: nat,
    sn: nat,
    leases: map<Name, Lease>,
    others: set<Name>,
    order: seq<Key>,
    held: set<Name>,  // entries that writers in other directories hold
    db: Db,
    tx: Option<Db>,
    writer: Writer,
    readers: map<nat, Reader>,
    grants: set<Grant>,
    pubs: map<Name, Pub>)

  datatype Step =
    | Tick(dt: nat)
    | LookupStart(tid: nat, name: Name)
    | LookupLoadTx(tid: nat)
    | LookupFetch(tid: nat)
    | LookupEnd(tid: nat)
    | LookupGiveUp(tid: nat)
    | WriteBegin(op: WriteOp)
    | WriteOpenTx
    | WriteCommit(ok: bool)
    | WriteEnd
    | WriteWake
    | Evict(name: Name)
    | OtherTouch(name: Name)
    | OtherHold(name: Name)
    | OtherRelease(name: Name)

  ghost predicate Init(c: Config, s: State) {
    && s.db.Keys <= c.names
    && (forall n :: n in s.db ==> s.db[n].ver == 0)
    && s == State(s.now, 0, map[], {}, [], {}, s.db, None, Idle, map[], {}, map[])
  }

  // ------------------------------------------------------------------
  // The lease table
  // ------------------------------------------------------------------

  const NEW_LEASE := Lease(Free, 0, 0)

  predicate Pinned(s: State, n: Name) {
    s.writer.Waiting? && s.writer.name == n
  }

  predicate Active(s: State, l: Lease) {
    l.state == Locked || s.now < l.due
  }

  predicate InTable(t: Table, k: Key) {
    match k
    case Own(n) => n in t.leases
    case Other(n) => n in t.others
  }

  function TableOf(s: State): Table { Table(s.leases, s.others, s.order) }

  function WithTable(s: State, t: Table): State {
    s.(leases := t.leases, others := t.others, order := t.order)
  }

  function Without(order: seq<Key>, k: Key): seq<Key> {
    if order == [] then [] else if order[0] == k then order[1..] else [order[0]] + Without(order[1..], k)
  }

  predicate IsFull(c: Config, t: Table) {
    c.policy.AsCoded? && |t.leases| + |t.others| >= c.policy.capacity
  }

  // Drop the entry that was released first.
  function DropFirst(t: Table): Table
    requires t.order != []
  {
    match t.order[0]
    case Own(m) => Table(t.leases - {m}, t.others, t.order[1..])
    case Other(m) => Table(t.leases, t.others - {m}, t.order[1..])
  }

  // The table with room for one more entry, if that can be had.
  function MakeRoom(c: Config, t: Table): Option<Table> {
    if !IsFull(c, t) then Some(t)
    else if t.order != [] && c.policy.capacity > 0 then Some(DropFirst(t))
    else None
  }

  // The entry handed to the caller, and the table with that entry installed.
  datatype Slot = Slot(lease: Lease, table: Table, cached: bool)

  function Acquire(c: Config, s: State, n: Name): Slot {
    var t := TableOf(s);
    if n in s.leases then Slot(s.leases[n], t.(order := Without(t.order, Own(n))), true)
    else
      match MakeRoom(c, t)
      case Some(r) => Slot(NEW_LEASE, r.(leases := r.leases[n := NEW_LEASE]), true)
      case None => Slot(NEW_LEASE, t, false)
  }

  // The table while the caller still holds the entry.
  function Store(slot: Slot, n: Name, l: Lease): Table {
    if slot.cached then slot.table.(leases := slot.table.leases[n := l]) else slot.table
  }

  // The table once the caller has let go of it.
  function Release(slot: Slot, n: Name, l: Lease): Table {
    var t := Store(slot, n, l);
    if slot.cached then t.(order := t.order + [Own(n)]) else t
  }

  // A section of another directory takes an entry, for a moment or for longer.
  function AcquireOther(c: Config, s: State, n: Name): Option<Table> {
    var t := TableOf(s);
    if n in s.others then Some(t.(order := Without(t.order, Other(n))))
    else
      match MakeRoom(c, t)
      case Some(r) => Some(r.(others := r.others + {n}))
      case None => None
  }

  function UseOther(c: Config, s: State, n: Name, keep: bool): State {
    match AcquireOther(c, s, n)
    case None => s
    case Some(t) =>
      if keep then WithTable(s, t).(held := s.held + {n})
      else WithTable(s, t.(order := t.order + [Other(n)]))
  }

  // ------------------------------------------------------------------
  // Lookup: the closing mutex-held section
  // ------------------------------------------------------------------

  predicate IsDirNode(o: Option<Node>) { o.Some? && o.value.isDir }

  predicate InTime(c: Config, s: State, start: nat) {
    s.now - start < TimeLimit(c)
  }

  // The lease as a reader that started at sequence number "k" leaves it.
  function Extend(c: Config, s: State, l: Lease, k: nat): Lease {
    if l.sn <= k && l.state != Locked then Lease(Shared, s.now + c.duration, l.sn) else l
  }

  function EndLookup(c: Config, s: State, tid: nat): State
    requires tid in s.readers && s.readers[tid].Fetched?
  {
    var r := s.readers[tid];
    var s1 := s.(readers := s.readers - {tid});
    if IsDirNode(r.node) && InTime(c, s, r.start) then
      var slot := Acquire(c, s, r.name);
      var l := Extend(c, s, slot.lease, r.sn);
      // An entry that a writer is holding on to stays with that writer.
      var table := if Pinned(s, r.name) then Store(slot, r.name, l) else Release(slot, r.name, l);
      WithTable(s1, table).(
        grants := if slot.lease.sn <= r.sn
                  then s.grants + {Grant(r.name, r.node.value.ver, l.due)} else s.grants)
    else s1
  }

  // ------------------------------------------------------------------
  // Uperm and the other write operations
  // ------------------------------------------------------------------

  // Whether the operation finds what it needs in the database.
  predicate Applicable(c: Config, db: Db, op: WriteOp) {
    match op
    case Uperm(n) => n in db
    case Create(n, _) => n !in db && n in c.names
    case Remove(n) => n in db && !db[n].isDir
    case Touch(n) => n in db
  }

  function Apply(db: Db, op: WriteOp): Db
    requires op.Uperm? ==> op.name in db
  {
    match op
    case Uperm(n) => db[n := Node(db[n].isDir, db[n].ver + 1)]
    case Create(n, d) => db[n := Node(d, 0)]
    case Remove(n) => db - {n}
    case Touch(_) => db
  }

  function Finish(s: State): State {
    s.(writer := Idle, tx := None)
  }

  function Publish(c: Config, s: State, n: Name, slot: Slot): State
    requires n in s.db
  {
    var l := Lease(Free, s.now + c.duration, s.sn + 1);
    WithTable(Finish(s), Release(slot, n, l)).(
      sn := s.sn + 1, pubs := s.pubs[n := Pub(s.db[n].ver, s.sn + 1, s.now)])
  }

  // Only a committed permission change of a directory is subject to leases.
  predicate NeedsLease(s: State) {
    s.writer.Done? && s.writer.ok && s.writer.op.Uperm? &&
    s.writer.op.name in s.db && s.db[s.writer.op.name].isDir
  }

  function EndWrite(c: Config, s: State): State
    requires s.writer.Done?
  {
    if NeedsLease(s) then
      var n := s.writer.op.name;
      var slot := Acquire(c, s, n);
      if slot.lease.state == Shared && slot.lease.due > s.now then
        WithTable(s, Store(slot, n, slot.lease.(state := Locked))).(writer := Waiting(n, slot.lease.due + 10))
      else Publish(c, s, n, slot)
    else Finish(s)
  }

  function EndWait(c: Config, s: State): State
    requires s.writer.Waiting? && s.writer.name in s.leases && s.writer.name in s.db
  {
    Publish(c, s, s.writer.name, Slot(s.leases[s.writer.name], TableOf(s), true))
  }

  // ------------------------------------------------------------------
  // Steps and runs
  // ------------------------------------------------------------------

  ghost predicate Enabled(c: Config, s: State, step: Step) {
    match step
    case Tick(_) => true
    case LookupStart(tid, n) => tid !in s.readers
    case LookupLoadTx(tid) => tid in s.readers && s.readers[tid].Started?
    case LookupFetch(tid) => tid in s.readers && s.readers[tid].Loaded?
    case LookupEnd(tid) => tid in s.readers && s.readers[tid].Fetched?
    case LookupGiveUp(tid) => tid in s.readers && s.readers[tid].Fetched?
    case WriteBegin(_) => s.writer == Idle
    case WriteOpenTx => s.writer.Begun?
    case WriteCommit(ok) => s.writer.InTx? && (ok ==> Applicable(c, s.db, s.writer.op))
    case WriteEnd => s.writer.Done?
    case WriteWake =>
      && s.writer.Waiting? && s.now >= s.writer.wake
      && s.writer.name in s.leases && s.writer.name in s.db
    case Evict(n) => c.policy.Documented? && n in s.leases && !Active(s, s.leases[n])
    case OtherTouch(n) => n in c.foreign && n !in s.held
    case OtherHold(n) => n in c.foreign && n !in s.held
    case OtherRelease(n) => n in s.held
  }

  ghost function Next(c: Config, s: State, step: Step): State
    requires Enabled(c, s, step)
  {
    match step
    case Tick(dt) => s.(now := s.now + dt)
    case LookupStart(tid, n) => s.(readers := s.readers[tid := Started(n, s.now, s.sn)])
    case LookupLoadTx(tid) =>
      var r := s.readers[tid];
      s.(readers := s.readers[tid := Loaded(r.name, r.start, r.sn, s.tx)])
    case LookupFetch(tid) =>
      var r := s.readers[tid];
      var db := if r.tx.Some? then r.tx.value else s.db;
      var node := if r.name in db then Some(db[r.name]) else None;
      s.(readers := s.readers[tid := Fetched(r.name, r.start, r.sn, node)])
    case LookupEnd(tid) => EndLookup(c, s, tid)
    case LookupGiveUp(tid) => s.(readers := s.readers - {tid})
    case WriteBegin(op) => s.(writer := Begun(op))
    case WriteOpenTx => s.(writer := InTx(s.writer.op), tx := Some(s.db))
    case WriteCommit(ok) =>
      s.(writer := Done(s.writer.op, ok), db := if ok then Apply(s.db, s.writer.op) else s.db)
    case WriteEnd => EndWrite(c, s)
    case WriteWake => EndWait(c, s)
    case Evict(n) => s.(leases := s.leases - {n}, order := Without(s.order, Own(n)))
    case OtherTouch(n) => UseOther(c, s, n, false)
    case OtherHold(n) => UseOther(c, s, n, true)
    case OtherRelease(n) => s.(held := s.held - {n}, order := s.order + [Other(n)])
  }

  ghost predicate CanRun(c: Config, s: State, steps: seq<Step>)
    decreases |steps|
  {
    steps != [] ==> Enabled(c, s, steps[0]) && CanRun(c, Next(c, s, steps[0]), steps[1..])
  }

  ghost function Run(c: Config, s: State, steps: seq<Step>): State
    requires CanRun(c, s, steps)
    decreases |steps|
  {
    if steps == [] then s else Run(c, Next(c, s, steps[0]), steps[1..])
  }

  // ------------------------------------------------------------------
  // What leases are for
  // ------------------------------------------------------------------

  // The version that every client must see by now.
  function Published(s: State, n: Name): nat {
    if n in s.pubs then s.pubs[n].ver else 0
  }

  // No client holds an unexpired lease on a version older than the published one.
  ghost predicate Safe(s: State) {
    forall g :: g in s.grants && g.ver < Published(s, g.name) ==> g.due <= s.now
  }

  ghost predicate AlwaysSafe(c: Config) {
    forall s, steps :: Init(c, s) && CanRun(c, s, steps) ==> Safe(Run(c, s, steps))
  }

  // A client with clock "clock" reuses a cached result unless its lease is about to end.
  predicate ClientReuses(clock: nat, g: Grant) {
    !(clock + 10 > g.due)
  }

  // The configurations under which the server keeps its promise.
  predicate SafeConfig(c: Config) {
    || c.duration == 0
    || c.names == {}
    || match c.policy {
         case Documented => c.duration >= 10
         case AsCoded(capacity) => |c.names| + |c.foreign| <= capacity || c.duration == 10
       }
  }
}
