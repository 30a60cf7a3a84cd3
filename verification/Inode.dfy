/**
 Inode numbers of the metadata servers: each server counts up from its own base, on 64
 bits, and takes a number back if the operation that got it last comes to nothing.
 */
module Inode {
  import opened Coding

  const RANGE := UINT32

  // Server numbers are non-negative ints.
  const MAX_SERVERS := 0x8000_0000

  type Op = nat  // an operation that creates a file or directory

  // A server: the last number given out, whether it has stopped giving out numbers, the
  // numbers held by operations, and which of those have created their entry.
  datatype Server = Server(id: nat, paranoid: bool, ino: nat, full: bool, held: map<Op, nat>, made: set<Op>)

  function Start(id: nat, paranoid: bool): Server {
    Server(id, paranoid, id * RANGE, false, map[], {})
  }

  datatype Step =
    | Begin(op: Op)   // get a number
    | GiveUp(op: Op)  // nothing was created: try to take the number back
    | Commit(op: Op)  // the entry exists

  // A number is only given out while the server's status is good, and only an operation
  // that has not committed can fail.
  predicate Enabled(s: Server, e: Step) {
    match e
    case Begin(op) => !s.full && op !in s.held
    case GiveUp(op) => op in s.held && op !in s.made
    case Commit(op) => op in s.held && op !in s.made
  }

  function NextIno(s: Server): Server {
    var result := (s.ino + 1) % UINT64;
    s.(ino := result, full := s.full || (s.paranoid && result + 1 >= (s.id + 1) * RANGE))
  }

  function TryReuse(s: Server, ino: nat): Server {
    if ino == s.ino then s.(ino := (s.ino + UINT64 - 1) % UINT64) else s
  }

  function Take(s: Server, e: Step): Server
    requires Enabled(s, e)
  {
    match e
    case Begin(op) =>
      var t := NextIno(s);
      t.(held := s.held[op := t.ino])
    case GiveUp(op) => TryReuse(s, s.held[op]).(held := s.held - {op})
    case Commit(op) => s.(made := s.made + {op})
  }

  ghost predicate Runs(s: Server, steps: seq<Step>, t: Server)
    decreases |steps|
  {
    if steps == [] then s == t else Enabled(s, steps[0]) && Runs(Take(s, steps[0]), steps[1..], t)
  }

  ghost predicate Distinct(s: Server) {
    forall a, b :: a in s.held && b in s.held && a != b ==> s.held[a] != s.held[b]
  }

  // Numbers held are different, come after the base, and none is yet to be given out.
  ghost predicate Unique(s: Server) {
    && s.id * RANGE <= s.ino < UINT64
    && (forall a :: a in s.held ==> s.id * RANGE < s.held[a] <= s.ino)
    && Distinct(s) && s.made <= s.held.Keys
  }

  // With checks on, the numbers stay within the server's own range.
  ghost predicate Within(s: Server) {
    && s.paranoid && s.id < MAX_SERVERS
    && s.ino < (s.id + 1) * RANGE
    && (!s.full ==> s.ino + 1 < (s.id + 1) * RANGE)
  }

  // The counter does not wrap around in the next n steps.
  ghost predicate Lasts(s: Server, n: nat) {
    Within(s) || s.ino + n < UINT64
  }

  // Entries that exist keep their numbers.
  ghost predicate Keeps(s: Server, t: Server) {
    && t.id == s.id && t.paranoid == s.paranoid
    && s.made <= t.made
    && forall a :: a in s.made && a in s.held ==> a in t.held && t.held[a] == s.held[a]
  }

  lemma NoWrap(s: Server, e: Step, n: nat)
    requires Lasts(s, n) && n > 0 && Enabled(s, e) && e.Begin?
    ensures (s.ino + 1) % UINT64 == s.ino + 1
  {
    if Within(s) {
      Limit(s.id);
    }
  }

  lemma Limit(id: nat)
    requires id < MAX_SERVERS
    ensures (id + 1) * RANGE < UINT64
  {
  }

  lemma Back(ino: nat)
    requires 0 < ino < UINT64
    ensures (ino + UINT64 - 1) % UINT64 == ino - 1
  {
  }

  lemma StepUnique(s: Server, e: Step, n: nat)
    requires Unique(s) && Enabled(s, e) && (e.Begin? ==> Lasts(s, n) && n > 0)
    ensures Unique(Take(s, e)) && Keeps(s, Take(s, e)) && Take(s, e).ino <= s.ino + 1
  {
    match e
    case Begin(op) =>
      NoWrap(s, e, n);
      BeginUnique(s, op, Take(s, e));
    case GiveUp(op) =>
      Back(s.held[op]);
      GiveUpUnique(s, op, Take(s, e));
    case Commit(op) =>
  }

  lemma BeginUnique(s: Server, op: Op, t: Server)
    requires Unique(s) && op !in s.held && s.ino + 1 < UINT64
    requires t == s.(ino := s.ino + 1, full := t.full, held := s.held[op := s.ino + 1])
    ensures Unique(t) && Keeps(s, t)
  {
  }

  lemma GiveUpUnique(s: Server, op: Op, t: Server)
    requires Unique(s) && op in s.held && op !in s.made
    requires t == s.(ino := if s.held[op] == s.ino then s.ino - 1 else s.ino, held := s.held - {op})
    ensures Unique(t) && Keeps(s, t)
  {
    forall a | a in t.held ensures s.id * RANGE < t.held[a] <= t.ino {
      assert s.held[a] != s.held[op];
    }
  }

  lemma StepWithin(s: Server, e: Step)
    requires Within(s) && Unique(s) && Enabled(s, e)
    ensures Within(Take(s, e))
  {
    match e
    case Begin(op) => NoWrap(s, e, 1);
    case GiveUp(op) => Back(s.held[op]);
    case Commit(op) =>
  }

  /** However creations interleave, succeed and fail, no two operations in flight or
      entries created share an inode number, and entries keep theirs, as long as the
      counter does not wrap around. */
  lemma {:induction false} RunUnique(s: Server, steps: seq<Step>, t: Server)
    requires Unique(s) && Lasts(s, |steps|) && Runs(s, steps, t)
    ensures Unique(t) && Keeps(s, t)
    decreases |steps|
  {
    hide Unique;
    hide Keeps;
    hide Take;
    hide Enabled;
    if steps == [] {
      KeepsSelf(s);
    } else {
      var s1 := Take(s, steps[0]);
      StepUnique(s, steps[0], |steps|);
      if Within(s) {
        StepWithin(s, steps[0]);
      }
      RunUnique(s1, steps[1..], t);
      KeepsOn(s, s1, t);
    }
  }

  lemma KeepsSelf(s: Server)
    ensures Keeps(s, s)
  {
  }

  lemma KeepsOn(s: Server, s1: Server, t: Server)
    requires Keeps(s, s1) && Keeps(s1, t)
    ensures Keeps(s, t)
  {
  }

  lemma {:induction false} RunWithin(s: Server, steps: seq<Step>, t: Server)
    requires Within(s) && Unique(s) && Runs(s, steps, t)
    ensures Within(t)
    decreases |steps|
  {
    hide Unique;
    hide Within;
    hide Take;
    if steps == [] {
    } else {
      StepWithin(s, steps[0]);
      StepUnique(s, steps[0], 1);
      RunWithin(Take(s, steps[0]), steps[1..], t);
    }
  }

  lemma StartUnique(id: nat, paranoid: bool)
    requires id < MAX_SERVERS
    ensures Unique(Start(id, paranoid)) && (paranoid ==> Within(Start(id, paranoid)))
  {
    Limit(id);
  }

  lemma NextIsNew(s: Server)
    requires Unique(s)
    ensures s.ino + 1 !in s.held.Values
  {
  }

  lemma InRange(s: Server)
    requires Unique(s) && Within(s)
    ensures forall a :: a in s.held ==> s.id * RANGE < s.held[a] < (s.id + 1) * RANGE
  {
  }

  /** A number is the one after the last, and a checked server stops giving out numbers with
      the last one of its range and not before; an unchecked one never stops. */
  lemma FullIff(s: Server, op: Op)
    requires Unique(s) && Enabled(s, Begin(op)) && (s.paranoid ==> Within(s))
    ensures var t := Take(s, Begin(op));
            && t.held == s.held[op := t.ino] && t.ino == (s.ino + 1) % UINT64
            && (t.full <==> s.paranoid && t.ino == (s.id + 1) * RANGE - 1)
  {
    if s.paranoid {
      NoWrap(s, Begin(op), 1);
    }
  }

  /** Giving up the number got last undoes getting it; any other number stays used up. */
  lemma GiveUpUndoes(s: Server, op: Op, other: Op)
    requires Unique(s) && Enabled(s, Begin(op)) && Lasts(s, 1)
    ensures var t := Take(s, Begin(op));
            && Enabled(t, GiveUp(op)) && Take(t, GiveUp(op)) == s.(full := t.full)
            && (Enabled(s, GiveUp(other)) ==> Enabled(t, GiveUp(other)) && Take(t, GiveUp(other)).ino == t.ino)
  {
    NoWrap(s, Begin(op), 1);
    var t := Take(s, Begin(op));
    Back(t.ino);
    assert t.held - {op} == s.held;
  }

  /** A checked server can give out all numbers of its range, and then no more. */
  lemma WholeRange(id: nat) returns (t: Server)
    requires id < MAX_SERVERS
    ensures Runs(Start(id, true), Begins(0, RANGE - 1), t)
    ensures forall a :: 0 <= a < RANGE - 1 ==> a in t.held && t.held[a] == id * RANGE + 1 + a
    ensures t.full && forall op :: !Enabled(t, Begin(op))
  {
    StartUnique(id, true);
    t := CheckedBegins(Start(id, true), 0, RANGE - 1);
  }

  lemma {:induction false} CheckedBegins(s: Server, first: Op, n: nat) returns (t: Server)
    requires Unique(s) && Within(s) && !s.full && n > 0 && s.ino + n == (s.id + 1) * RANGE - 1
    requires forall a :: a in s.held ==> a < first
    ensures Runs(s, Begins(first, n), t) && t.full
    ensures forall a :: a in s.held ==> a in t.held && t.held[a] == s.held[a]
    ensures forall a :: first <= a < first + n ==> a in t.held && t.held[a] == s.ino + 1 + (a - first)
    decreases n
  {
    hide Unique;
    hide Within;
    var u := Take(s, Begin(first));
    FullIff(s, first);
    NoWrap(s, Begin(first), 1);
    StepUnique(s, Begin(first), 1);
    StepWithin(s, Begin(first));
    assert Begins(first, n)[1..] == Begins(first + 1, n - 1);
    if n == 1 {
      t := u;
      assert Begins(first + 1, 0) == [];
    } else {
      t := CheckedBegins(u, first + 1, n - 1);
    }
  }

  // ------------------------------------------------------------------
  // Servers
  // ------------------------------------------------------------------

  // No server ever gives out a number that is held.
  ghost predicate NeverRepeats(paranoid: bool) {
    forall i: nat, p, s :: i < MAX_SERVERS && Runs(Start(i, paranoid), p, s) ==> Distinct(s)
  }

  // Two servers, each after a run of its own, hold no number in common.
  ghost predicate NeverClash(paranoid: bool) {
    forall i: nat, j: nat, p, q, s, t ::
      && i < MAX_SERVERS && j < MAX_SERVERS && i != j
      && Runs(Start(i, paranoid), p, s) && Runs(Start(j, paranoid), q, t)
      ==> s.held.Values !! t.held.Values
  }

  lemma InOwnRange(i: nat, p: seq<Step>, s: Server)
    requires i < MAX_SERVERS && Runs(Start(i, true), p, s)
    ensures Distinct(s) && s.id == i && forall a :: a in s.held ==> i * RANGE < s.held[a] < (i + 1) * RANGE
  {
    StartUnique(i, true);
    RunUnique(Start(i, true), p, s);
    RunWithin(Start(i, true), p, s);
  }

  lemma NoClash(i: nat, j: nat, p: seq<Step>, q: seq<Step>, s: Server, t: Server)
    requires i < MAX_SERVERS && j < MAX_SERVERS && i != j
    requires Runs(Start(i, true), p, s) && Runs(Start(j, true), q, t)
    ensures s.held.Values !! t.held.Values
  {
    InOwnRange(i, p, s);
    InOwnRange(j, q, t);
    if i < j { Apart(i, j); } else { Apart(j, i); }
  }

  lemma Apart(i: nat, j: nat)
    requires i < j
    ensures (i + 1) * RANGE <= j * RANGE
  {
  }

  // Without checks, n operations in a row get the n numbers after the base.
  function Begins(first: Op, n: nat): seq<Step>
    decreases n
  {
    if n == 0 then [] else [Begin(first)] + Begins(first + 1, n - 1)
  }

  // The number k numbers after the next one.
  function Later(ino: nat, k: nat): nat { (ino + 1 + k) % UINT64 }

  lemma {:induction false} ManyBegins(s: Server, first: Op, n: nat) returns (t: Server)
    requires !s.paranoid && !s.full && (forall a :: a in s.held ==> a < first)
    ensures Runs(s, Begins(first, n), t)
    ensures forall a :: a in s.held ==> a in t.held && t.held[a] == s.held[a]
    ensures forall a :: first <= a < first + n ==> a in t.held && t.held[a] == Later(s.ino, a - first)
    decreases n
  {
    hide Later;
    if n == 0 {
      t := s;
    } else {
      var u := Take(s, Begin(first));
      NextIsLater(s, first);
      assert Begins(first, n)[1..] == Begins(first + 1, n - 1);
      t := ManyBegins(u, first + 1, n - 1);
      forall a | first <= a < first + n ensures a in t.held && t.held[a] == Later(s.ino, a - first) {
        if a > first {
          LaterOn(s.ino, a - first);
        }
      }
    }
  }

  lemma NextIsLater(s: Server, op: Op)
    requires Enabled(s, Begin(op))
    ensures var u := Take(s, Begin(op)); u.held == s.held[op := Later(s.ino, 0)] && u.ino == Later(s.ino, 0)
  {
  }

  lemma LaterOn(ino: nat, k: nat)
    requires k > 0
    ensures Later(Later(ino, 0), k - 1) == Later(ino, k)
  {
  }

  /** A server never gives out a number that is still held, whatever it does, if and only
      if the checks are on: otherwise the counter wraps around in the end. */
  lemma NeverRepeatsIff(paranoid: bool)
    ensures NeverRepeats(paranoid) <==> paranoid
  {
    if paranoid {
      forall i: nat, p, s | i < MAX_SERVERS && Runs(Start(i, paranoid), p, s) ensures Distinct(s) {
        InOwnRange(i, p, s);
      }
    } else {
      var s := ManyBegins(Start(0, false), 0, UINT64 + 1);
      assert s.held[0] == Later(0, 0) == 1 && s.held[UINT64] == Later(0, UINT64) == 1;
      assert !Distinct(s);
      assert Runs(Start(0, paranoid), Begins(0, UINT64 + 1), s);
    }
  }

  /** Different servers give out different numbers, whatever they do, if and only if
      the checks are on: otherwise a server can count on into the next one's range. */
  lemma NeverClashIff(paranoid: bool)
    ensures NeverClash(paranoid) <==> paranoid
  {
    if paranoid {
      forall i: nat, j: nat, p, q, s, t |
        i < MAX_SERVERS && j < MAX_SERVERS && i != j &&
        Runs(Start(i, paranoid), p, s) && Runs(Start(j, paranoid), q, t)
        ensures s.held.Values !! t.held.Values
      {
        NoClash(i, j, p, q, s, t);
      }
    } else {
      var s := ManyBegins(Start(0, false), 0, RANGE + 1);
      var t := ManyBegins(Start(1, false), 0, 1);
      assert s.held[RANGE] == Later(0, RANGE) == RANGE + 1 && t.held[0] == Later(RANGE, 0) == RANGE + 1;
      assert RANGE + 1 in s.held.Values && RANGE + 1 in t.held.Values;
      assert !(s.held.Values !! t.held.Values);
      assert Runs(Start(0, paranoid), Begins(0, RANGE + 1), s) && Runs(Start(1, paranoid), Begins(0, 1), t);
    }
  }

  // ------------------------------------------------------------------
  // The server's counter
  // ------------------------------------------------------------------

  class Counter {
    const id: nat
    const paranoid: bool
    var ino: nat
    var full: bool
    ghost var held: map<Op, nat>
    ghost var made: set<Op>

    ghost function View(): Server
      reads this
    {
      Server(id, paranoid, ino, full, held, made)
    }

    ghost predicate Valid()
      reads this
    {
      Unique(View()) && (paranoid ==> Within(View()))
    }

    constructor (srvId: nat, checks: bool)
      requires srvId < MAX_SERVERS
      ensures Valid() && View() == Start(srvId, checks)
    {
      id, paranoid, ino, full, held, made := srvId, checks, srvId * RANGE, false, map[], {};
      new;
      StartUnique(id, paranoid);
    }

    /** The next number. Nobody holds it, unless the counter has wrapped around, which it
        cannot do with checks on. */
    method Allocate(ghost op: Op) returns (result: nat)
      requires Valid() && Enabled(View(), Begin(op))
      modifies this
      ensures View() == Take(old(View()), Begin(op)) && held == old(held)[op := result]
      ensures paranoid || old(ino) + 1 < UINT64 ==> Valid() && result !in old(held).Values
      ensures paranoid ==> id * RANGE < result < (id + 1) * RANGE
    {
      hide Unique;
      hide Within;
      if paranoid || ino + 1 < UINT64 {
        StepUnique(View(), Begin(op), 1);
        NoWrap(View(), Begin(op), 1);
        NextIsNew(View());
      }
      if paranoid {
        StepWithin(View(), Begin(op));
        ghost var t := Take(View(), Begin(op));
        InRange(t);
        assert t.held[op] == ino + 1;
      }
      ino := (ino + 1) % UINT64;
      result := ino;
      if paranoid {
        var limit := (id + 1) * RANGE;
        if result + 1 >= limit {
          full := true;
        }
      }
      held := held[op := result];
    }

    /** An operation came to nothing; its number can be given out again if it was the last. */
    method TryReuseIno(number: nat, ghost op: Op)
      requires Valid() && Enabled(View(), GiveUp(op)) && held[op] == number
      modifies this
      ensures Valid() && View() == Take(old(View()), GiveUp(op))
    {
      if paranoid {
        StepWithin(View(), GiveUp(op));
      }
      StepUnique(View(), GiveUp(op), 0);
      if number == ino {
        ino := (ino + UINT64 - 1) % UINT64;
      }
      held := held - {op};
    }
  }
}
