/**
 The cursor that an open file keeps from one read to the next, when reads and writes of
 the same handle run concurrently: they leave the mutex while they use the database. A
 cursor sees the blocks as they were when it was made, so a stale one hides writes.
 */
module BlkCursor {
  import opened Coding

  // Whether reads may overlap with writes of the handle, and whether writes may fail.
  datatype Config = Config(overlap: bool, mayFail: bool)

  // A read remembers the number of writes when it started.
  datatype Reader = Opened(n: int, held: Option<nat>) | Reading(n: int, snap: nat)

  datatype Writer = Putting | Put(at: nat) | NotPut

  // "puts" blocks have been put into the database; a cursor sees the first "snap" of them.
  datatype State = State(
    puts: nat,
    nwrites: int,
    iter: Option<nat>,
    readers: map<nat, Reader>,
    writers: map<nat, Writer>)

  datatype Step =
    | ReadStart(t: nat)            // takes the saved cursor, if any
    | ReadOpen(t: nat)             // makes a new one otherwise
    | ReadEnd(t: nat, ok: bool)    // saves its cursor, unless something was written meanwhile
    | WriteStart(t: nat)
    | WritePut(t: nat, ok: bool)
    | WriteEnd(t: nat)
    | FlushFail

  predicate Init(s: State) { s == State(s.puts, 0, None, map[], map[]) }

  predicate Enabled(c: Config, s: State, e: Step) {
    match e
    case ReadStart(t) => t !in s.readers && (c.overlap || s.writers == map[])
    case ReadOpen(t) => t in s.readers && s.readers[t].Opened?
    case ReadEnd(t, _) => t in s.readers && s.readers[t].Reading?
    case WriteStart(t) => t !in s.writers && s.nwrites >= 0 && (c.overlap || s.readers == map[])
    case WritePut(t, ok) => t in s.writers && s.writers[t].Putting? && (ok || c.mayFail)
    case WriteEnd(t) => t in s.writers && !s.writers[t].Putting?
    case FlushFail => c.mayFail
  }

  function Next(c: Config, s: State, e: Step): State
    requires Enabled(c, s, e)
  {
    match e
    case ReadStart(t) => s.(iter := None, readers := s.readers[t := Opened(s.nwrites, s.iter)])
    case ReadOpen(t) =>
      var r := s.readers[t];
      s.(readers := s.readers[t := Reading(r.n, if r.held.Some? then r.held.value else s.puts)])
    case ReadEnd(t, ok) =>
      var r := s.readers[t];
      s.(readers := s.readers - {t},
         iter := if !ok then s.iter
                 else if s.nwrites > r.n then None
                 else if s.iter.None? then Some(r.snap) else s.iter)
    case WriteStart(t) => s.(writers := s.writers[t := Putting])
    case WritePut(t, ok) =>
      if ok then s.(puts := s.puts + 1, writers := s.writers[t := Put(s.puts)])
      else s.(writers := s.writers[t := NotPut])
    case WriteEnd(t) =>
      var s1 := s.(writers := s.writers - {t});
      if s.writers[t].Put? then s1.(nwrites := s.nwrites + 1, iter := None) else s1.(nwrites := -1)
    case FlushFail => s.(nwrites := -1)
  }

  ghost predicate CanRun(c: Config, s: State, steps: seq<Step>)
    decreases |steps|
  {
    steps != [] ==> Enabled(c, s, steps[0]) && CanRun(c, Next(c, s, steps[0]), steps[1..])
  }

  ghost function Run(c: Config, s: State, steps: seq<Step>): State
    requires CanRun(c, s, steps)
    decreases |steps|
  {
    if steps == [] then s else Run(c, Next(c, s, steps[0]), steps[1..])
  }

  ghost predicate InFlight(s: State, at: nat) {
    exists t :: t in s.writers && s.writers[t] == Put(at)
  }

  // A cursor shows every block whose write has returned.
  ghost predicate UpToDate(s: State, snap: nat) {
    forall at: nat :: snap <= at < s.puts ==> InFlight(s, at)
  }

  ghost predicate Fresh(s: State) {
    s.iter.Some? ==> UpToDate(s, s.iter.value)
  }

  // The saved cursor never hides a write that has returned.
  ghost predicate AlwaysFresh(c: Config) {
    forall s, steps :: Init(s) && CanRun(c, s, steps) ==> Fresh(Run(c, s, steps))
  }

  // ------------------------------------------------------------------
  // Configurations in which it is never stale
  // ------------------------------------------------------------------

  // What a reader's cursor shows, if it has one already.
  function Cursor(r: Reader): Option<nat> { if r.Opened? then r.held else Some(r.snap) }

  ghost predicate ReaderOk(c: Config, s: State, r: Reader) {
    && (!c.mayFail ==> r.n <= s.nwrites)
    && (Cursor(r).Some? && (!c.overlap || r.n >= s.nwrites) ==> UpToDate(s, Cursor(r).value))
  }

  ghost predicate Inv(c: Config, s: State) {
    && Fresh(s)
    && (!c.overlap ==> s.readers == map[] || s.writers == map[])
    && (!c.mayFail ==> forall t :: t in s.writers ==> !s.writers[t].NotPut?)
    && forall t :: t in s.readers ==> ReaderOk(c, s, s.readers[t])
  }

  // Taking part in no write, or putting one more block, hides nothing.
  lemma StaysUpToDate(s: State, s1: State, snap: nat)
    requires s1.puts == s.puts || (s1.puts == s.puts + 1 && InFlight(s1, s.puts))
    requires forall t :: t in s.writers && s.writers[t].Put? ==> t in s1.writers && s1.writers[t] == s.writers[t]
    ensures UpToDate(s, snap) ==> UpToDate(s1, snap)
  {
    if UpToDate(s, snap) {
      forall at: nat | snap <= at < s1.puts ensures InFlight(s1, at) {
        if at < s.puts {
          assert InFlight(s, at);
        }
      }
    }
  }

  lemma StepInv(c: Config, s: State, e: Step)
    requires Inv(c, s) && Enabled(c, s, e) && (!c.overlap || !c.mayFail)
    ensures Inv(c, Next(c, s, e))
  {
    hide UpToDate;
    var s1 := Next(c, s, e);
    if e.WriteEnd? {
      if s.writers[e.t].NotPut? && s.iter.Some? {
        StaysUpToDate(s, s1, s.iter.value);
      }
      forall u | u in s1.readers ensures ReaderOk(c, s1, s1.readers[u]) {
        assert ReaderOk(c, s, s.readers[u]);
      }
    } else {
      if e.WritePut? && e.ok {
        assert s1.writers[e.t] == Put(s.puts) && InFlight(s1, s.puts);
      }
      forall snap: nat ensures UpToDate(s, snap) ==> UpToDate(s1, snap) {
        StaysUpToDate(s, s1, snap);
      }
      NewCursor(s1);
      forall u | u in s1.readers ensures ReaderOk(c, s1, s1.readers[u]) {
        assert u in s.readers ==> ReaderOk(c, s, s.readers[u]);
      }
      if e.ReadEnd? {
        assert ReaderOk(c, s, s.readers[e.t]);
      }
    }
  }

  lemma NewCursor(s: State)
    ensures UpToDate(s, s.puts)
  {
  }

  lemma {:induction false} RunInv(c: Config, s: State, steps: seq<Step>)
    requires Inv(c, s) && CanRun(c, s, steps) && (!c.overlap || !c.mayFail)
    ensures Inv(c, Run(c, s, steps))
    decreases |steps|
  {
    hide Inv;
    hide Next;
    if steps == [] {
    } else {
      StepInv(c, s, steps[0]);
      RunInv(c, Next(c, s, steps[0]), steps[1..]);
    }
  }

  // ------------------------------------------------------------------
  // A run that ends with a stale cursor
  // ------------------------------------------------------------------

  // After each step, where it leads.
  lemma Leads(c: Config, s: State, e: Step, s1: State, rest: seq<Step>)
    requires Enabled(c, s, e) && Next(c, s, e) == s1 && CanRun(c, s1, rest)
    ensures CanRun(c, s, [e] + rest) && Run(c, s, [e] + rest) == Run(c, s1, rest)
  {
    hide Enabled;
    hide Next;
    assert ([e] + rest)[1..] == rest;
  }

  // A read starts; a write completes; another one fails, and that resets the count.
  lemma StaleRun(c: Config) returns (steps: seq<Step>)
    requires c.overlap && c.mayFail
    ensures CanRun(c, State(0, 0, None, map[], map[]), steps)
    ensures Run(c, State(0, 0, None, map[], map[]), steps) == State(1, -1, Some(0), map[], map[])
  {
    hide CanRun;
    hide Run;
    var r := map[0 := Reading(0, 0)];
    var rest := Outcome(c);
    rest := WriteFails(c, r, rest);
    var s2, s3, s4, s5 := State(0, 0, None, r, map[]), State(0, 0, None, r, map[0 := Putting]),
      State(1, 0, None, r, map[0 := Put(0)]), State(1, 1, None, r, map[]);
    assert Next(c, s4, WriteEnd(0)) == s5;
    Leads(c, s4, WriteEnd(0), s5, rest);
    rest := [WriteEnd(0)] + rest;
    assert Next(c, s3, WritePut(0, true)) == s4;
    Leads(c, s3, WritePut(0, true), s4, rest);
    rest := [WritePut(0, true)] + rest;
    Leads(c, s2, WriteStart(0), s3, rest);
    rest := [WriteStart(0)] + rest;
    var s0, s1 := State(0, 0, None, map[], map[]), State(0, 0, None, map[0 := Opened(0, None)], map[]);
    assert Next(c, s1, ReadOpen(0)) == s2;
    Leads(c, s1, ReadOpen(0), s2, rest);
    rest := [ReadOpen(0)] + rest;
    Leads(c, s0, ReadStart(0), s1, rest);
    steps := [ReadStart(0)] + rest;
  }

  // The second write, which fails.
  lemma WriteFails(c: Config, r: map<nat, Reader>, after: seq<Step>) returns (steps: seq<Step>)
    requires c.overlap && c.mayFail && CanRun(c, State(1, -1, None, r, map[]), after)
    ensures CanRun(c, State(1, 1, None, r, map[]), steps)
    ensures Run(c, State(1, 1, None, r, map[]), steps) == Run(c, State(1, -1, None, r, map[]), after)
  {
    hide CanRun;
    hide Run;
    var s5, s6, s7, s8 := State(1, 1, None, r, map[]), State(1, 1, None, r, map[0 := Putting]),
      State(1, 1, None, r, map[0 := NotPut]), State(1, -1, None, r, map[]);
    assert Next(c, s7, WriteEnd(0)) == s8;
    Leads(c, s7, WriteEnd(0), s8, after);
    var rest := [WriteEnd(0)] + after;
    assert Next(c, s6, WritePut(0, false)) == s7;
    Leads(c, s6, WritePut(0, false), s7, rest);
    rest := [WritePut(0, false)] + rest;
    Leads(c, s5, WriteStart(0), s6, rest);
    steps := [WriteStart(0)] + rest;
  }

  // The read ends and saves its cursor.
  lemma Outcome(c: Config) returns (steps: seq<Step>)
    ensures var s := State(1, -1, None, map[0 := Reading(0, 0)], map[]);
            CanRun(c, s, steps) && Run(c, s, steps) == State(1, -1, Some(0), map[], map[])
  {
    var s, s1 := State(1, -1, None, map[0 := Reading(0, 0)], map[]), State(1, -1, Some(0), map[], map[]);
    assert Next(c, s, ReadEnd(0, true)) == s1;
    Leads(c, s, ReadEnd(0, true), s1, []);
    steps := [ReadEnd(0, true)] + [];
  }

  /** The cursor kept for the next read shows every write that has returned, in all runs, if
      and only if reads do not overlap with writes or writes do not fail. */
  lemma AlwaysFreshIff(c: Config)
    ensures AlwaysFresh(c) <==> !c.overlap || !c.mayFail
  {
    hide CanRun;
    hide Run;
    if !c.overlap || !c.mayFail {
      forall s, steps | Init(s) && CanRun(c, s, steps) ensures Fresh(Run(c, s, steps)) {
        RunInv(c, s, steps);
      }
    } else {
      var steps := StaleRun(c);
      var s := State(0, 0, None, map[], map[]);
      assert Init(s);
      assert !InFlight(Run(c, s, steps), 0);
      assert !Fresh(Run(c, s, steps));
    }
  }
}
