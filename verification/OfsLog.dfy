/**
 The redo/undo log of a file set: how operations are written as log records, what
 replaying them does, and what is recovered from a log that was cut short.
 */
module OfsLog {
  import opened Coding
  import opened LogFormat
  import opened LogTheorems

  type Name = Bytes

  const TRY_CREATE_OBJ: Byte := 0x01
  const UNLINK_AND_DEL: Byte := 0x02
  const DEL_OBJ: Byte := 0x03
  const UNLINK: Byte := 0xf0
  const LINK: Byte := 0xf1
  const OBJ_DELETED: Byte := 0xf2

  datatype Op = Op(kind: Byte, name1: Name, name2: Name)

  // What replaying a log rebuilds: the mapped files, and the objects to be deleted.
  datatype FsState = FsState(files: map<Name, Name>, garbage: set<Name>)

  function EmptyState(): FsState { FsState(map[], {}) }

  // ------------------------------------------------------------------
  // Meaning of operations
  // ------------------------------------------------------------------

  // Replay stops with an error at an operation that is not well formed.
  predicate WellFormed(op: Op) {
    match op.kind
    case 0x00 => true
    case 0x01 => op.name1 != []
    case 0x02 => op.name1 != [] && op.name2 != []
    case 0x03 => op.name1 != []
    case 0xf0 => op.name1 != []
    case 0xf1 => op.name1 != [] && op.name2 != []
    case 0xf2 => op.name1 != []
    case _ => false
  }

  function Exec(op: Op, s: FsState): FsState
    requires WellFormed(op)
  {
    match op.kind
    case 0x01 => s.(garbage := s.garbage + {op.name1})
    case 0x02 => FsState(s.files - {op.name1}, s.garbage + {op.name2})
    case 0x03 => s.(garbage := s.garbage + {op.name1})
    case 0xf0 => s.(files := s.files - {op.name1})
    case 0xf1 => FsState(s.files[op.name1 := op.name2], s.garbage - {op.name2})
    case 0xf2 => s.(garbage := s.garbage - {op.name1})
    case _ => s
  }

  function ExecAll(ops: seq<Op>, s: FsState): Option<FsState>
    decreases |ops|
  {
    if ops == [] then Some(s)
    else if !WellFormed(ops[0]) then None
    else ExecAll(ops[1..], Exec(ops[0], s))
  }

  // ------------------------------------------------------------------
  // Records
  // ------------------------------------------------------------------

  function EncodeOp(op: Op): Bytes {
    [op.kind] + LengthPrefixed(op.name1) + LengthPrefixed(op.name2)
  }

  function EncodeOps(ops: seq<Op>): Bytes
    decreases |ops|
  {
    if ops == [] then [] else EncodeOp(ops[0]) + EncodeOps(ops[1..])
  }

  // Timestamp, number of operations, operations.
  function Record(time: nat, ops: seq<Op>): (r: Bytes)
    ensures |r| >= 12
  {
    Fixed(time, 8) + Fixed(|ops|, 4) + EncodeOps(ops)
  }

  // Take one operation off the input.
  function DecodeOp(input: Bytes): (r: Parsed<Op>)
    ensures r.Ok? ==> |r.rest| < |input|
  {
    if input == [] then Fail
    else
      var n1 := GetLengthPrefixed(input[1..]);
      if n1.Fail? then Fail
      else
        var n2 := GetLengthPrefixed(n1.rest);
        if n2.Fail? then Fail else Ok(Op(input[0], n1.value, n2.value), n2.rest)
  }

  // Replay n operations; bytes after them are ignored.
  function Replay(input: Bytes, n: nat, s: FsState): Option<FsState>
    decreases n
  {
    if n == 0 then Some(s)
    else
      var r := DecodeOp(input);
      if r.Fail? || !WellFormed(r.value) then None
      else Replay(r.rest, n - 1, Exec(r.value, s))
  }

  function RedoUndo(rec: Bytes, s: FsState): Option<FsState> {
    if |rec| < 12 then None
    else Replay(rec[12..], DecodeFixed(rec[8..12]), s)
  }

  function RecordTime(rec: Bytes): nat
    requires |rec| >= 8
  {
    DecodeFixed(rec[..8])
  }

  // Names fit their 32-bit length prefix.
  predicate Encodable(op: Op) {
    |op.name1| < UINT32 && |op.name2| < UINT32
  }

  ghost predicate AllEncodable(ops: seq<Op>) {
    forall i :: 0 <= i < |ops| ==> Encodable(ops[i])
  }

  lemma DecodeEncodeOp(op: Op, suffix: Bytes)
    requires Encodable(op)
    ensures DecodeOp(EncodeOp(op) + suffix) == Ok(op, suffix)
  {
    hide LengthPrefixed;
    hide GetLengthPrefixed;
    var input := EncodeOp(op) + suffix;
    assert input[1..] == LengthPrefixed(op.name1) + (LengthPrefixed(op.name2) + suffix);
    LengthPrefixedRoundTrip(op.name1, LengthPrefixed(op.name2) + suffix);
    LengthPrefixedRoundTrip(op.name2, suffix);
  }

  lemma {:induction false} ReplayEncoded(ops: seq<Op>, s: FsState)
    requires AllEncodable(ops)
    ensures Replay(EncodeOps(ops), |ops|, s) == ExecAll(ops, s)
    decreases |ops|
  {
    hide DecodeOp;
    hide EncodeOp;
    hide Exec;
    if ops == [] {
    } else {
      DecodeEncodeOp(ops[0], EncodeOps(ops[1..]));
      if WellFormed(ops[0]) {
        ReplayEncoded(ops[1..], Exec(ops[0], s));
      }
    }
  }

  /** Replaying a written record has the effect of its operations, in order. */
  lemma RecordReplays(time: nat, ops: seq<Op>, s: FsState)
    requires AllEncodable(ops) && |ops| < UINT32 && time < UINT64
    ensures RedoUndo(Record(time, ops), s) == ExecAll(ops, s)
    ensures RecordTime(Record(time, ops)) == time
  {
    hide Replay;
    hide ExecAll;
    hide EncodeOps;
    var rec := Record(time, ops);
    FixedWidths();
    FixedRoundTrip(time, 8);
    FixedRoundTrip(|ops|, 4);
    hide Fixed;
    hide DecodeFixed;
    assert rec[..8] == Fixed(time, 8);
    assert rec[8..12] == Fixed(|ops|, 4);
    assert rec[12..] == EncodeOps(ops);
    ReplayEncoded(ops, s);
  }

  lemma SingleRecord(time: nat, op: Op, s: FsState)
    requires WellFormed(op) && Encodable(op) && time < UINT64
    ensures RedoUndo(Record(time, [op]), s) == Some(Exec(op, s))
  {
    hide Exec;
    hide WellFormed;
    hide RedoUndo;
    hide Record;
    RecordReplays(time, [op], s);
    assert [op][1..] == [];
  }

  lemma OpCut(op: Op, k: nat)
    requires Encodable(op) && k < |EncodeOp(op)|
    ensures DecodeOp(EncodeOp(op)[..k]) == Fail
  {
    hide LengthPrefixed;
    hide GetLengthPrefixed;
    var one, two, cut := LengthPrefixed(op.name1), LengthPrefixed(op.name2), EncodeOp(op)[..k];
    if k == 0 {
    } else if k - 1 < |one| {
      LengthPrefixedCut(op.name1, k - 1);
      assert cut[1..] == one[..k - 1];
    } else {
      LengthPrefixedCut(op.name2, k - 1 - |one|);
      LengthPrefixedRoundTrip(op.name1, two[..k - 1 - |one|]);
      assert cut[1..] == one + two[..k - 1 - |one|];
    }
  }

  lemma {:induction false} OpsCut(ops: seq<Op>, k: nat, s: FsState)
    requires AllEncodable(ops) && k < |EncodeOps(ops)|
    ensures Replay(EncodeOps(ops)[..k], |ops|, s) == None
    decreases |ops|
  {
    hide DecodeOp;
    hide EncodeOp;
    hide Exec;
    var head, rest, cut := EncodeOp(ops[0]), EncodeOps(ops[1..]), EncodeOps(ops)[..k];
    if k < |head| {
      OpCut(ops[0], k);
      assert cut == head[..k];
    } else {
      DecodeEncodeOp(ops[0], rest[..k - |head|]);
      assert cut == head + rest[..k - |head|];
      if WellFormed(ops[0]) {
        OpsCut(ops[1..], k - |head|, Exec(ops[0], s));
      }
    }
  }

  /** A record that is cut off anywhere is not replayed, not even in part. */
  lemma RecordCut(time: nat, ops: seq<Op>, k: nat, s: FsState)
    requires AllEncodable(ops) && |ops| < UINT32 && time < UINT64 && k < |Record(time, ops)|
    ensures RedoUndo(Record(time, ops)[..k], s) == None
  {
    hide Replay;
    hide EncodeOps;
    hide Fixed;
    hide DecodeFixed;
    var rec, body := Record(time, ops), EncodeOps(ops);
    if k >= 12 {
      FixedWidths();
      FixedRoundTrip(|ops|, 4);
      SubSlice(rec, 0, k, 8, 12);
      SubSlice(rec, 0, k, 12, k);
      assert rec[0..k] == rec[..k];
      assert rec[8..12] == Fixed(|ops|, 4) && rec[12..] == body;
      assert rec[12..k] == body[..k - 12];
      OpsCut(ops, k - 12, s);
    }
  }

  // The operation is of a known type and has the names it needs.
  predicate Meaningful(op: Op) {
    && op.kind in {0x00, TRY_CREATE_OBJ, UNLINK_AND_DEL, DEL_OBJ, UNLINK, LINK, OBJ_DELETED}
    && (op.kind != 0x00 ==> op.name1 != []) && (op.kind in {UNLINK_AND_DEL, LINK} ==> op.name2 != [])
  }

  lemma MeaningfulIs(op: Op)
    ensures Meaningful(op) <==> WellFormed(op)
  {
  }

  /** Replay succeeds if and only if every operation is of a known type and has the names it
      needs; in particular a file with an empty name makes the set unrecoverable. */
  lemma {:induction false} ReplayableIff(ops: seq<Op>, s: FsState)
    ensures ExecAll(ops, s).Some? <==> forall i :: 0 <= i < |ops| ==> Meaningful(ops[i])
    decreases |ops|
  {
    hide Exec;
    hide WellFormed;
    hide Meaningful;
    if ops != [] {
      MeaningfulIs(ops[0]);
    }
    if ops == [] || !WellFormed(ops[0]) {
    } else {
      ReplayableIff(ops[1..], Exec(ops[0], s));
      forall i | 0 <= i < |ops| ensures i > 0 ==> ops[i] == ops[1..][i - 1] {
      }
    }
  }

  lemma {:induction false} ExecAppend(a: seq<Op>, b: seq<Op>, s: FsState)
    requires ExecAll(a, s).Some?
    ensures ExecAll(a + b, s) == ExecAll(b, ExecAll(a, s).value)
    decreases |a|
  {
    hide Exec;
    hide WellFormed;
    if a == [] {
      assert a + b == b;
    } else {
      assert (a + b)[1..] == a[1..] + b;
      ExecAppend(a[1..], b, Exec(a[0], s));
    }
  }

  // ------------------------------------------------------------------
  // Snapshots
  // ------------------------------------------------------------------

  ghost predicate GoodName(n: Name) {
    n != [] && |n| < UINT32
  }

  ghost predicate GoodState(s: FsState) {
    && (forall n :: n in s.files ==> GoodName(n) && GoodName(s.files[n]))
    && (forall g :: g in s.garbage ==> GoodName(g))
    && |s.files| + |s.garbage| < UINT32
  }

  // A record body under construction: the operations so far take nothing to s.
  ghost predicate Builds(body: Bytes, n: nat, ops: seq<Op>, s: FsState) {
    n == |ops| && body == EncodeOps(ops) && AllEncodable(ops) && ExecAll(ops, EmptyState()) == Some(s)
  }

  // Links for all files, in whatever order the table is visited.
  method AppendLinks(files: map<Name, Name>) returns (body: Bytes, n: nat, ghost ops: seq<Op>)
    requires forall f :: f in files ==> GoodName(f) && GoodName(files[f])
    ensures Builds(body, n, ops, FsState(files, {})) && n == |files|
  {
    body, n, ops := [], 0, [];
    var todo := files.Keys;
    assert Restrict(files, files.Keys - todo) == map[];
    while todo != {}
      invariant todo <= files.Keys && n == |files.Keys| - |todo|
      invariant Builds(body, n, ops, FsState(Restrict(files, files.Keys - todo), {}))
      decreases todo
    {
      var name :| name in todo;
      RestrictMore(files, todo, name);
      body, n, ops := AppendOp(body, n, ops, FsState(Restrict(files, files.Keys - todo), {}), Op(LINK, name, files[name]));
      assert {} - {files[name]} == {};
      todo := todo - {name};
    }
    assert Restrict(files, files.Keys - todo) == files;
  }

  // Deletions for all garbage.
  method AppendDels(files: map<Name, Name>, garbage: set<Name>, body0: Bytes, n0: nat, ghost ops0: seq<Op>)
    returns (body: Bytes, n: nat, ghost ops: seq<Op>)
    requires forall g :: g in garbage ==> GoodName(g)
    requires Builds(body0, n0, ops0, FsState(files, {}))
    ensures Builds(body, n, ops, FsState(files, garbage)) && n == n0 + |garbage|
  {
    body, n, ops := body0, n0, ops0;
    var todo := garbage;
    assert garbage - todo == {};
    while todo != {}
      invariant todo <= garbage && n == n0 + |garbage| - |todo|
      invariant Builds(body, n, ops, FsState(files, garbage - todo))
      decreases todo
    {
      var name :| name in todo;
      body, n, ops := AppendOp(body, n, ops, FsState(files, garbage - todo), Op(DEL_OBJ, name, []));
      assert garbage - (todo - {name}) == (garbage - todo) + {name};
      todo := todo - {name};
    }
    assert garbage - todo == garbage;
  }

  /** The snapshot record: links for all files, then deletions for all garbage.
      Replaying it from nothing gives back the files and the garbage. */
  method MakeSnapshot(files: map<Name, Name>, garbage: set<Name>, time: nat) returns (rec: Bytes)
    requires GoodState(FsState(files, garbage)) && time < UINT64
    ensures RedoUndo(rec, EmptyState()) == Some(FsState(files, garbage))
    ensures |rec| >= 12 && RecordTime(rec) == time
  {
    hide RedoUndo;
    hide ExecAll;
    hide EncodeOps;
    hide Fixed;
    var body, n, ops := AppendLinks(files);
    body, n, ops := AppendDels(files, garbage, body, n, ops);
    RecordReplays(time, ops, EmptyState());
    rec := Fixed(time, 8) + Fixed(n, 4) + body;
  }

  method AppendOp(body: Bytes, n: nat, ghost ops: seq<Op>, ghost s: FsState, op: Op)
    returns (body': Bytes, n': nat, ghost ops': seq<Op>)
    requires Builds(body, n, ops, s) && Encodable(op) && WellFormed(op)
    ensures n' == n + 1 && Builds(body', n', ops', Exec(op, s))
  {
    hide Exec;
    hide WellFormed;
    hide EncodeOp;
    body', n', ops' := body + EncodeOp(op), n + 1, ops + [op];
    EncodeAppend(ops, op);
    ExecAppend(ops, [op], EmptyState());
    assert ExecAll([op], s) == Some(Exec(op, s)) by {
      assert [op][1..] == [];
    }
  }

  function Restrict(m: map<Name, Name>, keys: set<Name>): map<Name, Name> {
    map n | n in m && n in keys :: m[n]
  }

  lemma RestrictMore(m: map<Name, Name>, todo: set<Name>, name: Name)
    requires name in todo && todo <= m.Keys
    ensures Restrict(m, m.Keys - (todo - {name})) == Restrict(m, m.Keys - todo)[name := m[name]]
  {
  }

  lemma {:induction false} EncodeAppend(ops: seq<Op>, op: Op)
    ensures EncodeOps(ops + [op]) == EncodeOps(ops) + EncodeOp(op)
    decreases |ops|
  {
    hide EncodeOp;
    if ops == [] {
      assert ops + [op] == [op] && [op][1..] == [];
    } else {
      assert (ops + [op])[1..] == ops[1..] + [op];
      EncodeAppend(ops[1..], op);
    }
  }
}
