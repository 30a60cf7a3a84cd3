/**
 The file operations of the object-backed file system as sequences of small durable
 steps (log records and object updates), any prefix of which may be all that a crash
 or a failed step leaves behind.
 */
module OfsCrash {
  import opened Coding
  import opened OfsLog

  // What is durable: for each file set the state its log replays to, and the objects.
  datatype Disk = Disk(sets: map<Name, FsState>, store: map<Name, Bytes>)

  datatype Micro =
    | Log(fset: Name, op: Op)
    | Put(obj: Name, data: Bytes)
    | Copy(src: Name, obj: Name)
    | Delete(obj: Name)

  function Apply(d: Disk, m: Micro): Disk {
    match m
    case Log(t, op) => if t in d.sets && WellFormed(op) then d.(sets := d.sets[t := Exec(op, d.sets[t])]) else d
    case Put(o, data) => d.(store := d.store[o := data])
    case Copy(src, o) => if src in d.store then d.(store := d.store[o := d.store[src]]) else d
    case Delete(o) => d.(store := d.store - {o})
  }

  function Run(d: Disk, steps: seq<Micro>): Disk
    decreases |steps|
  {
    if steps == [] then d else Run(Apply(d, steps[0]), steps[1..])
  }

  // ------------------------------------------------------------------
  // Operations
  // ------------------------------------------------------------------

  // The set's name, an underscore, the file's name.
  function ObjName(fset: Name, base: Name): (o: Name)
    ensures o != []
  {
    fset + [95] + base
  }

  // A file keeps its object; a new file gets one named after it.
  function ObjectFor(d: Disk, t: Name, base: Name): Name
    requires t in d.sets
  {
    var files := d.sets[t].files;
    if base in files then files[base] else ObjName(t, base)
  }

  datatype Action =
    | PutFile(t: Name, base: Name, data: Bytes, linkFails: bool)
    | CopyFile(s: Name, sbase: Name, t: Name, base: Name, linkFails: bool)
    | DeleteFile(t: Name, base: Name)
    | Rename(s: Name, sbase: Name, t: Name, base: Name)
    | Collect(t: Name, order: seq<Name>)

  function CreateSteps(t: Name, base: Name, o: Name, write: Micro, linkFails: bool): seq<Micro> {
    [Log(t, Op(TRY_CREATE_OBJ, o, [])), write,
     if linkFails then Delete(o) else Log(t, Op(LINK, base, o))]
  }

  // Garbage is deleted when a set is mounted, in the order its table is visited.
  function CollectSteps(t: Name, order: seq<Name>): seq<Micro> {
    if order == [] then []
    else [Delete(order[0]), Log(t, Op(OBJ_DELETED, order[0], []))] + CollectSteps(t, order[1..])
  }

  // The durable steps of an operation; none if it is refused.
  function Steps(d: Disk, a: Action): seq<Micro> {
    match a
    case PutFile(t, base, data, linkFails) =>
      if t !in d.sets then []
      else
        var o := ObjectFor(d, t, base);
        CreateSteps(t, base, o, Put(o, data), linkFails)
    case CopyFile(s, sbase, t, base, linkFails) =>
      if s !in d.sets || t !in d.sets || sbase !in d.sets[s].files then []
      else
        var o, src := ObjectFor(d, t, base), d.sets[s].files[sbase];
        if src !in d.store then [Log(t, Op(TRY_CREATE_OBJ, o, []))]
        else CreateSteps(t, base, o, Copy(src, o), linkFails)
    case DeleteFile(t, base) =>
      if t !in d.sets || base !in d.sets[t].files then []
      else
        var o := d.sets[t].files[base];
        [Log(t, Op(UNLINK_AND_DEL, base, o)), Delete(o), Log(t, Op(OBJ_DELETED, o, []))]
    case Rename(s, sbase, t, base) =>
      if s !in d.sets || t !in d.sets || sbase !in d.sets[s].files || base in d.sets[t].files then []
      else [Log(t, Op(LINK, base, d.sets[s].files[sbase])), Log(s, Op(UNLINK, sbase, []))]
    case Collect(t, order) =>
      if t !in d.sets then [] else CollectSteps(t, order)
  }

  // The first k steps of an operation reach the disk.
  function Act(d: Disk, a: Action, k: nat): Disk {
    var steps := Steps(d, a);
    Run(d, if k < |steps| then steps[..k] else steps)
  }

  function Whole(d: Disk, a: Action): Disk { Run(d, Steps(d, a)) }

  // ------------------------------------------------------------------
  // No object is ever lost track of
  // ------------------------------------------------------------------

  ghost predicate Maps(d: Disk, t: Name, n: Name, o: Name) {
    t in d.sets && n in d.sets[t].files && d.sets[t].files[n] == o
  }

  ghost predicate Discards(d: Disk, t: Name, o: Name) {
    t in d.sets && o in d.sets[t].garbage
  }

  ghost predicate Mapped(d: Disk, o: Name) { exists t, n :: Maps(d, t, n, o) }

  ghost predicate Known(d: Disk, o: Name) {
    Mapped(d, o) || exists t :: Discards(d, t, o)
  }

  // Every stored object is a file of some set or will be collected by some set.
  ghost predicate NoOrphans(d: Disk) {
    forall o :: o in d.store ==> Known(d, o)
  }

  // Every file and object has a name, which the log can hold.
  ghost predicate Named(d: Disk) {
    forall t, n, o :: Maps(d, t, n, o) ==> n != [] && o != []
  }

  lemma ObjectNamed(d: Disk, t: Name, base: Name)
    requires t in d.sets && Named(d)
    ensures ObjectFor(d, t, base) != []
  {
    if base in d.sets[t].files {
      assert Maps(d, t, base, d.sets[t].files[base]);
    }
  }

  // When one step keeps all objects known.
  ghost predicate Harmless(d: Disk, m: Micro) {
    match m
    case Put(o, _) => Known(d, o)
    case Copy(_, o) => Known(d, o)
    case Delete(_) => true
    case Log(t, op) =>
      t in d.sets && WellFormed(op) &&
      match op.kind
      case 0x01 => true
      case 0x02 => Maps(d, t, op.name1, op.name2)
      case 0xf0 => forall o :: Maps(d, t, op.name1, o) ==> exists t', n' :: (t', n') != (t, op.name1) && Maps(d, t', n', o)
      case 0xf1 => op.name1 !in d.sets[t].files || Maps(d, t, op.name1, op.name2)
      case 0xf2 => op.name1 !in d.store
      case _ => false
  }

  lemma HarmlessStep(d: Disk, m: Micro)
    requires NoOrphans(d) && Harmless(d, m)
    ensures NoOrphans(Apply(d, m))
  {
    var e := Apply(d, m);
    forall o | o in e.store ensures Known(e, o) {
      StaysKnown(d, m, o);
    }
  }

  lemma StaysKnown(d: Disk, m: Micro, o: Name)
    requires NoOrphans(d) && Harmless(d, m) && o in Apply(d, m).store
    ensures Known(Apply(d, m), o)
  {
    var e := Apply(d, m);
    if !m.Log? {
      assert Known(d, o);
      SameSets(d, e, o);
    } else {
      KnownAfterLog(d, m.fset, m.op, o);
    }
  }

  lemma SameSets(d: Disk, e: Disk, o: Name)
    requires d.sets == e.sets && Known(d, o)
    ensures Known(e, o)
  {
    if Mapped(d, o) {
      var t, n :| Maps(d, t, n, o);
      assert Maps(e, t, n, o);
    } else {
      var t :| Discards(d, t, o);
      assert Discards(e, t, o);
    }
  }

  lemma KnownAfterLog(d: Disk, t: Name, op: Op, o: Name)
    requires Harmless(d, Log(t, op)) && o in d.store && Known(d, o)
    ensures Known(Apply(d, Log(t, op)), o)
  {
    var e := Apply(d, Log(t, op));
    if Mapped(d, o) {
      var u, n :| Maps(d, u, n, o);
      if u != t || op.kind !in {0x02, 0xf0, 0xf1} || n != op.name1 {
        assert Maps(e, u, n, o);
      } else if op.kind == 0x02 {
        assert Discards(e, t, o);
      } else if op.kind == 0xf0 {
        var u', n' :| (u', n') != (t, op.name1) && Maps(d, u', n', o);
        assert Maps(e, u', n', o);
      } else {
        assert Maps(e, t, n, o);
      }
    } else {
      var u :| Discards(d, u, o);
      if u == t && op.kind == 0xf1 && o == op.name2 {
        assert Maps(e, t, op.name1, o);
      } else {
        assert Discards(e, u, o);
      }
    }
  }

  // All steps of a sequence are harmless, each where it is taken.
  ghost predicate AllHarmless(d: Disk, steps: seq<Micro>)
    decreases |steps|
  {
    steps == [] || (Harmless(d, steps[0]) && AllHarmless(Apply(d, steps[0]), steps[1..]))
  }

  lemma {:induction false} HarmlessRun(d: Disk, steps: seq<Micro>, k: nat)
    requires NoOrphans(d) && AllHarmless(d, steps) && k <= |steps|
    ensures NoOrphans(Run(d, steps[..k]))
    decreases k
  {
    hide Apply;
    hide Harmless;
    hide NoOrphans;
    if k == 0 {
    } else {
      HarmlessStep(d, steps[0]);
      assert steps[..k][1..] == steps[1..][..k - 1];
      HarmlessRun(Apply(d, steps[0]), steps[1..], k - 1);
    }
  }

  // File names are not empty; collection deletes named objects.
  ghost predicate Sensible(a: Action) {
    match a
    case PutFile(_, base, _, _) => base != []
    case CopyFile(_, sbase, _, base, _) => base != []
    case DeleteFile(_, base) => true
    case Rename(_, _, _, base) => base != []
    case Collect(_, order) => [] !in order
  }

  lemma CreateHarmless(d: Disk, t: Name, base: Name, write: Micro, linkFails: bool)
    requires t in d.sets && base != [] && Named(d)
    requires (write.Copy? || write.Put?) && write.obj == ObjectFor(d, t, base)
    ensures AllHarmless(d, CreateSteps(t, base, ObjectFor(d, t, base), write, linkFails))
  {
    var o := ObjectFor(d, t, base);
    ObjectNamed(d, t, base);
    var steps := CreateSteps(t, base, o, write, linkFails);
    var d1 := Apply(d, steps[0]);
    assert Harmless(d, steps[0]) && Discards(d1, t, o);
    var d2 := Apply(d1, write);
    assert Harmless(d1, write) && d2.sets == d1.sets;
    assert d2.sets[t].files == d.sets[t].files;
    if !linkFails {
      assert Harmless(d2, steps[2]);
    }
    AllHarmless3(d, d1, d2, steps);
  }

  lemma AllHarmless3(d: Disk, d1: Disk, d2: Disk, steps: seq<Micro>)
    requires |steps| == 3 && d1 == Apply(d, steps[0]) && d2 == Apply(d1, steps[1])
    requires Harmless(d, steps[0]) && Harmless(d1, steps[1]) && Harmless(d2, steps[2])
    ensures AllHarmless(d, steps)
  {
    hide Apply;
    hide Harmless;
    assert steps[1..][0] == steps[1] && steps[1..][1..] == steps[2..];
    assert steps[2..][0] == steps[2] && steps[2..][1..] == [];
    assert AllHarmless(Apply(d2, steps[2]), []);
    assert AllHarmless(d2, steps[2..]);
    assert AllHarmless(d1, steps[1..]);
  }

  lemma DeleteHarmless(d: Disk, t: Name, base: Name)
    requires t in d.sets && base in d.sets[t].files && Named(d)
    ensures AllHarmless(d, Steps(d, DeleteFile(t, base)))
  {
    var o := d.sets[t].files[base];
    assert Maps(d, t, base, o);
    var steps := Steps(d, DeleteFile(t, base));
    var d1 := Apply(d, steps[0]);
    var d2 := Apply(d1, steps[1]);
    AllHarmless3(d, d1, d2, steps);
  }

  lemma RenameHarmless(d: Disk, s: Name, sbase: Name, t: Name, base: Name)
    requires s in d.sets && t in d.sets && sbase in d.sets[s].files && base !in d.sets[t].files
    requires Named(d) && base != []
    ensures AllHarmless(d, Steps(d, Rename(s, sbase, t, base)))
  {
    var o := d.sets[s].files[sbase];
    assert Maps(d, s, sbase, o);
    var steps := Steps(d, Rename(s, sbase, t, base));
    var d1 := Apply(d, steps[0]);
    assert Maps(d1, t, base, o) && (t, base) != (s, sbase);
    assert Harmless(d1, steps[1]);
    assert steps[1..] == [steps[1]] && [steps[1]][1..] == [];
    assert AllHarmless(d1, [steps[1]]);
  }

  lemma {:induction false} CollectHarmless(d: Disk, t: Name, order: seq<Name>)
    requires t in d.sets && [] !in order
    ensures AllHarmless(d, CollectSteps(t, order))
    decreases |order|
  {
    if order == [] {
    } else {
      var steps, rest := CollectSteps(t, order), CollectSteps(t, order[1..]);
      var d1 := Apply(d, steps[0]);
      var d2 := Apply(d1, steps[1]);
      CollectHarmless(d2, t, order[1..]);
      assert steps[1..] == [steps[1]] + rest && ([steps[1]] + rest)[1..] == rest;
      assert Harmless(d1, steps[1]);
      assert AllHarmless(d1, [steps[1]] + rest);
    }
  }

  lemma ActionHarmless(d: Disk, a: Action)
    requires Named(d) && Sensible(a)
    ensures AllHarmless(d, Steps(d, a))
  {
    hide AllHarmless;
    hide CreateSteps;
    hide CollectSteps;
    hide Named;
    hide ObjectFor;
    if Steps(d, a) == [] {
      NothingHarmful(d);
    } else {
      match a
      case PutFile(t, base, data, linkFails) =>
        CreateHarmless(d, t, base, Put(ObjectFor(d, t, base), data), linkFails);
      case CopyFile(s, sbase, t, base, linkFails) =>
        var src, o := d.sets[s].files[sbase], ObjectFor(d, t, base);
        CreateHarmless(d, t, base, Copy(src, o), linkFails);
        HarmlessPrefix(d, t, base, o, Copy(src, o), linkFails);
      case DeleteFile(t, base) => DeleteHarmless(d, t, base);
      case Rename(s, sbase, t, base) => RenameHarmless(d, s, sbase, t, base);
      case Collect(t, order) => CollectHarmless(d, t, order);
    }
  }

  lemma NothingHarmful(d: Disk)
    ensures AllHarmless(d, [])
  {
  }

  lemma HarmlessPrefix(d: Disk, t: Name, base: Name, o: Name, write: Micro, linkFails: bool)
    requires AllHarmless(d, CreateSteps(t, base, o, write, linkFails))
    ensures AllHarmless(d, [Log(t, Op(TRY_CREATE_OBJ, o, []))])
  {
    hide Harmless;
    hide Apply;
    var first := Log(t, Op(TRY_CREATE_OBJ, o, []));
    assert [first][1..] == [];
    assert AllHarmless(Apply(d, first), []);
  }

  lemma StepNamed(d: Disk, m: Micro)
    requires Named(d) && (m.Log? && m.op.kind == 0xf1 ==> m.op.name1 != [] && m.op.name2 != [])
    ensures Named(Apply(d, m))
  {
    var e := Apply(d, m);
    forall t, n, o | Maps(e, t, n, o) ensures n != [] && o != [] {
      if !Maps(d, t, n, o) {
        assert m.Log? && m.op.kind == 0xf1;
      }
    }
  }

  // Links in a sequence of steps name what they link.
  ghost predicate LinksNamed(steps: seq<Micro>) {
    forall i :: 0 <= i < |steps| && steps[i].Log? && steps[i].op.kind == 0xf1 ==>
      steps[i].op.name1 != [] && steps[i].op.name2 != []
  }

  lemma {:induction false} RunNamed(d: Disk, steps: seq<Micro>)
    requires Named(d) && LinksNamed(steps)
    ensures Named(Run(d, steps))
    decreases |steps|
  {
    hide Apply;
    hide Named;
    if steps == [] {
    } else {
      StepNamed(d, steps[0]);
      RunNamed(Apply(d, steps[0]), steps[1..]);
    }
  }

  lemma {:induction false} CollectLinks(t: Name, order: seq<Name>)
    ensures LinksNamed(CollectSteps(t, order))
    decreases |order|
  {
    if order == [] {
    } else {
      CollectLinks(t, order[1..]);
    }
  }

  lemma ActionLinks(d: Disk, a: Action)
    requires Named(d) && Sensible(a)
    ensures LinksNamed(Steps(d, a))
  {
    match a
    case PutFile(t, base, _, _) =>
      if t in d.sets && base in d.sets[t].files { assert Maps(d, t, base, d.sets[t].files[base]); }
    case CopyFile(s, sbase, t, base, _) =>
      if t in d.sets && base in d.sets[t].files { assert Maps(d, t, base, d.sets[t].files[base]); }
    case DeleteFile(t, base) =>
    case Rename(s, sbase, t, base) =>
      if s in d.sets && sbase in d.sets[s].files { assert Maps(d, s, sbase, d.sets[s].files[sbase]); }
    case Collect(t, order) => CollectLinks(t, order);
  }

  lemma ActKeeps(d: Disk, a: Action, k: nat)
    requires NoOrphans(d) && Named(d) && Sensible(a)
    ensures NoOrphans(Act(d, a, k)) && Named(Act(d, a, k))
  {
    hide Steps;
    hide NoOrphans;
    hide Named;
    hide Run;
    hide AllHarmless;
    var steps := Steps(d, a);
    var n := if k < |steps| then k else |steps|;
    assert steps[..|steps|] == steps;
    ActionHarmless(d, a);
    HarmlessRun(d, steps, n);
    ActionLinks(d, a);
    RunNamed(d, steps[..n]);
  }

  // A history: operations of which some number of steps took effect.
  function History(d: Disk, acts: seq<(Action, nat)>): Disk
    decreases |acts|
  {
    if acts == [] then d else History(Act(d, acts[0].0, acts[0].1), acts[1..])
  }

  /** However often operations crash or fail half way, and wherever they do, every
      object in the store is mapped by a set or is garbage some set will collect. */
  lemma {:induction false} NeverOrphans(d: Disk, acts: seq<(Action, nat)>)
    requires NoOrphans(d) && Named(d)
    requires forall i :: 0 <= i < |acts| ==> Sensible(acts[i].0)
    ensures NoOrphans(History(d, acts))
    decreases |acts|
  {
    hide Act;
    hide NoOrphans;
    hide Named;
    if acts == [] {
    } else {
      ActKeeps(d, acts[0].0, acts[0].1);
      NeverOrphans(Act(d, acts[0].0, acts[0].1), acts[1..]);
    }
  }
}
