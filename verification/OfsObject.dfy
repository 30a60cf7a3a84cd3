/**
 The file operations as the object-backed file system performs them: each durable step
 may fail, and an operation stops at the first step that does.
 */
module OfsObject {
  import opened Coding
  import opened OfsLog
  import opened OfsCrash
  import opened OfsFiles

  class Ofs {
    const deferredGc: bool
    var sets: map<Name, FsState>
    var store: map<Name, Bytes>

    ghost function View(): Disk
      reads this
    {
      Disk(sets, store)
    }

    // Every stored object is mapped or will be collected.
    ghost predicate Valid()
      reads this
    {
      NoOrphans(View()) && Named(View())
    }

    // Over what is already there.
    constructor (deferred: bool, d: Disk)
      requires NoOrphans(d) && Named(d)
      ensures Valid() && View() == d && deferredGc == deferred
    {
      deferredGc, sets, store := deferred, d.sets, d.store;
    }

    /** Mounting a set collects its garbage: objects that cannot be deleted stay on the
        list, and so do those whose deletion could not be logged. */
    method Collect(t: Name, order: seq<Name>, deleted: seq<bool>, noted: seq<bool>)
      requires Valid() && t in sets && |order| == |deleted| == |noted| && [] !in order
      modifies this
      ensures Valid() && t in sets && sets == old(sets)[t := sets[t]] && sets[t].files == old(sets)[t].files
      ensures store == old(store) - Chosen(order, deleted, |order|)
      ensures sets[t].garbage == old(sets)[t].garbage - Chosen(order, Both(deleted, noted), |order|)
    {
      hide NoOrphans;
      hide Named;
      hide Chosen;
      NoneChosen(order, deleted);
      NoneChosen(order, Both(deleted, noted));
      var i := 0;
      while i < |order|
        invariant 0 <= i <= |order| && Valid()
        invariant t in sets && sets == old(sets)[t := sets[t]] && sets[t].files == old(sets)[t].files
        invariant store == old(store) - Chosen(order, deleted, i)
        invariant sets[t].garbage == old(sets)[t].garbage - Chosen(order, Both(deleted, noted), i)
      {
        ChosenNext(order, deleted, i);
        ChosenNext(order, Both(deleted, noted), i);
        if deleted[i] {
          CollectOne(t, order[i], noted[i]);
        }
        i := i + 1;
      }
    }

    method CollectOne(t: Name, o: Name, noted: bool)
      requires Valid() && t in sets && o != []
      modifies this
      ensures Valid() && t in sets && sets == old(sets)[t := sets[t]] && sets[t].files == old(sets)[t].files
      ensures store == old(store) - {o}
      ensures sets[t].garbage == old(sets)[t].garbage - if noted then {o} else {}
    {
      hide NoOrphans;
      hide Named;
      HarmlessStep(View(), Delete(o));
      StepNamed(View(), Delete(o));
      Discard(o, true);
      var op := Op(OBJ_DELETED, o, []);
      HarmlessStep(View(), Log(t, op));
      StepNamed(View(), Log(t, op));
      Append(t, op, noted);
    }

    // Append an operation to the log of a set.
    method Append(t: Name, op: Op, ok: bool)
      requires t in sets && WellFormed(op)
      modifies this
      ensures View() == if ok then Apply(old(View()), Log(t, op)) else old(View())
    {
      if ok {
        sets := sets[t := Exec(op, sets[t])];
      }
    }

    method Write(o: Name, data: Bytes, ok: bool)
      modifies this
      ensures View() == if ok then Apply(old(View()), Put(o, data)) else old(View())
    {
      if ok {
        store := store[o := data];
      }
    }

    method Discard(o: Name, ok: bool)
      modifies this
      ensures View() == if ok then Apply(old(View()), Delete(o)) else old(View())
    {
      if ok {
        store := store - {o};
      }
    }

    /** Insert a named file. Whichever steps fail, what is left behind is the operation
        cut after some number of its steps; if none does, the file reads the data. */
    method PutFile(t: Name, base: Name, data: Bytes, created: bool, written: bool, linked: bool, collected: bool)
      returns (ok: bool, ghost k: nat, ghost linkFails: bool)
      requires Valid() && base != []
      modifies this
      ensures Valid() && View() == Act(old(View()), OfsCrash.PutFile(t, base, data, linkFails), k)
      ensures ok <==> t in old(sets) && created && written && linked
      ensures ok ==> Content(View(), t, base) == Some(data)
      ensures linkFails == (created && written && !linked)
      ensures if t in old(sets)
              then View() == Created(old(View()), t, base, data, created, written, linked, !deferredGc && collected)
              else View() == old(View())
    {
      ghost var d := View();
      ok, k, linkFails := false, 0, created && written && !linked;
      ghost var a := OfsCrash.PutFile(t, base, data, linkFails);
      if t in sets {
        var files := sets[t].files;
        var o := if base in files then files[base] else ObjName(t, base);
        ObjectNamed(d, t, base);
        CreateCuts(d, t, base, Put(o, data), linkFails);
        Append(t, Op(TRY_CREATE_OBJ, o, []), created);
        if created {
          k := 1;
          Write(o, data, written);
          if written {
            k := 2;
            Append(t, Op(LINK, base, o), linked);
            if linked {
              ok, k := true, 3;
              PutEffect(d, t, base, data);
            } else if !deferredGc {
              Discard(o, collected);
              if collected {
                k := 3;
              }
            }
          }
        }
        assert View() == Act(d, a, k);
        CutIsCreated(d, t, base, data, created, written, linked, !deferredGc && collected);
      }
      ActKeeps(d, a, k);
    }

    /** Delete a file. It is gone once that is logged; if its object cannot be deleted,
        the object is collected at a later mount. */
    method DeleteFile(t: Name, base: Name, logged: bool, deleted: bool, noted: bool)
      returns (ok: bool, ghost k: nat)
      requires Valid()
      modifies this
      ensures Valid() && View() == Act(old(View()), OfsCrash.DeleteFile(t, base), k)
      ensures ok <==> t in old(sets) && base in old(sets)[t].files && logged
      ensures ok ==> t in sets && base !in sets[t].files
      ensures ok ==> var o := old(sets)[t].files[base];
              && store == (if deleted then old(store) - {o} else old(store))
              && sets == old(sets)[t := FsState(old(sets)[t].files - {base}, sets[t].garbage)]
              && sets[t].garbage == (if deleted && noted then old(sets)[t].garbage - {o} else old(sets)[t].garbage + {o})
      ensures !ok ==> View() == old(View())
    {
      ghost var d := View();
      ghost var a := OfsCrash.DeleteFile(t, base);
      ok, k := false, 0;
      if t in sets && base in sets[t].files {
        var o := sets[t].files[base];
        assert Maps(d, t, base, o);
        DeleteCuts(d, t, base);
        Append(t, Op(UNLINK_AND_DEL, base, o), logged);
        if logged {
          ok, k := true, 1;
          Discard(o, deleted);
          if deleted {
            k := 2;
            Append(t, Op(OBJ_DELETED, o, []), noted);
            if noted {
              k := 3;
            }
          }
        }
        assert View() == Act(d, a, k);
      }
      ActKeeps(d, a, k);
    }

    /** Rename a file, within a set or from one to another; an existing file is not
        overwritten. */
    method Rename(s: Name, sbase: Name, t: Name, base: Name, linked: bool, unlinked: bool)
      returns (ok: bool, ghost k: nat)
      requires Valid() && base != []
      modifies this
      ensures Valid() && View() == Act(old(View()), OfsCrash.Rename(s, sbase, t, base), k)
      ensures ok <==> s in old(sets) && t in old(sets) && sbase in old(sets)[s].files && base !in old(sets)[t].files
                      && linked && unlinked
      ensures ok ==> Content(View(), t, base) == Content(old(View()), s, sbase) && OthersKept(old(View()), View(), s, sbase)
      ensures ok ==> (t, base) != (s, sbase) && s in sets && sbase !in sets[s].files && store == old(store)
      ensures !ok ==> if s in old(sets) && t in old(sets) && sbase in old(sets)[s].files && base !in old(sets)[t].files && linked
                      then Maps(View(), s, sbase, old(sets)[s].files[sbase]) && Maps(View(), t, base, old(sets)[s].files[sbase])
                      else View() == old(View())
    {
      ghost var d := View();
      ghost var a := OfsCrash.Rename(s, sbase, t, base);
      ok, k := false, 0;
      if s in sets && t in sets && sbase in sets[s].files && base !in sets[t].files {
        var o := sets[s].files[sbase];
        assert Maps(d, s, sbase, o);
        RenameCuts(d, s, sbase, t, base);
        Append(t, Op(LINK, base, o), linked);
        if linked {
          k := 1;
          Append(s, Op(UNLINK, sbase, []), unlinked);
          if unlinked {
            ok, k := true, 2;
            RenameEffect(d, s, sbase, t, base);
          }
        }
        assert View() == Act(d, a, k);
      }
      ActKeeps(d, a, k);
    }

    /** Copy a file, over an existing one if there is one. */
    method CopyFile(s: Name, sbase: Name, t: Name, base: Name, created: bool, copied: bool, linked: bool, collected: bool)
      returns (ok: bool, ghost k: nat, ghost linkFails: bool)
      requires Valid() && base != []
      modifies this
      ensures Valid() && View() == Act(old(View()), OfsCrash.CopyFile(s, sbase, t, base, linkFails), k)
      ensures ok <==> s in old(sets) && t in old(sets) && sbase in old(sets)[s].files
                      && old(sets)[s].files[sbase] in old(store) && created && copied && linked
      ensures ok ==> Content(View(), t, base) == Content(old(View()), s, sbase)
      ensures linkFails == (created && copied && !linked)
      ensures if s in old(sets) && t in old(sets) && sbase in old(sets)[s].files
              then var data := Content(old(View()), s, sbase);
                   View() == Created(old(View()), t, base, if data.Some? then data.value else [],
                                     created, copied && data.Some?, linked, !deferredGc && collected)
              else View() == old(View())
    {
      hide Created;
      ghost var d := View();
      ok, k, linkFails := false, 0, created && copied && !linked;
      ghost var a := OfsCrash.CopyFile(s, sbase, t, base, linkFails);
      if s in sets && t in sets && sbase in sets[s].files {
        var src := sets[s].files[sbase];
        var files := sets[t].files;
        var o := if base in files then files[base] else ObjName(t, base);
        ObjectNamed(d, t, base);
        CopyCuts(d, s, sbase, t, base, linkFails);
        Append(t, Op(TRY_CREATE_OBJ, o, []), created);
        if created {
          k := 1;
          if src in store && copied {
            k := 2;
            store := store[o := store[src]];
            Append(t, Op(LINK, base, o), linked);
            if linked {
              ok, k := true, 3;
            } else if !deferredGc {
              Discard(o, collected);
              if collected {
                k := 3;
              }
            }
          }
        }
        assert View() == Act(d, a, k);
        CutIsCopied(d, s, sbase, t, base, created, copied, linked, !deferredGc && collected);
      }
      ActKeeps(d, a, k);
    }
  }

  /** What creating or overwriting a file leaves when any of its steps may fail: its object is
      garbage from the first step on until it is linked; if linking fails, the object is gone
      if it could be deleted, and else holds the new data. */
  function Created(d: Disk, t: Name, base: Name, data: Bytes,
                   created: bool, written: bool, linked: bool, collected: bool): Disk
    requires t in d.sets
  {
    var o, s := ObjectFor(d, t, base), d.sets[t];
    if !created then d
    else
      Disk(d.sets[t := if written && linked then FsState(s.files[base := o], s.garbage - {o})
                       else FsState(s.files, s.garbage + {o})],
           if !written then d.store else if linked || !collected then d.store[o := data] else d.store - {o})
  }

  lemma CutIsCreated(d: Disk, t: Name, base: Name, data: Bytes, created: bool, written: bool, linked: bool, collected: bool)
    requires t in d.sets && base != [] && Named(d)
    ensures var k := if !created then 0 else if !written then 1 else if linked || collected then 3 else 2;
            Act(d, OfsCrash.PutFile(t, base, data, created && written && !linked), k) ==
            Created(d, t, base, data, created, written, linked, collected)
  {
    hide Act;
    var k := if !created then 0 else if !written then 1 else if linked || collected then 3 else 2;
    PutOutcome(d, t, base, data, created && written && !linked, k);
  }

  lemma CutIsCopied(d: Disk, s: Name, sbase: Name, t: Name, base: Name, created: bool, copied: bool, linked: bool, collected: bool)
    requires s in d.sets && t in d.sets && sbase in d.sets[s].files && base != [] && Named(d)
    ensures var data := Content(d, s, sbase);
            var written := copied && data.Some?;
            var k := if !created then 0 else if !written then 1 else if linked || collected then 3 else 2;
            Act(d, OfsCrash.CopyFile(s, sbase, t, base, created && copied && !linked), k) ==
            Created(d, t, base, if data.Some? then data.value else [], created, written, linked, collected)
  {
    hide Act;
    var data := Content(d, s, sbase);
    var written := copied && data.Some?;
    var k := if !created then 0 else if !written then 1 else if linked || collected then 3 else 2;
    var fails := created && copied && !linked;
    if data.Some? {
      CopyIsPut(d, s, sbase, t, base, fails, k);
      PutOutcome(d, t, base, data.value, fails, k);
    } else {
      CopyNothing(d, s, sbase, t, base, fails, k);
      PutOutcome(d, t, base, [], fails, k);
    }
  }

  // The first i objects of a list that are marked.
  function Chosen(order: seq<Name>, marks: seq<bool>, i: nat): set<Name>
    requires i <= |order| == |marks|
  {
    set j | 0 <= j < i && marks[j] :: order[j]
  }

  function Both(a: seq<bool>, b: seq<bool>): seq<bool>
    requires |a| == |b|
  {
    seq(|a|, i requires 0 <= i < |a| => a[i] && b[i])
  }

  lemma ChosenNext(order: seq<Name>, marks: seq<bool>, i: nat)
    requires i < |order| == |marks|
    ensures Chosen(order, marks, i + 1) == Chosen(order, marks, i) + if marks[i] then {order[i]} else {}
  {
  }

  lemma NoneChosen(order: seq<Name>, marks: seq<bool>)
    requires |order| == |marks|
    ensures Chosen(order, marks, 0) == {}
  {
  }

  // An operation of three steps, cut after each of them.
  lemma Cut3(d: Disk, a: Action, x: Micro, y: Micro, z: Micro)
    requires Steps(d, a) == [x, y, z]
    ensures Act(d, a, 0) == d && Act(d, a, 1) == Apply(d, x)
    ensures Act(d, a, 2) == Apply(Apply(d, x), y) && Act(d, a, 3) == Apply(Apply(Apply(d, x), y), z)
  {
    hide Apply;
    hide Steps;
    assert [x, y, z][..0] == [] && [x, y, z][..1] == [x] && [x, y, z][..2] == [x, y];
    Run2(d, x, y);
    Run3(d, x, y, z);
  }

  lemma CreateCuts(d: Disk, t: Name, base: Name, write: Micro, linkFails: bool)
    requires t in d.sets && write.Put? && write.obj == ObjectFor(d, t, base)
    ensures var a := OfsCrash.PutFile(t, base, write.data, linkFails);
            var o, x := write.obj, Log(t, Op(TRY_CREATE_OBJ, write.obj, []));
            && Act(d, a, 0) == d && Act(d, a, 1) == Apply(d, x) && Act(d, a, 2) == Apply(Apply(d, x), write)
            && Act(d, a, 3) == Apply(Apply(Apply(d, x), write), if linkFails then Delete(o) else Log(t, Op(LINK, base, o)))
  {
    hide Apply;
    var o := write.obj;
    Cut3(d, OfsCrash.PutFile(t, base, write.data, linkFails), Log(t, Op(TRY_CREATE_OBJ, o, [])), write,
         if linkFails then Delete(o) else Log(t, Op(LINK, base, o)));
  }

  lemma DeleteCuts(d: Disk, t: Name, base: Name)
    requires t in d.sets && base in d.sets[t].files
    ensures var a, o := OfsCrash.DeleteFile(t, base), d.sets[t].files[base];
            var x := Log(t, Op(UNLINK_AND_DEL, base, o));
            && Act(d, a, 0) == d && Act(d, a, 1) == Apply(d, x) && Act(d, a, 2) == Apply(Apply(d, x), Delete(o))
            && Act(d, a, 3) == Apply(Apply(Apply(d, x), Delete(o)), Log(t, Op(OBJ_DELETED, o, [])))
  {
    hide Apply;
    var o := d.sets[t].files[base];
    Cut3(d, OfsCrash.DeleteFile(t, base), Log(t, Op(UNLINK_AND_DEL, base, o)), Delete(o), Log(t, Op(OBJ_DELETED, o, [])));
  }

  lemma RenameCuts(d: Disk, s: Name, sbase: Name, t: Name, base: Name)
    requires s in d.sets && t in d.sets && sbase in d.sets[s].files && base !in d.sets[t].files
    ensures var a, o := OfsCrash.Rename(s, sbase, t, base), d.sets[s].files[sbase];
            var x := Log(t, Op(LINK, base, o));
            && Act(d, a, 0) == d && Act(d, a, 1) == Apply(d, x)
            && Act(d, a, 2) == Apply(Apply(d, x), Log(s, Op(UNLINK, sbase, [])))
  {
    hide Apply;
    var o := d.sets[s].files[sbase];
    var x, y := Log(t, Op(LINK, base, o)), Log(s, Op(UNLINK, sbase, []));
    assert [x, y][..0] == [] && [x, y][..1] == [x];
    Run2(d, x, y);
  }

  lemma CopyCuts(d: Disk, s: Name, sbase: Name, t: Name, base: Name, linkFails: bool)
    requires s in d.sets && t in d.sets && sbase in d.sets[s].files
    ensures var a, o, src := OfsCrash.CopyFile(s, sbase, t, base, linkFails), ObjectFor(d, t, base), d.sets[s].files[sbase];
            var x := Log(t, Op(TRY_CREATE_OBJ, o, []));
            && Act(d, a, 0) == d && Act(d, a, 1) == Apply(d, x)
            && (src in d.store ==>
                && Act(d, a, 2) == Apply(Apply(d, x), Copy(src, o))
                && Act(d, a, 3) == Apply(Apply(Apply(d, x), Copy(src, o)), if linkFails then Delete(o) else Log(t, Op(LINK, base, o))))
  {
    hide Apply;
    var a, o, src := OfsCrash.CopyFile(s, sbase, t, base, linkFails), ObjectFor(d, t, base), d.sets[s].files[sbase];
    var x := Log(t, Op(TRY_CREATE_OBJ, o, []));
    if src in d.store {
      Cut3(d, a, x, Copy(src, o), if linkFails then Delete(o) else Log(t, Op(LINK, base, o)));
    } else {
      assert [x][..0] == [];
      Run2(d, x, x);
    }
  }
}
