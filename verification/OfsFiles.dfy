/**
 What the file operations do to the files a user sees, and exactly when they do only
 that: objects shared by two names, and objects both mapped and listed as garbage.
 */
module OfsFiles {
  import opened Coding
  import opened OfsLog
  import opened OfsCrash

  function Content(d: Disk, t: Name, n: Name): Option<Bytes> {
    if t in d.sets && n in d.sets[t].files && d.sets[t].files[n] in d.store
    then Some(d.store[d.sets[t].files[n]]) else None
  }

  // All files but (t, base) read the same.
  ghost predicate OthersKept(d: Disk, e: Disk, t: Name, base: Name) {
    forall u, n, o :: Maps(d, u, n, o) && (u, n) != (t, base) ==> Content(e, u, n) == Content(d, u, n)
  }

  // No two names share an object.
  ghost predicate Exclusive(d: Disk) {
    forall t, n, u, m, o :: Maps(d, t, n, o) && Maps(d, u, m, o) ==> (t, n) == (u, m)
  }

  // No mapped object is waiting to be collected.
  ghost predicate Clean(d: Disk) {
    forall t, o :: Discards(d, t, o) ==> !Mapped(d, o)
  }

  lemma Run3(d: Disk, a: Micro, b: Micro, c: Micro)
    ensures Run(d, [a, b, c]) == Apply(Apply(Apply(d, a), b), c)
  {
    hide Apply;
    assert [a, b, c][1..] == [b, c] && [b, c][1..] == [c] && [c][1..] == [];
    assert Run(d, [a, b, c]) == Run(Apply(d, a), [b, c]);
    assert Run(Apply(d, a), [b, c]) == Run(Apply(Apply(d, a), b), [c]);
  }

  lemma Run2(d: Disk, a: Micro, b: Micro)
    ensures Run(d, [a, b]) == Apply(Apply(d, a), b)
    ensures Run(d, [a]) == Apply(d, a)
  {
    hide Apply;
    assert [a, b][1..] == [b] && [b][1..] == [] && [a][1..] == [];
    assert Run(d, [a, b]) == Run(Apply(d, a), [b]);
  }

  // The outcome of a PutFile cut after k steps, in one step.
  lemma PutOutcome(d: Disk, t: Name, base: Name, data: Bytes, linkFails: bool, k: nat)
    requires t in d.sets && base != [] && Named(d)
    ensures var o, s := ObjectFor(d, t, base), d.sets[t];
            Act(d, PutFile(t, base, data, linkFails), k) ==
            if k == 0 then d
            else if k >= 3 && !linkFails then
              Disk(d.sets[t := FsState(s.files[base := o], s.garbage - {o})], d.store[o := data])
            else
              Disk(d.sets[t := FsState(s.files, s.garbage + {o})],
                   if k == 1 then d.store else if k == 2 then d.store[o := data] else d.store - {o})
  {
    var o, s := ObjectFor(d, t, base), d.sets[t];
    ObjectNamed(d, t, base);
    var a, b := Log(t, Op(TRY_CREATE_OBJ, o, [])), Put(o, data);
    var c := if linkFails then Delete(o) else Log(t, Op(LINK, base, o));
    var steps := Steps(d, PutFile(t, base, data, linkFails));
    assert steps == [a, b, c] && steps[..1] == [a] && steps[..2] == [a, b];
    Run3(d, a, b, c);
    Run2(d, a, b);
    assert (s.garbage + {o}) - {o} == s.garbage - {o};
    assert (d.store[o := data]) - {o} == d.store - {o};
  }

  lemma CreateWhole(d: Disk, t: Name, base: Name, data: Bytes)
    requires t in d.sets && base != [] && Named(d)
    ensures var o, s := ObjectFor(d, t, base), d.sets[t];
            Whole(d, PutFile(t, base, data, false)) ==
            Disk(d.sets[t := FsState(s.files[base := o], s.garbage - {o})], d.store[o := data])
  {
    PutOutcome(d, t, base, data, false, 3);
  }

  /** PutFile stores the data under the name. Other files are untouched if and only if
      none of them is kept in the same object with different content. */
  lemma PutEffect(d: Disk, t: Name, base: Name, data: Bytes)
    requires t in d.sets && base != [] && Named(d)
    ensures var e, o := Whole(d, PutFile(t, base, data, false)), ObjectFor(d, t, base);
            && Content(e, t, base) == Some(data)
            && (OthersKept(d, e, t, base) <==>
                forall u, n :: Maps(d, u, n, o) && (u, n) != (t, base) ==> Content(d, u, n) == Some(data))
  {
    hide Run;
    hide CreateSteps;
    var e, o := Whole(d, PutFile(t, base, data, false)), ObjectFor(d, t, base);
    CreateWhole(d, t, base, data);
    forall u, n, p | Maps(d, u, n, p) && (u, n) != (t, base)
      ensures Content(e, u, n) == if p == o then Some(data) else Content(d, u, n)
    {
    }
  }

  /** DeleteFile removes the name. Other files are untouched if and only if none of
      them is kept in the deleted object. */
  lemma DeleteEffect(d: Disk, t: Name, base: Name)
    requires t in d.sets && base in d.sets[t].files && Named(d)
    ensures var e, o := Whole(d, DeleteFile(t, base)), d.sets[t].files[base];
            && e.sets == d.sets[t := FsState(d.sets[t].files - {base}, d.sets[t].garbage - {o})]
            && e.store == d.store - {o}
            && (OthersKept(d, e, t, base) <==>
                forall u, n :: Maps(d, u, n, o) && (u, n) != (t, base) ==> o !in d.store)
  {
    var e, o, s := Whole(d, DeleteFile(t, base)), d.sets[t].files[base], d.sets[t];
    assert Maps(d, t, base, o);
    assert e == Disk(d.sets[t := FsState(s.files - {base}, s.garbage - {o})], d.store - {o}) by {
      Run3(d, Log(t, Op(UNLINK_AND_DEL, base, o)), Delete(o), Log(t, Op(OBJ_DELETED, o, [])));
      assert (s.garbage + {o}) - {o} == s.garbage - {o};
    }
    hide Run;
    forall u, n, p | Maps(d, u, n, p) && (u, n) != (t, base)
      ensures Content(e, u, n) == if p == o then None else Content(d, u, n)
    {
    }
  }

  /** Rename moves the content to the new name, and touches no other file. A crash
      between its two steps leaves both names on one object. */
  lemma RenameEffect(d: Disk, s: Name, sbase: Name, t: Name, base: Name)
    requires s in d.sets && t in d.sets && sbase in d.sets[s].files && base !in d.sets[t].files
    requires Named(d) && base != []
    ensures var e := Whole(d, Rename(s, sbase, t, base));
            && Content(e, t, base) == Content(d, s, sbase)
            && (forall o :: !Maps(e, s, sbase, o))
            && OthersKept(d, e, s, sbase)
    ensures var crashed := Act(d, Rename(s, sbase, t, base), 1);
            Maps(crashed, s, sbase, d.sets[s].files[sbase]) && Maps(crashed, t, base, d.sets[s].files[sbase])
  {
    var o := d.sets[s].files[sbase];
    assert Maps(d, s, sbase, o);
    var a, b := Log(t, Op(LINK, base, o)), Log(s, Op(UNLINK, sbase, []));
    assert [a, b][..1] == [a];
    Run2(d, a, b);
    Run2(d, a, a);
    hide Run;
    var e := Whole(d, Rename(s, sbase, t, base));
    assert Maps(e, t, base, o) && e.store == d.store;
    forall u, n, p | Maps(d, u, n, p) && (u, n) != (s, sbase) ensures Maps(e, u, n, p) {
    }
  }

  /** A whole PutFile keeps names on separate objects if and only if it overwrites a
      file or the object named after the new file is not in use. */
  lemma PutExclusive(d: Disk, t: Name, base: Name, data: Bytes)
    requires t in d.sets && base != [] && Named(d) && Exclusive(d)
    ensures Exclusive(Whole(d, PutFile(t, base, data, false))) <==>
            base in d.sets[t].files || !Mapped(d, ObjName(t, base))
  {
    hide Run;
    hide CreateSteps;
    var e, o := Whole(d, PutFile(t, base, data, false)), ObjectFor(d, t, base);
    CreateWhole(d, t, base, data);
    assert Maps(e, t, base, o);
    if base !in d.sets[t].files && Mapped(d, o) {
      var u, n :| Maps(d, u, n, o);
      assert Maps(e, u, n, o);
    } else {
      forall u, n, v, m, p | Maps(e, u, n, p) && Maps(e, v, m, p) ensures (u, n) == (v, m) {
        MappedBefore(d, t, base, e, u, n, p);
        MappedBefore(d, t, base, e, v, m, p);
      }
    }
  }

  lemma MappedBefore(d: Disk, t: Name, base: Name, e: Disk, u: Name, n: Name, p: Name)
    requires t in d.sets && Exclusive(d) && Maps(e, u, n, p)
    requires e.sets.Keys == d.sets.Keys
    requires forall v :: v in d.sets && v != t ==> e.sets[v].files == d.sets[v].files
    requires e.sets[t].files == d.sets[t].files[base := ObjectFor(d, t, base)]
    ensures Maps(d, u, n, p) || (u == t && n == base && base !in d.sets[t].files && p == ObjName(t, base))
    ensures Maps(d, u, n, p) ==> Mapped(d, p)
  {
  }

  /** Renaming a file away and creating the old name again puts two files in one
      object: the renamed file now reads the new data. */
  lemma RecreateOverwrites(d: Disk, t: Name, a: Name, b: Name, data: Bytes)
    requires t in d.sets && Named(d) && a != [] && b != [] && a != b
    requires a in d.sets[t].files && d.sets[t].files[a] == ObjName(t, a) && b !in d.sets[t].files
    ensures var e := Whole(Whole(d, Rename(t, a, t, b)), PutFile(t, a, data, false));
            Content(e, t, b) == Some(data) && !Exclusive(e)
  {
    var o := ObjName(t, a);
    assert Maps(d, t, a, o);
    ActionLinks(d, Rename(t, a, t, b));
    RunNamed(d, Steps(d, Rename(t, a, t, b)));
    assert Run(d, Steps(d, Rename(t, a, t, b))) == Apply(Apply(d, Log(t, Op(LINK, b, o))), Log(t, Op(UNLINK, a, []))) by {
      Run2(d, Log(t, Op(LINK, b, o)), Log(t, Op(UNLINK, a, [])));
    }
    var m := Whole(d, Rename(t, a, t, b));
    hide Run;
    hide CreateSteps;
    assert a !in m.sets[t].files && m.sets[t].files[b] == o;
    CreateWhole(m, t, a, data);
    var e := Whole(m, PutFile(t, a, data, false));
    assert Maps(e, t, a, o) && Maps(e, t, b, o);
  }

  // ------------------------------------------------------------------
  // Collection
  // ------------------------------------------------------------------

  lemma {:induction false} CollectWhole(d: Disk, t: Name, order: seq<Name>)
    requires t in d.sets && [] !in order
    ensures var e, gone := Run(d, CollectSteps(t, order)), set o | o in order;
            && e.store == d.store - gone
            && e.sets == d.sets[t := d.sets[t].(garbage := d.sets[t].garbage - gone)]
    decreases |order|
  {
    if order == [] {
      var gone := set o | o in order;
      assert gone == {};
      assert d.store - gone == d.store && d.sets[t].garbage - gone == d.sets[t].garbage;
      assert d.sets[t := d.sets[t]] == d.sets;
    } else {
      var g, rest := order[0], order[1..];
      var steps := CollectSteps(t, order);
      var d2 := Apply(Apply(d, Delete(g)), Log(t, Op(OBJ_DELETED, g, [])));
      assert steps[1..][1..] == CollectSteps(t, rest) && steps[1..][0] == steps[1];
      assert Run(d, steps) == Run(Apply(d, steps[0]), steps[1..]);
      CollectWhole(d2, t, rest);
      var gone, gone' := set o | o in order, set o | o in rest;
      assert order == [g] + rest;
      assert gone == {g} + gone';
      assert d.store - gone == (d.store - {g}) - gone';
      assert d.sets[t].garbage - gone == (d.sets[t].garbage - {g}) - gone';
    }
  }

  /** Mounting a set collects its garbage. No file loses its object if and only if
      none of that garbage is a stored object that some file is kept in. */
  lemma MountKeepsFilesIff(d: Disk, t: Name, order: seq<Name>)
    requires t in d.sets && [] !in order && (set o | o in order) == d.sets[t].garbage
    ensures var e := Whole(d, Collect(t, order));
            (forall u, n, o :: Maps(d, u, n, o) && o in d.store ==> Content(e, u, n) == Content(d, u, n))
            <==>
            (forall o :: Discards(d, t, o) && o in d.store ==> !Mapped(d, o))
  {
    hide Run;
    hide CollectSteps;
    var e := Whole(d, Collect(t, order));
    CollectWhole(d, t, order);
    forall u, n, o | Maps(d, u, n, o) && o in d.store
      ensures Content(e, u, n) == if Discards(d, t, o) then None else Content(d, u, n)
    {
    }
  }

  lemma TriedClean(d: Disk, t: Name, o: Name, e: Disk)
    requires t in d.sets && Clean(d)
    requires e.sets == d.sets[t := d.sets[t].(garbage := d.sets[t].garbage + {o})]
    ensures Clean(e) <==> !Mapped(d, o)
  {
    forall u, n, p ensures Maps(e, u, n, p) <==> Maps(d, u, n, p) {
    }
    forall p ensures Mapped(e, p) <==> Mapped(d, p) {
    }
    assert Discards(e, t, o);
    forall u, p ensures Discards(e, u, p) <==> Discards(d, u, p) || (u == t && p == o) {
    }
  }

  lemma LinkedClean(d: Disk, t: Name, base: Name, e: Disk)
    requires t in d.sets && Clean(d)
    requires var o, s := ObjectFor(d, t, base), d.sets[t];
             e.sets == d.sets[t := FsState(s.files[base := o], s.garbage - {o})]
    ensures Clean(e) <==> forall u :: Discards(d, u, ObjectFor(d, t, base)) ==> u == t
  {
    var o := ObjectFor(d, t, base);
    assert Maps(e, t, base, o) && Mapped(e, o);
    forall u, p ensures Discards(e, u, p) <==> Discards(d, u, p) && !(u == t && p == o) {
    }
    forall p | p != o && Mapped(e, p) ensures Mapped(d, p) {
      var u, n :| Maps(e, u, n, p);
      assert Maps(d, u, n, p);
    }
  }

  /** PutFile cut after k steps, with or without its link failing, leaves a state that
      is safe to mount if and only if nothing was done yet; or the object is not linked
      and no file was kept in it before; or it is linked and no other set lists it as
      garbage. So a crash or a failed link while a file is being overwritten makes the
      next mount delete the file. */
  lemma PutCrashIff(d: Disk, t: Name, base: Name, data: Bytes, linkFails: bool, k: nat)
    requires t in d.sets && base != [] && Named(d) && Clean(d)
    ensures var o := ObjectFor(d, t, base);
            Clean(Act(d, PutFile(t, base, data, linkFails), k)) <==>
            || k == 0
            || ((k <= 2 || linkFails) && !Mapped(d, o))
            || (k >= 3 && !linkFails && forall u :: Discards(d, u, o) ==> u == t)
  {
    hide Act;
    var e := Act(d, PutFile(t, base, data, linkFails), k);
    PutOutcome(d, t, base, data, linkFails, k);
    if k >= 3 && !linkFails {
      LinkedClean(d, t, base, e);
    } else if k > 0 {
      TriedClean(d, t, ObjectFor(d, t, base), e);
    }
  }

  /** What each file reads after a PutFile cut after k steps: files in other objects as
      before, those in the written object the new data from the second step on, or
      nothing once the object is deleted because its link failed. */
  lemma PutContent(d: Disk, t: Name, base: Name, data: Bytes, linkFails: bool, k: nat, u: Name, n: Name, p: Name)
    requires t in d.sets && base != [] && Named(d) && Maps(d, u, n, p)
    ensures var e, o := Act(d, PutFile(t, base, data, linkFails), k), ObjectFor(d, t, base);
            && Maps(e, u, n, p)
            && Content(e, u, n) ==
               if p != o || k <= 1 then Content(d, u, n) else if k >= 3 && linkFails then None else Some(data)
  {
    hide Act;
    PutOutcome(d, t, base, data, linkFails, k);
  }

  // All files read the same.
  ghost predicate AllKept(d: Disk, e: Disk) {
    forall u, n, o :: Maps(d, u, n, o) ==> Content(e, u, n) == Content(d, u, n)
  }

  /** Deleting the object after a failed link is harmless to all files if and only if
      the object was new, or at least no file was kept in it. Otherwise the old content is
      gone although the operation only reported an error. */
  lemma FailedLinkIff(d: Disk, t: Name, base: Name, data: Bytes)
    requires t in d.sets && base != [] && Named(d)
    ensures var e, o := Whole(d, PutFile(t, base, data, true)), ObjectFor(d, t, base);
            && (AllKept(d, e) <==> (o in d.store ==> !Mapped(d, o)))
            && (base in d.sets[t].files ==> Content(e, t, base) == None && !Clean(e))
  {
    hide Act;
    hide Whole;
    var e, o := Act(d, PutFile(t, base, data, true), 3), ObjectFor(d, t, base);
    WholeIsAct(d, PutFile(t, base, data, true), 3);
    forall u, n, p | Maps(d, u, n, p)
      ensures Content(e, u, n) == if p == o then None else Content(d, u, n)
    {
      PutContent(d, t, base, data, true, 3, u, n, p);
    }
    if base in d.sets[t].files {
      PutContent(d, t, base, data, true, 3, t, base, o);
      PutOutcome(d, t, base, data, true, 3);
      assert Maps(e, t, base, o) && Discards(e, t, o);
    }
  }

  lemma WholeIsAct(d: Disk, a: Action, k: nat)
    requires k >= |Steps(d, a)|
    ensures Act(d, a, k) == Whole(d, a)
  {
  }

  // ------------------------------------------------------------------
  // CopyFile
  // ------------------------------------------------------------------

  // Copying is putting what the source file holds, step by step.
  lemma CopyIsPut(d: Disk, s: Name, sbase: Name, t: Name, base: Name, linkFails: bool, k: nat)
    requires s in d.sets && t in d.sets && Content(d, s, sbase).Some?
    ensures Act(d, CopyFile(s, sbase, t, base, linkFails), k) ==
            Act(d, PutFile(t, base, Content(d, s, sbase).value, linkFails), k)
  {
    var src, o := d.sets[s].files[sbase], ObjectFor(d, t, base);
    var a, c := Log(t, Op(TRY_CREATE_OBJ, o, [])), if linkFails then Delete(o) else Log(t, Op(LINK, base, o));
    var copy, put := Copy(src, o), Put(o, d.store[src]);
    assert Apply(Apply(d, a), copy) == Apply(Apply(d, a), put);
    Run3(d, a, copy, c);
    Run3(d, a, put, c);
    Run2(d, a, copy);
    Run2(d, a, put);
    assert [a, copy, c][..1] == [a] == [a, put, c][..1] && [a, copy, c][..0] == [] == [a, put, c][..0];
    assert [a, copy, c][..2] == [a, copy] && [a, put, c][..2] == [a, put];
  }

  // If the source has no object the copy fails after its first step.
  lemma CopyNothing(d: Disk, s: Name, sbase: Name, t: Name, base: Name, linkFails: bool, k: nat)
    requires s in d.sets && t in d.sets && sbase in d.sets[s].files && Content(d, s, sbase).None?
    requires base != [] && Named(d)
    ensures Act(d, CopyFile(s, sbase, t, base, linkFails), k) ==
            Act(d, PutFile(t, base, [], linkFails), if k == 0 then 0 else 1)
  {
    var o := ObjectFor(d, t, base);
    var a := Log(t, Op(TRY_CREATE_OBJ, o, []));
    var steps := Steps(d, PutFile(t, base, [], linkFails));
    assert Steps(d, CopyFile(s, sbase, t, base, linkFails)) == [a];
    assert steps[..1] == [a] && [a][..0] == [] == steps[..0];
  }

  /** A whole CopyFile makes the target read what the source reads, and leaves the other
      files alone if and only if those in the target's object hold the same already. */
  lemma CopyEffect(d: Disk, s: Name, sbase: Name, t: Name, base: Name)
    requires s in d.sets && t in d.sets && Content(d, s, sbase).Some? && base != [] && Named(d)
    ensures var e, o := Whole(d, CopyFile(s, sbase, t, base, false)), ObjectFor(d, t, base);
            && Content(e, t, base) == Content(d, s, sbase)
            && (OthersKept(d, e, t, base) <==>
                forall u, n :: Maps(d, u, n, o) && (u, n) != (t, base) ==> Content(d, u, n) == Content(d, s, sbase))
  {
    hide Act;
    hide Whole;
    CopyIsPut(d, s, sbase, t, base, false, 3);
    WholeIsAct(d, CopyFile(s, sbase, t, base, false), 3);
    WholeIsAct(d, PutFile(t, base, Content(d, s, sbase).value, false), 3);
    PutEffect(d, t, base, Content(d, s, sbase).value);
  }

  /** CopyFile cut after k steps is safe to mount under the conditions of PutFile; a copy
      whose source has no object never gets past its first step. */
  lemma CopyCrashIff(d: Disk, s: Name, sbase: Name, t: Name, base: Name, linkFails: bool, k: nat)
    requires s in d.sets && t in d.sets && sbase in d.sets[s].files
    requires base != [] && Named(d) && Clean(d)
    ensures var o, stored := ObjectFor(d, t, base), Content(d, s, sbase).Some?;
            Clean(Act(d, CopyFile(s, sbase, t, base, linkFails), k)) <==>
            || k == 0
            || ((k <= 2 || linkFails || !stored) && !Mapped(d, o))
            || (k >= 3 && !linkFails && stored && forall u :: Discards(d, u, o) ==> u == t)
  {
    hide Act;
    hide Clean;
    if Content(d, s, sbase).Some? {
      CopyIsPut(d, s, sbase, t, base, linkFails, k);
      PutCrashIff(d, t, base, Content(d, s, sbase).value, linkFails, k);
    } else {
      CopyNothing(d, s, sbase, t, base, linkFails, k);
      PutCrashIff(d, t, base, [], linkFails, if k == 0 then 0 else 1);
    }
  }

  /** A copy whose link failed leaves all files alone if and only if the target's object
      was new or held no file. So a failed copy over a file destroys that file. */
  lemma FailedCopyIff(d: Disk, s: Name, sbase: Name, t: Name, base: Name)
    requires s in d.sets && t in d.sets && Content(d, s, sbase).Some? && base != [] && Named(d)
    ensures var e, o := Whole(d, CopyFile(s, sbase, t, base, true)), ObjectFor(d, t, base);
            && (AllKept(d, e) <==> (o in d.store ==> !Mapped(d, o)))
            && (base in d.sets[t].files ==> Content(e, t, base) == None && !Clean(e))
  {
    hide Act;
    hide Whole;
    hide Clean;
    hide AllKept;
    CopyIsPut(d, s, sbase, t, base, true, 3);
    WholeIsAct(d, CopyFile(s, sbase, t, base, true), 3);
    WholeIsAct(d, PutFile(t, base, Content(d, s, sbase).value, true), 3);
    FailedLinkIff(d, t, base, Content(d, s, sbase).value);
  }

  // ------------------------------------------------------------------
  // The other operations cut short
  // ------------------------------------------------------------------

  /** DeleteFile cut after k steps is safe to mount if and only if it has not begun, has
      run to its end, or no other name shares the object. */
  lemma DeleteCrashIff(d: Disk, t: Name, base: Name, k: nat)
    requires t in d.sets && base in d.sets[t].files && Named(d) && Clean(d)
    ensures Clean(Act(d, DeleteFile(t, base), k)) <==>
            || k == 0 || k >= 3
            || forall u, n :: Maps(d, u, n, d.sets[t].files[base]) ==> (u, n) == (t, base)
  {
    var o, e := d.sets[t].files[base], Act(d, DeleteFile(t, base), k);
    assert Maps(d, t, base, o);
    DeleteOutcome(d, t, base, k);
    forall u, n, p ensures k > 0 ==> (Maps(e, u, n, p) <==> Maps(d, u, n, p) && (u, n) != (t, base)) {
    }
    forall u, p
      ensures k > 0 ==> (Discards(e, u, p) <==> if u == t && p == o then k <= 2 else Discards(d, u, p))
    {
    }
    if 1 <= k <= 2 {
      assert Discards(e, t, o);
    }
  }

  lemma DeleteOutcome(d: Disk, t: Name, base: Name, k: nat)
    requires t in d.sets && base in d.sets[t].files && Named(d)
    ensures var o, s := d.sets[t].files[base], d.sets[t];
            Act(d, DeleteFile(t, base), k).sets ==
            if k == 0 then d.sets
            else d.sets[t := FsState(s.files - {base}, if k <= 2 then s.garbage + {o} else s.garbage - {o})]
  {
    var o, s := d.sets[t].files[base], d.sets[t];
    assert Maps(d, t, base, o);
    var a, b, c := Log(t, Op(UNLINK_AND_DEL, base, o)), Delete(o), Log(t, Op(OBJ_DELETED, o, []));
    assert [a, b, c][..1] == [a] && [a, b, c][..2] == [a, b];
    Run3(d, a, b, c);
    Run2(d, a, b);
    assert (s.garbage + {o}) - {o} == s.garbage - {o};
  }

  // Rename is safe to mount at every cut.
  lemma RenameCrash(d: Disk, s: Name, sbase: Name, t: Name, base: Name, k: nat)
    requires s in d.sets && t in d.sets && sbase in d.sets[s].files && base !in d.sets[t].files
    requires Named(d) && base != [] && Clean(d)
    ensures Clean(Act(d, Rename(s, sbase, t, base), k))
  {
    var o, e := d.sets[s].files[sbase], Act(d, Rename(s, sbase, t, base), k);
    assert Maps(d, s, sbase, o) && Mapped(d, o);
    var a, b := Log(t, Op(LINK, base, o)), Log(s, Op(UNLINK, sbase, []));
    assert [a, b][..1] == [a] && [a, b][..0] == [];
    Run2(d, a, b);
    forall p | Mapped(e, p) ensures Mapped(d, p) {
      var u, n :| Maps(e, u, n, p);
      assert p != o ==> Maps(d, u, n, p);
    }
    forall u, p ensures Discards(e, u, p) ==> Discards(d, u, p) {
    }
  }

  /** A link that was logged but reported as failed, because the log could not be synced, is
      not in memory. If another file is then renamed to that name, the put object stays
      known if and only if some other file or some other set knew it before. */
  lemma UnnoticedLinkIff(d: Disk, t: Name, base: Name, data: Bytes, s: Name, sbase: Name)
    requires s in d.sets && t in d.sets && sbase in d.sets[s].files && base !in d.sets[t].files
    requires NoOrphans(d) && Named(d) && base != []
    ensures var e, o := Run(Whole(d, PutFile(t, base, data, false)), Steps(d, Rename(s, sbase, t, base))), ObjName(t, base);
            NoOrphans(e) <==> Mapped(d, o) || exists u :: u != t && Discards(d, u, o)
  {
    hide Run;
    hide Whole;
    hide Replaced;
    hide Known;
    var o := ObjName(t, base);
    var e := Run(Whole(d, PutFile(t, base, data, false)), Steps(d, Rename(s, sbase, t, base)));
    RenamedOver(d, t, base, data, s, sbase);
    forall p | p in d.store && p != o ensures Known(e, p) {
      KnownOver(d, e, t, base, s, sbase, p);
    }
    TargetKnown(d, e, t, base, s, sbase);
  }

  lemma KnownOver(d: Disk, e: Disk, t: Name, base: Name, s: Name, sbase: Name, p: Name)
    requires s in d.sets && t in d.sets && sbase in d.sets[s].files && base !in d.sets[t].files
    requires Replaced(d, e, t, base, s, sbase) && Known(d, p) && p != ObjName(t, base)
    ensures Known(e, p)
  {
    if p == d.sets[s].files[sbase] {
      assert Maps(e, t, base, p);
    } else if Mapped(d, p) {
      var u, n :| Maps(d, u, n, p);
      assert Maps(e, u, n, p);
    } else {
      var u :| Discards(d, u, p);
      assert Discards(e, u, p);
    }
  }

  lemma TargetKnown(d: Disk, e: Disk, t: Name, base: Name, s: Name, sbase: Name)
    requires s in d.sets && t in d.sets && sbase in d.sets[s].files && base !in d.sets[t].files
    requires Replaced(d, e, t, base, s, sbase)
    ensures var o := ObjName(t, base);
            Known(e, o) <==> Mapped(d, o) || exists u :: u != t && Discards(d, u, o)
  {
    var o := ObjName(t, base);
    if Mapped(d, o) {
      var u, n :| Maps(d, u, n, o);
      assert (u, n) == (s, sbase) ==> Maps(e, t, base, o);
      assert (u, n) != (s, sbase) ==> Maps(e, u, n, o);
    } else if u :| u != t && Discards(d, u, o) {
      assert Discards(e, u, o);
    } else {
      assert o != d.sets[s].files[sbase] by {
        assert Maps(d, s, sbase, d.sets[s].files[sbase]);
      }
      forall u, n ensures !Maps(e, u, n, o) {
        assert !Maps(d, u, n, o);
      }
      forall u ensures !Discards(e, u, o) {
        assert u != t ==> !Discards(d, u, o);
      }
    }
  }

  // The two operations in one step.
  lemma RenamedOver(d: Disk, t: Name, base: Name, data: Bytes, s: Name, sbase: Name)
    requires s in d.sets && t in d.sets && sbase in d.sets[s].files && base !in d.sets[t].files
    requires Named(d) && base != []
    ensures var e := Run(Whole(d, PutFile(t, base, data, false)), Steps(d, Rename(s, sbase, t, base)));
            && e.store == d.store[ObjName(t, base) := data]
            && Replaced(d, e, t, base, s, sbase)
  {
    hide Run;
    hide Whole;
    hide Apply;
    var o2 := d.sets[s].files[sbase];
    var d1 := Whole(d, PutFile(t, base, data, false));
    assert Maps(d, s, sbase, o2);
    CreateWhole(d, t, base, data);
    Run2(d1, Log(t, Op(LINK, base, o2)), Log(s, Op(UNLINK, sbase, [])));
    Relinked(d1, t, base, s, sbase, o2);
  }

  lemma Relinked(d: Disk, t: Name, base: Name, s: Name, sbase: Name, o: Name)
    requires s in d.sets && t in d.sets && base != [] && sbase != [] && o != []
    ensures var e := Apply(Apply(d, Log(t, Op(LINK, base, o))), Log(s, Op(UNLINK, sbase, [])));
            && e.store == d.store
            && (forall u, n, p :: Maps(e, u, n, p) <==>
                  (u, n) != (s, sbase) && if (u, n) == (t, base) then p == o else Maps(d, u, n, p))
            && (forall u, p :: Discards(e, u, p) <==> Discards(d, u, p) && !(u == t && p == o))
  {
  }

  // Who maps and who discards what after that.
  ghost predicate Replaced(d: Disk, e: Disk, t: Name, base: Name, s: Name, sbase: Name)
    requires s in d.sets && sbase in d.sets[s].files
  {
    var o, o2 := ObjName(t, base), d.sets[s].files[sbase];
    && (forall u, n, p :: Maps(e, u, n, p) <==>
          if (u, n) == (t, base) then p == o2 else Maps(d, u, n, p) && (u, n) != (s, sbase))
    && (forall u, p :: Discards(e, u, p) <==> Discards(d, u, p) && !(u == t && (p == o || p == o2)))
  }

  // ------------------------------------------------------------------
  // Names of objects
  // ------------------------------------------------------------------

  // The objects that hold the logs of a set.
  function LogName(fset: Name, first: bool): Name {
    fset + [95, if first then 49 else 50]
  }

  /** The object of a new file is a log of some set, and putting the file destroys that log,
      if and only if the file is called "1" or "2", or ends in "_1" or "_2" and what is before
      that makes the name of the other set. */
  lemma LogNameIff(t: Name, base: Name, u: Name, first: bool)
    requires base != []
    ensures var d: Byte := if first then 49 else 50;
            ObjName(t, base) == LogName(u, first) <==>
            || (t == u && base == [d])
            || (|base| >= 2 && base[|base| - 2..] == [95, d] && u == t + [95] + base[..|base| - 2])
  {
    var d: Byte := if first then 49 else 50;
    var o, l, n := ObjName(t, base), LogName(u, first), |base|;
    assert o == (t + [95] + base[..n - 1]) + [base[n - 1]] && l == (u + [95]) + [d];
    if n == 1 {
      assert base[..0] == [] && base == [base[0]];
      LastOfTwo(t + [95], base[0], u + [95], d);
      LastOfTwo(t, 95, u, 95);
    } else {
      assert base[..n - 1] == base[..n - 2] + [base[n - 2]];
      assert base[n - 2..] == [base[n - 2], base[n - 1]];
      assert t + [95] + base[..n - 1] == (t + [95] + base[..n - 2]) + [base[n - 2]];
      LastOfTwo(t + [95] + base[..n - 1], base[n - 1], u + [95], d);
      LastOfTwo(t + [95] + base[..n - 2], base[n - 2], u, 95);
    }
  }

  lemma LastOfTwo(a: Name, x: Byte, b: Name, y: Byte)
    ensures a + [x] == b + [y] <==> a == b && x == y
  {
    if a + [x] == b + [y] {
      assert a == (a + [x])[..|a|] && b == (b + [y])[..|b|];
    }
  }

  // Deleting a file set removes its logs, once it has no files.
  function Forget(d: Disk, t: Name): Disk {
    if t in d.sets && d.sets[t].files == map[] then d.(sets := d.sets - {t}) else d
  }

  /** Deleting an empty file set keeps track of all objects if and only if everything
      it still lists as garbage has really been deleted or is known to another set. */
  lemma ForgetIff(d: Disk, t: Name)
    requires NoOrphans(d) && t in d.sets && d.sets[t].files == map[]
    ensures NoOrphans(Forget(d, t)) <==>
            forall o :: Discards(d, t, o) && o in d.store ==> Mapped(d, o) || exists u :: u != t && Discards(d, u, o)
  {
    var e := Forget(d, t);
    forall o ensures Mapped(e, o) <==> Mapped(d, o) {
      if Mapped(d, o) {
        var u, n :| Maps(d, u, n, o);
        assert Maps(e, u, n, o);
      }
      if Mapped(e, o) {
        var u, n :| Maps(e, u, n, o);
        assert Maps(d, u, n, o);
      }
    }
    forall u, o ensures Discards(e, u, o) <==> u != t && Discards(d, u, o) {
    }
    if NoOrphans(e) {
      forall o | Discards(d, t, o) && o in d.store ensures Mapped(d, o) || exists u :: u != t && Discards(d, u, o) {
        assert Known(e, o);
      }
    }
  }
}
