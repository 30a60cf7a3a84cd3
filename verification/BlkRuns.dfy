/**
 Files as the sum of the writes made to them.
 */
module BlkRuns {
  import opened Coding
  import opened BlkDb
  import opened BlkStream

  datatype Write = Write(pos: nat, data: Bytes)

  predicate InExtent(w: Write, i: nat) { w.pos <= i < w.pos + |w.data| }

  predicate SameOrApart(a: Write, b: Write) {
    || (a.pos == b.pos && |a.data| == |b.data|)
    || a.pos + |a.data| <= b.pos
    || b.pos + |b.data| <= a.pos
  }

  ghost predicate Proper(w: Write) {
    w.data != [] && w.pos + |w.data| < UINT64
  }

  // Non-empty writes whose extents are pairwise identical or disjoint.
  ghost predicate Laid(ws: seq<Write>) {
    && (forall i :: 0 <= i < |ws| ==> Proper(ws[i]))
    && (forall i, j :: 0 <= i < j < |ws| ==> SameOrApart(ws[i], ws[j]))
  }

  // The byte at an offset of the sparse file: the last write there, or zero.
  function Written(ws: seq<Write>, i: nat): Byte
    decreases |ws|
  {
    if ws == [] then 0
    else
      var w := ws[|ws| - 1];
      if InExtent(w, i) then w.data[i - w.pos] else Written(ws[..|ws| - 1], i)
  }

  function LengthOf(ws: seq<Write>): nat
    decreases |ws|
  {
    if ws == [] then 0 else Max(LengthOf(ws[..|ws| - 1]), ws[|ws| - 1].pos + |ws[|ws| - 1].data|)
  }

  function BlockFor(w: Write): Block
    requires w.pos + |w.data| < UINT64
  {
    Block(LastOf(w.pos, w.data), w.data)
  }

  // What the writes leave in the database.
  function BlocksOf(ws: seq<Write>): seq<Block>
    requires forall i :: 0 <= i < |ws| ==> ws[i].pos + |ws[i].data| < UINT64
    decreases |ws|
  {
    if ws == [] then [] else Insert(BlocksOf(ws[..|ws| - 1]), BlockFor(ws[|ws| - 1]))
  }

  ghost predicate FromWrites(blocks: seq<Block>, ws: seq<Write>) {
    forall k :: 0 <= k < |blocks| ==> FromWrite(blocks[k], ws)
  }

  ghost predicate FromWrite(b: Block, ws: seq<Write>) {
    exists i :: 0 <= i < |ws| && ws[i].pos + |ws[i].data| < UINT64 && b == BlockFor(ws[i])
  }

  lemma WritesFit(blocks: seq<Block>, ws: seq<Write>, w: Write)
    requires FromWrites(blocks, ws) && (forall i :: 0 <= i < |ws| ==> Proper(ws[i]) && SameOrApart(ws[i], w)) && Proper(w)
    ensures Sane(BlockFor(w)) && Fits(blocks, BlockFor(w)) && Start(BlockFor(w)) == w.pos
  {
    hide LastOf;
    hide Start;
    var b := BlockFor(w);
    BlockOf(w.pos, w.data);
    LastIs(w.pos, w.data);
    forall k | 0 <= k < |blocks| && Sane(blocks[k]) && !IsVoid(blocks[k])
      ensures (blocks[k].last == b.last && |blocks[k].data| == |b.data|)
              || (blocks[k].last < Start(b) && blocks[k].last != b.last) || Start(blocks[k]) > b.last
    {
      assert FromWrite(blocks[k], ws);
      var i :| 0 <= i < |ws| && ws[i].pos + |ws[i].data| < UINT64 && blocks[k] == BlockFor(ws[i]);
      BlockOf(ws[i].pos, ws[i].data);
      LastIs(ws[i].pos, ws[i].data);
    }
  }

  lemma FromWritesGrows(blocks: seq<Block>, ws: seq<Write>, w: Write)
    requires InOrder(blocks) && FromWrites(blocks, ws) && w.pos + |w.data| < UINT64
    ensures FromWrites(Insert(blocks, BlockFor(w)), ws + [w])
  {
    hide Insert;
    var r := Insert(blocks, BlockFor(w));
    var c, d := InsertShape(blocks, BlockFor(w));
    assert (ws + [w])[|ws|] == w;
    forall k | 0 <= k < |r| ensures FromWrite(r[k], ws + [w]) {
      if k != c {
        assert FromWrite(blocks[if k < c then k else k - d], ws);
        var i :| 0 <= i < |ws| && ws[i].pos + |ws[i].data| < UINT64 && r[k] == BlockFor(ws[i]);
        assert (ws + [w])[i] == ws[i];
      }
    }
  }

  ghost predicate Refines(blocks: seq<Block>, ws: seq<Write>) {
    && InOrder(blocks) && Apart(blocks) && FromWrites(blocks, ws) && EndsAt(blocks, LengthOf(ws))
    && forall i: nat :: Content(blocks, i) == Written(ws, i)
  }

  lemma WriteRefines(blocks: seq<Block>, ws: seq<Write>, w: Write)
    requires Refines(blocks, ws) && Proper(w) && Laid(ws + [w])
    ensures Refines(Insert(blocks, BlockFor(w)), ws + [w])
  {
    hide Insert;
    hide Content;
    hide Apart;
    hide EndsAt;
    hide LastOf;
    var all := ws + [w];
    assert all[|ws|] == w && all[..|all| - 1] == ws;
    assert forall i :: 0 <= i < |ws| ==> all[i] == ws[i];
    var b := BlockFor(w);
    WritesFit(blocks, ws, w);
    LastIs(w.pos, w.data);
    InsertOrder(blocks, b);
    InsertApart(blocks, b);
    InsertEnds(blocks, b, LengthOf(ws), w.pos + |w.data|);
    FromWritesGrows(blocks, ws, w);
    BlockOf(w.pos, w.data);
    forall i: nat ensures Content(Insert(blocks, b), i) == Written(all, i) {
      WriteContent(blocks, b, i);
    }
  }

  lemma {:induction false} WritesRefine(ws: seq<Write>)
    requires Laid(ws)
    ensures Refines(BlocksOf(ws), ws)
    decreases |ws|
  {
    hide Content;
    if ws == [] {
      NothingWritten();
    } else {
      var init, w := ws[..|ws| - 1], ws[|ws| - 1];
      assert init + [w] == ws;
      WritesRefine(init);
      hide Refines;
      WriteRefines(BlocksOf(init), init, w);
    }
  }

  lemma NothingWritten()
    ensures Refines([], [])
  {
  }

  /** Reading refines a sparse file: after any non-empty writes with pairwise disjoint
      or identical extents, a read delivers exactly the last data written to each byte,
      zeros where nothing was, as much as asked for or up to the end of the file. */
  lemma ReadRefines(ws: seq<Write>, off: nat, size: nat)
    requires Laid(ws) && off < LengthOf(ws)
    ensures var blocks := BlocksOf(ws);
            var r := Fetch(blocks, Seek(blocks, off), off, size);
            && |r| == Min(size, LengthOf(ws) - off)
            && forall k :: 0 <= k < |r| ==> r[k] == Written(ws, off + k)
  {
    hide Content;
    hide Fetch;
    hide Seek;
    hide BlocksOf;
    WritesRefine(ws);
    ReadIs(BlocksOf(ws), off, size, LengthOf(ws));
  }
}
