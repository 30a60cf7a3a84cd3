/**
 An open file stored as blocks: its length, its position and the cursor saved from the
 last read.
 */
module BlkStream {
  import opened Coding
  import opened BlkDb

  // A cursor sees the blocks as they were when it was made.
  datatype Cursor = Cursor(snapshot: seq<Block>, at: nat)

  class Stream {
    var blocks: seq<Block>   // the file's blocks in the database
    var size: nat
    var off: nat             // current position
    var iter: Option<Cursor>
    var failed: bool         // a write did not reach the database

    // The file has an end, and a saved cursor is up to date.
    ghost predicate Valid()
      reads this
    {
      && InOrder(blocks) && EndsAt(blocks, size)
      && (iter.Some? ==> OnBlock(blocks, iter.value))
    }

    // A new file.
    constructor ()
      ensures Valid() && blocks == [] && size == 0 && off == 0 && !failed
      ensures Apart(blocks)
    {
      blocks, size, off, iter, failed := [], 0, 0, None, false;
    }

    /** Write a block. If it has the extent of an existing block or overlaps none, the
        file now holds the data at its offset and is otherwise unchanged. A write that ends
        at or beyond 2^64 is stored under a wrapped key, and the file does not grow to its
        end, so no read can return all of it. */
    method WriteTo(data: Bytes, pos: nat, ok: bool) returns (done: bool)
      requires Valid() && pos < UINT64 && |data| < UINT64
      modifies this
      ensures done == ok && off == old(off)
      ensures !ok ==> Valid() && failed && blocks == old(blocks) && size == old(size)
      ensures ok ==> failed == old(failed) && iter == None && size == Max(old(size), (pos + |data|) % UINT64)
      ensures ok ==> blocks == Insert(old(blocks), Block(LastOf(pos, data), data))
      ensures ok && pos + |data| < UINT64 ==> Valid()
      ensures ok && pos + |data| < UINT64 && Apart(old(blocks)) && Suits(old(blocks), pos, data) ==>
                Apart(blocks) && Overlaid(old(blocks), blocks, pos, data)
      ensures ok && pos + |data| >= UINT64 ==> size < pos + |data|
    {
      hide Content;
      hide Insert;
      hide Apart;
      var end := (pos + |data|) % UINT64;
      var b := Block(LastOf(pos, data), data);
      if !ok {
        failed := true;
        return false;
      }
      if pos + |data| < UINT64 {
        FittingWrite(blocks, pos, data, size);
      }
      blocks := Insert(blocks, b);
      iter := None;
      if end > size {
        size := end;
      }
      return true;
    }

    /** Read from a file whose blocks do not overlap: exactly the bytes of the file, as
        many as asked for or up to its end, with holes as zeros, even if the end of the
        range does not fit 64 bits. A saved cursor makes no difference. */
    method ReadFrom(pos: nat, count: nat) returns (result: Bytes)
      requires Valid() && pos < UINT64 && count < UINT64
      modifies this`iter
      ensures Valid() && iter.Some?
      ensures Apart(blocks) ==> result == File(blocks, pos, if pos < size then Min(count, size - pos) else 0)
    {
      hide Content;
      hide Fetch;
      hide Seek;
      hide Apart;
      hide InOrder;
      hide EndsAt;
      result := [];
      var it := if iter.None? then Cursor(blocks, |blocks|) else iter.value;
      if pos < size {
        var n := if (pos + count) % UINT64 > size then size - pos else count;
        var c := Position(it, pos, size);
        result, c := ReadLoop(it.snapshot, c, pos, n);
        it := it.(at := c);
        if Apart(blocks) {
          ReadIs(blocks, pos, n, size);
        }
      }
      iter := Some(it);
    }

    /** Write at the current position and advance it. */
    method Write(data: Bytes, ok: bool) returns (done: bool)
      requires Valid() && off < UINT64 && |data| < UINT64
      modifies this
      ensures done == (ok && !old(failed))
      ensures !done ==> Valid() && off == old(off) && blocks == old(blocks) && size == old(size)
      ensures done ==> off == (old(off) + |data|) % UINT64 && size == Max(old(size), off)
      ensures old(off) + |data| < UINT64 ==> Valid()
      ensures done && old(off) + |data| < UINT64 && Apart(old(blocks)) && Suits(old(blocks), old(off), data) ==>
                Apart(blocks) && Overlaid(old(blocks), blocks, old(off), data)
    {
      hide Content;
      hide Apart;
      done := false;
      if !failed {
        done := WriteTo(data, off, ok);
        if done {
          off := (off + |data|) % UINT64;
        }
      }
    }

    /** Read at the current position and advance it. */
    method Read(count: nat) returns (result: Bytes)
      requires Valid() && off < UINT64 && count < UINT64
      modifies this
      ensures Valid() && blocks == old(blocks) && size == old(size) && off == old(off) + |result|
      ensures Apart(blocks) ==> result == File(blocks, old(off), if old(off) < size then Min(count, size - old(off)) else 0)
    {
      hide Content;
      hide Apart;
      result := ReadFrom(off, count);
      off := off + |result|;
    }
  }

  ghost predicate OnBlock(blocks: seq<Block>, it: Cursor) {
    it.snapshot == blocks && it.at <= |blocks| && (it.at < |blocks| ==> !IsVoid(blocks[it.at]))
  }

  // The file holds the data at pos and is otherwise unchanged.
  ghost predicate Overlaid(before: seq<Block>, after: seq<Block>, pos: nat, data: Bytes) {
    forall i: nat :: Content(after, i) == (if pos <= i < pos + |data| then data[i - pos] else Content(before, i))
  }

  function Max(a: nat, b: nat): nat { if a < b then b else a }

  // The write overlaps no other extent (or is the empty one at offset 0).
  ghost predicate Suits(blocks: seq<Block>, pos: nat, data: Bytes)
    requires pos + |data| < UINT64
  {
    var b := Block(LastOf(pos, data), data);
    Sane(b) && (IsVoid(b) || Fits(blocks, b))
  }

  lemma FittingWrite(blocks: seq<Block>, pos: nat, data: Bytes, size: nat)
    requires InOrder(blocks) && EndsAt(blocks, size) && pos + |data| < UINT64
    ensures var r := Insert(blocks, Block(LastOf(pos, data), data));
            && InOrder(r) && EndsAt(r, Max(size, pos + |data|)) && (pos + |data|) % UINT64 == pos + |data|
            && (Apart(blocks) && Suits(blocks, pos, data) ==> Apart(r) && Overlaid(blocks, r, pos, data))
  {
    hide Content;
    hide Insert;
    hide Apart;
    var b := Block(LastOf(pos, data), data);
    LastIs(pos, data);
    BlockOf(pos, data);
    InsertOrder(blocks, b);
    InsertEnds(blocks, b, size, pos + |data|);
    if Apart(blocks) && Suits(blocks, pos, data) {
      InsertApart(blocks, b);
      forall i: nat
        ensures Content(Insert(blocks, b), i) == if pos <= i < pos + |data| then data[i - pos] else Content(blocks, i)
      {
        WriteContent(blocks, b, i);
      }
    }
  }

  lemma BlockOf(pos: nat, data: Bytes)
    requires pos + |data| < UINT64
    ensures var b := Block(LastOf(pos, data), data);
            Sane(b) && forall i: nat :: Covers(b, i) <==> pos <= i < pos + |data|
    ensures data != [] ==> Start(Block(LastOf(pos, data), data)) == pos
  {
    var b := Block(LastOf(pos, data), data);
    LastIs(pos, data);
    StartIs(b);
  }

  /** Where a read starts: the saved position if it will do, otherwise a fresh seek. */
  method Position(it: Cursor, pos: nat, size: nat) returns (c: nat)
    requires InOrder(it.snapshot) && EndsAt(it.snapshot, size) && OnOrPast(it) && pos < size
    ensures c <= |it.snapshot| && (c < |it.snapshot| ==> !IsVoid(it.snapshot[c]))
    ensures Apart(it.snapshot) ==> c == Seek(it.snapshot, pos)
  {
    hide Start;
    var r := Reused(it.snapshot, it.at, pos);
    ghost var j :| 0 <= j < |it.snapshot| && it.snapshot[j].last == size - 1;
    if r.Some? {
      c := r.value;
      if c == it.at + 1 {
        NextBlock(it.snapshot, it.at, pos, j);
      }
      if Apart(it.snapshot) {
        ReuseIsSeek(it.snapshot, it.at, pos);
      }
    } else {
      c := Seek(it.snapshot, pos);
    }
  }

  lemma ReadIs(blocks: seq<Block>, pos: nat, n: nat, size: nat)
    requires InOrder(blocks) && Apart(blocks) && EndsAt(blocks, size) && pos < size
    ensures Fetch(blocks, Seek(blocks, pos), pos, n) == File(blocks, pos, Min(n, size - pos))
  {
    FetchIsFile(blocks, Seek(blocks, pos), pos, n, size);
  }

  ghost predicate OnOrPast(it: Cursor) {
    it.at <= |it.snapshot| && (it.at < |it.snapshot| ==> !IsVoid(it.snapshot[it.at]))
  }

  lemma NextBlock(blocks: seq<Block>, at: nat, pos: nat, j: nat)
    requires InOrder(blocks) && j < |blocks| && pos <= blocks[j].last < UINT64 - 1
    requires at < |blocks| && !IsVoid(blocks[at]) && pos == Start(blocks[at]) + |blocks[at].data|
    ensures at + 1 < |blocks| && !IsVoid(blocks[at + 1])
  {
    StartIs(blocks[at]);
    assert at < j;
    assert blocks[at + 1].last <= blocks[j].last;
  }

  /** The read loop. */
  method ReadLoop(blocks: seq<Block>, start: nat, pos: nat, count: nat) returns (out: Bytes, c: nat)
    requires InOrder(blocks) && start <= |blocks| && (start < |blocks| ==> !IsVoid(blocks[start]))
    ensures out == Fetch(blocks, start, pos, count)
    ensures c <= |blocks| && (c < |blocks| ==> !IsVoid(blocks[c]))
  {
    hide Chunk;
    hide Fetch;
    out, c := [], start;
    var off: nat, left: nat := pos, count;
    assert out + Fetch(blocks, c, off, left) == Fetch(blocks, start, pos, count);
    while left != 0 && c < |blocks|
      invariant c <= |blocks| && out + Fetch(blocks, c, off, left) == Fetch(blocks, start, pos, count)
      invariant left == 0 && c < |blocks| ==> !IsVoid(blocks[c])
      decreases left != 0, |blocks| - c
    {
      assert Sane(blocks[c]);
      var chunk := Chunk(blocks[c], off, left);
      VoidChunk(blocks[c], off, left);
      FetchStep(blocks, c, off, left);
      out := out + chunk;
      off, left := off + |chunk|, left - |chunk|;
      if left != 0 {
        c := c + 1;
      }
    }
    FetchEnd(blocks, c, off, left);
  }

  lemma FetchStep(blocks: seq<Block>, c: nat, off: nat, size: nat)
    requires c < |blocks| && size > 0 && Sane(blocks[c])
    ensures var chunk := Chunk(blocks[c], off, size);
            Fetch(blocks, c, off, size) ==
            chunk + if |chunk| == size then Fetch(blocks, c, off + |chunk|, 0)
                    else Fetch(blocks, c + 1, off + |chunk|, size - |chunk|)
  {
    hide Chunk;
  }

  lemma FetchEnd(blocks: seq<Block>, c: nat, off: nat, size: nat)
    requires c <= |blocks| && (size == 0 || c == |blocks|)
    ensures Fetch(blocks, c, off, size) == []
  {
  }

  lemma VoidChunk(b: Block, off: nat, size: nat)
    requires Sane(b)
    ensures IsVoid(b) ==> Chunk(b, off, size) == []
  {
    StartIs(b);
  }
}
