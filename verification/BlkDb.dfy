/**
 Files stored as blocks in an ordered database, keyed by their last offset: how a
 read walks over the blocks, and when that is reading the file.
 */
module BlkDb {
  import opened Coding

  // The block's last byte is at offset last (for an empty block, at the offset before).
  datatype Block = Block(last: nat, data: Bytes)

  // 64-bit arithmetic: an empty write at offset 0 is stored under the largest key.
  function LastOf(off: nat, data: Bytes): (l: nat)
    ensures l < UINT64
  {
    (off + |data| + UINT64 - 1) % UINT64
  }

  // The offset of the first byte, as read back from the key.
  function Start(b: Block): (off: nat)
    requires b.last < UINT64 && |b.data| < UINT64
  {
    (b.last + UINT64 - |b.data| + 1) % UINT64
  }

  // The block of an empty write at offset 0.
  predicate IsVoid(b: Block) { b == Block(UINT64 - 1, []) }

  // What writes can produce.
  predicate Sane(b: Block) {
    (b.last < UINT64 - 1 && |b.data| <= b.last + 1) || IsVoid(b)
  }

  lemma StartIs(b: Block)
    requires Sane(b)
    ensures Start(b) == if IsVoid(b) then 0 else b.last + 1 - |b.data|
  {
    if |b.data| == 0 && b.last == UINT64 - 1 {
    } else if b.last + 1 - |b.data| < UINT64 {
      ModOnce(b.last + 1 - |b.data|);
    }
  }

  lemma ModOnce(x: nat)
    requires x < UINT64
    ensures (x + UINT64) % UINT64 == x
  {
  }

  lemma LastIs(off: nat, data: Bytes)
    requires off + |data| < UINT64
    ensures LastOf(off, data) == if off + |data| == 0 then UINT64 - 1 else off + |data| - 1
  {
    if off + |data| > 0 {
      ModOnce(off + |data| - 1);
    }
  }

  // ------------------------------------------------------------------
  // The database
  // ------------------------------------------------------------------

  ghost predicate InOrder(blocks: seq<Block>) {
    && (forall i :: 0 <= i < |blocks| ==> Sane(blocks[i]))
    && (forall i, j :: 0 <= i < j < |blocks| ==> blocks[i].last < blocks[j].last)
  }

  // The first block whose key is at least key.
  function Seek(blocks: seq<Block>, key: nat): (c: nat)
    ensures c <= |blocks|
    ensures forall i :: 0 <= i < c ==> blocks[i].last < key
    ensures c < |blocks| ==> blocks[c].last >= key
  {
    if blocks == [] || blocks[0].last >= key then 0
    else
      assert forall i :: 0 < i < |blocks| ==> blocks[i] == blocks[1..][i - 1];
      1 + Seek(blocks[1..], key)
  }

  function Insert(blocks: seq<Block>, b: Block): seq<Block> {
    var c := Seek(blocks, b.last);
    if c < |blocks| && blocks[c].last == b.last then blocks[c := b]
    else blocks[..c] + [b] + blocks[c..]
  }

  // Where the new block is; only a block with the same key made way for it.
  lemma InsertShape(blocks: seq<Block>, b: Block) returns (c: nat, d: nat)
    requires InOrder(blocks)
    ensures var r := Insert(blocks, b);
            && d <= 1 && |r| == |blocks| + d && c < |r| && r[c] == b
            && (forall i :: 0 <= i < c ==> r[i] == blocks[i] && r[i].last < b.last)
            && (forall i :: c < i < |r| ==> r[i] == blocks[i - d] && r[i].last > b.last)
            && (d == 0 ==> blocks[c].last == b.last)
            && (forall i :: 0 <= i < |blocks| && blocks[i].last > b.last ==> i + d > c)
            && (forall i :: 0 <= i < |blocks| && blocks[i].last < b.last ==> i < c)
  {
    hide Seek;
    c := Seek(blocks, b.last);
    d := |Insert(blocks, b)| - |blocks|;
  }

  lemma InsertOrder(blocks: seq<Block>, b: Block)
    requires InOrder(blocks) && Sane(b)
    ensures InOrder(Insert(blocks, b))
  {
    hide Insert;
    var c, d := InsertShape(blocks, b);
    var r := Insert(blocks, b);
    forall i | 0 <= i < |r| ensures Sane(r[i]) {
      assert i < c ==> r[i] == blocks[i];
      assert i > c ==> r[i] == blocks[i - d];
    }
    forall i, j | 0 <= i < j < |r| ensures r[i].last < r[j].last {
      assert i < c ==> r[i] == blocks[i];
      assert j > c ==> r[j] == blocks[j - d];
      assert j < c ==> r[j] == blocks[j];
      assert i > c ==> r[i] == blocks[i - d];
    }
  }

  // ------------------------------------------------------------------
  // What the file holds
  // ------------------------------------------------------------------

  predicate Covers(b: Block, i: nat) {
    b.last < UINT64 && |b.data| < UINT64 && Start(b) <= i < Start(b) + |b.data|
  }

  // The byte at an offset; what was never written reads as zero.
  function Content(blocks: seq<Block>, i: nat): Byte
    decreases |blocks|
  {
    if blocks == [] then 0
    else if Covers(blocks[0], i) then blocks[0].data[i - Start(blocks[0])]
    else Content(blocks[1..], i)
  }

  function File(blocks: seq<Block>, off: nat, n: nat): Bytes {
    seq<Byte>(n, k requires 0 <= k < n => Content(blocks, off + k))
  }

  // No block starts at or before the key of an earlier one.
  ghost predicate Apart(blocks: seq<Block>) {
    forall i, j :: 0 <= i < j < |blocks| && Sane(blocks[j]) && !IsVoid(blocks[j]) ==> blocks[i].last < Start(blocks[j])
  }

  // ------------------------------------------------------------------
  // Reading
  // ------------------------------------------------------------------

  // What one round of the read loop delivers: zeros up to the block, then its bytes.
  function Chunk(b: Block, off: nat, size: nat): (r: Bytes)
    requires Sane(b)
    ensures |r| <= size
  {
    var start, end := Start(b), Start(b) + |b.data|;
    var hole := if off < start then Min(size, start - off) else 0;
    var take := if off + hole < end then Min(size - hole, end - (off + hole)) else 0;
    Zeros(hole) + if take > 0 then b.data[off + hole - start..off + hole - start + take] else []
  }

  // What the loop delivers from block c on. Bad blocks are skipped.
  function Fetch(blocks: seq<Block>, c: nat, off: nat, size: nat): Bytes
    requires c <= |blocks|
    decreases |blocks| - c
  {
    if size == 0 || c == |blocks| then []
    else if !Sane(blocks[c]) then Fetch(blocks, c + 1, off, size)
    else
      var chunk := Chunk(blocks[c], off, size);
      chunk + Fetch(blocks, c + 1, off + |chunk|, size - |chunk|)
  }

  function Min(a: nat, b: nat): nat { if a < b then a else b }

  lemma {:induction false} ContentFirst(blocks: seq<Block>, i: nat, j: nat)
    requires j < |blocks| && Covers(blocks[j], i) && forall k :: 0 <= k < j ==> !Covers(blocks[k], i)
    ensures Content(blocks, i) == blocks[j].data[i - Start(blocks[j])]
    decreases j
  {
    hide Start;
    if j == 0 {
    } else {
      assert !Covers(blocks[0], i);
      ContentFirst(blocks[1..], i, j - 1);
    }
  }

  lemma {:induction false} ContentNone(blocks: seq<Block>, i: nat)
    requires forall k :: 0 <= k < |blocks| ==> !Covers(blocks[k], i)
    ensures Content(blocks, i) == 0
    decreases |blocks|
  {
    hide Covers;
    if blocks == [] {
    } else {
      assert !Covers(blocks[0], i);
      ContentNone(blocks[1..], i);
    }
  }

  // Every offset below c's blocks is behind us.
  ghost predicate Passed(blocks: seq<Block>, c: nat, off: nat) {
    && c <= |blocks|
    && (forall i :: 0 <= i < c ==> blocks[i].last < off || IsVoid(blocks[i]))
    && (c < |blocks| ==> blocks[c].last >= off)
  }

  // The file ends with some block; none but the void one goes beyond.
  ghost predicate EndsAt(blocks: seq<Block>, len: nat) {
    && len < UINT64
    && (len > 0 ==> exists j :: 0 <= j < |blocks| && blocks[j].last == len - 1)
    && (forall j :: 0 <= j < |blocks| ==> blocks[j].last < len || IsVoid(blocks[j]))
  }

  lemma NotCovered(blocks: seq<Block>, c: nat, off: nat, i: nat)
    requires InOrder(blocks) && Apart(blocks) && Passed(blocks, c, off) && i >= off
    requires c < |blocks| ==> i < Start(blocks[c]) || IsVoid(blocks[c])
    ensures Content(blocks, i) == 0
  {
    forall k | 0 <= k < |blocks| ensures !Covers(blocks[k], i) {
      StartIs(blocks[k]);
      if k > c { StartIs(blocks[c]); }
    }
    ContentNone(blocks, i);
  }

  lemma CoveredBy(blocks: seq<Block>, c: nat, off: nat, i: nat)
    requires InOrder(blocks) && Passed(blocks, c, off) && i >= off && c < |blocks| && Covers(blocks[c], i)
    ensures Content(blocks, i) == blocks[c].data[i - Start(blocks[c])]
  {
    forall k | 0 <= k < c ensures !Covers(blocks[k], i) {
      StartIs(blocks[k]);
    }
    ContentFirst(blocks, i, c);
  }

  lemma ChunkLength(b: Block, off: nat, size: nat)
    requires Sane(b) && b.last >= off
    ensures |Chunk(b, off, size)| == if IsVoid(b) then 0 else Min(size, b.last + 1 - off)
  {
    StartIs(b);
    hide Start;
  }

  lemma ChunkAt(b: Block, off: nat, size: nat, k: nat)
    requires Sane(b) && k < |Chunk(b, off, size)|
    ensures off + k >= Start(b) ==> Covers(b, off + k) && Chunk(b, off, size)[k] == b.data[off + k - Start(b)]
    ensures off + k < Start(b) ==> Chunk(b, off, size)[k] == 0
  {
    hide Start;
  }

  /** One round of the loop delivers a piece of the file. */
  lemma ChunkIsFile(blocks: seq<Block>, c: nat, off: nat, size: nat)
    requires InOrder(blocks) && Apart(blocks) && Passed(blocks, c, off) && c < |blocks|
    ensures var r := Chunk(blocks[c], off, size); r == File(blocks, off, |r|)
  {
    hide Start;
    hide Chunk;
    hide Content;
    var b := blocks[c];
    var r := Chunk(b, off, size);
    forall k | 0 <= k < |r| ensures r[k] == Content(blocks, off + k) {
      ChunkAt(b, off, size, k);
      if off + k >= Start(b) {
        CoveredBy(blocks, c, off, off + k);
      } else {
        NotCovered(blocks, c, off, off + k);
      }
    }
  }

  lemma PassedNext(blocks: seq<Block>, c: nat, off: nat, size: nat, len: nat)
    requires InOrder(blocks) && Passed(blocks, c, off) && c < |blocks| && EndsAt(blocks, len) && off <= len
    ensures var n := |Chunk(blocks[c], off, size)|;
            n == size || (Passed(blocks, c + 1, off + n) && off + n <= len)
  {
    ChunkLength(blocks[c], off, size);
    hide Chunk;
  }

  /** The loop delivers exactly the rest of the file, up to the size asked for. */
  lemma {:induction false} FetchIsFile(blocks: seq<Block>, c: nat, off: nat, size: nat, len: nat)
    requires InOrder(blocks) && Apart(blocks) && Passed(blocks, c, off) && EndsAt(blocks, len) && off <= len
    ensures Fetch(blocks, c, off, size) == File(blocks, off, Min(size, len - off))
    decreases |blocks| - c
  {
    hide Chunk;
    hide Content;
    if size == 0 || c == |blocks| {
    } else {
      var chunk := Chunk(blocks[c], off, size);
      var n := |chunk|;
      ChunkIsFile(blocks, c, off, size);
      PassedNext(blocks, c, off, size, len);
      if n < size {
        FetchIsFile(blocks, c + 1, off + n, size - n, len);
      } else {
        ChunkLength(blocks[c], off, size);
        assert Fetch(blocks, c + 1, off + n, 0) == [];
      }
      FileSplit(blocks, off, n, Min(size, len - off) - n);
    }
  }

  lemma FileSplit(blocks: seq<Block>, off: nat, a: nat, b: nat)
    ensures File(blocks, off, a + b) == File(blocks, off, a) + File(blocks, off + a, b)
  {
    hide Content;
  }

  // ------------------------------------------------------------------
  // The cursor
  // ------------------------------------------------------------------

  lemma {:induction false} SeekIs(blocks: seq<Block>, key: nat, c: nat)
    requires c <= |blocks| && (forall i :: 0 <= i < c ==> blocks[i].last < key)
    requires c < |blocks| ==> blocks[c].last >= key
    ensures Seek(blocks, key) == c
  {
    hide Seek;
    var d := Seek(blocks, key);
    if d < |blocks| && d < c {
      assert false;
    }
  }

  // Where the saved cursor leads when it can be reused for an offset.
  function Reused(blocks: seq<Block>, at: nat, off: nat): Option<nat> {
    if at < |blocks| && Sane(blocks[at]) then
      var b := blocks[at];
      if off < Start(b) then None
      else if off < Start(b) + |b.data| then Some(at)
      else if off == Start(b) + |b.data| then Some(at + 1)
      else None
    else None
  }

  /** A cursor is only reused where a fresh seek would have put it. */
  lemma ReuseIsSeek(blocks: seq<Block>, at: nat, off: nat)
    requires InOrder(blocks) && Apart(blocks)
    requires at < |blocks| ==> !IsVoid(blocks[at])
    ensures Reused(blocks, at, off).Some? ==> Reused(blocks, at, off).value == Seek(blocks, off)
  {
    hide Seek;
    hide Start;
    if at < |blocks| && Sane(blocks[at]) {
      StartIs(blocks[at]);
      if Reused(blocks, at, off) == Some(at) {
        SeekIs(blocks, off, at);
      } else if Reused(blocks, at, off) == Some(at + 1) {
        SeekIs(blocks, off, at + 1);
      }
    }
  }

  // ------------------------------------------------------------------
  // Writing
  // ------------------------------------------------------------------

  // The new block has the extent of an existing one, or overlaps none. An empty one
  // also must not end inside an existing one.
  ghost predicate Fits(blocks: seq<Block>, b: Block)
    requires Sane(b)
  {
    forall i :: 0 <= i < |blocks| && Sane(blocks[i]) && !IsVoid(blocks[i]) ==>
      || (blocks[i].last == b.last && |blocks[i].data| == |b.data|)
      || (blocks[i].last < Start(b) && blocks[i].last != b.last)
      || Start(blocks[i]) > b.last
  }

  lemma InsertApart(blocks: seq<Block>, b: Block)
    requires InOrder(blocks) && Apart(blocks) && Sane(b) && (IsVoid(b) || Fits(blocks, b))
    ensures Apart(Insert(blocks, b))
  {
    hide Insert;
    hide Start;
    var c, d := InsertShape(blocks, b);
    var r := Insert(blocks, b);
    StartIs(b);
    forall i, j | 0 <= i < j < |r| && Sane(r[j]) && !IsVoid(r[j]) ensures r[i].last < Start(r[j]) {
      StartIs(r[j]);
      if i == c {
        assert r[j] == blocks[j - d];
      } else if j == c {
        assert r[i] == blocks[i];
        StartIs(blocks[i]);
      } else {
        var i', j' := if i < c then i else i - d, if j < c then j else j - d;
        assert r[i] == blocks[i'] && r[j] == blocks[j'] && i' < j';
      }
    }
  }

  lemma ContentUnique(blocks: seq<Block>, i: nat, j: nat)
    requires InOrder(blocks) && Apart(blocks) && j < |blocks| && Covers(blocks[j], i)
    ensures Content(blocks, i) == blocks[j].data[i - Start(blocks[j])]
  {
    StartIs(blocks[j]);
    forall k | 0 <= k < j ensures !Covers(blocks[k], i) {
      StartIs(blocks[k]);
    }
    ContentFirst(blocks, i, j);
  }

  /** A write changes its own extent of the file and nothing else. */
  lemma WriteContent(blocks: seq<Block>, b: Block, i: nat)
    requires InOrder(blocks) && Apart(blocks) && Sane(b) && (IsVoid(b) || Fits(blocks, b))
    ensures Content(Insert(blocks, b), i) == if Covers(b, i) then b.data[i - Start(b)] else Content(blocks, i)
  {
    hide Insert;
    hide Content;
    hide Start;
    hide Apart;
    hide Fits;
    var c, d := InsertShape(blocks, b);
    InsertOrder(blocks, b);
    InsertApart(blocks, b);
    var r := Insert(blocks, b);
    if Covers(b, i) {
      ContentUnique(r, i, c);
    } else if j :| 0 <= j < |blocks| && Covers(blocks[j], i) {
      ContentUnique(blocks, i, j);
      Survives(blocks, b, i, j);
      var k := if j < c then j else j + d;
      assert r[k] == blocks[j];
      ContentUnique(r, i, k);
    } else {
      forall k | 0 <= k < |r| ensures !Covers(r[k], i) {
        if k != c {
          assert r[k] == blocks[if k < c then k else k - d];
        }
      }
      ContentNone(blocks, i);
      ContentNone(r, i);
    }
  }

  // A block that holds a byte outside the new one is not the one being replaced.
  lemma Survives(blocks: seq<Block>, b: Block, i: nat, j: nat)
    requires InOrder(blocks) && Sane(b) && (IsVoid(b) || Fits(blocks, b))
    requires j < |blocks| && Covers(blocks[j], i) && !Covers(b, i)
    ensures blocks[j].last != b.last
  {
    StartIs(blocks[j]);
    StartIs(b);
    hide Start;
  }

  lemma InsertEnds(blocks: seq<Block>, b: Block, len: nat, end: nat)
    requires InOrder(blocks) && EndsAt(blocks, len) && end < UINT64 && Sane(b)
    requires b.last == if end == 0 then UINT64 - 1 else end - 1
    requires end == 0 ==> b.data == []
    ensures EndsAt(Insert(blocks, b), if end > len then end else len)
  {
    hide Insert;
    var c, d := InsertShape(blocks, b);
    var r, n := Insert(blocks, b), if end > len then end else len;
    forall j | 0 <= j < |r| ensures r[j].last < n || IsVoid(r[j]) {
      if j != c {
        assert r[j] == blocks[if j < c then j else j - d];
      }
    }
    if n > 0 {
      if end == n {
        assert r[c].last == n - 1;
      } else {
        var j :| 0 <= j < |blocks| && blocks[j].last == len - 1;
        var k := KeyStays(blocks, b, j);
      }
    }
  }

  lemma KeyStays(blocks: seq<Block>, b: Block, j: nat) returns (k: nat)
    requires InOrder(blocks) && j < |blocks|
    ensures k < |Insert(blocks, b)| && Insert(blocks, b)[k].last == blocks[j].last
  {
    hide Insert;
    var c, d := InsertShape(blocks, b);
    k := if blocks[j].last < b.last then j else if blocks[j].last > b.last then j + d else c;
  }
}
