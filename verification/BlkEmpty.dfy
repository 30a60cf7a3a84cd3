/**
 Empty writes. An empty write is stored like any other block, so later reads come across
 it; what they deliver then, and exactly when that is still the file.
 */
module BlkEmpty {
  import opened Coding
  import opened BlkDb

  function EmptyAt(off: nat): Block
    requires off > 0
  {
    Block(off - 1, [])
  }

  // Whatever is read from whatever offset is a piece of the file.
  ghost predicate ReadsAs(r: seq<Block>, blocks: seq<Block>, len: nat) {
    forall i: nat, n: nat :: i <= len ==> Fetch(r, Seek(r, i), i, n) == File(blocks, i, Min(n, len - i))
  }

  lemma SeekPassed(blocks: seq<Block>, i: nat)
    ensures Passed(blocks, Seek(blocks, i), i)
  {
    hide Seek;
  }

  lemma SameFile(a: seq<Block>, b: seq<Block>, i: nat, n: nat)
    requires forall x :: i <= x < i + n ==> Content(a, x) == Content(b, x)
    ensures File(a, i, n) == File(b, i, n)
  {
    hide Content;
  }

  ghost predicate ZeroIn(blocks: seq<Block>, from: nat, to: nat) {
    forall i: nat :: from <= i < to ==> Content(blocks, i) == 0
  }

  // The file with the bytes from "from" to "to" read as zeros.
  function Blanked(blocks: seq<Block>, from: nat, to: nat, i: nat, n: nat): Bytes {
    seq<Byte>(n, k requires 0 <= k < n => BlankedAt(blocks, from, to, i + k))
  }

  function BlankedAt(blocks: seq<Block>, from: nat, to: nat, x: nat): Byte {
    if from <= x < to then 0 else Content(blocks, x)
  }

  lemma BlankedFile(a: seq<Block>, blocks: seq<Block>, from: nat, to: nat, i: nat, n: nat)
    requires forall x: nat :: Content(a, x) == BlankedAt(blocks, from, to, x)
    ensures File(a, i, n) == Blanked(blocks, from, to, i, n)
  {
    hide Content;
    hide BlankedAt;
  }

  // Where no block covers the byte before, an empty write changes nothing.
  lemma EmptyHarmless(blocks: seq<Block>, off: nat, len: nat)
    requires InOrder(blocks) && Apart(blocks) && EndsAt(blocks, len) && 0 < off < UINT64
    requires forall j :: 0 <= j < |blocks| ==> !Covers(blocks[j], off - 1)
    ensures ReadsAs(Insert(blocks, EmptyAt(off)), blocks, if off > len then off else len)
  {
    hide Insert;
    hide Content;
    hide Fetch;
    hide Seek;
    hide Apart;
    hide EndsAt;
    var b := EmptyAt(off);
    EmptyFits(blocks, off);
    InsertOrder(blocks, b);
    InsertApart(blocks, b);
    InsertEnds(blocks, b, len, off);
    var r, end := Insert(blocks, b), if off > len then off else len;
    forall i: nat, n: nat | i <= end ensures Fetch(r, Seek(r, i), i, n) == File(blocks, i, Min(n, end - i)) {
      SeekPassed(r, i);
      FetchIsFile(r, Seek(r, i), i, n, end);
      forall x | i <= x < i + Min(n, end - i) ensures Content(r, x) == Content(blocks, x) {
        WriteContent(blocks, b, x);
      }
      SameFile(r, blocks, i, Min(n, end - i));
    }
  }

  lemma EmptyFits(blocks: seq<Block>, off: nat)
    requires InOrder(blocks) && 0 < off < UINT64
    requires forall j :: 0 <= j < |blocks| ==> !Covers(blocks[j], off - 1)
    ensures Sane(EmptyAt(off)) && Fits(blocks, EmptyAt(off))
  {
    var b := EmptyAt(off);
    StartIs(b);
    forall k | 0 <= k < |blocks| && Sane(blocks[k]) && !IsVoid(blocks[k])
      ensures (blocks[k].last == b.last && |blocks[k].data| == 0)
              || (blocks[k].last < Start(b) && blocks[k].last != b.last) || Start(blocks[k]) > b.last
    {
      StartIs(blocks[k]);
      assert !Covers(blocks[k], off - 1);
    }
  }

  // ------------------------------------------------------------------
  // An empty write inside a block
  // ------------------------------------------------------------------

  // The block without its bytes before an offset.
  function Trim(b: Block, off: nat): Block
    requires Sane(b) && off > 0 && Covers(b, off - 1)
  {
    Block(b.last, b.data[off - Start(b)..])
  }

  lemma TrimIs(b: Block, off: nat)
    requires Sane(b) && off > 0 && Covers(b, off - 1)
    ensures Sane(Trim(b, off)) && Start(Trim(b, off)) == off && !IsVoid(Trim(b, off)) && Trim(b, off).last == b.last >= off - 1
    ensures Start(b) < off && off <= Start(b) + |b.data| == b.last + 1
    ensures forall x: nat :: Covers(Trim(b, off), x) <==> Covers(b, x) && x >= off
  {
    StartIs(b);
    StartIs(Trim(b, off));
    hide Start;
  }

  lemma TrimChunk(b: Block, off: nat, x: nat, n: nat)
    requires Sane(b) && off > 0 && Covers(b, off - 1) && x >= off
    ensures Sane(Trim(b, off)) && Chunk(Trim(b, off), x, n) == Chunk(b, x, n)
  {
    hide Start;
    TrimIs(b, off);
    var start, take := Start(b), if x <= b.last then Min(n, b.last + 1 - x) else 0;
    if take > 0 {
      assert Trim(b, off).data[x - off..x - off + take] == b.data[x - start..x - start + take];
    }
  }

  // Trimming one block blanks the bytes it loses and no others.
  lemma TrimmedFile(blocks: seq<Block>, off: nat, len: nat, j: nat)
    requires InOrder(blocks) && Apart(blocks) && EndsAt(blocks, len) && j < |blocks|
    requires off > 0 && Covers(blocks[j], off - 1)
    ensures var trimmed := blocks[j := Trim(blocks[j], off)];
            && InOrder(trimmed) && Apart(trimmed) && EndsAt(trimmed, len) && off <= len
            && (forall k :: 0 <= k < |trimmed| ==> !Covers(trimmed[k], off - 1))
            && (forall x: nat :: Content(trimmed, x) == BlankedAt(blocks, Start(blocks[j]), off, x))
  {
    hide Start;
    hide Content;
    hide Covers;
    TrimIs(blocks[j], off);
    OnlyCover(blocks, j, off - 1);
    var trimmed := blocks[j := Trim(blocks[j], off)];
    assert forall k :: 0 <= k < |trimmed| ==> trimmed[k].last == blocks[k].last;
    TrimmedApart(blocks, off, j);
    TrimmedEnds(blocks, off, len, j);
    forall x: nat ensures Content(trimmed, x) == BlankedAt(blocks, Start(blocks[j]), off, x) {
      TrimmedContent(blocks, off, j, x);
    }
  }

  lemma TrimmedEnds(blocks: seq<Block>, off: nat, len: nat, j: nat)
    requires InOrder(blocks) && EndsAt(blocks, len) && j < |blocks| && off > 0 && Covers(blocks[j], off - 1)
    ensures var trimmed := blocks[j := Trim(blocks[j], off)];
            InOrder(trimmed) && EndsAt(trimmed, len) && off <= len
  {
    hide Start;
    hide Trim;
    TrimIs(blocks[j], off);
    var trimmed := blocks[j := Trim(blocks[j], off)];
    if len > 0 {
      var k :| 0 <= k < |blocks| && blocks[k].last == len - 1;
      assert trimmed[k].last == len - 1;
    }
  }

  lemma TrimmedApart(blocks: seq<Block>, off: nat, j: nat)
    requires InOrder(blocks) && Apart(blocks) && j < |blocks| && off > 0 && Covers(blocks[j], off - 1)
    ensures Apart(blocks[j := Trim(blocks[j], off)])
  {
    hide Start;
    hide Trim;
    TrimIs(blocks[j], off);
    var trimmed := blocks[j := Trim(blocks[j], off)];
    forall i, k | 0 <= i < k < |trimmed| && Sane(trimmed[k]) && !IsVoid(trimmed[k])
      ensures trimmed[i].last < Start(trimmed[k])
    {
      assert trimmed[i].last == blocks[i].last < blocks[k].last;
      assert !IsVoid(blocks[k]);
      assert blocks[i].last < Start(blocks[k]);
    }
  }

  lemma TrimmedContent(blocks: seq<Block>, off: nat, j: nat, x: nat)
    requires InOrder(blocks) && Apart(blocks) && j < |blocks| && off > 0 && Covers(blocks[j], off - 1)
    requires var trimmed := blocks[j := Trim(blocks[j], off)]; InOrder(trimmed) && Apart(trimmed)
    ensures Content(blocks[j := Trim(blocks[j], off)], x) ==
            if Start(blocks[j]) <= x < off then 0 else Content(blocks, x)
  {
    hide Start;
    hide Content;
    hide Covers;
    hide Apart;
    var b, trimmed := blocks[j], blocks[j := Trim(blocks[j], off)];
    TrimIs(b, off);
    InBlock(b, off, x);
    if k :| 0 <= k < |trimmed| && Covers(trimmed[k], x) {
      ContentUnique(trimmed, x, k);
      ContentUnique(blocks, x, k);
      OnlyCover(blocks, k, x);
    } else {
      ContentNone(trimmed, x);
      assert !Covers(trimmed[j], x);
      if !Covers(b, x) {
        forall k | 0 <= k < |blocks| ensures !Covers(blocks[k], x) {
          assert k != j ==> blocks[k] == trimmed[k];
        }
        ContentNone(blocks, x);
      }
    }
  }

  lemma InBlock(b: Block, off: nat, x: nat)
    requires Sane(b) && off > 0 && Covers(b, off - 1)
    ensures Start(b) <= x < off ==> Covers(b, x)
    ensures Covers(Trim(b, off), x) ==> Start(b) <= off <= x && Trim(b, off).data[x - off] == b.data[x - Start(b)]
    ensures Covers(b, x) && !Covers(Trim(b, off), x) ==> Start(b) <= x < off
  {
    TrimIs(b, off);
    hide Start;
  }

  lemma OnlyCover(blocks: seq<Block>, j: nat, x: nat)
    requires InOrder(blocks) && Apart(blocks) && j < |blocks| && Covers(blocks[j], x)
    ensures forall k :: 0 <= k < |blocks| && Covers(blocks[k], x) ==> k == j
  {
    StartIs(blocks[j]);
    forall k | 0 <= k < |blocks| && Covers(blocks[k], x) ensures k == j {
      StartIs(blocks[k]);
    }
  }

  // The empty block goes right before the block it is inside of, or replaces it.
  lemma EmptyGoes(blocks: seq<Block>, off: nat, j: nat)
    requires InOrder(blocks) && Apart(blocks) && j < |blocks| && off > 0 && Covers(blocks[j], off - 1)
    ensures Insert(blocks, EmptyAt(off)) ==
            if blocks[j].last == off - 1 then blocks[j := EmptyAt(off)]
            else blocks[..j] + [EmptyAt(off)] + blocks[j..]
  {
    TrimIs(blocks[j], off);
    StartIs(blocks[j]);
    hide Start;
    hide Seek;
    SeekIs(blocks, off - 1, j);
  }

  // A read that gets to the block only at its byte "off" does not see what is before.
  lemma {:induction false} FetchTrimmed(r: seq<Block>, off: nat, m: nat, k: nat, x: nat, n: nat, len: nat)
    requires InOrder(r) && EndsAt(r, len) && 0 < m < |r| && off > 0 && Covers(r[m], off - 1)
    requires r[m - 1] == EmptyAt(off) && Passed(r, k, x) && x <= len && (k == m ==> x >= off)
    ensures Fetch(r[m := Trim(r[m], off)], k, x, n) == Fetch(r, k, x, n)
    decreases |r| - k
  {
    hide Chunk;
    hide Trim;
    TrimIs(r[m], off);
    var q := r[m := Trim(r[m], off)];
    if n == 0 || k == |r| {
    } else {
      var size := |Chunk(r[k], x, n)|;
      if k == m {
        TrimChunk(r[m], off, x, n);
      }
      assert Chunk(q[k], x, n) == Chunk(r[k], x, n);
      ChunkLength(r[k], x, n);
      PassedNext(r, k, x, n, len);
      if size < n {
        FetchTrimmed(r, off, m, k + 1, x + size, n - size, len);
      } else {
        assert Fetch(q, k + 1, x + size, 0) == [] == Fetch(r, k + 1, x + size, 0);
      }
    }
  }

  // Reading after the write is reading the trimmed file after the same write.
  lemma ReadsTrimmed(blocks: seq<Block>, off: nat, len: nat, j: nat, i: nat, n: nat)
    requires InOrder(blocks) && Apart(blocks) && EndsAt(blocks, len) && j < |blocks| && i <= len
    requires 0 < off < UINT64 && Covers(blocks[j], off - 1)
    ensures var r := Insert(blocks, EmptyAt(off));
            var q := Insert(blocks[j := Trim(blocks[j], off)], EmptyAt(off));
            Fetch(r, Seek(r, i), i, n) == Fetch(q, Seek(q, i), i, n)
  {
    hide Insert;
    hide Fetch;
    hide Seek;
    hide Apart;
    hide Trim;
    hide Covers;
    var e := EmptyAt(off);
    TrimIs(blocks[j], off);
    var trimmed := blocks[j := Trim(blocks[j], off)];
    TrimmedFile(blocks, off, len, j);
    var r, q := Insert(blocks, e), Insert(trimmed, e);
    Inserted(blocks, off, j);
    if blocks[j].last != off - 1 {
      InsertOrder(blocks, e);
      InsertEnds(blocks, e, len, off);
      SeekPassed(r, i);
      SameSeek(r, q, i);
      FetchTrimmed(r, off, j + 1, Seek(r, i), i, n, len);
    }
  }

  lemma Inserted(blocks: seq<Block>, off: nat, j: nat)
    requires InOrder(blocks) && Apart(blocks) && j < |blocks| && off > 0 && Covers(blocks[j], off - 1)
    ensures var r, q := Insert(blocks, EmptyAt(off)), Insert(blocks[j := Trim(blocks[j], off)], EmptyAt(off));
            if blocks[j].last == off - 1 then q == r
            else |r| == |blocks| + 1 && r[j] == EmptyAt(off) && r[j + 1] == blocks[j] &&
                 q == r[j + 1 := Trim(blocks[j], off)]
  {
    hide Insert;
    hide Trim;
    hide Covers;
    hide Apart;
    TrimIs(blocks[j], off);
    EmptyGoes(blocks, off, j);
    EmptyGoesTrimmed(blocks, off, j);
  }

  lemma SameSeek(r: seq<Block>, q: seq<Block>, i: nat)
    requires |q| == |r| && forall k :: 0 <= k < |r| ==> q[k].last == r[k].last
    ensures Seek(q, i) == Seek(r, i)
  {
    hide Seek;
    SeekIs(q, i, Seek(r, i));
  }

  lemma EmptyGoesTrimmed(blocks: seq<Block>, off: nat, j: nat)
    requires InOrder(blocks) && Apart(blocks) && j < |blocks| && off > 0 && Covers(blocks[j], off - 1)
    ensures var trimmed := blocks[j := Trim(blocks[j], off)];
            Insert(trimmed, EmptyAt(off)) ==
            if blocks[j].last == off - 1 then trimmed[j := EmptyAt(off)]
            else trimmed[..j] + [EmptyAt(off)] + trimmed[j..]
  {
    var trimmed := blocks[j := Trim(blocks[j], off)];
    TrimIs(blocks[j], off);
    StartIs(blocks[j]);
    hide Start;
    hide Seek;
    hide Trim;
    SeekIs(trimmed, off - 1, j);
  }

  // ------------------------------------------------------------------
  // Results
  // ------------------------------------------------------------------

  /** After an empty write inside a block every read, from any offset and of any size, finds
      zeros in place of what that block holds before the offset of the write. */
  lemma EmptyWriteReads(blocks: seq<Block>, off: nat, len: nat, j: nat, i: nat, n: nat)
    requires InOrder(blocks) && Apart(blocks) && EndsAt(blocks, len) && j < |blocks| && i <= len
    requires 0 < off < UINT64 && Covers(blocks[j], off - 1)
    ensures off <= len
    ensures var r := Insert(blocks, EmptyAt(off));
            Fetch(r, Seek(r, i), i, n) == Blanked(blocks, Start(blocks[j]), off, i, Min(n, len - i))
  {
    hide Insert;
    hide Fetch;
    hide Seek;
    hide Content;
    hide Start;
    hide Apart;
    hide EndsAt;
    hide Covers;
    hide Trim;
    TrimmedFile(blocks, off, len, j);
    ReadsTrimmed(blocks, off, len, j, i, n);
    var trimmed := blocks[j := Trim(blocks[j], off)];
    EmptyHarmless(trimmed, off, len);
    BlankedFile(trimmed, blocks, Start(blocks[j]), off, i, Min(n, len - i));
  }

  /** All reads after an empty write, of any size from any offset, still give the file if and
      only if no block covers the byte before it, or the bytes of that block before it are
      zero anyway. */
  lemma EmptyWriteIff(blocks: seq<Block>, off: nat, len: nat)
    requires InOrder(blocks) && Apart(blocks) && EndsAt(blocks, len) && 0 < off < UINT64
    ensures ReadsAs(Insert(blocks, EmptyAt(off)), blocks, if off > len then off else len)
            <==>
            (forall j :: 0 <= j < |blocks| && Covers(blocks[j], off - 1) ==> ZeroIn(blocks, Start(blocks[j]), off))
  {
    hide *;
    if j :| 0 <= j < |blocks| && Covers(blocks[j], off - 1) {
      OnlyCover(blocks, j, off - 1);
      BlankedIff(blocks, off, len, j);
    } else {
      EmptyHarmless(blocks, off, len);
    }
  }

  lemma BlankedIff(blocks: seq<Block>, off: nat, len: nat, j: nat)
    requires InOrder(blocks) && Apart(blocks) && EndsAt(blocks, len) && j < |blocks|
    requires 0 < off < UINT64 && Covers(blocks[j], off - 1)
    ensures ReadsAs(Insert(blocks, EmptyAt(off)), blocks, if off > len then off else len)
            <==> ZeroIn(blocks, Start(blocks[j]), off)
  {
    hide Insert;
    hide Fetch;
    hide Seek;
    hide Start;
    hide Apart;
    hide EndsAt;
    hide InOrder;
    EmptyWriteReads(blocks, off, len, j, 0, 0);
    if ZeroIn(blocks, Start(blocks[j]), off) {
      BlankBefore(blocks, off, len, j);
    }
    if ReadsAs(Insert(blocks, EmptyAt(off)), blocks, len) {
      forall i: nat | Start(blocks[j]) <= i < off ensures Content(blocks, i) == 0 {
        BlankShows(blocks, off, len, j, i);
      }
    }
  }

  lemma BlankBefore(blocks: seq<Block>, off: nat, len: nat, j: nat)
    requires InOrder(blocks) && Apart(blocks) && EndsAt(blocks, len) && j < |blocks|
    requires 0 < off < UINT64 && Covers(blocks[j], off - 1)
    requires ZeroIn(blocks, Start(blocks[j]), off)
    ensures ReadsAs(Insert(blocks, EmptyAt(off)), blocks, len)
  {
    hide Insert;
    hide Fetch;
    hide Seek;
    hide Content;
    hide Start;
    hide Apart;
    hide EndsAt;
    hide InOrder;
    hide Blanked;
    hide File;
    var r, start := Insert(blocks, EmptyAt(off)), Start(blocks[j]);
    forall i: nat, n: nat | i <= len ensures Fetch(r, Seek(r, i), i, n) == File(blocks, i, Min(n, len - i)) {
      EmptyWriteReads(blocks, off, len, j, i, n);
      BlankedFile(blocks, blocks, start, off, i, Min(n, len - i));
    }
  }

  lemma BlankShows(blocks: seq<Block>, off: nat, len: nat, j: nat, i: nat)
    requires InOrder(blocks) && Apart(blocks) && EndsAt(blocks, len) && j < |blocks|
    requires 0 < off < UINT64 && off <= len && Covers(blocks[j], off - 1) && Start(blocks[j]) <= i < off
    requires ReadsAs(Insert(blocks, EmptyAt(off)), blocks, len)
    ensures Content(blocks, i) == 0
  {
    hide Insert;
    hide Fetch;
    hide Seek;
    hide Content;
    hide Start;
    hide Apart;
    hide EndsAt;
    hide InOrder;
    EmptyWriteReads(blocks, off, len, j, i, 1);
    OneByte(blocks, Start(blocks[j]), off, i);
  }

  lemma OneByte(blocks: seq<Block>, from: nat, to: nat, i: nat)
    ensures Blanked(blocks, from, to, i, 1)[0] == BlankedAt(blocks, from, to, i)
    ensures File(blocks, i, 1)[0] == Content(blocks, i)
  {
  }
}
