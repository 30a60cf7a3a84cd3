/**
 Reading back what was written: any prefix of a log yields exactly the records that
 are wholly in it, in order, and reports nothing.
 */
module LogTheorems {
  import opened Coding
  import opened LogFormat

  // The reader's buffer ends at a block boundary, or at the end of the file inside a block.
  ghost predicate Aligned(file: Bytes, st: ReaderState) {
    && Within(file, st)
    && (!st.eof ==> st.end % BLOCK_SIZE == 0 && st.end - st.pos <= BLOCK_SIZE)
    && (st.eof ==> st.end == |file| && st.pos % BLOCK_SIZE + (st.end - st.pos) < BLOCK_SIZE)
  }

  // As far as the file goes, it holds "bytes" at offset "off".
  ghost predicate Agrees(file: Bytes, off: nat, bytes: Bytes) {
    forall i :: 0 <= i < |bytes| && off + i < |file| ==> file[off + i] == bytes[i]
  }

  lemma AgreesSplit(file: Bytes, off: nat, a: Bytes, b: Bytes)
    requires Agrees(file, off, a + b)
    ensures Agrees(file, off, a) && Agrees(file, off + |a|, b)
  {
    forall i | 0 <= i < |a| && off + i < |file| ensures file[off + i] == a[i] {
      assert (a + b)[i] == a[i];
    }
    forall i | 0 <= i < |b| && off + |a| + i < |file| ensures file[off + |a| + i] == b[i] {
      assert (a + b)[|a| + i] == b[i];
    }
  }

  // ------------------------------------------------------------------
  // One fragment
  // ------------------------------------------------------------------

  lemma FragmentHeader(c: Checksum, kind: Byte, payload: Bytes)
    requires |payload| < 65536
    ensures var s := Fragment(c, kind, payload);
            && s[4] as nat + 256 * s[5] as nat == |payload|
            && s[6] == kind
            && s[HEADER_SIZE..] == payload
            && DecodeFixed(s[..4]) < UINT32
            && Unmask(DecodeFixed(s[..4])) == Crc(c, kind, payload)
  {
    var s := Fragment(c, kind, payload);
    var m := Mask(Crc(c, kind, payload));
    FixedWidths();
    FixedRoundTrip(m, 4);
    UnmaskMask(Crc(c, kind, payload));
    assert s[..4] == Fixed(m, 4);
    assert s[HEADER_SIZE..] == payload;
  }

  // A whole fragment at the front of the buffer is taken out of it.
  lemma ParseWhole(c: Checksum, verify: bool, file: Bytes, st: ReaderState, kind: Byte, payload: Bytes)
    requires Within(file, st) && |payload| < 65536 && FULL_TYPE <= kind <= LAST_TYPE
    requires st.pos + HEADER_SIZE + |payload| <= st.end
    requires Agrees(file, st.pos, Fragment(c, kind, payload))
    ensures ParseFragment(c, verify, file, st)
         == Outcome(Frag(kind, payload), st.(pos := st.pos + HEADER_SIZE + |payload|), [])
  {
    var s := Fragment(c, kind, payload);
    var buf := file[st.pos..st.end];
    FragmentHeader(c, kind, payload);
    assert buf[..|s|] == s;
    assert buf[..4] == s[..4] && buf[4] == s[4] && buf[5] == s[5] && buf[6] == s[6];
    assert buf[HEADER_SIZE..HEADER_SIZE + |payload|] == s[HEADER_SIZE..];
  }

  // A fragment cut off by the end of the file counts as the end of the file.
  lemma ParseCut(c: Checksum, verify: bool, file: Bytes, st: ReaderState, kind: Byte, payload: Bytes)
    requires Within(file, st) && |payload| < 65536 && st.eof
    requires HEADER_SIZE <= st.end - st.pos < HEADER_SIZE + |payload| && st.end == |file|
    requires Agrees(file, st.pos, Fragment(c, kind, payload))
    ensures ParseFragment(c, verify, file, st) == Outcome(Eof, st.(pos := st.end), [])
  {
    FragmentHeader(c, kind, payload);
    var s := Fragment(c, kind, payload);
    var buf := file[st.pos..st.end];
    assert buf[4] == s[4] && buf[5] == s[5];
  }

  lemma PhysicalStep(c: Checksum, verify: bool, file: Bytes, st: ReaderState, kind: Byte, payload: Bytes)
    requires Aligned(file, st) && FULL_TYPE <= kind <= LAST_TYPE
    requires var o := st.pos + Padding(st.pos);
             o % BLOCK_SIZE + HEADER_SIZE + |payload| <= BLOCK_SIZE && Agrees(file, o, Fragment(c, kind, payload))
    ensures var o := st.pos + Padding(st.pos);
            var r := ReadPhysical(c, verify, file, st);
            && r.drops == []
            && if o + HEADER_SIZE + |payload| <= |file|
               then r.result == Frag(kind, payload) && r.st.pos == o + HEADER_SIZE + |payload| && Aligned(file, r.st)
               else r.result == Eof
  {
    hide ParseFragment;
    hide Fragment;
    var o := st.pos + Padding(st.pos);
    var size := HEADER_SIZE + |payload|;
    var s := if st.end - st.pos >= HEADER_SIZE || st.eof then st else Refill(file, st);
    BufferReaches(file, st, s);
    assert Reaches(file, s, o);
    if s.end - s.pos >= HEADER_SIZE {
      if o + size <= |file| {
        ParseWhole(c, verify, file, s, kind, payload);
      } else {
        ParseCut(c, verify, file, s, kind, payload);
      }
    }
  }

  // The buffer starts at the next fragment and ends where its block or the file ends.
  ghost predicate Reaches(file: Bytes, s: ReaderState, o: nat) {
    if s.end - s.pos >= HEADER_SIZE then
      && s.pos == o
      && (if s.eof then s.end == |file| && |file| < o - o % BLOCK_SIZE + BLOCK_SIZE
          else s.end == o - o % BLOCK_SIZE + BLOCK_SIZE)
    else s.eof && |file| < o + HEADER_SIZE
  }

  lemma BufferReaches(file: Bytes, st: ReaderState, s: ReaderState)
    requires Aligned(file, st)
    requires s == if st.end - st.pos >= HEADER_SIZE || st.eof then st else Refill(file, st)
    ensures Aligned(file, s)
    ensures Reaches(file, s, st.pos + Padding(st.pos))
  {
    if st.end - st.pos >= HEADER_SIZE {
      if !st.eof {
        BlockOf(st.pos, st.end);
      }
      assert Padding(st.pos) == 0;
    } else if !st.eof {
      BlockOf(st.pos, st.end);
      assert st.pos + Padding(st.pos) == st.end;
      RefillReaches(file, st);
    }
  }

  lemma RefillReaches(file: Bytes, st: ReaderState)
    requires Within(file, st) && st.end % BLOCK_SIZE == 0
    ensures Aligned(file, Refill(file, st)) && Reaches(file, Refill(file, st), st.end)
  {
  }

  // A position in the block that ends at "end", or at its end.
  lemma BlockOf(pos: nat, end: nat)
    requires pos <= end && end % BLOCK_SIZE == 0 && end - pos <= BLOCK_SIZE
    ensures pos < end && end - pos < BLOCK_SIZE ==> pos % BLOCK_SIZE == BLOCK_SIZE - (end - pos)
    ensures pos == end || end - pos == BLOCK_SIZE ==> pos % BLOCK_SIZE == 0
  {
    var b := end / BLOCK_SIZE;
    assert end == b * BLOCK_SIZE;
    if pos < end {
      assert pos == (b - 1) * BLOCK_SIZE + (BLOCK_SIZE - (end - pos));
    }
  }

  // ------------------------------------------------------------------
  // One record
  // ------------------------------------------------------------------

  // What is written for a record before its remaining fragments.
  function Head(c: Checksum, off: nat, data: Bytes, begin: bool): Bytes {
    var n := Take(off, |data|);
    Zeros(Padding(off)) + Fragment(c, Kind(begin, n == |data|), data[..n])
  }

  lemma EmitUnfold(c: Checksum, off: nat, data: Bytes, begin: bool)
    ensures var pad, n := Padding(off), Take(off, |data|);
            && |Head(c, off, data, begin)| == pad + HEADER_SIZE + n
            && Emit(c, off, data, begin) ==
               if n == |data| then Head(c, off, data, begin)
               else Head(c, off, data, begin) + Emit(c, off + pad + HEADER_SIZE + n, data[n..], false)
  {
    hide Kind;
  }

  // Only the place in the block matters.
  lemma {:induction false} EmitMod(c: Checksum, a: nat, b: nat, data: Bytes, begin: bool)
    requires a % BLOCK_SIZE == b % BLOCK_SIZE
    ensures Emit(c, a, data, begin) == Emit(c, b, data, begin)
    decreases |data|, if a % BLOCK_SIZE == BLOCK_SIZE - HEADER_SIZE then 1 else 0
  {
    hide Emit;
    EmitUnfold(c, a, data, begin);
    EmitUnfold(c, b, data, begin);
    SameOffset(a, b, Padding(a));
    var n := Take(a, |data|);
    if n == |data| {
    } else {
      SameOffset(a, b, Padding(a) + HEADER_SIZE + n);
      EmitMod(c, a + Padding(a) + HEADER_SIZE + n, b + Padding(a) + HEADER_SIZE + n, data[n..], false);
    }
  }

  lemma SameOffset(a: nat, b: nat, k: nat)
    requires a % BLOCK_SIZE == b % BLOCK_SIZE
    ensures (a + k) % BLOCK_SIZE == (b + k) % BLOCK_SIZE
  {
  }

  // Unfold one fragment of a record.
  lemma EmitStep(c: Checksum, off: nat, data: Bytes, begin: bool, file: Bytes)
    requires Agrees(file, off, Emit(c, off, data, begin))
    ensures var pad, n := Padding(off), Take(off, |data|);
            var o := off + pad;
            var rest := data[n..];
            && Agrees(file, o, Fragment(c, Kind(begin, n == |data|), data[..n]))
            && (n == |data| ==> |Emit(c, off, data, begin)| == pad + HEADER_SIZE + n)
            && (n < |data| ==>
                  && Agrees(file, o + HEADER_SIZE + n, Emit(c, o + HEADER_SIZE + n, rest, false))
                  && |Emit(c, off, data, begin)| ==
                     pad + HEADER_SIZE + n + |Emit(c, o + HEADER_SIZE + n, rest, false)|)
  {
    hide Agrees;
    hide Padding;
    hide Take;
    hide Kind;
    hide Fragment;
    var pad, n := Padding(off), Take(off, |data|);
    EmitUnfold(c, off, data, begin);
    if n < |data| {
      AgreesSplit(file, off, Head(c, off, data, begin), Emit(c, off + pad + HEADER_SIZE + n, data[n..], false));
    }
    AgreesSplit(file, off, Zeros(pad), Fragment(c, Kind(begin, n == |data|), data[..n]));
  }

  // The remaining fragments of a record complete it, unless the file ends first.
  lemma {:induction false} ReadEmitted(c: Checksum, verify: bool, file: Bytes, st: ReaderState,
                                       data: Bytes, begin: bool, scratch: Bytes)
    requires Aligned(file, st) && Agrees(file, st.pos, Emit(c, st.pos, data, begin))
    requires begin ==> scratch == []
    ensures var end := st.pos + |Emit(c, st.pos, data, begin)|;
            var r := ReadRecord(c, verify, file, st, !begin, scratch);
            && r.drops == []
            && if end <= |file|
               then r.result == Some(scratch + data) && r.st.pos == end && Aligned(file, r.st)
               else r.result == None
    decreases |data|, if st.pos % BLOCK_SIZE == BLOCK_SIZE - HEADER_SIZE then 1 else 0
  {
    hide ReadPhysical;
    hide Emit;
    hide Agrees;
    hide Padding;
    var off := st.pos;
    var n := Take(off, |data|);
    var kind := Kind(begin, n == |data|);
    EmitStep(c, off, data, begin, file);
    PhysicalStep(c, verify, file, st, kind, data[..n]);
    var p := ReadPhysical(c, verify, file, st);
    if n == |data| {
      assert data[..n] == data && scratch + data[..n] == scratch + data;
      assert begin ==> scratch + data == data;
    } else if p.result != Eof {
      var sc := if begin then data[..n] else scratch + data[..n];
      assert sc + data[n..] == scratch + data;
      ReadEmitted(c, verify, file, p.st, data[n..], false, sc);
    }
  }

  // ------------------------------------------------------------------
  // Whole logs
  // ------------------------------------------------------------------

  // How many records lie wholly within the first t bytes.
  function Complete(c: Checksum, off: nat, recs: seq<Bytes>, t: nat): (k: nat)
    ensures k <= |recs|
    decreases |recs|
  {
    if recs == [] then 0
    else
      var end := off + |Emit(c, off, recs[0], true)|;
      if end <= t then 1 + Complete(c, end, recs[1..], t) else 0
  }

  lemma {:induction false} ReadPrefix(c: Checksum, verify: bool, file: Bytes, st: ReaderState, recs: seq<Bytes>)
    requires Aligned(file, st) && Agrees(file, st.pos, LogBytes(c, st.pos, recs))
    requires |file| <= st.pos + |LogBytes(c, st.pos, recs)|
    ensures ReadAll(c, verify, file, st) == Contents(recs[..Complete(c, st.pos, recs, |file|)], [])
    decreases |recs|
  {
    hide ReadRecord;
    hide Emit;
    hide ReadPhysical;
    if recs == [] {
      NothingLeft(c, verify, file, st);
    } else {
      var e := Emit(c, st.pos, recs[0], true);
      var tail := LogBytes(c, st.pos + |e|, recs[1..]);
      AgreesSplit(file, st.pos, e, tail);
      ReadEmitted(c, verify, file, st, recs[0], true, []);
      var o := ReadRecord(c, verify, file, st, false, []);
      if st.pos + |e| <= |file| {
        ReadPrefix(c, verify, file, o.st, recs[1..]);
        var k := Complete(c, o.st.pos, recs[1..], |file|);
        assert [recs[0]] + recs[1..][..k] == recs[..1 + k];
        assert [] + recs[0] == recs[0];
      }
    }
  }

  lemma NothingLeft(c: Checksum, verify: bool, file: Bytes, st: ReaderState)
    requires Aligned(file, st) && st.pos == |file|
    ensures ReadRecord(c, verify, file, st, false, []) == Outcome(None, ReadPhysical(c, verify, file, st).st, [])
  {
  }

  lemma {:induction false} AllComplete(c: Checksum, off: nat, recs: seq<Bytes>)
    ensures Complete(c, off, recs, off + |LogBytes(c, off, recs)|) == |recs|
    decreases |recs|
  {
    hide Emit;
    if recs == [] {
    } else {
      AllComplete(c, off + |Emit(c, off, recs[0], true)|, recs[1..]);
    }
  }

  /** Cutting a log at any byte leaves exactly the records whose last fragment is wholly
      there, in order, and the reader reports no corruption. */
  lemma TruncatedLog(c: Checksum, recs: seq<Bytes>, t: nat)
    requires t <= |LogBytes(c, 0, recs)|
    ensures ReadLog(c, LogBytes(c, 0, recs)[..t]) == Contents(recs[..Complete(c, 0, recs, t)], [])
  {
    ReadPrefix(c, true, LogBytes(c, 0, recs)[..t], StartState(), recs);
  }

  /** Reading a whole log returns exactly what was written. */
  lemma LogRoundTrip(c: Checksum, recs: seq<Bytes>)
    ensures ReadLog(c, LogBytes(c, 0, recs)) == Contents(recs, [])
  {
    hide *;
    var all := LogBytes(c, 0, recs);
    AllComplete(c, 0, recs);
    TruncatedLog(c, recs, |all|);
    assert all[..|all|] == all && recs[..|recs|] == recs;
  }

  /** Records appended later, also by another writer, continue the same log. */
  lemma {:induction false} LogAppend(c: Checksum, off: nat, a: seq<Bytes>, b: seq<Bytes>)
    ensures LogBytes(c, off, a + b) == LogBytes(c, off, a) + LogBytes(c, off + |LogBytes(c, off, a)|, b)
    decreases |a|
  {
    hide Emit;
    if a == [] {
      assert a + b == b;
    } else {
      assert (a + b)[1..] == a[1..] + b;
      LogAppend(c, off + |Emit(c, off, a[0], true)|, a[1..], b);
    }
  }
}
