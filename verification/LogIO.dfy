/**
 The log writer and reader as objects: the writer keeps its place in the current
 block, the reader keeps the unread part of the current block.
 */
module LogIO {
  import opened Coding
  import opened LogFormat
  import opened LogTheorems

  // How many more bytes the file accepts before it fails; None if it does not fail.
  type Room = Option<nat>

  function Less(room: Room, n: nat): Room
    requires room.Some? ==> n <= room.value
  {
    if room.None? then None else Some(room.value - n)
  }

  // The part of some bytes that there is room for.
  function Fitting(bytes: Bytes, room: Room): Bytes {
    if room.Some? && room.value < |bytes| then bytes[..room.value] else bytes
  }

  class Writer {
    const c: Checksum
    var dest: Bytes
    var blockOffset: nat

    ghost predicate Valid()
      reads this
    {
      blockOffset <= BLOCK_SIZE
    }

    // The writer knows where in its block the file ends.
    ghost predicate InStep()
      reads this
    {
      SameSpot(blockOffset, |dest|)
    }

    // Start a new file.
    constructor (checksum: Checksum)
      ensures Valid() && InStep() && c == checksum && dest == []
    {
      c, dest, blockOffset := checksum, [], 0;
    }

    // Continue a file that already holds some bytes.
    constructor Reopen(checksum: Checksum, existing: Bytes)
      ensures Valid() && InStep() && c == checksum && dest == existing
    {
      c, dest, blockOffset := checksum, existing, |existing| % BLOCK_SIZE;
    }

    /** Fragment the record if necessary and append it. A file that fails is left with the
        bytes it accepted; that may be all of the record, if only its last flush failed. */
    method AddRecord(slice: Bytes, room: Room) returns (ok: bool)
      requires Valid()
      modifies this
      ensures Valid() && (ok && old(InStep()) ==> InStep())
      ensures var e := Emit(c, old(blockOffset), slice, true);
              dest == old(dest) + Fitting(e, room) && (ok <==> room.None? || |e| < room.value)
      ensures room == Some(0) && Padding(old(blockOffset)) == 0 ==>
                blockOffset == old(blockOffset) % BLOCK_SIZE + HEADER_SIZE + Take(old(blockOffset), |slice|)
    {
      hide Emit;
      hide Take;
      hide Head;
      hide SameSpot;
      hide Fitting;
      hide Rest;
      ghost var e := Emit(c, blockOffset, slice, true);
      ghost var done: nat := 0;
      var ptr, begin, left, more := 0, true, room, true;
      ok := true;
      RestStart(c, blockOffset, slice, dest);
      while more
        invariant Valid() && 0 <= ptr <= |slice| && done <= |e|
        invariant more ==> ok && Rest(c, e, done, blockOffset, slice[ptr..], begin)
        invariant ok ==> dest == old(dest) + e[..done] && (room.Some? ==> done <= room.value) && left == Less(room, done)
        invariant ok ==> SameSpot(blockOffset, old(blockOffset) + done)
        invariant ok && !more ==> done == |e| && (room.Some? ==> done < room.value)
        invariant room == Some(0) ==> if more then ptr == 0 && blockOffset == old(blockOffset) else !ok
        invariant room == Some(0) && !more && Padding(old(blockOffset)) == 0 ==>
                    blockOffset == old(blockOffset) % BLOCK_SIZE + HEADER_SIZE + Take(old(blockOffset), |slice|)
        invariant !ok ==> room.Some? && room.value <= |e| && dest == old(dest) + e[..room.value]
        decreases more, |slice| - ptr, if blockOffset % BLOCK_SIZE == BLOCK_SIZE - HEADER_SIZE then 1 else 0
      {
        ghost var at, data := blockOffset, slice[ptr..];
        ghost var size := |Head(c, at, data, begin)|;
        var n, rest;
        n, ok, rest := AddFragment(slice[ptr..], begin, left);
        Wrote(c, e, done, at, data, begin, old(dest), left);
        if ok {
          Advanced(c, e, done, at, data, begin, blockOffset, old(blockOffset));
          assert data[n..] == slice[ptr + n..];
          done := done + size;
          ptr, left := ptr + n, rest;
        }
        begin, more := false, ok && ptr < |slice|;
      }
      Finished(e, room, old(blockOffset), |old(dest)|, blockOffset, ok);
    }

    // One round of the loop: finish the block if no header fits, then append one fragment.
    method AddFragment(data: Bytes, begin: bool, room: Room) returns (n: nat, ok: bool, rest: Room)
      requires Valid()
      modifies this
      ensures Valid() && n == Take(old(blockOffset), |data|)
      ensures ok ==> SameSpot(blockOffset, old(blockOffset) + |Head(c, old(blockOffset), data, begin)|)
      ensures ok && n < |data| ==> blockOffset == BLOCK_SIZE
      ensures Padding(old(blockOffset)) == 0 ==> blockOffset == old(blockOffset) % BLOCK_SIZE + HEADER_SIZE + n
      ensures var h := Head(c, old(blockOffset), data, begin);
              && dest == old(dest) + Fitting(h, room)
              && (ok <==> room.None? || |h| < room.value)
              && (ok ==> rest == Less(room, |h|))
    {
      hide Fragment;
      hide Zeros;
      hide Kind;
      hide SameSpot;
      hide Fitting;
      ghost var at := blockOffset;
      ok, rest := PadBlock(room);
      var avail := BLOCK_SIZE - blockOffset - HEADER_SIZE;
      n := if |data| < avail then |data| else avail;
      FittingCat(Zeros(Padding(at)), Fragment(c, Kind(begin, n == |data|), data[..n]), room);
      if ok {
        ok, rest := EmitPhysicalRecord(Kind(begin, n == |data|), data[..n], rest);
        Placed(at, Padding(at), HEADER_SIZE + n);
      }
    }

    // Switch to a new block if the rest of this one cannot hold a header.
    method PadBlock(room: Room) returns (ok: bool, rest: Room)
      requires Valid()
      modifies this
      ensures Valid() && blockOffset == (old(blockOffset) + Padding(old(blockOffset))) % BLOCK_SIZE
      ensures blockOffset + HEADER_SIZE <= BLOCK_SIZE
      ensures dest == old(dest) + Fitting(Zeros(Padding(old(blockOffset))), room)
      ensures ok <==> room.None? || Padding(old(blockOffset)) <= room.value
      ensures ok ==> rest == Less(room, Padding(old(blockOffset)))
    {
      ok, rest := true, room;
      var leftover := BLOCK_SIZE - blockOffset;
      if leftover < HEADER_SIZE {
        if leftover > 0 {
          ok, rest := Append(Zeros(leftover), room);
        }
        blockOffset := 0;
      }
    }

    method EmitPhysicalRecord(kind: Byte, payload: Bytes, room: Room) returns (ok: bool, rest: Room)
      requires Valid() && blockOffset + HEADER_SIZE + |payload| <= BLOCK_SIZE
      modifies this
      ensures Valid() && blockOffset == old(blockOffset) + HEADER_SIZE + |payload|
      ensures var f := Fragment(c, kind, payload);
              && dest == old(dest) + Fitting(f, room)
              && (ok <==> room.None? || |f| < room.value)
              && (ok ==> rest == Less(room, |f|))
    {
      hide Mask;
      hide Crc;
      hide Fixed;
      var header := Fixed(Mask(Crc(c, kind, payload)), 4) + [|payload| % 256, |payload| / 256, kind];
      FittingCat(header, payload, room);
      ok, rest := Append(header, room);
      if ok {
        ok, rest := Append(payload, rest);
        if ok {
          // The flush fails if the file accepts nothing more.
          ok := rest != Some(0);
        }
      }
      blockOffset := blockOffset + HEADER_SIZE + |payload|;
    }

    method Append(bytes: Bytes, room: Room) returns (ok: bool, rest: Room)
      modifies this`dest
      ensures dest == old(dest) + Fitting(bytes, room)
      ensures ok <==> room.None? || |bytes| <= room.value
      ensures ok ==> rest == Less(room, |bytes|)
    {
      dest := dest + Fitting(bytes, room);
      ok := room.None? || |bytes| <= room.value;
      rest := if ok then Less(room, |bytes|) else room;
    }
  }

  lemma FittingCat(a: Bytes, b: Bytes, room: Room)
    ensures Fitting(a + b, room) ==
            if room.Some? && room.value < |a| then Fitting(a, room) else a + Fitting(b, Less(room, |a|))
    ensures !(room.Some? && room.value < |a|) ==> Fitting(a, room) == a
  {
  }

  // The same place in a block.
  predicate SameSpot(a: nat, b: nat) { a % BLOCK_SIZE == b % BLOCK_SIZE }

  lemma Placed(at: nat, pad: nat, size: nat)
    ensures SameSpot((at + pad) % BLOCK_SIZE + size, at + (pad + size))
  {
    SameOffset((at + pad) % BLOCK_SIZE, at + pad, size);
  }

  // What is left to write of a record, of which "done" bytes are written.
  ghost predicate Rest(c: Checksum, e: Bytes, done: nat, at: nat, data: Bytes, begin: bool) {
    done <= |e| && e[done..] == Emit(c, at, data, begin)
  }

  lemma RestStart(c: Checksum, at: nat, data: Bytes, dest: Bytes)
    ensures var e := Emit(c, at, data, true); Rest(c, e, 0, at, data[0..], true) && dest + e[..0] == dest
    ensures SameSpot(at, at + 0)
  {
    assert data[0..] == data;
  }

  // The next fragment, or the part of it that there is room for, is where it belongs.
  lemma Wrote(c: Checksum, e: Bytes, done: nat, at: nat, data: Bytes, begin: bool, dest: Bytes, left: Room)
    requires Rest(c, e, done, at, data, begin)
    ensures var h := Head(c, at, data, begin);
            && done + |h| <= |e|
            && dest + e[..done] + Fitting(h, left) ==
               dest + e[..done + if left.Some? && left.value < |h| then left.value else |h|]
  {
    hide Emit;
    hide Head;
    hide Take;
    hide Padding;
    EmitUnfold(c, at, data, begin);
    HeadFirst(e, done, Head(c, at, data, begin));
    Joined(e, done, Head(c, at, data, begin), dest, left);
  }

  lemma Joined(e: Bytes, done: nat, h: Bytes, dest: Bytes, left: Room)
    requires done + |h| <= |e| && e[done..][..|h|] == h
    ensures dest + e[..done] + Fitting(h, left) ==
            dest + e[..done + if left.Some? && left.value < |h| then left.value else |h|]
  {
    var m := if left.Some? && left.value < |h| then left.value else |h|;
    assert Fitting(h, left) == e[done..done + m];
    assert e[..done] + e[done..done + m] == e[..done + m];
  }

  lemma HeadFirst(e: Bytes, done: nat, h: Bytes)
    requires done <= |e| && h <= e[done..]
    ensures done + |h| <= |e| && e[done..][..|h|] == h
  {
  }

  lemma Advanced(c: Checksum, e: Bytes, done: nat, at: nat, data: Bytes, begin: bool, at1: nat, start: nat)
    requires Rest(c, e, done, at, data, begin) && SameSpot(at, start + done)
    requires SameSpot(at1, at + |Head(c, at, data, begin)|)
    ensures var n, size := Take(at, |data|), |Head(c, at, data, begin)|;
            && SameSpot(at1, start + (done + size))
            && done + size <= |e|
            && (n == |data| ==> done + size == |e|)
            && (n < |data| ==> Rest(c, e, done + size, at1, data[n..], false))
  {
    hide Emit;
    hide Head;
    hide Take;
    hide Padding;
    var n, h := Take(at, |data|), Head(c, at, data, begin);
    EmitUnfold(c, at, data, begin);
    HeadFirst(e, done, h);
    SameOffset(at, start + done, |h|);
    if n < |data| {
      EmitMod(c, at + |h|, at1, data[n..], false);
      assert e[done..][|h|..] == e[done + |h|..];
    }
  }

  lemma Finished(e: Bytes, room: Room, at: nat, size: nat, at1: nat, ok: bool)
    requires ok ==> SameSpot(at1, at + |e|)
    ensures ok && SameSpot(at, size) ==> SameSpot(at1, size + |e|)
    ensures room.Some? && room.value <= |e| ==> Fitting(e, room) == e[..room.value]
    ensures room.None? || |e| < room.value ==> Fitting(e, room) == e[..|e|]
  {
    if ok && SameSpot(at, size) {
      SameOffset(at, size, |e|);
    }
  }

  /** A writer that reopens a file appends what one uninterrupted writer would have. */
  method WriteInTwoSessions(checksum: Checksum, first: seq<Bytes>, second: seq<Bytes>) returns (file: Bytes)
    ensures file == LogBytes(checksum, 0, first + second)
  {
    hide *;
    var w := new Writer(checksum);
    WriteAll(w, first);
    var w2 := new Writer.Reopen(checksum, w.dest);
    WriteAll(w2, second);
    file := w2.dest;
    LogAppend(checksum, 0, first, second);
  }

  method WriteAll(w: Writer, recs: seq<Bytes>)
    requires w.Valid() && w.InStep()
    modifies w
    ensures w.Valid() && w.InStep()
    ensures w.dest == old(w.dest) + LogBytes(w.c, |old(w.dest)|, recs)
  {
    hide Emit;
    ghost var target := w.dest + LogBytes(w.c, |w.dest|, recs);
    var i := 0;
    assert recs[i..] == recs;
    while i < |recs|
      invariant 0 <= i <= |recs| && w.Valid() && w.InStep()
      invariant w.dest + LogBytes(w.c, |w.dest|, recs[i..]) == target
    {
      LogUnfold(w.c, w.dest, recs[i..]);
      EmitMod(w.c, w.blockOffset, |w.dest|, recs[i], true);
      var _ := w.AddRecord(recs[i], None);
      assert recs[i..][1..] == recs[i + 1..];
      i := i + 1;
    }
  }

  lemma LogUnfold(c: Checksum, dest: Bytes, recs: seq<Bytes>)
    requires recs != []
    ensures var e := Emit(c, |dest|, recs[0], true);
            dest + LogBytes(c, |dest|, recs) == (dest + e) + LogBytes(c, |dest + e|, recs[1..])
  {
    hide Emit;
  }

  class Reader {
    const c: Checksum
    const verify: bool
    const file: Bytes
    var buffer: Bytes
    var endOfBuffer: nat
    var eof: bool
    var drops: seq<nat>

    ghost predicate Valid()
      reads this
    {
      |buffer| <= endOfBuffer <= |file| && buffer == file[endOfBuffer - |buffer|..endOfBuffer]
    }

    ghost function State(): (st: ReaderState)
      requires Valid()
      reads this
      ensures Within(file, st)
    {
      ReaderState(endOfBuffer - |buffer|, endOfBuffer, eof)
    }

    constructor (checksum: Checksum, contents: Bytes, check: bool)
      ensures Valid() && State() == StartState() && drops == []
      ensures c == checksum && file == contents && verify == check
    {
      c, verify, file := checksum, check, contents;
      buffer, endOfBuffer, eof, drops := [], 0, false, [];
      new;
      assert file[0..0] == [];
    }

    method Drop(reported: bool)
      requires Valid()
      modifies this`buffer, this`drops
      ensures Valid() && State() == old(State()).(pos := endOfBuffer)
      ensures drops == old(drops) + (if reported then [|old(buffer)|] else [])
    {
      if reported {
        drops := drops + [|buffer|];
      }
      buffer := [];
    }

    method Parse() returns (p: Physical)
      requires Valid() && |buffer| >= HEADER_SIZE
      modifies this`buffer, this`drops
      ensures Valid()
      ensures var o := ParseFragment(c, verify, file, old(State()));
              p == o.result && State() == o.st && drops == old(drops) + o.drops
    {
      hide DecodeFixed;
      hide Unmask;
      hide Crc;
      var length: nat := buffer[4] as nat + 256 * buffer[5] as nat;
      var kind := buffer[6];
      if HEADER_SIZE + length > |buffer| {
        Drop(!eof);
        return if eof then Eof else Bad;
      }
      if kind == ZERO_TYPE && length == 0 {
        Drop(false);
        return Bad;
      }
      var payload := buffer[HEADER_SIZE..HEADER_SIZE + length];
      if verify {
        var masked := DecodeFixed(buffer[..4]);
        if masked >= UINT32 || Unmask(masked) != Crc(c, kind, payload) {
          Drop(true);
          return Bad;
        }
      }
      buffer := buffer[HEADER_SIZE + length..];
      return Typed(kind, payload);
    }

    method NextBlock()
      requires Valid() && !eof
      modifies this`buffer, this`endOfBuffer, this`eof
      ensures Valid() && State() == Refill(file, old(State()))
    {
      var to := if |file| - endOfBuffer < BLOCK_SIZE then |file| else endOfBuffer + BLOCK_SIZE;
      buffer := file[endOfBuffer..to];
      endOfBuffer := to;
      if |buffer| < BLOCK_SIZE {
        eof := true;
      }
    }

    /** Return the next fragment, reading another block when the current one is used up. */
    method ReadPhysicalRecord() returns (p: Physical)
      requires Valid()
      modifies this`buffer, this`endOfBuffer, this`eof, this`drops
      ensures Valid()
      ensures var o := ReadPhysical(c, verify, file, old(State()));
              p == o.result && State() == o.st && drops == old(drops) + o.drops
    {
      hide ParseFragment;
      hide ReadPhysical;
      hide Refill;
      ghost var target := ReadPhysical(c, verify, file, State());
      while |buffer| < HEADER_SIZE
        invariant Valid() && drops == old(drops)
        invariant ReadPhysical(c, verify, file, State()) == target
        decreases !eof, |file| - endOfBuffer
      {
        PhysicalUnfold(c, verify, file, State());
        if eof {
          buffer := [];
          return Eof;
        }
        NextBlock();
      }
      PhysicalUnfold(c, verify, file, State());
      p := Parse();
    }

    /** Put the next record together from its fragments. */
    method NextRecord() returns (r: Option<Bytes>)
      requires Valid()
      modifies this`buffer, this`endOfBuffer, this`eof, this`drops
      ensures Valid()
      ensures var o := ReadRecord(c, verify, file, old(State()), false, []);
              r == o.result && State() == o.st && drops == old(drops) + o.drops
    {
      hide ReadPhysical;
      hide ReadRecord;
      hide Assemble;
      hide Continues;
      ghost var target := ReadRecord(c, verify, file, State(), false, []);
      ghost var reported: seq<nat> := [];
      var scratch: Bytes, inFragment := [], false;
      ContinuesStart(target);
      while true
        invariant Valid() && drops == old(drops) + reported
        invariant Continues(target, reported, ReadRecord(c, verify, file, State(), inFragment, scratch))
        decreases |file| - (endOfBuffer - |buffer|)
      {
        ContinuesStep(c, verify, file, State(), inFragment, scratch, target, reported);
        ghost var seen := ReadPhysical(c, verify, file, State()).drops;
        var p := ReadPhysicalRecord();
        match Assemble(p, inFragment, scratch) {
          case End =>
            assert old(drops) + reported + seen == old(drops) + (reported + seen);
            return None;
          case Done(rec, d) =>
            drops := drops + d;
            Concat4(old(drops), reported, seen, d);
            return Some(rec);
          case More(inFrag, scr, d) =>
            drops := drops + d;
            Concat4(old(drops), reported, seen, d);
            reported := reported + (seen + d);
            inFragment, scratch := inFrag, scr;
        }
      }
    }
  }

  // What is still to come completes what was reported so far.
  ghost predicate Continues(target: Outcome<Option<Bytes>>, sofar: seq<nat>, rest: Outcome<Option<Bytes>>) {
    target == Outcome(rest.result, rest.st, sofar + rest.drops)
  }

  lemma ContinuesStart(target: Outcome<Option<Bytes>>)
    ensures Continues(target, [], target)
  {
    assert [] + target.drops == target.drops;
  }

  // One fragment more has been read.
  lemma ContinuesStep(c: Checksum, verify: bool, file: Bytes, st: ReaderState, inFragment: bool, scratch: Bytes,
                      target: Outcome<Option<Bytes>>, sofar: seq<nat>)
    requires Within(file, st) && Continues(target, sofar, ReadRecord(c, verify, file, st, inFragment, scratch))
    ensures var p := ReadPhysical(c, verify, file, st);
            && Within(file, p.st) && p.st.pos >= st.pos && (!p.result.Eof? ==> p.st.pos > st.pos)
            && match Assemble(p.result, inFragment, scratch) {
                 case End => p.result.Eof? && target == Outcome(None, p.st, sofar + p.drops)
                 case Done(rec, d) => target == Outcome(Some(rec), p.st, sofar + (p.drops + d))
                 case More(f, s, d) =>
                   !p.result.Eof? && Continues(target, sofar + (p.drops + d), ReadRecord(c, verify, file, p.st, f, s))
               }
  {
    hide ReadPhysical;
    var p := ReadPhysical(c, verify, file, st);
    var a := Assemble(p.result, inFragment, scratch);
    if a.More? {
      var o := ReadRecord(c, verify, file, p.st, a.inFragment, a.scratch);
      assert sofar + (p.drops + a.drops + o.drops) == sofar + (p.drops + a.drops) + o.drops;
    }
  }

  lemma PhysicalUnfold(c: Checksum, verify: bool, file: Bytes, st: ReaderState)
    requires Within(file, st)
    ensures ReadPhysical(c, verify, file, st) ==
            if st.end - st.pos >= HEADER_SIZE then ParseFragment(c, verify, file, st)
            else if st.eof then Outcome(Eof, st.(pos := st.end), [])
            else ReadPhysical(c, verify, file, Refill(file, st))
    ensures var s := Refill(file, st); s.eof || (s.end > st.end && !st.eof) || st.eof
  {
    hide ParseFragment;
  }

  lemma Concat4(a: seq<nat>, b: seq<nat>, c: seq<nat>, d: seq<nat>)
    ensures a + b + c + d == a + (b + (c + d))
  {
  }
}
