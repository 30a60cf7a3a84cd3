/**
 What the log reader makes of a file that nobody wrote like that: which fragments it
 accepts, what records can come out of any file at all, and what it reports.
 */
module LogDamage {
  import opened Coding
  import opened LogFormat
  import opened LogTheorems
  import opened LogFailure

  // ------------------------------------------------------------------
  // One fragment
  // ------------------------------------------------------------------

  // The length and the payload that the header at "p" gives.
  function LengthAt(file: Bytes, p: nat): nat
    requires p + HEADER_SIZE <= |file|
  {
    file[p + 4] as nat + 256 * file[p + 5] as nat
  }

  // These bytes are what a writer would have written: the checksum is right.
  ghost predicate Genuine(c: Checksum, file: Bytes, p: nat, kind: Byte, payload: Bytes) {
    && |payload| < 65536 && p + HEADER_SIZE + |payload| <= |file|
    && file[p..p + HEADER_SIZE + |payload|] ==
       Fixed(Mask(c([kind] + payload) % UINT32), 4) + [|payload| % 256, |payload| / 256, kind] + payload
  }

  lemma GenuineIs(c: Checksum, file: Bytes, p: nat, length: nat)
    requires p + HEADER_SIZE <= |file| && length == LengthAt(file, p) && p + HEADER_SIZE + length <= |file|
    ensures var kind, payload := file[p + 6], file[p + HEADER_SIZE..p + HEADER_SIZE + length];
            Genuine(c, file, p, kind, payload) <==>
            DecodeFixed(file[p..p + 4]) < UINT32 && Unmask(DecodeFixed(file[p..p + 4])) == Crc(c, kind, payload)
  {
    hide Mask;
    hide Unmask;
    hide Fixed;
    hide DecodeFixed;
    var kind, payload := file[p + 6], file[p + HEADER_SIZE..p + HEADER_SIZE + length];
    var sum, crc := file[p..p + 4], c([kind] + payload) % UINT32;
    FixedWidths();
    FixedUnique(sum);
    FixedRoundTrip(Mask(crc), 4);
    UnmaskMask(crc);
    MaskUnmask(DecodeFixed(sum));
    FirstDigit(file[p + 4], file[p + 5]);
    var all, rest := file[p..p + HEADER_SIZE + length], [file[p + 4], file[p + 5], kind] + payload;
    assert all == sum + rest;
    SameStart(sum, Fixed(Mask(crc), 4), rest);
    assert Fixed(Mask(crc), 4) + [length % 256, length / 256, kind] + payload == Fixed(Mask(crc), 4) + rest;
  }

  lemma SameStart(a: Bytes, b: Bytes, rest: Bytes)
    requires |a| == |b|
    ensures a + rest == b + rest <==> a == b
  {
    assert (a + rest)[..|a|] == a && (b + rest)[..|b|] == b;
  }

  /** What the reader does with the fragment at the front of its buffer, by what is in the
      file: it takes out exactly what a writer could have written, and reports everything
      else, but for what may be the end of the file and for an empty fragment of type 0. */
  lemma ParseIff(c: Checksum, file: Bytes, st: ReaderState)
    requires Within(file, st) && st.end - st.pos >= HEADER_SIZE
    ensures var o, p, length, kind := ParseFragment(c, true, file, st), st.pos, LengthAt(file, st.pos), file[st.pos + 6];
            var skipped, rest := st.(pos := st.end), st.end - st.pos;
            if p + HEADER_SIZE + length > st.end
            then o == if st.eof then Outcome(Eof, skipped, []) else Outcome(Bad, skipped, [rest])
            else if kind == ZERO_TYPE && length == 0 then o == Outcome(Bad, skipped, [])
            else
              var payload := file[p + HEADER_SIZE..p + HEADER_SIZE + length];
              if Genuine(c, file, p, kind, payload)
              then o == Outcome(if kind == 5 then Eof else if kind == 6 then Bad else Frag(kind, payload),
                                st.(pos := p + HEADER_SIZE + length), [])
              else o == Outcome(Bad, skipped, [rest])
  {
    hide Unmask;
    hide DecodeFixed;
    hide Crc;
    hide Genuine;
    var p, length, buf := st.pos, LengthAt(file, st.pos), file[st.pos..st.end];
    assert buf[..4] == file[p..p + 4];
    assert buf[4] == file[p + 4] && buf[5] == file[p + 5] && buf[6] == file[p + 6];
    if p + HEADER_SIZE + length <= st.end {
      GenuineIs(c, file, p, length);
      SubSlice(file, p, st.end, HEADER_SIZE, HEADER_SIZE + length);
    }
  }

  /** Without verification a whole fragment is taken out whatever its checksum is. */
  lemma ParseUnchecked(c: Checksum, file: Bytes, st: ReaderState)
    requires Within(file, st) && st.end - st.pos >= HEADER_SIZE
    requires st.pos + HEADER_SIZE + LengthAt(file, st.pos) <= st.end
    requires !(file[st.pos + 6] == ZERO_TYPE && LengthAt(file, st.pos) == 0)
    ensures var p, length := st.pos, LengthAt(file, st.pos);
            ParseFragment(c, false, file, st) ==
            Outcome(Typed(file[p + 6], file[p + HEADER_SIZE..p + HEADER_SIZE + length]),
                    st.(pos := p + HEADER_SIZE + length), [])
  {
    hide Typed;
    var p, length, buf := st.pos, LengthAt(file, st.pos), file[st.pos..st.end];
    assert buf[4] == file[p + 4] && buf[5] == file[p + 5] && buf[6] == file[p + 6];
    SubSlice(file, p, st.end, HEADER_SIZE, HEADER_SIZE + length);
  }

  // ------------------------------------------------------------------
  // What comes out of any file
  // ------------------------------------------------------------------

  // A fragment in the file.
  datatype Piece = Piece(at: nat, kind: Byte, data: Bytes)

  function End(p: Piece): nat { p.at + HEADER_SIZE + |p.data| }

  function Join(ps: seq<Piece>): Bytes
    decreases |ps|
  {
    if ps == [] then [] else Join(ps[..|ps| - 1]) + ps[|ps| - 1].data
  }

  // Genuine fragments, one after the other, between two places of the file.
  ghost predicate InFile(c: Checksum, file: Bytes, ps: seq<Piece>, from: nat, to: nat) {
    && (forall i :: 0 <= i < |ps| ==> Genuine(c, file, ps[i].at, ps[i].kind, ps[i].data))
    && (forall i :: 0 <= i < |ps| ==> from <= ps[i].at && End(ps[i]) <= to)
    && (forall i, j :: 0 <= i < j < |ps| ==> End(ps[i]) <= ps[j].at)
  }

  // The first fragments of a record.
  ghost predicate Started(ps: seq<Piece>) {
    && ps != [] && ps[0].kind == FIRST_TYPE
    && (forall i :: 0 < i < |ps| ==> ps[i].kind == MIDDLE_TYPE)
  }

  // All fragments of a record.
  ghost predicate Whole(ps: seq<Piece>) {
    || (|ps| == 1 && ps[0].kind == FULL_TYPE)
    || (|ps| >= 2 && Started(ps[..|ps| - 1]) && ps[|ps| - 1].kind == LAST_TYPE)
  }

  ghost predicate Backed(c: Checksum, file: Bytes, rec: Bytes, from: nat, to: nat) {
    exists ps :: Whole(ps) && InFile(c, file, ps, from, to) && Join(ps) == rec
  }

  // All records are, each behind the one before.
  ghost predicate AllBacked(c: Checksum, file: Bytes, recs: seq<Bytes>, from: nat)
    decreases |recs|
  {
    recs != [] ==> exists to :: from <= to && Backed(c, file, recs[0], from, to) && AllBacked(c, file, recs[1..], to)
  }

  lemma JoinMore(ps: seq<Piece>, p: Piece)
    ensures Join(ps + [p]) == Join(ps) + p.data && Join([p]) == p.data
  {
    assert (ps + [p])[..|ps|] == ps && [p][..0] == [];
  }

  lemma InFileMore(c: Checksum, file: Bytes, ps: seq<Piece>, from: nat, to: nat, p: Piece, to1: nat)
    requires InFile(c, file, ps, from, to) && from <= to <= p.at && End(p) <= to1
    requires Genuine(c, file, p.at, p.kind, p.data)
    ensures InFile(c, file, ps + [p], from, to1) && InFile(c, file, [p], from, to1)
  {
    hide Genuine;
  }

  lemma WholeMore(ps: seq<Piece>, p: Piece)
    ensures Started(ps) && p.kind == MIDDLE_TYPE ==> Started(ps + [p])
    ensures Started(ps) && p.kind == LAST_TYPE ==> Whole(ps + [p])
  {
    assert (ps + [p])[..|ps|] == ps;
  }

  // The next fragment is in the file.
  lemma NextPiece(c: Checksum, file: Bytes, st: ReaderState) returns (p: Piece)
    requires Within(file, st)
    ensures var r := ReadPhysical(c, true, file, st);
            r.result.Frag? ==>
              p.kind == r.result.kind && p.data == r.result.data && st.pos <= p.at && End(p) <= r.st.pos
              && Genuine(c, file, p.at, p.kind, p.data)
  {
    hide ParseFragment;
    hide Genuine;
    var s := if st.end - st.pos >= HEADER_SIZE then st else Refill(file, st);
    p := Piece(s.pos, 0, []);
    if s.end - s.pos >= HEADER_SIZE {
      ParseIff(c, file, s);
      var length := LengthAt(file, s.pos);
      if s.pos + HEADER_SIZE + length <= |file| {
        p := Piece(s.pos, file[s.pos + 6], file[s.pos + HEADER_SIZE..s.pos + HEADER_SIZE + length]);
      }
    }
  }

  // What is collected of a record, and what it was collected from.
  ghost predicate Collected(c: Checksum, file: Bytes, inFragment: bool, scratch: Bytes, ps: seq<Piece>, from: nat, to: nat) {
    inFragment ==> Started(ps) && InFile(c, file, ps, from, to) && Join(ps) == scratch
  }

  // One fragment more.
  lemma CollectMore(c: Checksum, file: Bytes, r: Outcome<Physical>, p: Piece, inFragment: bool, scratch: Bytes,
                    ps: seq<Piece>, from: nat, to: nat) returns (qs: seq<Piece>)
    requires from <= to <= r.st.pos && Collected(c, file, inFragment, scratch, ps, from, to)
    requires r.result.Frag? ==>
               p.kind == r.result.kind && p.data == r.result.data && to <= p.at && End(p) <= r.st.pos
               && Genuine(c, file, p.at, p.kind, p.data)
    ensures var a := Assemble(r.result, inFragment, scratch);
            && (a.Done? ==> Backed(c, file, a.rec, from, r.st.pos))
            && (a.More? ==> Collected(c, file, a.inFragment, a.scratch, qs, from, r.st.pos))
  {
    hide Genuine;
    hide Started;
    hide InFile;
    hide Join;
    qs := [p];
    if r.result.Frag? {
      JoinMore(ps, p);
      WholeMore(ps, p);
      Alone(p);
      NothingYet(c, file, from, to);
      InFileMore(c, file, if inFragment then ps else [], from, to, p, r.st.pos);
      if inFragment && p.kind != FIRST_TYPE && p.kind != FULL_TYPE {
        qs := ps + [p];
      }
      assert Whole(qs) && InFile(c, file, qs, from, r.st.pos) ==> Backed(c, file, Join(qs), from, r.st.pos);
    }
  }

  lemma {:induction false} RecordBacked(c: Checksum, file: Bytes, st: ReaderState, inFragment: bool, scratch: Bytes,
                                        ps: seq<Piece>, from: nat)
    requires Within(file, st) && from <= st.pos && Collected(c, file, inFragment, scratch, ps, from, st.pos)
    ensures var o := ReadRecord(c, true, file, st, inFragment, scratch);
            o.result.Some? ==> Backed(c, file, o.result.value, from, o.st.pos) && from <= o.st.pos
    decreases |file| - st.pos
  {
    hide ReadPhysical;
    hide Genuine;
    hide Collected;
    hide Backed;
    hide Assemble;
    var r := ReadPhysical(c, true, file, st);
    var a := Assemble(r.result, inFragment, scratch);
    var p := NextPiece(c, file, st);
    var qs := CollectMore(c, file, r, p, inFragment, scratch, ps, from, st.pos);
    if a.More? {
      RecordBacked(c, file, r.st, a.inFragment, a.scratch, qs, from);
    }
  }

  lemma Alone(p: Piece)
    ensures p.kind == FIRST_TYPE ==> Started([p])
    ensures p.kind == FULL_TYPE ==> Whole([p])
  {
  }

  lemma NothingYet(c: Checksum, file: Bytes, from: nat, to: nat)
    ensures InFile(c, file, [], from, to)
  {
  }

  /** Whatever file is read, every record that comes out of it was put together from genuine
      fragments of the file, a full one or a first one, middle ones and a last one, each
      behind the one before, and behind those of the record before. */
  lemma {:induction false} ReadsGenuine(c: Checksum, file: Bytes, st: ReaderState)
    requires Within(file, st)
    ensures AllBacked(c, file, ReadAll(c, true, file, st).recs, st.pos)
    decreases |file| - st.pos
  {
    hide ReadRecord;
    hide Backed;
    var o := ReadRecord(c, true, file, st, false, []);
    if o.result.None? {
    } else {
      RecordBacked(c, file, st, false, [], [], st.pos);
      ReadsGenuine(c, file, o.st);
      var recs := ReadAll(c, true, file, st).recs;
      assert recs[0] == o.result.value && recs[1..] == ReadAll(c, true, file, o.st).recs;
    }
  }

  // ------------------------------------------------------------------
  // What is reported
  // ------------------------------------------------------------------

  // What there is at "p" is no fragment, and is not taken for the end of the file or for
  // a stretch of zeros.
  ghost predicate Damaged(c: Checksum, file: Bytes, p: nat) {
    && p + HEADER_SIZE <= |file|
    && var length, kind := LengthAt(file, p), file[p + 6];
    if p % BLOCK_SIZE + HEADER_SIZE + length > BLOCK_SIZE
    then p - p % BLOCK_SIZE + BLOCK_SIZE <= |file|
    else
      && p + HEADER_SIZE + length <= |file| && !(kind == ZERO_TYPE && length == 0)
      && !Genuine(c, file, p, kind, file[p + HEADER_SIZE..p + HEADER_SIZE + length])
  }

  /** Reading one fragment reports something if and only if there is damage where the next
      fragment has to be, and then nothing of the block is used any more. */
  lemma PhysicalReportsIff(c: Checksum, file: Bytes, st: ReaderState)
    requires Aligned(file, st)
    ensures var r := ReadPhysical(c, true, file, st);
            && (r.drops != [] <==> Damaged(c, file, st.pos + Padding(st.pos)))
            && (r.drops != [] ==> r.result == Bad && r.st.pos == r.st.end)
  {
    hide ParseFragment;
    hide Genuine;
    var p := st.pos + Padding(st.pos);
    var s := if st.end - st.pos >= HEADER_SIZE || st.eof then st else Refill(file, st);
    BufferReaches(file, st, s);
    if s.end - s.pos >= HEADER_SIZE {
      ParseIff(c, file, s);
    }
  }

  // "p" is where a fragment of a record of "size" bytes starts that is written at "off".
  ghost predicate FragmentStart(off: nat, size: nat, p: nat)
    decreases size, if off % BLOCK_SIZE == BLOCK_SIZE - HEADER_SIZE then 1 else 0
  {
    var pad, n := Padding(off), Take(off, size);
    p == off + pad || (n < size && FragmentStart(off + pad + HEADER_SIZE + n, size - n, p))
  }

  lemma {:induction false} StartsBehind(off: nat, size: nat, p: nat)
    requires FragmentStart(off, size, p)
    ensures p >= off
    decreases size, if off % BLOCK_SIZE == BLOCK_SIZE - HEADER_SIZE then 1 else 0
  {
    var pad, n := Padding(off), Take(off, size);
    if p == off + pad {
    } else {
      StartsBehind(off + pad + HEADER_SIZE + n, size - n, p);
    }
  }

  lemma AgreesBefore(file: Bytes, p: nat, off: nat, bytes: Bytes)
    requires p <= |file| && off + |bytes| <= p && Agrees(file[..p], off, bytes)
    ensures Agrees(file, off, bytes)
  {
    forall i | 0 <= i < |bytes| && off + i < |file| ensures file[off + i] == bytes[i] {
      assert file[..p][off + i] == bytes[i];
    }
  }

  lemma {:induction false} DamageInRecord(c: Checksum, file: Bytes, st: ReaderState, data: Bytes, begin: bool, scratch: Bytes, p: nat)
    requires Aligned(file, st) && FragmentStart(st.pos, |data|, p) && p <= |file|
    requires Agrees(file[..p], st.pos, Emit(c, st.pos, data, begin)) && Damaged(c, file, p)
    ensures ReadRecord(c, true, file, st, !begin, scratch).drops != []
    decreases |data|, if st.pos % BLOCK_SIZE == BLOCK_SIZE - HEADER_SIZE then 1 else 0
  {
    hide ReadPhysical;
    hide Emit;
    hide Agrees;
    hide Damaged;
    hide Padding;
    hide Fragment;
    var off := st.pos;
    var n, o := Take(off, |data|), off + Padding(off);
    var kind := Kind(begin, n == |data|);
    PhysicalReportsIff(c, file, st);
    if p == o {
    } else {
      EmitStep(c, off, data, begin, file[..p]);
      StartsBehind(o + HEADER_SIZE + n, |data| - n, p);
      AgreesBefore(file, p, o, Fragment(c, kind, data[..n]));
      PhysicalStep(c, true, file, st, kind, data[..n]);
      var r := ReadPhysical(c, true, file, st);
      DamageInRecord(c, file, r.st, data[n..], false, if begin then data[..n] else scratch + data[..n], p);
    }
  }

  // What is reported while one record is read is reported.
  lemma ReportStays(c: Checksum, file: Bytes, st: ReaderState)
    requires Within(file, st) && ReadRecord(c, true, file, st, false, []).drops != []
    ensures ReadAll(c, true, file, st).drops != []
  {
    hide ReadRecord;
  }

  /** A log whose first damage is at the start of any fragment of any record, whatever follows
      it: corruption is reported. */
  lemma DamageReported(c: Checksum, recs: seq<Bytes>, rec: Bytes, file: Bytes, p: nat)
    requires var log := LogBytes(c, 0, recs);
             && FragmentStart(|log|, |rec|, p) && p <= |file|
             && Agrees(file[..p], 0, log + Emit(c, |log|, rec, true))
    requires Damaged(c, file, p)
    ensures ReadLog(c, file).drops != []
  {
    hide LogBytes;
    hide ReadAll;
    hide Emit;
    hide Agrees;
    hide Damaged;
    hide FragmentStart;
    var log := LogBytes(c, 0, recs);
    StartsBehind(|log|, |rec|, p);
    AgreesSplit(file[..p], 0, log, Emit(c, |log|, rec, true));
    AgreesBefore(file, p, 0, log);
    AtStart(file);
    var after := ReadThrough(c, true, file, StartState(), recs);
    DamageInRecord(c, file, after, rec, true, [], p);
    AlignedWithin(file, after);
    ReportStays(c, file, after);
  }

  lemma AtStart(file: Bytes)
    ensures Aligned(file, StartState())
  {
  }

  // ------------------------------------------------------------------
  // Putting records together
  // ------------------------------------------------------------------

  function Sum(s: seq<nat>): nat {
    if s == [] then 0 else s[0] + Sum(s[1..])
  }

  // What has been collected of a record.
  function Pending(inFragment: bool, scratch: Bytes): nat { if inFragment then |scratch| else 0 }

  function Payload(p: Physical): nat { if p.Frag? then |p.data| else 0 }

  // What is kept: a record, or what has been collected of one.
  function Kept(a: Assembly): nat {
    match a
    case Done(rec, _) => |rec|
    case More(inFragment, scratch, _) => Pending(inFragment, scratch)
    case End => 0
  }

  /** Nothing gets lost unnoticed while fragments are put together: every byte of payload is
      kept or reported, until the file ends. A fragment in the middle or at the end of nothing,
      one of an unknown type, and damage in the middle of a record are always reported. */
  lemma AssembleConserves(p: Physical, inFragment: bool, scratch: Bytes)
    ensures var a := Assemble(p, inFragment, scratch);
            !p.Eof? ==> Payload(p) + Pending(inFragment, scratch) == Kept(a) + Sum(a.drops)
    ensures var a := Assemble(p, inFragment, scratch);
            && (p.Frag? && p.kind in {MIDDLE_TYPE, LAST_TYPE} && !inFragment ==> a.More? && !a.inFragment && a.drops != [])
            && (p.Frag? && !(FULL_TYPE <= p.kind <= LAST_TYPE) ==> a.More? && !a.inFragment && a.drops != [])
            && (p.Bad? && inFragment ==> a.More? && !a.inFragment && a.drops != [])
  {
    var a := Assemble(p, inFragment, scratch);
    if !p.Eof? && |a.drops| == 1 {
      assert a.drops[1..] == [];
    }
  }

  // Something that is reported with the next fragment.
  lemma NextReported(c: Checksum, file: Bytes, st: ReaderState, inFragment: bool, scratch: Bytes)
    requires Within(file, st)
    requires var r := ReadPhysical(c, true, file, st);
             !r.result.Eof? && Assemble(r.result, inFragment, scratch).drops != []
    ensures ReadRecord(c, true, file, st, inFragment, scratch).drops != []
  {
    hide ReadPhysical;
    hide Assemble;
  }

  /** Behind any records, a middle or last fragment without a first one is reported, whatever
      follows. */
  lemma OrphanReported(c: Checksum, recs: seq<Bytes>, kind: Byte, payload: Bytes, file: Bytes)
    requires kind in {MIDDLE_TYPE, LAST_TYPE}
    requires var log := LogBytes(c, 0, recs);
             var o := |log| + Padding(|log|);
             && o % BLOCK_SIZE + HEADER_SIZE + |payload| <= BLOCK_SIZE && o + HEADER_SIZE + |payload| <= |file|
             && log <= file && Agrees(file, o, Fragment(c, kind, payload))
    ensures ReadLog(c, file).drops != []
  {
    hide LogBytes;
    hide ReadAll;
    hide ReadPhysical;
    hide Fragment;
    AtStart(file);
    var after := ReadThrough(c, true, file, StartState(), recs);
    PhysicalStep(c, true, file, after, kind, payload);
    AssembleConserves(Frag(kind, payload), false, []);
    NextReported(c, file, after, false, []);
    ReportStays(c, file, after);
  }

  /** Behind any records, a first fragment that another first or full one follows is reported:
      the record that it began is lost. */
  lemma UnfinishedReported(c: Checksum, recs: seq<Bytes>, lost: Bytes, kind: Byte, payload: Bytes, file: Bytes)
    requires kind in {FIRST_TYPE, FULL_TYPE} && lost != []
    requires var log := LogBytes(c, 0, recs);
             var o := |log| + Padding(|log|);
             var end := o + HEADER_SIZE + |lost|;
             var next := end + Padding(end);
             && o % BLOCK_SIZE + HEADER_SIZE + |lost| <= BLOCK_SIZE
             && next % BLOCK_SIZE + HEADER_SIZE + |payload| <= BLOCK_SIZE && next + HEADER_SIZE + |payload| <= |file|
             && log <= file && Agrees(file, o, Fragment(c, FIRST_TYPE, lost)) && Agrees(file, next, Fragment(c, kind, payload))
    ensures ReadLog(c, file).drops != []
  {
    hide LogBytes;
    hide ReadAll;
    hide ReadPhysical;
    hide Fragment;
    AtStart(file);
    var after := ReadThrough(c, true, file, StartState(), recs);
    PhysicalStep(c, true, file, after, FIRST_TYPE, lost);
    var r := ReadPhysical(c, true, file, after);
    PhysicalStep(c, true, file, r.st, kind, payload);
    NextReported(c, file, r.st, true, lost);
    ReportStays(c, file, after);
  }

  /** The reader's own code for the end of the file in a fragment: behind any records, a
      genuine fragment of type 5 ends the log, silently, whatever follows it. */
  lemma EndCodeHides(c: Checksum, recs: seq<Bytes>, payload: Bytes, file: Bytes)
    requires var log := LogBytes(c, 0, recs);
             var o := |log| + Padding(|log|);
             && log <= file && o % BLOCK_SIZE + HEADER_SIZE + |payload| <= BLOCK_SIZE
             && Genuine(c, file, o, EOF_CODE, payload)
    ensures ReadLog(c, file) == Contents(recs, [])
  {
    hide LogBytes;
    hide ReadAll;
    AtStart(file);
    var after := ReadThrough(c, true, file, StartState(), recs);
    GenuineEnds(c, file, after, payload);
    NothingMore(c, file, after);
    assert recs + [] == recs;
  }

  lemma GenuineEnds(c: Checksum, file: Bytes, st: ReaderState, payload: Bytes)
    requires Aligned(file, st)
    requires var o := st.pos + Padding(st.pos);
             o % BLOCK_SIZE + HEADER_SIZE + |payload| <= BLOCK_SIZE && Genuine(c, file, o, EOF_CODE, payload)
    ensures var r := ReadPhysical(c, true, file, st); r.result == Eof && r.drops == []
  {
    hide ParseFragment;
    hide Genuine;
    var o := st.pos + Padding(st.pos);
    var s := if st.end - st.pos >= HEADER_SIZE || st.eof then st else Refill(file, st);
    BufferReaches(file, st, s);
    GenuineParts(c, file, o, EOF_CODE, payload);
    ParseIff(c, file, s);
  }

  lemma GenuineParts(c: Checksum, file: Bytes, p: nat, kind: Byte, payload: Bytes)
    requires Genuine(c, file, p, kind, payload)
    ensures p + HEADER_SIZE + |payload| <= |file| && LengthAt(file, p) == |payload| && file[p + 6] == kind
    ensures file[p + HEADER_SIZE..p + HEADER_SIZE + |payload|] == payload
  {
    hide Mask;
    hide Fixed;
    var all := file[p..p + HEADER_SIZE + |payload|];
    assert all[4] == file[p + 4] && all[5] == file[p + 5] && all[6] == file[p + 6];
    assert all[HEADER_SIZE..] == payload;
    SubSlice(file, p, p + HEADER_SIZE + |payload|, HEADER_SIZE, HEADER_SIZE + |payload|);
  }

  lemma NothingMore(c: Checksum, file: Bytes, st: ReaderState)
    requires Within(file, st)
    requires var r := ReadPhysical(c, true, file, st); r.result == Eof && r.drops == []
    ensures ReadAll(c, true, file, st) == Contents([], [])
  {
    hide ReadPhysical;
  }
}
