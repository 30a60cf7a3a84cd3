/**
 What a failed append does to a log: nothing, as long as nothing follows it. But the
 writer counts the bytes it could not write, and what it appends next, at what it takes
 for its place in the block, can make the whole log unreadable.
 */
module LogFailure {
  import opened Coding
  import opened LogFormat
  import opened LogTheorems
  import opened LogIO

  /** A record that could be appended only in part leaves the records before it, and is
      itself there if and only if all of its bytes are. */
  lemma FailedAppend(c: Checksum, recs: seq<Bytes>, rec: Bytes, room: nat)
    ensures var log := LogBytes(c, 0, recs);
            var e := Emit(c, |log|, rec, true);
            ReadLog(c, log + Fitting(e, Some(room))) == Contents(if room < |e| then recs else recs + [rec], [])
  {
    hide LogBytes;
    hide Emit;
    hide ReadLog;
    hide Complete;
    var log, all := LogBytes(c, 0, recs), LogBytes(c, 0, recs + [rec]);
    var e := Emit(c, |log|, rec, true);
    LogAppend(c, 0, recs, [rec]);
    LogSingleAt(c, |log|, rec);
    var t := |log| + if room < |e| then room else |e|;
    TruncatedLog(c, recs + [rec], t);
    assert all[..t] == log + Fitting(e, Some(room));
    LastComplete(c, 0, recs, rec, t);
    assert (recs + [rec])[..|recs|] == recs && (recs + [rec])[..|recs| + 1] == recs + [rec];
  }

  lemma LogSingleAt(c: Checksum, off: nat, rec: Bytes)
    ensures LogBytes(c, off, [rec]) == Emit(c, off, rec, true)
  {
    hide Emit;
    assert [rec][1..] == [];
  }

  // All records but the last are complete, and the last one is if its end is there.
  lemma {:induction false} LastComplete(c: Checksum, off: nat, recs: seq<Bytes>, rec: Bytes, t: nat)
    requires t >= off + |LogBytes(c, off, recs)|
    ensures var end := off + |LogBytes(c, off, recs)|;
            Complete(c, off, recs + [rec], t) == |recs| + if end + |Emit(c, end, rec, true)| <= t then 1 else 0
    decreases |recs|
  {
    hide Emit;
    var all := recs + [rec];
    if recs == [] {
      assert all == [rec] && all[1..] == [];
    } else {
      assert all[1..] == recs[1..] + [rec] && all[0] == recs[0];
      LastComplete(c, off + |Emit(c, off, recs[0], true)|, recs[1..], rec, t);
    }
  }

  // ------------------------------------------------------------------
  // Appending after a failure
  // ------------------------------------------------------------------

  // The records at the front are read, whatever follows them.
  lemma {:induction false} ReadThrough(c: Checksum, verify: bool, file: Bytes, st: ReaderState, recs: seq<Bytes>)
    returns (after: ReaderState)
    requires Aligned(file, st) && Agrees(file, st.pos, LogBytes(c, st.pos, recs))
    requires st.pos + |LogBytes(c, st.pos, recs)| <= |file|
    ensures Aligned(file, after) && after.pos == st.pos + |LogBytes(c, st.pos, recs)|
    ensures var rest := ReadAll(c, verify, file, after);
            ReadAll(c, verify, file, st) == Contents(recs + rest.recs, rest.drops)
    decreases |recs|
  {
    hide ReadRecord;
    hide ReadAll;
    hide Emit;
    hide Agrees;
    hide Aligned;
    AlignedWithin(file, st);
    if recs == [] {
      after := st;
      assert [] + ReadAll(c, verify, file, st).recs == ReadAll(c, verify, file, st).recs;
    } else {
      var e := Emit(c, st.pos, recs[0], true);
      AgreesSplit(file, st.pos, e, LogBytes(c, st.pos + |e|, recs[1..]));
      ReadEmitted(c, verify, file, st, recs[0], true, []);
      assert [] + recs[0] == recs[0];
      ReadNext(c, verify, file, st, recs[0]);
      var o := ReadRecord(c, verify, file, st, false, []);
      after := ReadThrough(c, verify, file, o.st, recs[1..]);
      AlignedWithin(file, after);
      var rest := ReadAll(c, verify, file, after);
      assert [recs[0]] + (recs[1..] + rest.recs) == recs + rest.recs;
    }
  }

  lemma ReadNext(c: Checksum, verify: bool, file: Bytes, st: ReaderState, rec: Bytes)
    requires Within(file, st)
    requires var o := ReadRecord(c, verify, file, st, false, []); o.result == Some(rec) && o.drops == []
    ensures var o := ReadRecord(c, verify, file, st, false, []);
            var rest := ReadAll(c, verify, file, o.st);
            ReadAll(c, verify, file, st) == Contents([rec] + rest.recs, rest.drops)
  {
    hide ReadRecord;
    var o := ReadRecord(c, verify, file, st, false, []);
    var rest := ReadAll(c, verify, file, o.st);
    assert o.drops + rest.drops == rest.drops;
  }

  lemma AlignedWithin(file: Bytes, st: ReaderState)
    requires Aligned(file, st)
    ensures Within(file, st)
  {
  }

  // A fragment that does not end in the block it starts in is reported as corrupted.
  lemma CrossingDropped(c: Checksum, verify: bool, file: Bytes, st: ReaderState, kind: Byte, payload: Bytes)
    requires Aligned(file, st) && |payload| < 65536 && st.pos + HEADER_SIZE + |payload| == |file|
    requires Agrees(file, st.pos, Fragment(c, kind, payload))
    requires var left := BLOCK_SIZE - st.pos % BLOCK_SIZE; HEADER_SIZE <= left < HEADER_SIZE + |payload|
    ensures ReadPhysical(c, verify, file, st).drops != []
  {
    hide Fragment;
    hide Crc;
    hide Unmask;
    var s := if st.end - st.pos >= HEADER_SIZE || st.eof then st else Refill(file, st);
    BufferReaches(file, st, s);
    FragmentHeader(c, kind, payload);
    var f, buf := Fragment(c, kind, payload), file[s.pos..s.end];
    assert Padding(st.pos) == 0;
    assert s.end - s.pos >= HEADER_SIZE && !s.eof;
    assert buf[4] == f[4] && buf[5] == f[5];
  }

  lemma DropsStay(c: Checksum, verify: bool, file: Bytes, st: ReaderState)
    requires Within(file, st) && ReadPhysical(c, verify, file, st).drops != []
    ensures ReadAll(c, verify, file, st).drops != []
  {
    hide ReadPhysical;
    hide Assemble;
  }

  /** A writer that is out of step with its file, and takes the end of a log of any records
      for place "at" of a block, appends a record that fits the rest of that block. The
      record, and all before it, can be read if and only if it also fits the rest of the
      block that it is really in; otherwise corruption is reported. */
  lemma OutOfStepIff(c: Checksum, recs: seq<Bytes>, at: nat, rec: Bytes)
    requires Padding(at) == 0 && Take(at, |rec|) == |rec|
    requires |LogBytes(c, 0, recs)| % BLOCK_SIZE + HEADER_SIZE <= BLOCK_SIZE
    ensures var log := LogBytes(c, 0, recs);
            var file := log + Emit(c, at, rec, true);
            if |log| % BLOCK_SIZE + HEADER_SIZE + |rec| <= BLOCK_SIZE
            then ReadLog(c, file) == Contents(recs + [rec], [])
            else ReadLog(c, file).drops != []
  {
    hide LogBytes;
    hide ReadAll;
    var log := LogBytes(c, 0, recs);
    var file := log + Emit(c, at, rec, true);
    OneFragment(c, at, rec);
    if |log| % BLOCK_SIZE + HEADER_SIZE + |rec| <= BLOCK_SIZE {
      OneFragment(c, |log|, rec);
      LogAppend(c, 0, recs, [rec]);
      LogSingleAt(c, |log|, rec);
      LogRoundTrip(c, recs + [rec]);
    } else {
      var after := ReadThrough(c, true, file, StartState(), recs);
      CrossingDropped(c, true, file, after, FULL_TYPE, rec);
      DropsStay(c, true, file, after);
    }
  }

  lemma OneFragment(c: Checksum, at: nat, rec: Bytes)
    requires at % BLOCK_SIZE + HEADER_SIZE + |rec| <= BLOCK_SIZE
    ensures Emit(c, at, rec, true) == Fragment(c, FULL_TYPE, rec)
  {
    hide Fragment;
    assert rec[..|rec|] == rec;
  }

  /** An append of which nothing reaches the file, of a record that would have filled the
      block, and then one that succeeds: the file can be read if and only if the second
      record fits where the first one would have started. */
  method AppendAfterFailure(w: Writer, ghost recs: seq<Bytes>, lost: Bytes, rec: Bytes)
    requires w.Valid() && w.InStep() && w.dest == LogBytes(w.c, 0, recs) && |rec| + HEADER_SIZE <= BLOCK_SIZE
    requires |w.dest| % BLOCK_SIZE + HEADER_SIZE <= BLOCK_SIZE <= |w.dest| % BLOCK_SIZE + HEADER_SIZE + |lost|
    modifies w
    ensures w.Valid() && w.dest == old(w.dest) + Fragment(w.c, FULL_TYPE, rec)
    ensures ReadLog(w.c, w.dest) == Contents(recs + [rec], []) <==>
            |old(w.dest)| % BLOCK_SIZE + HEADER_SIZE + |rec| <= BLOCK_SIZE
  {
    hide LogBytes;
    hide Emit;
    hide ReadLog;
    hide Fragment;
    var ok := w.AddRecord(lost, Some(0));
    assert w.dest == old(w.dest) && w.blockOffset == BLOCK_SIZE;
    ok := w.AddRecord(rec, None);
    OneFragment(w.c, BLOCK_SIZE, rec);
    OutOfStepIff(w.c, recs, BLOCK_SIZE, rec);
  }
}
