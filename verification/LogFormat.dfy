/**
 The write-ahead log format: records are cut into fragments so that no fragment
 crosses a block boundary. This file gives the bytes that a writer appends and the
 meaning of reading a file back; the checksum is any function of the bytes it covers.
 */
module LogFormat {
  import opened Coding

  const BLOCK_SIZE := 32768
  const HEADER_SIZE := 7

  const ZERO_TYPE: Byte := 0
  const FULL_TYPE: Byte := 1
  const FIRST_TYPE: Byte := 2
  const MIDDLE_TYPE: Byte := 3
  const LAST_TYPE: Byte := 4

  // The reader's own codes, which a stored type byte can also have.
  const EOF_CODE: Byte := 5
  const BAD_CODE: Byte := 6

  type Checksum = Bytes -> nat

  // ------------------------------------------------------------------
  // Masked checksums
  // ------------------------------------------------------------------

  const MASK_DELTA := 0xa282ead8

  // Rotate right by 15 bits and add a constant, on 32 bits.
  function Mask(crc: nat): (m: nat)
    requires crc < UINT32
    ensures m < UINT32
  {
    (crc / 0x8000 + crc % 0x8000 * 0x2_0000 + MASK_DELTA) % UINT32
  }

  function Unmask(masked: nat): (crc: nat)
    requires masked < UINT32
    ensures crc < UINT32
  {
    var rot := (masked + UINT32 - MASK_DELTA) % UINT32;
    rot / 0x2_0000 + rot % 0x2_0000 * 0x8000
  }

  /** Masking moves the low 15 bits of a checksum in front of the other 17 and adds a constant. */
  lemma MaskRotates(high: nat, low: nat)
    requires high < 0x2_0000 && low < 0x8000
    ensures high * 0x8000 + low < UINT32
    ensures Mask(high * 0x8000 + low) == (low * 0x2_0000 + high + 0xa282ead8) % UINT32
  {
    assert (high * 0x8000 + low) / 0x8000 == high && (high * 0x8000 + low) % 0x8000 == low;
  }

  lemma UnmaskMask(crc: nat)
    requires crc < UINT32
    ensures Unmask(Mask(crc)) == crc
  {
    var hi, lo := crc / 0x8000, crc % 0x8000;
    Rotated(hi, lo);
    Unshift(hi + lo * 0x2_0000);
  }

  lemma Rotated(hi: nat, lo: nat)
    requires hi < 0x2_0000 && lo < 0x8000
    ensures hi + lo * 0x2_0000 < UINT32
    ensures (hi + lo * 0x2_0000) / 0x2_0000 == lo && (hi + lo * 0x2_0000) % 0x2_0000 == hi
  {
  }

  // Adding the constant can be undone on 32 bits.
  lemma Unshift(rot: nat)
    requires rot < UINT32
    ensures ((rot + MASK_DELTA) % UINT32 + UINT32 - MASK_DELTA) % UINT32 == rot
  {
  }

  lemma MaskUnmask(masked: nat)
    requires masked < UINT32
    ensures Mask(Unmask(masked)) == masked
  {
    var rot := (masked + UINT32 - MASK_DELTA) % UINT32;
    var hi, lo := rot % 0x2_0000, rot / 0x2_0000;
    assert rot == lo * 0x2_0000 + hi && hi < 0x2_0000 && lo < 0x8000;
    assert Unmask(masked) == lo + hi * 0x8000;
    assert (lo + hi * 0x8000) / 0x8000 == hi && (lo + hi * 0x8000) % 0x8000 == lo;
  }

  function Crc(c: Checksum, kind: Byte, payload: Bytes): (v: nat)
    ensures v < UINT32
  {
    c([kind] + payload) % UINT32
  }

  // ------------------------------------------------------------------
  // What a writer appends
  // ------------------------------------------------------------------

  // Checksum, length, type, payload.
  function Fragment(c: Checksum, kind: Byte, payload: Bytes): (s: Bytes)
    requires |payload| < 65536
    ensures |s| == HEADER_SIZE + |payload|
  {
    Fixed(Mask(Crc(c, kind, payload)), 4) + [|payload| % 256, |payload| / 256, kind] + payload
  }

  function Kind(begin: bool, end: bool): Byte {
    if begin && end then FULL_TYPE
    else if begin then FIRST_TYPE
    else if end then LAST_TYPE
    else MIDDLE_TYPE
  }

  // Bytes left over at the end of a block that cannot hold a header.
  function Padding(off: nat): (n: nat)
    ensures n < HEADER_SIZE
    ensures (off + n) % BLOCK_SIZE + HEADER_SIZE <= BLOCK_SIZE
  {
    var left := BLOCK_SIZE - off % BLOCK_SIZE;
    if left < HEADER_SIZE then left else 0
  }

  // How much of the data goes into the next fragment.
  function Take(off: nat, size: nat): (n: nat)
    ensures n <= size
    ensures (off + Padding(off)) % BLOCK_SIZE + HEADER_SIZE + n <= BLOCK_SIZE
    ensures n == 0 < size ==> off % BLOCK_SIZE == BLOCK_SIZE - HEADER_SIZE
  {
    var avail := BLOCK_SIZE - (off + Padding(off)) % BLOCK_SIZE - HEADER_SIZE;
    if size < avail then size else avail
  }

  // The bytes of one record, or of its remainder, written at file offset "off".
  function Emit(c: Checksum, off: nat, data: Bytes, begin: bool): (s: Bytes)
    ensures |s| >= HEADER_SIZE
    decreases |data|, if off % BLOCK_SIZE == BLOCK_SIZE - HEADER_SIZE then 1 else 0
  {
    var pad := Padding(off);
    var n := Take(off, |data|);
    var head := Zeros(pad) + Fragment(c, Kind(begin, n == |data|), data[..n]);
    if n == |data| then head
    else head + Emit(c, off + pad + HEADER_SIZE + n, data[n..], false)
  }

  // The bytes of a list of records.
  function LogBytes(c: Checksum, off: nat, recs: seq<Bytes>): Bytes
    decreases |recs|
  {
    if recs == [] then []
    else
      var e := Emit(c, off, recs[0], true);
      e + LogBytes(c, off + |e|, recs[1..])
  }

  // ------------------------------------------------------------------
  // What a reader makes of a file
  // ------------------------------------------------------------------

  // The unread part of the current block is file[pos..end].
  datatype ReaderState = ReaderState(pos: nat, end: nat, eof: bool)

  datatype Physical = Frag(kind: Byte, data: Bytes) | Bad | Eof

  // A result, the new state, and the sizes of the drops that were reported.
  datatype Outcome<T> = Outcome(result: T, st: ReaderState, drops: seq<nat>)

  function StartState(): ReaderState { ReaderState(0, 0, false) }

  predicate Within(file: Bytes, st: ReaderState) {
    st.pos <= st.end <= |file|
  }

  function Refill(file: Bytes, st: ReaderState): (s: ReaderState)
    requires Within(file, st)
    ensures Within(file, s) && s.pos == st.end
  {
    if |file| - st.end < BLOCK_SIZE then ReaderState(st.end, |file|, true)
    else ReaderState(st.end, st.end + BLOCK_SIZE, false)
  }

  // Take one fragment out of a buffer that holds at least a header.
  function ParseFragment(c: Checksum, verify: bool, file: Bytes, st: ReaderState): (o: Outcome<Physical>)
    requires Within(file, st) && st.end - st.pos >= HEADER_SIZE
    ensures Within(file, o.st) && o.st.pos > st.pos && o.st.end == st.end && o.st.eof == st.eof
  {
    var buf := file[st.pos..st.end];
    var length: nat := buf[4] as nat + 256 * buf[5] as nat;
    var kind := buf[6];
    var skipped := st.(pos := st.end);
    if HEADER_SIZE + length > |buf| then
      if st.eof then Outcome(Eof, skipped, []) else Outcome(Bad, skipped, [|buf|])
    else if kind == ZERO_TYPE && length == 0 then Outcome(Bad, skipped, [])
    else
      var payload := buf[HEADER_SIZE..HEADER_SIZE + length];
      if verify && (DecodeFixed(buf[..4]) >= UINT32 || Unmask(DecodeFixed(buf[..4])) != Crc(c, kind, payload))
      then Outcome(Bad, skipped, [|buf|])
      else Outcome(Typed(kind, payload), st.(pos := st.pos + HEADER_SIZE + length), [])
  }

  // What the type byte of a fragment is taken for.
  function Typed(kind: Byte, payload: Bytes): Physical {
    if kind == EOF_CODE then Eof else if kind == BAD_CODE then Bad else Frag(kind, payload)
  }

  function ReadPhysical(c: Checksum, verify: bool, file: Bytes, st: ReaderState): (o: Outcome<Physical>)
    requires Within(file, st)
    ensures Within(file, o.st) && o.st.pos >= st.pos
    ensures !o.result.Eof? ==> o.st.pos > st.pos
  {
    if st.end - st.pos >= HEADER_SIZE then ParseFragment(c, verify, file, st)
    else if st.eof then Outcome(Eof, st.(pos := st.end), [])
    else
      var s := Refill(file, st);
      if s.end - s.pos >= HEADER_SIZE then ParseFragment(c, verify, file, s)
      else Outcome(Eof, s.(pos := s.end), [])
  }

  // What a fragment does to the record being put together.
  datatype Assembly =
    | More(inFragment: bool, scratch: Bytes, drops: seq<nat>)
    | Done(rec: Bytes, drops: seq<nat>)
    | End

  // Drops reported when a record starts while another one is unfinished.
  function Unfinished(inFragment: bool, scratch: Bytes): seq<nat> {
    if inFragment && scratch != [] then [|scratch|] else []
  }

  function Assemble(p: Physical, inFragment: bool, scratch: Bytes): (a: Assembly)
    ensures a.End? <==> p.Eof?
  {
    match p
    case Eof => End
    case Bad => More(false, if inFragment then [] else scratch, if inFragment then [|scratch|] else [])
    case Frag(kind, data) =>
      if kind == FULL_TYPE then Done(data, Unfinished(inFragment, scratch))
      else if kind == FIRST_TYPE then More(true, data, Unfinished(inFragment, scratch))
      else if kind == MIDDLE_TYPE then
        if inFragment then More(true, scratch + data, []) else More(false, scratch, [|data|])
      else if kind == LAST_TYPE then
        if inFragment then Done(scratch + data, []) else More(false, scratch, [|data|])
      else More(false, [], [|data| + (if inFragment then |scratch| else 0)])
  }

  // The next record, or None at the end of the file.
  function ReadRecord(c: Checksum, verify: bool, file: Bytes, st: ReaderState,
                      inFragment: bool, scratch: Bytes): (o: Outcome<Option<Bytes>>)
    requires Within(file, st)
    ensures Within(file, o.st)
    ensures o.result.Some? ==> o.st.pos > st.pos
    decreases |file| - st.pos
  {
    var p := ReadPhysical(c, verify, file, st);
    match Assemble(p.result, inFragment, scratch)
    case End => Outcome(None, p.st, p.drops)
    case Done(rec, drops) => Outcome(Some(rec), p.st, p.drops + drops)
    case More(inFragment', scratch', drops) =>
      var o := ReadRecord(c, verify, file, p.st, inFragment', scratch');
      Outcome(o.result, o.st, p.drops + drops + o.drops)
  }

  // All records of a file, and everything that was reported on the way.
  datatype Contents = Contents(recs: seq<Bytes>, drops: seq<nat>)

  function ReadAll(c: Checksum, verify: bool, file: Bytes, st: ReaderState): Contents
    requires Within(file, st)
    decreases |file| - st.pos
  {
    var o := ReadRecord(c, verify, file, st, false, []);
    if o.result.None? then Contents([], o.drops)
    else
      var rest := ReadAll(c, verify, file, o.st);
      Contents([o.result.value] + rest.recs, o.drops + rest.drops)
  }

  function ReadLog(c: Checksum, file: Bytes): Contents {
    ReadAll(c, true, file, StartState())
  }
}
