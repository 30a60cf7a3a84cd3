/**
 Keys of the metadata database: a prefix naming a directory and a kind of record, and a
 suffix of eight bytes, which is the hash of a name or a big-endian offset.
 */
module FsKeys {
  import opened Coding

  const SUFFIX_SIZE := 8

  datatype DirId = DirId(reg: nat, snap: nat, ino: nat)

  ghost predicate ValidDir(d: DirId) {
    d.reg < UINT64 && d.snap < UINT64 && d.ino < UINT64
  }

  function Prefix(d: DirId, kind: Byte): (p: Bytes)
    ensures |p| >= 4
  {
    Varint(d.reg) + (Varint(d.snap) + (Varint(d.ino) + [kind]))
  }

  /** Prefixes can be told apart whatever follows them. */
  lemma PrefixFree(d: DirId, e: DirId, j: Byte, k: Byte, a: Bytes, b: Bytes)
    requires ValidDir(d) && ValidDir(e) && Prefix(d, j) + a == Prefix(e, k) + b
    ensures d == e && j == k && a == b
  {
    hide Varint;
    var d1, e1 := Varint(d.snap) + (Varint(d.ino) + [j]), Varint(e.snap) + (Varint(e.ino) + [k]);
    assert Prefix(d, j) + a == Varint(d.reg) + (d1 + a) && Prefix(e, k) + b == Varint(e.reg) + (e1 + b);
    VarintPrefixFree(d.reg, e.reg, d1 + a, e1 + b);
    var d2, e2 := Varint(d.ino) + [j], Varint(e.ino) + [k];
    assert d1 + a == Varint(d.snap) + (d2 + a) && e1 + b == Varint(e.snap) + (e2 + b);
    VarintPrefixFree(d.snap, e.snap, d2 + a, e2 + b);
    assert d2 + a == Varint(d.ino) + ([j] + a) && e2 + b == Varint(e.ino) + ([k] + b);
    VarintPrefixFree(d.ino, e.ino, [j] + a, [k] + b);
    assert ([j] + a)[0] == ([k] + b)[0] && ([j] + a)[1..] == ([k] + b)[1..];
    assert ([j] + a)[1..] == a && ([k] + b)[1..] == b;
  }

  /** Scanning for a prefix finds the records of one directory and kind, and no others. */
  lemma ScanSelects(d: DirId, e: DirId, j: Byte, k: Byte, suffix: Bytes)
    requires ValidDir(d) && ValidDir(e)
    ensures Prefix(d, j) <= Prefix(e, k) + suffix <==> d == e && j == k
  {
    hide Prefix;
    var key := Prefix(e, k) + suffix;
    if Prefix(d, j) <= key {
      assert key == Prefix(d, j) + key[|Prefix(d, j)|..];
      PrefixFree(d, e, j, k, key[|Prefix(d, j)|..], suffix);
    }
  }

  // ------------------------------------------------------------------
  // Big-endian suffixes
  // ------------------------------------------------------------------

  function BigEndian(v: nat, n: nat): (s: Bytes)
    ensures |s| == n
  {
    if n == 0 then [] else BigEndian(v / 256, n - 1) + [v % 256]
  }

  function DecodeBigEndian(s: Bytes): nat {
    if s == [] then 0 else 256 * DecodeBigEndian(s[..|s| - 1]) + s[|s| - 1]
  }

  lemma {:induction false} BigEndianRoundTrip(v: nat, n: nat)
    requires v < Pow256(n)
    ensures DecodeBigEndian(BigEndian(v, n)) == v
    decreases n
  {
    if n == 0 {
    } else {
      BigEndianRoundTrip(v / 256, n - 1);
      var s := BigEndian(v, n);
      assert s[..|s| - 1] == BigEndian(v / 256, n - 1);
    }
  }

  // Bytewise order.
  predicate Before(a: Bytes, b: Bytes) {
    if b == [] then false
    else if a == [] then true
    else a[0] < b[0] || (a[0] == b[0] && Before(a[1..], b[1..]))
  }

  lemma {:induction false} BeforeAppend(p: Bytes, a: Bytes, b: Bytes)
    ensures Before(p + a, p + b) <==> Before(a, b)
    decreases |p|
  {
    if p == [] {
      assert p + a == a && p + b == b;
    } else {
      assert (p + a)[1..] == p[1..] + a && (p + b)[1..] == p[1..] + b;
      BeforeAppend(p[1..], a, b);
    }
  }

  lemma {:induction false} BeforeLast(a: Bytes, b: Bytes, x: Byte, y: Byte)
    requires |a| == |b|
    ensures Before(a + [x], b + [y]) <==> Before(a, b) || (a == b && x < y)
    decreases |a|
  {
    if a == [] {
    } else {
      assert (a + [x])[1..] == a[1..] + [x] && (b + [y])[1..] == b[1..] + [y];
      BeforeLast(a[1..], b[1..], x, y);
      assert a == [a[0]] + a[1..] && b == [b[0]] + b[1..];
    }
  }

  lemma {:induction false} BigEndianOrder(v: nat, w: nat, n: nat)
    requires v < Pow256(n) && w < Pow256(n)
    ensures Before(BigEndian(v, n), BigEndian(w, n)) <==> v < w
    decreases n
  {
    if n == 0 {
    } else {
      BigEndianOrder(v / 256, w / 256, n - 1);
      BigEndianRoundTrip(v / 256, n - 1);
      BigEndianRoundTrip(w / 256, n - 1);
      BeforeLast(BigEndian(v / 256, n - 1), BigEndian(w / 256, n - 1), v % 256, w % 256);
    }
  }

  function OffsetKey(d: DirId, kind: Byte, off: nat): Bytes
    requires off < UINT64
  {
    Prefix(d, kind) + BigEndian(off, 8)
  }

  /** The data blocks of a file come in the order of their offsets. */
  lemma OffsetOrder(d: DirId, kind: Byte, v: nat, w: nat)
    requires v < UINT64 && w < UINT64
    ensures Before(OffsetKey(d, kind, v), OffsetKey(d, kind, w)) <==> v < w
  {
    FixedWidths();
    hide Prefix;
    hide BigEndian;
    hide Pow256;
    BeforeAppend(Prefix(d, kind), BigEndian(v, 8), BigEndian(w, 8));
    BigEndianOrder(v, w, 8);
  }

  // ------------------------------------------------------------------
  // Keys as objects
  // ------------------------------------------------------------------

  class Key {
    var rep: Bytes
    ghost var dir: DirId
    ghost var kind: Byte
    ghost var suffix: Bytes

    ghost predicate Valid()
      reads this
    {
      ValidDir(dir) && |suffix| == SUFFIX_SIZE && rep == Prefix(dir, kind) + suffix
    }

    // The suffix is whatever the buffer held.
    constructor (d: DirId, k: Byte, junk: Bytes)
      requires ValidDir(d) && |junk| == SUFFIX_SIZE
      ensures Valid() && dir == d && kind == k && suffix == junk
    {
      var p := EncodeVarint64([], d.reg);
      p := EncodeVarint64(p, d.snap);
      p := EncodeVarint64(p, d.ino);
      rep := p + [k] + junk;
      dir, kind, suffix := d, k, junk;
      new;
      assert rep == Prefix(dir, kind) + suffix;
    }

    /** Change the kind of record and nothing else. */
    method SetType(k: Byte)
      requires Valid()
      modifies this
      ensures Valid() && dir == old(dir) && kind == k && suffix == old(suffix)
    {
      var at := |rep| - SUFFIX_SIZE - 1;
      rep := rep[at := k];
      kind := k;
      assert rep == Prefix(dir, k) + suffix;
    }

    method SetHash(hash: Bytes)
      requires Valid() && |hash| == SUFFIX_SIZE
      modifies this
      ensures Valid() && dir == old(dir) && kind == old(kind) && suffix == hash
    {
      hide Prefix;
      rep := rep[..|rep| - SUFFIX_SIZE] + hash;
      suffix := hash;
    }

    method SetOffset(off: nat)
      requires Valid() && off < UINT64
      modifies this
      ensures Valid() && dir == old(dir) && kind == old(kind) && rep == OffsetKey(dir, kind, off)
    {
      hide Prefix;
      hide BigEndian;
      SetHash(BigEndian(off, 8));
    }

    /** What was put into a key is what is read back from it. */
    method Parts() returns (reg: nat, snap: nat, ino: nat, k: Byte, offset: nat)
      requires Valid()
      ensures DirId(reg, snap, ino) == dir && k == kind && offset == DecodeBigEndian(suffix)
    {
      hide Prefix;
      hide GetVarint64;
      hide DecodeBigEndian;
      ParsePrefix(dir, kind, suffix);
      var r := GetVarint64(rep);
      reg := r.value;
      r := GetVarint64(r.rest);
      snap := r.value;
      r := GetVarint64(r.rest);
      ino := r.value;
      k := r.rest[0];
      assert rep[|rep| - SUFFIX_SIZE..] == suffix;
      offset := DecodeBigEndian(rep[|rep| - SUFFIX_SIZE..]);
    }
  }

  lemma ParsePrefix(d: DirId, kind: Byte, suffix: Bytes)
    requires ValidDir(d)
    ensures var r1 := GetVarint64(Prefix(d, kind) + suffix);
            r1.Ok? && r1.value == d.reg &&
            var r2 := GetVarint64(r1.rest);
            r2.Ok? && r2.value == d.snap && GetVarint64(r2.rest) == Ok(d.ino, [kind] + suffix)
  {
    hide Varint;
    hide GetVarint64;
    var tail := Varint(d.ino) + ([kind] + suffix);
    assert Prefix(d, kind) + suffix == Varint(d.reg) + (Varint(d.snap) + tail);
    Varint64RoundTrip(d.reg, Varint(d.snap) + tail);
    Varint64RoundTrip(d.snap, tail);
    Varint64RoundTrip(d.ino, [kind] + suffix);
  }
}
