/**
 Fixed-width and variable-width integers and length-prefixed strings, as byte
 sequences. Appending to a buffer is concatenation; a decoder takes a byte sequence
 and yields a value and the bytes that follow it.
 */
module Coding {

  type Byte = x: nat | x < 256
  type Bytes = seq<Byte>

  const UINT32 := 0x1_0000_0000
  const UINT64 := 0x1_0000_0000_0000_0000

  datatype Option<T> = None | Some(value: T)

  // A decoded value and the rest of the input.
  datatype Parsed<T> = Fail | Ok(value: T, rest: Bytes)

  function Pow2(r: nat): (p: nat)
    ensures p >= 1
  {
    if r == 0 then 1 else 2 * Pow2(r - 1)
  }

  lemma {:induction false} Pow2Mono(a: nat, b: nat)
    requires a <= b
    ensures Pow2(a) <= Pow2(b)
    ensures a < b ==> 2 * Pow2(a) <= Pow2(b)
  {
    if a >= b {
    } else {
      Pow2Mono(a, b - 1);
    }
  }

  ghost predicate Distinct<T>(s: seq<T>) {
    forall i, j :: 0 <= i < j < |s| ==> s[i] != s[j]
  }

  lemma SubSlice(s: Bytes, a: nat, b: nat, x: nat, y: nat)
    requires a <= b <= |s| && x <= y <= b - a
    ensures s[a..b][x..y] == s[a + x..a + y]
  {
    forall i | 0 <= i < y - x ensures s[a..b][x..y][i] == s[a + x..a + y][i] {
      assert s[a..b][x + i] == s[a + (x + i)];
    }
  }

  function Zeros(n: nat): (s: Bytes)
    ensures |s| == n
  {
    seq(n, _ => 0)
  }

  // ------------------------------------------------------------------
  // Fixed-width integers, least significant byte first
  // ------------------------------------------------------------------

  function Pow256(n: nat): (p: nat)
    ensures p >= 1
  {
    if n == 0 then 1 else 256 * Pow256(n - 1)
  }

  function Fixed(v: nat, n: nat): (s: Bytes)
    ensures |s| == n
    decreases n
  {
    if n == 0 then [] else [v % 256] + Fixed(v / 256, n - 1)
  }

  function DecodeFixed(s: Bytes): (v: nat) {
    if s == [] then 0 else s[0] + 256 * DecodeFixed(s[1..])
  }

  lemma {:induction false} FixedRoundTrip(v: nat, n: nat)
    requires v < Pow256(n)
    ensures DecodeFixed(Fixed(v, n)) == v
    decreases n
  {
    if n == 0 {
    } else {
      FixedRoundTrip(v / 256, n - 1);
      assert Fixed(v, n)[1..] == Fixed(v / 256, n - 1);
    }
  }

  lemma {:induction false} FixedUnique(s: Bytes)
    ensures Fixed(DecodeFixed(s), |s|) == s && DecodeFixed(s) < Pow256(|s|)
    decreases |s|
  {
    if s == [] {
    } else {
      FixedUnique(s[1..]);
      FirstDigit(s[0], DecodeFixed(s[1..]));
    }
  }

  // The i-th digit to the base 256, counted from the least significant one.
  function Digit(v: nat, i: nat): Byte
    decreases i
  {
    if i == 0 then v % 256 else Digit(v / 256, i - 1)
  }

  /** The bytes are the digits, the least significant one first. */
  lemma {:induction false} FixedAt(v: nat, n: nat, i: nat)
    requires i < n
    ensures Fixed(v, n)[i] == Digit(v, i)
    decreases i
  {
    if i == 0 {
    } else {
      FixedAt(v / 256, n - 1, i - 1);
    }
  }

  lemma FirstDigit(d: Byte, v: nat)
    ensures (d + 256 * v) % 256 == d && (d + 256 * v) / 256 == v
  {
  }

  lemma FixedWidths()
    ensures Pow256(2) == 65536 && Pow256(4) == UINT32 && Pow256(8) == UINT64
  {
    assert Pow256(6) == 65536 * Pow256(4);
  }

  // ------------------------------------------------------------------
  // Variable-width integers: seven bits a byte, low bits first
  // ------------------------------------------------------------------

  function Varint(v: nat): (s: Bytes)
    ensures |s| >= 1
  {
    if v < 128 then [v] else [v % 128 + 128] + Varint(v / 128)
  }

  // The value of a varint of at most n bytes, before it is cut to the width of an integer.
  function DecodeVarint(s: Bytes, n: nat): (r: Parsed<nat>)
    ensures r.Ok? ==> |r.rest| < |s|
    decreases n
  {
    if s == [] || n == 0 then Fail
    else if s[0] < 128 then Ok(s[0], s[1..])
    else
      var r := DecodeVarint(s[1..], n - 1);
      if r.Fail? then Fail else Ok(s[0] - 128 + 128 * r.value, r.rest)
  }

  function Truncate(r: Parsed<nat>, modulus: nat): Parsed<nat>
    requires modulus > 0
  {
    if r.Fail? then Fail else Ok(r.value % modulus, r.rest)
  }

  // Shifts up to 28 bits: at most five bytes.
  function GetVarint32(s: Bytes): (r: Parsed<nat>)
    ensures r.Ok? ==> r.value < UINT32 && |r.rest| < |s|
  {
    Truncate(DecodeVarint(s, 5), UINT32)
  }

  // Shifts up to 63 bits: at most ten bytes.
  function GetVarint64(s: Bytes): (r: Parsed<nat>)
    ensures r.Ok? ==> r.value < UINT64 && |r.rest| < |s|
  {
    Truncate(DecodeVarint(s, 10), UINT64)
  }

  lemma {:induction false} VarintDecodes(v: nat, n: nat, suffix: Bytes)
    requires |Varint(v)| <= n
    ensures DecodeVarint(Varint(v) + suffix, n) == Ok(v, suffix)
    decreases v
  {
    var s := Varint(v) + suffix;
    if v < 128 {
      assert s[1..] == suffix;
    } else {
      assert s[1..] == Varint(v / 128) + suffix;
      VarintDecodes(v / 128, n - 1, suffix);
    }
  }

  function Pow128(n: nat): (p: nat)
    ensures p >= 1
  {
    if n == 0 then 1 else 128 * Pow128(n - 1)
  }

  lemma {:induction false} DigitsBound(v: nat, n: nat)
    requires n >= 1 && v < Pow128(n)
    ensures |Varint(v)| <= n
    decreases n
  {
    if v < 128 {
    } else {
      assert v < 128 * Pow128(n - 1);
      DigitsBound(v / 128, n - 1);
    }
  }

  lemma Digits32(v: nat)
    requires v < UINT32
    ensures |Varint(v)| <= 5
  {
    assert Pow128(5) == 128 * 128 * 128 * Pow128(2);
    DigitsBound(v, 5);
  }

  lemma Digits64(v: nat)
    requires v < UINT64
    ensures |Varint(v)| <= 10
  {
    assert Pow128(5) == 0x8_0000_0000;
    assert Pow128(10) == 0x8_0000_0000 * Pow128(5);
    DigitsBound(v, 10);
  }

  /** Decoding an encoding followed by anything returns the value and what followed. */
  lemma Varint32RoundTrip(v: nat, suffix: Bytes)
    requires v < UINT32
    ensures GetVarint32(Varint(v) + suffix) == Ok(v, suffix) && |Varint(v)| <= 5
  {
    hide Varint;
    hide DecodeVarint;
    Digits32(v);
    VarintDecodes(v, 5, suffix);
  }

  lemma Varint64RoundTrip(v: nat, suffix: Bytes)
    requires v < UINT64
    ensures GetVarint64(Varint(v) + suffix) == Ok(v, suffix) && |Varint(v)| <= 10
  {
    hide Varint;
    hide DecodeVarint;
    Digits64(v);
    VarintDecodes(v, 10, suffix);
  }

  // The first byte below 128 ends a varint.
  ghost predicate LastByte(s: Bytes, i: nat) {
    i < |s| && s[i] < 128 && forall j :: 0 <= j < i ==> s[j] >= 128
  }

  // Seven bits a byte.
  function Digits(s: Bytes): nat {
    if s == [] then 0 else s[0] % 128 + 128 * Digits(s[1..])
  }

  lemma {:induction false} DecodesAt(s: Bytes, n: nat, i: nat)
    requires LastByte(s, i)
    ensures DecodeVarint(s, n) == if i < n then Ok(Digits(s[..i + 1]), s[i + 1..]) else Fail
    decreases i
  {
    if n == 0 {
    } else if i == 0 {
      assert s[..1] == [s[0]] && [s[0]][1..] == [];
    } else {
      DecodesAt(s[1..], n - 1, i - 1);
      assert s[..i + 1][1..] == s[1..][..i];
    }
  }

  lemma {:induction false} DecodesNot(s: Bytes, n: nat)
    requires forall j :: 0 <= j < |s| ==> s[j] >= 128
    ensures DecodeVarint(s, n) == Fail
    decreases n
  {
    if s == [] || n == 0 {
    } else {
      DecodesNot(s[1..], n - 1);
    }
  }

  /** A varint is read up to its first byte below 128, which must be among the first five or
      ten, and its value cut to 32 or 64 bits; without such a byte nothing is read. */
  lemma GetVarintAt(s: Bytes, i: nat)
    ensures LastByte(s, i) ==> GetVarint32(s) == if i < 5 then Ok(Digits(s[..i + 1]) % UINT32, s[i + 1..]) else Fail
    ensures LastByte(s, i) ==> GetVarint64(s) == if i < 10 then Ok(Digits(s[..i + 1]) % UINT64, s[i + 1..]) else Fail
    ensures (forall j :: 0 <= j < |s| ==> s[j] >= 128) ==> GetVarint32(s) == Fail && GetVarint64(s) == Fail
  {
    hide DecodeVarint;
    if LastByte(s, i) {
      DecodesAt(s, 5, i);
      DecodesAt(s, 10, i);
    }
    if forall j :: 0 <= j < |s| ==> s[j] >= 128 {
      DecodesNot(s, 5);
      DecodesNot(s, 10);
    }
  }

  /** A varint that is cut off cannot be read. */
  lemma {:induction false} VarintCut(v: nat, n: nat, k: nat)
    requires k < |Varint(v)|
    ensures DecodeVarint(Varint(v)[..k], n) == Fail
    decreases v
  {
    if v < 128 || k == 0 || n == 0 {
    } else {
      VarintCut(v / 128, n - 1, k - 1);
      assert Varint(v)[..k][1..] == Varint(v / 128)[..k - 1];
    }
  }

  // The loop that writes a 64-bit varint.
  method EncodeVarint64(dst: Bytes, value: nat) returns (out: Bytes)
    requires value < UINT64
    ensures out == dst + Varint(value)
  {
    out := dst;
    var v := value;
    while v >= 128
      invariant out + Varint(v) == dst + Varint(value)
      decreases v
    {
      out := out + [v % 128 + 128];
      v := v / 128;
    }
    out := out + [v];
  }

  // The unrolled form for 32 bits.
  method EncodeVarint32(dst: Bytes, v: nat) returns (out: Bytes)
    requires v < UINT32
    ensures out == dst + Varint(v)
  {
    var v1, v2, v3, v4 := v / 0x80, v / 0x4000, v / 0x20_0000, v / 0x1000_0000;
    Shifts(v, v1, v2, v3, v4);
    UnrolledTail(v1, v2, v3, v4);
    if v < 0x80 {
      out := dst + [v];
    } else if v < 0x4000 {
      out := dst + [v % 128 + 128, v1];
    } else if v < 0x20_0000 {
      out := dst + [v % 128 + 128, v1 % 128 + 128, v2];
    } else if v < 0x1000_0000 {
      out := dst + [v % 128 + 128, v1 % 128 + 128, v2 % 128 + 128, v3];
    } else {
      out := dst + [v % 128 + 128, v1 % 128 + 128, v2 % 128 + 128, v3 % 128 + 128, v4];
    }
  }

  lemma Shifts(v: nat, v1: nat, v2: nat, v3: nat, v4: nat)
    requires v < UINT32 && v1 == v / 0x80 && v2 == v / 0x4000 && v3 == v / 0x20_0000 && v4 == v / 0x1000_0000
    ensures v1 / 128 == v2 && v2 / 128 == v3 && v3 / 128 == v4 && v4 < 128
    ensures v < 0x4000 <==> v1 < 128
    ensures v < 0x20_0000 <==> v2 < 128
    ensures v < 0x1000_0000 <==> v3 < 128
  {
  }

  lemma UnrolledTail(v1: nat, v2: nat, v3: nat, v4: nat)
    requires v1 / 128 == v2 && v2 / 128 == v3 && v3 / 128 == v4 && v4 < 128
    ensures Varint(v1) ==
            if v1 < 128 then [v1]
            else if v2 < 128 then [v1 % 128 + 128, v2]
            else if v3 < 128 then [v1 % 128 + 128, v2 % 128 + 128, v3]
            else [v1 % 128 + 128, v2 % 128 + 128, v3 % 128 + 128, v4]
  {
    if v1 >= 128 {
      assert Varint(v1) == [v1 % 128 + 128] + Varint(v2);
      if v2 >= 128 {
        assert Varint(v2) == [v2 % 128 + 128] + Varint(v3);
        if v3 >= 128 {
          assert Varint(v3) == [v3 % 128 + 128] + Varint(v4);
        }
      }
    }
  }

  /** Two encodings with the same start are the same: no encoding is a proper prefix. */
  lemma VarintPrefixFree(v: nat, w: nat, a: Bytes, b: Bytes)
    requires v < UINT64 && w < UINT64 && Varint(v) + a == Varint(w) + b
    ensures v == w && a == b
  {
    Varint64RoundTrip(v, a);
    Varint64RoundTrip(w, b);
  }

  // The loop that reads a varint, byte by byte, with the weight of the next seven bits.
  method ReadVarint(s: Bytes, n: nat) returns (r: Parsed<nat>)
    ensures r == DecodeVarint(s, n)
  {
    hide *;
    var p := 0;
    var result: nat, weight: nat := 0, 1;
    ScaledStart(s, n);
    while p < n && p < |s|
      invariant 0 <= p <= |s| && p <= n
      invariant DecodeVarint(s, n) == Scaled(DecodeVarint(s[p..], n - p), result, weight)
      decreases |s| - p
    {
      DecodeStep(s, p, n, result, weight);
      var byte := s[p];
      if byte < 128 {
        return Ok(MulAdd(result, byte, weight), s[p + 1..]);
      }
      result := MulAdd(result, byte - 128, weight);
      p, weight := p + 1, 128 * weight;
    }
    NoMoreBytes(s[p..], n - p, result, weight);
    return Fail;
  }

  function MulAdd(result: nat, digits: nat, weight: nat): nat {
    result + digits * weight
  }

  lemma ScaledStart(s: Bytes, n: nat)
    ensures s[0..] == s && DecodeVarint(s, n) == Scaled(DecodeVarint(s, n), 0, 1)
  {
  }

  lemma NoMoreBytes(s: Bytes, n: nat, result: nat, weight: nat)
    requires s == [] || n == 0
    ensures DecodeVarint(s, n) == Fail && Scaled(Fail, result, weight) == Fail
  {
  }

  // One byte more has been read.
  lemma DecodeStep(s: Bytes, p: nat, n: nat, result: nat, weight: nat)
    requires p < |s| && p < n
    ensures Scaled(DecodeVarint(s[p..], n - p), result, weight) ==
            if s[p] < 128 then Ok(MulAdd(result, s[p], weight), s[p + 1..])
            else Scaled(DecodeVarint(s[p + 1..], n - p - 1), MulAdd(result, s[p] - 128, weight), 128 * weight)
  {
    assert s[p..][1..] == s[p + 1..];
    if s[p] >= 128 {
      ScaledStep(DecodeVarint(s[p + 1..], n - p - 1), result, weight, s[p]);
    }
  }

  // A value read after "result" was already collected from the lower bits.
  function Scaled(r: Parsed<nat>, result: nat, weight: nat): Parsed<nat> {
    if r.Fail? then Fail else Ok(MulAdd(result, r.value, weight), r.rest)
  }

  lemma ScaledStep(r: Parsed<nat>, result: nat, weight: nat, byte: nat)
    requires byte >= 128
    ensures Scaled(if r.Fail? then Fail else Ok(byte - 128 + 128 * r.value, r.rest), result, weight)
         == Scaled(r, MulAdd(result, byte - 128, weight), 128 * weight)
  {
    if r.Ok? {
      assert (byte - 128 + 128 * r.value) * weight == (byte - 128) * weight + r.value * (128 * weight);
    }
  }

  // ------------------------------------------------------------------
  // Length-prefixed byte strings
  // ------------------------------------------------------------------

  function LengthPrefixed(s: Bytes): Bytes {
    Varint(|s|) + s
  }

  function GetLengthPrefixed(s: Bytes): (r: Parsed<Bytes>)
    ensures r.Ok? ==> |r.rest| < |s|
  {
    var n := GetVarint32(s);
    if n.Fail? || |n.rest| < n.value then Fail
    else Ok(n.rest[..n.value], n.rest[n.value..])
  }

  lemma LengthPrefixedRoundTrip(s: Bytes, suffix: Bytes)
    requires |s| < UINT32
    ensures GetLengthPrefixed(LengthPrefixed(s) + suffix) == Ok(s, suffix)
  {
    Varint32RoundTrip(|s|, s + suffix);
    assert LengthPrefixed(s) + suffix == Varint(|s|) + (s + suffix);
    assert (s + suffix)[..|s|] == s && (s + suffix)[|s|..] == suffix;
  }

  /** Neither can a string be read that is cut off. */
  lemma LengthPrefixedCut(s: Bytes, k: nat)
    requires |s| < UINT32 && k < |LengthPrefixed(s)|
    ensures GetLengthPrefixed(LengthPrefixed(s)[..k]) == Fail
  {
    hide Varint;
    hide DecodeVarint;
    var head := Varint(|s|);
    if k < |head| {
      VarintCut(|s|, 5, k);
      assert LengthPrefixed(s)[..k] == head[..k];
    } else {
      Varint32RoundTrip(|s|, s[..k - |head|]);
      assert LengthPrefixed(s)[..k] == head + s[..k - |head|];
    }
  }
}
