/**
 The in-memory representation of a directory index: a byte bitmap that grows by
 doubling, with its radix kept beside it, and its wire encoding. Every operation is
 tied to what it does to the set of partitions.
 */
module GigaRep {
  import opened Coding
  import opened GigaMath
  import opened GigaHash
  import opened GigaIndex

  const HEAD_SIZE := 4
  const INIT_CAPACITY := 16
  const MAX_CAPACITY := 8192

  // ------------------------------------------------------------------
  // Bitmaps
  // ------------------------------------------------------------------

  predicate BitAt(s: seq<Bits8>, i: nat) {
    i / 8 < |s| && TestBit(s[i / 8], i % 8)
  }

  ghost function BitSet(s: seq<Bits8>): (bits: set<nat>)
    ensures forall i: nat :: i in bits <==> BitAt(s, i)
  {
    set i: nat | 0 <= i < 8 * |s| && BitAt(s, i)
  }

  lemma OrBit(b: Bits8, j: nat, k: nat)
    requires j < 8 && k < 8
    ensures TestBit(b | BitMask(j), k) <==> j == k || TestBit(b, k)
  {
  }

  lemma ClearBit(b: Bits8, j: nat, k: nat)
    requires j < 8 && k < 8
    ensures TestBit(b & !BitMask(j), k) <==> j != k && TestBit(b, k)
  {
  }

  lemma OrByte(a: Bits8, b: Bits8, k: nat)
    requires k < 8
    ensures TestBit(a | b, k) <==> TestBit(a, k) || TestBit(b, k)
  {
  }

  lemma ZeroByte(b: Bits8)
    ensures b == 0 <==> forall k: nat :: k < 8 ==> !TestBit(b, k)
  {
    if forall k: nat :: k < 8 ==> !TestBit(b, k) {
      assert !TestBit(b, 0) && !TestBit(b, 1) && !TestBit(b, 2) && !TestBit(b, 3);
      assert !TestBit(b, 4) && !TestBit(b, 5) && !TestBit(b, 6) && !TestBit(b, 7);
    }
  }

  lemma SetBitInMap(s: seq<Bits8>, i: nat)
    requires i < 8 * |s|
    ensures BitSet(s[i / 8 := s[i / 8] | BitMask(i % 8)]) == BitSet(s) + {i}
  {
    var t := s[i / 8 := s[i / 8] | BitMask(i % 8)];
    forall k: nat ensures BitAt(t, k) <==> BitAt(s, k) || k == i {
      if k / 8 == i / 8 {
        OrBit(s[i / 8], i % 8, k % 8);
      }
    }
  }

  lemma ClearBitInMap(s: seq<Bits8>, i: nat)
    requires i < 8 * |s|
    ensures BitSet(s[i / 8 := s[i / 8] & !BitMask(i % 8)]) == BitSet(s) - {i}
  {
    var t := s[i / 8 := s[i / 8] & !BitMask(i % 8)];
    forall k: nat ensures BitAt(t, k) <==> BitAt(s, k) && k != i {
      if k / 8 == i / 8 {
        ClearBit(s[i / 8], i % 8, k % 8);
      }
    }
  }

  function ByteAt(s: seq<Bits8>, i: nat): Bits8 {
    if i < |s| then s[i] else 0
  }

  lemma OrMaps(s: seq<Bits8>, o: seq<Bits8>, t: seq<Bits8>)
    requires |t| == |s| && |o| <= |s|
    requires forall i :: 0 <= i < |s| ==> t[i] == s[i] | ByteAt(o, i)
    ensures BitSet(t) == BitSet(s) + BitSet(o)
  {
    forall k: nat ensures BitAt(t, k) <==> BitAt(s, k) || BitAt(o, k) {
      if k / 8 < |s| {
        OrByte(s[k / 8], ByteAt(o, k / 8), k % 8);
        ZeroByte(0);
      }
    }
  }

  lemma PadMap(s: seq<Bits8>, n: nat)
    ensures BitSet(s + seq(n, _ => 0)) == BitSet(s)
  {
    var t := s + seq(n, _ => 0 as Bits8);
    ZeroByte(0);
    forall k: nat ensures BitAt(t, k) <==> BitAt(s, k) {
    }
  }

  lemma CutMap(s: seq<Bits8>, n: nat, r: nat)
    requires n <= |s| && (forall b :: b in BitSet(s) ==> b < Pow2(r)) && Pow2(r) <= 8 * n
    ensures BitSet(s[..n]) == BitSet(s)
  {
    forall k: nat ensures BitAt(s[..n], k) <==> BitAt(s, k) {
      if BitAt(s, k) {
        assert k in BitSet(s);
      }
    }
  }

  // The number of bytes that hold 2^radix bits.
  function BitmapSize(radix: nat): (n: nat)
    ensures n >= 1 && Pow2(radix) <= 8 * n < Pow2(radix) + 8
  {
    (Pow2(radix) + 7) / 8
  }

  lemma BitmapSizeMono(a: nat, b: nat)
    requires a <= b
    ensures BitmapSize(a) <= BitmapSize(b)
    ensures b <= MAX_RADIX ==> BitmapSize(b) <= MAX_CAPACITY
  {
    Pow2Mono(a, b);
    if b <= MAX_RADIX {
      Pow2Mono(b, MAX_RADIX);
      Pow16();
    }
  }

  // 16 bytes, doubled any number of times.
  predicate IsDoubled(n: nat) {
    n == INIT_CAPACITY || (n > INIT_CAPACITY && n % 2 == 0 && IsDoubled(n / 2))
  }

  predicate IsCapacity(n: nat) {
    n <= MAX_CAPACITY && IsDoubled(n)
  }

  lemma CapacityList(n: nat)
    requires IsCapacity(n)
    ensures n in {16, 32, 64, 128, 256, 512, 1024, 2048, 4096, 8192}
  {
    if n > INIT_CAPACITY {
      CapacityList(n / 2);
    }
  }

  // The capacity reached by doubling until "want" bytes fit.
  function Doubled(capacity: nat, want: nat): (c: nat)
    requires capacity > 0
    ensures c >= want && c >= capacity
    decreases if capacity < want then want - capacity else 0
  {
    if capacity < want then Doubled(2 * capacity, want) else capacity
  }

  /** Doubling stays within the largest bitmap if and only if the request does. */
  lemma DoubledIff(capacity: nat, want: nat)
    requires IsCapacity(capacity)
    ensures want <= MAX_CAPACITY <==> Doubled(capacity, want) <= MAX_CAPACITY
    ensures want <= MAX_CAPACITY ==> IsCapacity(Doubled(capacity, want))
    decreases MAX_CAPACITY - capacity
  {
    CapacityList(capacity);
    if capacity < want <= MAX_CAPACITY {
      DoubledIff(2 * capacity, want);
    }
  }

  // ------------------------------------------------------------------
  // Wire format
  // ------------------------------------------------------------------

  // A parsed encoding.
  datatype View = View(zeroth: nat, radix: nat, bitmap: seq<Bits8>)

  function Fixed16(v: nat): seq<Bits8>
    requires v < 65536
  {
    FixedWidths();
    var f := Fixed(v, 2);
    [ToByte(f[0]), ToByte(f[1])]
  }

  lemma TwoBytes(a: Byte, b: Byte)
    ensures DecodeFixed([a, b]) == a + 256 * b
  {
    assert [a, b][1..] == [b] && [b][1..] == [];
    assert DecodeFixed([b]) == b;
  }

  function DecodeFixed16(a: Bits8, b: Bits8): (v: nat)
    ensures v < 65536
  {
    TwoBytes(a as nat, b as nat);
    DecodeFixed([a as nat, b as nat])
  }

  function Bit(set_: bool, mask: Bits8): Bits8 { if set_ then mask else 0 }

  function FromBits(b0: bool, b1: bool, b2: bool, b3: bool, b4: bool, b5: bool, b6: bool, b7: bool): Bits8 {
    Bit(b0, 1) | Bit(b1, 2) | Bit(b2, 4) | Bit(b3, 8) | Bit(b4, 16) | Bit(b5, 32) | Bit(b6, 64) | Bit(b7, 128)
  }

  lemma FromBitsAt(b0: bool, b1: bool, b2: bool, b3: bool, b4: bool, b5: bool, b6: bool, b7: bool)
    ensures var b := FromBits(b0, b1, b2, b3, b4, b5, b6, b7);
            && TestBit(b, 0) == b0 && TestBit(b, 1) == b1 && TestBit(b, 2) == b2 && TestBit(b, 3) == b3
            && TestBit(b, 4) == b4 && TestBit(b, 5) == b5 && TestBit(b, 6) == b6 && TestBit(b, 7) == b7
  {
  }

  lemma FromBitsValue(b0: bool, b1: bool, b2: bool, b3: bool, b4: bool, b5: bool, b6: bool, b7: bool)
    ensures FromBits(b0, b1, b2, b3, b4, b5, b6, b7) as nat ==
            Weight(b0, 1) + Weight(b1, 2) + Weight(b2, 4) + Weight(b3, 8) +
            Weight(b4, 16) + Weight(b5, 32) + Weight(b6, 64) + Weight(b7, 128)
  {
    hide FromBits;
    hide Weight;
    hide TestBit;
    FromBitsAt(b0, b1, b2, b3, b4, b5, b6, b7);
    ByteValue(FromBits(b0, b1, b2, b3, b4, b5, b6, b7));
  }

  // The byte with a given value, bit by bit.
  function ToByte(n: nat): Bits8
    requires n < 256
  {
    var n1 := n / 2;
    var n2 := n1 / 2;
    var n3 := n2 / 2;
    var n4 := n3 / 2;
    var n5 := n4 / 2;
    var n6 := n5 / 2;
    var n7 := n6 / 2;
    FromBits(n % 2 == 1, n1 % 2 == 1, n2 % 2 == 1, n3 % 2 == 1, n4 % 2 == 1, n5 % 2 == 1, n6 % 2 == 1, n7 % 2 == 1)
  }

  lemma ByteRoundTrip(n: nat)
    requires n < 256
    ensures ToByte(n) as nat == n
  {
    hide FromBits;
    hide Weight;
    var n1 := n / 2;
    var n2 := n1 / 2;
    var n3 := n2 / 2;
    var n4 := n3 / 2;
    var n5 := n4 / 2;
    var n6 := n5 / 2;
    var n7 := n6 / 2;
    FromBitsValue(n % 2 == 1, n1 % 2 == 1, n2 % 2 == 1, n3 % 2 == 1,
                  n4 % 2 == 1, n5 % 2 == 1, n6 % 2 == 1, n7 % 2 == 1);
    Binary(n, n1, n2, n3, n4, n5, n6, n7);
  }

  lemma Binary(n: nat, n1: nat, n2: nat, n3: nat, n4: nat, n5: nat, n6: nat, n7: nat)
    requires n < 256 && n1 == n / 2 && n2 == n1 / 2 && n3 == n2 / 2 && n4 == n3 / 2
    requires n5 == n4 / 2 && n6 == n5 / 2 && n7 == n6 / 2
    ensures n == Weight(n % 2 == 1, 1) + Weight(n1 % 2 == 1, 2) + Weight(n2 % 2 == 1, 4) + Weight(n3 % 2 == 1, 8) +
                 Weight(n4 % 2 == 1, 16) + Weight(n5 % 2 == 1, 32) + Weight(n6 % 2 == 1, 64) + Weight(n7 % 2 == 1, 128)
  {
    LowNibble(n, n1, n2, n3, n4);
    LowNibble(n4, n5, n6, n7, n7 / 2);
  }

  lemma LowNibble(n: nat, n1: nat, n2: nat, n3: nat, n4: nat)
    requires n1 == n / 2 && n2 == n1 / 2 && n3 == n2 / 2 && n4 == n3 / 2
    ensures n == Weight(n % 2 == 1, 1) + Weight(n1 % 2 == 1, 2) + Weight(n2 % 2 == 1, 4) + Weight(n3 % 2 == 1, 8) + 16 * n4
    ensures n < 16 ==> n4 == 0
  {
  }

  ghost predicate ExactView(v: View) {
    IsRadix(BitSet(v.bitmap), v.radix)
  }

  // What ParseDirIndex accepts.
  ghost function ParseView(input: seq<Bits8>, paranoid: bool): Option<View> {
    if |input| < HEAD_SIZE then None
    else
      var v := View(DecodeFixed16(input[0], input[1]), DecodeFixed16(input[2], input[3]), input[HEAD_SIZE..]);
      if |v.bitmap| < BitmapSize(v.radix) then None
      else if !BitAt(v.bitmap, 0) then None
      else if paranoid && !ExactView(v) then None
      else Some(v)
  }

  /** An encoding is accepted if and only if it has a header and a bitmap with room for the
      radix it states, partition 0 is in the bitmap and, with checks on, the radix is that of
      the highest partition. It then stands for what its parts say. */
  lemma AcceptedIff(input: seq<Bits8>, paranoid: bool)
    ensures ParseView(input, paranoid).Some? <==>
            && |input| >= 4
            && var radix, bitmap := input[2] as nat + 256 * input[3] as nat, input[4..];
            && 8 * |bitmap| >= Pow2(radix) && 0 in BitSet(bitmap) && (paranoid ==> IsRadix(BitSet(bitmap), radix))
    ensures ParseView(input, paranoid).Some? ==>
              ParseView(input, paranoid).value ==
              View(input[0] as nat + 256 * input[1] as nat, input[2] as nat + 256 * input[3] as nat, input[4..])
  {
    hide BitSet;
    hide IsRadix;
    hide Pow2;
    hide BitAt;
    hide DecodeFixed16;
    if |input| >= 4 {
      Fixed16Is(input[0], input[1]);
      Fixed16Is(input[2], input[3]);
    }
  }

  lemma Fixed16Is(a: Bits8, b: Bits8)
    ensures DecodeFixed16(a, b) == a as nat + 256 * b as nat
  {
    hide DecodeFixed;
    TwoBytes(a as nat, b as nat);
  }
}
