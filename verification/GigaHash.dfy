/**
 Bytes of hashes and bitmaps: the bit constants, the byte reversal, and the
 partition number that the leading bits of a hash stand for.
 */
module GigaHash {
  import opened Coding
  import opened GigaMath

  type Bits8 = bv8

  // Bit constants for bitwise calculation.
  function BitMask(k: nat): Bits8
    requires k < 8
  {
    match k
    case 0 => 1
    case 1 => 2
    case 2 => 4
    case 3 => 8
    case 4 => 16
    case 5 => 32
    case 6 => 64
    case _ => 128
  }

  predicate TestBit(b: Bits8, k: nat)
    requires k < 8
  {
    b & BitMask(k) != 0
  }

  // Reverse the bits in a byte with 4 operations on 64-bit words.
  function Reverse(b: Bits8): Bits8 {
    var x := b as bv64;
    (((((x * 0x80200802) & 0x0884422110) * 0x0101010101) >> 32) & 0xff) as bv8
  }

  /** The multiplications do reverse the byte. */
  lemma ReverseIsReversal(b: Bits8, k: nat)
    requires k < 8
    ensures TestBit(Reverse(b), k) <==> TestBit(b, 7 - k)
  {
  }

  function Weight(bit: bool, w: nat): nat { if bit then w else 0 }

  // The number that a byte stands for when its first bit is the least significant one.
  function ReversedValue(b: Bits8): (v: nat)
    ensures v < 256
  {
    Weight(TestBit(b, 7), 1) + Weight(TestBit(b, 6), 2) + Weight(TestBit(b, 5), 4) + Weight(TestBit(b, 4), 8) +
    Weight(TestBit(b, 3), 16) + Weight(TestBit(b, 2), 32) + Weight(TestBit(b, 1), 64) + Weight(TestBit(b, 0), 128)
  }

  lemma ByteValue(b: Bits8)
    ensures b as nat ==
            Weight(TestBit(b, 0), 1) + Weight(TestBit(b, 1), 2) + Weight(TestBit(b, 2), 4) + Weight(TestBit(b, 3), 8) +
            Weight(TestBit(b, 4), 16) + Weight(TestBit(b, 5), 32) + Weight(TestBit(b, 6), 64) + Weight(TestBit(b, 7), 128)
  {
  }

  method ReverseByte(b: Bits8) returns (r: Bits8)
    ensures r as nat == ReversedValue(b)
  {
    r := Reverse(b);
    forall k: nat | k < 8 ensures TestBit(r, k) <==> TestBit(b, 7 - k) {
      ReverseIsReversal(b, k);
    }
    ByteValue(r);
  }

  // The bits below bit k.
  function LowMask(k: nat): Bits8
    requires k < 8
  {
    match k
    case 0 => 0
    case 1 => 1
    case 2 => 3
    case 3 => 7
    case 4 => 15
    case 5 => 31
    case 6 => 63
    case _ => 127
  }

  lemma Pow2Small()
    ensures Pow2(0) == 1 && Pow2(1) == 2 && Pow2(2) == 4 && Pow2(3) == 8 && Pow2(4) == 16
    ensures Pow2(5) == 32 && Pow2(6) == 64 && Pow2(7) == 128 && Pow2(8) == 256
  {
  }

  lemma LowMaskMod(b: Bits8, k: nat)
    requires k < 8
    ensures (b & LowMask(k)) as nat == At(b as nat, k)
  {
    Pow2Small();
    if k < 3 {
      LowBits(b);
      TwoBits(b);
    } else if k < 5 {
      MiddleBits(b);
    } else {
      HighBits(b);
    }
  }

  lemma LowBits(b: Bits8)
    ensures (b & 0) as nat == 0 && (b & 1) as nat == (b as nat) % 2
  {
  }

  lemma TwoBits(b: Bits8)
    ensures (b & 3) as nat == (b as nat) % 4
  {
  }

  lemma MiddleBits(b: Bits8)
    ensures (b & 7) as nat == (b as nat) % 8 && (b & 15) as nat == (b as nat) % 16
  {
  }

  lemma HighBits(b: Bits8)
    ensures (b & 31) as nat == (b as nat) % 32
    ensures (b & 63) as nat == (b as nat) % 64 && (b & 127) as nat == (b as nat) % 128
  {
  }

  // The number whose low bits are the leading bits of the hash.
  function HashValue(hash: seq<Bits8>): nat
    requires |hash| >= 2
  {
    ReversedValue(hash[0]) + 256 * ReversedValue(hash[1])
  }

  lemma FirstByte(a: nat, b: nat, k: nat)
    requires a < 256 && b < 256 && k <= 8
    ensures At(a + 256 * b, k) == At(a, k)
  {
    Pow2Small();
    var m := Pow2Multiple(k, 8);
    assert 256 * b == (b * m) * Pow2(k);
    AddMultiple(a, b * m, Pow2(k));
  }

  lemma SecondDigit(a: nat, b: nat, m: nat)
    requires a < 256 && m > 0
    ensures (a + 256 * b) % (256 * m) == a + 256 * (b % m)
  {
    var q := b / m;
    var r := b % m;
    assert b == q * m + r;
    assert q * (256 * m) == 256 * (q * m);
    ModUnique(a + 256 * b, q, 256 * m, a + 256 * r);
  }

  lemma SecondByte(a: nat, b: nat, k: nat)
    requires a < 256 && b < 256
    ensures At(a + 256 * b, 8 + k) == a + 256 * At(b, k)
  {
    Pow2Shift(k);
    SecondDigit(a, b, Pow2(k));
  }

  lemma {:induction false} Pow2Shift(k: nat)
    ensures Pow2(8 + k) == 256 * Pow2(k)
  {
    if k == 0 {
      Pow2Small();
    } else {
      Pow2Shift(k - 1);
    }
  }

  // The value of the first j of eight bits.
  function Partial(t: seq<nat>, j: nat): nat
    requires |t| == 8 && j <= 8
  {
    (if j > 0 then t[0] else 0) + (if j > 1 then 2 * t[1] else 0) + (if j > 2 then 4 * t[2] else 0) +
    (if j > 3 then 8 * t[3] else 0) + (if j > 4 then 16 * t[4] else 0) + (if j > 5 then 32 * t[5] else 0) +
    (if j > 6 then 64 * t[6] else 0) + (if j > 7 then 128 * t[7] else 0)
  }

  lemma PartialMod(t: seq<nat>, j: nat)
    requires |t| == 8 && j <= 8 && forall i :: 0 <= i < 8 ==> t[i] <= 1
    ensures At(Partial(t, 8), j) == Partial(t, j)
  {
    Pow2Small();
    var v := Partial(t, 8);
    match j
    case 0 => ModUnique(v, v, 1, 0);
    case 1 => ModUnique(v, t[1] + 2 * t[2] + 4 * t[3] + 8 * t[4] + 16 * t[5] + 32 * t[6] + 64 * t[7], 2, Partial(t, 1));
    case 2 => ModUnique(v, t[2] + 2 * t[3] + 4 * t[4] + 8 * t[5] + 16 * t[6] + 32 * t[7], 4, Partial(t, 2));
    case 3 => ModUnique(v, t[3] + 2 * t[4] + 4 * t[5] + 8 * t[6] + 16 * t[7], 8, Partial(t, 3));
    case 4 => ModUnique(v, t[4] + 2 * t[5] + 4 * t[6] + 8 * t[7], 16, Partial(t, 4));
    case 5 => ModUnique(v, t[5] + 2 * t[6] + 4 * t[7], 32, Partial(t, 5));
    case 6 => ModUnique(v, t[6] + 2 * t[7], 64, Partial(t, 6));
    case 7 => ModUnique(v, t[7], 128, Partial(t, 7));
    case _ => ModUnique(v, 0, 256, v);
  }

  function Bits(b: Bits8): (t: seq<nat>)
    ensures |t| == 8 && forall i :: 0 <= i < 8 ==> t[i] == Weight(TestBit(b, 7 - i), 1)
  {
    seq(8, i requires 0 <= i < 8 => Weight(TestBit(b, 7 - i), 1))
  }

  lemma PartialStep(t: seq<nat>, j: nat)
    requires |t| == 8 && j < 8
    ensures Partial(t, j + 1) == Partial(t, j) + Pow2(j) * t[j]
  {
    Pow2Small();
    match j
    case 0 => assert Pow2(0) * t[0] == t[0];
    case 1 => assert Pow2(1) * t[1] == 2 * t[1];
    case 2 => assert Pow2(2) * t[2] == 4 * t[2];
    case 3 => assert Pow2(3) * t[3] == 8 * t[3];
    case 4 => assert Pow2(4) * t[4] == 16 * t[4];
    case 5 => assert Pow2(5) * t[5] == 32 * t[5];
    case 6 => assert Pow2(6) * t[6] == 64 * t[6];
    case _ => assert Pow2(7) * t[7] == 128 * t[7];
  }

  lemma BitsValue(b: Bits8)
    ensures Partial(Bits(b), 8) == ReversedValue(b)
  {
    hide TestBit;
    hide Bits;
    var t := Bits(b);
    assert t[0] == Weight(TestBit(b, 7), 1) && t[1] == Weight(TestBit(b, 6), 1) && t[2] == Weight(TestBit(b, 5), 1);
    assert t[3] == Weight(TestBit(b, 4), 1) && t[4] == Weight(TestBit(b, 3), 1) && t[5] == Weight(TestBit(b, 2), 1);
    assert t[6] == Weight(TestBit(b, 1), 1) && t[7] == Weight(TestBit(b, 0), 1);
  }

  // One bit more of a byte, the most significant one first.
  lemma ByteBit(b: Bits8, j: nat)
    requires j < 8
    ensures At(ReversedValue(b), j + 1) == At(ReversedValue(b), j) + Weight(TestBit(b, 7 - j), Pow2(j))
  {
    hide TestBit;
    hide Bits;
    hide At;
    hide Pow2;
    hide Partial;
    hide ReversedValue;
    var t := Bits(b);
    BitsValue(b);
    PartialMod(t, j);
    PartialMod(t, j + 1);
    PartialStep(t, j);
  }

  /** The partition of a hash at one radix more has the next bit of the hash in front: bits are
      taken byte by byte, from the most significant one of each. */
  lemma NextBit(hash: seq<Bits8>, k: nat)
    requires |hash| >= 2 && k < 16
    ensures At(HashValue(hash), k + 1) ==
            At(HashValue(hash), k) + Weight(TestBit(hash[k / 8], 7 - k % 8), Pow2(k))
  {
    hide TestBit;
    hide ReversedValue;
    hide At;
    hide Pow2;
    var v0, v1 := ReversedValue(hash[0]), ReversedValue(hash[1]);
    if k < 8 {
      FirstByte(v0, v1, k);
      FirstByte(v0, v1, k + 1);
      ByteBit(hash[0], k);
    } else {
      SecondByte(v0, v1, k - 8);
      SecondByte(v0, v1, k - 7);
      ByteBit(hash[1], k - 8);
      Pow2Shift(k - 8);
    }
  }

  // The first nbits bits of a byte.
  method LeadingBits(b: Bits8, nbits: nat) returns (v: nat)
    requires nbits < 8
    ensures v == At(ReversedValue(b), nbits)
  {
    var r := ReverseByte(b);
    LowMaskMod(r, nbits);
    v := (r & LowMask(nbits)) as nat;
  }

  method WholeByte(b: Bits8) returns (v: nat)
    ensures v == ReversedValue(b)
  {
    var r := ReverseByte(b);
    v := r as nat;
  }

  /** The loop over whole bytes and the masked rest together yield the first n bits. */
  method ComputeIndexFromHash(hash: seq<Bits8>, n: nat) returns (result: nat)
    requires n <= MAX_RADIX && |hash| >= 2
    ensures result == At(HashValue(hash), n)
  {
    ghost var v0, v1 := ReversedValue(hash[0]), ReversedValue(hash[1]);
    result := 0;
    var nbytes := n / 8;
    var idx := 0;
    while idx < nbytes
      invariant 0 <= idx <= nbytes
      invariant result == if idx == 0 then 0 else if idx == 1 then v0 else v0 + 256 * v1
    {
      var r := WholeByte(hash[idx]);
      result := result + r * (if idx == 0 then 1 else 256);
      idx := idx + 1;
    }
    var nbits := n % 8;
    if nbits > 0 {
      var r := LeadingBits(hash[idx], nbits);
      result := result + r * (if idx == 0 then 1 else 256);
    }
    Assemble(v0, v1, n, result);
  }

  lemma Assemble(v0: nat, v1: nat, n: nat, result: nat)
    requires v0 < 256 && v1 < 256 && n <= MAX_RADIX
    requires result == if n < 8 then (if n == 0 then 0 else At(v0, n))
                       else if n == 8 then v0
                       else if n == 16 then v0 + 256 * v1 else v0 + 256 * At(v1, n - 8)
    ensures result == At(v0 + 256 * v1, n)
  {
    Pow2Small();
    if n < 8 {
      FirstByte(v0, v1, n);
    } else {
      SecondByte(v0, v1, n - 8);
    }
  }
}
