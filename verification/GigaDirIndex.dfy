/**
 The representation of a directory index, a header and a growing bitmap that are updated
 in place.
 */
module GigaDirIndex {
  import opened Coding
  import opened GigaMath
  import opened GigaHash
  import opened GigaIndex
  import opened GigaRep

  // One past the highest bit decides the radix.
  lemma HighestDecidesRadix(bits: set<nat>, h: nat)
    requires h in bits && forall b :: b in bits ==> b <= h
    ensures IsRadix(bits, ToRadix(h))
  {
    var r := ToRadix(h);
    RadixIff(h, r);
    if r > 0 {
      RadixIff(h, r - 1);
    }
  }

  lemma RadixOfHighest(bits: set<nat>, r: nat, h: nat)
    requires IsRadix(bits, r) && h in bits && forall b :: b in bits ==> b <= h
    ensures r == ToRadix(h)
  {
    HighestDecidesRadix(bits, h);
    RadixUnique(bits, r, ToRadix(h));
  }

  // Consecutive numbers differ by at most one in radix.
  lemma NextRadix(i: nat)
    ensures ToRadix(i) <= ToRadix(i + 1) <= ToRadix(i) + 1
  {
    RadixIff(i, ToRadix(i));
    RadixIff(i + 1, ToRadix(i) + 1);
    RadixIff(i, ToRadix(i + 1));
    RadixIff(i + 1, ToRadix(i + 1));
  }

  class Rep {
    var zeroth: nat
    var radix: nat
    var bitmap: array<Bits8>

    ghost function Bits(): set<nat>
      reads this, bitmap
    {
      BitSet(bitmap[..])
    }

    // The radix is large enough, but perhaps not the least one.
    ghost predicate Sound()
      reads this, bitmap
    {
      && zeroth < 65536
      && radix <= MAX_RADIX
      && IsCapacity(bitmap.Length)
      && BitmapSize(radix) <= bitmap.Length
      && 0 in Bits()
      && (forall b :: b in Bits() ==> b < Pow2(radix))
    }

    ghost predicate Valid()
      reads this, bitmap
    {
      Sound() && IsRadix(Bits(), radix)
    }

    constructor (zserver: nat)
      requires zserver < 65536
      ensures Valid() && fresh(bitmap)
      ensures zeroth == zserver && radix == 0 && Bits() == {0} && bitmap.Length == INIT_CAPACITY
    {
      zeroth, radix := zserver, 0;
      bitmap := new Bits8[INIT_CAPACITY](_ => 0);
      new;
      ghost var zeros := bitmap[..];
      bitmap[0] := bitmap[0] | BitMask(0);
      assert bitmap[..] == zeros[0 := zeros[0] | BitMask(0)];
      SetBitInMap(zeros, 0);
      ZeroByte(0);
      assert BitSet(zeros) == {};
    }

    method Bit(index: nat) returns (set_: bool)
      requires Sound()
      ensures set_ <==> index in Bits()
    {
      if index < BitmapSize(radix) * 8 {
        set_ := bitmap[index / 8] & BitMask(index % 8) != 0;
      } else {
        set_ := false;
      }
    }

    method HighestBit() returns (h: nat)
      requires Sound()
      ensures h in Bits() && forall b :: b in Bits() ==> b <= h
    {
      var i := BitmapSize(radix) - 1;
      assert BitAt(bitmap[..], 0);
      ZeroByte(0);
      while bitmap[i] == 0
        invariant 0 <= i < bitmap.Length
        invariant forall b :: b in Bits() ==> b / 8 <= i
        decreases i
      {
        i := i - 1;
      }
      ZeroByte(bitmap[i]);
      var off := 7;
      while bitmap[i] & BitMask(off) == 0
        invariant 0 <= off <= 7
        invariant forall k :: off < k < 8 ==> !TestBit(bitmap[i], k)
        invariant exists k: nat :: k < 8 && TestBit(bitmap[i], k)
        decreases off
      {
        off := off - 1;
      }
      h := off + i * 8;
      assert BitAt(bitmap[..], h);
    }

    // Give the bitmap "factor" times its capacity; the new bits are clear.
    method ScaleUp(factor: nat)
      requires factor >= 1 && IsCapacity(bitmap.Length)
      modifies this`bitmap
      ensures Times(bitmap.Length, factor, old(bitmap.Length))
      ensures Bits() == old(Bits())
      ensures factor > 1 ==> fresh(bitmap)
      ensures factor == 1 ==> bitmap == old(bitmap)
    {
      if factor > 1 {
        assert factor * bitmap.Length == bitmap.Length + (factor - 1) * bitmap.Length;
        Grow(factor * bitmap.Length);
      }
    }

    method Grow(size: nat)
      requires size >= bitmap.Length
      modifies this`bitmap
      ensures bitmap.Length == size && fresh(bitmap)
      ensures Bits() == old(Bits())
    {
      var n := bitmap.Length;
      var buf := new Bits8[size](_ => 0);
      forall i | 0 <= i < n {
        buf[i] := bitmap[i];
      }
      assert buf[..] == bitmap[..] + seq(size - n, _ => 0 as Bits8);
      PadMap(bitmap[..], size - n);
      bitmap := buf;
    }

    // Ensure the bitmap has at least the specified capacity.
    method ScaleToSize(capacity: nat)
      requires IsCapacity(bitmap.Length) && capacity <= MAX_CAPACITY
      modifies this`bitmap
      ensures IsCapacity(bitmap.Length) && bitmap.Length == Doubled(old(bitmap.Length), capacity)
      ensures Bits() == old(Bits())
      ensures bitmap == old(bitmap) || fresh(bitmap)
    {
      hide Times;
      hide BitSet;
      var factor := 1;
      var current := bitmap.Length;
      TimesOne(current);
      DoubledIff(bitmap.Length, capacity);
      while current < capacity
        invariant bitmap == old(bitmap) && current > 0 && factor >= 1 && Times(current, factor, bitmap.Length)
        invariant Doubled(current, capacity) == Doubled(bitmap.Length, capacity)
        decreases capacity - current
      {
        TwiceAsMuch(current, factor, bitmap.Length);
        current := current * 2;
        factor := factor * 2;
      }
      ScaleUp(factor);
      TimesOnce(bitmap.Length, current, factor, old(bitmap.Length));
    }

    method TurnOnBit(index: nat)
      requires Valid() && index < MAX_PARTITIONS
      requires ToRadix(index) <= radix + 1 && index < 2 * bitmap.Length * 8
      modifies this`radix, this`bitmap, bitmap
      ensures Valid() && (bitmap == old(bitmap) || fresh(bitmap))
      ensures Bits() == old(Bits()) + {index}
      ensures radix == SplitRadix(old(radix), index)
      ensures bitmap.Length >= old(bitmap.Length)
    {
      hide BitSet;
      hide IsRadix;
      hide ToRadix;
      if index >= bitmap.Length * 8 {
        CapacityList(bitmap.Length);
        ScaleUp(2);
      }
      TurnOn(index);
    }

    // The bit is within the bitmap already.
    method TurnOn(index: nat)
      requires zeroth < 65536 && IsCapacity(bitmap.Length) && radix <= MAX_RADIX
      requires 0 in Bits() && IsRadix(Bits(), radix) && BitmapSize(radix) <= bitmap.Length
      requires index < MAX_PARTITIONS && ToRadix(index) <= radix + 1 && index < bitmap.Length * 8
      modifies this`radix, bitmap
      ensures Valid()
      ensures Bits() == old(Bits()) + {index}
      ensures radix == SplitRadix(old(radix), index)
    {
      ghost var s := bitmap[..];
      ghost var bits := Bits();
      var r := ToRadix(index);
      TurnOnRadix(bits, radix, index, bitmap.Length);
      if radix < r {
        radix := r;
      }
      var i := index / 8;
      bitmap[i] := bitmap[i] | BitMask(index % 8);
      assert bitmap[..] == s[i := s[i] | BitMask(index % 8)];
      SetBitInMap(s, index);
    }

    method Reserve(size: nat)
      requires Valid() && size <= MAX_CAPACITY
      modifies this`bitmap
      ensures Valid() && Bits() == old(Bits())
      ensures size <= bitmap.Length && (bitmap == old(bitmap) || fresh(bitmap))
    {
      ScaleToSize(size);
    }

    // Whether the bits below i have been added to what was there before.
    ghost predicate FilledBelow(i: nat, bits: set<nat>, r: nat)
      reads this, bitmap
    {
      Valid() && Bits() == bits + Below(i) && radix == MaxRadix(r, if i == 0 then 0 else ToRadix(i - 1))
    }

    method TurnOnNext(i: nat, ghost bits: set<nat>, ghost r: nat)
      requires FilledBelow(i, bits, r) && i < bitmap.Length
      modifies this`radix, this`bitmap, bitmap
      ensures FilledBelow(i + 1, bits, r)
      ensures bitmap.Length >= old(bitmap.Length) && (bitmap == old(bitmap) || fresh(bitmap))
    {
      hide BitSet;
      hide IsRadix;
      if i > 0 {
        NextRadix(i - 1);
      }
      TurnOnBit(i);
      assert Below(i + 1) == Below(i) + {i};
    }

    // Set the bits 0 .. n - 1; the reservation counts bytes where bits are meant.
    method SetBelow(n: nat)
      requires Valid() && 1 <= n <= MAX_CAPACITY
      modifies this`radix, this`bitmap, bitmap
      ensures Valid() && (bitmap == old(bitmap) || fresh(bitmap))
      ensures Bits() == old(Bits()) + Below(n)
      ensures radix == MaxRadix(old(radix), ToRadix(n - 1))
    {
      Reserve(n);
      FillBelow(n, Bits(), radix);
    }

    method FillBelow(n: nat, ghost bits: set<nat>, ghost r: nat)
      requires FilledBelow(0, bits, r) && n <= bitmap.Length
      modifies this`radix, this`bitmap, bitmap
      ensures FilledBelow(n, bits, r) && (bitmap == old(bitmap) || fresh(bitmap))
    {
      hide FilledBelow;
      var i := 0;
      while i < n
        invariant 0 <= i <= n <= bitmap.Length
        invariant FilledBelow(i, bits, r)
        invariant bitmap == old(bitmap) || fresh(bitmap)
      {
        TurnOnNext(i, bits, r);
        i := i + 1;
      }
    }

    method TurnOffBit(index: nat)
      requires Valid() && 0 < index < MAX_PARTITIONS
      modifies this`radix, bitmap
      ensures Valid()
      ensures Bits() == old(Bits()) - {index}
    {
      if index < BitmapSize(radix) * 8 {
        ghost var bits := Bits();
        TurnOff(index);
        if radix == ToRadix(index) {
          LowerRadix();
        } else {
          KeepRadix(bits, radix, index);
        }
      } else {
        assert index !in Bits();
      }
    }

    method TurnOff(index: nat)
      requires index < bitmap.Length * 8
      modifies bitmap
      ensures Bits() == old(Bits()) - {index}
    {
      hide BitSet;
      hide BitMask;
      ghost var s := bitmap[..];
      var i := index / 8;
      bitmap[i] := bitmap[i] & !BitMask(index % 8);
      assert bitmap[..] == s[i := s[i] & !BitMask(index % 8)];
      ClearBitInMap(s, index);
    }

    method LowerRadix()
      requires Sound()
      modifies this`radix
      ensures Valid()
    {
      var h := HighestBit();
      HighestDecidesRadix(Bits(), h);
      RadixIff(h, radix);
      BitmapSizeMono(ToRadix(h), radix);
      radix := ToRadix(h);
    }

    // Take over every partition of another index of the same directory.
    method Merge(other: View)
      requires Valid() && ExactView(other) && other.zeroth == zeroth
      requires other.radix <= MAX_RADIX && |other.bitmap| <= MAX_CAPACITY
      requires BitmapSize(other.radix) <= |other.bitmap|
      modifies this`radix, this`bitmap, bitmap
      ensures Valid() && (bitmap == old(bitmap) || fresh(bitmap))
      ensures Bits() == old(Bits()) + BitSet(other.bitmap)
      ensures radix == MaxRadix(old(radix), other.radix)
    {
      hide BitSet;
      hide IsRadix;
      hide Doubled;
      ghost var bits := Bits();
      MergeKeeps(bits, radix, BitSet(other.bitmap), other.radix);
      var n := BitmapSize(radix);
      if n < |other.bitmap| {
        n := |other.bitmap|;
      }
      BitmapSizeMono(MaxRadix(radix, other.radix), MAX_RADIX);
      ScaleToSize(n);
      if radix < other.radix {
        radix := other.radix;
      }
      OrInto(other.bitmap, n);
    }

    method OrInto(o: seq<Bits8>, n: nat)
      requires |o| <= n <= bitmap.Length
      modifies bitmap
      ensures Bits() == old(Bits()) + BitSet(o)
    {
      ghost var s := bitmap[..];
      var i := 0;
      while i < n
        invariant 0 <= i <= n
        invariant forall k :: 0 <= k < i ==> bitmap[k] == s[k] | ByteAt(o, k)
        invariant forall k :: i <= k < bitmap.Length ==> bitmap[k] == s[k]
      {
        bitmap[i] := bitmap[i] | ByteAt(o, i);
        i := i + 1;
      }
      forall k | n <= k < bitmap.Length ensures bitmap[..][k] == s[k] | ByteAt(o, k) {
        assert s[k] | 0 == s[k];
      }
      OrMaps(s, o, bitmap[..]);
    }

    // The bytes that are stored and sent: zeroth server, radix, bitmap.
    method Encode() returns (out: seq<Bits8>)
      requires Valid()
      ensures |out| == HEAD_SIZE + BitmapSize(radix)
      ensures forall paranoid ::
                ParseView(out, paranoid) == Some(View(zeroth, radix, out[HEAD_SIZE..]))
      ensures BitSet(out[HEAD_SIZE..]) == Bits()
    {
      var n := BitmapSize(radix);
      out := Fixed16(zeroth) + Fixed16(radix) + bitmap[..n];
      assert out[HEAD_SIZE..] == bitmap[..n];
      assert bitmap[..n] == bitmap[..][..n];
      CutMap(bitmap[..], n, radix);
      HeaderRoundTrip(zeroth);
      HeaderRoundTrip(radix);
      ghost var v := View(zeroth, radix, out[HEAD_SIZE..]);
      assert 0 in BitSet(v.bitmap);
      assert ExactView(v);
    }
  }

  predicate Times(product: nat, factor: nat, n: nat) { product == factor * n }

  lemma TimesOne(n: nat)
    ensures Times(n, 1, n)
  {
  }

  lemma TimesOnce(a: nat, b: nat, factor: nat, n: nat)
    requires Times(a, factor, n) && Times(b, factor, n)
    ensures a == b
  {
  }

  lemma TwiceAsMuch(product: nat, factor: nat, n: nat)
    requires Times(product, factor, n)
    ensures Times(product * 2, factor * 2, n)
  {
  }

  lemma HeaderRoundTrip(v: nat)
    requires v < 65536
    ensures DecodeFixed16(Fixed16(v)[0], Fixed16(v)[1]) == v
  {
    var f := Fixed(v, 2);
    FixedWidths();
    FixedRoundTrip(v, 2);
    ByteRoundTrip(f[0]);
    ByteRoundTrip(f[1]);
    assert f == [f[0], f[1]];
  }

  lemma TurnOnRadix(bits: set<nat>, r: nat, index: nat, capacity: nat)
    requires IsRadix(bits, r) && ToRadix(index) <= r + 1 && index < MAX_PARTITIONS
    requires IsCapacity(capacity) && index < capacity * 8 && BitmapSize(r) <= capacity
    ensures var s := SplitRadix(r, index);
            s <= MaxRadix(r, MAX_RADIX) && IsRadix(bits + {index}, s) && BitmapSize(s) <= capacity
  {
    var s := SplitRadix(r, index);
    Pow2Mono(r, s);
    RadixIff(index, s);
    Pow16();
    RadixIff(index, MAX_RADIX);
    if s > r {
      RadixIff(index, s - 1);
      assert index in bits + {index} && index >= Pow2(s - 1);
      CapacityHoldsRadix(capacity, s);
    } else if r > 0 {
      var b :| b in bits && b >= Pow2(r - 1);
      assert b in bits + {index};
    }
  }

  // Capacities are powers of two, so half a radix too many is a whole one too many.
  lemma CapacityHoldsRadix(capacity: nat, s: nat)
    requires IsCapacity(capacity) && 0 < s && Pow2(s - 1) < capacity * 8
    ensures BitmapSize(s) <= capacity
  {
    PowersUpTo16();
    CapacityList(capacity);
    if s > 16 {
      Pow2Mono(16, s - 1);
    }
  }

  lemma PowersUpTo16()
    ensures Pow2(0) == 1 && Pow2(1) == 2 && Pow2(2) == 4 && Pow2(3) == 8 && Pow2(4) == 16
    ensures Pow2(5) == 32 && Pow2(6) == 64 && Pow2(7) == 128 && Pow2(8) == 256
    ensures Pow2(9) == 512 && Pow2(10) == 1024 && Pow2(11) == 2048 && Pow2(12) == 4096
    ensures Pow2(13) == 8192 && Pow2(14) == 16384 && Pow2(15) == 32768 && Pow2(16) == 65536
  {
    Pow2Small();
    assert Pow2(12) == 16 * Pow2(8);
  }

  // Clearing a bit of a lower radix leaves the radix as it is.
  lemma KeepRadix(bits: set<nat>, r: nat, index: nat)
    requires IsRadix(bits, r) && r != ToRadix(index)
    ensures IsRadix(bits - {index}, r)
  {
    if r > 0 {
      var b :| b in bits && b >= Pow2(r - 1);
      RadixIff(b, r);
      RadixIff(b, r - 1);
      assert b in bits - {index};
    }
  }
}
