/**
 The public operations of a directory index: parsing and merging an encoded index,
 splitting, pre-splitting, and finding the partition and the server of a hash.
 */
module GigaClient {
  import opened Coding
  import opened GigaMath
  import opened GigaHash
  import opened GigaIndex
  import opened GigaRep
  import opened GigaDirIndex

  function MapIndexToServer(index: nat, zeroth: nat, numServers: nat): (s: nat)
    requires numServers > 0
    ensures s < numServers
  {
    (index + zeroth) % numServers
  }

  lemma RemainderNext(x: nat, n: nat)
    requires n > 0
    ensures (x + 1) % n == (x % n + 1) % n
  {
    var q, r := x / n, x % n;
    assert x == q * n + r;
    if r + 1 < n {
      ModUnique(x + 1, q, n, r + 1);
      ModUnique(r + 1, 0, n, r + 1);
    } else {
      assert (q + 1) * n == q * n + n;
      ModUnique(x + 1, q + 1, n, 0);
      ModUnique(n, 1, n, 0);
    }
  }

  /** Partitions go to the servers in turn, starting with the zeroth server of the directory. */
  lemma RoundRobin(index: nat, zeroth: nat, numServers: nat)
    requires zeroth < numServers
    ensures MapIndexToServer(0, zeroth, numServers) == zeroth
    ensures MapIndexToServer(index + 1, zeroth, numServers) == (MapIndexToServer(index, zeroth, numServers) + 1) % numServers
  {
    ModUnique(zeroth, 0, numServers, zeroth);
    RemainderNext(index + zeroth, numServers);
  }

  /** So two partitions share a server if and only if their numbers differ by a multiple of the
      number of servers, and any run of that many partitions is spread over all of them. */
  lemma SameServerIff(i: nat, j: nat, zeroth: nat, numServers: nat)
    requires numServers > 0 && i <= j
    ensures MapIndexToServer(i, zeroth, numServers) == MapIndexToServer(j, zeroth, numServers) <==> (j - i) % numServers == 0
    ensures i < j < i + numServers ==> MapIndexToServer(i, zeroth, numServers) != MapIndexToServer(j, zeroth, numServers)
  {
    SameRemainder(i + zeroth, j - i, numServers);
    if i < j < i + numServers {
      ModUnique(j - i, 0, numServers, j - i);
    }
  }

  lemma LessOnce(x: nat, n: nat)
    requires 0 < n <= x
    ensures x % n == (x - n) % n
  {
    var y := x - n;
    assert y == y / n * n + y % n;
    assert (y / n + 1) * n == y / n * n + n;
    ModUnique(x, y / n + 1, n, y % n);
  }

  lemma {:induction false} SameRemainder(a: nat, d: nat, n: nat)
    requires n > 0
    ensures a % n == (a + d) % n <==> d % n == 0
    decreases d
  {
    if d >= n {
      SameRemainder(a, d - n, n);
      LessOnce(d, n);
      LessOnce(a + d, n);
    } else {
      var q, r := a / n, a % n;
      assert a == q * n + r;
      ModUnique(d, 0, n, d);
      if r + d < n {
        ModUnique(a + d, q, n, r + d);
      } else {
        assert (q + 1) * n == q * n + n;
        ModUnique(a + d, q + 1, n, r + d - n);
      }
    }
  }

  // The value of an index: what routing depends on.
  datatype IndexValue = IndexValue(zeroth: nat, idx: Index)

  function ServerOf(v: IndexValue, hv: nat, numServers: nat): (s: nat)
    requires numServers > 0
    ensures s < numServers
  {
    MapIndexToServer(Owner(v.idx.bits, v.idx.radix, hv), v.zeroth, numServers)
  }

  ghost predicate Mergeable(v: View) {
    ExactView(v) && |v.bitmap| <= MAX_CAPACITY
  }

  lemma MergeableRadix(v: View)
    requires |v.bitmap| <= MAX_CAPACITY && BitmapSize(v.radix) <= |v.bitmap|
    ensures v.radix <= MAX_RADIX
  {
    if v.radix > MAX_RADIX {
      Pow2Mono(MAX_RADIX + 1, v.radix);
      Pow16();
    }
  }

  class DirIndex {
    const numServers: nat
    const virtualServers: nat
    const paranoid: bool
    var rep: Rep?

    ghost predicate Valid()
      reads this, rep, if rep != null then {rep.bitmap} else {}
    {
      && 1 <= numServers && 1 <= virtualServers <= MAX_PARTITIONS
      && (rep != null ==> rep.Valid())
    }

    ghost function Value(): IndexValue
      requires rep != null
      reads this, rep, if rep != null then {rep.bitmap} else {}
    {
      IndexValue(rep.zeroth, Index(rep.Bits(), rep.radix))
    }

    // An index of its own, or one that is yet to be filled in.
    constructor (servers: nat, virtuals: nat, checks: bool)
      requires 1 <= servers && 1 <= virtuals <= MAX_PARTITIONS
      ensures Valid() && rep == null
      ensures numServers == servers && virtualServers == virtuals && paranoid == checks
    {
      numServers, virtualServers, paranoid, rep := servers, virtuals, checks, null;
    }

    // Merge another index of the same directory, given its encoding.
    method Update(other: seq<Bits8>) returns (ok: bool)
      requires Valid()
      requires ParseView(other, paranoid).Some? ==> Mergeable(ParseView(other, paranoid).value)
      modifies this, rep, if rep != null then {rep.bitmap} else {}
      ensures Valid()
      ensures ok <==> ParseView(other, paranoid).Some? &&
                      (old(rep) != null ==> old(rep.zeroth) == ParseView(other, paranoid).value.zeroth)
      ensures !ok ==> rep == old(rep) && (rep != null ==> Value() == old(Value()))
      ensures ok ==> rep != null &&
                     (var v := ParseView(other, paranoid).value;
                      var old_ := if old(rep) == null then IndexValue(v.zeroth, Index({0}, 0)) else old(Value());
                      Value() == IndexValue(v.zeroth, Index(old_.idx.bits + BitSet(v.bitmap),
                                                            MaxRadix(old_.idx.radix, v.radix))))
    {
      var parsed := ParseDirIndex(other, paranoid);
      if parsed.None? {
        return false;
      }
      var view := parsed.value;
      MergeableRadix(view);
      if rep == null {
        HeaderRange(other);
        rep := new Rep(view.zeroth);
      } else if rep.zeroth != view.zeroth {
        return false;
      }
      rep.Merge(view);
      return true;
    }

    // Pre-split the directory over all virtual servers.
    method SetAll()
      requires Valid() && rep != null && virtualServers <= MAX_CAPACITY
      modifies rep, rep.bitmap
      ensures Valid()
      ensures Value() == IndexValue(old(Value()).zeroth,
                           Index(old(Value()).idx.bits + Below(virtualServers),
                                 MaxRadix(old(Value()).idx.radix, ToRadix(virtualServers - 1))))
    {
      rep.SetBelow(virtualServers);
    }

    // Add one partition, as a split does.
    method Set(index: nat)
      requires Valid() && rep != null && index < virtualServers
      requires ToRadix(index) <= rep.radix + 1
      modifies rep, rep.bitmap
      ensures Valid()
      ensures Value() == IndexValue(old(Value()).zeroth,
                           Index(old(Value()).idx.bits + {index}, SplitRadix(old(Value()).idx.radix, index)))
    {
      SetFits(rep.radix, index, rep.bitmap.Length);
      rep.TurnOnBit(index);
    }

    method IsSplittable(index: nat) returns (b: bool)
      requires Valid() && rep != null && index < MAX_PARTITIONS
      ensures b <==> Splittable(rep.Bits(), index, virtualServers)
    {
      var set_ := rep.Bit(index);
      if !set_ {
        return false;
      }
      var r := ToRadix(index);
      RadixIff(index, MAX_RADIX);
      Pow16();
      while r < MAX_RADIX
        invariant ToRadix(index) <= r <= MAX_RADIX
        invariant FirstFree(rep.Bits(), index, ToRadix(index)) == FirstFree(rep.Bits(), index, r)
        decreases MAX_RADIX - r
      {
        var i := ToChildIndex(index, r);
        set_ := rep.Bit(i);
        if !set_ {
          return i < virtualServers;
        }
        r := r + 1;
      }
      return false;
    }

    method NewIndexForSplitting(index: nat) returns (i: nat)
      requires Valid() && rep != null && Splittable(rep.Bits(), index, virtualServers)
      ensures i == NewChild(rep.Bits(), index) && i < virtualServers
    {
      hide FirstFree;
      hide ToRadix;
      i := index;
      var r := ToRadix(index);
      var set_ := true;
      ghost var q := FirstFree(rep.Bits(), index, ToRadix(index));
      while set_
        invariant ToRadix(index) <= r <= q + 1
        invariant set_ <==> i in rep.Bits()
        invariant set_ ==> r <= q
        invariant r > ToRadix(index) ==> i == ToChildIndex(index, r - 1)
        invariant r == ToRadix(index) ==> i == index
        decreases q + 1 - r
      {
        i := ToChildIndex(index, r);
        r := r + 1;
        set_ := rep.Bit(i);
      }
    }

    /** Split a partition: its first free child is added, and nothing else changes. */
    method Split(p: nat) returns (child: nat)
      requires Valid() && rep != null && Splittable(rep.Bits(), p, virtualServers) && AncestorClosed(rep.Bits())
      modifies rep, rep.bitmap
      ensures Valid() && AncestorClosed(rep.Bits())
      ensures child !in old(rep.Bits()) && ToParentIndex(child) == p && child < virtualServers
      ensures Value() == IndexValue(old(Value()).zeroth, Apply(virtualServers, old(Value()).idx, IndexOp.Split(p)))
    {
      child := NewIndexForSplitting(p);
      SplitKeeps(rep.Bits(), rep.radix, p, virtualServers);
      Set(child);
    }

    // The partition of a hash: the deepest one on its chain.
    method HashToIndex(hash: seq<Bits8>) returns (i: nat)
      requires Valid() && rep != null && |hash| >= 2
      ensures i == Owner(rep.Bits(), rep.radix, HashValue(hash))
      ensures IsDeepest(rep.Bits(), HashValue(hash), i)
    {
      i := ComputeIndexFromHash(hash, rep.radix);
      var set_ := rep.Bit(i);
      while !set_
        invariant set_ <==> i in rep.Bits()
        invariant Climb(rep.Bits(), i) == Owner(rep.Bits(), rep.radix, HashValue(hash))
        decreases i
      {
        i := ToParentIndex(i);
        set_ := rep.Bit(i);
      }
      OwnerIff(rep.Bits(), rep.radix, HashValue(hash), i);
    }

    method HashToServer(hash: seq<Bits8>) returns (server: nat)
      requires Valid() && rep != null && |hash| >= 2
      ensures server == ServerOf(Value(), HashValue(hash), numServers) < numServers
      ensures rep.Bits() == {0} && rep.zeroth < numServers ==> server == rep.zeroth
    {
      var i := HashToIndex(hash);
      if rep.zeroth < numServers {
        RoundRobin(0, rep.zeroth, numServers);
      }
      server := MapIndexToServer(i, rep.zeroth, numServers);
    }
  }

  lemma HeaderRange(input: seq<Bits8>)
    requires |input| >= HEAD_SIZE
    ensures DecodeFixed16(input[0], input[1]) < 65536
  {
  }

  // Doubling once is enough for one more bit of radix.
  lemma SetFits(r: nat, index: nat, capacity: nat)
    requires ToRadix(index) <= r + 1 && BitmapSize(r) <= capacity
    ensures index < 2 * capacity * 8
  {
    RadixIff(index, r + 1);
  }

  method ParseDirIndex(input: seq<Bits8>, paranoid: bool) returns (view: Option<View>)
    ensures view == ParseView(input, paranoid)
  {
    if |input| < HEAD_SIZE {
      return None;
    }
    var v := View(DecodeFixed16(input[0], input[1]), DecodeFixed16(input[2], input[3]), input[HEAD_SIZE..]);
    if |v.bitmap| < BitmapSize(v.radix) || v.bitmap[0] & BitMask(0) == 0 {
      return None;
    }
    if paranoid {
      var h := HighestInMap(v.bitmap);
      if v.radix != ToRadix(h) {
        if ExactView(v) {
          RadixOfHighest(BitSet(v.bitmap), v.radix, h);
        }
        return None;
      }
      HighestDecidesRadix(BitSet(v.bitmap), h);
    }
    return Some(v);
  }

  method HighestInMap(s: seq<Bits8>) returns (h: nat)
    requires BitAt(s, 0)
    ensures h in BitSet(s) && forall b :: b in BitSet(s) ==> b <= h
  {
    var i := |s| - 1;
    ZeroByte(0);
    while s[i] == 0
      invariant 0 <= i < |s|
      invariant forall b :: b in BitSet(s) ==> b / 8 <= i
      decreases i
    {
      i := i - 1;
    }
    ZeroByte(s[i]);
    var off := 7;
    while s[i] & BitMask(off) == 0
      invariant 0 <= off <= 7
      invariant forall k :: off < k < 8 ==> !TestBit(s[i], k)
      invariant exists k: nat :: k < 8 && TestBit(s[i], k)
      decreases off
    {
      off := off - 1;
    }
    h := off + i * 8;
    assert BitAt(s, h);
  }
}
