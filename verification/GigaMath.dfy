/**
 Partition numbers of a GIGA+ directory index: radix, parent and child partitions,
 and the chain of partitions that a name hash may fall into.
 */
module GigaMath {
  import opened Coding

  const MAX_RADIX := 16
  const MAX_PARTITIONS := 65536

  // floor(log2(value))
  function ToLog2(value: nat): nat
    requires value >= 1
  {
    if value == 1 then 0 else 1 + ToLog2(value / 2)
  }

  // The number of bits necessary to hold the given index.
  function ToRadix(index: nat): nat {
    if index == 0 then 0 else 1 + ToLog2(index)
  }

  function ToChildIndex(index: nat, radix: nat): nat {
    index + Pow2(radix)
  }

  function ToParentIndex(index: nat): (p: nat)
    ensures index > 0 ==> p < index
  {
    if index == 0 then 0 else Log2Bounds(index); index - Pow2(ToLog2(index))
  }

  lemma {:induction false} Log2Bounds(v: nat)
    requires v >= 1
    ensures Pow2(ToLog2(v)) <= v < 2 * Pow2(ToLog2(v))
  {
    if v <= 1 {
    } else {
      Log2Bounds(v / 2);
    }
  }

  /** The radix is the least number of bits that holds the index. */
  lemma RadixIff(index: nat, r: nat)
    ensures ToRadix(index) <= r <==> index < Pow2(r)
  {
    if index > 0 {
      Log2Bounds(index);
      var t := ToRadix(index);
      assert Pow2(t - 1) <= index < Pow2(t);
      if t <= r {
        Pow2Mono(t, r);
      } else {
        Pow2Mono(r, t - 1);
      }
    }
  }

  // ------------------------------------------------------------------
  // The first bits of a hash
  // ------------------------------------------------------------------

  // The partition that the first n bits of "v" name.
  function At(v: nat, n: nat): (i: nat)
    ensures i < Pow2(n)
  {
    v % Pow2(n)
  }

  lemma MultipleSpread(d: int, m: nat)
    requires d != 0
    ensures d * m >= m || d * m <= 0 - m
  {
    var e: nat := if d > 0 then d - 1 else -d - 1;
    assert e * m >= 0;
    assert (e + 1) * m == e * m + m;
    assert d < 0 ==> d * m == -((e + 1) * m);
  }

  lemma ModUnique(v: nat, q: nat, m: nat, r: nat)
    requires m > 0 && v == q * m + r && r < m
    ensures v % m == r
  {
    var d := v / m - q;
    assert v == (v / m) * m + v % m;
    assert d * m == (v / m) * m - q * m;
    if d != 0 {
      MultipleSpread(d, m);
    }
  }

  lemma ModHalf(v: nat, m: nat)
    requires m > 0
    ensures v % (2 * m) == v % m || v % (2 * m) == v % m + m
  {
    var k := v / m;
    HalfQuotient(v, m, v % m, k / 2, k % 2);
  }

  lemma HalfQuotient(v: nat, m: nat, s: nat, h: nat, b: nat)
    requires s < m && b <= 1 && v == (2 * h + b) * m + s
    ensures v % (2 * m) == b * m + s
  {
    assert (2 * h + b) * m == h * (2 * m) + b * m;
    assert b * m == if b == 0 then 0 else m;
    ModUnique(v, h, 2 * m, b * m + s);
  }

  // One more bit leaves the index alone or adds the next power of two.
  lemma AtStep(v: nat, n: nat)
    ensures At(v, n + 1) == At(v, n) || At(v, n + 1) == At(v, n) + Pow2(n)
  {
    ModHalf(v, Pow2(n));
  }

  lemma AtSelf(i: nat, n: nat)
    requires i < Pow2(n)
    ensures At(i, n) == i
  {
    ModUnique(i, 0, Pow2(n), i);
  }

  lemma {:induction false} AtMono(v: nat, m: nat, n: nat)
    requires m <= n
    ensures At(v, m) <= At(v, n)
    decreases n - m
  {
    if m >= n {
    } else {
      AtMono(v, m, n - 1);
      AtStep(v, n - 1);
    }
  }

  lemma {:induction false} AtAt(v: nat, m: nat, n: nat)
    requires m <= n
    ensures At(At(v, n), m) == At(v, m)
    decreases n - m
  {
    hide At;
    hide Pow2;
    if m < n {
      AtAt(v, m, n - 1);
      AtStep(v, n - 1);
      if At(v, n) != At(v, n - 1) {
        AddPow2(At(v, n - 1), n - 1, m);
      }
    } else {
      AtSelf(At(v, n), n);
    }
  }

  lemma AddMultiple(i: nat, k: nat, m: nat)
    requires m > 0
    ensures (i + k * m) % m == i % m
  {
    var q := i / m;
    assert i == q * m + i % m;
    assert (q + k) * m == q * m + k * m;
    ModUnique(i + k * m, q + k, m, i % m);
  }

  lemma {:induction false} Pow2Multiple(m: nat, q: nat) returns (k: nat)
    requires m <= q
    ensures Pow2(q) == k * Pow2(m)
    decreases q - m
  {
    if m == q {
      k := 1;
    } else {
      var k0 := Pow2Multiple(m, q - 1);
      k := 2 * k0;
      assert k * Pow2(m) == 2 * (k0 * Pow2(m));
    }
  }

  // Adding a power of two does not change the bits below it.
  lemma AddPow2(i: nat, q: nat, m: nat)
    requires m <= q
    ensures At(i + Pow2(q), m) == At(i, m)
  {
    var k := Pow2Multiple(m, q);
    AddMultiple(i, k, Pow2(m));
  }

  // The shortest prefix of "v" that names the same partition.
  lemma {:induction false} AtRadix(v: nat, n: nat)
    ensures ToRadix(At(v, n)) <= n
    ensures At(v, ToRadix(At(v, n))) == At(v, n)
  {
    var i := At(v, n);
    RadixIff(i, n);
    AtAt(v, ToRadix(i), n);
    RadixIff(i, ToRadix(i));
    ModUnique(i, 0, Pow2(ToRadix(i)), i);
  }

  // Going to the parent drops the last bit that counts.
  lemma AtParent(v: nat, n: nat)
    requires At(v, n) > 0
    ensures var r := ToRadix(At(v, n)); r > 0 && ToParentIndex(At(v, n)) == At(v, r - 1)
  {
    var i := At(v, n);
    var r := ToRadix(i);
    AtRadix(v, n);
    AtStep(v, r - 1);
    Log2Bounds(i);
  }

  /** Whether "index" is on the chain of "v": the first bits of "v", as many as
      the index needs, are the index itself. */
  predicate OnChain(v: nat, index: nat) {
    At(v, ToRadix(index)) == index
  }

  // Every prefix of a partition number on the chain is an ancestor of it.
  lemma ChainOrder(v: nat, j: nat, k: nat)
    requires OnChain(v, j) && OnChain(v, k) && j < k
    ensures ToRadix(j) < ToRadix(k) && At(k, ToRadix(j)) == j
  {
    if ToRadix(k) <= ToRadix(j) {
      AtMono(v, ToRadix(k), ToRadix(j));
    }
    AtAt(v, ToRadix(j), ToRadix(k));
  }

  lemma ChildRadix(p: nat, q: nat)
    requires ToRadix(p) <= q
    ensures ToRadix(ToChildIndex(p, q)) == q + 1
    ensures ToParentIndex(ToChildIndex(p, q)) == p
    ensures forall m: nat :: m <= q ==> At(ToChildIndex(p, q), m) == At(p, m)
  {
    var c := ToChildIndex(p, q);
    RadixIff(p, q);
    RadixIff(c, q);
    RadixIff(c, q + 1);
    forall m: nat | m <= q ensures At(c, m) == At(p, m) {
      AddPow2(p, q, m);
    }
  }
}
