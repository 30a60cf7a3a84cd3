/**
 A directory index as the set of its partitions: which partition a hash belongs to,
 what a split moves, and what every run of splits and merges keeps.
 */
module GigaIndex {
  import opened Coding
  import opened GigaMath

  // ------------------------------------------------------------------
  // Routing
  // ------------------------------------------------------------------

  // Walk up from partition i to the first one that exists.
  function Climb(bits: set<nat>, i: nat): (j: nat) {
    if i in bits || i == 0 then i else Climb(bits, ToParentIndex(i))
  }

  // The partition of a hash whose leading bits are "v", in an index of radix r.
  function Owner(bits: set<nat>, r: nat, v: nat): nat {
    Climb(bits, At(v, r))
  }

  // r bits hold every partition number, and r - 1 bits do not.
  ghost predicate IsRadix(bits: set<nat>, r: nat) {
    && (forall b :: b in bits ==> b < Pow2(r))
    && (r > 0 ==> exists b :: b in bits && b >= Pow2(r - 1))
  }

  // Every partition was split off from one that exists.
  ghost predicate AncestorClosed(bits: set<nat>) {
    0 in bits && forall b :: b in bits ==> ToParentIndex(b) in bits
  }

  // The deepest existing partition on the chain of "v".
  ghost predicate IsDeepest(bits: set<nat>, v: nat, j: nat) {
    && j in bits
    && OnChain(v, j)
    && (forall k :: k in bits && OnChain(v, k) ==> k <= j)
  }

  lemma {:induction false} ClimbDeepest(bits: set<nat>, v: nat, n: nat)
    requires 0 in bits
    ensures var j := Climb(bits, At(v, n));
            && j in bits && OnChain(v, j)
            && forall k :: k in bits && OnChain(v, k) && ToRadix(k) <= n ==> k <= j
  {
    var i := At(v, n);
    AtRadix(v, n);
    if i in bits {
      forall k | k in bits && OnChain(v, k) && ToRadix(k) <= n ensures k <= i {
        AtMono(v, ToRadix(k), n);
      }
    } else {
      var r := ToRadix(i);
      AtParent(v, n);
      ClimbDeepest(bits, v, r - 1);
      forall k | k in bits && OnChain(v, k) && r <= ToRadix(k) <= n ensures false {
        AtMono(v, r, ToRadix(k));
        AtMono(v, ToRadix(k), n);
      }
    }
  }

  /** The walk ends at the deepest existing partition on the chain of the hash; no
      other partition has that property, so every hash belongs to exactly one. */
  lemma OwnerIff(bits: set<nat>, r: nat, v: nat, j: nat)
    requires 0 in bits && IsRadix(bits, r)
    ensures j == Owner(bits, r, v) <==> IsDeepest(bits, v, j)
  {
    ClimbDeepest(bits, v, r);
    forall k | k in bits ensures ToRadix(k) <= r {
      RadixIff(k, r);
    }
  }

  // Partition numbers with the same owner rule as the index they are taken from.
  lemma {:induction false} AncestorIn(bits: set<nat>, k: nat, m: nat)
    requires AncestorClosed(bits) && k in bits
    ensures At(k, m) in bits
    decreases k
  {
    RadixIff(k, ToRadix(k));
    if ToRadix(k) <= m {
      Pow2Mono(ToRadix(k), m);
      ModUnique(k, 0, Pow2(m), k);
    } else {
      ModUnique(k, 0, Pow2(ToRadix(k)), k);
      AtParent(k, ToRadix(k));
      var p := ToParentIndex(k);
      AtAt(k, m, ToRadix(k) - 1);
      AncestorIn(bits, p, m);
    }
  }

  // ------------------------------------------------------------------
  // Splitting
  // ------------------------------------------------------------------

  // The first radix from r on at which partition p has no child yet, or MAX_RADIX.
  function FirstFree(bits: set<nat>, p: nat, r: nat): (q: nat)
    requires r <= MAX_RADIX
    ensures r <= q <= MAX_RADIX
    ensures q < MAX_RADIX ==> ToChildIndex(p, q) !in bits
    ensures forall m: nat :: r <= m < q ==> ToChildIndex(p, m) in bits
    decreases MAX_RADIX - r
  {
    if r == MAX_RADIX || ToChildIndex(p, r) !in bits then r else FirstFree(bits, p, r + 1)
  }

  predicate Splittable(bits: set<nat>, p: nat, virtualServers: nat) {
    && p in bits
    && ToRadix(p) < MAX_RADIX
    && (var q := FirstFree(bits, p, ToRadix(p));
        q < MAX_RADIX && ToChildIndex(p, q) < virtualServers)
  }

  /** A partition can be split if and only if it exists, not all its children up to the largest
      radix do, and the first one that does not is below the number of virtual servers. */
  lemma SplittableIff(bits: set<nat>, p: nat, virtualServers: nat)
    ensures Splittable(bits, p, virtualServers) <==>
            p in bits && exists m: nat :: IsFirstFree(bits, p, m) && ToChildIndex(p, m) < virtualServers
  {
    if ToRadix(p) < MAX_RADIX {
      var q := FirstFree(bits, p, ToRadix(p));
      assert q < MAX_RADIX ==> IsFirstFree(bits, p, q);
      if m: nat :| IsFirstFree(bits, p, m) && ToChildIndex(p, m) < virtualServers {
        assert m == q;
      }
    }
  }

  ghost predicate IsFirstFree(bits: set<nat>, p: nat, m: nat) {
    && ToRadix(p) <= m < MAX_RADIX && ToChildIndex(p, m) !in bits
    && forall j: nat :: ToRadix(p) <= j < m ==> ToChildIndex(p, j) in bits
  }

  function NewChild(bits: set<nat>, p: nat): nat
    requires ToRadix(p) <= MAX_RADIX
  {
    ToChildIndex(p, FirstFree(bits, p, ToRadix(p)))
  }

  // The radix grows by at most one.
  function SplitRadix(r: nat, c: nat): nat {
    if ToRadix(c) > r then ToRadix(c) else r
  }

  lemma SplitKeeps(bits: set<nat>, r: nat, p: nat, virtualServers: nat)
    requires AncestorClosed(bits) && IsRadix(bits, r) && Splittable(bits, p, virtualServers)
    ensures var c := NewChild(bits, p);
            && c !in bits && ToParentIndex(c) == p
            && ToRadix(c) <= r + 1
            && AncestorClosed(bits + {c})
            && IsRadix(bits + {c}, SplitRadix(r, c))
  {
    hide IsRadix;
    var q := FirstFree(bits, p, ToRadix(p));
    var c := NewChild(bits, p);
    InRadix(bits, r);
    ChildRadix(p, q);
    RadixIff(p, r);
    if q > ToRadix(p) {
      var b := ToChildIndex(p, q - 1);
      assert b in bits;
      ChildRadix(p, q - 1);
      RadixIff(b, r);
    }
    RadixWith(bits, r, c);
  }

  lemma InRadix(bits: set<nat>, r: nat)
    requires IsRadix(bits, r)
    ensures forall b :: b in bits ==> b < Pow2(r)
  {
  }

  // One more partition.
  lemma RadixWith(bits: set<nat>, r: nat, c: nat)
    requires IsRadix(bits, r)
    ensures IsRadix(bits + {c}, SplitRadix(r, c))
  {
    var s := SplitRadix(r, c);
    Pow2Mono(r, s);
    RadixIff(c, ToRadix(c));
    RadixIff(c, s);
    if s > r {
      RadixIff(c, s - 1);
      assert c in bits + {c} && c >= Pow2(s - 1);
    } else if r > 0 {
      var b :| b in bits && b >= Pow2(r - 1);
      assert b in bits + {c};
    }
  }

  // Before the split, the hashes that will go to the child all belong to the parent.
  lemma MigratedFromParent(bits: set<nat>, r: nat, p: nat, q: nat, v: nat)
    requires AncestorClosed(bits) && IsRadix(bits, r)
    requires p in bits && ToRadix(p) <= q && ToChildIndex(p, q) !in bits
    requires OnChain(v, ToChildIndex(p, q))
    ensures Owner(bits, r, v) == p
    ensures forall k :: k in bits && OnChain(v, k) ==> k < ToChildIndex(p, q)
  {
    var c := ToChildIndex(p, q);
    ChildRadix(p, q);
    RadixIff(p, ToRadix(p));
    ModUnique(p, 0, Pow2(ToRadix(p)), p);
    AtAt(v, ToRadix(p), q + 1);
    assert OnChain(v, p);
    forall k | k in bits && OnChain(v, k) ensures k < c && k <= p {
      if k > c {
        ChainOrder(v, c, k);
        AncestorIn(bits, k, ToRadix(c));
      }
      ChainOrder(v, k, c);
      assert k == At(c, ToRadix(k)) == At(p, ToRadix(k));
      if k > p {
        ChainOrder(v, p, k);
        RadixIff(p, ToRadix(k));
        ModUnique(p, 0, Pow2(ToRadix(k)), p);
      }
    }
    OwnerIff(bits, r, v, p);
  }

  /** A split moves to the new child exactly the hashes that ToBeMigrated names, all of
      them from the parent, and moves no other hash, also when the radix grows. */
  lemma ExactSplit(bits: set<nat>, r: nat, p: nat, virtualServers: nat, v: nat)
    requires AncestorClosed(bits) && IsRadix(bits, r) && Splittable(bits, p, virtualServers)
    ensures var c := NewChild(bits, p);
            && Owner(bits + {c}, SplitRadix(r, c), v) == (if OnChain(v, c) then c else Owner(bits, r, v))
            && (OnChain(v, c) ==> Owner(bits, r, v) == p)
  {
    var q := FirstFree(bits, p, ToRadix(p));
    var c := NewChild(bits, p);
    SplitKeeps(bits, r, p, virtualServers);
    var s := SplitRadix(r, c);
    if OnChain(v, c) {
      MigratedFromParent(bits, r, p, q, v);
      OwnerIff(bits + {c}, s, v, c);
    } else {
      var j := Owner(bits, r, v);
      OwnerIff(bits, r, v, j);
      OwnerIff(bits + {c}, s, v, j);
    }
  }

  // ------------------------------------------------------------------
  // Merging
  // ------------------------------------------------------------------

  function MaxRadix(a: nat, b: nat): nat { if a < b then b else a }

  lemma MergeKeeps(a: set<nat>, ra: nat, b: set<nat>, rb: nat)
    requires IsRadix(a, ra) && IsRadix(b, rb)
    ensures IsRadix(a + b, MaxRadix(ra, rb))
    ensures AncestorClosed(a) && AncestorClosed(b) ==> AncestorClosed(a + b)
  {
    var r := MaxRadix(ra, rb);
    Pow2Mono(ra, r);
    Pow2Mono(rb, r);
    if r > 0 {
      if r == ra {
        var x :| x in a && x >= Pow2(r - 1);
        assert x in a + b;
      } else {
        var x :| x in b && x >= Pow2(r - 1);
        assert x in a + b;
      }
    }
  }

  lemma RadixUnique(bits: set<nat>, r: nat, s: nat)
    requires IsRadix(bits, r) && IsRadix(bits, s)
    ensures r == s
  {
    if r < s {
      Pow2Mono(r, s - 1);
    } else if s < r {
      Pow2Mono(s, r - 1);
    }
  }

  // ------------------------------------------------------------------
  // Runs
  // ------------------------------------------------------------------

  datatype Index = Index(bits: set<nat>, radix: nat)

  datatype IndexOp =
    | Split(p: nat)
    | Merge(other: Index)
    | SetAll

  ghost predicate Healthy(idx: Index) {
    && AncestorClosed(idx.bits)
    && IsRadix(idx.bits, idx.radix)
    && idx.radix <= MAX_RADIX
  }

  // The partitions 0 .. n - 1.
  predicate IsBelow(i: nat, n: nat) { i < n }

  function Below(n: nat): (s: set<nat>)
    ensures forall i: nat :: i in s <==> i < n
  {
    set i: nat | i < n && IsBelow(i, n)
  }

  lemma BelowHealthy(n: nat)
    requires 1 <= n <= MAX_PARTITIONS
    ensures Healthy(Index(Below(n), ToRadix(n - 1)))
  {
    var r := ToRadix(n - 1);
    assert Pow2(16) == MAX_PARTITIONS by { Pow16(); }
    RadixIff(n - 1, r);
    RadixIff(n - 1, MAX_RADIX);
    if r > 0 {
      RadixIff(n - 1, r - 1);
      assert n - 1 in Below(n);
    }
  }

  lemma Pow16()
    ensures Pow2(16) == 65536
  {
    assert Pow2(8) == 256;
    assert Pow2(12) == 4096;
  }

  ghost predicate CanApply(virtualServers: nat, idx: Index, op: IndexOp) {
    match op
    case Split(p) => Splittable(idx.bits, p, virtualServers)
    case Merge(other) => Healthy(other)
    case SetAll => true
  }

  ghost function Apply(virtualServers: nat, idx: Index, op: IndexOp): Index
    requires 1 <= virtualServers <= MAX_PARTITIONS && CanApply(virtualServers, idx, op)
  {
    match op
    case Split(p) =>
      var c := NewChild(idx.bits, p);
      Index(idx.bits + {c}, SplitRadix(idx.radix, c))
    case Merge(other) => Index(idx.bits + other.bits, MaxRadix(idx.radix, other.radix))
    case SetAll => Index(idx.bits + Below(virtualServers), MaxRadix(idx.radix, ToRadix(virtualServers - 1)))
  }

  ghost predicate CanRun(n: nat, idx: Index, ops: seq<IndexOp>)
    requires 1 <= n <= MAX_PARTITIONS
    decreases |ops|
  {
    ops != [] ==> CanApply(n, idx, ops[0]) && CanRun(n, Apply(n, idx, ops[0]), ops[1..])
  }

  ghost function Run(n: nat, idx: Index, ops: seq<IndexOp>): Index
    requires 1 <= n <= MAX_PARTITIONS && CanRun(n, idx, ops)
    decreases |ops|
  {
    if ops == [] then idx else Run(n, Apply(n, idx, ops[0]), ops[1..])
  }

  lemma ApplyHealthy(n: nat, idx: Index, op: IndexOp)
    requires 1 <= n <= MAX_PARTITIONS && Healthy(idx) && CanApply(n, idx, op)
    ensures Healthy(Apply(n, idx, op))
    ensures op.Split? ==> Apply(n, idx, op).radix <= idx.radix + 1
  {
    match op
    case Split(p) =>
      SplitKeeps(idx.bits, idx.radix, p, n);
      ChildRadix(p, FirstFree(idx.bits, p, ToRadix(p)));
    case Merge(other) => MergeKeeps(idx.bits, idx.radix, other.bits, other.radix);
    case SetAll =>
      BelowHealthy(n);
      MergeKeeps(idx.bits, idx.radix, Below(n), ToRadix(n - 1));
  }

  /** Every run of splits, merges and pre-splits keeps the index healthy: its radix is
      that of its highest partition and every partition's ancestors exist. */
  lemma {:induction false} RunHealthy(n: nat, idx: Index, ops: seq<IndexOp>)
    requires 1 <= n <= MAX_PARTITIONS && Healthy(idx) && CanRun(n, idx, ops)
    ensures Healthy(Run(n, idx, ops))
    ensures idx.bits <= Run(n, idx, ops).bits
    decreases |ops|
  {
    if ops == [] {
    } else {
      ApplyHealthy(n, idx, ops[0]);
      RunHealthy(n, Apply(n, idx, ops[0]), ops[1..]);
    }
  }

  /** Merging is commutative, associative and idempotent, so the order in which
      servers and clients exchange indices does not matter. */
  lemma MergeLaws(n: nat, a: Index, b: Index, d: Index)
    requires 1 <= n <= MAX_PARTITIONS && Healthy(a) && Healthy(b) && Healthy(d)
    ensures Apply(n, a, Merge(b)) == Apply(n, b, Merge(a))
    ensures Healthy(Apply(n, a, Merge(b))) && Healthy(Apply(n, b, Merge(d)))
    ensures Apply(n, Apply(n, a, Merge(b)), Merge(d)) == Apply(n, a, Merge(Apply(n, b, Merge(d))))
    ensures Apply(n, a, Merge(a)) == a
    ensures a.bits <= b.bits ==> Apply(n, a, Merge(b)) == b
  {
    ApplyHealthy(n, a, Merge(b));
    ApplyHealthy(n, b, Merge(d));
    assert a.bits + b.bits == b.bits + a.bits;
    assert (a.bits + b.bits) + d.bits == a.bits + (b.bits + d.bits);
    assert a.bits + a.bits == a.bits;
    if a.bits <= b.bits {
      assert a.bits + b.bits == b.bits;
      RadixUnique(b.bits, b.radix, MaxRadix(a.radix, b.radix));
    }
  }

  /** The index that HashToIndex starts from is below the number of virtual servers for
      every hash, if and only if the whole radix fits below that number. */
  lemma StartInRangeIff(r: nat, virtualServers: nat)
    ensures (forall v: nat :: At(v, r) < virtualServers) <==> Pow2(r) <= virtualServers
  {
    if Pow2(r) > virtualServers {
      var v := Pow2(r) - 1;
      ModUnique(v, 0, Pow2(r), v);
      assert At(v, r) >= virtualServers;
    }
  }

  // A server's own run: it starts with partition 0 and only splits, or pre-splits all.
  ghost predicate OwnRun(n: nat, ops: seq<IndexOp>)
    requires 1 <= n <= MAX_PARTITIONS
  {
    && CanRun(n, Index({0}, 0), ops)
    && forall i :: 0 <= i < |ops| ==> !ops[i].Merge?
  }

  // The assertion on the starting index holds for every hash, whatever the server did.
  ghost predicate AlwaysInRange(n: nat)
    requires 1 <= n <= MAX_PARTITIONS
  {
    forall ops, v: nat :: OwnRun(n, ops) ==> At(v, Run(n, Index({0}, 0), ops).radix) < n
  }

  lemma {:induction false} RunBelow(n: nat, idx: Index, ops: seq<IndexOp>)
    requires 1 <= n <= MAX_PARTITIONS && Healthy(idx) && CanRun(n, idx, ops)
    requires (forall i :: 0 <= i < |ops| ==> !ops[i].Merge?) && forall b :: b in idx.bits ==> b < n
    ensures Healthy(Run(n, idx, ops)) && forall b :: b in Run(n, idx, ops).bits ==> b < n
    decreases |ops|
  {
    if ops == [] {
    } else {
      ApplyHealthy(n, idx, ops[0]);
      assert !ops[0].Merge?;
      forall b | b in Apply(n, idx, ops[0]).bits ensures b < n {
      }
      RunBelow(n, Apply(n, idx, ops[0]), ops[1..]);
    }
  }

  /** The assertion holds in every run of splits and pre-splits, for every hash, if and only
      if the number of virtual servers is a power of two. */
  lemma StartAlwaysInRangeIff(n: nat)
    requires 1 <= n <= MAX_PARTITIONS
    ensures AlwaysInRange(n) <==> exists k :: Pow2(k) == n
  {
    var r := ToRadix(n - 1);
    RadixIff(n - 1, r);
    if Pow2(r) != n {
      Overshoots(n, r);
      NotPow2(n, r);
    } else {
      forall ops, v: nat | OwnRun(n, ops) ensures At(v, Run(n, Index({0}, 0), ops).radix) < n {
        Stays(n, r, ops);
        StartInRangeIff(Run(n, Index({0}, 0), ops).radix, n);
      }
    }
  }

  lemma Stays(n: nat, k: nat, ops: seq<IndexOp>)
    requires 1 <= n <= MAX_PARTITIONS && Pow2(k) == n && OwnRun(n, ops)
    ensures Pow2(Run(n, Index({0}, 0), ops).radix) <= n
  {
    hide Run;
    hide CanRun;
    hide Pow2;
    var start := Index({0}, 0);
    StartHealthy();
    RunBelow(n, start, ops);
    var idx := Run(n, start, ops);
    RadixBound(idx.bits, idx.radix, k);
    Pow2Mono(idx.radix, k);
  }

  lemma StartHealthy()
    ensures Healthy(Index({0}, 0))
  {
  }

  lemma RadixBound(bits: set<nat>, r: nat, k: nat)
    requires IsRadix(bits, r) && forall b :: b in bits ==> b < Pow2(k)
    ensures r <= k
  {
    if r > k {
      Pow2Mono(k, r - 1);
    }
  }

  // Pre-splitting is enough to overshoot.
  lemma Overshoots(n: nat, r: nat)
    requires 1 <= n <= MAX_PARTITIONS && r == ToRadix(n - 1) && Pow2(r) > n
    ensures !AlwaysInRange(n)
  {
    var start, ops := Index({0}, 0), [SetAll];
    assert ops[1..] == [];
    assert CanRun(n, Apply(n, start, SetAll), []);
    assert OwnRun(n, ops);
    assert Run(n, start, ops).radix == r;
    StartInRangeIff(r, n);
  }

  lemma NotPow2(n: nat, r: nat)
    requires n >= 1 && r == ToRadix(n - 1) && Pow2(r) > n
    ensures forall k :: Pow2(k) != n
  {
    forall k: nat ensures Pow2(k) != n {
      if Pow2(k) == n {
        RadixIff(n - 1, k);
        Pow2Mono(r, k);
      }
    }
  }
}
