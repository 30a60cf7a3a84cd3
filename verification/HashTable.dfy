/**
 The chained hash table: an array of buckets, each a linked list of entries threaded
 through the entries themselves.
 */
module HashTables {
  import opened Coding

  type Key = Bytes
  type Pointer = nat  // 0 is the null pointer

  class Entry {
    const key: Key
    const hash: nat
    const value: Pointer
    var nextHash: Entry?
    var next: Entry?
    var prev: Entry?

    constructor (k: Key, h: nat, v: Pointer)
      ensures key == k && hash == h && value == v && nextHash == null && next == null && prev == null
    {
      key, hash, value, nextHash, next, prev := k, h, v, null, null, null;
    }
  }

  // The bucket of a hash; for a power of two this is masking with n - 1.
  function Slot(hash: nat, n: nat): (i: nat)
    requires n > 0
    ensures i < n
  {
    hash % n
  }

  /** The bucket is the rest of the hash: two hashes share one if and only if they differ by a
      multiple of the length. */
  lemma SlotIs(hash: nat, n: nat)
    requires n > 0
    ensures exists q: nat :: hash == q * n + Slot(hash, n)
  {
    assert hash == hash / n * n + Slot(hash, n);
  }

  predicate IsPowerOf2(n: nat) {
    n == 1 || (n > 1 && n % 2 == 0 && IsPowerOf2(n / 2))
  }

  // What follows position j of a chain.
  function After(c: seq<Entry>, j: int): Entry?
    requires 0 <= j < |c|
  {
    if j + 1 < |c| then c[j + 1] else null
  }

  // The chain c hangs off head.
  ghost predicate Linked(head: Entry?, c: seq<Entry>)
    reads c`nextHash
  {
    && head == (if c == [] then null else c[0])
    && forall j {:trigger After(c, j)} :: 0 <= j < |c| ==> c[j].nextHash == After(c, j)
  }

  // The chains hold exactly the entries in all, each once and in its own bucket.
  ghost predicate Bucketed(chains: seq<seq<Entry>>, all: set<Entry>) {
    && |chains| > 0
    && (forall i, j :: 0 <= i < |chains| && 0 <= j < |chains[i]| ==>
          chains[i][j] in all && Slot(chains[i][j].hash, |chains|) == i)
    && (forall e :: e in all ==> e in chains[Slot(e.hash, |chains|)])
    && (forall i :: 0 <= i < |chains| ==> Distinct(chains[i]))
  }

  ghost predicate Filled(heads: seq<Entry?>, chains: seq<seq<Entry>>, all: set<Entry>)
    reads all`nextHash
  {
    && Bucketed(chains, all) && |heads| == |chains|
    && (forall i :: 0 <= i < |chains| ==> Linked(heads[i], chains[i]))
  }

  // ------------------------------------------------------------------
  // Changing one chain
  // ------------------------------------------------------------------

  lemma PushBucketed(chains: seq<seq<Entry>>, all: set<Entry>, e: Entry)
    requires Bucketed(chains, all) && e !in all
    ensures var i := Slot(e.hash, |chains|);
            Bucketed(chains[i := [e] + chains[i]], all + {e}) && Bucketed(chains[i := chains[i] + [e]], all + {e})
  {
    hide Slot;
    var i := Slot(e.hash, |chains|);
    var front, back := chains[i := [e] + chains[i]], chains[i := chains[i] + [e]];
    forall x | x in all + {e} ensures x in front[Slot(x.hash, |chains|)] && x in back[Slot(x.hash, |chains|)] {
    }
  }

  lemma ReplaceBucketed(chains: seq<seq<Entry>>, all: set<Entry>, e: Entry, j: nat)
    requires Bucketed(chains, all) && e !in all
    requires j < |chains[Slot(e.hash, |chains|)]|
    ensures var i := Slot(e.hash, |chains|);
            Bucketed(chains[i := chains[i][j := e]], all - {chains[i][j]} + {e})
  {
    hide Slot;
    var i := Slot(e.hash, |chains|);
    var out := chains[i][j];
    var r := chains[i := chains[i][j := e]];
    forall x | x in all - {out} + {e} ensures x in r[Slot(x.hash, |chains|)] {
      if x != e {
        var k :| 0 <= k < |chains[Slot(x.hash, |chains|)]| && chains[Slot(x.hash, |chains|)][k] == x;
        assert r[Slot(x.hash, |chains|)][k] == x;
      } else {
        assert r[i][j] == e;
      }
    }
  }

  lemma DropBucketed(chains: seq<seq<Entry>>, all: set<Entry>, i: nat, j: nat)
    requires Bucketed(chains, all) && i < |chains| && j < |chains[i]|
    ensures Bucketed(chains[i := chains[i][..j] + chains[i][j + 1..]], all - {chains[i][j]})
  {
    hide Slot;
    var c := chains[i];
    var r := chains[i := c[..j] + c[j + 1..]];
    forall x | x in all - {c[j]} ensures x in r[Slot(x.hash, |chains|)] {
      var s := Slot(x.hash, |chains|);
      var k :| 0 <= k < |chains[s]| && chains[s][k] == x;
      assert s != i || k < j ==> r[s][k] == x;
      assert s == i && k > j ==> r[s][k - 1] == x;
    }
  }

  // The entries, looked up by key and hash.
  ghost predicate Indexed(entries: set<Entry>, contents: map<(Key, nat), Entry>) {
    && (forall e :: e in entries ==> (e.key, e.hash) in contents && contents[(e.key, e.hash)] == e)
    && (forall k :: k in contents ==> contents[k] in entries && (contents[k].key, contents[k].hash) == k)
  }

  lemma PushedLinked(e: Entry, c: seq<Entry>)
    requires Linked(e.nextHash, c)
    ensures Linked(e, [e] + c)
  {
    var r := [e] + c;
    forall k | 0 <= k < |r| ensures r[k].nextHash == After(r, k) {
      if k > 0 {
        assert r[k] == c[k - 1] && c[k - 1].nextHash == After(c, k - 1);
      }
    }
  }

  lemma AppendedLinked(head: Entry?, c: seq<Entry>, e: Entry)
    requires forall k {:trigger After(c, k)} :: 0 <= k < |c| - 1 ==> c[k].nextHash == After(c, k)
    requires if c == [] then head == e else head == c[0] && c[|c| - 1].nextHash == e
    requires e.nextHash == null
    ensures Linked(head, c + [e])
  {
    var r := c + [e];
    forall k | 0 <= k < |r| ensures r[k].nextHash == After(r, k) {
      if k < |c| - 1 {
        assert r[k] == c[k] && c[k].nextHash == After(c, k);
      }
    }
  }

  /** Move one entry to the front of its bucket. */
  method MoveEntry(list: array<Entry?>, e: Entry, ghost chains: seq<seq<Entry>>, ghost all: set<Entry>)
    requires Filled(list[..], chains, all) && e !in all
    modifies list, e`nextHash
    ensures var i := Slot(e.hash, |chains|);
            Filled(list[..], chains[i := [e] + chains[i]], all + {e})
  {
    var i := Slot(e.hash, list.Length);
    PushBucketed(chains, all, e);
    e.nextHash := list[i];
    list[i] := e;
    hide Slot;
    PushedLinked(e, chains[i]);
    assert forall k :: 0 <= k < |chains| && k != i ==> Linked(list[k], chains[k]);
  }

  // A place in a bucket's chain: the slot before position j, and what it points to.
  ghost predicate IsSlot(chains: seq<seq<Entry>>, i: nat, prev: Entry?, curr: Entry?, j: nat) {
    && i < |chains| && j <= |chains[i]|
    && prev == (if j == 0 then null else chains[i][j - 1])
    && curr == (if j == |chains[i]| then null else chains[i][j])
  }

  // Make the slot point to e.
  method SetSlot(list: array<Entry?>, i: nat, prev: Entry?, e: Entry?)
    requires i < list.Length
    modifies list, (if prev == null then {} else {prev})`nextHash
    ensures prev == null ==> list[..] == old(list[..])[i := e]
    ensures prev != null ==> list[..] == old(list[..]) && prev.nextHash == e
  {
    if prev == null {
      list[i] := e;
    } else {
      prev.nextHash := e;
    }
  }

  /** Add an entry at the end of its bucket. */
  method AppendEntry(list: array<Entry?>, e: Entry, prev: Entry?, ghost chains: seq<seq<Entry>>, ghost all: set<Entry>)
    returns (ghost r: seq<seq<Entry>>)
    requires Filled(list[..], chains, all) && e !in all
    requires var i := Slot(e.hash, |chains|); IsSlot(chains, i, prev, null, |chains[i]|)
    modifies list, e`nextHash, all`nextHash
    ensures Filled(list[..], r, all + {e})
  {
    var i := Slot(e.hash, list.Length);
    r := chains[i := chains[i] + [e]];
    PushBucketed(chains, all, e);
    assert Linked(list[i], chains[i]);
    e.nextHash := null;
    SetSlot(list, i, prev, e);
    hide Slot;
    AppendedLinked(list[i], chains[i], e);
    assert forall k :: 0 <= k < |chains| && k != i ==> Linked(list[k], chains[k]);
  }

  // The slot before position j now leads past it, or to an entry put in its place.
  lemma Spliced(head: Entry?, c: seq<Entry>, j: nat, mid: seq<Entry>)
    requires j < |c| && |mid| <= 1
    requires forall k {:trigger After(c, k)} :: 0 <= k < |c| && k != j - 1 && k != j ==> c[k].nextHash == After(c, k)
    requires mid != [] ==> mid[0].nextHash == After(c, j)
    requires var target := if mid != [] then mid[0] else After(c, j);
             if j == 0 then head == target else head == c[0] && c[j - 1].nextHash == target
    ensures Linked(head, c[..j] + mid + c[j + 1..])
  {
    var r := c[..j] + mid + c[j + 1..];
    forall k | 0 <= k < |r| ensures r[k].nextHash == After(r, k) {
      if k < j - 1 {
        assert r[k] == c[k] && c[k].nextHash == After(c, k);
      } else if k >= j + |mid| {
        var k' := k - |mid| + 1;
        assert r[k] == c[k'] && c[k'].nextHash == After(c, k');
      }
    }
  }

  lemma OnlyBefore(c: seq<Entry>, j: nat)
    requires Distinct(c) && j <= |c|
    ensures j > 0 ==> forall k {:trigger c[k]} :: 0 <= k < |c| && k != j - 1 ==> c[k] != c[j - 1]
  {
  }

  /** Put an entry in the place of another one. */
  method ReplaceEntry(list: array<Entry?>, e: Entry, prev: Entry?, curr: Entry,
                      ghost j: nat, ghost chains: seq<seq<Entry>>, ghost all: set<Entry>)
    returns (ghost r: seq<seq<Entry>>)
    requires Filled(list[..], chains, all) && e !in all
    requires IsSlot(chains, Slot(e.hash, |chains|), prev, curr, j)
    modifies list, e`nextHash, all`nextHash
    ensures Filled(list[..], r, all - {curr} + {e})
  {
    hide Slot;
    hide Distinct;
    var i := Slot(e.hash, list.Length);
    r := chains[i := chains[i][j := e]];
    ReplaceBucketed(chains, all, e, j);
    assert Linked(list[i], chains[i]) && chains[i][j] == curr;
    assert chains[i][j].nextHash == After(chains[i], j);
    e.nextHash := curr.nextHash;
    OnlyBefore(chains[i], j);
    SetSlot(list, i, prev, e);
    Spliced(list[i], chains[i], j, [e]);
    assert chains[i][..j] + [e] + chains[i][j + 1..] == chains[i][j := e];
    assert forall k :: 0 <= k < |chains| && k != i ==> Linked(list[k], chains[k]);
  }

  /** Take an entry out of its chain. */
  method UnlinkEntry(list: array<Entry?>, i: nat, prev: Entry?, curr: Entry,
                     ghost j: nat, ghost chains: seq<seq<Entry>>, ghost all: set<Entry>)
    returns (ghost r: seq<seq<Entry>>)
    requires Filled(list[..], chains, all) && IsSlot(chains, i, prev, curr, j)
    modifies list, all`nextHash
    ensures Filled(list[..], r, all - {curr})
  {
    hide Slot;
    hide Distinct;
    r := chains[i := chains[i][..j] + chains[i][j + 1..]];
    DropBucketed(chains, all, i, j);
    assert Linked(list[i], chains[i]) && chains[i][j] == curr;
    assert chains[i][j].nextHash == After(chains[i], j);
    OnlyBefore(chains[i], j);
    SetSlot(list, i, prev, curr.nextHash);
    Spliced(list[i], chains[i], j, []);
    assert chains[i][..j] + [] + chains[i][j + 1..] == chains[i][..j] + chains[i][j + 1..];
    assert forall k :: 0 <= k < |chains| && k != i ==> Linked(list[k], chains[k]);
  }

  /** Move all entries of a chain into a new table. */
  method MoveChain(list: array<Entry?>, head: Entry?, ghost c: seq<Entry>, ghost chains0: seq<seq<Entry>>, ghost all0: set<Entry>)
    returns (count: nat, ghost chains: seq<seq<Entry>>)
    requires Filled(list[..], chains0, all0) && Linked(head, c) && Distinct(c)
    requires Elements(c) !! all0
    modifies list, Elements(c)`nextHash
    ensures |chains| == |chains0| && Filled(list[..], chains, all0 + Elements(c)) && count == |c|
  {
    hide Slot;
    hide Filled;
    hide Bucketed;
    FilledParts(list[..], chains0, all0);
    chains, count := chains0, 0;
    ghost var all := all0;
    var e := head;
    while e != null
      invariant count <= |c| && e == (if count == |c| then null else c[count])
      invariant all == all0 + Elements(c[..count])
      invariant |chains| == |chains0| && Filled(list[..], chains, all)
      invariant forall k {:trigger After(c, k)} :: count <= k < |c| ==> c[k].nextHash == After(c, k)
      decreases |c| - count
    {
      assert c[count].nextHash == After(c, count);
      var next := e.nextHash;
      ElementsStep(c, count);
      MoveEntry(list, e, chains, all);
      chains, all := chains[Slot(e.hash, |chains|) := [e] + chains[Slot(e.hash, |chains|)]], all + {e};
      e, count := next, count + 1;
    }
    assert c[..count] == c;
  }

  ghost function Elements(c: seq<Entry>): set<Entry> {
    set e | e in c
  }

  lemma ElementsStep(c: seq<Entry>, k: nat)
    requires k < |c|
    ensures Elements(c[..k + 1]) == Elements(c[..k]) + {c[k]}
  {
    assert c[..k + 1] == c[..k] + [c[k]];
  }

  // The entries in the first i buckets.
  ghost function Below(all: set<Entry>, n: nat, i: nat): set<Entry>
    requires n > 0
  {
    set e | e in all && Slot(e.hash, n) < i
  }

  lemma BelowStep(chains: seq<seq<Entry>>, all: set<Entry>, i: nat)
    requires Bucketed(chains, all) && i < |chains|
    ensures Below(all, |chains|, i + 1) == Below(all, |chains|, i) + Elements(chains[i])
    ensures Below(all, |chains|, i) !! Elements(chains[i]) && |Elements(chains[i])| == |chains[i]|
  {
    DistinctCount(chains[i]);
    hide Slot;
  }

  lemma Apart(chains: seq<seq<Entry>>, all: set<Entry>, i: nat)
    requires Bucketed(chains, all) && i < |chains|
    ensures Elements(chains[i]) <= all && Distinct(chains[i])
    ensures forall k, m :: 0 <= k < |chains| && k != i && 0 <= m < |chains[k]| ==> chains[k][m] !in Elements(chains[i])
  {
    hide Slot;
  }

  lemma {:induction false} DistinctCount(c: seq<Entry>)
    requires Distinct(c)
    ensures |Elements(c)| == |c|
    decreases |c|
  {
    if c == [] {
      assert Elements(c) == {};
    } else {
      var last := |c| - 1;
      DistinctCount(c[..last]);
      ElementsStep(c, last);
      assert c[..last + 1] == c && c[last] !in c[..last];
    }
  }

  /** A power of two with room for all entries. */
  method NewLength(elems: nat) returns (n: nat)
    ensures n >= 4 && n >= elems && IsPowerOf2(n)
    ensures n == 4 || n < 2 * elems
    ensures elems <= 0x8000_0000 ==> exists k :: n == Doubled32(k)
  {
    n := 4;
    ghost var k := 0;
    while n < elems
      invariant n >= 4 && IsPowerOf2(n) && (n == 4 || n < 2 * elems)
      invariant n == 4 * Pow2(k) && (elems <= 0x8000_0000 ==> n == Doubled32(k))
      decreases elems - n
    {
      DoublePower(n);
      Doubled32Is(k);
      n, k := n * 2, k + 1;
      DoubledFits(k, n, elems);
    }
  }

  // As long as the wrap-around is not reached.
  lemma DoubledFits(k: nat, n: nat, elems: nat)
    requires k > 0 && n == 4 * Pow2(k) && n < 2 * elems
    ensures elems <= 0x8000_0000 ==> n == Doubled32(k)
  {
    Doubled32Is(k);
    if k >= 30 {
      Pow2Mono(30, k);
      Pow2At29();
      assert Pow2(30) == 2 * Pow2(29);
    }
  }

  // The length after k rounds of doubling on 32 bits.
  function Doubled32(k: nat): nat {
    if k == 0 then 4 else Doubled32(k - 1) * 2 % UINT32
  }

  lemma {:induction false} Doubled32Is(k: nat)
    ensures Doubled32(k) == if k < 30 then 4 * Pow2(k) else 0
    ensures k < 30 ==> Pow2(k) <= 0x2000_0000
  {
    hide Pow2;
    Pow2At29();
    if k == 0 {
      Pow2Mono(0, 29);
      Pow2At0();
    } else {
      Doubled32Is(k - 1);
      Pow2Next(k - 1);
      Wraps(Doubled32(k - 1));
      if k < 30 {
        Pow2Mono(k, 29);
      }
    }
  }

  lemma Wraps(n: nat)
    ensures n < 0x8000_0000 ==> n * 2 % UINT32 == n * 2
    ensures n == 0x8000_0000 ==> n * 2 % UINT32 == 0
  {
  }

  lemma Pow2At0()
    ensures Pow2(0) == 1
  {
  }

  lemma Pow2Next(k: nat)
    ensures Pow2(k + 1) == 2 * Pow2(k)
  {
  }

  lemma Pow2At29()
    ensures Pow2(29) == 0x2000_0000
  {
    assert Pow2(8) == 256;
    assert Pow2(16) == 65536;
    assert Pow2(24) == 0x100_0000;
  }

  /** On 32 bits the doubling reaches the number of entries, and so ends, if and only if
      there are at most 2^31 of them; otherwise the length wraps around to 0 and stays there. */
  lemma DoublingEndsIff(elems: nat)
    requires elems < UINT32
    ensures (exists k :: Doubled32(k) >= elems) <==> elems <= 0x8000_0000
  {
    Doubled32Is(29);
    Pow2At29();
    if k :| Doubled32(k) >= elems {
      Doubled32Is(k);
    }
  }

  lemma DoublePower(n: nat)
    requires IsPowerOf2(n)
    ensures IsPowerOf2(n * 2)
  {
    assert n * 2 / 2 == n;
  }

  lemma FilledParts(heads: seq<Entry?>, chains: seq<seq<Entry>>, all: set<Entry>)
    requires Filled(heads, chains, all)
    ensures |heads| == |chains| > 0 && Bucketed(chains, all)
    ensures forall k :: 0 <= k < |chains| ==> Linked(heads[k], chains[k])
  {
  }

  lemma EmptyFilled(heads: seq<Entry?>)
    requires |heads| > 0 && forall i :: 0 <= i < |heads| ==> heads[i] == null
    ensures Filled(heads, seq(|heads|, _ => []), {})
  {
  }

  lemma BelowEnds(all: set<Entry>, n: nat)
    requires n > 0
    ensures Below(all, n, 0) == {} && Below(all, n, n) == all
  {
  }

  // Move one bucket; the later buckets stay as they are.
  method MoveBucket(old_: array<Entry?>, list: array<Entry?>, i: nat,
                    ghost chains0: seq<seq<Entry>>, ghost all: set<Entry>, ghost chains1: seq<seq<Entry>>)
    returns (count: nat, ghost chains: seq<seq<Entry>>)
    requires old_ != list && Bucketed(chains0, all) && i < old_.Length == |chains0|
    requires forall k :: i <= k < |chains0| ==> Linked(old_[k], chains0[k])
    requires Filled(list[..], chains1, Below(all, |chains0|, i))
    modifies list, all`nextHash
    ensures |chains| == |chains1| && Filled(list[..], chains, Below(all, |chains0|, i + 1))
    ensures count == |Below(all, |chains0|, i + 1)| - |Below(all, |chains0|, i)|
    ensures forall k :: i < k < |chains0| ==> Linked(old_[k], chains0[k])
  {
    hide *;
    BelowStep(chains0, all, i);
    Apart(chains0, all, i);
    count, chains := MoveChain(list, old_[i], chains0[i], chains1, Below(all, |chains0|, i));
  }

  /** Move all entries of one table into an empty one. */
  method MoveAll(old_: array<Entry?>, list: array<Entry?>, ghost chains0: seq<seq<Entry>>, ghost all: set<Entry>)
    returns (count: nat, ghost chains: seq<seq<Entry>>)
    requires old_ != list && Filled(old_[..], chains0, all)
    requires list.Length > 0 && forall i :: 0 <= i < list.Length ==> list[i] == null
    modifies list, all`nextHash
    ensures |chains| == list.Length && Filled(list[..], chains, all) && count == |all|
  {
    hide *;
    count, chains := 0, seq(list.Length, _ => []);
    ghost var n := |chains0|;
    FilledParts(old_[..], chains0, all);
    BelowEnds(all, n);
    EmptyFilled(list[..]);
    var i := 0;
    while i < old_.Length
      invariant i <= old_.Length && |chains| == list.Length
      invariant Filled(list[..], chains, Below(all, n, i)) && count == |Below(all, n, i)|
      invariant forall k :: i <= k < n ==> Linked(old_[k], chains0[k])
    {
      var moved;
      moved, chains := MoveBucket(old_, list, i, chains0, all, chains);
      i, count := i + 1, count + moved;
    }
  }

  /** Follow a chain to the first entry with this key and hash. */
  method Walk(head: Entry?, key: Key, hash: nat, ghost c: seq<Entry>) returns (prev: Entry?, curr: Entry?, ghost j: nat)
    requires Linked(head, c)
    ensures j <= |c| && prev == (if j == 0 then null else c[j - 1])
    ensures curr == (if j == |c| then null else c[j])
    ensures j < |c| ==> c[j].hash == hash && c[j].key == key
    ensures forall k :: 0 <= k < j ==> c[k].hash != hash || c[k].key != key
  {
    prev, curr, j := null, head, 0;
    while curr != null && (curr.hash != hash || curr.key != key)
      invariant j <= |c| && prev == (if j == 0 then null else c[j - 1])
      invariant curr == (if j == |c| then null else c[j])
      invariant forall k :: 0 <= k < j ==> c[k].hash != hash || c[k].key != key
      decreases |c| - j
    {
      assert c[j].nextHash == After(c, j);
      prev, curr, j := curr, curr.nextHash, j + 1;
    }
  }

  lemma FoundIff(chains: seq<seq<Entry>>, entries: set<Entry>, contents: map<(Key, nat), Entry>, key: Key, hash: nat, j: nat)
    requires Bucketed(chains, entries) && Indexed(entries, contents)
    requires var c := chains[Slot(hash, |chains|)];
             && j <= |c| && (j < |c| ==> c[j].hash == hash && c[j].key == key)
             && forall k :: 0 <= k < j ==> c[k].hash != hash || c[k].key != key
    ensures var c := chains[Slot(hash, |chains|)];
            (j < |c| <==> (key, hash) in contents) && (j < |c| ==> c[j] == contents[(key, hash)])
  {
    hide Slot;
    var c := chains[Slot(hash, |chains|)];
    if (key, hash) in contents {
      var e := contents[(key, hash)];
      assert e in c;
    }
  }

  class HashTable {
    var list: array<Entry?>
    var elems: nat
    ghost var chains: seq<seq<Entry>>
    ghost var entries: set<Entry>
    ghost var contents: map<(Key, nat), Entry>

    // Everything but the load factor.
    ghost predicate Shape()
      reads this, list, entries`nextHash
    {
      && list.Length >= 4 && IsPowerOf2(list.Length)
      && Filled(list[..], chains, entries)
      && elems == |contents|
      && Indexed(entries, contents)
    }

    ghost predicate Valid()
      reads this, list, entries`nextHash
    {
      Shape() && elems <= list.Length
    }

    constructor ()
      ensures Valid() && fresh(list) && contents == map[] && entries == {}
    {
      list := new Entry?[4](_ => null);
      elems, chains, entries, contents := 0, seq(4, _ => []), {}, map[];
    }

    /** The slot whose next pointer leads to the entry with this key and hash, or the
        last slot of the bucket if there is none. A slot is the bucket itself or the
        entry before. */
    method FindPointer(key: Key, hash: nat) returns (prev: Entry?, curr: Entry?, ghost j: nat)
      requires Shape()
      ensures curr != null <==> (key, hash) in contents
      ensures curr != null ==> curr == contents[(key, hash)]
      ensures var c := chains[Slot(hash, list.Length)];
              && j <= |c| && prev == (if j == 0 then null else c[j - 1])
              && curr == (if j == |c| then null else c[j])
    {
      var i := Slot(hash, list.Length);
      hide Slot;
      prev, curr, j := Walk(list[i], key, hash, chains[i]);
      FoundIff(chains, entries, contents, key, hash, j);
    }

    /** Rebuild the table with room for all entries, losing and duplicating none. */
    method Resize()
      requires Shape()
      modifies this, entries`nextHash
      ensures Valid() && fresh(list)
      ensures entries == old(entries) && contents == old(contents) && elems == old(elems)
      ensures list.Length == 4 || list.Length < 2 * elems
    {
      hide Filled;
      hide Bucketed;
      hide Linked;
      hide Slot;
      hide IsPowerOf2;
      hide Indexed;
      var n := NewLength(elems);
      var newList := new Entry?[n](_ => null);
      var count;
      count, chains := MoveAll(list, newList, chains, entries);
      IndexedCount(entries, contents);
      assert elems == count;
      list := newList;
    }

    /** Put e in the slot that FindPointer gave for its key: it takes the place of the
        entry there, which is returned, or is added at the end of the bucket. */
    method Inject(e: Entry, prev: Entry?, curr: Entry?, ghost j: nat) returns (displaced: Entry?)
      requires Valid() && e !in entries && IsSlot(chains, Slot(e.hash, |chains|), prev, curr, j)
      requires if (e.key, e.hash) in contents then curr == contents[(e.key, e.hash)] else curr == null
      modifies this, list, entries`nextHash, e`nextHash
      ensures Valid() && (list == old(list) || fresh(list))
      ensures contents == old(contents)[(e.key, e.hash) := e]
      ensures entries == old(entries) - (if curr == null then {} else {curr}) + {e}
      ensures displaced == curr
    {
      hide Filled;
      hide Bucketed;
      hide Linked;
      hide Slot;
      hide IsPowerOf2;
      hide Indexed;
      if curr == null {
        Add(e, prev);
      } else {
        Replace(e, prev, curr, j);
      }
      displaced := curr;
    }

    method Add(e: Entry, prev: Entry?)
      requires Valid() && e !in entries && (e.key, e.hash) !in contents
      requires var i := Slot(e.hash, |chains|); IsSlot(chains, i, prev, null, |chains[i]|)
      modifies this, list, entries`nextHash, e`nextHash
      ensures Valid() && (list == old(list) || fresh(list))
      ensures contents == old(contents)[(e.key, e.hash) := e] && entries == old(entries) + {e}
    {
      hide Filled;
      hide Bucketed;
      hide Linked;
      hide Slot;
      hide IsPowerOf2;
      hide Indexed;
      IndexedPut(entries, contents, e);
      SameLength(list[..], chains, entries);
      chains := AppendEntry(list, e, prev, chains, entries);
      entries := entries + {e};
      contents := contents[(e.key, e.hash) := e];
      elems := elems + 1;
      if elems > list.Length {
        // We aim for a small average chain length.
        Resize();
      }
    }

    method Replace(e: Entry, prev: Entry?, curr: Entry, ghost j: nat)
      requires Valid() && e !in entries && IsSlot(chains, Slot(e.hash, |chains|), prev, curr, j)
      requires (e.key, e.hash) in contents && curr == contents[(e.key, e.hash)]
      modifies this, list, entries`nextHash, e`nextHash
      ensures Valid() && list == old(list)
      ensures contents == old(contents)[(e.key, e.hash) := e] && entries == old(entries) - {curr} + {e}
    {
      hide Filled;
      hide Bucketed;
      hide Linked;
      hide Slot;
      hide IsPowerOf2;
      hide Indexed;
      IndexedPut(entries, contents, e);
      SameLength(list[..], chains, entries);
      chains := ReplaceEntry(list, e, prev, curr, j, chains, entries);
      entries := entries - {curr} + {e};
      contents := contents[(e.key, e.hash) := e];
    }

    /** Add an entry; one with the same key and hash is removed and returned. */
    method Insert(e: Entry) returns (displaced: Entry?)
      requires Valid() && e !in entries
      modifies this, list, entries`nextHash, e`nextHash
      ensures Valid() && (list == old(list) || fresh(list))
      ensures contents == old(contents)[(e.key, e.hash) := e]
      ensures entries == old(entries) - (if displaced == null then {} else {displaced}) + {e}
      ensures displaced == if (e.key, e.hash) in old(contents) then old(contents)[(e.key, e.hash)] else null
      ensures displaced != null ==> displaced in old(entries) && displaced.key == e.key
    {
      hide Filled;
      hide Bucketed;
      hide Linked;
      hide Slot;
      hide IsPowerOf2;
      hide Indexed;
      SameLength(list[..], chains, entries);
      var prev, curr, j := FindPointer(e.key, e.hash);
      IndexedFound(entries, contents, (e.key, e.hash));
      displaced := Inject(e, prev, curr, j);
    }

    /** Remove the entry with this key and hash, if there is one. */
    method Remove(key: Key, hash: nat) returns (removed: Entry?)
      requires Valid()
      modifies this, list, entries`nextHash
      ensures Valid() && list == old(list)
      ensures contents == old(contents) - {(key, hash)}
      ensures entries == old(entries) - (if removed == null then {} else {removed})
      ensures removed == if (key, hash) in old(contents) then old(contents)[(key, hash)] else null
      ensures removed != null ==> removed in old(entries) && removed.key == key
    {
      hide Filled;
      hide Bucketed;
      hide Linked;
      hide Slot;
      hide IsPowerOf2;
      hide Indexed;
      SameLength(list[..], chains, entries);
      var prev, curr, j := FindPointer(key, hash);
      IndexedFound(entries, contents, (key, hash));
      removed := curr;
      if removed != null {
        Cut(key, hash, prev, removed, j);
      }
    }

    method Cut(key: Key, hash: nat, prev: Entry?, e: Entry, ghost j: nat)
      requires Valid() && IsSlot(chains, Slot(hash, |chains|), prev, e, j)
      requires (key, hash) in contents && e == contents[(key, hash)]
      modifies this, list, entries`nextHash
      ensures Valid() && list == old(list)
      ensures contents == old(contents) - {(key, hash)} && entries == old(entries) - {e}
    {
      hide Filled;
      hide Bucketed;
      hide Linked;
      hide Slot;
      hide IsPowerOf2;
      hide Indexed;
      IndexedDrop(entries, contents, (key, hash));
      SameLength(list[..], chains, entries);
      chains := UnlinkEntry(list, Slot(hash, list.Length), prev, e, j, chains, entries);
      entries := entries - {e};
      contents := contents - {(key, hash)};
      elems := elems - 1;
    }

    /** Remove this very entry; nothing happens if the table does not hold it. */
    method RemoveEntry(e: Entry) returns (removed: Entry?)
      requires Valid()
      modifies this, list, entries`nextHash
      ensures Valid() && list == old(list)
      ensures removed == if e in old(entries) then e else null
      ensures contents == if e in old(entries) then old(contents) - {(e.key, e.hash)} else old(contents)
      ensures entries == old(entries) - {e}
    {
      hide Filled;
      hide Bucketed;
      hide Linked;
      hide Slot;
      hide IsPowerOf2;
      hide Indexed;
      SameLength(list[..], chains, entries);
      var prev, curr, j := FindPointer(e.key, e.hash);
      IndexedEntry(entries, contents, e);
      removed := null;
      if curr == e {
        Cut(e.key, e.hash, prev, e, j);
        removed := e;
      }
    }
  }

  lemma IndexedDrop(entries: set<Entry>, contents: map<(Key, nat), Entry>, k: (Key, nat))
    requires Indexed(entries, contents) && k in contents
    ensures Indexed(entries - {contents[k]}, contents - {k})
    ensures contents[k] in entries && |contents - {k}| == |contents| - 1
  {
    assert contents == (contents - {k})[k := contents[k]];
  }

  lemma IndexedPut(entries: set<Entry>, contents: map<(Key, nat), Entry>, e: Entry)
    requires Indexed(entries, contents) && e !in entries
    ensures var k := (e.key, e.hash);
            if k in contents then
              Indexed(entries - {contents[k]} + {e}, contents[k := e]) && |contents[k := e]| == |contents|
            else
              Indexed(entries + {e}, contents[k := e]) && |contents[k := e]| == |contents| + 1
  {
  }

  lemma IndexedFound(entries: set<Entry>, contents: map<(Key, nat), Entry>, k: (Key, nat))
    requires Indexed(entries, contents)
    ensures k in contents ==> contents[k] in entries && contents[k].key == k.0
  {
  }

  lemma IndexedEntry(entries: set<Entry>, contents: map<(Key, nat), Entry>, e: Entry)
    requires Indexed(entries, contents)
    ensures e in entries <==> (e.key, e.hash) in contents && contents[(e.key, e.hash)] == e
  {
  }

  lemma {:induction false} IndexedCount(entries: set<Entry>, contents: map<(Key, nat), Entry>)
    requires Indexed(entries, contents)
    ensures |entries| == |contents|
    decreases |entries|
  {
    if entries == {} {
      assert contents == map[];
    } else {
      var e :| e in entries;
      IndexedDrop(entries, contents, (e.key, e.hash));
      IndexedCount(entries - {e}, contents - {(e.key, e.hash)});
    }
  }

  lemma SameLength(heads: seq<Entry?>, chains: seq<seq<Entry>>, all: set<Entry>)
    requires Filled(heads, chains, all)
    ensures |heads| == |chains| > 0
  {
  }
}
