/**
 The LRU cache: reference-counted entries, a list of entries in use and a list of
 idle ones in the order of their last release, a table of what is cached.
 */
module LruCaches {
  import opened Coding

  type Key = (Bytes, nat)  // a key and its hash
  type Id = nat            // the address of an entry

  datatype Entry = Entry(key: Key, value: nat, charge: nat, refs: nat, inCache: bool)

  // ------------------------------------------------------------------
  // Sums
  // ------------------------------------------------------------------

  ghost function Sum(m: map<Id, nat>): nat
    decreases |m|
  {
    if m == map[] then 0
    else
      var k :| k in m;
      m[k] + Sum(m - {k})
  }

  lemma {:induction false} SumPick(m: map<Id, nat>, k: Id)
    requires k in m
    ensures Sum(m) == m[k] + Sum(m - {k})
    decreases |m|
  {
    var j :| j in m && Sum(m) == m[j] + Sum(m - {j});
    if j == k {
    } else {
      SumPick(m - {j}, k);
      SumPick(m - {k}, j);
      assert m - {j} - {k} == m - {k} - {j};
    }
  }

  lemma SumPut(m: map<Id, nat>, k: Id, v: nat)
    requires k !in m
    ensures Sum(m[k := v]) == Sum(m) + v
  {
    SumPick(m[k := v], k);
    assert m[k := v] - {k} == m;
  }

  // ------------------------------------------------------------------
  // Lists
  // ------------------------------------------------------------------

  function Index(s: seq<Id>, x: Id): (k: nat)
    requires x in s
    ensures k < |s| && s[k] == x
  {
    if s[0] == x then 0 else 1 + Index(s[1..], x)
  }

  // The list without one of its members.
  function Minus(s: seq<Id>, x: Id): seq<Id>
    requires x in s
  {
    s[..Index(s, x)] + s[Index(s, x) + 1..]
  }

  // Entries come in the order of their stamps.
  ghost predicate Ordered(s: seq<Id>, stamps: map<Id, nat>, clock: nat) {
    && (forall i :: 0 <= i < |s| ==> s[i] in stamps && stamps[s[i]] < clock)
    && (forall i, j :: 0 <= i < j < |s| ==> stamps[s[i]] < stamps[s[j]])
  }

  lemma MinusMembers(s: seq<Id>, x: Id)
    requires Distinct(s) && x in s
    ensures Distinct(Minus(s, x)) && forall y :: y in Minus(s, x) <==> y in s && y != x
  {
    var k, r := Index(s, x), Minus(s, x);
    forall y | y in s && y != x ensures y in r {
      var i :| 0 <= i < |s| && s[i] == y;
      assert if i < k then r[i] == y else r[i - 1] == y;
    }
  }

  lemma MinusOrdered(s: seq<Id>, x: Id, stamps: map<Id, nat>, clock: nat)
    requires Ordered(s, stamps, clock) && x in s
    ensures Ordered(Minus(s, x), stamps, clock)
  {
  }

  // ------------------------------------------------------------------
  // The cache as a value
  // ------------------------------------------------------------------

  // Besides the cache's own fields: the next address, the entries whose deleter was
  // called in the order of the calls, and the times at which entries became idle.
  datatype Cache = Cache(
    capacity: nat, usage: int, totalUsage: int,
    inUse: seq<Id>, lru: seq<Id>, table: map<Key, Id>, entries: map<Id, Entry>,
    next: Id, deleted: seq<Id>, stamps: map<Id, nat>, clock: nat)

  function Empty(capacity: nat): Cache {
    Cache(capacity, 0, 0, [], [], map[], map[], 0, [], map[], 0)
  }

  // Take an entry off the list it is on.
  function Detach(s: Cache, id: Id): Cache {
    if id in s.lru then s.(lru := Minus(s.lru, id))
    else if id in s.inUse then s.(inUse := Minus(s.inUse, id))
    else s
  }

  // Give up one reference.
  function Unref(s: Cache, id: Id): Cache
    requires id in s.entries && s.entries[id].refs > 0
  {
    var e := s.entries[id];
    if e.refs == 1 then
      Detach(s, id).(totalUsage := s.totalUsage - e.charge, entries := s.entries - {id}, deleted := s.deleted + [id])
    else if e.inCache && e.refs == 2 then
      var d := Detach(s, id);
      d.(entries := s.entries[id := e.(refs := 1)], lru := d.lru + [id], stamps := s.stamps[id := s.clock], clock := s.clock + 1)
    else
      s.(entries := s.entries[id := e.(refs := e.refs - 1)])
  }

  // The cache gives up an entry that is no longer in the table.
  function Remove(s: Cache, id: Id): Cache
    requires id in s.entries && s.entries[id].refs > 0
  {
    var e := s.entries[id];
    Unref(s.(entries := s.entries[id := e.(inCache := false)], usage := s.usage - e.charge), id)
  }

  // Everything that is cached but in lost can be found in the table.
  ghost predicate Tabled(table: map<Key, Id>, entries: map<Id, Entry>, lost: set<Id>) {
    && (forall k :: k in table ==> table[k] in entries && entries[table[k]].inCache && entries[table[k]].key == k)
    && (forall k :: k in table ==> table[k] !in lost)
    && (forall id :: id in entries && entries[id].inCache && id !in lost ==>
          entries[id].key in table && table[entries[id].key] == id)
    && (forall id :: id in lost ==> id in entries && entries[id].inCache)
  }

  // Each entry is on exactly one list: idle if only the cache refers to it.
  ghost predicate Listed(lru: seq<Id>, inUse: seq<Id>, entries: map<Id, Entry>) {
    && Distinct(lru) && Distinct(inUse)
    && (forall id :: id in entries ==> id in lru || id in inUse)
    && (forall id :: id in lru ==> id in entries && entries[id].inCache && entries[id].refs == 1)
    && (forall id :: id in inUse ==> id in entries && entries[id].refs >= if entries[id].inCache then 2 else 1)
  }

  ghost function Charges(entries: map<Id, Entry>): map<Id, nat> {
    map id | id in entries :: entries[id].charge
  }

  ghost function CachedCharges(entries: map<Id, Entry>): map<Id, nat> {
    map id | id in entries && entries[id].inCache :: entries[id].charge
  }

  // Every entry ever made is live or was deleted once.
  ghost predicate Accounted(next: Id, entries: map<Id, Entry>, deleted: seq<Id>) {
    && Distinct(deleted)
    && (forall id :: id in entries ==> id < next && id !in deleted)
    && (forall id :: id in deleted ==> id < next)
    && (forall id: Id :: id < next ==> id in entries || id in deleted)
  }

  ghost predicate Inv(s: Cache, lost: set<Id>) {
    && Tabled(s.table, s.entries, lost)
    && Listed(s.lru, s.inUse, s.entries)
    && s.usage == Sum(CachedCharges(s.entries)) && s.totalUsage == Sum(Charges(s.entries))
    && Accounted(s.next, s.entries, s.deleted)
    && Ordered(s.lru, s.stamps, s.clock)
  }

  lemma SumsWithout(entries: map<Id, Entry>, id: Id)
    requires id in entries
    ensures Sum(Charges(entries - {id})) == Sum(Charges(entries)) - entries[id].charge
    ensures Sum(CachedCharges(entries - {id})) ==
            Sum(CachedCharges(entries)) - if entries[id].inCache then entries[id].charge else 0
  {
    SumPick(Charges(entries), id);
    assert Charges(entries) - {id} == Charges(entries - {id});
    if entries[id].inCache {
      SumPick(CachedCharges(entries), id);
      assert CachedCharges(entries) - {id} == CachedCharges(entries - {id});
    } else {
      assert CachedCharges(entries) == CachedCharges(entries - {id});
    }
  }

  lemma SumsWith(entries: map<Id, Entry>, id: Id, e: Entry)
    requires id !in entries
    ensures Sum(Charges(entries[id := e])) == Sum(Charges(entries)) + e.charge
    ensures Sum(CachedCharges(entries[id := e])) == Sum(CachedCharges(entries)) + if e.inCache then e.charge else 0
  {
    SumPut(Charges(entries), id, e.charge);
    assert Charges(entries)[id := e.charge] == Charges(entries[id := e]);
    if e.inCache {
      SumPut(CachedCharges(entries), id, e.charge);
      assert CachedCharges(entries)[id := e.charge] == CachedCharges(entries[id := e]);
    } else {
      assert CachedCharges(entries) == CachedCharges(entries[id := e]);
    }
  }

  lemma SumsChange(entries: map<Id, Entry>, id: Id, e: Entry)
    requires id in entries && e.charge == entries[id].charge
    ensures Sum(Charges(entries[id := e])) == Sum(Charges(entries))
    ensures Sum(CachedCharges(entries[id := e])) == Sum(CachedCharges(entries))
              + (if e.inCache then e.charge else 0) - (if entries[id].inCache then e.charge else 0)
  {
    hide Charges;
    hide CachedCharges;
    SumsWithout(entries, id);
    SumsWith(entries - {id}, id, e);
    assert (entries - {id})[id := e] == entries[id := e];
  }

  // ------------------------------------------------------------------
  // What the ways of changing one entry keep
  // ------------------------------------------------------------------

  // An entry goes away.
  lemma Deleted(s: Cache, id: Id)
    requires Listed(s.lru, s.inUse, s.entries) && Accounted(s.next, s.entries, s.deleted) && id in s.entries
    ensures var d := Detach(s, id);
            Listed(d.lru, d.inUse, s.entries - {id}) && Accounted(s.next, s.entries - {id}, s.deleted + [id])
  {
    hide Minus;
    if id in s.lru { MinusMembers(s.lru, id); } else { MinusMembers(s.inUse, id); }
  }

  lemma DeletedTable(table: map<Key, Id>, entries: map<Id, Entry>, lost: set<Id>, id: Id)
    requires Tabled(table, entries, lost) && id in entries && (id in lost || !entries[id].inCache)
    ensures Tabled(table, entries - {id}, lost - {id})
  {
  }

  // An entry changes but stays in use.
  lemma Updated(s: Cache, id: Id, e: Entry)
    requires Listed(s.lru, s.inUse, s.entries) && Accounted(s.next, s.entries, s.deleted) && id in s.inUse
    requires e.refs >= if e.inCache then 2 else 1
    ensures Listed(s.lru, s.inUse, s.entries[id := e]) && Accounted(s.next, s.entries[id := e], s.deleted)
  {
  }

  lemma UpdatedTable(table: map<Key, Id>, entries: map<Id, Entry>, lost: set<Id>, id: Id, e: Entry)
    requires Tabled(table, entries, lost) && id in entries && e.key == entries[id].key
    requires if id in lost then !e.inCache else e.inCache == entries[id].inCache
    ensures Tabled(table, entries[id := e], lost - {id})
  {
  }

  // An entry loses its last client.
  lemma Idled(s: Cache, id: Id, e: Entry)
    requires Listed(s.lru, s.inUse, s.entries) && Accounted(s.next, s.entries, s.deleted) && id in s.inUse
    requires e.refs == 1 && e.inCache
    ensures Listed(s.lru + [id], Minus(s.inUse, id), s.entries[id := e]) && Accounted(s.next, s.entries[id := e], s.deleted)
  {
    hide Minus;
    MinusMembers(s.inUse, id);
  }

  lemma IdledOrder(lru: seq<Id>, stamps: map<Id, nat>, clock: nat, id: Id)
    requires Ordered(lru, stamps, clock) && id !in lru
    ensures Ordered(lru + [id], stamps[id := clock], clock + 1)
  {
  }

  // An idle entry gets a client.
  lemma Claimed(s: Cache, id: Id, e: Entry)
    requires Listed(s.lru, s.inUse, s.entries) && Accounted(s.next, s.entries, s.deleted) && id in s.lru
    requires e.refs == 2 && e.inCache
    ensures Listed(Minus(s.lru, id), s.inUse + [id], s.entries[id := e]) && Accounted(s.next, s.entries[id := e], s.deleted)
  {
    hide Minus;
    MinusMembers(s.lru, id);
  }

  // The two lists have nothing in common.
  lemma Exclusive(s: Cache, id: Id)
    requires Listed(s.lru, s.inUse, s.entries) && id in s.entries
    ensures id in s.lru <==> id !in s.inUse
    ensures id in s.lru <==> s.entries[id].inCache && s.entries[id].refs == 1
    ensures s.entries[id].refs > 0
  {
  }

  // ------------------------------------------------------------------
  // Operations keep the cache in order
  // ------------------------------------------------------------------

  // A client holds a reference of its own.
  ghost predicate Held(s: Cache, id: Id) {
    id in s.entries && s.entries[id].refs > if s.entries[id].inCache then 1 else 0
  }

  /** Releasing a reference that a client holds. */
  lemma UnrefKeeps(s: Cache, id: Id)
    requires Inv(s, {}) && Held(s, id)
    ensures Inv(Unref(s, id), {})
  {
    hide Sum;
    hide Charges;
    hide CachedCharges;
    hide Tabled;
    hide Listed;
    hide Accounted;
    hide Ordered;
    hide Minus;
    var e, t := s.entries[id], Unref(s, id);
    Exclusive(s, id);
    if e.refs == 1 {
      Deleted(s, id);
      DeletedTable(s.table, s.entries, {}, id);
      SumsWithout(s.entries, id);
    } else {
      UpdatedTable(s.table, s.entries, {}, id, t.entries[id]);
      SumsChange(s.entries, id, t.entries[id]);
      if e.inCache && e.refs == 2 {
        Idled(s, id, t.entries[id]);
        IdledOrder(s.lru, s.stamps, s.clock, id);
      } else {
        Updated(s, id, t.entries[id]);
      }
    }
    assert {} - {id} == {};
  }

  /** The cache gives up an entry that was just taken out of the table: an idle one is
      deleted, one in use only loses the cache's reference. */
  lemma RemoveKeeps(s: Cache, id: Id)
    requires Inv(s, {id}) && id in s.entries && s.entries[id].refs > 0
    ensures Inv(Remove(s, id), {})
    ensures Remove(s, id).usage == s.usage - s.entries[id].charge
    ensures forall x :: Held(s, x) ==> Held(Remove(s, id), x)
    ensures if id in s.lru
            then Remove(s, id).lru == Minus(s.lru, id) && Remove(s, id).inUse == s.inUse && Remove(s, id).deleted == s.deleted + [id]
            else Remove(s, id).lru == s.lru && Remove(s, id).inUse == s.inUse && Remove(s, id).deleted == s.deleted
  {
    hide Sum;
    hide Charges;
    hide CachedCharges;
    hide Tabled;
    hide Listed;
    hide Accounted;
    hide Ordered;
    hide Minus;
    var e, t := s.entries[id], Remove(s, id);
    assert {id} - {id} == {};
    Exclusive(s, id);
    LostCached(s.table, s.entries, {id}, id);
    if e.refs == 1 {
      Deleted(s, id);
      DeletedTable(s.table, s.entries, {id}, id);
      SumsWithout(s.entries, id);
      MinusOrdered(s.lru, id, s.stamps, s.clock);
      assert t.entries == s.entries - {id};
    } else {
      UpdatedTable(s.table, s.entries, {id}, id, t.entries[id]);
      SumsChange(s.entries, id, t.entries[id]);
      Updated(s, id, t.entries[id]);
      assert t.entries == s.entries[id := e.(inCache := false, refs := e.refs - 1)];
    }
  }

  lemma LostCached(table: map<Key, Id>, entries: map<Id, Entry>, lost: set<Id>, id: Id)
    requires Tabled(table, entries, lost) && id in lost
    ensures id in entries && entries[id].inCache
  {
  }

  // Take a key out of the table and the cache.
  function Erase(s: Cache, key: Key): Cache {
    if key in s.table && s.table[key] in s.entries && s.entries[s.table[key]].refs > 0
    then Remove(s.(table := s.table - {key}), s.table[key]) else s
  }

  lemma Unlisted(table: map<Key, Id>, entries: map<Id, Entry>, key: Key)
    requires Tabled(table, entries, {}) && key in table
    ensures Tabled(table - {key}, entries, {table[key]})
    ensures table[key] in entries && entries[table[key]].inCache && entries[table[key]].key == key
  {
  }

  lemma EraseKeeps(s: Cache, key: Key)
    requires Inv(s, {})
    ensures Inv(Erase(s, key), {}) && key !in Erase(s, key).table && Erase(s, key).capacity == s.capacity
    ensures Erase(s, key).usage <= s.usage
    ensures forall x :: Held(s, x) ==> Held(Erase(s, key), x)
  {
    hide Sum;
    hide Charges;
    hide CachedCharges;
    hide Tabled;
    hide Listed;
    hide Accounted;
    hide Ordered;
    hide Minus;
    hide Remove;
    if key in s.table {
      var id := s.table[key];
      Unlisted(s.table, s.entries, key);
      Exclusive(s, id);
      var t := s.(table := s.table - {key});
      RemoveKeeps(t, id);
      assert Erase(s, key) == Remove(t, id);
      SameTable(t, id);
      forall x | Held(s, x) ensures Held(Erase(s, key), x) {
        assert Held(t, x);
      }
    }
  }

  lemma SameTable(s: Cache, id: Id)
    requires id in s.entries && s.entries[id].refs > 0
    ensures Remove(s, id).table == s.table && Remove(s, id).capacity == s.capacity && Remove(s, id).next == s.next
    ensures Remove(s, id).stamps == s.stamps && Remove(s, id).clock == s.clock
  {
  }

  // ------------------------------------------------------------------
  // Eviction
  // ------------------------------------------------------------------

  // Evict the entry that has been idle longest.
  function EvictOne(s: Cache): Cache
    requires s.lru != [] && s.lru[0] in s.entries
  {
    Erase(s, s.entries[s.lru[0]].key)
  }

  lemma EvictOneSpec(s: Cache)
    requires Inv(s, {}) && s.lru != []
    ensures s.lru[0] in s.entries
    ensures var t := EvictOne(s);
            && Inv(t, {}) && t.lru == s.lru[1..] && t.deleted == s.deleted + [s.lru[0]]
            && t.inUse == s.inUse && t.capacity == s.capacity && t.stamps == s.stamps && t.next == s.next
            && t.usage == s.usage - s.entries[s.lru[0]].charge && t.totalUsage == s.totalUsage - s.entries[s.lru[0]].charge
            && t.entries == s.entries - {s.lru[0]} && t.table == s.table - {s.entries[s.lru[0]].key}
            && (forall x :: Held(s, x) ==> Held(t, x))
  {
    hide Sum;
    hide Charges;
    hide CachedCharges;
    hide Tabled;
    hide Accounted;
    hide Ordered;
    var id := s.lru[0];
    assert id in s.lru;
    CachedListed(s.table, s.entries, id);
    var key := s.entries[id].key;
    EraseKeeps(s, key);
    FirstMinus(s.lru);
    var m := s.(table := s.table - {key});
    assert Erase(s, key) == Remove(m, id);
  }

  lemma FirstMinus(s: seq<Id>)
    requires s != []
    ensures s[0] in s && Minus(s, s[0]) == s[1..]
  {
  }

  lemma CachedListed(table: map<Key, Id>, entries: map<Id, Entry>, id: Id)
    requires Tabled(table, entries, {}) && id in entries && entries[id].inCache
    ensures entries[id].key in table && table[entries[id].key] == id
  {
  }

  // Evict until usage is within the bound or nothing is idle.
  ghost function Evict(s: Cache, bound: int): Cache
    requires Inv(s, {})
    decreases |s.lru|
  {
    if s.usage <= bound || s.lru == [] then s
    else
      EvictOneSpec(s);
      Evict(EvictOne(s), bound)
  }

  ghost function Ids(s: seq<Id>): set<Id> {
    set id | id in s
  }

  /** Eviction takes the k longest idle entries and deletes them in that order, where k
      is the least number that brings usage within the bound, or all of them. */
  lemma {:induction false} EvictSpec(s: Cache, bound: int) returns (k: nat)
    requires Inv(s, {})
    ensures var t := Evict(s, bound);
            && Inv(t, {}) && k <= |s.lru| && t.lru == s.lru[k..] && t.deleted == s.deleted + s.lru[..k]
            && t.inUse == s.inUse && t.capacity == s.capacity && t.stamps == s.stamps && t.next == s.next
            && (t.usage <= bound || t.lru == []) && (k == 0 ==> t == s)
            && (k > 0 ==> s.lru[k - 1] in s.entries && t.usage + s.entries[s.lru[k - 1]].charge > bound)
            && t.usage <= s.usage && t.entries == s.entries - Ids(s.lru[..k])
            && (forall x :: Held(s, x) ==> Held(t, x))
    decreases |s.lru|
  {
    hide Inv;
    hide EvictOne;
    hide Held;
    if s.usage <= bound || s.lru == [] {
      k := 0;
      assert Ids(s.lru[..0]) == {};
    } else {
      EvictOneSpec(s);
      var t, id := EvictOne(s), s.lru[0];
      var j := EvictSpec(t, bound);
      k := j + 1;
      assert [id] + s.lru[1..][..j] == s.lru[..k];
      assert Ids(s.lru[..k]) == {id} + Ids(t.lru[..j]);
      assert s.deleted + [id] + s.lru[1..][..j] == s.deleted + s.lru[..k];
      assert j > 0 ==> t.lru[j - 1] == s.lru[k - 1] && t.entries[t.lru[j - 1]] == s.entries[s.lru[k - 1]];
    }
  }

  lemma IdleOrder(s: Cache)
    requires Inv(s, {})
    ensures Ordered(s.lru, s.stamps, s.clock)
  {
  }

  /** What is evicted became idle before everything that stays idle. */
  lemma EvictsOldest(s: Cache, bound: int, gone: Id, kept: Id)
    requires Inv(s, {}) && gone in s.lru && gone !in Evict(s, bound).lru && kept in Evict(s, bound).lru
    ensures gone in s.stamps && kept in s.stamps && s.stamps[gone] < s.stamps[kept]
  {
    hide Evict;
    hide Inv;
    hide Held;
    IdleOrder(s);
    var k := EvictSpec(s, bound);
    var i :| 0 <= i < |s.lru| && s.lru[i] == gone;
    var j :| 0 <= j < |s.lru[k..]| && s.lru[k..][j] == kept;
    forall n | k <= n < |s.lru| ensures s.lru[n] in s.lru[k..] {
      assert s.lru[k..][n - k] == s.lru[n];
    }
  }

  // ------------------------------------------------------------------
  // Insertion and lookup
  // ------------------------------------------------------------------

  // A new entry in the hands of the client, and of the cache if it is cached.
  function Make(s: Cache, key: Key, value: nat, charge: nat, cached: bool): Cache {
    var id := s.next;
    var e := Entry(key, value, charge, if cached then 2 else 1, cached);
    var t := s.(inUse := s.inUse + [id], entries := s.entries[id := e], totalUsage := s.totalUsage + charge, next := id + 1);
    if cached then t.(usage := s.usage + charge, table := s.table[key := id]) else t
  }

  // The entry a key leads to, as a set.
  function Found(table: map<Key, Id>, key: Key): set<Id> {
    if key in table then {table[key]} else {}
  }

  lemma Made(s: Cache, id: Id, e: Entry)
    requires Listed(s.lru, s.inUse, s.entries) && Accounted(s.next, s.entries, s.deleted) && id == s.next
    requires e.refs == if e.inCache then 2 else 1
    ensures Listed(s.lru, s.inUse + [id], s.entries[id := e]) && Accounted(id + 1, s.entries[id := e], s.deleted)
    ensures id !in s.entries
  {
  }

  lemma MadeTable(table: map<Key, Id>, entries: map<Id, Entry>, id: Id, e: Entry)
    requires Tabled(table, entries, {}) && id !in entries
    ensures e.inCache ==> Tabled(table[e.key := id], entries[id := e], Found(table, e.key))
    ensures !e.inCache ==> Tabled(table, entries[id := e], {})
  {
  }

  lemma MakeKeeps(s: Cache, key: Key, value: nat, charge: nat, cached: bool)
    requires Inv(s, {})
    ensures Inv(Make(s, key, value, charge, cached), if cached then Found(s.table, key) else {})
    ensures Held(Make(s, key, value, charge, cached), s.next) && s.next !in s.entries
    ensures forall x :: Held(s, x) ==> Held(Make(s, key, value, charge, cached), x)
    ensures key in s.table ==> s.table[key] in s.entries && s.entries[s.table[key]].refs > 0
  {
    hide Sum;
    hide Charges;
    hide CachedCharges;
    hide Tabled;
    hide Listed;
    hide Accounted;
    hide Ordered;
    hide Minus;
    var e := Entry(key, value, charge, if cached then 2 else 1, cached);
    Made(s, s.next, e);
    MadeTable(s.table, s.entries, s.next, e);
    SumsWith(s.entries, s.next, e);
    if key in s.table {
      Unlisted(s.table, s.entries, key);
      Exclusive(s, s.table[key]);
    }
  }

  // The new entry is cached and one with the same key is not any more.
  function Admit(s: Cache, key: Key, value: nat, charge: nat): Cache {
    var t := Make(s, key, value, charge, true);
    if key in s.table && s.table[key] in t.entries && t.entries[s.table[key]].refs > 0 then Remove(t, s.table[key]) else t
  }

  lemma AdmitKeeps(s: Cache, key: Key, value: nat, charge: nat)
    requires Inv(s, {})
    ensures var t := Admit(s, key, value, charge);
            && Inv(t, {}) && Held(t, s.next) && key in t.table && t.table[key] == s.next
            && t.capacity == s.capacity && (forall x :: Held(s, x) ==> Held(t, x))
            && t.usage <= s.usage + charge && t.entries[s.next] == Entry(key, value, charge, 2, true)
  {
    hide Inv;
    hide Remove;
    MakeKeeps(s, key, value, charge, true);
    if key in s.table {
      var t := Make(s, key, value, charge, true);
      assert t.entries[s.table[key]] == s.entries[s.table[key]];
      RemoveKeeps(t, s.table[key]);
      SameTable(t, s.table[key]);
      OtherEntry(t, s.table[key], s.next);
    }
  }

  lemma OtherEntry(s: Cache, id: Id, x: Id)
    requires id in s.entries && s.entries[id].refs > 0 && x in s.entries && x != id
    ensures x in Remove(s, id).entries && Remove(s, id).entries[x] == s.entries[x]
  {
  }

  /** Add an entry: it displaces one with the same key, idle entries are evicted to
      make room, and if there is still no room it is not kept. */
  ghost function Insert(s: Cache, key: Key, value: nat, charge: nat): Cache
    requires Inv(s, {})
  {
    if s.capacity == 0 then Make(s, key, value, charge, false)
    else
      AdmitKeeps(s, key, value, charge);
      var t := Evict(Admit(s, key, value, charge), s.capacity);
      if t.usage > s.capacity then Erase(t, key) else t
  }

  ghost predicate Bounded(s: Cache) { s.usage <= s.capacity }

  /** Insertion keeps everything in order and usage within the capacity; the client
      gets a reference to the new entry and keeps all those it has. */
  lemma InsertKeeps(s: Cache, key: Key, value: nat, charge: nat)
    requires Inv(s, {}) && Bounded(s)
    ensures var t := Insert(s, key, value, charge);
            Inv(t, {}) && Bounded(t) && t.capacity == s.capacity && Held(t, s.next)
            && forall x :: Held(s, x) ==> Held(t, x)
  {
    hide Inv;
    hide Held;
    hide Erase;
    hide Evict;
    hide Admit;
    if s.capacity == 0 {
      MakeKeeps(s, key, value, charge, false);
    } else {
      AdmitKeeps(s, key, value, charge);
      var a := Admit(s, key, value, charge);
      var k := EvictSpec(a, s.capacity);
      var t := Evict(a, s.capacity);
      EraseKeeps(t, key);
      StillThere(a, t, s.next, k);
      EraseCharge(t, s.next);
    }
  }

  lemma StillThere(s: Cache, t: Cache, id: Id, k: nat)
    requires Inv(s, {}) && Held(s, id) && k <= |s.lru| && t.entries == s.entries - Ids(s.lru[..k])
    ensures id in t.entries && t.entries[id] == s.entries[id]
  {
    hide Sum;
    hide Tabled;
    hide Accounted;
    hide Ordered;
  }

  lemma EraseCharge(s: Cache, id: Id)
    requires Inv(s, {}) && id in s.entries && s.entries[id].inCache
    ensures Erase(s, s.entries[id].key).usage == s.usage - s.entries[id].charge
  {
    hide Sum;
    hide Accounted;
    hide Ordered;
    hide Listed;
    CachedListed(s.table, s.entries, id);
    Exclusive(s, id);
  }

  // Take one more reference; an idle entry comes into use.
  function Ref(s: Cache, id: Id): Cache
    requires id in s.entries
  {
    var e := s.entries[id];
    var entries := s.entries[id := e.(refs := e.refs + 1)];
    if e.refs == 1 && e.inCache then
      var d := Detach(s, id);
      d.(inUse := d.inUse + [id], entries := entries)
    else s.(entries := entries)
  }

  lemma RefKeeps(s: Cache, id: Id)
    requires Inv(s, {}) && id in s.entries
    ensures Inv(Ref(s, id), {}) && Held(Ref(s, id), id)
  {
    hide Sum;
    hide Charges;
    hide CachedCharges;
    hide Tabled;
    hide Listed;
    hide Accounted;
    hide Ordered;
    hide Minus;
    var e, t := s.entries[id], Ref(s, id);
    Exclusive(s, id);
    UpdatedTable(s.table, s.entries, {}, id, t.entries[id]);
    SumsChange(s.entries, id, t.entries[id]);
    assert {} - {id} == {};
    if e.refs == 1 && e.inCache {
      Claimed(s, id, t.entries[id]);
      MinusOrdered(s.lru, id, s.stamps, s.clock);
    } else {
      Updated(s, id, t.entries[id]);
    }
  }

  // ------------------------------------------------------------------
  // Whole runs
  // ------------------------------------------------------------------

  datatype Operation =
    | DoInsert(key: Key, value: nat, charge: nat)
    | DoLookup(key: Key)
    | DoRef(id: Id)
    | DoRelease(id: Id)
    | DoErase(key: Key)
    | DoEraseEntry(id: Id)
    | DoPrune

  // Clients refer to, release and erase only entries they hold.
  ghost predicate Allowed(s: Cache, op: Operation) {
    match op
    case DoRef(id) => Held(s, id)
    case DoRelease(id) => Held(s, id)
    case DoEraseEntry(id) => Held(s, id)
    case _ => true
  }

  ghost function Lookup(s: Cache, key: Key): Cache
    requires Inv(s, {})
  {
    if key in s.table then Ref(s, s.table[key]) else s
  }

  // Erase this very entry, if it is the one in the table.
  function EraseEntry(s: Cache, id: Id): Cache
    requires id in s.entries
  {
    var key := s.entries[id].key;
    if key in s.table && s.table[key] == id then Erase(s, key) else s
  }

  ghost function Step(s: Cache, op: Operation): Cache
    requires Inv(s, {}) && Allowed(s, op)
  {
    match op
    case DoInsert(key, value, charge) => Insert(s, key, value, charge)
    case DoLookup(key) => Lookup(s, key)
    case DoRef(id) => Ref(s, id)
    case DoRelease(id) => Unref(s, id)
    case DoErase(key) => Erase(s, key)
    case DoEraseEntry(id) => EraseEntry(s, id)
    case DoPrune => Evict(s, -1)
  }

  /** Every operation keeps the cache in order and usage within the capacity, and only
      a release takes a reference away from a client: nobody loses an entry they hold. */
  lemma StepKeeps(s: Cache, op: Operation)
    requires Inv(s, {}) && Bounded(s) && Allowed(s, op)
    ensures Inv(Step(s, op), {}) && Bounded(Step(s, op)) && Step(s, op).capacity == s.capacity
    ensures forall x :: Held(s, x) && op != DoRelease(x) ==> Held(Step(s, op), x)
  {
    hide Inv;
    hide Erase;
    hide Evict;
    hide Insert;
    match op
    case DoInsert(key, value, charge) => InsertKeeps(s, key, value, charge);
    case DoLookup(key) =>
      if key in s.table {
        TableEntry(s, key);
        RefKeeps(s, s.table[key]);
        RefHeld(s, s.table[key]);
      }
    case DoRef(id) =>
      RefKeeps(s, id);
      RefHeld(s, id);
    case DoRelease(id) =>
      UnrefKeeps(s, id);
      UnrefHeld(s, id);
    case DoErase(key) => EraseKeeps(s, key);
    case DoEraseEntry(id) => EraseKeeps(s, s.entries[id].key);
    case DoPrune =>
      var k := EvictSpec(s, -1);
  }

  lemma TableEntry(s: Cache, key: Key)
    requires Inv(s, {}) && key in s.table
    ensures s.table[key] in s.entries
  {
  }

  lemma RefHeld(s: Cache, id: Id)
    requires id in s.entries
    ensures Ref(s, id).usage == s.usage && Ref(s, id).capacity == s.capacity
    ensures forall x :: Held(s, x) ==> Held(Ref(s, id), x)
  {
  }

  lemma UnrefHeld(s: Cache, id: Id)
    requires id in s.entries && s.entries[id].refs > 0
    ensures Unref(s, id).usage == s.usage && Unref(s, id).capacity == s.capacity
    ensures forall x :: Held(s, x) && x != id ==> Held(Unref(s, id), x)
  {
  }

  // A run from s to t.
  ghost predicate Runs(s: Cache, ops: seq<Operation>, t: Cache)
    decreases |ops|
  {
    if ops == [] then s == t
    else Inv(s, {}) && Allowed(s, ops[0]) && Runs(Step(s, ops[0]), ops[1..], t)
  }

  lemma EmptyInv(capacity: nat)
    ensures Inv(Empty(capacity), {}) && Bounded(Empty(capacity))
  {
    assert Charges(map[]) == map[] && CachedCharges(map[]) == map[];
  }

  /** Over every run: each live entry is on exactly the list its references call for,
      the table holds exactly the cached ones, both usage counters are exact, usage is
      within the capacity, and each entry is live or had its deleter called once. */
  lemma {:induction false} RunKeeps(s: Cache, ops: seq<Operation>, t: Cache)
    requires Inv(s, {}) && Bounded(s) && Runs(s, ops, t)
    ensures Inv(t, {}) && Bounded(t) && t.capacity == s.capacity
    decreases |ops|
  {
    hide Inv;
    hide Bounded;
    if ops == [] {
    } else {
      StepKeeps(s, ops[0]);
      RunKeeps(Step(s, ops[0]), ops[1..], t);
    }
  }
}
