/**
 The LRU cache as an object, updated step by step, with its entries on two linked lists;
 each operation does what its counterpart on values does.
 */
module LruObject {
  import opened Coding
  import opened LruCaches
  import opened LruLists

  class LRUCache {
    const capacity: nat
    var usage: int
    var totalUsage: int
    const lists: Lists
    var table: map<Key, Id>
    var entries: map<Id, Entry>
    var next: Id
    ghost var deleted: seq<Id>
    ghost var stamps: map<Id, nat>
    ghost var clock: nat

    ghost function View(): Cache
      reads this, lists
    {
      Cache(capacity, usage, totalUsage, lists.inUse, lists.lru, table, entries, next, deleted, stamps, clock)
    }

    ghost predicate Valid()
      reads this, lists, lists.Repr()
    {
      Inv(View(), {}) && Bounded(View()) && lists.Valid()
    }

    constructor (size: nat)
      ensures Valid() && View() == LruCaches.Empty(size) && fresh(lists) && fresh(lists.Repr())
    {
      capacity, usage, totalUsage, table, entries, next := size, 0, 0, map[], map[], 0;
      lists := new Lists();
      deleted, stamps, clock := [], map[], 0;
      new;
      EmptyInv(size);
    }

    method Unref(id: Id)
      requires id in entries && entries[id].refs > 0 && lists.Valid() && id in lists.nodes
      modifies this, lists, lists.Repr()
      ensures lists.Valid() && lists.Repr() <= old(lists.Repr())
      ensures View() == LruCaches.Unref(old(View()), id)
    {
      hide Minus;
      hide Index;
      hide Lists.Holds;
      var e := entries[id];
      e := e.(refs := e.refs - 1);
      UpdateThenDrop(entries, id, e);
      entries := entries[id := e];
      if e.refs == 0 {
        lists.Remove(id);
        lists.Free(id);
        totalUsage := totalUsage - e.charge;
        deleted := deleted + [id];
        entries := entries - {id};
      } else if e.inCache && e.refs == 1 {
        // No longer in use.
        lists.Remove(id);
        lists.Append(true, id);
        stamps, clock := stamps[id := clock], clock + 1;
      }
    }

    method Remove(id: Id)
      requires id in entries && entries[id].refs > 0 && lists.Valid() && id in lists.nodes
      modifies this, lists, lists.Repr()
      ensures lists.Valid() && lists.Repr() <= old(lists.Repr())
      ensures View() == LruCaches.Remove(old(View()), id)
    {
      hide Lists.Holds;
      var e := entries[id];
      entries := entries[id := e.(inCache := false)];
      usage := usage - e.charge;
      Unref(id);
    }

    method Ref(id: Id)
      requires id in entries && lists.Valid() && id in lists.nodes
      modifies this, lists, lists.Repr()
      ensures lists.Valid() && lists.Repr() == old(lists.Repr())
      ensures View() == LruCaches.Ref(old(View()), id)
    {
      hide Minus;
      hide Lists.Holds;
      var e := entries[id];
      if e.refs == 1 && e.inCache {
        lists.Remove(id);
        lists.Append(false, id);
      }
      entries := entries[id := e.(refs := e.refs + 1)];
    }

    // Every entry is on a list.
    lemma OnList(id: Id)
      requires Inv(View(), {}) && lists.Valid() && id in entries
      ensures id in lists.nodes
    {
    }

    lemma NewAddress()
      requires Inv(View(), {}) && lists.Valid()
      ensures next !in lists.nodes
    {
    }

    /** The entry for a key, with one more reference to it. */
    method Lookup(key: Key) returns (id: Option<Id>)
      requires Valid()
      modifies this, lists, lists.Repr()
      ensures fresh(lists.Repr() - old(lists.Repr()))
      ensures Valid() && View() == LruCaches.Lookup(old(View()), key)
      ensures id == (if key in old(table) then Some(old(table)[key]) else None)
      ensures id.Some? ==> Held(View(), id.value) && entries[id.value].key == key
    {
      hide Lists.Holds;
      StepKeeps(View(), DoLookup(key));
      if key in table {
        TableEntry(View(), key);
        OnList(table[key]);
        id := Some(table[key]);
        RefKeeps(View(), table[key]);
        Ref(table[key]);
      } else {
        id := None;
      }
    }

    /** A client gives up a reference it holds. */
    method Release(id: Id)
      requires Valid() && Held(View(), id)
      modifies this, lists, lists.Repr()
      ensures fresh(lists.Repr() - old(lists.Repr()))
      ensures Valid() && View() == Step(old(View()), DoRelease(id))
    {
      hide Inv;
      StepKeeps(View(), DoRelease(id));
      OnList(id);
      Unref(id);
    }

    method Erase(key: Key)
      requires Valid()
      modifies this, lists, lists.Repr()
      ensures fresh(lists.Repr() - old(lists.Repr()))
      ensures Valid() && View() == Step(old(View()), DoErase(key)) && key !in table
    {
      hide Inv;
      hide Lists.Holds;
      StepKeeps(View(), DoErase(key));
      EraseKeeps(View(), key);
      TakeOut(key);
    }

    // Take a key out of the table and the cache.
    method TakeOut(key: Key)
      requires Inv(View(), {}) && lists.Valid()
      modifies this, lists, lists.Repr()
      ensures lists.Valid() && lists.Repr() <= old(lists.Repr())
      ensures View() == LruCaches.Erase(old(View()), key)
    {
      if key in table {
        var id := table[key];
        TableEntry(View(), key);
        HasRefs(View(), id);
        OnList(id);
        table := table - {key};
        Remove(id);
      }
    }

    method EraseEntry(id: Id)
      requires Valid() && Held(View(), id)
      modifies this, lists, lists.Repr()
      ensures fresh(lists.Repr() - old(lists.Repr()))
      ensures Valid() && View() == Step(old(View()), DoEraseEntry(id))
    {
      StepKeeps(View(), DoEraseEntry(id));
      var key := entries[id].key;
      if key in table && table[key] == id {
        TakeOut(key);
      }
    }

    // Evict idle entries, the longest idle first, until usage is within the bound.
    method EvictTo(bound: int)
      requires Inv(View(), {}) && lists.Valid()
      modifies this, lists, lists.Repr()
      ensures lists.Valid() && lists.Repr() <= old(lists.Repr())
      ensures View() == Evict(old(View()), bound)
    {
      hide Lists.Holds;
      hide Inv;
      hide EvictOne;
      hide Evict;
      ghost var s := View();
      var a := lists.Oldest();
      while usage > bound && a.Some?
        invariant Inv(View(), {}) && lists.Valid() && lists.Repr() <= old(lists.Repr())
        invariant a == (if lists.lru == [] then None else Some(lists.lru[0]))
        invariant Evict(View(), bound) == Evict(s, bound)
        decreases |lists.lru|
      {
        EvictUnfold(View(), bound);
        EvictOldest(a.value);
        a := lists.Oldest();
      }
      EvictDone(View(), bound);
    }

    method EvictOldest(a: Id)
      requires Inv(View(), {}) && lists.Valid() && lists.lru != [] && a == lists.lru[0]
      modifies this, lists, lists.Repr()
      ensures lists.Valid() && lists.Repr() <= old(lists.Repr())
      ensures old(a in entries) && View() == EvictOne(old(View())) && Inv(View(), {}) && |lists.lru| < |old(lists.lru)|
    {
      hide Lists.Holds;
      hide LruCaches.Erase;
      EvictOneSpec(View());
      TakeOut(entries[a].key);
    }

    /** Empty the list of idle entries. */
    method Prune()
      requires Valid()
      modifies this, lists, lists.Repr()
      ensures fresh(lists.Repr() - old(lists.Repr()))
      ensures Valid() && View() == Step(old(View()), DoPrune) && lists.lru == []
    {
      StepKeeps(View(), DoPrune);
      ghost var k := EvictSpec(View(), -1);
      EvictTo(-1);
      UsageNatural(View());
    }

    /** Add an entry, making room for it if possible. The client gets a reference. */
    method Insert(key: Key, value: nat, charge: nat) returns (id: Id)
      requires Valid()
      modifies this, lists, lists.Repr()
      ensures fresh(lists.Repr() - old(lists.Repr()))
      ensures Valid() && View() == Step(old(View()), DoInsert(key, value, charge))
      ensures id == old(next) && Held(View(), id)
    {
      hide Inv;
      hide Lists.Holds;
      hide LruCaches.Admit;
      hide LruCaches.Erase;
      StepKeeps(View(), DoInsert(key, value, charge));
      InsertKeeps(View(), key, value, charge);
      id := Create(key, value, charge);
      if capacity != 0 {
        Admit(id, old(View()));
        EvictTo(capacity);
        if usage > capacity {
          EvictsKeep(old(View()), key, value, charge);
          TakeOut(key);
        }
      }
    }

    // A new entry that only the client refers to.
    method Create(key: Key, value: nat, charge: nat) returns (id: Id)
      requires Inv(View(), {}) && lists.Valid()
      modifies this, lists, lists.Repr()
      ensures lists.Valid() && fresh(lists.Repr() - old(lists.Repr()))
      ensures id == old(next) && View() == Make(old(View()), key, value, charge, false)
    {
      hide Lists.Holds;
      hide Inv;
      NewAddress();
      id := next;
      next := next + 1;
      lists.Add(id);
      entries := entries[id := Entry(key, value, charge, 1, false)];
      totalUsage := totalUsage + charge;
    }

    // The cache takes a reference to a new entry and drops the one it displaces.
    method Admit(id: Id, ghost s: Cache)
      requires Inv(s, {}) && id == s.next && id in entries
      requires var e := entries[id]; View() == Make(s, e.key, e.value, e.charge, false)
      requires lists.Valid()
      modifies this, lists, lists.Repr()
      ensures lists.Valid() && lists.Repr() <= old(lists.Repr())
      ensures var e := old(entries)[id]; View() == LruCaches.Admit(s, e.key, e.value, e.charge) && Inv(View(), {})
    {
      hide Inv;
      hide LruCaches.Remove;
      hide Held;
      hide Lists.Holds;
      var e := entries[id];
      Displaced(s, e.key);
      lists.Linked();
      MakeKeeps(s, e.key, e.value, e.charge, true);
      AdmitKeeps(s, e.key, e.value, e.charge);
      UpdateTwice(s.entries, id, e, e.(refs := 2, inCache := true));
      entries := entries[id := e.(refs := 2, inCache := true)];
      usage := usage + e.charge;
      var found := e.key in table;
      var displaced := if found then table[e.key] else 0;
      table := table[e.key := id];
      assert View() == Make(s, e.key, e.value, e.charge, true);
      if found {
        Remove(displaced);
      }
    }
  }

  lemma EvictUnfold(s: Cache, bound: int)
    requires Inv(s, {}) && s.usage > bound && s.lru != []
    ensures s.lru[0] in s.entries && Inv(EvictOne(s), {}) && Evict(s, bound) == Evict(EvictOne(s), bound)
  {
    hide Inv;
    hide EvictOne;
    EvictOneSpec(s);
  }

  lemma EvictDone(s: Cache, bound: int)
    requires Inv(s, {}) && (s.usage <= bound || s.lru == [])
    ensures Evict(s, bound) == s
  {
  }

  lemma Displaced(s: Cache, key: Key)
    requires Inv(s, {})
    ensures key in s.table ==> s.table[key] in s.lru || s.table[key] in s.inUse
  {
  }

  lemma UpdateThenDrop(m: map<Id, Entry>, id: Id, e: Entry)
    ensures m[id := e] - {id} == m - {id}
  {
  }

  lemma UpdateTwice(m: map<Id, Entry>, id: Id, d: Entry, e: Entry)
    ensures m[id := d][id := e] == m[id := e]
  {
  }

  lemma HasRefs(s: Cache, id: Id)
    requires Inv(s, {}) && id in s.entries
    ensures s.entries[id].refs > 0
  {
    Exclusive(s, id);
  }

  lemma UsageNatural(s: Cache)
    requires Inv(s, {})
    ensures s.usage >= 0
  {
  }

  lemma EvictsKeep(s: Cache, key: Key, value: nat, charge: nat)
    requires Inv(s, {})
    ensures Inv(LruCaches.Admit(s, key, value, charge), {})
    ensures Inv(Evict(LruCaches.Admit(s, key, value, charge), s.capacity), {})
  {
    hide Inv;
    AdmitKeeps(s, key, value, charge);
    var k := EvictSpec(LruCaches.Admit(s, key, value, charge), s.capacity);
  }
}
