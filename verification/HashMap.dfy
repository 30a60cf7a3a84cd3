/**
 The linked hash map: a hash table whose entries also form a circular doubly linked
 list, in the order in which they were inserted.
 */
module HashMaps {
  import opened Coding
  import opened HashTables

  // ------------------------------------------------------------------
  // Circular lists
  // ------------------------------------------------------------------

  // Around the list from the dummy head, which is at both -1 and |order|.
  function Node(head: Entry, order: seq<Entry>, i: int): Entry
    requires -1 <= i <= |order|
  {
    if i == -1 || i == |order| then head else order[i]
  }

  ghost predicate Joined(a: Entry, b: Entry)
    reads a`next, b`prev
  {
    a.next == b && b.prev == a
  }

  ghost predicate LinkAt(head: Entry, order: seq<Entry>, i: int)
    requires -1 <= i < |order|
    reads head`next, head`prev, order`next, order`prev
  {
    Joined(Node(head, order, i), Node(head, order, i + 1))
  }

  ghost predicate Ring(head: Entry, order: seq<Entry>)
    reads head`next, head`prev, order`next, order`prev
  {
    && head !in order && Distinct(order)
    && forall i {:trigger LinkAt(head, order, i)} :: -1 <= i < |order| ==> LinkAt(head, order, i)
  }

  function Without(order: seq<Entry>, k: nat): seq<Entry>
    requires k < |order|
  {
    order[..k] + order[k + 1..]
  }

  lemma RingWithout(head: Entry, order: seq<Entry>, k: nat)
    requires head !in order && Distinct(order) && k < |order|
    requires forall i {:trigger LinkAt(head, order, i)} :: -1 <= i < |order| && i != k - 1 && i != k ==> LinkAt(head, order, i)
    requires Joined(Node(head, order, k - 1), Node(head, order, k + 1))
    ensures Ring(head, Without(order, k))
  {
    var r := Without(order, k);
    forall i | -1 <= i < |r| ensures LinkAt(head, r, i) {
      if i < k - 1 {
        assert LinkAt(head, order, i);
      } else if i >= k {
        assert LinkAt(head, order, i + 1);
      }
    }
  }

  lemma RingWith(head: Entry, order: seq<Entry>, e: Entry)
    requires head !in order && Distinct(order) && e !in order && e != head
    requires forall i {:trigger LinkAt(head, order, i)} :: -1 <= i < |order| - 1 ==> LinkAt(head, order, i)
    requires Joined(Node(head, order, |order| - 1), e) && Joined(e, head)
    ensures Ring(head, order + [e])
  {
    var r := order + [e];
    forall i | -1 <= i < |r| ensures LinkAt(head, r, i) {
      if i < |order| - 1 {
        assert LinkAt(head, order, i);
      }
    }
  }

  /** Take an entry out of the list. */
  method Detach(e: Entry, ghost head: Entry, ghost order: seq<Entry>, ghost k: nat)
    requires Ring(head, order) && k < |order| && order[k] == e
    modifies head`next, head`prev, order`next, order`prev
    ensures Ring(head, Without(order, k))
  {
    assert LinkAt(head, order, k - 1) && LinkAt(head, order, k);
    e.next.prev := e.prev;
    e.prev.next := e.next;
    forall i | -1 <= i < |order| && i != k - 1 && i != k ensures LinkAt(head, order, i) {
      assert old(LinkAt(head, order, i));
    }
    RingWithout(head, order, k);
  }

  /** Add an entry at the end of the list. */
  method Append(head: Entry, e: Entry, ghost order: seq<Entry>)
    requires Ring(head, order) && e !in order && e != head
    modifies head`next, head`prev, e`next, e`prev, order`next
    ensures Ring(head, order + [e])
  {
    assert LinkAt(head, order, |order| - 1);
    e.next := head;
    e.prev := head.prev;
    e.prev.next := e;
    e.next.prev := e;
    forall i | -1 <= i < |order| - 1 ensures LinkAt(head, order, i) {
      assert old(LinkAt(head, order, i));
    }
    RingWith(head, order, e);
  }

  // ------------------------------------------------------------------
  // The map
  // ------------------------------------------------------------------

  class HashMap {
    const hashval: Key -> nat
    const head: Entry
    const table: HashTable
    ghost var order: seq<Entry>             // the linked list
    ghost var bindings: map<Key, Pointer>   // what the map maps

    ghost predicate Valid()
      reads this, table, table.list, table.entries`nextHash
      reads head`next, head`prev, order`next, order`prev
    {
      Holds({})
    }

    // The list may hold entries that are no longer in the table.
    ghost predicate Holds(extra: set<Entry>)
      reads this, table, table.list, table.entries`nextHash
      reads head`next, head`prev, order`next, order`prev
    {
      && table.Valid() && Ring(head, order)
      && table.entries !! extra && Elements(order) == table.entries + extra
      && Bound(hashval, table.contents, bindings)
    }

    constructor (h: Key -> nat)
      ensures Valid() && hashval == h && bindings == map[] && order == []
      ensures fresh(table) && fresh(table.list) && fresh(head) && table.entries == {}
    {
      hashval := h;
      head := new Entry([], 0, 0);
      table := new HashTable();
      order, bindings := [], map[];
      new;
      head.next, head.prev := head, head;
    }

    method Lookup(key: Key) returns (value: Pointer)
      requires Valid()
      ensures value == if key in bindings then bindings[key] else 0
    {
      hide Ring;
      var prev, curr, j := table.FindPointer(key, hashval(key));
      value := if curr == null then 0 else curr.value;
    }

    method Contains(key: Key) returns (found: bool)
      requires Valid()
      ensures found == (key in bindings)
    {
      hide Ring;
      var prev, curr, j := table.FindPointer(key, hashval(key));
      found := curr != null;
    }

    /** Bind the key; the new entry goes to the end of the list and a previous binding,
        whose value is returned, goes away. */
    method Insert(key: Key, value: Pointer) returns (old_: Pointer)
      requires Valid()
      modifies this, head, table, table.list, table.entries, order
      ensures Valid() && (table.list == old(table.list) || fresh(table.list))
      ensures bindings == old(bindings)[key := value]
      ensures old_ == if key in old(bindings) then old(bindings)[key] else 0
      ensures Relisted(old(order), order, key) && (key !in old(bindings) ==> |order| == |old(order)| + 1)
    {
      hide Holds;
      var e := new Entry(key, hashval(key), value);
      var displaced := Place(e);
      old_ := 0;
      if displaced != null {
        ghost var k := Drop(displaced);
        RelistedDrop(old(order), e, k, key);
        old_ := displaced.value;
      }
    }

    // Put a new entry in the list and the table.
    method Place(e: Entry) returns (displaced: Entry?)
      requires Valid() && e !in order && e != head && e !in table.entries && e.hash == hashval(e.key)
      modifies this, table, table.list, table.entries`nextHash, e`nextHash
      modifies head`next, head`prev, order`next, order`prev, e`next, e`prev
      ensures Holds(if displaced == null then {} else {displaced})
      ensures table.list == old(table.list) || fresh(table.list)
      ensures order == old(order) + [e]
      ensures bindings == old(bindings)[e.key := e.value]
      ensures displaced == null <==> e.key !in old(bindings)
      ensures displaced != null ==> displaced.key == e.key && displaced.value == old(bindings)[e.key] && displaced != e
    {
      hide Ring;
      hide HashTable.Valid;
      hide Bound;
      hide Elements;
      ElementsWith(order, e);
      BoundPut(hashval, table.contents, bindings, e);
      Append(head, e, order);
      displaced := table.Insert(e);
      order := order + [e];
      bindings := bindings[e.key := e.value];
    }

    /** Unbind the key and return what it was bound to. */
    method Erase(key: Key) returns (value: Pointer)
      requires Valid()
      modifies this, head, table, table.list, table.entries, order
      ensures Valid() && table.list == old(table.list)
      ensures bindings == old(bindings) - {key}
      ensures value == if key in old(bindings) then old(bindings)[key] else 0
      ensures if key in old(bindings) then Unlisted(old(order), order, key) else order == old(order)
    {
      hide Ring;
      hide HashTable.Valid;
      hide Bound;
      hide Elements;
      BoundDrop(hashval, table.contents, bindings, key);
      var e := table.Remove(key, hashval(key));
      bindings := bindings - {key};
      value := 0;
      if e != null {
        ghost var k := Drop(e);
        value := e.value;
      }
    }

    method Empty() returns (empty: bool)
      requires Valid()
      ensures empty <==> bindings == map[]
    {
      assert LinkAt(head, order, -1) && LinkAt(head, order, |order| - 1);
      empty := head.next == head && head.prev == head;
      assert empty <==> order == [];
      assert order != [] ==> order[0] in Elements(order);
      EmptyIff(hashval, table.entries, table.contents, bindings);
    }

    /** Visit the bindings in the order of the list: each exactly once. */
    method VisitAll() returns (visited: seq<(Key, Pointer)>)
      requires Valid()
      ensures Lists(visited, order)
      ensures forall i :: 0 <= i < |visited| ==> visited[i].0 in bindings && bindings[visited[i].0] == visited[i].1
      ensures forall k :: k in bindings ==> exists i :: 0 <= i < |visited| && visited[i].0 == k
      ensures forall i, j :: 0 <= i < j < |visited| ==> visited[i].0 != visited[j].0
    {
      visited := FollowList(head, order);
      ListsBindings(hashval, table.entries, table.contents, bindings, order, visited);
    }

    // Take an entry that is no longer in the table out of the list.
    method Drop(e: Entry) returns (ghost k: nat)
      requires Holds({e})
      modifies this`order, head`next, head`prev, order`next, order`prev
      ensures Valid()
      ensures k < |old(order)| && old(order)[k] == e && order == Without(old(order), k)
    {
      hide HashTable.Valid;
      hide Bound;
      k := Position(order, e);
      ElementsWithout(order, k);
      Detach(e, head, order, k);
      order := Without(order, k);
    }
  }

  ghost predicate Lists(visited: seq<(Key, Pointer)>, order: seq<Entry>) {
    && |visited| == |order|
    && forall i :: 0 <= i < |order| ==> visited[i] == (order[i].key, order[i].value)
  }

  method FollowList(head: Entry, ghost order: seq<Entry>) returns (visited: seq<(Key, Pointer)>)
    requires Ring(head, order)
    ensures Lists(visited, order)
  {
    visited := [];
    assert LinkAt(head, order, -1);
    var e := head.next;
    while e != head
      invariant |visited| <= |order| && e == Node(head, order, |visited|)
      invariant Lists(visited, order[..|visited|])
      decreases |order| - |visited|
    {
      assert LinkAt(head, order, |visited|);
      visited := visited + [(e.key, e.value)];
      e := e.next;
    }
    assert order[..|visited|] == order;
  }

  lemma ListsBindings(h: Key -> nat, entries: set<Entry>, contents: map<(Key, nat), Entry>, bindings: map<Key, Pointer>,
                      order: seq<Entry>, visited: seq<(Key, Pointer)>)
    requires Indexed(entries, contents) && Bound(h, contents, bindings) && Lists(visited, order)
    requires Elements(order) == entries && Distinct(order)
    ensures forall i :: 0 <= i < |visited| ==> visited[i].0 in bindings && bindings[visited[i].0] == visited[i].1
    ensures forall k :: k in bindings ==> exists i :: 0 <= i < |visited| && visited[i].0 == k
    ensures forall i, j :: 0 <= i < j < |visited| ==> visited[i].0 != visited[j].0
  {
    forall i | 0 <= i < |visited|
      ensures visited[i].0 in bindings && bindings[visited[i].0] == visited[i].1
      ensures contents[(order[i].key, h(order[i].key))] == order[i]
    {
      assert order[i] in entries;
    }
    forall k | k in bindings ensures exists i :: 0 <= i < |visited| && visited[i].0 == k {
      var i := Position(order, contents[(k, h(k))]);
      assert visited[i].0 == k;
    }
  }

  lemma EmptyIff(h: Key -> nat, entries: set<Entry>, contents: map<(Key, nat), Entry>, bindings: map<Key, Pointer>)
    requires Indexed(entries, contents) && Bound(h, contents, bindings)
    ensures entries == {} <==> bindings == map[]
  {
    if entries != {} {
      var e :| e in entries;
      assert e.key in bindings;
    }
    if bindings != map[] {
      var k :| k in bindings;
      assert contents[(k, h(k))] in entries;
    }
  }

  lemma BoundDrop(h: Key -> nat, contents: map<(Key, nat), Entry>, bindings: map<Key, Pointer>, key: Key)
    requires Bound(h, contents, bindings)
    ensures Bound(h, contents - {(key, h(key))}, bindings - {key})
    ensures key in bindings <==> (key, h(key)) in contents
    ensures key in bindings ==> contents[(key, h(key))].value == bindings[key]
    ensures key !in bindings ==> bindings - {key} == bindings
  {
  }

  lemma Position(order: seq<Entry>, e: Entry) returns (k: nat)
    requires e in Elements(order)
    ensures k < |order| && order[k] == e
  {
    k :| k < |order| && order[k] == e;
  }

  lemma ElementsWithout(order: seq<Entry>, k: nat)
    requires k < |order| && Distinct(order)
    ensures Elements(Without(order, k)) == Elements(order) - {order[k]}
  {
    var r := Without(order, k);
    forall e | e in Elements(order) - {order[k]} ensures e in r {
      var i := Position(order, e);
      assert if i < k then r[i] == e else r[i - 1] == e;
    }
  }

  lemma ElementsWith(order: seq<Entry>, e: Entry)
    ensures Elements(order + [e]) == Elements(order) + {e}
  {
  }

  // What the list becomes when key is bound: its entry, if any, is taken out, and a
  // new one is added at the end.
  ghost predicate Relisted(before: seq<Entry>, after: seq<Entry>, key: Key) {
    && after != [] && after[|after| - 1].key == key
    && (after[..|after| - 1] == before || Unlisted(before, after[..|after| - 1], key))
  }

  ghost predicate Unlisted(before: seq<Entry>, after: seq<Entry>, key: Key) {
    exists k :: 0 <= k < |before| && before[k].key == key && after == Without(before, k)
  }

  lemma RelistedDrop(before: seq<Entry>, e: Entry, k: nat, key: Key)
    requires k < |before| && before[k].key == key && e.key == key
    ensures Relisted(before, Without(before + [e], k), key)
  {
    var after := Without(before + [e], k);
    assert after[..|after| - 1] == Without(before, k);
  }

  // Every binding is an entry under its own hash, and every entry is a binding.
  ghost predicate Bound(h: Key -> nat, contents: map<(Key, nat), Entry>, bindings: map<Key, Pointer>) {
    && (forall k :: k in bindings <==> (k, h(k)) in contents)
    && (forall k :: k in bindings ==> bindings[k] == contents[(k, h(k))].value)
    && (forall c :: c in contents ==> c.1 == h(c.0))
  }

  lemma BoundPut(h: Key -> nat, contents: map<(Key, nat), Entry>, bindings: map<Key, Pointer>, e: Entry)
    requires Bound(h, contents, bindings) && e.hash == h(e.key)
    ensures Bound(h, contents[(e.key, e.hash) := e], bindings[e.key := e.value])
    ensures e.key in bindings <==> (e.key, e.hash) in contents
    ensures e.key in bindings ==> contents[(e.key, e.hash)].value == bindings[e.key]
  {
  }
}
