/**
 The two intrusive lists of the LRU cache: circular doubly linked lists with dummy heads,
 through the entries themselves. An entry moves between them by relinking its neighbours.
 */
module LruLists {
  import opened Coding
  import opened LruCaches
  import H = HashTables
  import M = HashMaps

  class Lists {
    const lruHead: H.Entry
    const useHead: H.Entry
    var nodes: map<Id, H.Entry>  // the entry at each address
    ghost var lru: seq<Id>       // from the oldest to the newest
    ghost var inUse: seq<Id>

    // Everything the lists link together.
    ghost function Repr(): set<H.Entry>
      reads this`nodes
    {
      nodes.Values + {lruHead, useHead}
    }

    ghost predicate Valid()
      reads this, Repr()
    {
      Holds({})
    }

    // The lists are linked up, and the entries not on them are "loose".
    ghost predicate Holds(loose: set<Id>)
      reads this, Repr()
    {
      && lruHead != useHead && lruHead !in nodes.Values && useHead !in nodes.Values
      && Shaped(nodes, lru, inUse, loose)
      && M.Ring(lruHead, At(nodes, lru)) && M.Ring(useHead, At(nodes, inUse))
    }

    constructor ()
      ensures Valid() && lru == [] && inUse == [] && nodes == map[] && fresh(Repr())
    {
      lruHead := new H.Entry([], 0, 0);
      useHead := new H.Entry([], 0, 0);
      nodes, lru, inUse := map[], [], [];
      new;
      lruHead.next, lruHead.prev, useHead.next, useHead.prev := lruHead, lruHead, useHead, useHead;
    }

    // Take an entry off the list it is on, whichever that is.
    method Remove(id: Id)
      requires Valid() && id in nodes
      modifies this`lru, this`inUse, Repr()
      ensures Holds({id}) && nodes == old(nodes)
      ensures if id in old(lru) then lru == Minus(old(lru), id) && inUse == old(inUse)
              else id in old(inUse) && lru == old(lru) && inUse == Minus(old(inUse), id)
    {
      hide M.Ring;
      hide Minus;
      hide Shaped;
      hide At;
      OnOneList(nodes, lru, inUse, id);
      ghost var idle := id in lru;
      ghost var head, list := if idle then lruHead else useHead, if idle then lru else inUse;
      ghost var head2, list2 := if idle then useHead else lruHead, if idle then inUse else lru;
      TakeOff(nodes[id], id, nodes, head, list, head2, list2);
      lru := if idle then Minus(lru, id) else lru;
      inUse := if idle then inUse else Minus(inUse, id);
    }

    // Put a loose entry at the end of a list.
    method Append(idle: bool, id: Id)
      requires Holds({id})
      modifies this`lru, this`inUse, Repr()
      ensures Valid() && nodes == old(nodes)
      ensures if idle then lru == old(lru) + [id] && inUse == old(inUse)
              else lru == old(lru) && inUse == old(inUse) + [id]
    {
      hide M.Ring;
      hide Shaped;
      hide At;
      LooseSwap(nodes, lru, inUse, {id});
      var head := if idle then lruHead else useHead;
      ghost var list := if idle then lru else inUse;
      ghost var head2, list2 := if idle then useHead else lruHead, if idle then inUse else lru;
      PutLast(head, nodes[id], id, nodes, list, head2, list2);
      lru := if idle then lru + [id] else lru;
      inUse := if idle then inUse else inUse + [id];
    }

    // A new entry, in use.
    method Add(id: Id)
      requires Valid() && id !in nodes
      modifies this, Repr()
      ensures Valid() && nodes.Keys == old(nodes).Keys + {id} && fresh(Repr() - old(Repr()))
      ensures lru == old(lru) && inUse == old(inUse) + [id]
    {
      hide M.Ring;
      hide Distinct;
      var e := new H.Entry([], 0, id);
      ShapedNew(nodes, lru, inUse, id, e);
      nodes := nodes[id := e];
      Append(false, id);
    }

    // Let go of an entry that is on no list.
    method Free(id: Id)
      requires Holds({id})
      modifies this`nodes
      ensures Valid() && nodes == old(nodes) - {id} && Repr() <= old(Repr())
    {
      hide M.Ring;
      hide Distinct;
      ShapedFree(nodes, lru, inUse, id);
      nodes := nodes - {id};
    }

    lemma Linked()
      requires Valid()
      ensures forall id :: id in lru || id in inUse ==> id in nodes
    {
    }

    // The oldest idle entry, if there is one.
    method Oldest() returns (id: Option<Id>)
      requires Valid()
      ensures id == if lru == [] then None else Some(lru[0])
    {
      assert M.LinkAt(lruHead, At(nodes, lru), -1);
      var e := lruHead.next;
      id := if e == lruHead then None else Some(e.value);
    }
  }

  // ------------------------------------------------------------------
  // One list, beside another one
  // ------------------------------------------------------------------

  ghost predicate Disjoint(head: H.Entry, order: seq<H.Entry>, head2: H.Entry, order2: seq<H.Entry>) {
    head != head2 && head !in order2 && head2 !in order && forall e :: e in order ==> e !in order2
  }

  lemma Outside(head: H.Entry, order: seq<H.Entry>, head2: H.Entry, order2: seq<H.Entry>, i: int)
    requires Disjoint(head, order, head2, order2) && -1 <= i <= |order2|
    ensures var x := M.Node(head2, order2, i); x != head && x !in order
  {
    assert 0 <= i < |order2| ==> order2[i] in order2;
  }

  method Unlink(e: H.Entry, ghost head: H.Entry, ghost order: seq<H.Entry>, ghost k: nat,
                ghost head2: H.Entry, ghost order2: seq<H.Entry>)
    requires M.Ring(head, order) && M.Ring(head2, order2) && Disjoint(head, order, head2, order2)
    requires k < |order| && order[k] == e
    modifies head`next, head`prev, order`next, order`prev
    ensures M.Ring(head, M.Without(order, k)) && M.Ring(head2, order2)
  {
    M.Detach(e, head, order, k);
    forall i | -1 <= i < |order2| ensures M.LinkAt(head2, order2, i) {
      assert old(M.LinkAt(head2, order2, i));
      Outside(head, order, head2, order2, i);
      Outside(head, order, head2, order2, i + 1);
    }
  }

  method TakeOff(e: H.Entry, ghost id: Id, ghost nodes: map<Id, H.Entry>,
                 ghost head: H.Entry, ghost a: seq<Id>, ghost head2: H.Entry, ghost b: seq<Id>)
    requires Shaped(nodes, a, b, {}) && id in a && nodes[id] == e && M.Ring(head, At(nodes, a)) && M.Ring(head2, At(nodes, b))
    requires head != head2 && head !in nodes.Values && head2 !in nodes.Values
    modifies nodes.Values + {head}
    ensures Shaped(nodes, Minus(a, id), b, {id}) && Shaped(nodes, b, Minus(a, id), {id})
    ensures M.Ring(head, At(nodes, Minus(a, id))) && M.Ring(head2, At(nodes, b))
  {
    hide M.Ring;
    hide Minus;
    hide Distinct;
    Separate(nodes, a, b, {}, head, head2);
    ShapedMinus(nodes, a, b, id);
    AtMinus(nodes, a, id);
    Unlink(e, head, At(nodes, a), Index(a, id), head2, At(nodes, b));
  }

  method PutLast(head: H.Entry, e: H.Entry, ghost id: Id, ghost nodes: map<Id, H.Entry>,
                 ghost a: seq<Id>, ghost head2: H.Entry, ghost b: seq<Id>)
    requires Shaped(nodes, a, b, {id}) && nodes[id] == e && M.Ring(head, At(nodes, a)) && M.Ring(head2, At(nodes, b))
    requires head != head2 && head !in nodes.Values && head2 !in nodes.Values
    modifies nodes.Values + {head}
    ensures Shaped(nodes, a + [id], b, {}) && Shaped(nodes, b, a + [id], {})
    ensures M.Ring(head, At(nodes, a + [id])) && M.Ring(head2, At(nodes, b))
  {
    hide M.Ring;
    hide Distinct;
    Separate(nodes, a, b, {id}, head, head2);
    ShapedPlus(nodes, a, b, id);
    LinkLast(head, e, At(nodes, a), head2, At(nodes, b));
  }

  method LinkLast(head: H.Entry, e: H.Entry, ghost order: seq<H.Entry>, ghost head2: H.Entry, ghost order2: seq<H.Entry>)
    requires M.Ring(head, order) && M.Ring(head2, order2) && Disjoint(head, order + [e], head2, order2)
    requires e !in order && e != head
    modifies head`next, head`prev, e`next, e`prev, order`next
    ensures M.Ring(head, order + [e]) && M.Ring(head2, order2)
  {
    assert e !in order2 by { assert e in order + [e]; }
    assert forall x :: x in order ==> x in order + [e];
    M.Append(head, e, order);
    forall i | -1 <= i < |order2| ensures M.LinkAt(head2, order2, i) {
      assert old(M.LinkAt(head2, order2, i));
      Outside(head, order + [e], head2, order2, i);
      Outside(head, order + [e], head2, order2, i + 1);
    }
  }

  // ------------------------------------------------------------------
  // Addresses
  // ------------------------------------------------------------------

  // The entries at some addresses.
  ghost function At(nodes: map<Id, H.Entry>, list: seq<Id>): (r: seq<H.Entry>)
    requires forall id :: id in list ==> id in nodes
    ensures |r| == |list| && forall i :: 0 <= i < |r| ==> r[i] == nodes[list[i]]
  {
    seq(|list|, i requires 0 <= i < |list| => nodes[list[i]])
  }

  // Every entry carries its address and is on one of the lists, once, unless it is loose.
  ghost predicate Shaped(nodes: map<Id, H.Entry>, a: seq<Id>, b: seq<Id>, loose: set<Id>) {
    && (forall id :: id in nodes ==> nodes[id].value == id)
    && Distinct(a) && Distinct(b)
    && (forall id :: id in nodes <==> id in a || id in b || id in loose)
    && (forall id :: id in a ==> id !in b && id !in loose)
    && (forall id :: id in b ==> id !in loose)
  }

  lemma OnOneList(nodes: map<Id, H.Entry>, a: seq<Id>, b: seq<Id>, id: Id)
    requires Shaped(nodes, a, b, {}) && id in nodes
    ensures Shaped(nodes, b, a, {}) && (id in a <==> id !in b)
  {
  }

  lemma Separate(nodes: map<Id, H.Entry>, a: seq<Id>, b: seq<Id>, loose: set<Id>, head: H.Entry, head2: H.Entry)
    requires Shaped(nodes, a, b, loose)
    requires head != head2 && head !in nodes.Values && head2 !in nodes.Values
    ensures Disjoint(head, At(nodes, a), head2, At(nodes, b))
    ensures forall id :: id in loose ==> id in nodes && nodes[id] !in At(nodes, a) && nodes[id] != head
    ensures forall id :: id in loose ==> Disjoint(head, At(nodes, a) + [nodes[id]], head2, At(nodes, b))
    ensures forall e :: e in At(nodes, a) || e in At(nodes, b) ==> e in nodes.Values
  {
    forall e | e in At(nodes, a) ensures e.value in a && e in nodes.Values {
      var i :| 0 <= i < |a| && At(nodes, a)[i] == e;
      assert a[i] in nodes;
    }
    forall e | e in At(nodes, b) ensures e.value in b && e in nodes.Values {
      var i :| 0 <= i < |b| && At(nodes, b)[i] == e;
      assert b[i] in nodes;
    }
  }

  lemma LooseSwap(nodes: map<Id, H.Entry>, a: seq<Id>, b: seq<Id>, loose: set<Id>)
    requires Shaped(nodes, a, b, loose)
    ensures Shaped(nodes, b, a, loose) && forall id :: id in loose ==> id in nodes
  {
  }

  lemma ShapedMinus(nodes: map<Id, H.Entry>, a: seq<Id>, b: seq<Id>, id: Id)
    requires Shaped(nodes, a, b, {}) && id in a
    ensures Shaped(nodes, Minus(a, id), b, {id}) && Shaped(nodes, b, Minus(a, id), {id})
  {
    hide Minus;
    hide Distinct;
    MinusMembers(a, id);
  }

  lemma AtMinus(nodes: map<Id, H.Entry>, a: seq<Id>, id: Id)
    requires id in a && (forall x :: x in a ==> x in nodes) && (forall x :: x in Minus(a, id) ==> x in nodes)
    ensures At(nodes, Minus(a, id)) == M.Without(At(nodes, a), Index(a, id))
    ensures At(nodes, a)[Index(a, id)] == nodes[id]
  {
    hide Index;
  }

  lemma ShapedPlus(nodes: map<Id, H.Entry>, a: seq<Id>, b: seq<Id>, id: Id)
    requires Shaped(nodes, a, b, {id})
    ensures Shaped(nodes, a + [id], b, {}) && Shaped(nodes, b, a + [id], {})
    ensures At(nodes, a + [id]) == At(nodes, a) + [nodes[id]]
  {
  }

  lemma ShapedNew(nodes: map<Id, H.Entry>, a: seq<Id>, b: seq<Id>, id: Id, e: H.Entry)
    requires Shaped(nodes, a, b, {}) && id !in nodes && e.value == id
    ensures Shaped(nodes[id := e], a, b, {id})
    ensures At(nodes[id := e], a) == At(nodes, a) && At(nodes[id := e], b) == At(nodes, b)
  {
  }

  lemma ShapedFree(nodes: map<Id, H.Entry>, a: seq<Id>, b: seq<Id>, id: Id)
    requires Shaped(nodes, a, b, {id})
    ensures Shaped(nodes - {id}, a, b, {})
    ensures At(nodes - {id}, a) == At(nodes, a) && At(nodes - {id}, b) == At(nodes, b)
  {
  }
}
