/**
 What the operations of the LRU cache do for those who use it: what is cached after an
 insertion and what had to go for it, what a lookup finds, and how long an entry lives.
 */
module LruEffects {
  import opened Coding
  import opened LruCaches

  // ------------------------------------------------------------------
  // Taking an entry out
  // ------------------------------------------------------------------

  // The idle entries without one.
  function Others(lru: seq<Id>, id: Id): seq<Id> {
    if id in lru then Minus(lru, id) else lru
  }

  // The cache's reference to an entry goes away: an idle entry is deleted, one in use stays
  // with its clients. Nothing else changes.
  ghost predicate GaveUp(s: Cache, t: Cache, id: Id) {
    && id in s.entries
    && t.lru == Others(s.lru, id) && t.inUse == s.inUse && t.stamps == s.stamps && t.next == s.next
    && t.capacity == s.capacity && t.usage == s.usage - s.entries[id].charge
    && (if id in s.lru then t.entries == s.entries - {id} && t.deleted == s.deleted + [id]
        else
          && t.deleted == s.deleted && s.entries[id].refs > 0
          && t.entries == s.entries[id := s.entries[id].(inCache := false, refs := s.entries[id].refs - 1)])
  }

  lemma RemoveEffect(s: Cache, id: Id)
    requires Inv(s, {id}) && id in s.entries && s.entries[id].refs > 0
    ensures GaveUp(s, Remove(s, id), id) && Remove(s, id).table == s.table
  {
    hide Sum;
    hide Charges;
    hide CachedCharges;
    hide Minus;
    hide Accounted;
    hide Ordered;
    RemoveKeeps(s, id);
    SameTable(s, id);
    Exclusive(s, id);
    var e := s.entries[id];
    assert s.entries[id := e.(inCache := false)] - {id} == s.entries - {id};
  }

  /** Erasing a key takes it out of the table; its entry is deleted if it is idle and else
      stays with those who hold it. Other keys are not touched. */
  lemma EraseEffect(s: Cache, key: Key)
    requires Inv(s, {})
    ensures var t := Erase(s, key);
            && t.table == s.table - {key}
            && if key in s.table then GaveUp(s, t, s.table[key]) else t == s
  {
    hide Sum;
    hide Charges;
    hide CachedCharges;
    hide Minus;
    hide Accounted;
    hide Ordered;
    hide Remove;
    if key in s.table {
      var id, t := s.table[key], s.(table := s.table - {key});
      Unlisted(s.table, s.entries, key);
      Exclusive(s, id);
      RemoveEffect(t, id);
    } else {
      assert s.table - {key} == s.table;
    }
  }

  /** Erasing an entry erases its key if the key still leads to it, and does nothing if
      another entry has taken its place. */
  lemma EraseEntryEffect(s: Cache, id: Id)
    requires Inv(s, {}) && id in s.entries
    ensures var t, key := EraseEntry(s, id), s.entries[id].key;
            if s.entries[id].inCache then t.table == s.table - {key} && GaveUp(s, t, id) else t == s
  {
    hide Erase;
    hide GaveUp;
    EraseEffect(s, s.entries[id].key);
    InTable(s, id);
  }

  lemma InTable(s: Cache, id: Id)
    requires Inv(s, {}) && id in s.entries
    ensures s.entries[id].inCache <==> s.entries[id].key in s.table && s.table[s.entries[id].key] == id
  {
    hide Sum;
    hide Accounted;
    hide Ordered;
    hide Listed;
  }

  // ------------------------------------------------------------------
  // Insertion
  // ------------------------------------------------------------------

  // Charges of cached entries that clients are using, but for some.
  ghost function BusyCharges(entries: map<Id, Entry>, but: set<Id>): map<Id, nat> {
    map id | id in entries && entries[id].inCache && entries[id].refs >= 2 && id !in but :: entries[id].charge
  }

  ghost function Busy(s: Cache, but: set<Id>): nat { Sum(BusyCharges(s.entries, but)) }

  lemma {:induction false} SumPart(m: map<Id, nat>, n: map<Id, nat>)
    requires m.Keys <= n.Keys && forall k :: k in m ==> m[k] == n[k]
    ensures Sum(m) <= Sum(n)
    decreases |m|
  {
    if m == map[] {
    } else {
      var k :| k in m;
      SumPick(m, k);
      SumPick(n, k);
      SumPart(m - {k}, n - {k});
    }
  }

  // Usage is at least what is busy, and exactly that if nothing is idle.
  lemma BusyUsage(s: Cache)
    requires Inv(s, {})
    ensures Busy(s, {}) <= s.usage && (s.lru == [] ==> Busy(s, {}) == s.usage)
  {
    hide Sum;
    hide Tabled;
    hide Accounted;
    hide Ordered;
    SumPart(BusyCharges(s.entries, {}), CachedCharges(s.entries));
    if s.lru == [] {
      assert BusyCharges(s.entries, {}) == CachedCharges(s.entries);
    }
  }

  // The idle entry or the entry in use that a key leads to makes way.
  lemma AdmitEffect(s: Cache, key: Key, value: nat, charge: nat)
    requires Inv(s, {})
    ensures var a, made := Admit(s, key, value, charge), Make(s, key, value, charge, true);
            && a.table == s.table[key := s.next]
            && (if key in s.table then s.table[key] in s.entries && s.table[key] != s.next && GaveUp(made, a, s.table[key])
                else a == made)
  {
    hide Inv;
    hide Remove;
    hide GaveUp;
    MakeKeeps(s, key, value, charge, true);
    if key in s.table {
      var made := Make(s, key, value, charge, true);
      assert made.entries[s.table[key]] == s.entries[s.table[key]];
      RemoveEffect(made, s.table[key]);
    }
  }

  lemma AdmitBusy(s: Cache, key: Key, value: nat, charge: nat)
    requires Inv(s, {})
    ensures Busy(Admit(s, key, value, charge), {}) == Busy(s, Found(s.table, key)) + charge
  {
    hide Sum;
    hide Admit;
    hide Inv;
    var a := Admit(s, key, value, charge);
    AdmitEffect(s, key, value, charge);
    MakeKeeps(s, key, value, charge, true);
    var made, m := Make(s, key, value, charge, true), BusyCharges(s.entries, Found(s.table, key));
    if key in s.table {
      NotBusy(made, a, s.table[key]);
    }
    MadeBusy(s, key, value, charge, Found(s.table, key));
    SumPut(m, s.next, charge);
  }

  // The cache's charge for an entry that it gave up is gone.
  lemma NotBusy(s: Cache, t: Cache, id: Id)
    requires GaveUp(s, t, id)
    ensures BusyCharges(t.entries, {}) == BusyCharges(s.entries, {id})
  {
  }

  lemma MadeBusy(s: Cache, key: Key, value: nat, charge: nat, but: set<Id>)
    requires s.next !in s.entries && s.next !in but
    ensures BusyCharges(Make(s, key, value, charge, true).entries, but) == BusyCharges(s.entries, but)[s.next := charge]
  {
  }

  lemma EvictBusy(s: Cache, t: Cache, k: nat)
    requires Inv(s, {}) && k <= |s.lru| && t.entries == s.entries - Ids(s.lru[..k])
    ensures Busy(t, {}) == Busy(s, {})
  {
    hide Sum;
    hide Tabled;
    hide Accounted;
    hide Ordered;
    forall id | id in Ids(s.lru[..k]) ensures id in s.entries && s.entries[id].refs == 1 {
      assert id in s.lru;
    }
    assert BusyCharges(t.entries, {}) == BusyCharges(s.entries, {});
  }

  // Keys lead where they did, but for those of evicted entries.
  lemma EvictTable(s: Cache, t: Cache, gone: set<Id>)
    requires Inv(s, {}) && Inv(t, {}) && t.entries == s.entries - gone
    ensures forall x :: x in t.table <==> x in s.table && s.table[x] !in gone
    ensures forall x :: x in t.table ==> t.table[x] == s.table[x]
  {
    hide Sum;
    hide Listed;
    hide Accounted;
    hide Ordered;
    forall x | x in t.table ensures x in s.table && s.table[x] == t.table[x] && s.table[x] !in gone {
      assert t.table[x] in t.entries;
    }
    forall x | x in s.table && s.table[x] !in gone ensures x in t.table {
      assert s.table[x] in t.entries && t.entries[s.table[x]].key == x;
    }
  }

  // Whether there is room for an entry beside those that are in use.
  ghost predicate Fits(s: Cache, key: Key, charge: nat) {
    s.capacity > 0 && Busy(s, Found(s.table, key)) + charge <= s.capacity
  }

  /** The new entry is cached if and only if caching is on and it fits beside the entries that
      clients are using, not counting the one it displaces. It holds what was put in either
      way, and the entry that the key led to before is no longer cached. */
  lemma InsertCachedIff(s: Cache, key: Key, value: nat, charge: nat)
    requires Inv(s, {}) && Bounded(s) && s.capacity > 0
    ensures var t := Insert(s, key, value, charge);
            && (key in t.table <==> Fits(s, key, charge)) && (key in t.table ==> t.table[key] == s.next)
            && s.next in t.entries
            && t.entries[s.next] == (if Fits(s, key, charge) then Entry(key, value, charge, 2, true)
                                     else Entry(key, value, charge, 1, false))
  {
    hide Inv;
    hide Admit;
    hide Evict;
    hide Erase;
    hide Busy;
    hide Held;
    AdmitKeeps(s, key, value, charge);
    AdmitBusy(s, key, value, charge);
    var a := Admit(s, key, value, charge);
    var k := EvictSpec(a, s.capacity);
    var t := Evict(a, s.capacity);
    EvictBusy(a, t, k);
    BusyUsage(t);
    StillThere(a, t, s.next, k);
    InTable(t, s.next);
    EraseEffect(t, key);
    NotIdle(t, s.next);
  }

  lemma NotIdle(s: Cache, id: Id)
    requires Inv(s, {}) && id in s.entries && s.entries[id].refs >= 2
    ensures id !in s.lru
  {
    hide Sum;
    hide Tabled;
    hide Accounted;
    hide Ordered;
  }

  /** With caching off, an entry only belongs to the client. */
  lemma InsertUncached(s: Cache, key: Key, value: nat, charge: nat)
    requires Inv(s, {}) && s.capacity == 0
    ensures var t := Insert(s, key, value, charge);
            && t.table == s.table && t.lru == s.lru && t.deleted == s.deleted
            && t.entries == s.entries[s.next := Entry(key, value, charge, 1, false)]
  {
  }

  // Everything but the new entry and the one that a key led to.
  ghost predicate Bystander(s: Cache, key: Key, id: Id) {
    id in s.entries && id != s.next && id !in Found(s.table, key)
  }

  /** What has to go: of the idle entries, other than the one displaced, the k that have been
      idle longest, in that order, and no more than needed. All other keys lead where they did
      and all other entries are as they were. */
  lemma InsertMakesRoom(s: Cache, key: Key, value: nat, charge: nat) returns (k: nat)
    requires Inv(s, {}) && Bounded(s) && s.capacity > 0
    ensures var t := Insert(s, key, value, charge);
            var old_ := if key in s.table then s.table[key] else s.next;
            var idle := Others(s.lru, old_);
            && k <= |idle| && t.lru == idle[k..]
            && t.deleted == s.deleted + (if old_ in s.lru then [old_] else []) + idle[..k]
            && (forall x :: x in t.table && x != key <==> x in s.table && x != key && s.table[x] !in idle[..k])
            && (forall x :: x in t.table && x != key ==> t.table[x] == s.table[x])
            && (forall id :: Bystander(s, key, id) && id !in idle[..k] ==> id in t.entries && t.entries[id] == s.entries[id])
            && (k > 0 ==>
                  && idle[k - 1] in s.entries
                  && t.usage + (if Fits(s, key, charge) then 0 else charge) + s.entries[idle[k - 1]].charge > s.capacity)
  {
    hide Inv;
    hide Admit;
    hide Evict;
    hide Erase;
    hide Held;
    hide Others;
    hide Fits;
    AdmitKeeps(s, key, value, charge);
    var a := Admit(s, key, value, charge);
    k := EvictSpec(a, s.capacity);
    var t := Evict(a, s.capacity);
    AdmitShape(s, key, value, charge);
    EvictTable(a, t, Ids(a.lru[..k]));
    StillThere(a, t, s.next, k);
    InsertCachedIff(s, key, value, charge);
    EraseShape(t, key, s.next);
    if k > 0 {
      NotNew(s, key, value, charge, a.lru[k - 1]);
    }
  }

  // The idle entries after the new one is admitted.
  lemma AdmitShape(s: Cache, key: Key, value: nat, charge: nat)
    requires Inv(s, {})
    ensures var a := Admit(s, key, value, charge);
            var old_ := if key in s.table then s.table[key] else s.next;
            && a.lru == Others(s.lru, old_)
            && a.deleted == s.deleted + (if old_ in s.lru then [old_] else [])
            && a.table == s.table[key := s.next]
            && (forall id :: Bystander(s, key, id) ==> id in a.entries && a.entries[id] == s.entries[id])
  {
    hide Inv;
    hide Admit;
    hide Minus;
    AdmitEffect(s, key, value, charge);
    FreshId(s);
    assert s.deleted + [] == s.deleted;
  }

  lemma FreshId(s: Cache)
    requires Inv(s, {})
    ensures s.next !in s.lru && s.next !in s.entries
  {
    hide Sum;
    hide Tabled;
    hide Ordered;
  }

  // An idle entry after admission was there before.
  lemma NotNew(s: Cache, key: Key, value: nat, charge: nat, id: Id)
    requires Inv(s, {}) && id in Admit(s, key, value, charge).lru
    ensures id in s.entries && id in Admit(s, key, value, charge).entries
    ensures Admit(s, key, value, charge).entries[id] == s.entries[id]
  {
    hide Sum;
    hide Admit;
    hide Ordered;
    hide Accounted;
    hide Minus;
    var old_ := if key in s.table then s.table[key] else s.next;
    AdmitShape(s, key, value, charge);
    FreshId(s);
    assert id in s.lru && id != old_ by {
      if old_ in s.lru {
        MinusMembers(s.lru, old_);
      }
    }
    assert Bystander(s, key, id);
  }

  // Taking the new entry out again changes no other one.
  lemma EraseShape(s: Cache, key: Key, id: Id)
    requires Inv(s, {}) && key in s.table && s.table[key] == id && id in s.entries && s.entries[id].refs >= 2
    ensures var t := Erase(s, key);
            && t.lru == s.lru && t.deleted == s.deleted && t.table == s.table - {key}
            && t.usage == s.usage - s.entries[id].charge
            && (forall x :: x in s.entries && x != id ==> x in t.entries && t.entries[x] == s.entries[x])
  {
    hide Inv;
    hide Erase;
    EraseEffect(s, key);
    NotIdle(s, id);
  }

  // ------------------------------------------------------------------
  // Lookup
  // ------------------------------------------------------------------

  /** Looking up a key that leads to an entry gives the client one more reference to it; it is
      idle no more, and nothing else changes. Any other key changes nothing. */
  lemma LookupEffect(s: Cache, key: Key)
    requires Inv(s, {})
    ensures var t := Lookup(s, key);
            && t.table == s.table && t.deleted == s.deleted && t.usage == s.usage
            && if key in s.table
               then var id := s.table[key];
                    && id in s.entries && s.entries[id].key == key
                    && t.entries == s.entries[id := s.entries[id].(refs := s.entries[id].refs + 1)]
                    && t.lru == Others(s.lru, id) && id in t.inUse
               else t == s
  {
    hide Sum;
    hide Accounted;
    hide Ordered;
    hide Minus;
    if key in s.table {
      Unlisted(s.table, s.entries, key);
      Exclusive(s, s.table[key]);
    }
  }

  /** A lookup right after an insertion finds what was inserted if it was cached, and nothing
      else. */
  lemma InsertThenLookup(s: Cache, key: Key, value: nat, charge: nat)
    requires Inv(s, {}) && Bounded(s) && s.capacity > 0
    ensures var t := Insert(s, key, value, charge);
            && Inv(t, {})
            && var u := Lookup(t, key);
            && (Fits(s, key, charge) ==> s.next in u.entries && u.entries[s.next] == Entry(key, value, charge, 3, true))
            && (!Fits(s, key, charge) ==> u == t)
  {
    hide Inv;
    hide Insert;
    hide Lookup;
    hide Fits;
    InsertKeeps(s, key, value, charge);
    InsertCachedIff(s, key, value, charge);
    LookupEffect(Insert(s, key, value, charge), key);
  }

  // ------------------------------------------------------------------
  // References
  // ------------------------------------------------------------------

  // The references that clients have to an entry.
  function ClientRefs(s: Cache, id: Id): int {
    if id in s.entries then s.entries[id].refs - (if s.entries[id].inCache then 1 else 0) else 0
  }

  // The references that an operation gives to a client, or takes back.
  function Taken(s: Cache, op: Operation, id: Id): int {
    match op
    case DoInsert(_, _, _) => if id == s.next then 1 else 0
    case DoLookup(key) => if key in s.table && s.table[key] == id then 1 else 0
    case DoRef(x) => if x == id then 1 else 0
    case DoRelease(x) => if x == id then -1 else 0
    case _ => 0
  }

  lemma GaveUpRefs(s: Cache, t: Cache, id: Id, x: Id)
    requires GaveUp(s, t, id) && s.entries[id].inCache && (id in s.lru ==> s.entries[id].refs == 1)
    ensures ClientRefs(t, x) == ClientRefs(s, x)
  {
  }

  lemma EraseRefs(s: Cache, key: Key, x: Id)
    requires Inv(s, {})
    ensures ClientRefs(Erase(s, key), x) == ClientRefs(s, x)
  {
    hide Inv;
    hide Erase;
    hide GaveUp;
    EraseEffect(s, key);
    if key in s.table {
      var id := s.table[key];
      TableIdle(s, key);
      GaveUpRefs(s, Erase(s, key), id, x);
    }
  }

  lemma TableIdle(s: Cache, key: Key)
    requires Inv(s, {}) && key in s.table
    ensures var id := s.table[key];
            id in s.entries && s.entries[id].inCache && (id in s.lru ==> s.entries[id].refs == 1)
  {
    hide Sum;
    hide Accounted;
    hide Ordered;
    Unlisted(s.table, s.entries, key);
    Exclusive(s, s.table[key]);
  }

  lemma EvictRefs(s: Cache, bound: int, x: Id)
    requires Inv(s, {})
    ensures ClientRefs(Evict(s, bound), x) == ClientRefs(s, x)
  {
    hide Sum;
    hide Tabled;
    hide Accounted;
    hide Ordered;
    hide Evict;
    var k := EvictSpec(s, bound);
    if x in Ids(s.lru[..k]) {
      assert x in s.lru;
    }
  }

  lemma InsertRefs(s: Cache, key: Key, value: nat, charge: nat, x: Id)
    requires Inv(s, {})
    ensures ClientRefs(Insert(s, key, value, charge), x) == ClientRefs(s, x) + if x == s.next then 1 else 0
  {
    hide Inv;
    hide Erase;
    hide Evict;
    hide Admit;
    FreshId(s);
    if s.capacity > 0 {
      AdmitRefs(s, key, value, charge, x);
      AdmitKeeps(s, key, value, charge);
      var a := Admit(s, key, value, charge);
      EvictRefs(a, s.capacity, x);
      var k := EvictSpec(a, s.capacity);
      EraseRefs(Evict(a, s.capacity), key, x);
    }
  }

  lemma AdmitRefs(s: Cache, key: Key, value: nat, charge: nat, x: Id)
    requires Inv(s, {})
    ensures ClientRefs(Admit(s, key, value, charge), x) == ClientRefs(s, x) + if x == s.next then 1 else 0
  {
    hide Inv;
    hide Admit;
    hide GaveUp;
    FreshId(s);
    AdmitEffect(s, key, value, charge);
    if key in s.table {
      TableIdle(s, key);
      GaveUpRefs(Make(s, key, value, charge, true), Admit(s, key, value, charge), s.table[key], x);
    }
  }

  /** Operations count references exactly: each gives and takes those that it should and
      leaves all others alone. */
  lemma StepRefs(s: Cache, op: Operation, id: Id)
    requires Inv(s, {}) && Allowed(s, op)
    ensures ClientRefs(Step(s, op), id) == ClientRefs(s, id) + Taken(s, op, id)
  {
    hide Inv;
    hide Erase;
    hide Evict;
    hide Insert;
    match op
    case DoInsert(key, value, charge) => InsertRefs(s, key, value, charge, id);
    case DoLookup(key) =>
      if key in s.table {
        TableIdle(s, key);
      }
    case DoRef(x) =>
    case DoRelease(x) =>
    case DoErase(key) => EraseRefs(s, key, id);
    case DoEraseEntry(x) => EraseRefs(s, s.entries[x].key, id);
    case DoPrune => EvictRefs(s, -1, id);
  }

  // What a run gives to clients, less what they give back.
  ghost function Balance(s: Cache, ops: seq<Operation>, id: Id): int
    requires Inv(s, {}) && Bounded(s)
    decreases |ops|
  {
    if ops == [] || !Allowed(s, ops[0]) then 0
    else
      StepKeeps(s, ops[0]);
      Taken(s, ops[0], id) + Balance(Step(s, ops[0]), ops[1..], id)
  }

  /** Over every run from an empty cache, clients have as many references to an entry as they
      were given and did not release; as long as that is more than none, the entry is live. */
  lemma RunRefs(capacity: nat, ops: seq<Operation>, t: Cache, id: Id)
    requires Runs(Empty(capacity), ops, t)
    ensures Inv(Empty(capacity), {}) && Bounded(Empty(capacity))
    ensures ClientRefs(t, id) == Balance(Empty(capacity), ops, id)
    ensures Balance(Empty(capacity), ops, id) > 0 ==> id in t.entries && id !in t.deleted
  {
    EmptyInv(capacity);
    RunBalance(Empty(capacity), ops, t, id);
    RunKeeps(Empty(capacity), ops, t);
  }

  lemma {:induction false} RunBalance(s: Cache, ops: seq<Operation>, t: Cache, id: Id)
    requires Inv(s, {}) && Bounded(s) && Runs(s, ops, t)
    ensures ClientRefs(t, id) == ClientRefs(s, id) + Balance(s, ops, id)
    decreases |ops|
  {
    hide Inv;
    hide Bounded;
    hide ClientRefs;
    hide Taken;
    if ops == [] {
    } else {
      StepKeeps(s, ops[0]);
      StepRefs(s, ops[0], id);
      RunBalance(Step(s, ops[0]), ops[1..], t, id);
    }
  }
}
