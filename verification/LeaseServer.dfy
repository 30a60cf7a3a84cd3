/**
 The mutex-held sections of the metadata server that touch leases, with the
 server's state updated in place. Each section is proved to take the step that the
 protocol prescribes, so the results about runs apply to it.
 */
module LeaseServer {
  import opened Coding
  import opened LeaseProtocol

  class Server {
    const c: Config
    var now: nat
    var sn: nat
    var leases: map<Name, Lease>
    var others: set<Name>
    var order: seq<Key>
    var held: set<Name>
    var db: Db
    var tx: Option<Db>
    var writer: Writer
    var readers: map<nat, Reader>
    ghost var grants: set<Grant>
    ghost var pubs: map<Name, Pub>

    ghost function View(): State
      reads this
    {
      State(now, sn, leases, others, order, held, db, tx, writer, readers, grants, pubs)
    }

    /** Find the lease on "n", or install a new one, if need be in place of the entry
        that was released first of those nobody holds. */
    method AcquireLease(n: Name) returns (lease: Lease, cached: bool)
      modifies this`leases, this`others, this`order
      ensures Acquire(c, old(View()), n) == Slot(lease, Table(leases, others, order), cached)
    {
      hide Without;
      if n in leases {
        order := Without(order, Own(n));
        return leases[n], true;
      }
      lease, cached := NEW_LEASE, true;
      if c.policy.AsCoded? && |leases| + |others| >= c.policy.capacity {
        if c.policy.capacity == 0 || order == [] {
          return NEW_LEASE, false;
        }
        DropOldest();
      }
      leases := leases[n := lease];
    }

    method DropOldest()
      requires order != []
      modifies this`leases, this`others, this`order
      ensures Table(leases, others, order) == DropFirst(old(TableOf(View())))
    {
      match order[0] {
        case Own(m) => leases := leases - {m};
        case Other(m) => others := others - {m};
      }
      order := order[1..];
    }

    // Write the lease back and let go of it, unless a writer holds on to it.
    method PutBack(n: Name, l: Lease, cached: bool, pinned: bool, ghost slot: Slot)
      requires slot.cached == cached && slot.table == Table(leases, others, order)
      modifies this`leases, this`order
      ensures Table(leases, others, order) == if pinned then Store(slot, n, l) else Release(slot, n, l)
    {
      if cached {
        leases := leases[n := l];
        if !pinned {
          order := order + [Own(n)];
        }
      }
    }

    // Renew a lease for a reader, unless the reader has been overtaken or a writer waits.
    method RenewLease(lease: Lease, k: nat) returns (l: Lease, leaseDue: nat)
      ensures l == Extend(c, View(), lease, k)
      ensures leaseDue == if lease.sn <= k then l.due else 0
    {
      l, leaseDue := lease, 0;
      if l.sn <= k {
        if l.state != Locked {
          l := l.(state := Shared, due := now + c.duration);
        }
        leaseDue := l.due;
      }
    }

    /** The closing section of Lookup. A reader that was not overtaken and is in time gets a
        lease of the full duration, or what is left of it if a writer waits; a due time of 0
        means that no lease is given. */
    method CloseLookup(tid: nat) returns (leaseDue: nat)
      requires tid in readers && readers[tid].Fetched?
      modifies this
      ensures View() == EndLookup(c, old(View()), tid)
      ensures var r := old(readers[tid]);
              leaseDue > 0 ==> IsDirNode(r.node) && Grant(r.name, r.node.value.ver, leaseDue) in grants
      ensures var r := old(readers[tid]);
              var l := Acquire(c, old(View()), r.name).lease;
              leaseDue == if IsDirNode(r.node) && InTime(c, old(View()), r.start) && l.sn <= r.sn
                          then (if l.state == Locked then l.due else old(now) + c.duration) else 0
    {
      hide Acquire;
      hide Store;
      hide Release;
      var r := readers[tid];
      leaseDue := 0;
      if r.node.Some? && r.node.value.isDir && now - r.start < TimeLimit(c) {
        leaseDue := GiveLease(r.name, r.node.value.ver, r.sn);
      }
      readers := readers - {tid};
    }

    // Give a lease on version "ver" to a reader that started at sequence number "k".
    method GiveLease(n: Name, ver: nat, k: nat) returns (leaseDue: nat)
      modifies this`leases, this`others, this`order, this`grants
      ensures var slot := Acquire(c, old(View()), n);
              var l := Extend(c, old(View()), slot.lease, k);
              && Table(leases, others, order) ==
                 (if Pinned(old(View()), n) then Store(slot, n, l) else Release(slot, n, l))
              && leaseDue == (if slot.lease.sn <= k then l.due else 0)
              && grants == old(grants) + (if slot.lease.sn <= k then {Grant(n, ver, l.due)} else {})
    {
      hide Acquire;
      hide Store;
      hide Release;
      var lease, cached := AcquireLease(n);
      var l, due := RenewLease(lease, k);
      leaseDue := due;
      if lease.sn <= k {
        grants := grants + {Grant(n, ver, due)};
      }
      PutBack(n, l, cached, writer.Waiting? && writer.name == n,
              Slot(lease, Table(leases, others, order), cached));
    }

    // The closing section of a write operation, up to its end or to the wait for a lease.
    method CloseWrite()
      requires writer.Done?
      modifies this
      ensures View() == EndWrite(c, old(View()))
    {
      hide Acquire;
      hide Release;
      if writer.ok && writer.op.Uperm? && writer.op.name in db && db[writer.op.name].isDir {
        var n := writer.op.name;
        var lease, cached := AcquireLease(n);
        if lease.state == Shared && lease.due > now {
          if cached {
            leases := leases[n := lease.(state := Locked)];
          }
          writer := Waiting(n, now + (lease.due - now + 10));
          return;
        }
        PublishChange(n, cached, Slot(lease, Table(leases, others, order), cached));
      }
      writer, tx := Idle, None;
    }

    // Stamp the lease with a new sequence number, free it and let go of it.
    method PublishChange(n: Name, cached: bool, ghost slot: Slot)
      requires n in db
      requires slot.cached == cached && slot.table == Table(leases, others, order)
      modifies this`sn, this`pubs, this`leases, this`order
      ensures sn == old(sn) + 1
      ensures Table(leases, others, order) == Release(slot, n, Lease(Free, now + c.duration, sn))
      ensures pubs == old(pubs)[n := Pub(db[n].ver, sn, now)]
    {
      hide Release;
      sn := 1 + sn;
      pubs := pubs[n := Pub(db[n].ver, sn, now)];
      PutBack(n, Lease(Free, now + c.duration, sn), cached, false, slot);
    }

    // The writer wakes up after the lease it was waiting for has run out.
    method Wake()
      requires writer.Waiting? && now >= writer.wake && writer.name in leases && writer.name in db
      modifies this
      ensures View() == EndWait(c, old(View()))
    {
      PublishChange(writer.name, true, Slot(leases[writer.name], Table(leases, others, order), true));
      writer, tx := Idle, None;
    }
  }
}
