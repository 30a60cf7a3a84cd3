/**
 How a client finds the server for a name: it guesses from the index it has, learns
 from the index that a wrong server sends back, and gives up after a fixed number of
 redirects. Listing a directory asks every server that holds a part of it.
 */
module GigaRouting {
  import opened Coding
  import opened GigaMath
  import opened GigaHash
  import opened GigaIndex
  import opened GigaRep
  import opened GigaDirIndex
  import opened GigaClient

  ghost predicate HealthyValue(v: IndexValue) {
    Healthy(v.idx) && v.zeroth < 65536
  }

  function MergeValues(a: IndexValue, b: IndexValue): IndexValue {
    IndexValue(a.zeroth, Index(a.idx.bits + b.idx.bits, MaxRadix(a.idx.radix, b.idx.radix)))
  }

  // Loading an index from a server: what arrives is what was sent.
  method FetchIndex(remote: DirIndex, zserver: nat) returns (idx: DirIndex, ok: bool)
    requires remote.Valid() && remote.rep != null
    ensures fresh(idx) && idx.Valid() && idx.rep != null
    ensures idx.Value() == remote.Value()
    ensures ok <==> remote.rep.zeroth == zserver
  {
    var bytes := remote.rep.Encode();
    BitmapSizeMono(remote.rep.radix, MAX_RADIX);
    idx := new DirIndex(remote.numServers, remote.virtualServers, remote.paranoid);
    ghost var bits := remote.rep.Bits();
    assert {0} + bits == bits;
    var updated := idx.Update(bytes);
    ok := updated && idx.rep.zeroth == zserver;
  }

  // A server serves a name if its own index says so.
  predicate Serves(servers: seq<IndexValue>, server: nat, hv: nat)
    requires server < |servers|
  {
    ServerOf(servers[server], hv, |servers|) == server
  }

  // All servers have the same index, and the client has a part of it.
  ghost predicate Converged(servers: seq<IndexValue>, current: IndexValue, client: IndexValue) {
    && (forall i :: 0 <= i < |servers| ==> servers[i] == current)
    && HealthyValue(current) && HealthyValue(client)
    && client.zeroth == current.zeroth
    && client.idx.bits <= current.idx.bits
  }

  lemma MergeCatchesUp(current: IndexValue, client: IndexValue)
    requires HealthyValue(current) && HealthyValue(client)
    requires client.zeroth == current.zeroth && client.idx.bits <= current.idx.bits
    ensures MergeValues(client, current) == current
  {
    MergeLaws(1, client.idx, current.idx, current.idx);
  }

  /** The redirect loop. It makes at most "maxRedirects" calls and only stops successfully
      at a server that serves the name; when the servers agree and the client lags behind,
      the second call is always the last. */
  method SendRequest(idx: IndexValue, hv: nat, servers: seq<IndexValue>, maxRedirects: nat)
    returns (ok: bool, server: nat, calls: seq<nat>)
    requires |servers| >= 1 && maxRedirects >= 1
    ensures 1 <= |calls| <= maxRedirects
    ensures forall i :: 0 <= i < |calls| ==> calls[i] < |servers|
    ensures server == calls[|calls| - 1] < |servers|
    ensures ok <==> Serves(servers, server, hv)
    ensures forall i :: 0 <= i < |calls| - 1 ==> !Serves(servers, calls[i], hv)
    ensures calls[0] == ServerOf(idx, hv, |servers|)
    ensures forall current :: maxRedirects >= 2 && Converged(servers, current, idx) ==>
              ok && |calls| <= 2 && server == ServerOf(current, hv, |servers|)
  {
    var latest := idx;
    var remaining := maxRedirects;
    calls := [];
    ok := false;
    server := 0;
    while true
      invariant 1 <= remaining && |calls| + remaining == maxRedirects
      invariant calls == [] ==> latest == idx
      invariant forall i :: 0 <= i < |calls| ==> calls[i] < |servers| && !Serves(servers, calls[i], hv)
      invariant calls != [] ==> calls[0] == ServerOf(idx, hv, |servers|)
      invariant forall current :: Converged(servers, current, idx) ==>
                  |calls| <= 1 && (calls != [] ==> latest == current)
      decreases remaining
    {
      server := ServerOf(latest, hv, |servers|);
      calls := calls + [server];
      if ServerOf(servers[server], hv, |servers|) == server {
        ok := true;
        return;
      }
      var redirect := servers[server];
      remaining := remaining - 1;
      if remaining == 0 || redirect.zeroth != latest.zeroth {
        ok := false;
        return;
      }
      forall current | Converged(servers, current, idx)
        ensures |calls| <= 1 && MergeValues(latest, redirect) == current
      {
        MergeCatchesUp(current, idx);
      }
      latest := MergeValues(latest, redirect);
    }
  }

  // The servers that hold a partition with a number below n.
  ghost predicate Holds(v: IndexValue, n: nat, numServers: nat, server: nat)
    requires numServers > 0
  {
    exists i :: i in v.idx.bits && i < n && MapIndexToServer(i, v.zeroth, numServers) == server
  }

  lemma HoldsNext(v: IndexValue, n: nat, numServers: nat)
    requires numServers > 0
    ensures forall s: nat :: Holds(v, n + 1, numServers, s) <==>
              Holds(v, n, numServers, s) || (n in v.idx.bits && s == MapIndexToServer(n, v.zeroth, numServers))
  {
    forall s: nat ensures Holds(v, n + 1, numServers, s) <==>
              Holds(v, n, numServers, s) || (n in v.idx.bits && s == MapIndexToServer(n, v.zeroth, numServers))
    {
      if Holds(v, n + 1, numServers, s) {
        var i :| i in v.idx.bits && i < n + 1 && MapIndexToServer(i, v.zeroth, numServers) == s;
        assert i == n || Holds(v, n, numServers, s);
      }
      if Holds(v, n, numServers, s) {
        var i :| i in v.idx.bits && i < n && MapIndexToServer(i, v.zeroth, numServers) == s;
        assert i < n + 1;
      }
    }
  }

  lemma FullCover(visited: set<nat>, n: nat)
    requires (forall s :: s in visited ==> s < n) && |visited| >= n
    ensures forall s: nat :: s < n ==> s in visited
  {
    var all := Below(n);
    BelowSize(n);
    assert visited <= all;
    assert all == visited + (all - visited);
    assert |all| == |visited| + |all - visited|;
  }

  lemma {:induction false} BelowSize(n: nat)
    ensures |Below(n)| == n
  {
    if n == 0 {
      assert Below(0) == {};
    } else {
      BelowSize(n - 1);
      assert Below(n) == Below(n - 1) + {n - 1};
    }
  }

  /** Listing contacts exactly the servers that hold a partition, each of them once. */
  method Listdir(v: IndexValue, numServers: nat) returns (contacted: seq<nat>)
    requires HealthyValue(v) && numServers >= 1
    ensures forall s: nat :: s in contacted <==> Holds(v, Pow2(v.idx.radix), numServers, s)
    ensures forall a, b :: 0 <= a < b < |contacted| ==> contacted[a] != contacted[b]
  {
    contacted := [];
    var visited: set<nat> := {};
    var numParts := Pow2(v.idx.radix);
    var i := 0;
    while i < numParts
      invariant 0 <= i <= numParts
      invariant forall s: nat :: s in visited <==> s in contacted
      invariant forall s: nat :: s in contacted <==> Holds(v, i, numServers, s)
      invariant forall a, b :: 0 <= a < b < |contacted| ==> contacted[a] != contacted[b]
    {
      HoldsNext(v, i, numServers);
      if i in v.idx.bits {
        var server := MapIndexToServer(i, v.zeroth, numServers);
        if server !in visited {
          contacted := contacted + [server];
          visited := visited + {server};
          if |visited| >= numServers {
            EarlyExit(v, i + 1, numServers, visited);
            return;
          }
        }
      }
      i := i + 1;
    }
  }

  // Once every server has been asked, the remaining partitions add none.
  lemma EarlyExit(v: IndexValue, n: nat, numServers: nat, visited: set<nat>)
    requires HealthyValue(v) && numServers >= 1 && n <= Pow2(v.idx.radix)
    requires (forall s: nat :: s in visited <==> Holds(v, n, numServers, s)) && |visited| >= numServers
    ensures forall s: nat :: s in visited <==> Holds(v, Pow2(v.idx.radix), numServers, s)
  {
    FullCover(visited, numServers);
    forall s: nat | Holds(v, Pow2(v.idx.radix), numServers, s) ensures s in visited {
      assert s < numServers;
    }
    forall s: nat | s in visited ensures Holds(v, Pow2(v.idx.radix), numServers, s) {
      var i :| i in v.idx.bits && i < n && MapIndexToServer(i, v.zeroth, numServers) == s;
      assert i < Pow2(v.idx.radix);
    }
  }
}
