/** The older root package (peer_store.go, peer_service.go, peer.go): a store
    of peers keyed by name with overwrite semantics, and a service around it
    with a cluster-name filter and connection teardown. */
module Legacy {
  import opened Types
  import Service

  /** The root package's `Peer{Name, ClusterName, Addr, conn}`. */
  datatype LegacyPeer = LegacyPeer(name: string, clusterName: string, addr: string, conn: Option<ConnId>)

  /** The stored peers named by `order`, in that order. */
  function ListedPeers(peers: map<string, LegacyPeer>, order: seq<string>): (r: seq<LegacyPeer>)
    requires forall i :: 0 <= i < |order| ==> order[i] in peers
    ensures |r| == |order| && forall i :: 0 <= i < |order| ==> r[i] == peers[order[i]]
  {
    seq(|order|, i requires 0 <= i < |order| => peers[order[i]])
  }

  /** A listing of all names lists every stored peer exactly once: the stored
      peers are exactly the listed ones. */
  lemma ListedPeersAreStored(peers: map<string, LegacyPeer>, order: seq<string>)
    requires Listing(order, peers.Keys)
    ensures forall q :: q in ListedPeers(peers, order) <==> q in peers.Values
  {
    var r := ListedPeers(peers, order);
    forall q | q in peers.Values ensures q in r {
      var n :| n in peers && peers[n] == q;
      assert n in (set x | x in order);
      var i :| 0 <= i < |order| && order[i] == n;
      assert r[i] == q;
    }
  }

  class LegacyPeerStore {
    var peers: map<string, LegacyPeer>

    /** Every peer is stored under its own name. */
    ghost predicate Valid()
      reads this
    {
      forall n :: n in peers ==> peers[n].name == n
    }

    constructor ()
      ensures peers == map[] && Valid()
    {
      peers := map[];
    }

    /** `AddPeer`: stores `p` under its name, replacing any peer of that name. */
    method AddPeer(p: LegacyPeer)
      modifies this
      ensures peers == old(peers)[p.name := p]
      ensures old(Valid()) ==> Valid()
    {
      peers := peers[p.name := p];
    }

    /** `RemovePeer`: drops the entry under `p`'s name, if any. */
    method RemovePeer(p: LegacyPeer)
      modifies this
      ensures peers == old(peers) - {p.name}
      ensures old(Valid()) ==> Valid()
      ensures Valid() ==> forall n :: n in peers ==> peers[n].name != p.name
    {
      peers := peers - {p.name};
    }

    /** `GetPeer`: the peer stored under `name`, or none. */
    method GetPeer(name: string) returns (r: Option<LegacyPeer>)
      ensures r.Some? <==> name in peers
      ensures r.Some? ==> r.value == peers[name]
    {
      if name in peers {
        r := Some(peers[name]);
      } else {
        r := None;
      }
    }

    /** `GetAllPeers`: every stored peer once, in the map's iteration order
        `order`. */
    method GetAllPeers() returns (r: seq<LegacyPeer>, ghost order: seq<string>)
      ensures Listing(order, peers.Keys)
      ensures r == ListedPeers(peers, order)
      ensures forall q :: q in r <==> q in peers.Values
      ensures |r| == |peers|
    {
      r := [];
      order := [];
      var rest := peers.Keys;
      while rest != {}
        invariant rest <= peers.Keys
        invariant Listing(order, peers.Keys - rest)
        invariant |r| == |order|
        invariant forall i :: 0 <= i < |order| ==> order[i] in peers && r[i] == peers[order[i]]
        decreases rest
      {
        var n :| n in rest;
        ListingExtend(order, peers.Keys, rest, n);
        r := r + [peers[n]];
        order := order + [n];
        rest := rest - {n};
      }
      ListingSize(order, peers.Keys);
      ListedPeersAreStored(peers, order);
    }
  }

  /** What `Disconnect(p)` returns: it looks `p.Addr` up as a NAME; a missing
      entry or an entry without a handle gives no error, otherwise the error of
      closing that entry's handle. */
  function DisconnectOutcome(peers: map<string, LegacyPeer>, p: LegacyPeer, closeErr: ConnId -> Option<Error>)
    : (r: Option<Error>)
    ensures p.addr !in peers || peers[p.addr].conn.None? ==> r == None
    ensures p.addr in peers && peers[p.addr].conn.Some? ==> r == closeErr(peers[p.addr].conn.value)
    ensures r.Some? ==> p.addr in peers && peers[p.addr].conn.Some?
  {
    if p.addr !in peers then None
    else if peers[p.addr].conn.None? then None
    else closeErr(peers[p.addr].conn.value)
  }

  /** The result of `DisconnectAll` over the list `ps`: the first error of a
      `Disconnect`, or none when all succeed. */
  function FirstDisconnectError(peers: map<string, LegacyPeer>, ps: seq<LegacyPeer>, closeErr: ConnId -> Option<Error>)
    : (r: Option<Error>)
    ensures r.None? <==> forall i :: 0 <= i < |ps| ==> DisconnectOutcome(peers, ps[i], closeErr).None?
    ensures r.Some? ==> exists k :: 0 <= k < |ps| && DisconnectOutcome(peers, ps[k], closeErr) == r
                          && forall j :: 0 <= j < k ==> DisconnectOutcome(peers, ps[j], closeErr).None?
    decreases |ps|
  {
    if ps == [] then None
    else
      var e := DisconnectOutcome(peers, ps[0], closeErr);
      if e.Some? then e
      else
        var rest := FirstDisconnectError(peers, ps[1..], closeErr);
        assert forall i :: 1 <= i < |ps| ==> ps[i] == ps[1..][i - 1];
        if rest.Some? then
          var k :| 0 <= k < |ps[1..]| && DisconnectOutcome(peers, ps[1..][k], closeErr) == rest
                   && forall j :: 0 <= j < k ==> DisconnectOutcome(peers, ps[1..][j], closeErr).None?;
          assert DisconnectOutcome(peers, ps[k + 1], closeErr) == rest;
          rest
        else
          rest
  }

  /** Over a full listing, whatever the order: there is no error exactly when
      every stored peer disconnects cleanly, and any error is that of some
      stored peer. */
  lemma FirstErrorOverStored(peers: map<string, LegacyPeer>, order: seq<string>, closeErr: ConnId -> Option<Error>)
    requires Listing(order, peers.Keys)
    ensures var e := FirstDisconnectError(peers, ListedPeers(peers, order), closeErr);
            && (e.None? <==> forall q :: q in peers.Values ==> DisconnectOutcome(peers, q, closeErr).None?)
            && (e.Some? ==> exists q :: q in peers.Values && DisconnectOutcome(peers, q, closeErr) == e)
  {
    var ps := ListedPeers(peers, order);
    ListedPeersAreStored(peers, order);
    assert forall q :: q in ps <==> exists i :: 0 <= i < |ps| && ps[i] == q;
  }

  /** The peers of `ps` in cluster `cluster`, in list order. */
  function ClusterPeers(ps: seq<LegacyPeer>, cluster: string): (r: seq<LegacyPeer>)
    ensures forall q :: q in r <==> q in ps && q.clusterName == cluster
  {
    Filter(ps, (q: LegacyPeer) => q.clusterName == cluster)
  }

  class LegacyPeerService {
    const self: LegacyPeer
    const store: LegacyPeerStore

    constructor (self: LegacyPeer)
      ensures this.self == self && fresh(store) && store.peers == map[] && store.Valid()
    {
      this.self := self;
      store := new LegacyPeerStore();
    }

    /** `AddPeer`, delegated to the store. */
    method AddPeer(p: LegacyPeer)
      modifies store
      ensures store.peers == old(store.peers)[p.name := p]
      ensures old(store.Valid()) ==> store.Valid()
    {
      store.AddPeer(p);
    }

    /** `RemovePeer`, delegated to the store: afterwards no stored peer is
        named `p.name`, so `GetPeers` lists none. */
    method RemovePeer(p: LegacyPeer)
      modifies store
      ensures store.peers == old(store.peers) - {p.name}
      ensures old(store.Valid()) ==> store.Valid() && forall q :: q in store.peers.Values ==> q.name != p.name
    {
      store.RemovePeer(p);
    }

    /** `GetPeer`, delegated to the store. */
    method GetPeer(name: string) returns (r: Option<LegacyPeer>)
      ensures r.Some? <==> name in store.peers
      ensures r.Some? ==> r.value == store.peers[name]
    {
      r := store.GetPeer(name);
    }

    /** `GetPeers`: all stored peers, in iteration order. */
    method GetPeers() returns (r: seq<LegacyPeer>, ghost order: seq<string>)
      ensures Listing(order, store.peers.Keys)
      ensures r == ListedPeers(store.peers, order)
      ensures forall q :: q in r <==> q in store.peers.Values
    {
      r, order := store.GetAllPeers();
    }

    /** `GetClusterPeers`: the stored peers of this node's cluster, in
        iteration order; every stored peer of the cluster is among them. */
    method GetClusterPeers() returns (r: seq<LegacyPeer>, ghost order: seq<string>)
      ensures Listing(order, store.peers.Keys)
      ensures r == ClusterPeers(ListedPeers(store.peers, order), self.clusterName)
      ensures forall q :: q in r <==> q in store.peers.Values && q.clusterName == self.clusterName
    {
      var peers;
      peers, order := store.GetAllPeers();
      r := [];
      for i := 0 to |peers|
        invariant r == ClusterPeers(peers[..i], self.clusterName)
      {
        assert peers[..i + 1][..i] == peers[..i] && peers[..i + 1][i] == peers[i];
        if peers[i].clusterName == self.clusterName {
          r := r + [peers[i]];
        }
      }
      assert peers[..|peers|] == peers;
    }

    /** `Connect`: dials `p.addr`; a dial error is returned with no handle. */
    method Connect(p: LegacyPeer, dial: string -> Service.Dial) returns (conn: Option<ConnId>, err: Option<Error>)
      ensures dial(p.addr).err.Some? ==> conn == None && err == dial(p.addr).err
      ensures dial(p.addr).err.None? ==> conn == dial(p.addr).conn && err == None
    {
      var d := dial(p.addr);
      if d.err.Some? {
        return None, d.err;
      }
      return d.conn, None;
    }

    /** `Disconnect`; the store is not changed. */
    method Disconnect(p: LegacyPeer, closeErr: ConnId -> Option<Error>) returns (err: Option<Error>)
      ensures err == DisconnectOutcome(store.peers, p, closeErr)
    {
      var peer := GetPeer(p.addr);
      if peer.None? {
        return None;
      }
      if peer.value.conn.Some? {
        return closeErr(peer.value.conn.value);
      }
      return None;
    }

    /** `DisconnectAll`: disconnects the listed peers in order and stops at the
        first error, which it returns. */
    method DisconnectAll(closeErr: ConnId -> Option<Error>) returns (err: Option<Error>, ghost order: seq<string>)
      ensures Listing(order, store.peers.Keys)
      ensures err == FirstDisconnectError(store.peers, ListedPeers(store.peers, order), closeErr)
      ensures err.None? <==> forall q :: q in store.peers.Values ==> DisconnectOutcome(store.peers, q, closeErr).None?
      ensures err.Some? ==> exists q :: q in store.peers.Values && DisconnectOutcome(store.peers, q, closeErr) == err
    {
      var peers;
      peers, order := GetPeers();
      FirstErrorOverStored(store.peers, order, closeErr);
      var i := 0;
      while i < |peers|
        invariant 0 <= i <= |peers|
        invariant FirstDisconnectError(store.peers, peers, closeErr)
                  == FirstDisconnectError(store.peers, peers[i..], closeErr)
      {
        assert peers[i..][1..] == peers[i + 1..];
        err := Disconnect(peers[i], closeErr);
        if err.Some? {
          return;
        }
        i := i + 1;
      }
      err := None;
    }
  }
}
