/** The discovery engine of discovery/discovery.go: one scan (ask every listed
    peer for its neighbours and merge the answers), the self-filter applied
    before merging, and the choice of peers that refresh tries to reconnect.
    The endless loop, its sleep and refresh's goroutines are not modelled. */
module Discovery {
  import opened Types
  import opened Address
  import opened Store
  import opened Service

  /** The addresses occurring in `ps`. */
  function Addrs(ps: seq<Peer>): set<string>
  {
    set p | p in ps :: p.addr
  }

  /** No two peers of `ps` share an address. */
  ghost predicate DistinctAddrs(ps: seq<Peer>)
  {
    forall i, j :: 0 <= i < j < |ps| ==> ps[i].addr != ps[j].addr
  }

  /** `removeDuplicatePeers`: keeps the first peer seen for each address, in
      input order. The result has pairwise distinct addresses, loses no address,
      and is no longer than the input. */
  function Dedupe(ps: seq<Peer>): (r: seq<Peer>)
    ensures DistinctAddrs(r)
    ensures Addrs(r) == Addrs(ps)
    ensures |r| <= |ps|
    ensures forall q :: q in r ==> q in ps
  {
    if ps == [] then []
    else
      var init := ps[..|ps| - 1];
      var last := ps[|ps| - 1];
      var d := Dedupe(init);
      assert forall q :: q in ps <==> q in init || q == last;
      assert Addrs(ps) == Addrs(init) + {last.addr};
      if last.addr in Addrs(d) then d
      else
        assert forall i :: 0 <= i < |d| ==> d[i] in d;
        assert forall q :: q in d + [last] <==> q in d || q == last;
        assert Addrs(d + [last]) == Addrs(d) + {last.addr};
        d + [last]
  }

  /** The result grows only at its end: deduplicating a prefix of the input
      gives a prefix of the result, so earlier first occurrences come first. */
  lemma {:induction false} DedupePrefix(ps: seq<Peer>, n: nat)
    requires n <= |ps|
    ensures Dedupe(ps[..n]) <= Dedupe(ps)
    decreases |ps|
  {
    if n < |ps| {
      assert ps[..|ps| - 1][..n] == ps[..n];
      DedupePrefix(ps[..|ps| - 1], n);
    } else {
      assert ps[..n] == ps;
    }
  }

  /** Each kept peer is the first occurrence of its address in the input. */
  lemma {:induction false} DedupeKeepsFirstOccurrences(ps: seq<Peer>, k: nat)
    requires k < |Dedupe(ps)|
    ensures exists i :: 0 <= i < |ps| && ps[i] == Dedupe(ps)[k]
                        && forall j :: 0 <= j < i ==> ps[j].addr != ps[i].addr
    decreases |ps|
  {
    var init := ps[..|ps| - 1];
    var last := ps[|ps| - 1];
    var d := Dedupe(init);
    if k < |d| {
      DedupeKeepsFirstOccurrences(init, k);
      var i :| 0 <= i < |init| && init[i] == d[k] && forall j :: 0 <= j < i ==> init[j].addr != init[i].addr;
      assert Dedupe(ps)[k] == d[k];
      assert ps[i] == init[i];
      assert forall j :: 0 <= j < i ==> ps[j] == init[j];
    } else {
      assert Dedupe(ps) == d + [last] && Dedupe(ps)[k] == last;
      forall j | 0 <= j < |ps| - 1 ensures ps[j].addr != last.addr {
        assert ps[j] == init[j] && ps[j] in init;
      }
    }
  }

  /** Dropping the last peer of a list with distinct addresses keeps them
      distinct, and the dropped address occurs nowhere else. */
  lemma DistinctInitLast(ps: seq<Peer>)
    requires ps != [] && DistinctAddrs(ps)
    ensures DistinctAddrs(ps[..|ps| - 1]) && ps[|ps| - 1].addr !in Addrs(ps[..|ps| - 1])
  {
    var init := ps[..|ps| - 1];
    forall q | q in init ensures q.addr != ps[|ps| - 1].addr {
      var j :| 0 <= j < |init| && init[j] == q;
      assert ps[j] == q;
    }
  }

  /** A list whose addresses are already distinct is left unchanged. */
  lemma {:induction false} DedupeOfDistinct(ps: seq<Peer>)
    requires DistinctAddrs(ps)
    ensures Dedupe(ps) == ps
    decreases |ps|
  {
    if ps != [] {
      var init := ps[..|ps| - 1];
      DistinctInitLast(ps);
      DedupeOfDistinct(init);
      assert init + [ps[|ps| - 1]] == ps;
    }
  }

  /** Deduplicating twice is deduplicating once. */
  lemma DedupeIdempotent(ps: seq<Peer>)
    ensures Dedupe(Dedupe(ps)) == Dedupe(ps)
  {
    DedupeOfDistinct(Dedupe(ps));
  }

  /** The loop of `removeDuplicatePeers`, with its `encountered` set. */
  method RemoveDuplicatePeers(ps: seq<Peer>) returns (result: seq<Peer>)
    ensures result == Dedupe(ps)
  {
    var encountered: set<string> := {};
    result := [];
    for i := 0 to |ps|
      invariant result == Dedupe(ps[..i])
      invariant encountered == Addrs(result)
    {
      assert ps[..i + 1][..i] == ps[..i] && ps[..i + 1][i] == ps[i];
      var p := ps[i];
      if p.addr !in encountered {
        encountered := encountered + {p.addr};
        result := result + [p];
      }
    }
    assert ps[..|ps|] == ps;
  }

  /** What a scan over the listed peers `ps` leaves in `conns`, and the
      concatenation, in list order, of the neighbour lists of the peers whose
      `GetNeighbors` succeeded; a failing peer adds nothing and the scan goes on. */
  function ScanFold(self: PeerInfo, net: Net, s: StoreState, ps: seq<Peer>, env: Env)
    : (r: (map<string, Option<ConnId>>, seq<Peer>))
    ensures forall q :: q in r.1 ==> q.conn == None
  {
    if ps == [] then (s.conns, [])
    else
      var (conns, acc) := ScanFold(self, net, s, ps[..|ps| - 1], env);
      var (conns', res, _) := GetNeighborsStep(self, net, StoreState(s.peers, conns), ps[|ps| - 1], env);
      (conns', acc + if res.Ok? then res.value else [])
  }

  /** One more peer of the list: its `GetNeighbors` runs on the handles the
      earlier peers left, and its neighbours, if any, are appended. */
  lemma ScanFoldStep(self: PeerInfo, net: Net, s: StoreState, ps: seq<Peer>, env: Env, i: nat)
    requires i < |ps|
    ensures var (conns, all) := ScanFold(self, net, s, ps[..i], env);
            var (conns', res, _) := GetNeighborsStep(self, net, StoreState(s.peers, conns), ps[i], env);
            ScanFold(self, net, s, ps[..i + 1], env) == (conns', all + if res.Ok? then res.value else [])
  {
    assert ps[..i + 1][..i] == ps[..i] && ps[..i + 1][i] == ps[i];
  }

  /** Scanning more peers only appends: the neighbours found for a prefix of the
      list come first, in the same order. */
  lemma {:induction false} ScanFoldPrefix(self: PeerInfo, net: Net, s: StoreState, ps: seq<Peer>, env: Env, n: nat)
    requires n <= |ps|
    decreases |ps| - n
    ensures ScanFold(self, net, s, ps[..n], env).1 <= ScanFold(self, net, s, ps, env).1
  {
    if n == |ps| {
      assert ps[..n] == ps;
    } else {
      var init := ps[..|ps| - 1];
      assert init[..n] == ps[..n];
      ScanFoldPrefix(self, net, s, init, env, n);
    }
  }

  /** Peers of `ps` whose address is not `selfAddr`. */
  function NotSelf(ps: seq<Peer>, selfAddr: string): (r: seq<Peer>)
    ensures forall q :: q in r <==> q in ps && q.addr != selfAddr
  {
    Filter(ps, (q: Peer) => q.addr != selfAddr)
  }

  /** Refresh tries to reconnect a listed peer exactly when it is not the node
      itself, its state can be read, and that state is not Ready. */
  predicate WantsReconnect(selfAddr: string, net: Net, s: StoreState, stateOf: ConnId -> ConnState, p: Peer)
    ensures WantsReconnect(selfAddr, net, s, stateOf, p) ==>
              p.addr != selfAddr && p.addr in s.peers
              && (ConnAt(s.conns, p.addr) == None || stateOf(ConnAt(s.conns, p.addr).value) != Ready)
  {
    && p.addr != selfAddr
    && GetPeerOutcome(net, s, p.addr).Ok?
    && PeerState(GetPeerOutcome(net, s, p.addr).value.conn, stateOf) != Ready
  }

  /** The peers refresh picks are exactly the peers whose `Connect` dials. */
  lemma WantsReconnectIffDials(self: PeerInfo, net: Net, s: StoreState, env: Env, p: Peer)
    ensures WantsReconnect(self.addr, net, s, env.stateOf, p) <==> ConnectStep(self, net, s, p.addr, env).dialed
  {
  }

  class Discovery {
    const svc: PeerService

    constructor (svc: PeerService)
      ensures this.svc == svc
    {
      this.svc := svc;
    }

    /** `scan`: the neighbour lists of all listed peers, concatenated and
        deduplicated; `conns` ends as the successive `Connect`s leave it. */
    method Scan(env: Env) returns (r: seq<Peer>)
      modifies svc.store
      ensures var (conns, all) := ScanFold(svc.self, svc.store.net, old(svc.store.State()), svc.getPeers(old(svc.store.State())), env);
              svc.store.conns == conns && r == Dedupe(all)
      ensures svc.store.peers == old(svc.store.peers)
    {
      var ps := svc.getPeers(svc.store.State());
      ghost var s0 := svc.store.State();
      var all: seq<Peer> := [];
      for i := 0 to |ps|
        invariant svc.store.peers == s0.peers
        invariant (svc.store.conns, all) == ScanFold(svc.self, svc.store.net, s0, ps[..i], env)
      {
        ScanFoldStep(svc.self, svc.store.net, s0, ps, env, i);
        assert svc.store.State() == StoreState(s0.peers, svc.store.conns);
        var neighbors, _ := svc.GetNeighbors(ps[i], env);
        if neighbors.Err? {
          assert all + [] == all;
          continue;
        }
        all := all + neighbors.value;
      }
      assert ps[..|ps|] == ps;
      r := RemoveDuplicatePeers(all);
    }

    /** `addPeers` up to the hand-off: the list it passes to the service's
        `AddPeers` is exactly the input peers that are not the node itself,
        in order. */
    method AddPeers(peers: seq<Peer>) returns (list: seq<Peer>)
      ensures list == NotSelf(peers, svc.self.addr)
    {
      list := [];
      for i := 0 to |peers|
        invariant list == NotSelf(peers[..i], svc.self.addr)
      {
        assert peers[..i + 1][..i] == peers[..i] && peers[..i + 1][i] == peers[i];
        if peers[i].addr != svc.self.addr {
          list := list + [peers[i]];
        }
      }
      assert peers[..|peers|] == peers;
    }

    /** `refresh` up to spawning: the listed peers it starts a connection
        attempt for, in list order; it always returns nil. */
    method Refresh(stateOf: ConnId -> ConnState) returns (attempts: seq<Peer>, err: Option<Error>)
      ensures var st := svc.store.State();
              attempts == Filter(svc.getPeers(st), p => WantsReconnect(svc.self.addr, svc.store.net, st, stateOf, p))
      ensures err == None
    {
      var ps := svc.getPeers(svc.store.State());
      ghost var st := svc.store.State();
      ghost var want := p => WantsReconnect(svc.self.addr, svc.store.net, st, stateOf, p);
      attempts := [];
      for i := 0 to |ps|
        invariant attempts == Filter(ps[..i], want)
      {
        assert ps[..i + 1][..i] == ps[..i] && ps[..i + 1][i] == ps[i];
        var p := ps[i];
        if p.addr == svc.self.addr {
          continue;
        }
        var state := svc.GetState(p.addr, stateOf);
        if state.Err? {
          continue;
        }
        if state.value != Ready {
          attempts := attempts + [p];
        }
      }
      assert ps[..|ps|] == ps;
      err := None;
    }
  }
}
