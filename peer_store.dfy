/** The peer repository of peer/peer_store.go: peer metadata and connection
    handles in two maps keyed by address. Each operation is one atomic step (the
    RWMutex is not modelled). The code's quirks are kept: existence is checked
    under the normalised key while entries are written and read under the raw
    key, and UpdatePeer/RemovePeer fail exactly when the peer exists. */
module Store {
  import opened Types
  import opened Address

  /** The contents of a store: the `peers` and `conns` maps. */
  datatype StoreState = StoreState(peers: map<string, PeerInfo>, conns: map<string, Option<ConnId>>)

  /** Reading `conns[addr]` in Go: a missing key reads as a nil handle. */
  function ConnAt(conns: map<string, Option<ConnId>>, addr: string): Option<ConnId>
  {
    if addr in conns then conns[addr] else None
  }

  /** Outcome of `Exists`: the validation error, or whether the NORMALISED key is
      a `peers` key. */
  function ExistsOutcome(net: Net, peers: map<string, PeerInfo>, addr: string): (r: Result<bool>)
    ensures r.Err? <==> ValidatePeerAddr(net, addr).Err?
    ensures r.Err? ==> r.error == ValidatePeerAddr(net, addr).error
    ensures r.Ok? ==> (r.value <==> ValidatePeerAddr(net, addr).value in peers)
  {
    match ValidatePeerAddr(net, addr)
    case Err(e) => Err(e)
    case Ok(key) => Ok(key in peers)
  }

  /** Effect of `AddPeer` on `peers`, and its error. */
  function AddPeerStep(net: Net, peers: map<string, PeerInfo>, p: Peer): (r: (map<string, PeerInfo>, Option<Error>))
    ensures ValidatePeerAddr(net, p.addr).Err? ==> r == (peers, Some(ValidatePeerAddr(net, p.addr).error))
    ensures ExistsOutcome(net, peers, p.addr) == Ok(true) ==> r == (peers, Some(PeerAlreadyExists))
    ensures ExistsOutcome(net, peers, p.addr) == Ok(false) ==>
              r.1 == None && r.0 == peers[p.addr := PeerInfo(p.addr, p.attrs)]
    ensures r.1 == None <==> ExistsOutcome(net, peers, p.addr) == Ok(false)
    ensures r.0.Keys == if r.1 == None then peers.Keys + {p.addr} else peers.Keys
  {
    match ExistsOutcome(net, peers, p.addr)
    case Err(e) => (peers, Some(e))
    case Ok(present) =>
      if present then (peers, Some(PeerAlreadyExists))
      else (peers[p.addr := PeerInfo(p.addr, p.attrs)], None)
  }

  /** Effect of `AddPeers`: `AddPeer` left to right, stopping at the first error. */
  function AddPeersStep(net: Net, peers: map<string, PeerInfo>, ps: seq<Peer>): (r: (map<string, PeerInfo>, Option<Error>))
    ensures peers.Keys <= r.0.Keys
    ensures r.1 == None ==> forall i :: 0 <= i < |ps| ==> ps[i].addr in r.0
    decreases |ps|
  {
    if ps == [] then (peers, None)
    else
      var (next, err) := AddPeerStep(net, peers, ps[0]);
      if err.Some? then (next, err)
      else
        var r := AddPeersStep(net, next, ps[1..]);
        assert forall i :: 1 <= i < |ps| ==> ps[i] == ps[1..][i - 1];
        r
  }

  /** A failing `AddPeers` returns the error of the first peer that fails: all
      peers before it were added one by one, and nothing after it was tried. */
  lemma {:induction false} AddPeersFirstError(net: Net, peers: map<string, PeerInfo>, ps: seq<Peer>)
    requires AddPeersStep(net, peers, ps).1.Some?
    decreases |ps|
    ensures exists k :: 0 <= k < |ps|
              && AddPeersStep(net, peers, ps[..k]) == (AddPeersStep(net, peers, ps).0, None)
              && AddPeerStep(net, AddPeersStep(net, peers, ps).0, ps[k]) == AddPeersStep(net, peers, ps)
  {
    var (next, err) := AddPeerStep(net, peers, ps[0]);
    var all := AddPeersStep(net, peers, ps);
    assert ps[..0] == [];
    if err.Some? {
      assert all == (peers, err);
      assert AddPeerStep(net, peers, ps[0]) == (peers, err);
    } else {
      var rest := ps[1..];
      assert all == AddPeersStep(net, next, rest);
      AddPeersFirstError(net, next, rest);
      var k :| 0 <= k < |rest|
              && AddPeersStep(net, next, rest[..k]) == (all.0, None)
              && AddPeerStep(net, all.0, rest[k]) == all;
      assert ps[..k + 1][0] == ps[0] && ps[..k + 1][1..] == rest[..k];
      assert AddPeersStep(net, peers, ps[..k + 1]) == AddPeersStep(net, next, rest[..k]);
      assert rest[k] == ps[k + 1];
    }
  }

  /** Conversely, the first failing `AddPeer` decides the outcome: once the
      peers before index `k` were added without error and the one at `k` fails,
      `AddPeers` returns exactly what that `AddPeer` returns. */
  lemma {:induction false} AddPeersFailsAtFirstError(net: Net, peers: map<string, PeerInfo>, ps: seq<Peer>, k: nat)
    requires k < |ps|
    requires AddPeersStep(net, peers, ps[..k]).1 == None
    requires AddPeerStep(net, AddPeersStep(net, peers, ps[..k]).0, ps[k]).1.Some?
    decreases k
    ensures AddPeersStep(net, peers, ps) == AddPeerStep(net, AddPeersStep(net, peers, ps[..k]).0, ps[k])
  {
    if k == 0 {
      assert ps[..0] == [];
    } else {
      var (next, err) := AddPeerStep(net, peers, ps[0]);
      assert ps[..k][0] == ps[0] && ps[..k][1..] == ps[1..][..k - 1];
      assert err.None?;
      assert ps[1..][k - 1] == ps[k];
      AddPeersFailsAtFirstError(net, next, ps[1..], k - 1);
    }
  }

  /** Effect of `UpdatePeer`: the guard is inverted, so it fails with
      PeerNotFound when the normalised key EXISTS, and otherwise writes an entry
      whose stored address is empty under the raw key. */
  function UpdatePeerStep(net: Net, peers: map<string, PeerInfo>, p: Peer): (r: (map<string, PeerInfo>, Option<Error>))
    ensures ValidatePeerAddr(net, p.addr).Err? ==> r == (peers, Some(ValidatePeerAddr(net, p.addr).error))
    ensures ExistsOutcome(net, peers, p.addr) == Ok(true) ==> r == (peers, Some(PeerNotFound))
    ensures ExistsOutcome(net, peers, p.addr) == Ok(false) ==>
              r.1 == None && r.0 == peers[p.addr := PeerInfo("", p.attrs)]
    ensures ValidatePeerAddr(net, p.addr) == Ok(p.addr) ==> (r.1 == None <==> p.addr !in peers)
  {
    match ExistsOutcome(net, peers, p.addr)
    case Err(e) => (peers, Some(e))
    case Ok(present) =>
      if present then (peers, Some(PeerNotFound))
      else (peers[p.addr := PeerInfo("", p.attrs)], None)
  }

  /** Effect of `RemovePeer`: inverted guard as in UpdatePeer. When the address
      is its own normalised form the call can never remove anything. */
  function RemovePeerStep(net: Net, peers: map<string, PeerInfo>, p: Peer): (r: (map<string, PeerInfo>, Option<Error>))
    ensures ValidatePeerAddr(net, p.addr).Err? ==> r == (peers, Some(ValidatePeerAddr(net, p.addr).error))
    ensures ExistsOutcome(net, peers, p.addr) == Ok(true) ==> r == (peers, Some(PeerNotFound))
    ensures ExistsOutcome(net, peers, p.addr) == Ok(false) ==> r.1 == None && r.0 == peers - {p.addr}
    ensures ValidatePeerAddr(net, p.addr) == Ok(p.addr) ==> r.0 == peers
  {
    match ExistsOutcome(net, peers, p.addr)
    case Err(e) => (peers, Some(e))
    case Ok(present) =>
      if present then (peers, Some(PeerNotFound))
      else (peers - {p.addr}, None)
  }

  /** Outcome of `GetPeer`: a peer is found only when the address is present
      under both its normalised and its raw key; the result carries the stored
      metadata and the raw key's handle. */
  function GetPeerOutcome(net: Net, s: StoreState, addr: string): (r: Result<Peer>)
    ensures r.Ok? <==> ValidatePeerAddr(net, addr).Ok? && ValidatePeerAddr(net, addr).value in s.peers
                       && addr in s.peers
    ensures r.Ok? ==> r.value == Peer(s.peers[addr].addr, s.peers[addr].attrs, ConnAt(s.conns, addr))
    ensures r.Err? ==> r.error == if ValidatePeerAddr(net, addr).Err? then ValidatePeerAddr(net, addr).error
                                  else PeerNotFound
  {
    match ExistsOutcome(net, s.peers, addr)
    case Err(e) => Err(e)
    case Ok(present) =>
      if !present then Err(PeerNotFound)
      else if addr !in s.peers then Err(PeerNotFound)
      else Ok(Peer(s.peers[addr].addr, s.peers[addr].attrs, ConnAt(s.conns, addr)))
  }

  /** The error `GetPeer(addr)` fails with, or none when it finds a peer; it
      depends on the stored peers only, never on the handles. */
  function LookupError(net: Net, peers: map<string, PeerInfo>, addr: string): (r: Option<Error>)
    ensures forall conns :: GetPeerOutcome(net, StoreState(peers, conns), addr)
                            == if r.Some? then Err(r.value) else GetPeerOutcome(net, StoreState(peers, conns), addr)
    ensures forall conns :: r.None? <==> GetPeerOutcome(net, StoreState(peers, conns), addr).Ok?
  {
    match GetPeerOutcome(net, StoreState(peers, map[]), addr)
    case Err(e) => Some(e)
    case Ok(_) => None
  }

  /** Effect of `SetPeerConnection`: refuses the empty address, otherwise
      records `c` under `addr` whether or not a peer with that address exists. */
  function SetConnStep(conns: map<string, Option<ConnId>>, addr: string, c: Option<ConnId>): (r: (map<string, Option<ConnId>>, Result<Option<ConnId>>))
    ensures addr == "" ==> r == (conns, Err(InvalidPeerAddress))
    ensures addr != "" ==> r.1 == Ok(c) && ConnAt(r.0, addr) == c
    ensures forall a :: a != addr ==> ConnAt(r.0, a) == ConnAt(conns, a)
  {
    if addr == "" then (conns, Err(InvalidPeerAddress))
    else (conns[addr := c], Ok(c))
  }

  /** An address that is its own normalised form can be looked up right after
      it was added, with the stored metadata and whatever handle its key had. */
  lemma AddThenGet(net: Net, s: StoreState, p: Peer)
    requires ValidatePeerAddr(net, p.addr) == Ok(p.addr)
    requires AddPeerStep(net, s.peers, p).1 == None
    ensures GetPeerOutcome(net, StoreState(AddPeerStep(net, s.peers, p).0, s.conns), p.addr)
            == Ok(Peer(p.addr, p.attrs, ConnAt(s.conns, p.addr)))
  {
  }

  /** An address whose normalised form differs from it (a URL such as
      "http://www.host", normalised to "host") is stored under the raw key but
      checked under the normalised one: after a successful add, `GetPeer` of
      that address still fails, and adding it again succeeds again. */
  lemma UnnormalisedAddressIsNeverFound(net: Net, s: StoreState, p: Peer)
    requires ValidatePeerAddr(net, p.addr).Ok? && ValidatePeerAddr(net, p.addr).value != p.addr
    requires AddPeerStep(net, s.peers, p).1 == None
    ensures GetPeerOutcome(net, StoreState(AddPeerStep(net, s.peers, p).0, s.conns), p.addr) == Err(PeerNotFound)
    ensures AddPeerStep(net, AddPeerStep(net, s.peers, p).0, p).1 == None
  {
  }

  class PeerStore {
    /** The address library routines validation relies on. */
    const net: Net
    var peers: map<string, PeerInfo>
    var conns: map<string, Option<ConnId>>

    function State(): StoreState
      reads this
    {
      StoreState(peers, conns)
    }

    /** `NewPeerStore`: both maps empty. */
    constructor (net: Net)
      ensures this.net == net && peers == map[] && conns == map[]
    {
      this.net := net;
      peers := map[];
      conns := map[];
    }

    /** Fails when the address does not validate; otherwise reports whether the
        normalised key is present. Reads only. */
    method Exists(addr: string) returns (r: Result<bool>)
      ensures r == ExistsOutcome(net, peers, addr)
    {
      var key := ValidatePeerAddr(net, addr);
      if key.Err? {
        return Err(key.error);
      }
      r := Ok(key.value in peers);
    }

    method AddPeer(p: Peer) returns (err: Option<Error>)
      modifies this
      ensures (peers, err) == AddPeerStep(net, old(peers), p)
      ensures conns == old(conns)
    {
      var present := Exists(p.addr);
      if present.Err? {
        return Some(present.error);
      }
      if present.value {
        return Some(PeerAlreadyExists);
      }
      peers := peers[p.addr := PeerInfo(p.addr, p.attrs)];
      err := None;
    }

    method AddPeers(ps: seq<Peer>) returns (err: Option<Error>)
      modifies this
      ensures (peers, err) == AddPeersStep(net, old(peers), ps)
      ensures conns == old(conns)
    {
      var i := 0;
      while i < |ps|
        invariant 0 <= i <= |ps|
        invariant AddPeersStep(net, old(peers), ps) == AddPeersStep(net, peers, ps[i..])
        invariant conns == old(conns)
      {
        assert ps[i..][0] == ps[i] && ps[i..][1..] == ps[i + 1..];
        err := AddPeer(ps[i]);
        if err.Some? {
          return;
        }
        i := i + 1;
      }
      err := None;
    }

    method UpdatePeer(p: Peer) returns (err: Option<Error>)
      modifies this
      ensures (peers, err) == UpdatePeerStep(net, old(peers), p)
      ensures conns == old(conns)
    {
      var present := Exists(p.addr);
      if present.Err? {
        return Some(present.error);
      }
      if present.value {
        return Some(PeerNotFound);
      }
      peers := peers[p.addr := PeerInfo("", p.attrs)];
      err := None;
    }

    method RemovePeer(p: Peer) returns (err: Option<Error>)
      modifies this
      ensures (peers, err) == RemovePeerStep(net, old(peers), p)
      ensures conns == old(conns)
    {
      var present := Exists(p.addr);
      if present.Err? {
        return Some(present.error);
      }
      if present.value {
        return Some(PeerNotFound);
      }
      peers := peers - {p.addr};
      err := None;
    }

    method GetPeer(addr: string) returns (r: Result<Peer>)
      ensures r == GetPeerOutcome(net, State(), addr)
    {
      var present := Exists(addr);
      if present.Err? {
        return Err(present.error);
      }
      if !present.value {
        return Err(PeerNotFound);
      }
      if addr !in peers {
        return Err(PeerNotFound);
      }
      r := Ok(Peer(peers[addr].addr, peers[addr].attrs, ConnAt(conns, addr)));
    }

    /** One fresh peer per `peers` key, in the unspecified order `order` of the
        map iteration, built from the stored metadata and without a handle. */
    method GetAllPeers() returns (r: seq<Peer>, ghost order: seq<string>)
      ensures Listing(order, peers.Keys)
      ensures |r| == |order|
      ensures forall i :: 0 <= i < |r| ==> r[i] == Peer(peers[order[i]].addr, peers[order[i]].attrs, None)
      ensures |r| == |peers|
      ensures forall k :: k in peers ==> Peer(peers[k].addr, peers[k].attrs, None) in r
      ensures forall q :: q in r ==> q.conn == None && exists k :: k in peers && q == Peer(peers[k].addr, peers[k].attrs, None)
    {
      var rest := peers.Keys;
      r, order := [], [];
      while rest != {}
        invariant rest <= peers.Keys
        invariant Listing(order, peers.Keys - rest)
        invariant |r| == |order|
        invariant forall i :: 0 <= i < |r| ==> order[i] in peers && r[i] == Peer(peers[order[i]].addr, peers[order[i]].attrs, None)
        decreases rest
      {
        var k :| k in rest;
        ListingExtend(order, peers.Keys, rest, k);
        r := r + [Peer(peers[k].addr, peers[k].attrs, None)];
        order := order + [k];
        rest := rest - {k};
      }
      ListingSize(order, peers.Keys);
      forall k | k in peers ensures Peer(peers[k].addr, peers[k].attrs, None) in r {
        assert k in (set x | x in order);
        var i :| 0 <= i < |order| && order[i] == k;
        assert r[i] == Peer(peers[k].addr, peers[k].attrs, None);
      }
    }

    method GetPeerConnection(addr: string) returns (r: Result<Option<ConnId>>)
      ensures addr == "" ==> r == Err(InvalidPeerAddress)
      ensures addr != "" ==> r == Ok(ConnAt(conns, addr))
    {
      if addr == "" {
        return Err(InvalidPeerAddress);
      }
      r := Ok(ConnAt(conns, addr));
    }

    method SetPeerConnection(addr: string, c: Option<ConnId>) returns (r: Result<Option<ConnId>>)
      modifies this
      ensures (conns, r) == SetConnStep(old(conns), addr, c)
      ensures peers == old(peers)
    {
      if addr == "" {
        return Err(InvalidPeerAddress);
      }
      conns := conns[addr := c];
      r := Ok(c);
    }
  }
}
