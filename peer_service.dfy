/** Connection lifecycle of peer/peer_service.go: bootstrap seeding, Connect,
    Disconnect, DisconnectAll, GetState and GetNeighbors over one PeerStore.
    gRPC (Dial, ClientConn.GetState, Close, the exchange invocation) is outside
    the model: what it answers is the `Env` given to each call. */
module Service {
  import opened Types
  import opened Address
  import opened Store
  import opened Proto
  import Client

  /** What `grpc.Dial` returns: a handle (possibly nil) and an error (possibly nil). */
  datatype Dial = Dial(conn: Option<ConnId>, err: Option<Error>)

  /** The transport as observed during one call: the state of each handle, the
      result of dialing each address, and the reply of the exchange RPC sent
      over each handle. */
  datatype Env = Env(
    stateOf: ConnId -> ConnState,
    dial: string -> Dial,
    exchange: ConnId -> Result<seq<PbPeer>>)

  /** A bootstrap entry of the configuration (only its address and attributes
      are used). */
  datatype BootstrapPeer = BootstrapPeer(addr: string, attrs: map<string, string>)

  /** Store contents after seeding `bootstrap` into `peers`: every entry whose
      address differs from the node's own is added with `AddPeer`, errors ignored. */
  function SeedStep(net: Net, selfAddr: string, peers: map<string, PeerInfo>, bootstrap: seq<BootstrapPeer>): (r: map<string, PeerInfo>)
    ensures r.Keys <= peers.Keys + (set b | b in bootstrap && b.addr != selfAddr :: b.addr)
    ensures selfAddr !in peers ==> selfAddr !in r
    ensures peers.Keys <= r.Keys
    ensures forall b :: b in bootstrap && b.addr != selfAddr && ValidatePeerAddr(net, b.addr).Ok? ==>
              b.addr in r || ValidatePeerAddr(net, b.addr).value in r
  {
    if bootstrap == [] then peers
    else
      var init := bootstrap[..|bootstrap| - 1];
      var last := bootstrap[|bootstrap| - 1];
      var m := SeedStep(net, selfAddr, peers, init);
      assert forall b :: b in bootstrap <==> b in init || b == last;
      if last.addr != selfAddr then
        var r := AddPeerStep(net, m, Peer(last.addr, last.attrs, None)).0;
        assert m.Keys <= r.Keys;
        r
      else m
  }

  /** Everything one `Connect` call decides: the handle and error it returns,
      the new `conns` map, and whether it dialed. */
  datatype ConnectOutcome = ConnectOutcome(conn: Option<ConnId>, err: Option<Error>, conns: map<string, Option<ConnId>>, dialed: bool)

  /** `Connect`: refuses the node's own address and propagates the lookup error,
      touching nothing; a Ready handle is returned as is without dialing;
      otherwise the dial result is recorded for the peer's stored address even
      when the dial failed, and both handle and error are returned. */
  function ConnectStep(self: PeerInfo, net: Net, s: StoreState, addr: string, env: Env): (r: ConnectOutcome)
    ensures addr == self.addr ==> r == ConnectOutcome(None, Some(ConnectSelf), s.conns, false)
    ensures addr != self.addr && GetPeerOutcome(net, s, addr).Err? ==>
              r == ConnectOutcome(None, Some(GetPeerOutcome(net, s, addr).error), s.conns, false)
    ensures !r.dialed ==> r.conns == s.conns
    ensures r.dialed <==>
              addr != self.addr && GetPeerOutcome(net, s, addr).Ok?
              && PeerState(GetPeerOutcome(net, s, addr).value.conn, env.stateOf) != Ready
    ensures addr != self.addr && GetPeerOutcome(net, s, addr).Ok? && !r.dialed ==>
              r.err == None && r.conn == GetPeerOutcome(net, s, addr).value.conn
              && r.conn.Some? && env.stateOf(r.conn.value) == Ready
    ensures r.dialed ==>
              var stored := GetPeerOutcome(net, s, addr).value.addr;
              && r.conn == env.dial(stored).conn && r.err == env.dial(stored).err
              && r.conns == SetConnStep(s.conns, stored, r.conn).0
  {
    if addr == self.addr then ConnectOutcome(None, Some(ConnectSelf), s.conns, false)
    else
      match GetPeerOutcome(net, s, addr)
      case Err(e) => ConnectOutcome(None, Some(e), s.conns, false)
      case Ok(p) =>
        if PeerState(p.conn, env.stateOf) == Ready then ConnectOutcome(p.conn, None, s.conns, false)
        else
          var d := env.dial(p.addr);
          ConnectOutcome(d.conn, d.err, SetConnStep(s.conns, p.addr, d.conn).0, true)
  }

  /** `GetNeighbors`: connects, and only with no error, a non-nil handle and a
      Ready state is the exchange RPC invoked; its reply becomes the result.
      The `conns` map is whatever `Connect` left. */
  function GetNeighborsStep(self: PeerInfo, net: Net, s: StoreState, p: Peer, env: Env)
    : (r: (map<string, Option<ConnId>>, Result<seq<Peer>>, bool))
    ensures r.0 == ConnectStep(self, net, s, p.addr, env).conns
    ensures var c := ConnectStep(self, net, s, p.addr, env);
            r.2 <==> c.err == None && c.conn.Some? && env.stateOf(c.conn.value) == Ready
    ensures !r.2 ==> r.1.Err?
    ensures var c := ConnectStep(self, net, s, p.addr, env);
            c.err.Some? ==> r.1 == Err(c.err.value)
    ensures var c := ConnectStep(self, net, s, p.addr, env);
            c.err.None? && c.conn.None? ==> r.1 == Err(ConnectionFailed)
    ensures var c := ConnectStep(self, net, s, p.addr, env);
            c.err.None? && c.conn.Some? && env.stateOf(c.conn.value) != Ready ==> r.1 == Err(ConnectionNotReady)
    ensures var c := ConnectStep(self, net, s, p.addr, env);
            r.2 ==> r.1 == match env.exchange(c.conn.value)
                           case Err(e) => Err(e)
                           case Ok(pbs) => Ok(Client.PeersFromPb(pbs))
  {
    var c := ConnectStep(self, net, s, p.addr, env);
    if c.err.Some? then (c.conns, Err(c.err.value), false)
    else if c.conn.None? then (c.conns, Err(ConnectionFailed), false)
    else if env.stateOf(c.conn.value) != Ready then (c.conns, Err(ConnectionNotReady), false)
    else
      match env.exchange(c.conn.value)
      case Err(e) => (c.conns, Err(e), true)
      case Ok(pbs) => (c.conns, Ok(Client.PeersFromPb(pbs)), true)
  }

  /** `Disconnect`: propagates the lookup error; closes the handle and clears the
      stored one only when the peer is Ready; otherwise changes nothing. The
      third component is the handle that was closed. */
  function DisconnectStep(net: Net, s: StoreState, addr: string, stateOf: ConnId -> ConnState)
    : (r: (map<string, Option<ConnId>>, Option<Error>, Option<ConnId>))
    ensures GetPeerOutcome(net, s, addr).Err? ==> r == (s.conns, Some(GetPeerOutcome(net, s, addr).error), None)
    ensures GetPeerOutcome(net, s, addr).Ok? ==> r.1 == None
    ensures r.2.Some? <==>
              GetPeerOutcome(net, s, addr).Ok? && PeerState(GetPeerOutcome(net, s, addr).value.conn, stateOf) == Ready
    ensures r.2.Some? ==> r.2 == GetPeerOutcome(net, s, addr).value.conn && stateOf(r.2.value) == Ready
                          && r.0 == SetConnStep(s.conns, GetPeerOutcome(net, s, addr).value.addr, None).0
    ensures r.2.None? ==> r.0 == s.conns
    ensures forall a :: ConnAt(r.0, a) == ConnAt(s.conns, a) || ConnAt(r.0, a) == None
  {
    match GetPeerOutcome(net, s, addr)
    case Err(e) => (s.conns, Some(e), None)
    case Ok(p) =>
      if PeerState(p.conn, stateOf) == Ready then (SetConnStep(s.conns, p.addr, None).0, None, p.conn)
      else (s.conns, None, None)
  }

  /** `ps[k]` is the first listed peer whose address `GetPeer` does not find. */
  ghost predicate FailsFirstAt(net: Net, peers: map<string, PeerInfo>, ps: seq<Peer>, k: int)
  {
    && 0 <= k < |ps|
    && LookupError(net, peers, ps[k].addr).Some?
    && forall j :: 0 <= j < k ==> LookupError(net, peers, ps[j].addr).None?
  }

  /** Prepending a peer that is found moves the first failure one place on. */
  lemma FailsFirstShift(net: Net, peers: map<string, PeerInfo>, ps: seq<Peer>)
    requires ps != [] && LookupError(net, peers, ps[0].addr).None?
    ensures forall k :: FailsFirstAt(net, peers, ps[1..], k) ==> FailsFirstAt(net, peers, ps, k + 1) && ps[k + 1] == ps[1..][k]
  {
    assert forall j :: 1 <= j < |ps| ==> ps[j] == ps[1..][j - 1];
  }

  /** `DisconnectAll` over the listed peers: `Disconnect` each in turn, stopping
      at the first error, which is returned. It fails exactly when some listed
      address cannot be looked up, with the lookup error of the first such
      address, and it never installs a handle: every handle either stays or is
      cleared. */
  function DisconnectAllStep(net: Net, s: StoreState, ps: seq<Peer>, stateOf: ConnId -> ConnState)
    : (r: (map<string, Option<ConnId>>, Option<Error>))
    ensures r.1.None? <==> forall i :: 0 <= i < |ps| ==> LookupError(net, s.peers, ps[i].addr).None?
    ensures r.1.Some? ==> exists k :: FailsFirstAt(net, s.peers, ps, k) && LookupError(net, s.peers, ps[k].addr) == r.1
    ensures forall a :: ConnAt(r.0, a) == ConnAt(s.conns, a) || ConnAt(r.0, a) == None
    decreases |ps|
  {
    if ps == [] then (s.conns, None)
    else
      var (conns, err, _) := DisconnectStep(net, s, ps[0].addr, stateOf);
      assert err == LookupError(net, s.peers, ps[0].addr);
      if err.Some? then
        assert FailsFirstAt(net, s.peers, ps, 0);
        (conns, err)
      else
        var r := DisconnectAllStep(net, StoreState(s.peers, conns), ps[1..], stateOf);
        assert forall i :: 1 <= i < |ps| ==> ps[i] == ps[1..][i - 1];
        FailsFirstShift(net, s.peers, ps);
        r
  }

  /** A successful `DisconnectAll` leaves no listed peer connected: every listed
      peer stored under its own address has no Ready handle afterwards. The
      empty address is excluded because `SetPeerConnection` refuses it, so a
      handle stored under "" is never cleared. */
  lemma {:induction false} DisconnectAllLeavesNoneReady(net: Net, s: StoreState, ps: seq<Peer>, stateOf: ConnId -> ConnState)
    requires DisconnectAllStep(net, s, ps, stateOf).1 == None
    decreases |ps|
    ensures forall i :: 0 <= i < |ps| && ps[i].addr != "" && ps[i].addr in s.peers && s.peers[ps[i].addr].addr == ps[i].addr ==>
              PeerState(ConnAt(DisconnectAllStep(net, s, ps, stateOf).0, ps[i].addr), stateOf) != Ready
  {
    if ps != [] {
      var (conns, err, _) := DisconnectStep(net, s, ps[0].addr, stateOf);
      var s' := StoreState(s.peers, conns);
      var r := DisconnectAllStep(net, s, ps, stateOf);
      assert err.None? && r == DisconnectAllStep(net, s', ps[1..], stateOf);
      DisconnectAllLeavesNoneReady(net, s', ps[1..], stateOf);
      var a := ps[0].addr;
      if a != "" && a in s.peers && s.peers[a].addr == a {
        assert PeerState(ConnAt(conns, a), stateOf) != Ready;
        assert ConnAt(r.0, a) == ConnAt(conns, a) || ConnAt(r.0, a) == None;
      }
      forall i | 1 <= i < |ps| && ps[i].addr != "" && ps[i].addr in s.peers && s.peers[ps[i].addr].addr == ps[i].addr
        ensures PeerState(ConnAt(r.0, ps[i].addr), stateOf) != Ready
      {
        assert ps[i] == ps[1..][i - 1];
      }
    }
  }

  /** A failing `DisconnectAll` returns the error of the first peer whose
      `Disconnect` fails; the peers before it were disconnected in turn and no
      peer after it was processed. */
  lemma DisconnectAllFirstError(net: Net, s: StoreState, ps: seq<Peer>, stateOf: ConnId -> ConnState)
    requires DisconnectAllStep(net, s, ps, stateOf).1.Some?
    ensures exists k :: 0 <= k < |ps|
              && DisconnectAllStep(net, s, ps[..k], stateOf) == (DisconnectAllStep(net, s, ps, stateOf).0, None)
              && DisconnectStep(net, StoreState(s.peers, DisconnectAllStep(net, s, ps, stateOf).0), ps[k].addr, stateOf).1
                 == DisconnectAllStep(net, s, ps, stateOf).1
  {
    var all := DisconnectAllStep(net, s, ps, stateOf);
    var k :| FailsFirstAt(net, s.peers, ps, k) && LookupError(net, s.peers, ps[k].addr) == all.1;
    DisconnectAllPrefixOk(net, s, ps, stateOf, k);
    var pre := DisconnectAllStep(net, s, ps[..k], stateOf);
    assert GetPeerOutcome(net, StoreState(s.peers, pre.0), ps[k].addr).Err?;
    DisconnectAllFailsAtFirstError(net, s, ps, stateOf, k);
    assert DisconnectStep(net, StoreState(s.peers, pre.0), ps[k].addr, stateOf).1 == all.1;
  }

  /** `DisconnectAll` over a prefix whose addresses are all found succeeds. */
  lemma DisconnectAllPrefixOk(net: Net, s: StoreState, ps: seq<Peer>, stateOf: ConnId -> ConnState, k: nat)
    requires k <= |ps|
    requires forall j :: 0 <= j < k ==> LookupError(net, s.peers, ps[j].addr).None?
    ensures DisconnectAllStep(net, s, ps[..k], stateOf).1 == None
  {
    assert forall j :: 0 <= j < k ==> ps[..k][j] == ps[j];
  }

  /** Conversely, the first failing `Disconnect` decides the outcome: once the
      peers before index `k` were disconnected without error and the one at `k`
      fails, `DisconnectAll` returns that error and the handles as they were
      after the first `k` peers. */
  lemma {:induction false} DisconnectAllFailsAtFirstError(net: Net, s: StoreState, ps: seq<Peer>, stateOf: ConnId -> ConnState, k: nat)
    requires k < |ps|
    requires DisconnectAllStep(net, s, ps[..k], stateOf).1 == None
    requires DisconnectStep(net, StoreState(s.peers, DisconnectAllStep(net, s, ps[..k], stateOf).0), ps[k].addr, stateOf).1.Some?
    decreases k
    ensures DisconnectAllStep(net, s, ps, stateOf)
            == (DisconnectAllStep(net, s, ps[..k], stateOf).0,
                DisconnectStep(net, StoreState(s.peers, DisconnectAllStep(net, s, ps[..k], stateOf).0), ps[k].addr, stateOf).1)
  {
    if k == 0 {
      assert ps[..0] == [];
      assert StoreState(s.peers, s.conns) == s;
    } else {
      var (conns, err, _) := DisconnectStep(net, s, ps[0].addr, stateOf);
      assert ps[..k][0] == ps[0] && ps[..k][1..] == ps[1..][..k - 1];
      assert err.None?;
      assert ps[1..][k - 1] == ps[k];
      DisconnectAllFailsAtFirstError(net, StoreState(s.peers, conns), ps[1..], stateOf, k - 1);
    }
  }

  class PeerService {
    /** The node's own identity. */
    const self: PeerInfo
    const store: PeerStore
    /** `PeerStore.GetPeers`, which is not part of this model: the list it
        returns for given store contents. */
    const getPeers: StoreState -> seq<Peer>

    /** `NewPeerService`: a fresh store seeded with every bootstrap entry whose
        address is not the node's own. */
    constructor (net: Net, self: PeerInfo, bootstrap: seq<BootstrapPeer>, getPeers: StoreState -> seq<Peer>)
      ensures this.self == self && this.getPeers == getPeers
      ensures fresh(store) && store.net == net
      ensures store.peers == SeedStep(net, self.addr, map[], bootstrap) && store.conns == map[]
      ensures self.addr !in store.peers
    {
      this.self := self;
      this.getPeers := getPeers;
      store := new PeerStore(net);
      new;
      var i := 0;
      while i < |bootstrap|
        invariant 0 <= i <= |bootstrap|
        invariant store.net == net && store.conns == map[]
        invariant store.peers == SeedStep(net, self.addr, map[], bootstrap[..i])
        modifies store
      {
        assert bootstrap[..i + 1][..i] == bootstrap[..i];
        var b := bootstrap[i];
        if b.addr != self.addr {
          var _ := store.AddPeer(Peer(b.addr, b.attrs, None));
        }
        i := i + 1;
      }
      assert bootstrap[..i] == bootstrap;
    }

    method AddPeer(p: Peer) returns (err: Option<Error>)
      modifies store
      ensures (store.peers, err) == AddPeerStep(store.net, old(store.peers), p)
      ensures store.conns == old(store.conns)
    {
      err := store.AddPeer(p);
    }

    /** `GetState`: the lookup error, or the peer's connection state. */
    method GetState(addr: string, stateOf: ConnId -> ConnState) returns (r: Result<ConnState>)
      ensures GetPeerOutcome(store.net, store.State(), addr).Err? ==>
                r == Err(GetPeerOutcome(store.net, store.State(), addr).error)
      ensures GetPeerOutcome(store.net, store.State(), addr).Ok? ==>
                r == Ok(PeerState(ConnAt(store.conns, addr), stateOf))
    {
      var p := store.GetPeer(addr);
      if p.Err? {
        return Err(p.error);
      }
      r := Ok(PeerState(p.value.conn, stateOf));
    }

    method Connect(addr: string, env: Env) returns (conn: Option<ConnId>, err: Option<Error>, ghost dialed: bool)
      modifies store
      ensures ConnectStep(self, store.net, old(store.State()), addr, env)
              == ConnectOutcome(conn, err, store.conns, dialed)
      ensures store.peers == old(store.peers)
    {
      if addr == self.addr {
        return None, Some(ConnectSelf), false;
      }
      var p := store.GetPeer(addr);
      if p.Err? {
        return None, Some(p.error), false;
      }
      if PeerState(p.value.conn, env.stateOf) == Ready {
        return p.value.conn, None, false;
      }
      var d := env.dial(p.value.addr);
      var _ := store.SetPeerConnection(p.value.addr, d.conn);
      conn, err, dialed := d.conn, d.err, true;
    }

    method Disconnect(addr: string, stateOf: ConnId -> ConnState) returns (err: Option<Error>, ghost closed: Option<ConnId>)
      modifies store
      ensures DisconnectStep(store.net, old(store.State()), addr, stateOf) == (store.conns, err, closed)
      ensures store.peers == old(store.peers)
    {
      var p := store.GetPeer(addr);
      if p.Err? {
        return Some(p.error), None;
      }
      closed := None;
      if PeerState(p.value.conn, stateOf) == Ready {
        closed := p.value.conn;
        var _ := store.SetPeerConnection(p.value.addr, None);
      }
      err := None;
    }

    method DisconnectAll(stateOf: ConnId -> ConnState) returns (err: Option<Error>)
      modifies store
      ensures (store.conns, err)
              == DisconnectAllStep(store.net, old(store.State()), getPeers(old(store.State())), stateOf)
      ensures store.peers == old(store.peers)
    {
      var ps := getPeers(store.State());
      var i := 0;
      while i < |ps|
        invariant 0 <= i <= |ps|
        invariant store.peers == old(store.peers)
        invariant DisconnectAllStep(store.net, old(store.State()), ps, stateOf)
                  == DisconnectAllStep(store.net, store.State(), ps[i..], stateOf)
      {
        assert ps[i..][0] == ps[i] && ps[i..][1..] == ps[i + 1..];
        var e, _ := Disconnect(ps[i].addr, stateOf);
        if e.Some? {
          return e;
        }
        i := i + 1;
      }
      err := None;
    }

    method GetNeighbors(p: Peer, env: Env) returns (r: Result<seq<Peer>>, ghost invoked: bool)
      modifies store
      ensures GetNeighborsStep(self, store.net, old(store.State()), p, env) == (store.conns, r, invoked)
      ensures store.peers == old(store.peers)
    {
      var conn, err, _ := Connect(p.addr, env);
      if err.Some? {
        return Err(err.value), false;
      }
      if conn.None? {
        return Err(ConnectionFailed), false;
      }
      if env.stateOf(conn.value) != Ready {
        return Err(ConnectionNotReady), false;
      }
      var reply, _, _ := Client.GetPeers(self, env.exchange(conn.value));
      r, invoked := reply, true;
    }
  }
}
