/** The server side of the exchange RPC, rpc/rpc.go: decoding the caller's
    identity from request metadata, converting peers into response records, and
    the GetPeers handler. Also the two round trips between this file and
    peer/client.go: records back to peers, and the client's metadata back to
    its identity. */
module Rpc {
  import opened Types
  import opened Proto
  import opened Store
  import opened Service
  import Client

  /** Request metadata as the server sees it: each key with its values, in the
      order they were appended. */
  type Metadata = map<string, seq<string>>

  /** The prefix that marks an attribute key in the metadata. */
  const AttrPrefix: string := "attr-"

  /** ASCII lower-casing of one character. */
  function LowerChar(c: char): char
  {
    if 'A' <= c <= 'Z' then (c as int + 32) as char else c
  }

  /** Lower-casing of a key, as the metadata library applies to every key it
      transmits (restricted to ASCII letters here). */
  function Lower(s: string): (r: string)
    ensures |r| == |s| && forall i :: 0 <= i < |s| ==> r[i] == LowerChar(s[i])
  {
    seq(|s|, i requires 0 <= i < |s| => LowerChar(s[i]))
  }

  /** Key of the `i`-th pair of a flat key/value option list. */
  function KeyAt(opts: seq<string>, i: nat): string
    requires 2 * i + 1 < |opts|
  {
    opts[2 * i]
  }

  /** Value of the `i`-th pair of a flat key/value option list. */
  function ValAt(opts: seq<string>, i: nat): string
    requires 2 * i + 1 < |opts|
  {
    opts[2 * i + 1]
  }

  /** The values received so far under `k`, none when the key is absent. */
  function ValuesOf(md: Metadata, k: string): seq<string>
  {
    if k in md then md[k] else []
  }

  /** `md` after receiving value `v` under `key`: appended to that key's list,
      every other key unchanged. */
  function Receive(md: Metadata, key: string, v: string): (r: Metadata)
    ensures forall k :: k in r <==> k in md || k == key
    ensures r[key] == ValuesOf(md, key) + [v]
    ensures forall k :: k in md && k != key ==> r[k] == md[k]
  {
    md[key := ValuesOf(md, key) + [v]]
  }

  /** The metadata a server receives for the client's flat option list: the
      pairs are taken in order, each key lower-cased, each value appended to
      that key's list. */
  function Transmit(opts: seq<string>): (r: Metadata)
    requires |opts| % 2 == 0
    ensures forall k :: k in r ==> |r[k]| > 0
  {
    if opts == [] then map[]
    else Receive(Transmit(opts[..|opts| - 2]), Lower(opts[|opts| - 2]), opts[|opts| - 1])
  }

  /** Dropping the last pair of a non-empty option list keeps the other pairs
      at their indices. */
  lemma InitPairs(opts: seq<string>)
    requires |opts| % 2 == 0 && opts != []
    ensures |opts[..|opts| - 2]| % 2 == 0 && |opts[..|opts| - 2]| / 2 == |opts| / 2 - 1
    ensures KeyAt(opts, |opts| / 2 - 1) == opts[|opts| - 2] && ValAt(opts, |opts| / 2 - 1) == opts[|opts| - 1]
    ensures forall i :: 0 <= i < |opts| / 2 - 1 ==>
              KeyAt(opts[..|opts| - 2], i) == KeyAt(opts, i) && ValAt(opts[..|opts| - 2], i) == ValAt(opts, i)
  {
  }

  /** Every key that arrives is the lower-cased key of some pair. */
  lemma {:induction false} TransmitKeysFromPairs(opts: seq<string>)
    requires |opts| % 2 == 0
    decreases |opts|
    ensures forall k :: k in Transmit(opts) ==> exists i :: 0 <= i < |opts| / 2 && Lower(KeyAt(opts, i)) == k
  {
    if opts != [] {
      var n := |opts| / 2;
      var init := opts[..|opts| - 2];
      InitPairs(opts);
      TransmitKeysFromPairs(init);
      var k := Lower(KeyAt(opts, n - 1));
      assert Transmit(opts) == Receive(Transmit(init), k, ValAt(opts, n - 1));
      forall k' | k' in Transmit(opts) ensures exists i :: 0 <= i < n && Lower(KeyAt(opts, i)) == k' {
        if k' != k {
          var i :| 0 <= i < n - 1 && Lower(KeyAt(init, i)) == k';
          assert Lower(KeyAt(opts, i)) == k';
        }
      }
    }
  }

  /** The lower-cased key of every pair arrives. */
  lemma {:induction false} TransmitKeysOfPairs(opts: seq<string>)
    requires |opts| % 2 == 0
    decreases |opts|
    ensures forall i :: 0 <= i < |opts| / 2 ==> Lower(KeyAt(opts, i)) in Transmit(opts)
  {
    if opts != [] {
      var n := |opts| / 2;
      var init := opts[..|opts| - 2];
      InitPairs(opts);
      TransmitKeysOfPairs(init);
      assert Transmit(opts) == Receive(Transmit(init), Lower(KeyAt(opts, n - 1)), ValAt(opts, n - 1));
      forall i | 0 <= i < n - 1 ensures Lower(KeyAt(opts, i)) in Transmit(opts) {
        assert Lower(KeyAt(init, i)) in Transmit(init);
      }
    }
  }

  /** The keys that arrive are exactly the lower-cased keys of the pairs. */
  lemma TransmitKeys(opts: seq<string>)
    requires |opts| % 2 == 0
    ensures forall k :: k in Transmit(opts) <==> exists i :: 0 <= i < |opts| / 2 && Lower(KeyAt(opts, i)) == k
  {
    TransmitKeysFromPairs(opts);
    TransmitKeysOfPairs(opts);
  }

  /** Every value arrives under its pair's lower-cased key. */
  lemma {:induction false} TransmitValues(opts: seq<string>)
    requires |opts| % 2 == 0
    decreases |opts|
    ensures forall i :: 0 <= i < |opts| / 2 ==>
              Lower(KeyAt(opts, i)) in Transmit(opts) && ValAt(opts, i) in Transmit(opts)[Lower(KeyAt(opts, i))]
  {
    if opts != [] {
      var n := |opts| / 2;
      var init := opts[..|opts| - 2];
      InitPairs(opts);
      TransmitValues(init);
      var md := Transmit(init);
      var k := Lower(KeyAt(opts, n - 1));
      assert Transmit(opts) == Receive(md, k, ValAt(opts, n - 1));
      forall i | 0 <= i < n - 1
        ensures Lower(KeyAt(opts, i)) in Transmit(opts) && ValAt(opts, i) in Transmit(opts)[Lower(KeyAt(opts, i))]
      {
        assert Lower(KeyAt(init, i)) in md && ValAt(init, i) in md[Lower(KeyAt(init, i))];
      }
    }
  }

  /** The keys of `opts`, once lower-cased, are pairwise distinct. */
  ghost predicate DistinctLoweredKeys(opts: seq<string>)
    requires |opts| % 2 == 0
  {
    forall i, j :: 0 <= i < j < |opts| / 2 ==> Lower(KeyAt(opts, i)) != Lower(KeyAt(opts, j))
  }

  /** Every pair of `opts` arrives as its own key holding exactly its value,
      and nothing else arrives. */
  ghost predicate Delivers(opts: seq<string>)
    requires |opts| % 2 == 0
  {
    && (forall i :: 0 <= i < |opts| / 2 ==>
          Lower(KeyAt(opts, i)) in Transmit(opts) && Transmit(opts)[Lower(KeyAt(opts, i))] == [ValAt(opts, i)])
    && (forall k :: k in Transmit(opts) ==> exists i :: 0 <= i < |opts| / 2 && Lower(KeyAt(opts, i)) == k)
  }

  /** The pairs of `opts` without its last pair keep their keys, values and
      distinctness. */
  lemma DistinctInit(opts: seq<string>)
    requires |opts| % 2 == 0 && opts != [] && DistinctLoweredKeys(opts)
    ensures DistinctLoweredKeys(opts[..|opts| - 2])
  {
    var init := opts[..|opts| - 2];
    InitPairs(opts);
    forall i, j | 0 <= i < j < |init| / 2 ensures Lower(KeyAt(init, i)) != Lower(KeyAt(init, j)) {
      assert KeyAt(init, i) == KeyAt(opts, i) && KeyAt(init, j) == KeyAt(opts, j);
    }
  }

  /** Appending a pair with a fresh key to a delivered list keeps it delivered. */
  lemma DeliversStep(opts: seq<string>)
    requires |opts| % 2 == 0 && opts != [] && DistinctLoweredKeys(opts)
    requires Delivers(opts[..|opts| - 2])
    ensures Delivers(opts)
  {
    var n := |opts| / 2;
    var init := opts[..|opts| - 2];
    InitPairs(opts);
    var md := Transmit(init);
    var k := Lower(KeyAt(opts, n - 1));
    forall i | 0 <= i < n - 1 ensures Lower(KeyAt(init, i)) != k {
      assert Lower(KeyAt(opts, i)) != Lower(KeyAt(opts, n - 1));
    }
    assert k !in md;
    var v := ValAt(opts, n - 1);
    var t := Transmit(opts);
    assert t == Receive(md, k, v);
    assert t[k] == [v];
    TransmitKeys(opts);
    forall i | 0 <= i < n - 1 ensures Lower(KeyAt(opts, i)) in t && t[Lower(KeyAt(opts, i))] == [ValAt(opts, i)] {
      assert Lower(KeyAt(init, i)) in md && md[Lower(KeyAt(init, i))] == [ValAt(init, i)];
    }
  }

  /** With distinct keys, every pair arrives as its own key holding exactly its
      value, and nothing else arrives. */
  lemma {:induction false} TransmitDistinct(opts: seq<string>)
    requires |opts| % 2 == 0 && DistinctLoweredKeys(opts)
    ensures Delivers(opts)
    decreases |opts|
  {
    if opts != [] {
      DistinctInit(opts);
      TransmitDistinct(opts[..|opts| - 2]);
      DeliversStep(opts);
    }
  }

  /** What the handler needs of incoming metadata: every attribute key carries
      at least one value (the code reads its first value unguarded). */
  ghost predicate WellFormed(md: Metadata)
  {
    forall k :: k in md && AttrPrefix <= k ==> |md[k]| > 0
  }

  /** `getPeerFromContext`: fails when there is no "addr" value; otherwise the
      peer has the first "addr" value as address and, as attributes, every key
      starting with "attr-", prefix removed, mapped to its first value. */
  function PeerFromMetadata(md: Metadata): (r: Result<Peer>)
    requires WellFormed(md)
    ensures r.Err? <==> "addr" !in md || md["addr"] == []
    ensures r.Err? ==> r.error == PeerAddressNotFound
    ensures r.Ok? ==> r.value.addr == md["addr"][0] && r.value.conn == None
    ensures r.Ok? ==> forall a :: a in r.value.attrs <==> AttrPrefix + a in md
    ensures r.Ok? ==> forall a :: a in r.value.attrs ==> r.value.attrs[a] == md[AttrPrefix + a][0]
  {
    if "addr" !in md || |md["addr"]| == 0 then Err(PeerAddressNotFound)
    else
      assert forall k :: AttrPrefix <= k ==> AttrPrefix + k[|AttrPrefix|..] == k;
      var attrs := map k | k in md && AttrPrefix <= k :: k[|AttrPrefix|..] := md[k][0];
      assert forall a :: AttrPrefix + a in md ==> (AttrPrefix + a)[|AttrPrefix|..] == a;
      Ok(Peer(md["addr"][0], attrs, None))
  }

  /** "addr" is never an attribute: no key of the form "attr-" + a can be it. */
  lemma AddrIsNeverAnAttribute(md: Metadata)
    requires WellFormed(md) && PeerFromMetadata(md).Ok?
    ensures forall a :: a in PeerFromMetadata(md).value.attrs ==> AttrPrefix + a != "addr"
  {
    forall a | a in PeerFromMetadata(md).value.attrs ensures AttrPrefix + a != "addr" {
      Client.AttributeKeyIsNotAddr(a);
    }
  }

  /** `pbs` are the response records for `ps`: same length and order, same
      addresses, each record listing its peer's attributes, and the label of
      the peer's state. */
  ghost predicate EncodesPeers(pbs: seq<PbPeer>, ps: seq<Peer>, stateOf: ConnId -> ConnState)
  {
    && |pbs| == |ps|
    && forall i :: 0 <= i < |ps| ==>
         && pbs[i].address == ps[i].addr
         && ListsAttributes(pbs[i].attributes, ps[i].attrs)
         && pbs[i].state == StateLabel(PeerState(ps[i].conn, stateOf))
  }

  /** The inner loop of `peersToPbPeers`: one record per attribute, in the map's
      iteration order. */
  method AttrsToPb(m: map<string, string>) returns (l: seq<Attribute>)
    ensures ListsAttributes(l, m)
    ensures |l| == |m|
  {
    l := [];
    ghost var order: seq<string> := [];
    var rest := m.Keys;
    while rest != {}
      invariant rest <= m.Keys
      invariant Listing(order, m.Keys - rest)
      invariant |l| == |order|
      invariant forall i :: 0 <= i < |l| ==> l[i].key == order[i] && order[i] in m && l[i].value == m[order[i]]
      decreases rest
    {
      var k :| k in rest;
      ListingExtend(order, m.Keys, rest, k);
      l := l + [Attribute(k, m[k])];
      order := order + [k];
      rest := rest - {k};
    }
    ListingSize(order, m.Keys);
    KeysOfListing(l, order);
  }

  /** The keys of `l`, entry by entry, are `order`. */
  lemma KeysOfListing(l: seq<Attribute>, order: seq<string>)
    requires |l| == |order| && forall i :: 0 <= i < |l| ==> l[i].key == order[i]
    ensures (set a | a in l :: a.key) == (set x | x in order)
  {
    forall x | x in order ensures x in (set a | a in l :: a.key) {
      var i :| 0 <= i < |order| && order[i] == x;
      assert l[i] in l;
    }
  }

  /** Appending the record of one more peer keeps the encoding. */
  lemma EncodesPeersStep(pbs: seq<PbPeer>, ps: seq<Peer>, stateOf: ConnId -> ConnState, pb: PbPeer, p: Peer)
    requires EncodesPeers(pbs, ps, stateOf)
    requires pb.address == p.addr && ListsAttributes(pb.attributes, p.attrs)
    requires pb.state == StateLabel(PeerState(p.conn, stateOf))
    ensures EncodesPeers(pbs + [pb], ps + [p], stateOf)
  {
    var pbs', ps' := pbs + [pb], ps + [p];
    assert forall i :: 0 <= i < |ps| ==> pbs'[i] == pbs[i] && ps'[i] == ps[i];
  }

  /** `peersToPbPeers`. */
  method PeersToPb(ps: seq<Peer>, stateOf: ConnId -> ConnState) returns (pbs: seq<PbPeer>)
    ensures EncodesPeers(pbs, ps, stateOf)
  {
    pbs := [];
    for i := 0 to |ps|
      invariant EncodesPeers(pbs, ps[..i], stateOf)
    {
      var attrs := AttrsToPb(ps[i].attrs);
      var pb := PbPeer(ps[i].addr, attrs, StateLabel(PeerState(ps[i].conn, stateOf)));
      EncodesPeersStep(pbs, ps[..i], stateOf, pb, ps[i]);
      assert ps[..i] + [ps[i]] == ps[..i + 1];
      pbs := pbs + [pb];
    }
    assert ps[..|ps|] == ps;
  }

  /** Attribute lists decode to the map they list. */
  lemma AttrsRoundTrip(l: seq<Attribute>, m: map<string, string>)
    requires ListsAttributes(l, m)
    ensures Client.AttrsFromList(l) == m
  {
    var r := Client.AttrsFromList(l);
    forall k | k in m ensures r[k] == m[k] {
      var i :| 0 <= i < |l| && l[i].key == k by {
        assert k in (set a | a in l :: a.key);
      }
      assert Client.LastOfKey(l, i);
    }
  }

  /** Decoding the records of a response gives back the peers' addresses and
      attribute maps, in order (the handles are not transmitted). */
  lemma {:induction false} PeersRoundTrip(pbs: seq<PbPeer>, ps: seq<Peer>, stateOf: ConnId -> ConnState)
    requires EncodesPeers(pbs, ps, stateOf)
    ensures |Client.PeersFromPb(pbs)| == |ps|
    ensures forall i :: 0 <= i < |ps| ==> Client.PeersFromPb(pbs)[i] == Peer(ps[i].addr, ps[i].attrs, None)
  {
    forall i | 0 <= i < |ps| ensures Client.PeersFromPb(pbs)[i] == Peer(ps[i].addr, ps[i].attrs, None) {
      AttrsRoundTrip(pbs[i].attributes, ps[i].attrs);
    }
  }

  /** The key "attr-" + k is its own lower-case form when k is. */
  lemma LowerAttrKey(k: string)
    requires Lower(k) == k
    ensures Lower(AttrPrefix + k) == AttrPrefix + k
  {
    var s := AttrPrefix + k;
    forall i | 0 <= i < |s| ensures LowerChar(s[i]) == s[i] {
      if i >= |AttrPrefix| {
        assert s[i] == k[i - |AttrPrefix|];
        assert Lower(k)[i - |AttrPrefix|] == LowerChar(k[i - |AttrPrefix|]);
      }
    }
  }

  /** The prefix can be cancelled: distinct attribute names give distinct keys. */
  lemma AttrPrefixCancel(a: string, b: string)
    requires AttrPrefix + a == AttrPrefix + b
    ensures a == b
  {
    assert (AttrPrefix + a)[|AttrPrefix|..] == a;
    assert (AttrPrefix + b)[|AttrPrefix|..] == b;
  }

  /** The pairs of the client's option list, as the transport sees them: pair 0
      is ("addr", address), pair i > 0 is the (lower-case) key of attribute
      order[i - 1] with its value, and no two keys coincide. */
  lemma OutgoingPairs(self: PeerInfo, opts: seq<string>, order: seq<string>)
    requires Client.OutgoingFor(opts, self, order)
    requires forall k :: k in self.attrs ==> Lower(k) == k
    ensures |opts| % 2 == 0 && |opts| / 2 == |order| + 1
    ensures Lower(KeyAt(opts, 0)) == "addr" && ValAt(opts, 0) == self.addr
    ensures forall i :: 1 <= i < |opts| / 2 ==>
              && Lower(KeyAt(opts, i)) == AttrPrefix + order[i - 1]
              && order[i - 1] in self.attrs && ValAt(opts, i) == self.attrs[order[i - 1]]
    ensures DistinctLoweredKeys(opts)
  {
    var n := |opts| / 2;
    assert Lower("addr") == "addr";
    forall i | 1 <= i < n
      ensures Lower(KeyAt(opts, i)) == AttrPrefix + order[i - 1]
      ensures order[i - 1] in self.attrs && ValAt(opts, i) == self.attrs[order[i - 1]]
    {
      assert opts[2 + 2 * (i - 1)] == "attr-" + order[i - 1];
      LowerAttrKey(order[i - 1]);
    }
    forall i, j | 0 <= i < j < n ensures Lower(KeyAt(opts, i)) != Lower(KeyAt(opts, j)) {
      Client.AttributeKeyIsNotAddr(order[j - 1]);
      if i > 0 && Lower(KeyAt(opts, i)) == Lower(KeyAt(opts, j)) {
        AttrPrefixCancel(order[i - 1], order[j - 1]);
        assert false;
      }
    }
  }

  /** The metadata carrying an identity: "addr" holds exactly `addr`, and the
      attribute keys are exactly "attr-" + k for the keys k of `attrs`, each
      holding exactly its value. */
  ghost predicate Announces(md: Metadata, addr: string, attrs: map<string, string>)
  {
    && "addr" in md && md["addr"] == [addr]
    && (forall a :: AttrPrefix + a in md ==> a in attrs && md[AttrPrefix + a] == [attrs[a]])
    && (forall a :: a in attrs ==> AttrPrefix + a in md)
  }

  /** What the transport delivers for the client's option list. */
  lemma TransmitOutgoing(self: PeerInfo, opts: seq<string>, order: seq<string>)
    requires Client.OutgoingFor(opts, self, order)
    requires forall k :: k in self.attrs ==> Lower(k) == k
    ensures |opts| % 2 == 0
    ensures Announces(Transmit(opts), self.addr, self.attrs)
  {
    OutgoingPairs(self, opts, order);
    TransmitDistinct(opts);
    var n := |opts| / 2;
    var md := Transmit(opts);
    assert md["addr"] == [self.addr];
    forall a | AttrPrefix + a in md ensures a in self.attrs && md[AttrPrefix + a] == [self.attrs[a]] {
      var i :| 0 <= i < n && Lower(KeyAt(opts, i)) == AttrPrefix + a;
      Client.AttributeKeyIsNotAddr(a);
      AttrPrefixCancel(order[i - 1], a);
    }
    forall a | a in self.attrs ensures AttrPrefix + a in md {
      assert a in (set x | x in order);
      var j :| 0 <= j < |order| && order[j] == a;
      assert Lower(KeyAt(opts, j + 1)) == AttrPrefix + a;
    }
  }

  /** Metadata announcing an identity decodes to that identity. */
  lemma DecodeAnnounced(md: Metadata, addr: string, attrs: map<string, string>)
    requires Announces(md, addr, attrs)
    ensures WellFormed(md)
    ensures PeerFromMetadata(md) == Ok(Peer(addr, attrs, None))
  {
    forall k | k in md && AttrPrefix <= k ensures |md[k]| > 0 {
      assert AttrPrefix + k[|AttrPrefix|..] == k;
    }
    var r := PeerFromMetadata(md);
    assert r.value.attrs == attrs;
  }

  /** The client's announcement decodes to the client's identity: the server
      recovers `self.addr` and `self.attrs` exactly, provided the attribute keys
      are lower-case (so that the transport does not alter them). */
  lemma MetadataRoundTrip(self: PeerInfo, opts: seq<string>, order: seq<string>)
    requires Client.OutgoingFor(opts, self, order)
    requires forall k :: k in self.attrs ==> Lower(k) == k
    ensures |opts| % 2 == 0
    ensures WellFormed(Transmit(opts))
    ensures PeerFromMetadata(Transmit(opts)) == Ok(Peer(self.addr, self.attrs, None))
  {
    TransmitOutgoing(self, opts, order);
    DecodeAnnounced(Transmit(opts), self.addr, self.attrs);
  }

  class RpcService {
    const svc: PeerService

    constructor (svc: PeerService)
      ensures this.svc == svc
    {
      this.svc := svc;
    }

    /** `GetPeers` handler: an undecodable caller is refused and the store is
        untouched; otherwise the response encodes the listed peers of the store
        as it was BEFORE the caller is registered, and then (deferred) the
        caller is added with `AddPeer`, whose error is discarded. */
    method GetPeers(md: Metadata, stateOf: ConnId -> ConnState) returns (resp: Result<seq<PbPeer>>)
      requires WellFormed(md)
      modifies svc.store
      ensures PeerFromMetadata(md).Err? ==>
                resp == Err(FailedToValidatePeer) && svc.store.peers == old(svc.store.peers)
      ensures PeerFromMetadata(md).Ok? ==>
                && resp.Ok? && EncodesPeers(resp.value, svc.getPeers(old(svc.store.State())), stateOf)
                && svc.store.peers == AddPeerStep(svc.store.net, old(svc.store.peers), PeerFromMetadata(md).value).0
      ensures svc.store.conns == old(svc.store.conns)
    {
      var caller := PeerFromMetadata(md);
      if caller.Err? {
        return Err(FailedToValidatePeer);
      }
      var ps := svc.getPeers(svc.store.State());
      var pbs := PeersToPb(ps, stateOf);
      resp := Ok(pbs);
      var _ := svc.AddPeer(caller.value);
    }
  }
}
