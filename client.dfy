/** The client side of the exchange RPC, peer/client.go: the outgoing metadata
    that announces this node, and the conversion of the response records back
    into peers. The RPC invocation itself is not modelled; its reply is an input. */
module Client {
  import opened Types
  import opened Proto

  /** `opts` is the option list `Client.GetPeers` builds for `self` when the map
      iteration visits the attributes in the order `order`: first the pair
      ("addr", address), then ("attr-" + k, v) for each attribute. */
  ghost predicate OutgoingFor(opts: seq<string>, self: PeerInfo, order: seq<string>)
  {
    && Listing(order, self.attrs.Keys)
    && |opts| == 2 + 2 * |order|
    && opts[0] == "addr" && opts[1] == self.addr
    && (forall i :: 0 <= i < |order| ==>
          && opts[2 + 2 * i] == "attr-" + order[i]
          && order[i] in self.attrs
          && opts[3 + 2 * i] == self.attrs[order[i]])
  }

  /** An attribute key on the wire can never be "addr": it carries the
      "attr-" prefix. */
  lemma AttributeKeyIsNotAddr(k: string)
    ensures "attr-" + k != "addr"
  {
    assert ("attr-" + k)[2] == 't' && "addr"[2] == 'd';
  }

  /** The option list: starts with ("addr", self.addr), then one pair per
      attribute, so its length is 2 + 2 * |attributes|. */
  method OutgoingMetadata(self: PeerInfo) returns (opts: seq<string>, ghost order: seq<string>)
    ensures OutgoingFor(opts, self, order)
    ensures |opts| == 2 + 2 * |self.attrs|
    ensures opts[..2] == ["addr", self.addr]
  {
    opts := ["addr", self.addr];
    order := [];
    var rest := self.attrs.Keys;
    while rest != {}
      invariant rest <= self.attrs.Keys
      invariant Listing(order, self.attrs.Keys - rest)
      invariant |opts| == 2 + 2 * |order|
      invariant opts[0] == "addr" && opts[1] == self.addr
      invariant forall i :: 0 <= i < |order| ==>
                  && opts[2 + 2 * i] == "attr-" + order[i]
                  && order[i] in self.attrs
                  && opts[3 + 2 * i] == self.attrs[order[i]]
      decreases rest
    {
      var k :| k in rest;
      ListingExtend(order, self.attrs.Keys, rest, k);
      opts := opts + ["attr-" + k, self.attrs[k]];
      order := order + [k];
      rest := rest - {k};
    }
    ListingSize(order, self.attrs.Keys);
  }

  /** Entry `i` is the last entry of `l` with its key. */
  ghost predicate LastOfKey(l: seq<Attribute>, i: int)
    requires 0 <= i < |l|
  {
    forall j :: i < j < |l| ==> l[j].key != l[i].key
  }

  /** The attribute map of a record, built by assigning the entries in order:
      its keys are the entries' keys, and for a repeated key the last value wins. */
  function AttrsFromList(l: seq<Attribute>): (r: map<string, string>)
    ensures r.Keys == (set a | a in l :: a.key)
    ensures forall i :: 0 <= i < |l| && LastOfKey(l, i) ==> r[l[i].key] == l[i].value
  {
    if l == [] then map[]
    else
      var init := AttrsFromList(l[..|l| - 1]);
      var last := l[|l| - 1];
      assert forall a :: a in l <==> a in l[..|l| - 1] || a == last;
      assert forall i :: 0 <= i < |l| - 1 ==> l[i] == l[..|l| - 1][i];
      init[last.key := last.value]
  }

  /** `peersFromPbPeers`: one peer per record, in order, with the record's
      address and attribute map and no handle; the state label is dropped. */
  function PeersFromPb(pbs: seq<PbPeer>): (r: seq<Peer>)
    ensures |r| == |pbs|
    ensures forall i :: 0 <= i < |pbs| ==>
              r[i].addr == pbs[i].address && r[i].attrs == AttrsFromList(pbs[i].attributes) && r[i].conn == None
  {
    if pbs == [] then []
    else
      var last := pbs[|pbs| - 1];
      PeersFromPb(pbs[..|pbs| - 1]) + [Peer(last.address, AttrsFromList(last.attributes), None)]
  }

  /** `Client.GetPeers`: announces `self` through the option list and turns a
      successful reply of the exchange RPC into peers; an RPC error is returned. */
  method GetPeers(self: PeerInfo, reply: Result<seq<PbPeer>>)
    returns (r: Result<seq<Peer>>, ghost opts: seq<string>, ghost order: seq<string>)
    ensures OutgoingFor(opts, self, order)
    ensures reply.Err? ==> r == Err(reply.error)
    ensures reply.Ok? ==> r == Ok(PeersFromPb(reply.value))
  {
    opts, order := OutgoingMetadata(self);
    if reply.Err? {
      r := Err(reply.error);
    } else {
      r := Ok(PeersFromPb(reply.value));
    }
  }
}
