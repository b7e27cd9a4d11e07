/** Values shared by every part of the peer-discovery model: peers, connection
    handles and their states, and the errors the Go code returns. */
module Types {

  datatype Option<+T> = None | Some(value: T)

  /** Go's `(value, error)` pair: exactly one of the two is meaningful. */
  datatype Result<+T> = Ok(value: T) | Err(error: Error)

  /** The error values the core returns (peer/peer_store.go:14-18 and the
      `errors.New` strings of the service, discovery and rpc layers). */
  datatype Error =
    | InvalidPeerAddress      // peerstore: invalid peer address
    | PeerNotFound            // peerstore: peer not found
    | PeerAlreadyExists       // peerstore: failed to add peer. peer already exists
    | UrlParseError           // the error url.Parse returns
    | ConnectSelf             // cannot connect to self
    | ConnectionFailed        // connection failed (nil handle)
    | ConnectionNotReady      // connection not ready
    | DialError               // the error grpc.Dial returns
    | RemoteError             // the error the exchange RPC returns
    | CloseError              // the error ClientConn.Close returns
    | PeerAddressNotFound     // peer address not found (no "addr" metadata)
    | FailedToValidatePeer    // failed to validate peer

  /** An opaque outbound connection handle (`*grpc.ClientConn`, never nil here:
      a nil handle is `None` wherever one may be absent). */
  type ConnId = nat

  /** Connectivity states of a handle, plus the sentinel `State(-1)` that a peer
      without a handle reports. */
  datatype ConnState = Idle | Connecting | Ready | TransientFailure | Shutdown | NoConnection

  /** The stored metadata of a peer: its address and attributes. */
  datatype PeerInfo = PeerInfo(addr: string, attrs: map<string, string>)

  /** A peer value as the store hands it out: metadata plus an optional handle. */
  datatype Peer = Peer(addr: string, attrs: map<string, string>, conn: Option<ConnId>)

  /** A peer's connection state: the handle's own state, or `NoConnection` when
      it has no handle. */
  function PeerState(conn: Option<ConnId>, stateOf: ConnId -> ConnState): (s: ConnState)
    ensures conn == None ==> s == NoConnection
    ensures conn.Some? ==> s == stateOf(conn.value)
  {
    match conn
    case None => NoConnection
    case Some(c) => stateOf(c)
  }

  /** The textual label the exchange response carries for a state (the names of
      gRPC's connectivity.State.String; the sentinel prints as an invalid state). */
  function StateLabel(s: ConnState): (r: string)
    ensures r == "IDLE" <==> s == Idle
    ensures r == "CONNECTING" <==> s == Connecting
    ensures r == "READY" <==> s == Ready
    ensures r == "TRANSIENT_FAILURE" <==> s == TransientFailure
    ensures r == "SHUTDOWN" <==> s == Shutdown
    ensures r == "INVALID_STATE" <==> s == NoConnection
  {
    match s
    case Idle => "IDLE"
    case Connecting => "CONNECTING"
    case Ready => "READY"
    case TransientFailure => "TRANSIENT_FAILURE"
    case Shutdown => "SHUTDOWN"
    case NoConnection => "INVALID_STATE"
  }

  /** Distinct states get distinct labels, so a label names its state. */
  lemma StateLabelInjective(s: ConnState, t: ConnState)
    ensures StateLabel(s) == StateLabel(t) ==> s == t
  {
    if s != t {
      match s
      case Idle => assert StateLabel(t)[0] != 'I' || StateLabel(t)[1] != 'D';
      case Connecting => assert StateLabel(t)[0] != 'C';
      case Ready => assert StateLabel(t)[0] != 'R';
      case TransientFailure => assert StateLabel(t)[0] != 'T';
      case Shutdown => assert StateLabel(t)[0] != 'S';
      case NoConnection => assert StateLabel(t)[0] != 'I' || StateLabel(t)[1] != 'N';
    }
  }

  /** `order` enumerates the set `keys` once each: the shape of one pass of a Go
      `range` over a map, whose order is unspecified. */
  ghost predicate Listing<K>(order: seq<K>, keys: set<K>)
  {
    && (forall i, j :: 0 <= i < j < |order| ==> order[i] != order[j])
    && (set k | k in order) == keys
  }

  /** One more step of a map iteration: visiting a key not yet visited extends
      the listing of the visited keys. */
  lemma ListingExtend<K>(order: seq<K>, keys: set<K>, rest: set<K>, k: K)
    requires rest <= keys && Listing(order, keys - rest) && k in rest
    ensures Listing(order + [k], keys - (rest - {k}))
  {
    assert (set x | x in order + [k]) == (set x | x in order) + {k};
  }

  /** A listing of a set has exactly as many entries as the set. */
  lemma {:induction false} ListingSize<K>(order: seq<K>, keys: set<K>)
    requires Listing(order, keys)
    ensures |order| == |keys|
  {
    if order != [] {
      var last := order[|order| - 1];
      var init := order[..|order| - 1];
      assert forall k :: k in init ==> k in order;
      assert last !in init by {
        forall i | 0 <= i < |init| ensures init[i] != last {
          assert order[i] != order[|order| - 1];
        }
      }
      assert (set k | k in order) == (set k | k in init) + {last} by {
        forall k | k in order ensures k in init || k == last {
          var i :| 0 <= i < |order| && order[i] == k;
          if i < |order| - 1 { assert init[i] == k; }
        }
      }
      ListingSize(init, keys - {last});
    }
  }

  /** The elements of `s` that satisfy `f`, in their original order (the Go
      idiom of appending to a fresh slice inside a `range` loop). */
  function Filter<T(!new)>(s: seq<T>, f: T -> bool): (r: seq<T>)
    ensures |r| <= |s|
    ensures forall x :: x in r <==> x in s && f(x)
  {
    if s == [] then []
    else
      var init := Filter(s[..|s| - 1], f);
      var last := s[|s| - 1];
      assert forall x :: x in s <==> x in s[..|s| - 1] || x == last;
      if f(last) then init + [last] else init
  }
}
