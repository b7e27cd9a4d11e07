/** The exchange messages of proto/p2p.pb.go, as plain values (only the
    fields; the generated reflection and registration code is not modelled). */
module Proto {

  /** `Attribute{Key, Value}`. */
  datatype Attribute = Attribute(key: string, value: string)

  /** `Peer{Address, Attributes, State}`. */
  datatype PbPeer = PbPeer(address: string, attributes: seq<Attribute>, state: string)

  /** `l` lists the map `m`: one entry per key, keys pairwise distinct, each
      carrying the key's value. */
  ghost predicate ListsAttributes(l: seq<Attribute>, m: map<string, string>)
  {
    && (forall i, j :: 0 <= i < j < |l| ==> l[i].key != l[j].key)
    && (set a | a in l :: a.key) == m.Keys
    && (forall i :: 0 <= i < |l| ==> l[i].key in m && m[l[i].key] == l[i].value)
  }
}
