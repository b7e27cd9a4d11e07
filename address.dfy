/** Peer address validation of peer/peer_store.go (validatePeerAddr, parseIP).
    The Go library routines they call (net.SplitHostPort, net.ParseIP,
    net.LookupPort, url.Parse) are not modelled; they are the fields of `Net`,
    and only the string steps the store itself performs are written out. */
module Address {
  import opened Types

  /** The library routines address validation depends on, as total functions:
      `None` stands for the routine's error (or nil) result. */
  datatype Net = Net(
    splitHostPort: string -> Option<(string, string)>,  // net.SplitHostPort
    parseIP: string -> Option<string>,                   // net.ParseIP(...).String(), None for nil
    lookupPort: string -> Option<int>,                   // net.LookupPort("tcp", ...)
    urlHost: string -> Option<string>)                   // url.Parse(...).Host, None on error

  /** `strings.TrimPrefix`: drops one leading copy of `prefix`, if present. */
  function TrimPrefix(s: string, prefix: string): (r: string)
    ensures prefix <= s ==> prefix + r == s
    ensures !(prefix <= s) ==> r == s
    ensures |r| <= |s|
  {
    if prefix <= s then s[|prefix|..] else s
  }

  /** `fmt.Sprintf("%s:%s", host, port)`. */
  function HostColonPort(host: string, port: string): (r: string)
    ensures |r| == |host| + 1 + |port|
    ensures r[..|host|] == host && r[|host|] == ':' && r[|host| + 1..] == port
  {
    host + ":" + port
  }

  /** A port `net.LookupPort` accepts. */
  predicate PortOk(net: Net, port: string)
  {
    net.lookupPort(port).Some? && net.lookupPort(port).value >= 0
  }

  /** `parseIP`: a `host:port` pair whose host is an IP and whose port resolves is
      reassembled as `host:port`; a bare IP is returned in canonical form;
      anything else is `InvalidPeerAddress`. */
  function ParseIP(net: Net, addr: string): (r: Result<string>)
    ensures r.Err? ==> r.error == InvalidPeerAddress
    ensures net.splitHostPort(addr).None? ==>
              (r.Ok? <==> net.parseIP(addr).Some?) && (r.Ok? ==> r.value == net.parseIP(addr).value)
    ensures net.splitHostPort(addr).Some? ==>
              var (host, port) := net.splitHostPort(addr).value;
              (r.Ok? <==> net.parseIP(host).Some? && PortOk(net, port))
              && (r.Ok? ==> r.value == HostColonPort(host, port))
  {
    match net.splitHostPort(addr)
    case None =>
      (match net.parseIP(addr)
       case Some(ip) => Ok(ip)
       case None => Err(InvalidPeerAddress))
    case Some((host, port)) =>
      if net.parseIP(host).None? then Err(InvalidPeerAddress)
      else if !PortOk(net, port) then Err(InvalidPeerAddress)
      else Ok(HostColonPort(host, port))
  }

  /** `validatePeerAddr`: the normalised store key of `addr`. A non-empty
      `parseIP` result wins; otherwise the URL host with one leading "www."
      removed (possibly empty); a URL that does not parse is an error. */
  function ValidatePeerAddr(net: Net, addr: string): (r: Result<string>)
    ensures ParseIP(net, addr).Ok? && ParseIP(net, addr).value != "" ==> r == ParseIP(net, addr)
    ensures !(ParseIP(net, addr).Ok? && ParseIP(net, addr).value != "") ==>
              (r.Err? <==> net.urlHost(addr).None?)
              && (r.Err? ==> r.error == UrlParseError)
              && (r.Ok? ==> r.value == TrimPrefix(net.urlHost(addr).value, "www."))
  {
    var ip := ParseIP(net, addr);
    if ip.Ok? && ip.value != "" then ip
    else
      match net.urlHost(addr)
      case None => Err(UrlParseError)
      case Some(host) => Ok(TrimPrefix(host, "www."))
  }
}
