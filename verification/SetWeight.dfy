/**
 * `ipvs_interface::set_weight` of src/ipvs_interface.cpp: two parses over one record, the checks
 * between them, and the update of a destination.
 */
module SetWeight {
  import opened Machine
  import opened Options
  import opened CText
  import opened Records
  import N = Netlink
  import C = Codec
  import opened AddressParser
  import L = Libipvs
  import K = Kernel

  /** The command entry after `memset` and the defaults. */
  const BASE: Service := Service(IPPROTO_TCP, 0, 0, ZEROS, 0, 0, 0xFFFF_FFFF, 0, ZEROS, ZEROS)

  /** "wlc" in a zeroed array. */
  const WLC: seq<byte> := [119, 108, 99]

  /** The bytes of a text in ASCII. */
  function Ascii(s: string): (b: seq<byte>)
    requires forall i | 0 <= i < |s| :: s[i] as int < 0x80
  {
    seq(|s|, i requires 0 <= i < |s| => s[i] as int)
  }

  const WLC_NAME: Name := [119, 108, 99, 0, 0, 0, 0, 0, 0, 0, 0, 0, 0, 0, 0, 0]

  /** The destination of a parsed server, over a copy of the virtual service. */
  function DestFor(svc: Service, server: Endpoint, weight: i32): (d: Dest) {
    var t := Store(svc, server);
    Dest(if server.port.Some? then t.port else svc.port, IP_VS_CONN_F_DROUTE, weight, 0, 0, t.af, t.addr)
  }

  /** The records handed to `ipvs_update_dest`, or None when the call gives up before it. */
  function CommandFor(net: Net, vip: string, server: string, weight: i32): (r: Option<(Service, Dest)>) {
    match Parse(net, IPPROTO_TCP, vip)
    case None => None
    case Some(v) =>
      var svc := Store(BASE, v);
      match Parse(net, IPPROTO_TCP, server)
      case None => None
      case Some(s) =>
        if svc.port == 0 then None
        else Some((svc.(sched := WLC_NAME), DestFor(svc, s, weight)))
  }

  /** `set_weight`; `server` is the caller's string buffer, `vip` is copied first. */
  method SetWeight(lib: L.Session, net: Net, vip: string, server: array<char>, weight: i32, env: L.Env)
    returns (ok: bool)
    requires lib.Valid() && Terminated(server, 0)
    modifies lib, server
    ensures lib.Valid() && lib.live == old(lib.live) && lib.tryNl == old(lib.tryNl)
    ensures
      var cmd := CommandFor(net, CStr(vip), old(At(server, 0)), weight);
      if cmd.None? then !ok && lib.wire == old(lib.wire)
      else
        var (svc, dest) := cmd.value;
        && ok == (L.UpdateReaches(lib.tryNl, svc, dest, env) && env.received)
        && lib.wire == old(lib.wire) + (
             if L.UpdateReaches(lib.tryNl, svc, dest, env)
             then [L.Packet(if lib.tryNl then Some(old(lib.family)) else None,
                            L.UpdateRequest(lib.tryNl, svc, dest).value)] else [])
  {
    hide CommandFor, L.UpdateReaches, L.UpdateRequest;
    var cmd := BuildCommand(net, vip, server, weight);
    if cmd.None? {
      return false;
    }
    var (svc, dest) := cmd.value;
    var rc := lib.UpdateDest(svc, dest, env);
    return rc == 0;
  }

  /** Everything `set_weight` does before it calls the library. */
  method BuildCommand(net: Net, vip: string, server: array<char>, weight: i32) returns (cmd: Option<(Service, Dest)>)
    requires Terminated(server, 0)
    modifies server
    ensures cmd == CommandFor(net, CStr(vip), old(At(server, 0)), weight)
  {
    hide Parse, Residue, Htons, At, CStr, Terminated, OnlyCuts, N.NameText;
    var vipCopy := CopyText(vip);
    var parse, svc := ParseService(net, vipCopy, BASE);
    if parse == SERVICE_NONE {
      return None;
    }
    var parse2, t := ParseService(net, server, svc);
    var dest := Dest(t.port, IP_VS_CONN_F_DROUTE, weight, 0, 0, t.af, t.addr);
    if parse2 == SERVICE_ADDR {
      dest := dest.(port := svc.port);
    }
    if parse2 == SERVICE_NONE {
      return None;
    }
    if svc.fwmark == 0 && svc.port == 0 && And(svc.flags, IP_VS_SVC_F_PERSISTENT) == 0 {
      return None;
    }
    if And(svc.flags, IP_VS_SVC_F_ONEPACKET) != 0 && svc.fwmark == 0 && svc.protocol != IPPROTO_UDP {
      return None;
    }
    WlcName();
    if |N.NameText(svc.sched)| == 0 {
      svc := svc.(sched := WLC_NAME);
    }
    return Some((svc, dest));
  }

  /** A private NUL-terminated copy. */
  method CopyText(s: string) returns (buf: array<char>)
    ensures fresh(buf) && Terminated(buf, 0) && At(buf, 0) == CStr(s)
  {
    buf := new char[|s| + 1](i => if 0 <= i < |s| then s[i] else NUL);
    assert buf[..] == s + [NUL];
    assert buf[0..] == buf[..];
    CStrOfCopy(s);
  }

  lemma {:induction false} CStrOfCopy(s: string)
    ensures CStr(s + [NUL]) == CStr(s) && NUL in s + [NUL]
  {
    var t := CStr(s);
    if |t| < |s| {
      assert s + [NUL] == t + [NUL] + (s[|t| + 1..] + [NUL]);
      CStrUnique(t, s[|t| + 1..] + [NUL]);
    } else {
      assert s + [NUL] == t + [NUL] + [];
      CStrUnique(t, []);
    }
  }

  // ---- what is issued -----------------------------------------------------

  function HostFamily(h: Host): (af: u16) {
    if h.V6? then AF_INET6 else AF_INET
  }

  function HostBytes(h: Host): (s: seq<byte>) {
    match h
    case V6(a) => a
    case V4(q) => q
  }

  lemma {:induction false} StoreAddress(svc: Service, e: Endpoint)
    ensures Store(svc, e).af == HostFamily(e.host)
    ensures Significant(Store(svc, e).af, Store(svc, e).addr) == HostBytes(e.host)
  {
  }

  lemma {:induction false} HtonsZero(p: u16)
    ensures Htons(p) == 0 <==> p == 0
  {
  }

  lemma {:induction false} WlcName()
    ensures N.NameText(WLC_NAME) == WLC && N.Terminated(WLC_NAME)
    ensures N.NameText(ZEROS) == [] && N.Terminated(ZEROS)
  {
    assert WLC_NAME == WLC + [0] + [0, 0, 0, 0, 0, 0, 0, 0, 0, 0, 0, 0];
    N.NameTextUnique(WLC, [0, 0, 0, 0, 0, 0, 0, 0, 0, 0, 0, 0]);
    C.EmptyName(ZEROS);
  }

  /**
   * Every issued command is for an unmarked TCP service with a nonzero port, scheduler "wlc", no
   * persistence engine and no flags; the destination is direct-routed with the given weight and no
   * thresholds, its family and significant address bytes come from the server text alone, and its
   * port is the server's explicit port or else the virtual service's.
   */
  lemma {:induction false} IssuedCommand(net: Net, vip: string, server: string, weight: i32)
    requires CommandFor(net, vip, server, weight).Some?
    ensures
      var (svc, dest) := CommandFor(net, vip, server, weight).value;
      var v, s := Parse(net, IPPROTO_TCP, vip), Parse(net, IPPROTO_TCP, server);
      && v.Some? && s.Some?
      && svc.protocol == IPPROTO_TCP && svc.fwmark == 0 && svc.flags == 0 && svc.timeout == 0
      && svc.netmask == (if v.value.host.V6? then 128 else 0xFFFF_FFFF)
      && N.NameText(svc.sched) == WLC && N.NameText(svc.pe) == []
      && svc.af == HostFamily(v.value.host) && Significant(svc.af, svc.addr) == HostBytes(v.value.host)
      && v.value.port.Some? && v.value.port.value != 0 && svc.port == Htons(v.value.port.value)
      && dest.connFlags == IP_VS_CONN_F_DROUTE && dest.weight == weight && dest.upper == 0 && dest.lower == 0
      && dest.af == HostFamily(s.value.host) && Significant(dest.af, dest.addr) == HostBytes(s.value.host)
      && dest.port == Htons(ServerPort(v.value, s.value))
      && Holds(svc.port, v.value.port.value) && Holds(dest.port, ServerPort(v.value, s.value))
  {
    hide Parse, N.NameText, Htons, Holds;
    var v, s := Parse(net, IPPROTO_TCP, vip).value, Parse(net, IPPROTO_TCP, server).value;
    var svc := Store(BASE, v);
    StoreAddress(BASE, v);
    StoreAddress(svc, s);
    WlcName();
    if v.port.Some? {
      HtonsZero(v.port.value);
      HtonsHolds(v.port.value);
      HtonsHolds(ServerPort(v, s));
    }
  }

  /** A command is issued exactly when both texts parse and the virtual service has a nonzero port. */
  lemma {:induction false} IssuedIff(net: Net, vip: string, server: string, weight: i32)
    ensures CommandFor(net, vip, server, weight).Some? <==>
            && Parse(net, IPPROTO_TCP, vip).Some? && Parse(net, IPPROTO_TCP, server).Some?
            && Parse(net, IPPROTO_TCP, vip).value.port.Some?
            && Parse(net, IPPROTO_TCP, vip).value.port.value != 0
  {
    hide Parse, Htons;
    if Parse(net, IPPROTO_TCP, vip).Some? && Parse(net, IPPROTO_TCP, vip).value.port.Some? {
      HtonsZero(Parse(net, IPPROTO_TCP, vip).value.port.value);
    }
  }

  // ---- what the kernel is asked for ---------------------------------------

  /** The request of a `set_weight` call on a backend, if one is made. */
  function RequestFor(netlink: bool, net: Net, vip: string, server: string, weight: i32): (r: Option<L.Request>) {
    match CommandFor(net, vip, server, weight)
    case None => None
    case Some((svc, dest)) => L.UpdateRequest(netlink, svc, dest)
  }

  /** The abstract update it asks for. */
  function UpdateFor(netlink: bool, net: Net, vip: string, server: string, weight: i32): (u: Option<K.Update>) {
    match RequestFor(netlink, net, vip, server, weight)
    case None => None
    case Some(r) => K.Denote(r)
  }

  lemma {:induction false} UpdateNeedsCommand(netlink: bool, net: Net, vip: string, server: string, weight: i32)
    ensures UpdateFor(netlink, net, vip, server, weight).Some? ==> CommandFor(net, vip, server, weight).Some?
  {
    hide CommandFor;
  }

  /** The port of the server, or else that of the virtual service. */
  function ServerPort(v: Endpoint, s: Endpoint): (p: u16)
    requires v.port.Some?
  {
    if s.port.Some? then s.port.value else v.port.value
  }

  /** A port field holds the port in network byte order. */
  predicate Holds(field: u16, port: u16) {
    N.WordBytes(field, N.W16) == NetworkOrder(port)
  }

  lemma {:induction false} HtonsHolds(port: u16)
    ensures Holds(Htons(port), port)
  {
    HtonsBytes(port);
  }

  /** The port attributes, or the port fields of the sockopt records, as bytes. */
  predicate PortsOnWire(r: L.Request, vport: u16, dport: u16) {
    match r
    case NlSetDest(svc, dest) => svc.port == Some(NetworkOrder(vport)) && dest.port == Some(NetworkOrder(dport))
    case SockEditDest(svc, dest) => Holds(svc.port, vport) && Holds(dest.port, dport)
    case _ => false
  }

  /** The update names the parsed TCP endpoints and asks for direct routing (3), the weight, and no thresholds. */
  predicate AsksFor(u: K.Update, v: Endpoint, s: Endpoint, weight: i32)
    requires v.port.Some?
  {
    && u.svc.ByAddress? && u.svc.af == (if v.host.V6? then 10 else 2) && u.svc.protocol == 6
    && u.svc.addr == HostBytes(v.host) && Holds(u.svc.port, v.port.value)
    && u.options.sched == Ascii("wlc") && u.options.pe == [] && u.options.flags == 0
    && u.dest.af == (if s.host.V6? then 10 else 2) && u.dest.addr == HostBytes(s.host) && Holds(u.dest.port, ServerPort(v, s))
    && u.state == K.DestState(3, weight, 0, 0)
  }

  /** Both backends put the parsed ports on the wire in network byte order. */
  lemma {:induction false} PortsAreParsed(netlink: bool, net: Net, vip: string, server: string, weight: i32)
    requires RequestFor(netlink, net, vip, server, weight).Some?
    ensures
      var v, s := Parse(net, IPPROTO_TCP, vip), Parse(net, IPPROTO_TCP, server);
      && v.Some? && v.value.port.Some? && s.Some?
      && PortsOnWire(RequestFor(netlink, net, vip, server, weight).value, v.value.port.value, ServerPort(v.value, s.value))
  {
    hide Parse, CommandFor, Htons, Holds, N.NameText, C.EncodeService, C.EncodeDest, NetworkOrder;
    IssuedCommand(net, vip, server, weight);
    var (svc, dest) := CommandFor(net, vip, server, weight).value;
    var v, s := Parse(net, IPPROTO_TCP, vip).value, Parse(net, IPPROTO_TCP, server).value;
    PortAttributes(svc, dest, v.port.value, ServerPort(v, s));
  }

  lemma {:induction false} PortAttributes(svc: Service, dest: Dest, vport: u16, dport: u16)
    requires svc.fwmark == 0 && Holds(svc.port, vport) && Holds(dest.port, dport)
    ensures C.EncodeService(svc).port == Some(NetworkOrder(vport))
    ensures C.EncodeDest(dest).port == Some(NetworkOrder(dport))
  {
    hide N.WordBytes, NetworkOrder;
  }

  lemma {:induction false} CommandMeaning(net: Net, vip: string, server: string, weight: i32)
    requires CommandFor(net, vip, server, weight).Some?
    ensures
      var v, s := Parse(net, IPPROTO_TCP, vip), Parse(net, IPPROTO_TCP, server);
      var nl, so := UpdateFor(true, net, vip, server, weight), UpdateFor(false, net, vip, server, weight);
      && v.Some? && v.value.port.Some? && s.Some?
      && nl.Some? && AsksFor(nl.value, v.value, s.value, weight)
      && so == (if v.value.host.V4? && s.value.host.V4? then nl else None)
  {
    hide Holds;
    hide Parse, N.NameText, Htons, K.Denote, CommandFor, C.EncodeService, C.EncodeDest, L.SockoptForm;
    IssuedCommand(net, vip, server, weight);
    var (svc, dest) := CommandFor(net, vip, server, weight).value;
    var v, s := Parse(net, IPPROTO_TCP, vip).value, Parse(net, IPPROTO_TCP, server).value;
    HtonsHolds(v.port.value);
    HtonsHolds(ServerPort(v, s));
    assert WLC == Ascii("wlc");
    NamesTerminated(svc);
    K.NetlinkDenotes(svc, dest);
    assert dest.(connFlags := dest.connFlags % 8) == dest;
    K.BackendsAgreeIff(svc, dest);
  }

  /**
   * End to end, for all texts: netlink asks for an update exactly when both parse and the virtual
   * service has a nonzero port, and then for the parsed one; sockopt asks for the same one exactly
   * when in addition both endpoints are IPv4, and for nothing otherwise.  Each request carries the
   * parsed ports in network byte order.
   */
  lemma {:induction false} UpdateMeaning(net: Net, vip: string, server: string, weight: i32)
    ensures
      var v, s := Parse(net, IPPROTO_TCP, vip), Parse(net, IPPROTO_TCP, server);
      var nl, so := UpdateFor(true, net, vip, server, weight), UpdateFor(false, net, vip, server, weight);
      && (nl.Some? <==> v.Some? && s.Some? && v.value.port.Some? && v.value.port.value != 0)
      && (nl.Some? ==> AsksFor(nl.value, v.value, s.value, weight))
      && so == (if nl.Some? && v.value.host.V4? && s.value.host.V4? then nl else None)
      && forall netlink: bool ::
           var r := RequestFor(netlink, net, vip, server, weight);
           r.Some? ==>
             && v.Some? && v.value.port.Some? && s.Some?
             && PortsOnWire(r.value, v.value.port.value, ServerPort(v.value, s.value))
  {
    hide Parse, CommandFor, UpdateFor, RequestFor, PortsOnWire;
    forall netlink: bool | RequestFor(netlink, net, vip, server, weight).Some?
      ensures
        var v, s := Parse(net, IPPROTO_TCP, vip), Parse(net, IPPROTO_TCP, server);
        && v.Some? && v.value.port.Some? && s.Some?
        && PortsOnWire(RequestFor(netlink, net, vip, server, weight).value,
                       v.value.port.value, ServerPort(v.value, s.value))
    {
      PortsAreParsed(netlink, net, vip, server, weight);
    }
    IssuedIff(net, vip, server, weight);
    UpdateNeedsCommand(true, net, vip, server, weight);
    UpdateNeedsCommand(false, net, vip, server, weight);
    if CommandFor(net, vip, server, weight).Some? {
      CommandMeaning(net, vip, server, weight);
    }
  }

  lemma {:induction false} NamesTerminated(svc: Service)
    requires N.NameText(svc.sched) == WLC && N.NameText(svc.pe) == []
    ensures N.Terminated(svc.sched) && N.Terminated(svc.pe)
  {
  }
}
