/**
 * The netlink and sockopt operations of depend/libipvs/libipvs.c over the library's globals.
 * Messages, sockets and result buffers are handles; `live` holds those allocated and not yet
 * released, and releasing demands membership, so every release is the first one.
 */
module Libipvs {
  import opened Machine
  import opened Options
  import opened Records
  import opened Netlink
  import opened Codec
  import opened DumpTables

  /** What the foreign calls of one operation answer. */
  datatype Env = Env(
    copyAlloc: bool, bufAlloc: bool, msgAlloc: bool, svcFits: bool, destFits: bool,
    sockAlloc: bool, connected: bool, family: int, hooked: bool, sent: bool,
    replies: seq<Message>, received: bool)

  /** `struct ip_vs_service_kern`: the sockopt form of a service. */
  datatype ServiceKern = ServiceKern(
    protocol: u16, addr: Quad, port: u16, fwmark: u32, sched: Name, flags: u32, timeout: u32, netmask: u32)

  /** `struct ip_vs_dest_kern`. */
  datatype DestKern = DestKern(addr: Quad, port: u16, connFlags: u32, weight: i32, upper: u32, lower: u32)

  /** A request handed to the kernel. */
  datatype Request =
    | NlSetDest(svc: ServiceAttrs, dest: DestAttrs)
    | NlDumpServices
    | NlGetService(svc: ServiceAttrs)
    | NlDumpDests(svc: ServiceAttrs)
    | NlDumpDaemons
    | NlGetInfo
    | SockEditDest(svcKern: ServiceKern, destKern: DestKern)

  /**
   * A request on the wire.  A netlink message carries the family number that the global held when
   * the message was built, before its own exchange resolves the family again.
   */
  datatype Packet = Packet(family: Option<int>, request: Request)

  datatype Func = NoFunc | FInit | FUpdateDest | FGetDests | FGetService | FGetDaemon

  /** The prologue of `ipvs_nl_send_message` gets the message to the kernel. */
  predicate Delivered(env: Env) {
    env.sockAlloc && env.connected && env.family >= 0 && env.hooked && env.sent
  }

  /** What an exchange leaves in the global family. */
  function Resolved(env: Env, family: int): (f: int) {
    if env.sockAlloc && env.connected then env.family else family
  }

  /** The family left by a sequence of exchanges, each with what its resolve gave, if it got that far. */
  function FamilyAfter(family: int, resolutions: seq<Option<int>>): (f: int) {
    if resolutions == [] then family
    else
      var last := resolutions[|resolutions| - 1];
      if last.Some? then last.value else FamilyAfter(family, resolutions[..|resolutions| - 1])
  }

  /** The last exchange that got as far as resolving the family. */
  predicate LastResolution(rs: seq<Option<int>>, k: int) {
    0 <= k < |rs| && rs[k].Some? && forall j | k < j < |rs| :: rs[j].None?
  }

  /**
   * A message built after these exchanges is addressed to `ipvs` exactly when the last of them that
   * resolved the family found it, or none resolved it and it was known before.
   */
  lemma {:induction false} AddressedIff(family: int, rs: seq<Option<int>>, ipvs: int)
    ensures FamilyAfter(family, rs) == ipvs <==>
            if exists k :: LastResolution(rs, k) then exists k :: LastResolution(rs, k) && rs[k] == Some(ipvs)
            else family == ipvs
  {
    if rs != [] {
      var n := |rs| - 1;
      if rs[n].Some? {
        assert LastResolution(rs, n);
      } else {
        AddressedIff(family, rs[..n], ipvs);
        forall k
          ensures LastResolution(rs, k) <==> LastResolution(rs[..n], k)
        {
          assert LastResolution(rs[..n], k) ==> forall j | k < j < n :: rs[..n][j].None?;
          assert LastResolution(rs, k) ==> k < n && forall j | k < j < n :: rs[..n][j] == rs[j];
        }
      }
    }
  }

  /** The connection test of `ipvs_init` succeeds. */
  predicate Answers(ping: Env) {
    ping.sockAlloc && ping.connected && ping.family >= 0
  }

  /** `ipvs_init` returns 0. */
  predicate Initialises(ping: Env, info: Env) {
    if Answers(ping) then info.msgAlloc && Delivered(info) && info.received else info.sockAlloc && info.received
  }

  /** `ipvs_init` returns -1 with a raw socket open. */
  predicate Strands(ping: Env, info: Env) {
    !Answers(ping) && info.sockAlloc && !info.received
  }

  predicate SockoptAccepts(svc: Service, dest: Dest) {
    && (svc.af == AF_UNSPEC || svc.af == AF_INET) && svc.pe[0] == 0
    && (dest.af == AF_UNSPEC || dest.af == AF_INET)
  }

  function SockoptForm(svc: Service, dest: Dest): (r: Request) {
    SockEditDest(
      ServiceKern(svc.protocol, svc.addr[..4], svc.port, svc.fwmark, svc.sched, svc.flags, svc.timeout, svc.netmask),
      DestKern(dest.addr[..4], dest.port, dest.connFlags, dest.weight, dest.upper, dest.lower))
  }

  /** The request `ipvs_update_dest` issues on a backend, if it issues one at all. */
  function UpdateRequest(netlink: bool, svc: Service, dest: Dest): (r: Option<Request>) {
    if netlink then Some(NlSetDest(EncodeService(svc), EncodeDest(dest)))
    else if SockoptAccepts(svc, dest) then Some(SockoptForm(svc, dest))
    else None
  }

  /** The request reaches the kernel under these answers. */
  predicate UpdateReaches(netlink: bool, svc: Service, dest: Dest, env: Env) {
    if netlink then UpdateBuilt(env) && Delivered(env)
    else SockoptAccepts(svc, dest)
  }

  /** The netlink message of an update is built and handed to `ipvs_nl_send_message`. */
  predicate UpdateBuilt(env: Env) {
    env.msgAlloc && env.svcFits && env.destFits
  }

  class Session {
    var tryNl: bool
    var sock: Option<nat>
    /** The raw socket of the sockopt backend; None is -1. */
    var sockfd: Option<nat>
    var family: int
    var func: Func
    /** Requests that reached the kernel, in order. */
    var wire: seq<Packet>
    /** A destination callback would have left its buffer; nothing is modelled after that. */
    var overrun: bool
    /** A daemon callback would have followed a null pointer; nothing is modelled after that. */
    var fault: bool
    var next: nat
    ghost var live: set<nat>

    ghost predicate Valid()
      reads this
    {
      forall h | h in live :: h < next
    }

    constructor (netlink: bool)
      ensures Valid() && tryNl == netlink && wire == [] && live == {} && !overrun && !fault && sockfd.None?
    {
      tryNl, sock, sockfd, family, func, wire := netlink, None, None, 0, NoFunc, [];
      overrun, fault := false, false;
      next, live := 0, {};
    }

    method Alloc() returns (h: nat)
      requires Valid()
      modifies this`next, this`live
      ensures Valid() && h !in old(live) && live == old(live) + {h}
    {
      h := next;
      next := next + 1;
      live := live + {h};
    }

    method Free(h: nat)
      requires Valid() && h in live
      modifies this`live
      ensures Valid() && live == old(live) - {h}
    {
      live := live - {h};
    }

    /**
     * `ipvs_nl_send_message` up to the receive.  On failure the message and the socket are gone;
     * on success both are held and the request is with the kernel.
     */
    method Begin(msg: nat, packet: Packet, env: Env) returns (ok: bool)
      requires Valid() && msg in live
      modifies this`sock, this`family, this`wire, this`next, this`live
      ensures Valid() && ok == Delivered(env) && family == Resolved(env, old(family))
      ensures ok ==> sock.Some? && sock.value !in old(live) && live == old(live) + {sock.value}
      ensures !ok ==> live == old(live) - {msg} && sock.None?
      ensures wire == old(wire) + (if ok then [packet] else [])
    {
      if !env.sockAlloc {
        sock := None;
        Free(msg);
        return false;
      }
      var s := Alloc();
      sock := Some(s);
      if env.connected {
        family := env.family;
        if family >= 0 && env.hooked && env.sent {
          wire := wire + [packet];
          return true;
        }
      }
      Finish(msg, false);
      return false;
    }

    /** The two exits of `ipvs_nl_send_message` after the socket is open. */
    method Finish(msg: nat, ok: bool)
      requires Valid() && sock.Some? && sock.value in live && msg in live && sock.value != msg
      modifies this`sock, this`live
      ensures Valid() && live == old(live) - {msg, old(sock).value}
      ensures sock == (if ok then old(sock) else None)
    {
      if ok {
        Free(msg);
        Free(sock.value);
      } else {
        Free(sock.value);
        sock := None;
        Free(msg);
      }
    }

    /**
     * `ipvs_nl_send_message` with the callback that does nothing.  After success the global still
     * names the released socket.
     */
    method SendMessage(msg: nat, packet: Packet, env: Env) returns (rc: int)
      requires Valid() && msg in live
      modifies this`sock, this`family, this`wire, this`next, this`live
      ensures Valid() && live == old(live) - {msg}
      ensures family == (if env.sockAlloc && env.connected then env.family else old(family))
      ensures wire == old(wire) + (if Delivered(env) then [packet] else [])
      ensures rc == (if Delivered(env) && env.received then 0 else -1)
      ensures if rc == 0 then sock.Some? && sock.value !in live else sock.None?
    {
      var ok := Begin(msg, packet, env);
      if !ok {
        return -1;
      }
      Finish(msg, env.received);
      rc := if env.received then 0 else -1;
    }

    /** `ipvs_nl_send_message(NULL, …)`: tests the connection and releases the socket again. */
    method Ping(env: Env) returns (rc: int)
      requires Valid()
      modifies this`sock, this`family, this`next, this`live
      ensures Valid() && live == old(live) && sock.None?
      ensures family == (if env.sockAlloc && env.connected then env.family else old(family))
      ensures rc == (if env.sockAlloc && env.connected && env.family >= 0 then 0 else -1)
      ensures rc == 0 ==> family == env.family >= 0
    {
      if !env.sockAlloc {
        sock := None;
        return -1;
      }
      var s := Alloc();
      sock := Some(s);
      rc := -1;
      if env.connected {
        family := env.family;
        rc := if family >= 0 then 0 else -1;
      }
      Free(s);
      sock := None;
    }

    /**
     * `ipvs_init`: netlink when it answers, otherwise a raw socket.  The socket stays open, whether
     * or not the request for information on it succeeds, and an earlier one is forgotten.
     */
    method Init(ping: Env, info: Env) returns (rc: int)
      requires Valid()
      modifies this`tryNl, this`func, this`sock, this`sockfd, this`family, this`wire, this`next, this`live
      ensures Valid()
      ensures tryNl <==> ping.sockAlloc && ping.connected && ping.family >= 0
      ensures tryNl ==> live == old(live) && sockfd == old(sockfd)
      ensures !tryNl ==> (sockfd.Some? <==> info.sockAlloc)
      ensures !tryNl && sockfd.Some? ==> sockfd.value !in old(live) && live == old(live) + {sockfd.value}
      ensures !tryNl && sockfd.None? ==> live == old(live)
      ensures wire == old(wire) +
              (if tryNl && info.msgAlloc && Delivered(info) then [Packet(Some(ping.family), NlGetInfo)] else [])
      ensures rc == 0 <==> Initialises(ping, info)
      ensures rc == 0 && tryNl ==> family == info.family >= 0
    {
      hide Delivered, Resolved;
      func := FInit;
      tryNl := true;
      rc := Ping(ping);
      if rc == 0 {
        tryNl := true;
        rc := GetInfo(info);
        return;
      }
      tryNl := false;
      rc := OpenRaw(info);
    }

    /** `ipvs_getinfo`, netlink path. */
    method GetInfo(env: Env) returns (rc: int)
      requires Valid()
      modifies this`sock, this`family, this`wire, this`next, this`live
      ensures Valid() && live == old(live)
      ensures wire == old(wire) +
              (if env.msgAlloc && Delivered(env) then [Packet(Some(old(family)), NlGetInfo)] else [])
      ensures rc == (if env.msgAlloc && Delivered(env) && env.received then 0 else -1)
      ensures rc == 0 ==> family == env.family >= 0
    {
      if !env.msgAlloc {
        return -1;
      }
      var msg := Alloc();
      rc := SendMessage(msg, Packet(Some(family), NlGetInfo), env);
    }

    /** The sockopt half of `ipvs_init`. */
    method OpenRaw(env: Env) returns (rc: int)
      requires Valid()
      modifies this`sockfd, this`next, this`live
      ensures Valid() && (sockfd.Some? <==> env.sockAlloc)
      ensures sockfd.Some? ==> sockfd.value !in old(live) && live == old(live) + {sockfd.value}
      ensures sockfd.None? ==> live == old(live)
      ensures rc == (if env.sockAlloc && env.received then 0 else -1)
    {
      if !env.sockAlloc {
        sockfd := None;
        return -1;
      }
      var s := Alloc();
      sockfd := Some(s);
      rc := if env.received then 0 else -1;
    }

    /** `ipvs_close`; closing -1 does nothing. */
    method Close()
      requires Valid() && (!tryNl && sockfd.Some? ==> sockfd.value in live)
      modifies this`live
      ensures Valid() && live == (if tryNl || sockfd.None? then old(live) else old(live) - {sockfd.value})
    {
      if tryNl || sockfd.None? {
        return;
      }
      Free(sockfd.value);
    }

    /** `ipvs_update_dest` on either backend. */
    method UpdateDest(svc: Service, dest: Dest, env: Env) returns (rc: int)
      requires Valid()
      modifies this
      ensures Valid() && live == old(live) && overrun == old(overrun) && fault == old(fault)
      ensures tryNl == old(tryNl) && sockfd == old(sockfd)
      ensures wire == old(wire) + (
                if UpdateReaches(tryNl, svc, dest, env)
                then [Packet(if tryNl then Some(old(family)) else None, UpdateRequest(tryNl, svc, dest).value)] else [])
      ensures family == (if tryNl && UpdateBuilt(env) && env.sockAlloc && env.connected then env.family else old(family))
      ensures tryNl && rc == 0 ==> sock.Some? && sock.value !in live
      ensures rc == (if UpdateReaches(tryNl, svc, dest, env) && env.received then 0 else -1)
    {
      hide EncodeService, EncodeDest, Delivered;
      func := FUpdateDest;
      if tryNl {
        if !env.msgAlloc {
          return -1;
        }
        var msg := Alloc();
        var header := family;
        if !env.svcFits {
          Free(msg);
          return -1;
        }
        var s := FillServiceAttr(svc);
        if !env.destFits {
          Free(msg);
          return -1;
        }
        var d := FillDestAttr(dest);
        rc := SendMessage(msg, Packet(Some(header), NlSetDest(s, d)), env);
        return;
      }
      if svc.af != AF_UNSPEC && svc.af != AF_INET {
        return -1;
      }
      if svc.pe[0] != 0 {
        return -1;
      }
      if dest.af != AF_UNSPEC && dest.af != AF_INET {
        return -1;
      }
      wire := wire + [Packet(None, SockoptForm(svc, dest))];
      rc := if env.received then 0 else -1;
    }

    /** `ipvs_nl_send_message` with the callback that fills a service table. */
    method SendForServices(msg: nat, packet: Packet, get: ServiceTable, env: Env) returns (ok: bool)
      requires Valid() && msg in live && get.Room()
      modifies this`sock, this`family, this`wire, this`next, this`live, get, get.entries
      ensures Valid() && live == old(live) - {msg} && family == Resolved(env, old(family))
      ensures wire == old(wire) + (if Delivered(env) then [packet] else [])
      ensures get.Room() && (get.entries == old(get.entries) || fresh(get.entries))
      ensures ok == (Delivered(env) && env.received && |AcceptedServices(env.replies)| == |env.replies|)
      ensures ok ==> get.Contents() == old(get.Contents()) + AcceptedServices(env.replies)
    {
      hide AcceptedServices;
      ok := Begin(msg, packet, env);
      if !ok {
        return;
      }
      var rc := get.Receive(env.replies);
      ok := rc == 0 && env.received;
      Finish(msg, ok);
    }

    /** `ipvs_get_services`, netlink path: the table, or null with everything released. */
    method GetServices(env: Env) returns (table: ServiceTable?)
      requires Valid()
      modifies this
      ensures Valid()
      ensures table != null ==> fresh(table) && fresh(table.entries) && table.Room()
      ensures table != null ==> table.block !in old(live) && live == old(live) + {table.block}
      ensures table == null ==> live == old(live)
      ensures table != null <==>
              && env.bufAlloc && env.msgAlloc && Delivered(env) && env.received
              && |AcceptedServices(env.replies)| == |env.replies|
      ensures table != null ==> table.Contents() == AcceptedServices(env.replies)
      ensures wire == old(wire) + (
                if env.bufAlloc && env.msgAlloc && Delivered(env)
                then [Packet(Some(old(family)), NlDumpServices)] else [])
    {
      hide AcceptedServices, Delivered, Resolved;
      if !env.bufAlloc {
        return null;
      }
      var block := Alloc();
      var get := new ServiceTable(block);
      if env.msgAlloc {
        var msg := Alloc();
        var ok := SendForServices(msg, Packet(Some(family), NlDumpServices), get, env);
        if ok {
          return get;
        }
      }
      Free(block);
      return null;
    }

    /**
     * `ipvs_get_service`, netlink path: the first entry the replies deliver.  An exchange that ends
     * well without a reply returns a slot nothing was written to.
     */
    method GetService(key: Service, env: Env)
      returns (svc: Option<ServiceEntry>, buffer: nat, ghost filled: bool)
      requires Valid()
      modifies this
      ensures Valid()
      ensures live == old(live) + (if svc.Some? then {buffer} else {}) && (svc.Some? ==> buffer !in old(live))
      ensures svc.Some? <==>
              && env.copyAlloc && env.bufAlloc && env.msgAlloc && env.svcFits && Delivered(env) && env.received
              && |AcceptedServices(env.replies)| == |env.replies|
      ensures filled <==> svc.Some? && env.replies != []
      ensures filled ==> svc.value == AcceptedServices(env.replies)[0]
      ensures wire == old(wire) + (
                if env.copyAlloc && env.bufAlloc && env.msgAlloc && env.svcFits && Delivered(env)
                then [Packet(Some(old(family)), NlGetService(EncodeService(key)))] else [])
    {
      hide AcceptedServices, EncodeService, Delivered, Resolved;
      svc, buffer, filled := None, 0, false;
      func := FGetService;
      if !env.copyAlloc {
        return;
      }
      buffer := Alloc();
      if !env.bufAlloc {
        Free(buffer);
        return;
      }
      var block := Alloc();
      var get := new ServiceTable(block);
      var ok := AskForService(key, get, env);
      Free(block);
      if !ok {
        Free(buffer);
        return;
      }
      svc, filled := Some(get.entries[0]), get.num > 0;
      assert filled ==> get.entries[0] == get.Contents()[0];
    }

    /** Building and sending the request of `ipvs_get_service`. */
    method AskForService(key: Service, get: ServiceTable, env: Env) returns (ok: bool)
      requires Valid() && get.Room() && get.Contents() == []
      modifies this`sock, this`family, this`wire, this`next, this`live, get, get.entries
      ensures Valid() && live == old(live)
      ensures wire == old(wire) + (
                if env.msgAlloc && env.svcFits && Delivered(env)
                then [Packet(Some(old(family)), NlGetService(EncodeService(key)))] else [])
      ensures get.Room()
      ensures ok == (&& env.msgAlloc && env.svcFits && Delivered(env) && env.received
                     && |AcceptedServices(env.replies)| == |env.replies|)
      ensures ok ==> get.Contents() == AcceptedServices(env.replies)
    {
      hide AcceptedServices, EncodeService, Delivered, Resolved;
      if !env.msgAlloc {
        return false;
      }
      var msg := Alloc();
      if !env.svcFits {
        Free(msg);
        return false;
      }
      var a := FillServiceAttr(key);
      ok := SendForServices(msg, Packet(Some(family), NlGetService(a)), get, env);
    }

    /**
     * `ipvs_get_dests`, netlink path.  For an entry without counted destinations every callback
     * stays inside the buffer; for any other entry the first one that clears a slot does not.
     */
    method GetDests(svc: ServiceEntry, env: Env) returns (table: DestTable?)
      requires Valid() && !overrun
      modifies this
      ensures Valid()
      ensures overrun <==>
              && svc.numDests > 0 && env.bufAlloc && env.msgAlloc && env.svcFits && Delivered(env)
              && env.replies != [] && ClearsSlot(env.replies[0])
      ensures table != null ==> fresh(table) && fresh(table.entries) && table.num <= table.entries.Length
      ensures table != null ==> table.block !in old(live) && live == old(live) + {table.block}
      ensures table == null ==> live == old(live)
      ensures svc.numDests == 0 ==>
                (table != null <==>
                 && env.bufAlloc && env.msgAlloc && env.svcFits && Delivered(env) && env.received
                 && |AcceptedDests(env.replies, svc.af)| == |env.replies|)
      ensures svc.numDests == 0 && table != null ==> table.Contents() == AcceptedDests(env.replies, svc.af)
      ensures wire == old(wire) + (
                if env.bufAlloc && env.msgAlloc && env.svcFits && Delivered(env)
                then [Packet(Some(old(family)),
                             NlDumpDests(ServiceKeyAttrs(svc.af, svc.fwmark, svc.protocol, svc.addr, svc.port)))]
                else [])
    {
      hide AcceptedDests, ServiceKeyAttrs, ClearsSlot;
      if !env.bufAlloc {
        return null;
      }
      var block := Alloc();
      var d := new DestTable(block, svc);
      func := FGetDests;
      if env.msgAlloc {
        var msg := Alloc();
        if !env.svcFits {
          Free(msg);
        } else {
          var key := ServiceKeyAttrs(svc.af, svc.fwmark, svc.protocol, svc.addr, svc.port);
          var ok := Begin(msg, Packet(Some(family), NlDumpDests(key)), env);
          if ok {
            var rc := d.Receive(env.replies);
            overrun := d.overrun;
            Finish(msg, rc == 0 && env.received);
            if rc == 0 && env.received {
              return d;
            }
          }
        }
      }
      Free(block);
      return null;
    }

    /**
     * `ipvs_get_daemon`, netlink path: both slots, or null with everything released, unless a reply
     * without the daemon attribute is received.
     */
    method GetDaemon(env: Env) returns (u: array?<Daemon>, block: nat)
      requires Valid() && !fault
      modifies this
      ensures Valid()
      ensures fault <==>
              && env.bufAlloc && env.msgAlloc && Delivered(env)
              && DaemonsFault([EMPTY_DAEMON, EMPTY_DAEMON], env.replies)
      ensures u != null ==> fresh(u) && block !in old(live) && live == old(live) + {block}
      ensures u == null && !fault ==> live == old(live)
      ensures u != null <==>
              && env.bufAlloc && env.msgAlloc && Delivered(env) && env.received
              && DaemonsAccepted([EMPTY_DAEMON, EMPTY_DAEMON], env.replies)
      ensures u != null ==> u[..] == DaemonSlots([EMPTY_DAEMON, EMPTY_DAEMON], env.replies)
      ensures wire == old(wire) + (
                if env.bufAlloc && env.msgAlloc && Delivered(env)
                then [Packet(Some(old(family)), NlDumpDaemons)] else [])
    {
      hide DaemonSlots, DaemonsAccepted;
      block := 0;
      if !env.bufAlloc {
        return null, block;
      }
      block := Alloc();
      var slots := new Daemon[2](_ => EMPTY_DAEMON);
      assert slots[..] == [EMPTY_DAEMON, EMPTY_DAEMON];
      func := FGetDaemon;
      if env.msgAlloc {
        var msg := Alloc();
        var ok := Begin(msg, Packet(Some(family), NlDumpDaemons), env);
        if ok {
          var rc;
          rc, fault := ReceiveDaemons(slots, env.replies);
          if fault {
            FaultIsRejected([EMPTY_DAEMON, EMPTY_DAEMON], env.replies);
            return null, block;
          }
          Finish(msg, rc == 0 && env.received);
          if rc == 0 && env.received {
            return slots, block;
          }
        }
      }
      Free(block);
      return null, block;
    }
  }
}
