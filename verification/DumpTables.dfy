/**
 * The growing result tables of depend/libipvs/libipvs.c.  A dump callback decodes one message into
 * the slot after the last entry, counts it, and reallocates the table with one slot more.
 */
module DumpTables {
  import opened Machine
  import opened Options
  import opened Records
  import opened Netlink
  import opened Codec

  // ---- what a sequence of messages stands for -----------------------------

  /** The values before the first rejected message. */
  function Accepted<T>(rs: seq<Option<T>>): (es: seq<T>)
    ensures |es| <= |rs|
    ensures forall i | 0 <= i < |es| :: rs[i] == Some(es[i])
    ensures |es| < |rs| ==> rs[|es|].None?
  {
    if rs == [] || rs[0].None? then [] else [rs[0].value] + Accepted(rs[1..])
  }

  function ParsedServices(msgs: seq<Message>): (rs: seq<Option<ServiceEntry>>)
    ensures |rs| == |msgs| && forall i | 0 <= i < |msgs| :: rs[i] == ParseServiceMessage(msgs[i])
  {
    seq(|msgs|, i requires 0 <= i < |msgs| => ParseServiceMessage(msgs[i]))
  }

  function ParsedDests(msgs: seq<Message>, af: u16): (rs: seq<Option<DestEntry>>)
    ensures |rs| == |msgs| && forall i | 0 <= i < |msgs| :: rs[i] == ParseDestMessage(msgs[i], af)
  {
    seq(|msgs|, i requires 0 <= i < |msgs| => ParseDestMessage(msgs[i], af))
  }

  /** The entries of the service messages before the first rejected one, in arrival order. */
  function AcceptedServices(msgs: seq<Message>): (es: seq<ServiceEntry>) {
    Accepted(ParsedServices(msgs))
  }

  /** The same for the destinations of a service of family `af`. */
  function AcceptedDests(msgs: seq<Message>, af: u16): (es: seq<DestEntry>) {
    Accepted(ParsedDests(msgs, af))
  }

  /** The next message is accepted exactly when the list of accepted ones goes on with it. */
  lemma {:induction false} NextService(msgs: seq<Message>, k: nat)
    requires k <= |AcceptedServices(msgs)| && k < |msgs|
    ensures
      var es := AcceptedServices(msgs);
      && (k < |es| <==> ParseServiceMessage(msgs[k]).Some?)
      && (k < |es| ==> es[k] == ParseServiceMessage(msgs[k]).value)
  {
    hide ParseServiceMessage;
  }

  lemma {:induction false} NextDest(msgs: seq<Message>, af: u16, k: nat)
    requires k <= |AcceptedDests(msgs, af)| && k < |msgs|
    ensures
      var es := AcceptedDests(msgs, af);
      && (k < |es| <==> ParseDestMessage(msgs[k], af).Some?)
      && (k < |es| ==> es[k] == ParseDestMessage(msgs[k], af).value)
  {
    hide ParseDestMessage;
  }

  lemma {:induction false} Prefixes<T>(was: seq<T>, es: seq<T>, k: nat)
    requires k <= |es|
    ensures was + es[..0] == was && (k == |es| ==> was + es[..k] == was + es)
    ensures k < |es| ==> was + es[..k] + [es[k]] == was + es[..k + 1]
  {
  }

  lemma {:induction false} AcceptedBound(msgs: seq<Message>, af: u16)
    ensures |AcceptedServices(msgs)| <= |msgs| && |AcceptedDests(msgs, af)| <= |msgs|
  {
    hide ParseServiceMessage, ParseDestMessage;
  }

  lemma {:induction false} AcceptedAll<T>(rs: seq<Option<T>>)
    requires forall i | 0 <= i < |rs| :: rs[i].Some?
    ensures |Accepted(rs)| == |rs|
  {
  }

  /** Dumping any list of encoded services yields their entries, all of them and in order. */
  lemma {:induction false} DumpOfEncodedServices(svcs: seq<Service>, msgs: seq<Message>)
    requires |svcs| == |msgs|
    requires forall i | 0 <= i < |svcs| ::
               && Terminated(svcs[i].sched) && Terminated(svcs[i].pe)
               && msgs[i].parses && msgs[i].service == Some(EncodeService(svcs[i]))
    ensures |AcceptedServices(msgs)| == |svcs|
    ensures forall i | 0 <= i < |svcs| :: AcceptedServices(msgs)[i] == ExpectedEntry(svcs[i])
  {
    hide EncodeService, ExpectedEntry, DecodeService, Terminated;
    forall i | 0 <= i < |svcs|
      ensures ParsedServices(msgs)[i] == Some(ExpectedEntry(svcs[i]))
    {
      ServiceRoundTrip(svcs[i], msgs[i].past);
    }
    AcceptedAll(ParsedServices(msgs));
  }

  /** No entry of a netlink dump counts any destinations. */
  lemma {:induction false} DumpedServicesUncounted(msgs: seq<Message>)
    ensures forall i | 0 <= i < |AcceptedServices(msgs)| :: AcceptedServices(msgs)[i].numDests == 0
  {
    hide DecodeService;
    forall i | 0 <= i < |AcceptedServices(msgs)|
      ensures AcceptedServices(msgs)[i].numDests == 0
    {
      assert ParsedServices(msgs)[i] == Some(AcceptedServices(msgs)[i]);
      assert ParseServiceMessage(msgs[i]).Some?;
    }
  }

  // ---- services -----------------------------------------------------------

  /** `struct ip_vs_get_services` with its allocation. */
  class ServiceTable {
    var num: nat
    var entries: array<ServiceEntry>
    const block: nat

    /** Room for exactly one entry after the counted ones. */
    ghost predicate Room()
      reads this
    {
      entries.Length == num + 1
    }

    ghost function Contents(): (es: seq<ServiceEntry>)
      requires Room()
      reads this, entries
    {
      entries[..num]
    }

    /** `malloc` of the header and one entry. */
    constructor (block: nat)
      ensures Room() && Contents() == [] && fresh(entries) && this.block == block
    {
      this.block := block;
      num := 0;
      entries := new ServiceEntry[1];
    }

    /** `realloc` to one slot more than `num` entries; the new slot is not initialised. */
    method Grow()
      requires num <= entries.Length
      modifies this`entries
      ensures fresh(entries) && Room() && Contents() == old(entries[..num])
    {
      var bigger := new ServiceEntry[num + 1];
      for i := 0 to num
        modifies bigger
        invariant forall j | 0 <= j < i :: bigger[j] == entries[j]
      {
        bigger[i] := entries[i];
      }
      assert bigger[..num] == entries[..num];
      entries := bigger;
    }

    /** `ipvs_services_parse_cb`. */
    method ParseCb(msg: Message) returns (rc: int)
      requires Room()
      modifies this, entries
      ensures Room() && (entries == old(entries) || fresh(entries))
      ensures rc == (if ParseServiceMessage(msg).Some? then 0 else -1)
      ensures Contents() == old(Contents()) +
              (if ParseServiceMessage(msg).Some? then [ParseServiceMessage(msg).value] else [])
    {
      var i := num;
      if !msg.parses || msg.service.None? {
        return -1;
      }
      var a, past := msg.service.value, msg.past;
      if !ServiceValid(a) {
        return -1;
      }
      entries[i] := EMPTY_SERVICE;
      if !ServiceComplete(a) {
        return -1;
      }
      var stored := Fill(i, a, past);
      if !stored {
        return -1;
      }
      assert entries[..i + 1] == old(entries[..i]) + [entries[i]];
      num := i + 1;
      Grow();
      return 0;
    }

    /** The field by field assignments to a zeroed slot; false when the statistics do not parse. */
    method Fill(i: nat, a: ServiceAttrs, past: Addr) returns (stored: bool)
      requires i < entries.Length && entries[i] == EMPTY_SERVICE
      requires ServiceValid(a) && ServiceComplete(a)
      modifies entries
      ensures forall j | 0 <= j < entries.Length && j != i :: entries[j] == old(entries[j])
      ensures stored == DecodeService(a, past).Some?
      ensures stored ==> Some(entries[i]) == DecodeService(a, past)
    {
      entries[i] := entries[i].(af := Get(a.af.value, past, W16));
      if a.fwmark.Some? {
        entries[i] := entries[i].(fwmark := Get(a.fwmark.value, past, W32));
      } else {
        entries[i] := entries[i].(protocol := Get(a.protocol.value, past, W16));
        entries[i] := entries[i].(addr := GetAddr(a.addr.value, past));
        entries[i] := entries[i].(port := Get(a.port.value, past, W16));
      }
      entries[i] := entries[i].(sched := GetName(a.sched.value, past));
      if a.pe.Some? {
        entries[i] := entries[i].(pe := GetName(a.pe.value, past));
      }
      entries[i] := entries[i].(netmask := Get(a.netmask.value, past, W32));
      entries[i] := entries[i].(timeout := Get(a.timeout.value, past, W32));
      entries[i] := entries[i].(flags := DecodeFlags(a.flags.value, past));
      var st := DecodeServiceStats(a, past);
      if st.None? {
        return false;
      }
      entries[i] := entries[i].(stats := st.value, numDests := 0);
      return true;
    }

    /** The receive loop: a negative callback result aborts it. */
    method Receive(msgs: seq<Message>) returns (rc: int)
      requires Room()
      modifies this, entries
      ensures Room() && (entries == old(entries) || fresh(entries))
      ensures Contents() == old(Contents()) + AcceptedServices(msgs)
      ensures rc == 0 <==> |AcceptedServices(msgs)| == |msgs|
      ensures rc <= 0
    {
      hide ParseServiceMessage, AcceptedServices;
      rc := 0;
      var k := 0;
      ghost var was, es := Contents(), AcceptedServices(msgs);
      AcceptedBound(msgs, 0);
      Prefixes(was, es, 0);
      while k < |msgs|
        invariant k <= |es| <= |msgs| && rc == 0 && Room() && (entries == old(entries) || fresh(entries))
        invariant Contents() == was + es[..k]
      {
        NextService(msgs, k);
        Prefixes(was, es, k);
        rc := ParseCb(msgs[k]);
        if rc < 0 {
          return;
        }
        k := k + 1;
      }
      Prefixes(was, es, k);
    }
  }

  // ---- destinations -------------------------------------------------------

  /** The message gets as far as clearing a slot of the destination table. */
  predicate ClearsSlot(msg: Message) {
    msg.parses && msg.dest.Some? && DestValid(msg.dest.value)
  }

  /** `struct ip_vs_get_dests` with its allocation. */
  class DestTable {
    var num: nat
    var entries: array<DestEntry>
    var af: u16
    /** A callback was about to write past the allocation; nothing is modelled after that. */
    var overrun: bool
    const block: nat

    ghost predicate Room()
      reads this
    {
      entries.Length == num + 1
    }

    ghost function Contents(): (es: seq<DestEntry>)
      requires num <= entries.Length
      reads this, entries
    {
      entries[..num]
    }

    /** `malloc` for `svc->num_dests` entries, made one entry large when that is zero. */
    constructor (block: nat, svc: ServiceEntry)
      ensures num == svc.numDests && af == svc.af && !overrun && fresh(entries) && this.block == block
      ensures num <= entries.Length
      ensures Room() <==> svc.numDests == 0
      ensures num < entries.Length <==> svc.numDests == 0
    {
      this.block := block;
      num := svc.numDests;
      af := svc.af;
      overrun := false;
      entries := new DestEntry[if svc.numDests == 0 then 1 else svc.numDests];
    }

    method Grow()
      requires num <= entries.Length
      modifies this`entries
      ensures fresh(entries) && Room() && Contents() == old(entries[..num])
    {
      var bigger := new DestEntry[num + 1];
      for i := 0 to num
        modifies bigger
        invariant forall j | 0 <= j < i :: bigger[j] == entries[j]
      {
        bigger[i] := entries[i];
      }
      assert bigger[..num] == entries[..num];
      entries := bigger;
    }

    /** `ipvs_dests_parse_cb`. */
    method ParseCb(msg: Message) returns (rc: int)
      requires num <= entries.Length && !overrun
      modifies this, entries
      ensures num <= entries.Length && (entries == old(entries) || fresh(entries)) && af == old(af)
      ensures overrun <==> old(num == entries.Length) && ClearsSlot(msg)
      ensures old(Room()) ==> Room()
      ensures rc == (if ParseDestMessage(msg, af).Some? && !overrun then 0 else -1)
      ensures Contents() == old(Contents()) + (if rc == 0 then [ParseDestMessage(msg, af).value] else [])
    {
      var i := num;
      if !msg.parses || msg.dest.None? {
        return -1;
      }
      var a, past := msg.dest.value, msg.past;
      if !DestValid(a) {
        return -1;
      }
      if i >= entries.Length {
        overrun := true;
        return -1;
      }
      entries[i] := EMPTY_DEST;
      if !DestComplete(a) {
        return -1;
      }
      var stored := Fill(i, a, past);
      if !stored {
        return -1;
      }
      assert entries[..i + 1] == old(entries[..i]) + [entries[i]];
      num := i + 1;
      Grow();
      return 0;
    }

    method Fill(i: nat, a: DestAttrs, past: Addr) returns (stored: bool)
      requires i < entries.Length && entries[i] == EMPTY_DEST
      requires DestValid(a) && DestComplete(a)
      modifies entries
      ensures forall j | 0 <= j < entries.Length && j != i :: entries[j] == old(entries[j])
      ensures stored == DecodeDest(a, past, af).Some?
      ensures stored ==> Some(entries[i]) == DecodeDest(a, past, af)
    {
      entries[i] := entries[i].(addr := GetAddr(a.addr.value, past));
      entries[i] := entries[i].(port := Get(a.port.value, past, W16));
      entries[i] := entries[i].(connFlags := Get(a.fwd.value, past, W32));
      entries[i] := entries[i].(weight := Signed32(Get(a.weight.value, past, W32)));
      entries[i] := entries[i].(upper := Get(a.upper.value, past, W32));
      entries[i] := entries[i].(lower := Get(a.lower.value, past, W32));
      entries[i] := entries[i].(active := Get(a.active.value, past, W32));
      entries[i] := entries[i].(inactive := Get(a.inactive.value, past, W32));
      entries[i] := entries[i].(persistent := Get(a.persistent.value, past, W32));
      if a.family.Some? {
        entries[i] := entries[i].(af := Get(a.family.value, past, W16));
      } else {
        entries[i] := entries[i].(af := af);
      }
      var st := DecodeDestStats(a, past);
      if st.None? {
        return false;
      }
      entries[i] := entries[i].(stats := st.value);
      return true;
    }

    /** The receive loop on a table with room: never out of bounds, everything accepted in order. */
    method Receive(msgs: seq<Message>) returns (rc: int)
      requires num <= entries.Length && !overrun
      requires Room() || num == entries.Length
      modifies this, entries
      ensures num <= entries.Length && (entries == old(entries) || fresh(entries)) && af == old(af)
      ensures overrun <==> old(!Room()) && msgs != [] && ClearsSlot(msgs[0])
      ensures old(Room()) ==> Contents() == old(Contents()) + AcceptedDests(msgs, af)
      ensures old(Room()) ==> (rc == 0 <==> |AcceptedDests(msgs, af)| == |msgs|)
      ensures old(!Room()) ==> Contents() == old(Contents()) && (rc == 0 <==> msgs == [])
      ensures rc <= 0
    {
      hide ParseDestMessage, ClearsSlot, AcceptedDests;
      if num < entries.Length {
        rc := ReceiveInRoom(msgs);
        return;
      }
      // without room the first message ends the receive
      rc := 0;
      if msgs != [] {
        DecodedClears(msgs[0], af);
        rc := ParseCb(msgs[0]);
      }
    }

    method ReceiveInRoom(msgs: seq<Message>) returns (rc: int)
      requires Room() && !overrun
      modifies this, entries
      ensures Room() && !overrun && (entries == old(entries) || fresh(entries)) && af == old(af)
      ensures Contents() == old(Contents()) + AcceptedDests(msgs, af)
      ensures rc == 0 <==> |AcceptedDests(msgs, af)| == |msgs|
      ensures rc <= 0
    {
      hide ParseDestMessage, ClearsSlot, AcceptedDests;
      rc := 0;
      var k := 0;
      ghost var was, es := Contents(), AcceptedDests(msgs, af);
      AcceptedBound(msgs, af);
      Prefixes(was, es, 0);
      while k < |msgs|
        invariant k <= |es| <= |msgs| && rc == 0 && Room() && !overrun && af == old(af)
        invariant entries == old(entries) || fresh(entries)
        invariant Contents() == was + es[..k]
      {
        NextDest(msgs, af, k);
        Prefixes(was, es, k);
        rc := ParseCb(msgs[k]);
        if rc < 0 {
          return;
        }
        k := k + 1;
      }
      Prefixes(was, es, k);
    }
  }

  lemma {:induction false} DecodedClears(msg: Message, af: u16)
    ensures ParseDestMessage(msg, af).Some? ==> ClearsSlot(msg)
  {
  }

  // ---- sync daemons -------------------------------------------------------

  /** A message goes to slot 1 once slot 0 has a state. */
  function DaemonIndex(u: seq<Daemon>): (i: nat)
    requires |u| == 2
    ensures i < 2
  {
    if u[0].state != 0 then 1 else 0
  }

  /** The two slots after a sequence of messages, up to the first rejected one. */
  function DaemonSlots(u: seq<Daemon>, msgs: seq<Message>): (v: seq<Daemon>)
    requires |u| == 2
    ensures |v| == 2
    decreases |msgs|
  {
    if msgs == [] then u
    else
      var i := DaemonIndex(u);
      match ParseDaemonMessage(msgs[0], u[i])
      case None => u
      case Some(d) => DaemonSlots(u[i := d], msgs[1..])
  }

  /** No message of the sequence is rejected. */
  predicate DaemonsAccepted(u: seq<Daemon>, msgs: seq<Message>)
    requires |u| == 2
    decreases |msgs|
  {
    msgs == [] ||
    var i := DaemonIndex(u);
    var d := ParseDaemonMessage(msgs[0], u[i]);
    d.Some? && DaemonsAccepted(u[i := d.value], msgs[1..])
  }

  /** A reply without the daemon attribute: the callback hands a null pointer to the nested parse. */
  predicate LacksDaemon(msg: Message) {
    msg.parses && msg.daemon.None?
  }

  /** The receive loop gets as far as a reply without the attribute. */
  ghost predicate DaemonsFault(u: seq<Daemon>, msgs: seq<Message>)
    requires |u| == 2
  {
    exists k :: 0 <= k < |msgs| && DaemonsAccepted(u, msgs[..k]) && LacksDaemon(msgs[k])
  }

  /**
   * One callback: a fault on a reply without the attribute, -1 with both slots as they were on any
   * other rejected one, and otherwise the decoded daemon in its slot.
   */
  method DaemonParseCb(u: array<Daemon>, msg: Message) returns (rc: int, fault: bool)
    requires u.Length == 2
    modifies u
    ensures fault <==> LacksDaemon(msg)
    ensures
      var i := DaemonIndex(old(u[..]));
      var d := ParseDaemonMessage(msg, old(u[..])[i]);
      if d.Some? then rc == 0 && u[..] == old(u[..])[i := d.value] else rc == -1 && u[..] == old(u[..])
  {
    hide Get, GetName, GetAddr, DaemonValid;
    fault := false;
    var i := 0;
    if u[0].state != 0 {
      i := 1;
    }
    if !msg.parses {
      return -1, fault;
    }
    if msg.daemon.None? {
      return -1, true;
    }
    var a, past := msg.daemon.value, msg.past;
    if !DaemonValid(a) || a.state.None? || a.ifn.None? || a.syncid.None? {
      return -1, fault;
    }
    var d := u[i];
    d := d.(state := Signed32(Get(a.state.value, past, W32)));
    d := d.(ifn := GetName(a.ifn.value, past));
    d := d.(syncid := Signed32(Get(a.syncid.value, past, W32)));
    if a.maxlen.Some? {
      d := d.(maxlen := Get(a.maxlen.value, past, W16));
    }
    if a.port.Some? {
      d := d.(port := Get(a.port.value, past, W16));
    }
    if a.ttl.Some? {
      d := d.(ttl := Get(a.ttl.value, past, W8));
    }
    if a.group.Some? {
      d := d.(af := AF_INET);
      d := d.(group := (a.group.value + past)[..4] + d.group[4..]);
    } else if a.group6.Some? {
      d := d.(af := AF_INET6);
      d := d.(group := GetAddr(a.group6.value, past));
    }
    assert Some(d) == DecodeDaemon(a, past, u[i]);
    u[i] := d;
    return 0, fault;
  }

  lemma {:induction false} AcceptedStep(u: seq<Daemon>, msgs: seq<Message>, k: nat)
    requires |u| == 2 && k < |msgs|
    ensures
      var v := DaemonSlots(u, msgs[..k]);
      var d := ParseDaemonMessage(msgs[k], v[DaemonIndex(v)]);
      && (DaemonsAccepted(u, msgs[..k + 1]) <==> DaemonsAccepted(u, msgs[..k]) && d.Some?)
      && (DaemonsAccepted(u, msgs[..k + 1]) ==> DaemonSlots(u, msgs[..k + 1]) == v[DaemonIndex(v) := d.value])
      && (DaemonsAccepted(u, msgs[..k]) && d.None? ==> DaemonSlots(u, msgs[..k + 1]) == v)
    decreases k
  {
    hide ParseDaemonMessage;
    if k == 0 {
      assert msgs[..1][1..] == [] && msgs[..0] == [];
    } else {
      var d := ParseDaemonMessage(msgs[0], u[DaemonIndex(u)]);
      assert msgs[..k][1..] == msgs[1..][..k - 1] && msgs[..k + 1][1..] == msgs[1..][..k];
      if d.Some? {
        AcceptedStep(u[DaemonIndex(u) := d.value], msgs[1..], k - 1);
      }
    }
  }

  /** A rejected message rejects the sequence and freezes the slots. */
  lemma {:induction false} RejectedStays(u: seq<Daemon>, msgs: seq<Message>, k: nat)
    requires |u| == 2 && k <= |msgs| && !DaemonsAccepted(u, msgs[..k])
    ensures !DaemonsAccepted(u, msgs) && DaemonSlots(u, msgs) == DaemonSlots(u, msgs[..k])
    decreases k
  {
    hide ParseDaemonMessage;
    var d := ParseDaemonMessage(msgs[0], u[DaemonIndex(u)]);
    assert msgs[..k][1..] == msgs[1..][..k - 1];
    if d.Some? {
      RejectedStays(u[DaemonIndex(u) := d.value], msgs[1..], k - 1);
    }
  }

  /** The receive loop: the slots up to the first rejected reply, and whether that one is a fault. */
  method ReceiveDaemons(u: array<Daemon>, msgs: seq<Message>) returns (rc: int, fault: bool)
    requires u.Length == 2
    modifies u
    ensures u[..] == DaemonSlots(old(u[..]), msgs)
    ensures rc == (if DaemonsAccepted(old(u[..]), msgs) then 0 else -1)
    ensures fault <==> DaemonsFault(old(u[..]), msgs)
  {
    hide ParseDaemonMessage, LacksDaemon, DaemonSlots, DaemonsAccepted;
    rc, fault := 0, false;
    ghost var start := u[..];
    var k := 0;
    NothingReceived(start, msgs);
    while k < |msgs|
      invariant k <= |msgs| && rc == 0 && !fault
      invariant DaemonsAccepted(start, msgs[..k]) && u[..] == DaemonSlots(start, msgs[..k])
      invariant forall j | 0 <= j < k :: !LacksDaemon(msgs[j])
    {
      AcceptedStep(start, msgs, k);
      LacksIsRejected(msgs[k], u[DaemonIndex(u[..])]);
      rc, fault := DaemonParseCb(u, msgs[k]);
      if rc < 0 {
        Rejected(start, msgs, k);
        return;
      }
      k := k + 1;
    }
    assert msgs[..k] == msgs;
  }

  lemma {:induction false} NothingReceived(u: seq<Daemon>, msgs: seq<Message>)
    requires |u| == 2
    ensures DaemonsAccepted(u, msgs[..0]) && DaemonSlots(u, msgs[..0]) == u
  {
  }

  lemma {:induction false} LacksIsRejected(msg: Message, slot: Daemon)
    ensures LacksDaemon(msg) ==> ParseDaemonMessage(msg, slot).None?
  {
  }

  lemma {:induction false} FaultIsRejected(u: seq<Daemon>, msgs: seq<Message>)
    requires |u| == 2 && DaemonsFault(u, msgs)
    ensures !DaemonsAccepted(u, msgs)
  {
    hide DaemonSlots, DaemonsAccepted, ParseDaemonMessage;
    var k :| 0 <= k < |msgs| && DaemonsAccepted(u, msgs[..k]) && LacksDaemon(msgs[k]);
    AcceptedStep(u, msgs, k);
    var v := DaemonSlots(u, msgs[..k]);
    LacksIsRejected(msgs[k], v[DaemonIndex(v)]);
    RejectedStays(u, msgs, k + 1);
  }

  /** At the first rejected message the loop ends, with a fault exactly when that one lacks the attribute. */
  lemma {:induction false} Rejected(u: seq<Daemon>, msgs: seq<Message>, k: nat)
    requires |u| == 2 && k < |msgs| && DaemonsAccepted(u, msgs[..k]) && !DaemonsAccepted(u, msgs[..k + 1])
    requires forall j | 0 <= j < k :: !LacksDaemon(msgs[j])
    ensures !DaemonsAccepted(u, msgs) && DaemonSlots(u, msgs) == DaemonSlots(u, msgs[..k])
    ensures DaemonsFault(u, msgs) <==> LacksDaemon(msgs[k])
  {
    hide ParseDaemonMessage, LacksDaemon, DaemonSlots, DaemonsAccepted;
    RejectedStays(u, msgs, k + 1);
    AcceptedStep(u, msgs, k);
    forall j | k < j < |msgs|
      ensures !DaemonsAccepted(u, msgs[..j])
    {
      assert msgs[..j][..k + 1] == msgs[..k + 1];
      RejectedStays(u, msgs[..j], k + 1);
    }
  }

  /** Two daemons with nonzero states fill slots 0 and 1 in order. */
  lemma {:induction false} TwoDaemonsInOrder(d: Daemon, e: Daemon, m: Message, n: Message)
    requires Terminated(d.ifn) && Terminated(e.ifn) && d.state != 0
    requires m.parses && m.daemon == Some(EncodeDaemon(d))
    requires n.parses && n.daemon == Some(EncodeDaemon(e))
    ensures DaemonSlots([EMPTY_DAEMON, EMPTY_DAEMON], [m, n]) == [ExpectedDaemon(d), ExpectedDaemon(e)]
  {
    hide DecodeDaemon, EncodeDaemon, NameText;
    DaemonRoundTrip(d, m.past);
    DaemonRoundTrip(e, n.past);
    var u := [EMPTY_DAEMON, EMPTY_DAEMON];
    var u1 := u[0 := ExpectedDaemon(d)];
    assert DaemonSlots(u, [m, n]) == DaemonSlots(u1, [n]) by {
      assert [m, n][1..] == [n];
    }
    var u2 := u1[1 := ExpectedDaemon(e)];
    assert DaemonSlots(u1, [n]) == DaemonSlots(u2, []) by {
      assert [n][1..] == [];
    }
  }
}
