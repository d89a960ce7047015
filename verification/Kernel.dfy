/**
 * The kernel's table as the requests of libipvs see it: what a request denotes, when an update is
 * refused, and what a run of updates leaves behind.
 */
module Kernel {
  import opened Machine
  import opened Options
  import opened Records
  import opened Netlink
  import opened Codec
  import opened Libipvs

  datatype ServiceId =
    | ByMark(af: u16, mark: u32)
    | ByAddress(af: u16, protocol: u16, addr: seq<byte>, port: u16)

  datatype DestId = DestId(af: u16, addr: seq<byte>, port: u16)

  /** Service options that travel with an update of a destination. */
  datatype ServiceOptions = ServiceOptions(
    sched: seq<byte>, pe: seq<byte>, flags: u32, timeout: u32, netmask: u32)

  /** What is stored for a destination. */
  datatype DestState = DestState(connFlags: u32, weight: i32, upper: u32, lower: u32)

  datatype Update = Update(svc: ServiceId, options: ServiceOptions, dest: DestId, state: DestState)

  // ---- meaning of a request -----------------------------------------------

  function ReadService(m: ServiceAttrs): (r: Option<(ServiceId, ServiceOptions)>) {
    match DecodeService(m, ZEROS)
    case None => None
    case Some(e) =>
      var id := if e.fwmark != 0 then ByMark(e.af, e.fwmark)
                else ByAddress(e.af, e.protocol, Significant(e.af, e.addr), e.port);
      Some((id, ServiceOptions(NameText(e.sched), NameText(e.pe), e.flags, e.timeout, e.netmask)))
  }

  /** A destination in an update carries no connection counters; they count as zero. */
  function ReadDest(m: DestAttrs): (r: Option<(DestId, DestState)>) {
    var full := m.(active := Put(0, W32), inactive := Put(0, W32), persistent := Put(0, W32));
    match DecodeDest(full, ZEROS, AF_UNSPEC)
    case None => None
    case Some(e) =>
      Some((DestId(e.af, Significant(e.af, e.addr), e.port), DestState(e.connFlags, e.weight, e.upper, e.lower)))
  }

  /** The abstract update a request asks for; the sockopt records are IPv4 by construction. */
  function Denote(r: Request): (u: Option<Update>) {
    match r
    case NlSetDest(s, d) =>
      var x, y := ReadService(s), ReadDest(d);
      if x.None? || y.None? then None else Some(Update(x.value.0, x.value.1, y.value.0, y.value.1))
    case SockEditDest(k, d) =>
      Some(Update(
             if k.fwmark != 0 then ByMark(AF_INET, k.fwmark) else ByAddress(AF_INET, k.protocol, k.addr, k.port),
             ServiceOptions(NameText(k.sched), [], k.flags, k.timeout, k.netmask),
             DestId(AF_INET, d.addr, d.port),
             DestState(d.connFlags, d.weight, d.upper, d.lower)))
    case _ => None
  }

  /** The update a service and destination record describe when all of it is carried. */
  function Described(svc: Service, dest: Dest): (u: Update) {
    Update(
      if svc.fwmark != 0 then ByMark(svc.af, svc.fwmark)
      else ByAddress(svc.af, svc.protocol, Significant(svc.af, svc.addr), svc.port),
      ServiceOptions(NameText(svc.sched), NameText(svc.pe), svc.flags, svc.timeout, svc.netmask),
      DestId(dest.af, Significant(dest.af, dest.addr), dest.port),
      DestState(dest.connFlags, dest.weight, dest.upper, dest.lower))
  }

  /** Netlink carries everything but the flag bits outside the forwarding mask. */
  lemma {:induction false} NetlinkDenotes(svc: Service, dest: Dest)
    requires Terminated(svc.sched) && Terminated(svc.pe)
    ensures Denote(NlSetDest(EncodeService(svc), EncodeDest(dest)))
         == Some(Described(svc, dest.(connFlags := dest.connFlags % 8)))
  {
    hide DecodeService, EncodeService, DecodeDest, EncodeDest, NameText;
    ServiceRoundTrip(svc, ZEROS);
    DestRoundTrip(dest, 0, 0, 0, ZEROS, AF_UNSPEC);
    DumpedIsFull(dest);
  }

  lemma {:induction false} DumpedIsFull(dest: Dest)
    ensures EncodeDest(dest).(active := Put(0, W32), inactive := Put(0, W32), persistent := Put(0, W32))
         == DumpedDest(dest, 0, 0, 0, None)
  {
    hide And, WordBytes, Wrap32;
  }

  /** The sockopt backend reads the family as IPv4 and keeps all flag bits. */
  lemma {:induction false} SockoptDenotes(svc: Service, dest: Dest)
    requires SockoptAccepts(svc, dest)
    ensures Denote(SockoptForm(svc, dest)) == Some(Described(svc.(af := AF_INET), dest.(af := AF_INET)))
  {
    hide EncodeService, EncodeDest;
    assert NameText(svc.pe) == [];
  }

  /**
   * The sockopt backend sends nothing exactly for another family or a persistence engine.  Where it
   * sends, it asks for the records read as IPv4, and the two backends denote the same update exactly
   * for records marked IPv4 whose connection flags lie within the forwarding mask.
   */
  lemma {:induction false} BackendsAgreeIff(svc: Service, dest: Dest)
    requires Terminated(svc.sched)
    ensures
      var nl, so := UpdateRequest(true, svc, dest), UpdateRequest(false, svc, dest);
      && nl.Some?
      && (so.None? <==>
          svc.af !in {AF_UNSPEC, AF_INET} || dest.af !in {AF_UNSPEC, AF_INET} || NameText(svc.pe) != [])
      && (so.Some? ==>
          && Denote(so.value) == Some(Described(svc.(af := AF_INET), dest.(af := AF_INET)))
          && (Denote(nl.value) == Denote(so.value) <==>
              svc.af == AF_INET && dest.af == AF_INET && dest.connFlags <= IP_VS_CONN_F_FWD_MASK))
  {
    hide EncodeService, EncodeDest, NameText, Denote, SockoptForm;
    SockoptSendsIff(svc, dest);
    if SockoptAccepts(svc, dest) {
      AgreeWhereSent(svc, dest);
    }
  }

  lemma {:induction false} AgreeWhereSent(svc: Service, dest: Dest)
    requires Terminated(svc.sched) && SockoptAccepts(svc, dest)
    ensures
      var nl, so := UpdateRequest(true, svc, dest), UpdateRequest(false, svc, dest);
      && nl.Some? && so.Some?
      && Denote(so.value) == Some(Described(svc.(af := AF_INET), dest.(af := AF_INET)))
      && (Denote(nl.value) == Denote(so.value) <==>
          svc.af == AF_INET && dest.af == AF_INET && dest.connFlags <= IP_VS_CONN_F_FWD_MASK)
  {
    hide EncodeService, EncodeDest, NameText, Denote, SockoptForm;
    assert Terminated(svc.pe) by {
      EmptyName(svc.pe);
    }
    NetlinkDenotes(svc, dest);
    SockoptDenotes(svc, dest);
    var u, v := Described(svc, dest.(connFlags := dest.connFlags % 8)),
                Described(svc.(af := AF_INET), dest.(af := AF_INET));
    assert u.svc.af == svc.af && v.svc.af == AF_INET && u.dest.af == dest.af && v.dest.af == AF_INET;
    assert u.state.connFlags == dest.connFlags % 8 && v.state.connFlags == dest.connFlags;
  }

  /** The sockopt backend sends nothing exactly for another family or a persistence engine. */
  lemma {:induction false} SockoptSendsIff(svc: Service, dest: Dest)
    ensures UpdateRequest(false, svc, dest).None? <==>
            || svc.af !in {AF_UNSPEC, AF_INET} || dest.af !in {AF_UNSPEC, AF_INET} || NameText(svc.pe) != []
  {
    hide EncodeService, EncodeDest;
  }

  // ---- the table ----------------------------------------------------------

  type Table = map<(ServiceId, DestId), DestState>

  predicate Present(t: Table, u: Update) {
    (u.svc, u.dest) in t
  }

  /** An update of an absent service or destination is refused. */
  function Edit(t: Table, u: Update): (t': Table) {
    if Present(t, u) then t[(u.svc, u.dest) := u.state] else t
  }

  /** What becomes of a request: lost before the kernel, refused by it, or carried out with the
      acknowledgement delivered or lost on the way back. */
  datatype Fate = Unsent | Refused | Acknowledged | ReplyLost

  /** One call of `set_weight`: the update it issued, if any, and its fate. */
  datatype Call = Call(update: Option<Update>, fate: Fate)

  predicate Applied(t: Table, c: Call) {
    c.update.Some? && c.fate in {Acknowledged, ReplyLost} && Present(t, c.update.value)
  }

  /** The call returns true. */
  predicate Succeeds(t: Table, c: Call) {
    Applied(t, c) && c.fate == Acknowledged
  }

  function After(t: Table, c: Call): (t': Table) {
    if Applied(t, c) then Edit(t, c.update.value) else t
  }

  /** The table after a sequence of calls. */
  function Run(t: Table, calls: seq<Call>): (t': Table) {
    if calls == [] then t else After(Run(t, calls[..|calls| - 1]), calls[|calls| - 1])
  }

  /** Call `i` was carried out on the destination `key`. */
  predicate Hits(t: Table, calls: seq<Call>, i: int, key: (ServiceId, DestId))
    requires 0 <= i < |calls|
  {
    Applied(t, calls[i]) && (calls[i].update.value.svc, calls[i].update.value.dest) == key
  }

  /** No call adds or removes a destination. */
  lemma {:induction false} KeysKept(t: Table, calls: seq<Call>)
    ensures Run(t, calls).Keys == t.Keys
  {
    if calls != [] {
      KeysKept(t, calls[..|calls| - 1]);
    }
  }

  /**
   * After any run each destination holds the state of the last call carried out on it, or its
   * initial state if there is none.
   */
  lemma {:induction false} LastUpdateWins(t: Table, calls: seq<Call>, key: (ServiceId, DestId))
    requires key in t
    ensures key in Run(t, calls)
    ensures (forall i | 0 <= i < |calls| :: !Hits(t, calls, i, key)) ==> Run(t, calls)[key] == t[key]
    ensures forall i | 0 <= i < |calls| && Hits(t, calls, i, key)
                       && (forall j | i < j < |calls| :: !Hits(t, calls, j, key)) ::
              Run(t, calls)[key] == calls[i].update.value.state
  {
    if calls != [] {
      var n := |calls| - 1;
      var before := calls[..n];
      LastUpdateWins(t, before, key);
      KeysKept(t, before);
      assert forall i | 0 <= i < n :: Hits(t, calls, i, key) == Hits(t, before, i, key);
      assert Applied(Run(t, before), calls[n]) == Applied(t, calls[n]);
      assert !Hits(t, calls, n, key) ==> Run(t, calls)[key] == Run(t, before)[key];
      forall i | 0 <= i < |calls| && Hits(t, calls, i, key) && (forall j | i < j < |calls| :: !Hits(t, calls, j, key))
        ensures Run(t, calls)[key] == calls[i].update.value.state
      {
        if i < n {
          assert !Hits(t, calls, n, key) && Hits(t, before, i, key);
          assert forall j | i < j < n :: Hits(t, before, j, key) == Hits(t, calls, j, key);
        }
      }
    }
  }

  /**
   * A call that returns false has changed the table exactly when its reply was lost after a present
   * destination took a new state; without lost replies a failed call changes nothing.
   */
  lemma {:induction false} FailedCallChangesIff(t: Table, c: Call)
    requires !Succeeds(t, c)
    ensures After(t, c) != t <==>
            && c.fate == ReplyLost && c.update.Some? && Present(t, c.update.value)
            && t[(c.update.value.svc, c.update.value.dest)] != c.update.value.state
  {
    if Applied(t, c) {
      var k := (c.update.value.svc, c.update.value.dest);
      assert After(t, c)[k] == c.update.value.state;
      assert After(t, c) == t[k := c.update.value.state];
    }
  }
}
