/**
 * Encoding of services, destinations, daemons and statistics as netlink attributes, and the
 * decoders of the dump callbacks in depend/libipvs/libipvs.c.
 */
module Codec {
  import opened Machine
  import opened Options
  import opened Records
  import opened Netlink

  // ---- services -----------------------------------------------------------

  /** The attributes that name a service: its mark, or else protocol, address and port. */
  function ServiceKeyAttrs(af: u16, fwmark: u32, protocol: u16, addr: Addr, port: u16): (m: ServiceAttrs) {
    if fwmark != 0 then NO_SERVICE_ATTRS.(af := Put(af, W16), fwmark := Put(fwmark, W32))
    else NO_SERVICE_ATTRS.(af := Put(af, W16), protocol := Put(protocol, W16), addr := Some(addr),
                           port := Put(port, W16))
  }

  const ALL_ONES: u32 := 0xFFFF_FFFF

  /** `struct ip_vs_flags` with a mask of all ones. */
  function FlagsBytes(flags: u32): (s: seq<byte>)
    ensures |s| == 8
  {
    WordBytes(flags, W32) + WordBytes(ALL_ONES, W32)
  }

  function EncodeService(s: Service): (m: ServiceAttrs) {
    ServiceKeyAttrs(s.af, s.fwmark, s.protocol, s.addr, s.port).(
      sched := Some(NameBytes(s.sched)),
      pe := if s.pe[0] != 0 then Some(NameBytes(s.pe)) else None,
      flags := Some(FlagsBytes(s.flags)),
      timeout := Put(s.timeout, W32),
      netmask := Put(s.netmask, W32))
  }

  /** `ipvs_nl_fill_service_attr`, when every put finds room. */
  method FillServiceAttr(svc: Service) returns (m: ServiceAttrs)
    ensures m == EncodeService(svc)
  {
    m := NO_SERVICE_ATTRS.(af := Put(svc.af, W16));
    if svc.fwmark != 0 {
      m := m.(fwmark := Put(svc.fwmark, W32));
    } else {
      m := m.(protocol := Put(svc.protocol, W16));
      m := m.(addr := Some(svc.addr));
      m := m.(port := Put(svc.port, W16));
    }
    m := m.(sched := Some(NameBytes(svc.sched)));
    if svc.pe[0] != 0 {
      m := m.(pe := Some(NameBytes(svc.pe)));
    }
    m := m.(flags := Some(FlagsBytes(svc.flags)));
    m := m.(timeout := Put(svc.timeout, W32));
    m := m.(netmask := Put(svc.netmask, W32));
  }

  // ---- statistics ---------------------------------------------------------

  /** 64-bit counters as the kernel sends them. */
  function Counters64(s: Stats): (m: StatsAttrs) {
    StatsAttrs(Put(s.conns, W64), Put(s.inpkts, W64), Put(s.outpkts, W64), Put(s.inbytes, W64),
               Put(s.outbytes, W64), Put(s.cps, W64), Put(s.inpps, W64), Put(s.outpps, W64),
               Put(s.inbps, W64), Put(s.outbps, W64))
  }

  predicate StatsComplete(m: StatsAttrs) {
    && m.conns.Some? && m.inpkts.Some? && m.outpkts.Some? && m.inbytes.Some? && m.outbytes.Some?
    && m.cps.Some? && m.inpps.Some? && m.outpps.Some? && m.inbps.Some? && m.outbps.Some?
  }

  /** `ipvs_parse_stats`: 32-bit loads except for the byte counters. */
  function ParseStats(m: StatsAttrs, past: Addr): (r: Option<Stats>) {
    if !StatsValid(m) || !StatsComplete(m) then None
    else
      Some(Stats(Get(m.conns.value, past, W32), Get(m.inpkts.value, past, W32), Get(m.outpkts.value, past, W32),
                 Get(m.inbytes.value, past, W64), Get(m.outbytes.value, past, W64), Get(m.cps.value, past, W32),
                 Get(m.inpps.value, past, W32), Get(m.outpps.value, past, W32), Get(m.inbps.value, past, W32),
                 Get(m.outbps.value, past, W32)))
  }

  /** `ipvs_parse_stats64`: 64-bit loads throughout. */
  function ParseStats64(m: StatsAttrs, past: Addr): (r: Option<Stats>) {
    if !StatsValid(m) || !StatsComplete(m) then None
    else
      Some(Stats(Get(m.conns.value, past, W64), Get(m.inpkts.value, past, W64), Get(m.outpkts.value, past, W64),
                 Get(m.inbytes.value, past, W64), Get(m.outbytes.value, past, W64), Get(m.cps.value, past, W64),
                 Get(m.inpps.value, past, W64), Get(m.outpps.value, past, W64), Get(m.inbps.value, past, W64),
                 Get(m.outbps.value, past, W64)))
  }

  /** The counters a 32-bit decoder leaves of 64-bit ones. */
  function Halved(s: Stats): (h: Stats) {
    Stats(s.conns % 0x1_0000_0000, s.inpkts % 0x1_0000_0000, s.outpkts % 0x1_0000_0000,
          s.inbytes, s.outbytes, s.cps % 0x1_0000_0000, s.inpps % 0x1_0000_0000,
          s.outpps % 0x1_0000_0000, s.inbps % 0x1_0000_0000, s.outbps % 0x1_0000_0000)
  }

  /** 64-bit counters pass the 64-bit decoder unchanged. */
  lemma {:induction false} Stats64Lossless(s: Stats, past: Addr)
    ensures ParseStats64(Counters64(s), past) == Some(s)
  {
    hide Get, WordBytes;
    GetBack(s.conns, W64, past);
    GetBack(s.inpkts, W64, past);
    GetBack(s.outpkts, W64, past);
    GetBack(s.inbytes, W64, past);
    GetBack(s.outbytes, W64, past);
    GetBack(s.cps, W64, past);
    GetBack(s.inpps, W64, past);
    GetBack(s.outpps, W64, past);
    GetBack(s.inbps, W64, past);
    GetBack(s.outbps, W64, past);
  }

  /** Through the 32-bit decoder the byte counters are exact and the other eight lose their high half. */
  lemma {:induction false} Stats32Halves(s: Stats, past: Addr)
    ensures ParseStats(Counters64(s), past) == Some(Halved(s))
  {
    hide Get, WordBytes;
    GetOfWord(s.conns, W64, W32, past);
    GetOfWord(s.inpkts, W64, W32, past);
    GetOfWord(s.outpkts, W64, W32, past);
    GetBack(s.inbytes, W64, past);
    GetBack(s.outbytes, W64, past);
    GetOfWord(s.cps, W64, W32, past);
    GetOfWord(s.inpps, W64, W32, past);
    GetOfWord(s.outpps, W64, W32, past);
    GetOfWord(s.inbps, W64, W32, past);
    GetOfWord(s.outbps, W64, W32, past);
  }

  /** The halved counters are exact precisely when the eight 32-bit counters have not wrapped. */
  lemma {:induction false} HalvedExactIff(st: Stats)
    ensures Halved(st) == st <==>
            && st.conns < 0x1_0000_0000 && st.inpkts < 0x1_0000_0000 && st.outpkts < 0x1_0000_0000
            && st.cps < 0x1_0000_0000 && st.inpps < 0x1_0000_0000 && st.outpps < 0x1_0000_0000
            && st.inbps < 0x1_0000_0000 && st.outbps < 0x1_0000_0000
  {
  }

  // ---- decoding a service -------------------------------------------------

  predicate ServiceComplete(m: ServiceAttrs) {
    && m.af.Some?
    && (m.fwmark.Some? || (m.protocol.Some? && m.addr.Some? && m.port.Some?))
    && m.sched.Some? && m.netmask.Some? && m.timeout.Some? && m.flags.Some?
  }

  /** `flags.flags & flags.mask`. */
  function DecodeFlags(s: seq<byte>, past: Addr): (f: u32) {
    var d := s + past;
    And(Load(d, W32), Load(d[4..], W32))
  }

  function DecodeServiceStats(m: ServiceAttrs, past: Addr): (r: Option<Stats>) {
    if m.stats64.Some? then ParseStats64(m.stats64.value, past)
    else if m.stats.Some? then ParseStats(m.stats.value, past)
    else Some(NO_STATS)
  }

  /** The entry `ipvs_services_parse_cb` writes into a zeroed slot, or None for its -1. */
  function DecodeService(m: ServiceAttrs, past: Addr): (r: Option<ServiceEntry>)
    ensures r.Some? ==> r.value.numDests == 0
  {
    if !ServiceValid(m) || !ServiceComplete(m) then None
    else
      match DecodeServiceStats(m, past)
      case None => None
      case Some(stats) =>
        var marked := m.fwmark.Some?;
        Some(ServiceEntry(
               if marked then 0 else Get(m.protocol.value, past, W16),
               if marked then 0 else Get(m.port.value, past, W16),
               if marked then Get(m.fwmark.value, past, W32) else 0,
               GetName(m.sched.value, past),
               DecodeFlags(m.flags.value, past),
               Get(m.timeout.value, past, W32),
               Get(m.netmask.value, past, W32),
               0,
               Get(m.af.value, past, W16),
               if marked then ZEROS else GetAddr(m.addr.value, past),
               if m.pe.Some? then GetName(m.pe.value, past) else ZEROS,
               stats))
  }

  function ParseServiceMessage(msg: Message): (r: Option<ServiceEntry>)
    ensures r.Some? ==> r.value.numDests == 0
  {
    if !msg.parses || msg.service.None? then None else DecodeService(msg.service.value, msg.past)
  }

  lemma {:induction false} FlagsBack(flags: u32, past: Addr)
    ensures DecodeFlags(FlagsBytes(flags), past) == flags
  {
    hide Load, WordBytes, And;
    var mask := WordBytes(ALL_ONES, W32);
    TwoWords(WordBytes(flags, W32), mask, past);
    LoadOfWord(flags, W32, W32, mask + past);
    LoadOfWord(ALL_ONES, W32, W32, past);
    AndAllOnes(flags);
  }

  lemma {:induction false} TwoWords(a: seq<byte>, b: seq<byte>, past: Addr)
    requires |a| == |b| == 4
    ensures a + b + past == a + (b + past) && (a + b + past)[4..] == b + past
  {
  }

  function Padded(n: Name): (p: Name)
    requires Terminated(n)
  {
    NameText(n) + Zeros(16 - |NameText(n)|)
  }

  /** What decoding gives back for an encoded service. */
  function ExpectedEntry(s: Service): (e: ServiceEntry)
    requires Terminated(s.sched) && Terminated(s.pe)
  {
    ServiceEntry(
      if s.fwmark == 0 then s.protocol else 0, if s.fwmark == 0 then s.port else 0, s.fwmark,
      Padded(s.sched), s.flags, s.timeout, s.netmask, 0, s.af,
      if s.fwmark == 0 then s.addr else ZEROS, Padded(s.pe), NO_STATS)
  }

  lemma {:induction false} EmptyName(n: Name)
    requires n[0] == 0
    ensures Terminated(n) && Padded(n) == ZEROS && NameText(n) == []
  {
    assert Zeros(16) == ZEROS;
  }

  lemma {:induction false} NamePayload(n: Name)
    requires Terminated(n)
    ensures Obeys(Some(NameBytes(n)), Text)
  {
  }

  lemma {:induction false} EncodedValid(s: Service, st: Option<StatsAttrs>, st64: Option<StatsAttrs>)
    requires Terminated(s.sched)
    ensures
      var m := EncodeService(s).(stats := st, stats64 := st64);
      ServiceValid(m) && ServiceComplete(m)
  {
    hide WordBytes, NameBytes, FlagsBytes, NameText;
    NamePayload(s.sched);
  }

  /** Whatever statistics accompany it, an encoded service decodes to the expected entry. */
  lemma {:induction false} DecodeEncoded(s: Service, st: Option<StatsAttrs>, st64: Option<StatsAttrs>, past: Addr)
    requires Terminated(s.sched) && Terminated(s.pe)
    ensures
      var m := EncodeService(s).(stats := st, stats64 := st64);
      DecodeService(m, past) ==
      match DecodeServiceStats(m, past)
      case None => None
      case Some(x) => Some(ExpectedEntry(s).(stats := x))
  {
    hide Get, GetName, GetAddr, DecodeFlags, DecodeServiceStats, WordBytes, NameBytes, FlagsBytes;
    hide ServiceValid, ServiceComplete, NameText, Zeros, Modulus;
    EncodedValid(s, st, st64);
    GetNameBack(s.sched, past);
    if s.pe[0] == 0 {
      EmptyName(s.pe);
    } else {
      GetNameBack(s.pe, past);
    }
    FlagsBack(s.flags, past);
    Back16(s.af, past);
    Back32(s.timeout, past);
    Back32(s.netmask, past);
    Back32(s.fwmark, past);
    Back16(s.protocol, past);
    Back16(s.port, past);
    GetAddrBack(s.addr, past);
  }

  lemma {:induction false} Back16(v: u16, past: Addr)
    ensures Get(WordBytes(v, W16), past, W16) == v
  {
    GetBack(v, W16, past);
  }

  lemma {:induction false} Back32(v: u32, past: Addr)
    ensures Get(WordBytes(v, W32), past, W32) == v
  {
    GetBack(v, W32, past);
  }

  lemma {:induction false} PaddedText(n: Name)
    requires Terminated(n)
    ensures NameText(Padded(n)) == NameText(n)
  {
    GetNameBack(n, ZEROS);
  }

  /**
   * Decoding an encoded service returns the same family, mark, flags, timeout and netmask and the
   * same texts of both names, keeps protocol, address and port exactly for unmarked services and
   * zeroes them otherwise.
   */
  lemma {:induction false} ServiceRoundTrip(s: Service, past: Addr)
    requires Terminated(s.sched) && Terminated(s.pe)
    ensures DecodeService(EncodeService(s), past) == Some(ExpectedEntry(s))
    ensures NameText(ExpectedEntry(s).sched) == NameText(s.sched)
    ensures NameText(ExpectedEntry(s).pe) == NameText(s.pe)
  {
    hide DecodeService, NameText;
    assert EncodeService(s).(stats := None, stats64 := None) == EncodeService(s);
    DecodeEncoded(s, None, None, past);
    PaddedText(s.sched);
    PaddedText(s.pe);
  }

  /** The kernel's 64-bit statistics on a service come through unchanged, beside an unchanged rest. */
  lemma {:induction false} ServiceStatsRoundTrip(s: Service, st: Stats, past: Addr)
    requires Terminated(s.sched) && Terminated(s.pe)
    ensures DecodeService(EncodeService(s).(stats64 := Some(Counters64(st))), past)
         == Some(ExpectedEntry(s).(stats := st))
  {
    hide DecodeService, NameText, Counters64, ParseStats64;
    var m := EncodeService(s).(stats64 := Some(Counters64(st)));
    assert EncodeService(s).(stats := None, stats64 := Some(Counters64(st))) == m;
    DecodeEncoded(s, None, Some(Counters64(st)), past);
    Stats64Lossless(st, past);
  }

  /**
   * With both statistics attributes the 64-bit one is decoded and the other is not looked at; the
   * 32-bit one alone goes through its own decoder, and makes the message fail where that fails.
   */
  lemma {:induction false} ServiceStatsChoice(s: Service, st: Stats, m: StatsAttrs, past: Addr)
    requires Terminated(s.sched) && Terminated(s.pe)
    ensures DecodeService(EncodeService(s).(stats := Some(m), stats64 := Some(Counters64(st))), past)
         == Some(ExpectedEntry(s).(stats := st))
    ensures DecodeService(EncodeService(s).(stats := Some(m)), past) ==
            match ParseStats(m, past)
            case None => None
            case Some(x) => Some(ExpectedEntry(s).(stats := x))
  {
    hide DecodeService, NameText, Counters64, ParseStats64, ParseStats;
    assert EncodeService(s).(stats := Some(m), stats64 := None) == EncodeService(s).(stats := Some(m));
    DecodeEncoded(s, Some(m), Some(Counters64(st)), past);
    DecodeEncoded(s, Some(m), None, past);
    Stats64Lossless(st, past);
  }

  /** The counters as the kernel puts them into the 32-bit attribute. */
  function Counters32(s: Stats): (m: StatsAttrs) {
    StatsAttrs(Put(s.conns, W32), Put(s.inpkts, W32), Put(s.outpkts, W32), Put(s.inbytes, W64), Put(s.outbytes, W64),
               Put(s.cps, W32), Put(s.inpps, W32), Put(s.outpps, W32), Put(s.inbps, W32), Put(s.outbps, W32))
  }

  /** They come back modulo 2^32, the byte counters exactly; and none may be missing. */
  lemma {:induction false} Stats32RoundTrip(s: Stats, past: Addr)
    ensures ParseStats(Counters32(s), past) == Some(Halved(s))
    ensures ParseStats(Counters32(s).(conns := None), past).None? && ParseStats(Counters32(s).(outbps := None), past).None?
  {
    hide Get, WordBytes;
    GetOfWord(s.conns, W32, W32, past);
    GetOfWord(s.inpkts, W32, W32, past);
    GetOfWord(s.outpkts, W32, W32, past);
    GetBack(s.inbytes, W64, past);
    GetBack(s.outbytes, W64, past);
    GetOfWord(s.cps, W32, W32, past);
    GetOfWord(s.inpps, W32, W32, past);
    GetOfWord(s.outpps, W32, W32, past);
    GetOfWord(s.inbps, W32, W32, past);
    GetOfWord(s.outbps, W32, W32, past);
  }

  /**
   * A message the policy lets through, without the attributes the policy says nothing about, is
   * decoded from its own bytes alone exactly when it has a mark or an address of sixteen bytes: the
   * policy bounds the length of an address only from above.
   */
  lemma {:induction false} ReadsInsideIff(m: ServiceAttrs)
    requires ServiceValid(m) && ServiceComplete(m) && m.pe.None? && m.stats.None? && m.stats64.None?
    ensures (forall past, past' :: DecodeService(m, past) == DecodeService(m, past')) <==>
            m.fwmark.Some? || |m.addr.value| == 16
  {
    hide Get, GetAddr, GetName, DecodeFlags;
    if m.fwmark.Some? || |m.addr.value| == 16 {
      forall past, past'
        ensures DecodeService(m, past) == DecodeService(m, past')
      {
        SameFields(m, past, past');
        if m.fwmark.None? {
          GetAddrInsideIff(m.addr.value);
        }
      }
    } else {
      GetAddrInsideIff(m.addr.value);
      var past, past' :| GetAddr(m.addr.value, past) != GetAddr(m.addr.value, past');
      assert DecodeService(m, past).value.addr != DecodeService(m, past').value.addr;
    }
  }

  lemma {:induction false} SameFields(m: ServiceAttrs, past: Addr, past': Addr)
    requires ServiceValid(m) && ServiceComplete(m)
    ensures Get(m.af.value, past, W16) == Get(m.af.value, past', W16)
    ensures m.fwmark.Some? ==> Get(m.fwmark.value, past, W32) == Get(m.fwmark.value, past', W32)
    ensures m.protocol.Some? ==> Get(m.protocol.value, past, W16) == Get(m.protocol.value, past', W16)
    ensures m.port.Some? ==> Get(m.port.value, past, W16) == Get(m.port.value, past', W16)
    ensures Get(m.timeout.value, past, W32) == Get(m.timeout.value, past', W32)
    ensures Get(m.netmask.value, past, W32) == Get(m.netmask.value, past', W32)
    ensures GetName(m.sched.value, past) == GetName(m.sched.value, past')
    ensures DecodeFlags(m.flags.value, past) == DecodeFlags(m.flags.value, past')
  {
    hide Get, GetName, DecodeFlags;
    GetInside(m.af.value, past, past', W16);
    if m.fwmark.Some? {
      GetInside(m.fwmark.value, past, past', W32);
    }
    if m.protocol.Some? {
      GetInside(m.protocol.value, past, past', W16);
    }
    if m.port.Some? {
      GetInside(m.port.value, past, past', W16);
    }
    GetInside(m.timeout.value, past, past', W32);
    GetInside(m.netmask.value, past, past', W32);
    GetNameInside(m.sched.value, past, past');
    SameFlags(m.flags.value, past, past');
  }

  lemma {:induction false} SameFlags(s: seq<byte>, past: Addr, past': Addr)
    requires |s| == 8
    ensures DecodeFlags(s, past) == DecodeFlags(s, past')
  {
    hide And, FromLE;
    assert (s + past)[..4] == s[..4] && (s + past')[..4] == s[..4];
    assert (s + past)[4..][..4] == s[4..] && (s + past')[4..][..4] == s[4..];
  }

  /** A shorter address is accepted and completed with the bytes that follow it; nothing else changes. */
  lemma {:induction false} ShortAddress(m: ServiceAttrs, x: seq<byte>, past: Addr)
    requires DecodeService(m, past).Some? && m.fwmark.None? && |x| <= 16
    ensures DecodeService(m.(addr := Some(x)), past) == Some(DecodeService(m, past).value.(addr := (x + past)[..16]))
  {
    hide Get, GetName, DecodeFlags, ParseStats, ParseStats64;
  }

  /** Flags are read under their mask. */
  lemma {:induction false} FlagsUnderMask(flags: u32, mask: u32, past: Addr)
    ensures DecodeFlags(WordBytes(flags, W32) + WordBytes(mask, W32), past) == And(flags, mask)
  {
    hide Load, WordBytes, And;
    TwoWords(WordBytes(flags, W32), WordBytes(mask, W32), past);
    LoadOfWord(flags, W32, W32, WordBytes(mask, W32) + past);
    LoadOfWord(mask, W32, W32, past);
  }

  /** The key attributes `ipvs_get_dests` writes for a decoded entry name the service it came from. */
  lemma {:induction false} DecodedEntryNamesSameService(s: Service, past: Addr)
    requires Terminated(s.sched) && Terminated(s.pe)
    ensures
      var r := DecodeService(EncodeService(s), past);
      r.Some? &&
      var e := r.value;
      ServiceKeyAttrs(e.af, e.fwmark, e.protocol, e.addr, e.port)
      == ServiceKeyAttrs(s.af, s.fwmark, s.protocol, s.addr, s.port)
  {
    hide DecodeService, EncodeService, NameText;
    ServiceRoundTrip(s, past);
  }

  // ---- destinations -------------------------------------------------------

  function EncodeDest(d: Dest): (m: DestAttrs) {
    NO_DEST_ATTRS.(family := Put(d.af, W16), addr := Some(d.addr), port := Put(d.port, W16),
                   fwd := Put(And(d.connFlags, IP_VS_CONN_F_FWD_MASK), W32),
                   weight := Put(Wrap32(d.weight), W32),
                   upper := Put(d.upper, W32), lower := Put(d.lower, W32))
  }

  /** `ipvs_nl_fill_dest_attr`, when every put finds room. */
  method FillDestAttr(dst: Dest) returns (m: DestAttrs)
    ensures m == EncodeDest(dst)
  {
    m := NO_DEST_ATTRS.(family := Put(dst.af, W16));
    m := m.(addr := Some(dst.addr));
    m := m.(port := Put(dst.port, W16));
    m := m.(fwd := Put(And(dst.connFlags, IP_VS_CONN_F_FWD_MASK), W32));
    m := m.(weight := Put(Wrap32(dst.weight), W32));
    m := m.(upper := Put(dst.upper, W32));
    m := m.(lower := Put(dst.lower, W32));
  }

  predicate DestComplete(m: DestAttrs) {
    && m.addr.Some? && m.port.Some? && m.fwd.Some? && m.weight.Some? && m.upper.Some? && m.lower.Some?
    && m.active.Some? && m.inactive.Some? && m.persistent.Some?
  }

  /** Both kinds of statistics go through the 32-bit decoder. */
  function DecodeDestStats(m: DestAttrs, past: Addr): (r: Option<Stats>) {
    if m.stats64.Some? then ParseStats(m.stats64.value, past)
    else if m.stats.Some? then ParseStats(m.stats.value, past)
    else Some(NO_STATS)
  }

  /** The entry `ipvs_dests_parse_cb` writes for a table of family `af`, or None for its -1. */
  function DecodeDest(m: DestAttrs, past: Addr, af: u16): (r: Option<DestEntry>) {
    if !DestValid(m) || !DestComplete(m) then None
    else
      match DecodeDestStats(m, past)
      case None => None
      case Some(stats) =>
        Some(DestEntry(
               Get(m.port.value, past, W16), Get(m.fwd.value, past, W32),
               Signed32(Get(m.weight.value, past, W32)),
               Get(m.upper.value, past, W32), Get(m.lower.value, past, W32),
               Get(m.active.value, past, W32), Get(m.inactive.value, past, W32),
               Get(m.persistent.value, past, W32),
               if m.family.Some? then Get(m.family.value, past, W16) else af,
               GetAddr(m.addr.value, past), stats))
  }

  function ParseDestMessage(msg: Message, af: u16): (r: Option<DestEntry>) {
    if !msg.parses || msg.dest.None? then None else DecodeDest(msg.dest.value, msg.past, af)
  }

  /** A destination as the kernel dumps it: the encoded attributes, three connection counters, statistics. */
  function DumpedDest(d: Dest, a: u32, i: u32, p: u32, st64: Option<StatsAttrs>): (m: DestAttrs) {
    EncodeDest(d).(active := Put(a, W32), inactive := Put(i, W32), persistent := Put(p, W32), stats64 := st64)
  }

  function ExpectedDest(d: Dest, a: u32, i: u32, p: u32, st: Stats): (e: DestEntry) {
    DestEntry(d.port, d.connFlags % 8, d.weight, d.upper, d.lower, a, i, p, d.af, d.addr, st)
  }

  lemma {:induction false} DecodeDumped(
    d: Dest, a: u32, i: u32, p: u32, st: Option<StatsAttrs>, st64: Option<StatsAttrs>, past: Addr, af: u16)
    ensures
      var m := DumpedDest(d, a, i, p, st64).(stats := st);
      DecodeDest(m, past, af) ==
      match DecodeDestStats(m, past)
      case None => None
      case Some(st) => Some(ExpectedDest(d, a, i, p, st))
  {
    hide Get, GetAddr, DecodeDestStats, WordBytes, Wrap32;
    AndSeven(d.connFlags);
    SignedOfWrap(d.weight);
    GetBack(d.af, W16, past);
    GetBack(d.port, W16, past);
    GetBack(d.connFlags % 8, W32, past);
    GetBack(Wrap32(d.weight), W32, past);
    GetBack(d.upper, W32, past);
    GetBack(d.lower, W32, past);
    GetBack(a, W32, past);
    GetBack(i, W32, past);
    GetBack(p, W32, past);
    GetAddrBack(d.addr, past);
  }

  /**
   * Encoding a destination, adding the connection counters and decoding preserves family, address,
   * port, thresholds and every signed weight, and keeps the forwarding bits of the flags.
   */
  lemma {:induction false} DestRoundTrip(d: Dest, a: u32, i: u32, p: u32, past: Addr, af: u16)
    ensures DecodeDest(DumpedDest(d, a, i, p, None), past, af) == Some(ExpectedDest(d, a, i, p, NO_STATS))
  {
    hide DecodeDest, And;
    assert DumpedDest(d, a, i, p, None).(stats := None) == DumpedDest(d, a, i, p, None);
    DecodeDumped(d, a, i, p, None, None, past, af);
  }

  lemma {:induction false} ShortDestAddress(m: DestAttrs, x: seq<byte>, past: Addr, af: u16)
    requires DecodeDest(m, past, af).Some? && |x| <= 16
    ensures DecodeDest(m.(addr := Some(x)), past, af) == Some(DecodeDest(m, past, af).value.(addr := (x + past)[..16]))
  {
    hide Get, ParseStats;
  }

  /** A destination dumped without its family gets that of the service it was asked for. */
  lemma {:induction false} FamilyFromService(d: Dest, a: u32, i: u32, p: u32, past: Addr, af: u16)
    ensures DecodeDest(DumpedDest(d, a, i, p, None).(family := None), past, af)
         == Some(ExpectedDest(d.(af := af), a, i, p, NO_STATS))
  {
    hide Get, WordBytes, And;
    assert DumpedDest(d, a, i, p, None).(family := None) == DumpedDest(d.(af := af), a, i, p, None).(family := None);
    DestRoundTrip(d.(af := af), a, i, p, past, af);
    FamilyOptional(d.(af := af), a, i, p, past);
  }

  lemma {:induction false} FamilyOptional(d: Dest, a: u32, i: u32, p: u32, past: Addr)
    ensures DecodeDest(DumpedDest(d, a, i, p, None).(family := None), past, d.af)
         == DecodeDest(DumpedDest(d, a, i, p, None), past, d.af)
  {
    hide Get, WordBytes, And, GetAddr, Wrap32;
    GetBack(d.af, W16, past);
  }

  /**
   * With 64-bit statistics attached, the decoded entry carries the halved counters: the right ones
   * exactly when the eight counters that are not byte counts fit 32 bits.
   */
  lemma {:induction false} DestStatsHalved(d: Dest, a: u32, i: u32, p: u32, st: Stats, past: Addr, af: u16)
    ensures DecodeDest(DumpedDest(d, a, i, p, Some(Counters64(st))), past, af)
         == Some(ExpectedDest(d, a, i, p, Halved(st)))
    ensures DecodeDest(DumpedDest(d, a, i, p, Some(Counters64(st))), past, af) == Some(ExpectedDest(d, a, i, p, st))
       <==> && st.conns < 0x1_0000_0000 && st.inpkts < 0x1_0000_0000 && st.outpkts < 0x1_0000_0000
            && st.cps < 0x1_0000_0000 && st.inpps < 0x1_0000_0000 && st.outpps < 0x1_0000_0000
            && st.inbps < 0x1_0000_0000 && st.outbps < 0x1_0000_0000
  {
    HalvedExactIff(st);
    hide DecodeDest, And, Counters64, ParseStats;
    var m := DumpedDest(d, a, i, p, Some(Counters64(st)));
    assert m.(stats := None) == m;
    DecodeDumped(d, a, i, p, None, Some(Counters64(st)), past, af);
    Stats32Halves(st, past);
  }

  /** With both attributes the 64-bit one is decoded; the other is used alone. */
  lemma {:induction false} DestStatsChoice(
    d: Dest, a: u32, i: u32, p: u32, st: Stats, old_: Stats, past: Addr, af: u16)
    ensures DecodeDest(DumpedDest(d, a, i, p, Some(Counters64(st))).(stats := Some(Counters32(old_))), past, af)
         == Some(ExpectedDest(d, a, i, p, Halved(st)))
    ensures DecodeDest(DumpedDest(d, a, i, p, None).(stats := Some(Counters32(old_))), past, af)
         == Some(ExpectedDest(d, a, i, p, Halved(old_)))
  {
    hide DecodeDest, And, Counters64, Counters32, ParseStats;
    DecodeDumped(d, a, i, p, Some(Counters32(old_)), Some(Counters64(st)), past, af);
    DecodeDumped(d, a, i, p, Some(Counters32(old_)), None, past, af);
    Stats32Halves(st, past);
    Stats32RoundTrip(old_, past);
  }

  // ---- sync daemons -------------------------------------------------------

  /** The multicast group goes into one of two attributes, by family, or into none. */
  function EncodeGroup(af: u16, group: Addr): (a: Slot) {
    if af == AF_INET then Some(group[..4]) else None
  }

  function EncodeGroup6(af: u16, group: Addr): (a: Slot) {
    if af == AF_INET6 then Some(group) else None
  }

  /** Family and group as the slot gets them. */
  function DecodeGroup(group: Slot, group6: Slot, past: Addr, slot: Daemon): (r: (u16, Addr)) {
    if group.Some? then (AF_INET, (group.value + past)[..4] + slot.group[4..])
    else if group6.Some? then (AF_INET6, GetAddr(group6.value, past))
    else (slot.af, slot.group)
  }

  /** What a zeroed slot gets. */
  function ExpectedGroup(af: u16, group: Addr): (r: (u16, Addr)) {
    if af == AF_INET6 then (af, group)
    else if af == AF_INET then (af, group[..4] + ZEROS[4..])
    else (0, ZEROS)
  }

  lemma {:induction false} GroupRoundTrip(af: u16, group: Addr, past: Addr)
    ensures DecodeGroup(EncodeGroup(af, group), EncodeGroup6(af, group), past, EMPTY_DAEMON) == ExpectedGroup(af, group)
  {
    hide GetAddr;
    GetAddrBack(group, past);
    assert (group[..4] + past)[..4] == group[..4];
  }

  /** The attributes `ipvs_start_daemon` puts; zero options are left out. */
  function EncodeDaemon(d: Daemon): (m: DaemonAttrs) {
    DaemonAttrs(
      Put(Wrap32(d.state), W32), Some(NameBytes(d.ifn)), Put(Wrap32(d.syncid), W32),
      if d.maxlen != 0 then Put(Wrap32(d.maxlen), W16) else None,
      EncodeGroup(d.af, d.group), EncodeGroup6(d.af, d.group),
      if d.port != 0 then Put(d.port, W16) else None,
      if d.ttl != 0 then Put(d.ttl, W8) else None)
  }

  /** `ipvs_daemon_parse_cb` on one slot: absent optional attributes leave the slot's value. */
  function DecodeDaemon(m: DaemonAttrs, past: Addr, slot: Daemon): (r: Option<Daemon>) {
    if !DaemonValid(m) || m.state.None? || m.ifn.None? || m.syncid.None? then None
    else
      var (af, group) := DecodeGroup(m.group, m.group6, past, slot);
      Some(Daemon(
             Signed32(Get(m.state.value, past, W32)),
             GetName(m.ifn.value, past),
             Signed32(Get(m.syncid.value, past, W32)),
             if m.maxlen.Some? then Get(m.maxlen.value, past, W16) else slot.maxlen,
             if m.port.Some? then Get(m.port.value, past, W16) else slot.port,
             if m.ttl.Some? then Get(m.ttl.value, past, W8) else slot.ttl,
             af, group))
  }

  function ParseDaemonMessage(msg: Message, slot: Daemon): (r: Option<Daemon>) {
    if !msg.parses || msg.daemon.None? then None else DecodeDaemon(msg.daemon.value, msg.past, slot)
  }

  /** What a zeroed slot holds after decoding an encoded daemon. */
  function ExpectedDaemon(d: Daemon): (e: Daemon)
    requires Terminated(d.ifn)
  {
    var (af, group) := ExpectedGroup(d.af, d.group);
    Daemon(d.state, Padded(d.ifn), d.syncid, d.maxlen % 0x1_0000, d.port, d.ttl % 0x100, af, group)
  }

  lemma {:induction false} MaxlenBack(n: i32, past: Addr)
    ensures Get(WordBytes(Wrap32(n), W16), past, W16) == n % 0x1_0000
  {
    hide Get, WordBytes, Wrap32;
    GetOfWord(Wrap32(n), W16, W16, past);
    WrapKeepsLow16(n);
  }

  lemma {:induction false} DaemonEncodedValid(d: Daemon)
    requires Terminated(d.ifn)
    ensures DaemonValid(EncodeDaemon(d))
  {
    hide WordBytes, NameBytes, Wrap32, NameText;
    NamePayload(d.ifn);
  }

  lemma {:induction false} DaemonRoundTrip(d: Daemon, past: Addr)
    requires Terminated(d.ifn)
    ensures DecodeDaemon(EncodeDaemon(d), past, EMPTY_DAEMON) == Some(ExpectedDaemon(d))
  {
    hide Get, GetName, WordBytes, NameBytes, Wrap32, NameText, DaemonValid;
    hide DecodeGroup, EncodeGroup, EncodeGroup6, ExpectedGroup;
    DaemonEncodedValid(d);
    GetNameBack(d.ifn, past);
    GroupRoundTrip(d.af, d.group, past);
    SignedOfWrap(d.state);
    SignedOfWrap(d.syncid);
    GetBack(Wrap32(d.state), W32, past);
    GetBack(Wrap32(d.syncid), W32, past);
    GetBack(d.port, W16, past);
    MaxlenBack(d.maxlen, past);
    GetOfWord(d.ttl, W8, W8, past);
  }

  /**
   * The round trip into a zeroed slot keeps state, interface, sync id and port always, and length,
   * TTL and family exactly when the length fits 16 bits, the TTL fits 8 bits and the family is IPv4,
   * IPv6 or unset; the group keeps the bytes its family gives a meaning to.
   */
  lemma {:induction false} DaemonIdentityIff(d: Daemon, past: Addr)
    requires Terminated(d.ifn)
    ensures
      var r := DecodeDaemon(EncodeDaemon(d), past, EMPTY_DAEMON);
      r.Some? &&
      var e := r.value;
      && e.state == d.state && NameText(e.ifn) == NameText(d.ifn) && e.syncid == d.syncid && e.port == d.port
      && (e.maxlen == d.maxlen && e.ttl == d.ttl && e.af == d.af
          <==> 0 <= d.maxlen < 0x1_0000 && d.ttl < 0x100 && d.af in {AF_UNSPEC, AF_INET, AF_INET6})
      && (d.af in {AF_INET, AF_INET6} ==> Significant(d.af, e.group) == Significant(d.af, d.group))
  {
    hide DecodeDaemon, EncodeDaemon, NameText;
    DaemonRoundTrip(d, past);
    PaddedText(d.ifn);
  }
}
