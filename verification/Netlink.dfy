/**
 * Netlink messages as tables of attributes.  A table has one slot per attribute id of
 * depend/libipvs/ip_vs.h, empty or holding the payload bytes, like the pointer arrays that
 * `nla_parse` fills.  The policies are those of depend/libipvs/ip_vs_nl_policy.c; the byte layout
 * around the payloads belongs to libnl.
 */
module Netlink {
  import opened Machine
  import opened Options
  import opened Records

  /** An attribute pointer: null, or the payload bytes. */
  type Slot = Option<seq<byte>>

  /** The ten counters, `IPVS_STATS_ATTR_*`. */
  datatype StatsAttrs = StatsAttrs(
    conns: Slot, inpkts: Slot, outpkts: Slot, inbytes: Slot, outbytes: Slot,
    cps: Slot, inpps: Slot, outpps: Slot, inbps: Slot, outbps: Slot)

  /** `IPVS_SVC_ATTR_*`. */
  datatype ServiceAttrs = ServiceAttrs(
    af: Slot, protocol: Slot, addr: Slot, port: Slot, fwmark: Slot, sched: Slot, flags: Slot,
    timeout: Slot, netmask: Slot, stats: Option<StatsAttrs>, pe: Slot, stats64: Option<StatsAttrs>)

  /** `IPVS_DEST_ATTR_*`. */
  datatype DestAttrs = DestAttrs(
    addr: Slot, port: Slot, fwd: Slot, weight: Slot, upper: Slot, lower: Slot,
    active: Slot, inactive: Slot, persistent: Slot, stats: Option<StatsAttrs>, family: Slot,
    stats64: Option<StatsAttrs>)

  /** `IPVS_DAEMON_ATTR_*`. */
  datatype DaemonAttrs = DaemonAttrs(
    state: Slot, ifn: Slot, syncid: Slot, maxlen: Slot, group: Slot, group6: Slot, port: Slot, ttl: Slot)

  /**
   * A received message: whether it parses at all, its nested tables, and the sixteen bytes of the
   * receive buffer that an accessor would see past the end of a short attribute.
   */
  datatype Message = Message(
    parses: bool, service: Option<ServiceAttrs>, dest: Option<DestAttrs>, daemon: Option<DaemonAttrs>,
    past: Addr)

  const NO_SERVICE_ATTRS: ServiceAttrs :=
    ServiceAttrs(None, None, None, None, None, None, None, None, None, None, None, None)
  const NO_DEST_ATTRS: DestAttrs :=
    DestAttrs(None, None, None, None, None, None, None, None, None, None, None, None)

  // ---- policies -----------------------------------------------------------

  /** Integer widths in bytes. */
  datatype Width = W8 | W16 | W32 | W64

  function Size(w: Width): (n: nat)
    ensures 0 < n <= 8
  {
    match w
    case W8 => 1
    case W16 => 2
    case W32 => 4
    case W64 => 8
  }

  /** `Word(w)`: at least that many bytes; `Text`: NUL-terminated within sixteen; `Blob`: a length range. */
  datatype Rule = Word(width: Width) | Text | Blob(min: nat, max: nat)

  /** An attribute, if present, obeys its rule. */
  predicate Obeys(a: Slot, r: Rule) {
    a.Some? ==>
      match r
      case Word(w) => |a.value| >= Size(w)
      case Text => 0 < |a.value| <= 16 && a.value[|a.value| - 1] == 0
      case Blob(lo, hi) => lo <= |a.value| <= hi
  }

  /** `ipvs_service_policy`; the persistence engine and 64-bit statistics have no rule. */
  predicate ServiceValid(m: ServiceAttrs) {
    && Obeys(m.af, Word(W16)) && Obeys(m.protocol, Word(W16)) && Obeys(m.addr, Blob(0, 16))
    && Obeys(m.port, Word(W16)) && Obeys(m.fwmark, Word(W32)) && Obeys(m.sched, Text)
    && Obeys(m.flags, Blob(8, 8)) && Obeys(m.timeout, Word(W32)) && Obeys(m.netmask, Word(W32))
  }

  /** `ipvs_dest_policy`; the address family and 64-bit statistics have no rule. */
  predicate DestValid(m: DestAttrs) {
    && Obeys(m.addr, Blob(0, 16)) && Obeys(m.port, Word(W16)) && Obeys(m.fwd, Word(W32))
    && Obeys(m.weight, Word(W32)) && Obeys(m.upper, Word(W32)) && Obeys(m.lower, Word(W32))
    && Obeys(m.active, Word(W32)) && Obeys(m.inactive, Word(W32)) && Obeys(m.persistent, Word(W32))
  }

  /** `ipvs_stats_policy`: only the byte counters must have eight bytes. */
  predicate StatsValid(m: StatsAttrs) {
    && Obeys(m.conns, Word(W32)) && Obeys(m.inpkts, Word(W32)) && Obeys(m.outpkts, Word(W32))
    && Obeys(m.inbytes, Word(W64)) && Obeys(m.outbytes, Word(W64)) && Obeys(m.cps, Word(W32))
    && Obeys(m.inpps, Word(W32)) && Obeys(m.outpps, Word(W32)) && Obeys(m.inbps, Word(W32))
    && Obeys(m.outbps, Word(W32))
  }

  /** `ipvs_daemon_policy`. */
  predicate DaemonValid(m: DaemonAttrs) {
    && Obeys(m.state, Word(W32)) && Obeys(m.ifn, Text) && Obeys(m.syncid, Word(W32))
    && Obeys(m.maxlen, Word(W16)) && Obeys(m.group, Word(W32)) && Obeys(m.group6, Blob(0, 16))
    && Obeys(m.port, Word(W16)) && Obeys(m.ttl, Word(W8))
  }

  // ---- putting and getting ------------------------------------------------

  /** The payload of `NLA_PUT_U8` … `NLA_PUT_U64`; higher bits are dropped. */
  function WordBytes(v: nat, w: Width): (s: seq<byte>)
    ensures |s| == Size(w)
  {
    LE(v, Size(w))
  }

  function Put(v: nat, w: Width): (a: Slot)
    ensures a.Some? && |a.value| == Size(w)
  {
    Some(WordBytes(v, w))
  }

  function Modulus(w: Width): (m: nat)
    ensures m > 0
  {
    match w
    case W8 => 0x100
    case W16 => 0x1_0000
    case W32 => 0x1_0000_0000
    case W64 => 0x1_0000_0000_0000_0000
  }

  lemma {:induction false} ModulusIsPower(w: Width)
    ensures Modulus(w) == Pow256(Size(w))
  {
    Pow256Values();
  }

  /** A load of a word from memory. */
  function Load(d: seq<byte>, w: Width): (v: nat)
    requires |d| >= Size(w)
    ensures v < Modulus(w)
  {
    FromLEBound(d[..Size(w)]);
    ModulusIsPower(w);
    FromLE(d[..Size(w)])
  }

  /** A load from `nla_data`: the payload and whatever follows it in the receive buffer. */
  function Get(s: seq<byte>, past: Addr, w: Width): (v: nat)
    ensures v < Modulus(w)
  {
    Load(s + past, w)
  }

  /** `memcpy` of a whole address union. */
  function GetAddr(s: seq<byte>, past: Addr): (a: Addr) {
    (s + past)[..16]
  }

  lemma {:induction false} LoadOfWord(v: nat, w: Width, k: Width, rest: seq<byte>)
    requires Size(k) <= Size(w)
    ensures Load(WordBytes(v, w) + rest, k) == v % Modulus(k)
  {
    assert (WordBytes(v, w) + rest)[..Size(k)] == LE(v, Size(w))[..Size(k)];
    ReadPrefix(v, Size(w), Size(k));
    ModulusIsPower(k);
  }

  /** A load from a payload at least as wide sees the value modulo the width of the load. */
  lemma {:induction false} GetOfWord(v: nat, w: Width, k: Width, past: Addr)
    requires Size(k) <= Size(w)
    ensures Get(WordBytes(v, w), past, k) == v % Modulus(k)
  {
    LoadOfWord(v, w, k, past);
  }

  lemma {:induction false} GetBack(v: nat, w: Width, past: Addr)
    requires v < Modulus(w)
    ensures Get(WordBytes(v, w), past, w) == v
  {
    hide Get, WordBytes;
    GetOfWord(v, w, w, past);
  }

  /** A payload that is long enough is read without what follows it. */
  lemma {:induction false} GetInside(s: seq<byte>, past: Addr, past': Addr, w: Width)
    requires |s| >= Size(w)
    ensures Get(s, past, w) == Get(s, past', w)
  {
    hide FromLE;
    assert (s + past)[..Size(w)] == s[..Size(w)] && (s + past')[..Size(w)] == s[..Size(w)];
  }

  /** An address is read without what follows it exactly when it has all its bytes. */
  lemma {:induction false} GetAddrInsideIff(s: seq<byte>)
    ensures (forall past, past' :: GetAddr(s, past) == GetAddr(s, past')) <==> |s| >= 16
  {
    if |s| < 16 {
      var zeros: Addr, ones: Addr := ZEROS, [1, 1, 1, 1, 1, 1, 1, 1, 1, 1, 1, 1, 1, 1, 1, 1];
      assert (s + zeros)[..16][15] == 0 && (s + ones)[..16][15] == 1;
      assert GetAddr(s, zeros) != GetAddr(s, ones);
    } else {
      assert forall past: Addr :: (s + past)[..16] == s[..16];
    }
  }

  /** So is a terminated name. */
  lemma {:induction false} GetNameInside(s: seq<byte>, past: Addr, past': Addr)
    requires s != [] && s[|s| - 1] == 0
    ensures GetName(s, past) == GetName(s, past')
  {
    hide StrNCpy;
    var t := NameText(s);
    assert s[|s| - 1] in s && s[..|s|] == s;
    assert |t| < |s|;
    var rest := s[|t| + 1..];
    assert s == t + [0] + rest;
    assert s + past == t + [0] + (rest + past) && s + past' == t + [0] + (rest + past');
    NameTextUnique(t, rest + past);
    NameTextUnique(t, rest + past');
    SameCopy(s + past, s + past');
  }

  /** A name without a NUL in its first sixteen bytes fills the array and is not terminated. */
  lemma {:induction false} GetNameLong(s: seq<byte>, past: Addr)
    requires |s| >= 16 && 0 !in s[..16]
    ensures GetName(s, past) == s[..16] && !Terminated(GetName(s, past))
  {
    var n := s[..16];
    forall i | 0 <= i < 16
      ensures (s + past)[i] == n[i] != 0
    {
      assert n[i] in n;
    }
    var t := NameText(s + past);
    assert |t| >= 16;
    assert t[..16] == n;
  }

  lemma {:induction false} SameCopy(s: seq<byte>, t: seq<byte>)
    requires NameText(s) == NameText(t)
    ensures StrNCpy(s) == StrNCpy(t)
  {
    hide NameText;
  }

  lemma {:induction false} GetAddrBack(a: Addr, past: Addr)
    ensures GetAddr(a, past) == a
  {
  }

  // ---- names --------------------------------------------------------------

  /** The bytes before the first NUL. */
  function NameText(s: seq<byte>): (t: seq<byte>)
    ensures |t| <= |s| && t == s[..|t|] && 0 !in t
    ensures |t| < |s| ==> s[|t|] == 0
  {
    if s == [] || s[0] == 0 then [] else [s[0]] + NameText(s[1..])
  }

  predicate Terminated(n: Name) {
    |NameText(n)| < 16
  }

  /** `NLA_PUT_STRING`: the text with its NUL. */
  function NameBytes(n: Name): (s: seq<byte>) {
    NameText(n) + [0]
  }

  function Zeros(n: nat): (z: seq<byte>)
    ensures |z| == n && forall i | 0 <= i < n :: z[i] == 0
  {
    seq(n, _ => 0)
  }

  /** `strncpy` of at most sixteen bytes into a zeroed array. */
  function StrNCpy(s: seq<byte>): (n: Name) {
    var t := NameText(s);
    if |t| >= 16 then t[..16] else t + Zeros(16 - |t|)
  }

  function GetName(s: seq<byte>, past: Addr): (n: Name) {
    StrNCpy(s + past)
  }

  lemma {:induction false} NameTextUnique(t: seq<byte>, rest: seq<byte>)
    requires 0 !in t
    ensures NameText(t + [0] + rest) == t
  {
    if t == [] {
      assert t + [0] + rest == [0] + rest;
    } else {
      assert t[0] in t;
      assert (t + [0] + rest)[1..] == t[1..] + [0] + rest;
      NameTextUnique(t[1..], rest);
    }
  }

  /** A NUL-terminated name survives the wire: same text, zero padding. */
  lemma {:induction false} GetNameBack(n: Name, past: Addr)
    requires Terminated(n)
    ensures GetName(NameBytes(n), past) == NameText(n) + Zeros(16 - |NameText(n)|)
    ensures NameText(GetName(NameBytes(n), past)) == NameText(n)
  {
    var t := NameText(n);
    NameTextUnique(t, past);
    assert NameBytes(n) + past == t + [0] + past;
    var z := Zeros(15 - |t|);
    assert Zeros(16 - |t|) == [0] + z;
    assert t + Zeros(16 - |t|) == t + [0] + z;
    NameTextUnique(t, z);
  }
}
