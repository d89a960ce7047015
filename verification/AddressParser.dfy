/**
 * The address parser of src/ipvs_interface.cpp.  `m_parse_service` works in place on a C string,
 * cutting it with NULs; here it is proved to compute a parser on values, which in turn is related
 * to the grammar of its accepted texts.
 */
module AddressParser {
  import opened Machine
  import opened Options
  import opened CText
  import opened Records

  /** The C library and resolver calls the parser makes. */
  datatype Net = Net(
    pton6: string -> Option<Addr>,
    aton: string -> Option<Quad>,
    resolve: string -> Option<Quad>,
    service: (string, u16) -> Option<u16>)

  // ---- numbers ------------------------------------------------------------

  /** `m_string_to_number`: the number if all of `s` is one within the limits, otherwise -1. */
  function StringToNumber(s: string, min: int, max: int): (r: int) {
    var n := Strtol(s);
    if n.end == |s| && n.end != 0 && !n.range && min <= n.number <= max then n.number else -1
  }

  /** A digit string of any length is accepted exactly when the number it denotes is a port. */
  lemma {:induction false} PortDigits(ds: string)
    requires AllDigits(ds) && ds != []
    ensures StringToNumber(ds, 0, 65535) == if DigitsValue(ds) <= 65535 then DigitsValue(ds) else -1
  {
    StrtolNumeral("", "", ds);
    assert "" + ("" + ds) == ds;
  }

  /** The number a numeral denotes; a minus sign negates it. */
  function NumeralValue(sign: string, ds: string): (v: int)
    requires AllDigits(ds)
  {
    var v: int := DigitsValue(ds);
    if sign == "-" then -v else v
  }

  /** The texts that denote `p`: white space and a sign may precede the digits, nothing may follow. */
  ghost predicate PortText(s: string, p: int) {
    exists w: string, sign: string, ds: string ::
      IsNumeral(w, sign, ds) && s == w + (sign + ds) && NumeralValue(sign, ds) == p
  }

  /** Exactly these texts are accepted as port numbers, for digit strings of any length. */
  lemma {:induction false} PortTextIff(s: string, p: int)
    requires p != -1
    ensures StringToNumber(s, 0, 65535) == p <==> 0 <= p <= 65535 && PortText(s, p)
  {
    hide Strtol, DigitsValue;
    if StringToNumber(s, 0, 65535) == p {
      var w, sign, ds := StrtolConsumes(s);
      StrtolNumeral(w, sign, ds);
      assert NumeralValue(sign, ds) == p;
    }
    if 0 <= p <= 65535 && PortText(s, p) {
      var w: string, sign: string, ds: string :|
        IsNumeral(w, sign, ds) && s == w + (sign + ds) && NumeralValue(sign, ds) == p;
      StrtolNumeral(w, sign, ds);
    }
  }

  lemma {:induction false} PortOfDecimal(p: u16)
    ensures StringToNumber(Decimal(p), 0, 65535) == p
  {
    DecimalValue(p);
    PortDigits(Decimal(p));
  }

  /** The port a text stands for: a number, or a service known for the protocol. */
  function PortOf(net: Net, proto: u16, s: string): (p: Option<u16>) {
    var n := StringToNumber(s, 0, 65535);
    if n != -1 then Some(n)
    else if proto == IPPROTO_TCP || proto == IPPROTO_UDP || proto == IPPROTO_SCTP then net.service(s, proto)
    else None
  }

  const IPPROTO_SCTP: u16 := 132

  // ---- the parser on values -----------------------------------------------

  datatype Host = V6(addr: Addr) | V4(quad: Quad)

  /** A parsed endpoint; ports are in host order. */
  datatype Endpoint = Endpoint(host: Host, port: Option<u16>)

  /** An IPv4 address or else a name. */
  function HostOf(net: Net, s: string): (h: Option<Host>) {
    match net.aton(s)
    case Some(q) => Some(V4(q))
    case None =>
      match net.resolve(s)
      case Some(q) => Some(V4(q))
      case None => None
  }

  /** Attaches the port text, if there is one. */
  function WithPort(net: Net, proto: u16, h: Option<Host>, port: Option<string>): (e: Option<Endpoint>) {
    if h.None? then None
    else if port.None? then Some(Endpoint(h.value, None))
    else
      match PortOf(net, proto, port.value)
      case None => None
      case Some(p) => Some(Endpoint(h.value, Some(p)))
  }

  /** `host` or `host:port`, cut at the last colon. */
  function ParseHostPort(net: Net, proto: u16, s: string): (e: Option<Endpoint>) {
    var i := LastIndexOf(s, ':');
    if i == -1 then WithPort(net, proto, HostOf(net, s), None)
    else WithPort(net, proto, HostOf(net, s[..i]), Some(s[i + 1..]))
  }

  /** The text between brackets and the text after `]:`. */
  function Brackets(s: string): (r: Option<(string, string)>)
    requires s != [] && s[0] == '['
  {
    var t := s[1..];
    var i := IndexOf(t, ']');
    if i == -1 || i + 1 >= |t| || t[i + 1] != ':' then None else Some((t[..i], t[i + 2..]))
  }

  /** An IPv6 address with the port found so far, or else `host` or `host:port`. */
  function ParseBody(net: Net, proto: u16, body: string, port: Option<string>): (e: Option<Endpoint>) {
    match net.pton6(body)
    case Some(a) => WithPort(net, proto, Some(V6(a)), port)
    case None => ParseHostPort(net, proto, body)
  }

  function Parse(net: Net, proto: u16, s: string): (e: Option<Endpoint>) {
    if AllDigits(s) then None
    else if s[0] == '[' then
      match Brackets(s)
      case None => None
      case Some((body, port)) => ParseBody(net, proto, body, Some(port))
    else ParseBody(net, proto, s, None)
  }

  function StoreHost(svc: Service, h: Host): (svc': Service) {
    match h
    case V6(a) => svc.(addr := a, af := AF_INET6, netmask := 128)
    case V4(q) => svc.(addr := q + svc.addr[4..], af := AF_INET)
  }

  /** What the endpoint does to a service record. */
  function Store(svc: Service, e: Endpoint): (svc': Service) {
    var s := StoreHost(svc, e.host);
    if e.port.Some? then s.(port := Htons(e.port.value)) else s
  }

  /** The host the parser finds before it looks at a port. */
  function HostPart(net: Net, body: string): (h: Option<Host>) {
    match net.pton6(body)
    case Some(a) => Some(V6(a))
    case None =>
      var i := LastIndexOf(body, ':');
      HostOf(net, if i == -1 then body else body[..i])
  }

  /** A bad port is noticed after the address is stored. */
  function BodyResidue(net: Net, svc: Service, body: string): (svc': Service) {
    match HostPart(net, body)
    case None => svc
    case Some(h) => StoreHost(svc, h)
  }

  /** What a failed parse leaves in the record. */
  function Residue(net: Net, svc: Service, s: string): (svc': Service) {
    if AllDigits(s) then svc
    else if s[0] == '[' then
      match Brackets(s)
      case None => svc
      case Some((body, _)) => BodyResidue(net, svc, body)
    else BodyResidue(net, svc, s)
  }

  const SERVICE_NONE: int := 0
  const SERVICE_ADDR: int := 1
  const SERVICE_PORT: int := 2

  function ResultCode(e: Option<Endpoint>): (r: int) {
    if e.None? then SERVICE_NONE
    else if e.value.port.Some? then SERVICE_ADDR + SERVICE_PORT
    else SERVICE_ADDR
  }

  // ---- C strings in a buffer ----------------------------------------------

  /** `buf + off` is a NUL-terminated string. */
  ghost predicate Terminated(buf: array<char>, off: int)
    reads buf
  {
    0 <= off < buf.Length && NUL in buf[off..]
  }

  /** The C string at `buf + off`. */
  ghost function At(buf: array<char>, off: int): (s: string)
    requires Terminated(buf, off)
    reads buf
    ensures off + |s| < buf.Length && s == buf[off..off + |s|] && buf[off + |s|] == NUL && NUL !in s
    ensures forall j | 0 <= j < |s| :: s[j] == buf[off + j] && s[j] != NUL
  {
    var s := CStr(buf[off..]);
    assert forall j | 0 <= j < |s| :: s[j] in s;
    s
  }

  /** The C string at an offset is the text up to the next NUL. */
  lemma {:induction false} AtUnique(buf: array<char>, off: int, end: int)
    requires 0 <= off <= end < buf.Length && NUL !in buf[off..end] && buf[end] == NUL
    ensures Terminated(buf, off) && At(buf, off) == buf[off..end]
  {
    assert buf[off..] == buf[off..end] + [NUL] + buf[end + 1..];
    CStrUnique(buf[off..end], buf[end + 1..]);
  }

  method StrLen(buf: array<char>, off: int) returns (n: nat)
    requires Terminated(buf, off)
    ensures n == |At(buf, off)|
  {
    n := 0;
    ghost var s := At(buf, off);
    while buf[off + n] != NUL
      invariant n <= |s|
      decreases |s| - n
    {
      n := n + 1;
    }
  }

  /** `strchr`: absolute index of the first `c`, or -1. */
  method StrChr(buf: array<char>, off: int, c: char) returns (i: int)
    requires Terminated(buf, off) && c != NUL
    ensures i == (if IndexOf(At(buf, off), c) == -1 then -1 else off + IndexOf(At(buf, off), c))
  {
    ghost var s := At(buf, off);
    var n := 0;
    while buf[off + n] != NUL && buf[off + n] != c
      invariant n <= |s| && c !in s[..n]
      decreases |s| - n
    {
      assert n < |s| && s[n] == buf[off + n];
      assert s[..n + 1] == s[..n] + [s[n]];
      n := n + 1;
    }
    if buf[off + n] == NUL {
      assert s[..n] == s;
      return -1;
    }
    assert n < |s| && s[n] == c;
    assert s == s[..n] + [c] + s[n + 1..];
    IndexOfUnique(s[..n], c, s[n + 1..]);
    return off + n;
  }

  lemma {:induction false} LastOfNone(s: string, c: char)
    ensures LastIndexOf(s[..0], c) == -1
  {
  }

  lemma {:induction false} LastOfPrefix(s: string, n: nat, c: char)
    requires n < |s|
    ensures LastIndexOf(s[..n + 1], c) == if s[n] == c then n else LastIndexOf(s[..n], c)
  {
    hide LastIndexOf;
    assert s[..n + 1] == s[..n] + [s[n]];
    LastIndexOfSnoc(s[..n], s[n], c);
  }

  /** `strrchr`: absolute index of the last `c`, or -1. */
  method StrRChr(buf: array<char>, off: int, c: char) returns (i: int)
    requires Terminated(buf, off) && c != NUL
    ensures i == (if LastIndexOf(At(buf, off), c) == -1 then -1 else off + LastIndexOf(At(buf, off), c))
  {
    hide At, Terminated, LastIndexOf;
    ghost var s := At(buf, off);
    var n, last := 0, -1;
    LastOfNone(s, c);
    CharAt(buf, off, 0);
    while buf[off + n] != NUL
      invariant 0 <= n <= |s| && 0 <= off && off + n < buf.Length && (n == |s| <==> buf[off + n] == NUL)
      invariant last == LastIndexOf(s[..n], c)
      decreases |s| - n
    {
      CharAt(buf, off, n);
      CharAt(buf, off, n + 1);
      LastOfPrefix(s, n, c);
      if buf[off + n] == c {
        last := n;
      }
      n := n + 1;
    }
    assert s[..n] == s;
    i := if last == -1 then -1 else off + last;
  }

  lemma {:induction false} CharAt(buf: array<char>, off: int, n: nat)
    requires Terminated(buf, off) && n <= |At(buf, off)|
    ensures 0 <= off && off + n < buf.Length && (n == |At(buf, off)| <==> buf[off + n] == NUL)
    ensures n < |At(buf, off)| ==> At(buf, off)[n] == buf[off + n]
  {
    hide At;
  }

  /** `m_str_is_digit`. */
  method StrIsDigit(buf: array<char>, off: int) returns (r: bool)
    requires Terminated(buf, off)
    ensures r == AllDigits(At(buf, off))
  {
    ghost var s := At(buf, off);
    var top := StrLen(buf, off);
    var offset := 0;
    while offset < top
      invariant offset <= top == |s|
      invariant forall j | 0 <= j < offset :: IsDigit(s[j])
    {
      if !IsDigit(buf[off + offset]) {
        assert s[offset] == buf[off + offset];
        break;
      }
      assert s[offset] == buf[off + offset];
      offset := offset + 1;
    }
    r := offset >= top;
  }

  /** Cutting the string at `off` with a NUL at index `k` leaves its first part and what follows. */
  lemma {:induction false} CutAt(before: seq<char>, buf: array<char>, off: int, s: string, k: int)
    requires 0 <= off && off + |s| < |before| == buf.Length
    requires before[off..off + |s|] == s && before[off + |s|] == NUL && NUL !in s
    requires off <= k < off + |s|
    requires buf[..] == before[k := NUL]
    ensures Terminated(buf, off) && At(buf, off) == s[..k - off]
    ensures Terminated(buf, k + 1) && At(buf, k + 1) == s[k - off + 1..]
  {
    assert buf[off..k] == s[..k - off];
    AtUnique(buf, off, k);
    assert buf[k + 1..off + |s|] == s[k - off + 1..];
    AtUnique(buf, k + 1, off + |s|);
  }

  /** Only closing brackets and colons were overwritten, by NULs. */
  ghost predicate OnlyCuts(before: seq<char>, after: seq<char>) {
    |before| == |after| &&
    forall i | 0 <= i < |before| :: after[i] == before[i] || (after[i] == NUL && before[i] in {']', ':'})
  }

  /** The C string as a value, for handing to the library. */
  method Text(buf: array<char>, off: int) returns (t: string)
    requires Terminated(buf, off)
    ensures t == At(buf, off)
  {
    var n := StrLen(buf, off);
    t := buf[off..off + n];
  }

  lemma {:induction false} AtKept(before: seq<char>, buf: array<char>, off: int, s: string)
    requires 0 <= off && off + |s| < |before| == buf.Length
    requires before[off..off + |s|] == s && before[off + |s|] == NUL && NUL !in s
    requires buf[off..off + |s| + 1] == before[off..off + |s| + 1]
    ensures Terminated(buf, off) && At(buf, off) == s
  {
    assert buf[off + |s|] == buf[off..off + |s| + 1][|s|] == NUL;
    assert buf[off..off + |s|] == buf[off..off + |s| + 1][..|s|] == s;
    AtUnique(buf, off, off + |s|);
  }

  /** `*p = '\0'` inside the string at `off`: the string is cut in two there. */
  method PutNul(buf: array<char>, off: int, k: int)
    requires Terminated(buf, off) && off <= k < off + |At(buf, off)| && buf[k] in {']', ':'}
    modifies buf
    ensures OnlyCuts(old(buf[..]), buf[..])
    ensures Terminated(buf, off) && At(buf, off) == old(At(buf, off))[..k - off]
    ensures Terminated(buf, k + 1) && At(buf, k + 1) == old(At(buf, off))[k - off + 1..]
  {
    ghost var before, s := buf[..], At(buf, off);
    buf[k] := NUL;
    CutAt(before, buf, off, s, k);
  }

  /** Cuts at the closing bracket after `off`: the index behind it, or -1. */
  method CutBracket(buf: array<char>, off: int) returns (portp: int)
    requires Terminated(buf, off)
    modifies buf
    ensures OnlyCuts(old(buf[..]), buf[..])
    ensures portp == -1 <==> IndexOf(old(At(buf, off)), ']') == -1
    ensures portp != -1 ==>
              && off < portp && Terminated(buf, off)
              && At(buf, off) == old(At(buf, off))[..IndexOf(old(At(buf, off)), ']')]
              && portp == off + |At(buf, off)| + 1
              && Terminated(buf, portp)
              && At(buf, portp) == old(At(buf, off))[IndexOf(old(At(buf, off)), ']') + 1..]
  {
    hide IndexOf, At, Terminated, OnlyCuts;
    portp := StrChr(buf, off, ']');
    if portp == -1 {
      NoCuts(buf[..]);
      return;
    }
    PutNul(buf, off, portp);
    portp := portp + 1;
  }

  lemma {:induction false} NoCuts(a: seq<char>)
    ensures OnlyCuts(a, a)
  {
  }

  /** A NUL over the first character of the string at `k`, seen from a string that ends before it. */
  method PutNulAtStart(buf: array<char>, off: int, k: int)
    requires Terminated(buf, off) && k == off + |At(buf, off)| + 1 && Terminated(buf, k)
    requires At(buf, k) != [] && At(buf, k)[0] == ':'
    modifies buf
    ensures OnlyCuts(old(buf[..]), buf[..])
    ensures Terminated(buf, off) && At(buf, off) == old(At(buf, off))
    ensures Terminated(buf, k + 1) && At(buf, k + 1) == old(At(buf, k))[1..]
  {
    hide At;
    ghost var before, s, t := buf[..], At(buf, k), At(buf, off);
    buf[k] := NUL;
    CutAt(before, buf, k, s, k);
    assert buf[off..off + |t| + 1] == before[off..off + |t| + 1];
    AtKept(before, buf, off, t);
  }

  /** Cuts at a colon standing at `portp`. */
  method CutColon(buf: array<char>, off: int, portp: int) returns (cut: bool)
    requires Terminated(buf, off) && portp == off + |At(buf, off)| + 1 && Terminated(buf, portp)
    modifies buf
    ensures OnlyCuts(old(buf[..]), buf[..])
    ensures cut <==> old(At(buf, portp)) != [] && old(At(buf, portp))[0] == ':'
    ensures cut ==>
              && Terminated(buf, off) && At(buf, off) == old(At(buf, off))
              && Terminated(buf, portp + 1) && At(buf, portp + 1) == old(At(buf, portp))[1..]
  {
    hide At, OnlyCuts;
    ghost var s := At(buf, portp);
    NoCuts(buf[..]);
    cut := buf[portp] == ':';
    if cut {
      assert s != [] && s[0] == ':';
      PutNulAtStart(buf, off, portp);
    }
  }

  lemma {:induction false} AtTail(buf: array<char>)
    requires Terminated(buf, 0) && At(buf, 0) != []
    ensures Terminated(buf, 1) && At(buf, 1) == At(buf, 0)[1..]
  {
    var s := At(buf, 0);
    assert buf[1..|s|] == s[1..];
    AtUnique(buf, 1, |s|);
  }

  /** The bracket step: cuts at `]` and at the colon after it; the index of that colon, or -1. */
  method OpenBracket(buf: array<char>) returns (portp: int)
    requires Terminated(buf, 0) && At(buf, 0) != [] && At(buf, 0)[0] == '['
    modifies buf
    ensures OnlyCuts(old(buf[..]), buf[..])
    ensures portp == -1 <==> Brackets(old(At(buf, 0))).None?
    ensures portp != -1 ==>
              && Terminated(buf, 1) && At(buf, 1) == Brackets(old(At(buf, 0))).value.0
              && Terminated(buf, portp + 1) && At(buf, portp + 1) == Brackets(old(At(buf, 0))).value.1
  {
    hide IndexOf, At, Terminated, OnlyCuts;
    ghost var before, t := buf[..], At(buf, 0)[1..];
    AtTail(buf);
    portp := CutBracket(buf, 1);
    if portp == -1 {
      return;
    }
    ghost var middle := buf[..];
    ghost var u := At(buf, portp);
    assert u != [] ==> u[0] == t[IndexOf(t, ']') + 1];
    var cut := CutColon(buf, 1, portp);
    CutsCompose(before, middle, buf[..]);
    if !cut {
      return -1;
    }
    assert u[1..] == t[IndexOf(t, ']') + 2..];
  }

  /** The port step: cuts the string at its last colon, if it has one. */
  method CutPort(buf: array<char>, off: int) returns (portp: int)
    requires Terminated(buf, off)
    modifies buf
    ensures OnlyCuts(old(buf[..]), buf[..]) && Terminated(buf, off)
    ensures portp == -1 <==> LastIndexOf(old(At(buf, off)), ':') == -1
    ensures portp == -1 ==> At(buf, off) == old(At(buf, off))
    ensures portp != -1 ==>
              && At(buf, off) == old(At(buf, off))[..LastIndexOf(old(At(buf, off)), ':')]
              && Terminated(buf, portp + 1)
              && At(buf, portp + 1) == old(At(buf, off))[LastIndexOf(old(At(buf, off)), ':') + 1..]
  {
    hide LastIndexOf, At, Terminated, OnlyCuts;
    NoCuts(buf[..]);
    portp := StrRChr(buf, off, ':');
    if portp != -1 {
      PutNul(buf, off, portp);
    }
  }

  /** The address part: an IPv4 address or else a name. */
  method ReadHost(net: Net, name: string) returns (h: Option<Host>)
    ensures h == HostOf(net, name)
  {
    var quad := net.aton(name);
    if quad.Some? {
      return Some(V4(quad.value));
    }
    quad := net.resolve(name);
    if quad.Some? {
      return Some(V4(quad.value));
    }
    return None;
  }

  /** Everything after the bracket step; `portp` is the index of a colon already cut, or -1. */
  method ParseFrom(net: Net, buf: array<char>, off: int, portp: int, svc: Service)
    returns (result: int, svc': Service)
    requires Terminated(buf, off) && (portp != -1 ==> Terminated(buf, portp + 1))
    modifies buf
    ensures OnlyCuts(old(buf[..]), buf[..])
    ensures
      var port := if portp == -1 then None else Some(old(At(buf, portp + 1)));
      var e := ParseBody(net, svc.protocol, old(At(buf, off)), port);
      && result == ResultCode(e)
      && svc' == (if e.Some? then Store(svc, e.value) else BodyResidue(net, svc, old(At(buf, off))))
  {
    hide PortOf, HostOf, Htons, At, Terminated, OnlyCuts, LastIndexOf, StoreHost;
    NoCuts(buf[..]);
    svc' := svc;
    var body := Text(buf, off);
    var six := net.pton6(body);
    var host: Option<Host>, colon := None, portp;
    if six.Some? {
      host := Some(V6(six.value));
    } else {
      colon := CutPort(buf, off);
      var name := Text(buf, off);
      host := ReadHost(net, name);
    }
    if host.None? {
      return SERVICE_NONE, svc';
    }
    svc' := StoreHost(svc', host.value);
    result := SERVICE_ADDR;
    if colon != -1 {
      var text := Text(buf, colon + 1);
      var portn := ReadPort(net, svc.protocol, text);
      if portn == -1 {
        return SERVICE_NONE, svc';
      }
      result := result + SERVICE_PORT;
      svc' := svc'.(port := Htons(portn));
    }
  }

  /** `m_parse_service` refines the parser on values, for every C string and the null pointer. */
  method ParseService(net: Net, buf: array?<char>, svc: Service) returns (result: int, svc': Service)
    requires buf != null ==> Terminated(buf, 0)
    modifies buf
    ensures buf != null ==> OnlyCuts(old(buf[..]), buf[..])
    ensures
      var e := if buf == null then None else Parse(net, svc.protocol, old(At(buf, 0)));
      && result == ResultCode(e)
      && svc' == (if e.Some? then Store(svc, e.value)
                  else if buf == null then svc else Residue(net, svc, old(At(buf, 0))))
  {
    hide ParseBody, Brackets, BodyResidue, Store;
    svc' := svc;
    result := SERVICE_NONE;
    if buf == null {
      return;
    }
    ghost var before := buf[..];
    var digits := StrIsDigit(buf, 0);
    if digits {
      return;
    }
    if buf[0] == '[' {
      var portp := OpenBracket(buf);
      if portp == -1 {
        return;
      }
      ghost var middle := buf[..];
      result, svc' := ParseFrom(net, buf, 1, portp, svc);
      CutsCompose(before, middle, buf[..]);
    } else {
      result, svc' := ParseFrom(net, buf, 0, -1, svc);
    }
  }

  lemma {:induction false} CutsCompose(a: seq<char>, b: seq<char>, c: seq<char>)
    requires OnlyCuts(a, b) && OnlyCuts(b, c)
    ensures OnlyCuts(a, c)
  {
  }

  /** `m_string_to_number` and then `m_service_to_port`. */
  method ReadPort(net: Net, proto: u16, text: string) returns (portn: int)
    ensures portn == (if PortOf(net, proto, text).Some? then PortOf(net, proto, text).value else -1)
  {
    portn := StringToNumber(text, 0, 65535);
    if portn != -1 {
      return;
    }
    if proto == IPPROTO_TCP || proto == IPPROTO_UDP || proto == IPPROTO_SCTP {
      var p := net.service(text, proto);
      portn := if p.Some? then p.value else -1;
    }
  }
}
