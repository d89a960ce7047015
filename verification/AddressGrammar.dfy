/**
 * The language the address parser accepts: a grammar by concatenation that it decides exactly,
 * and a printer that it undoes.
 */
module AddressGrammar {
  import opened Machine
  import opened Options
  import opened CText
  import opened Records
  import opened AddressParser

  // ---- the grammar --------------------------------------------------------

  /** The text is an IPv4 address or, if it is none, a name that resolves. */
  predicate HostIs(net: Net, s: string, h: Host) {
    h.V4? && (net.aton(s) == Some(h.quad) || (net.aton(s).None? && net.resolve(s) == Some(h.quad)))
  }

  /** The text is a port number or, if it is none, a service known for the protocol. */
  ghost predicate PortIs(net: Net, proto: u16, s: string, port: u16) {
    || PortText(s, port)
    || (&& (forall n | 0 <= n <= 65535 :: !PortText(s, n))
        && proto in {IPPROTO_TCP, IPPROTO_UDP, IPPROTO_SCTP} && net.service(s, proto) == Some(port))
  }

  /** `host:port`, the port without a colon. */
  ghost predicate HostColonPort(net: Net, proto: u16, s: string, e: Endpoint) {
    exists h: string, p: string ::
      && s == h + ":" + p && ':' !in p
      && HostIs(net, h, e.host) && e.port.Some? && PortIs(net, proto, p, e.port.value)
  }

  /** An IPv6 address with the outer port text, if any; or a host; or `host:port`. */
  ghost predicate BodyDerives(net: Net, proto: u16, s: string, port: Option<string>, e: Endpoint) {
    if net.pton6(s).Some? then
      && e.host == V6(net.pton6(s).value)
      && (if port.None? then e.port.None? else e.port.Some? && PortIs(net, proto, port.value, e.port.value))
    else
      || (':' !in s && HostIs(net, s, e.host) && e.port.None?)
      || HostColonPort(net, proto, s, e)
  }

  /** `[body]:port`, the body without a closing bracket. */
  ghost predicate Bracketed(net: Net, proto: u16, s: string, e: Endpoint) {
    exists b: string, p: string ::
      s == "[" + b + "]:" + p && ']' !in b && BodyDerives(net, proto, b, Some(p), e)
  }

  /** The whole language; text of digits only, the empty text included, is not in it. */
  ghost predicate Derives(net: Net, proto: u16, s: string, e: Endpoint) {
    && !AllDigits(s)
    && (Bracketed(net, proto, s, e) || (s[0] != '[' && BodyDerives(net, proto, s, None, e)))
  }

  lemma {:induction false} HostIff(net: Net, s: string, h: Host)
    ensures HostOf(net, s) == Some(h) <==> HostIs(net, s, h)
  {
  }

  lemma {:induction false} PortIff(net: Net, proto: u16, s: string, port: u16)
    ensures PortOf(net, proto, s) == Some(port) <==> PortIs(net, proto, s, port)
  {
    hide StringToNumber, PortText;
    PortTextIff(s, port);
    forall n | 0 <= n <= 65535
      ensures StringToNumber(s, 0, 65535) == n <==> PortText(s, n)
    {
      PortTextIff(s, n);
    }
    NumberInRange(s);
    var v := StringToNumber(s, 0, 65535);
    assert v != -1 ==> PortText(s, v);
    assert v == -1 ==> forall n | 0 <= n <= 65535 :: !PortText(s, n);
  }

  lemma {:induction false} NumberInRange(s: string)
    ensures -1 <= StringToNumber(s, 0, 65535) <= 65535
  {
    hide Strtol;
  }

  lemma {:induction false} CutAtLastColon(h: string, p: string)
    requires ':' !in p
    ensures
      var s := h + ":" + p;
      var i := LastIndexOf(s, ':');
      0 <= i < |s| && s[..i] == h && s[i + 1..] == p
  {
    hide LastIndexOf;
    LastIndexOfUnique(h, ':', p);
  }

  lemma {:induction false} LastColon(s: string)
    requires ':' in s
    ensures
      var i := LastIndexOf(s, ':');
      0 <= i < |s| && s == s[..i] + ":" + s[i + 1..] && ':' !in s[i + 1..]
  {
    hide LastIndexOf;
  }

  lemma {:induction false} HostPortIff(net: Net, proto: u16, s: string, e: Endpoint)
    ensures ParseHostPort(net, proto, s) == Some(e) <==>
            || (':' !in s && HostIs(net, s, e.host) && e.port.None?)
            || HostColonPort(net, proto, s, e)
  {
    hide HostOf, PortOf, HostIs, PortIs, LastIndexOf;
    HostIff(net, s, e.host);
    if ':' in s {
      LastColon(s);
      var i := LastIndexOf(s, ':');
      HostIff(net, s[..i], e.host);
      if e.port.Some? {
        PortIff(net, proto, s[i + 1..], e.port.value);
      }
      if HostColonPort(net, proto, s, e) {
        var h: string, p: string :|
          && s == h + ":" + p && ':' !in p
          && HostIs(net, h, e.host) && e.port.Some? && PortIs(net, proto, p, e.port.value);
        CutAtLastColon(h, p);
      }
    } else {
      NoColonNoPort(net, proto, s, e);
    }
  }

  lemma {:induction false} NoColonNoPort(net: Net, proto: u16, s: string, e: Endpoint)
    requires ':' !in s
    ensures !HostColonPort(net, proto, s, e)
  {
    hide HostIs, PortIs;
    assert forall h: string, p: string :: ':' in h + ":" + p by {
      forall h: string, p: string
        ensures ':' in h + ":" + p
      {
        assert (h + ":" + p)[|h|] == ':';
      }
    }
  }

  lemma {:induction false} BodyIff(net: Net, proto: u16, s: string, port: Option<string>, e: Endpoint)
    ensures ParseBody(net, proto, s, port) == Some(e) <==> BodyDerives(net, proto, s, port, e)
  {
    hide HostIs, PortIs, PortOf, ParseHostPort, HostColonPort;
    if net.pton6(s).None? {
      HostPortIff(net, proto, s, e);
    } else if port.Some? && e.port.Some? {
      PortIff(net, proto, port.value, e.port.value);
    }
  }

  lemma {:induction false} BracketsOf(b: string, p: string)
    requires ']' !in b
    ensures Brackets("[" + b + "]:" + p) == Some((b, p))
  {
    var s := "[" + b + "]:" + p;
    var t := s[1..];
    assert t == b + "]" + (":" + p);
    IndexOfUnique(b, ']', ":" + p);
    assert t[..|b|] == b && t[|b| + 1] == ':' && t[|b| + 2..] == p;
  }

  lemma {:induction false} BracketsShape(s: string)
    requires s != [] && s[0] == '[' && Brackets(s).Some?
    ensures s == "[" + Brackets(s).value.0 + "]:" + Brackets(s).value.1 && ']' !in Brackets(s).value.0
  {
    hide IndexOf;
    var t := s[1..];
    var i := IndexOf(t, ']');
    assert s == "[" + t;
    AroundPair(t, i);
  }

  lemma {:induction false} AroundPair(t: string, i: nat)
    requires i + 1 < |t| && t[i] == ']' && t[i + 1] == ':'
    ensures "[" + t == "[" + t[..i] + "]:" + t[i + 2..]
  {
    assert t == t[..i] + [t[i], t[i + 1]] + t[i + 2..];
  }

  /** The parser decides the grammar: soundness and completeness for every text. */
  lemma {:induction false} ParseDecidesGrammar(net: Net, proto: u16, s: string, e: Endpoint)
    ensures Parse(net, proto, s) == Some(e) <==> Derives(net, proto, s, e)
  {
    hide ParseBody, BodyDerives, Brackets;
    if !AllDigits(s) {
      if s[0] == '[' {
        BracketedIff(net, proto, s, e);
      } else {
        BodyIff(net, proto, s, None, e);
        NotBracketed(net, proto, s, e);
      }
    }
  }

  lemma {:induction false} NotBracketed(net: Net, proto: u16, s: string, e: Endpoint)
    requires s != [] && s[0] != '['
    ensures !Bracketed(net, proto, s, e)
  {
    hide BodyDerives;
    assert forall b: string, p: string :: ("[" + b + "]:" + p)[0] == '[';
  }

  lemma {:induction false} BracketedIff(net: Net, proto: u16, s: string, e: Endpoint)
    requires s != [] && s[0] == '['
    ensures Bracketed(net, proto, s, e) <==>
            Brackets(s).Some? && ParseBody(net, proto, Brackets(s).value.0, Some(Brackets(s).value.1)) == Some(e)
  {
    hide ParseBody, BodyDerives, Brackets;
    if Brackets(s).Some? {
      BracketsShape(s);
      BodyIff(net, proto, Brackets(s).value.0, Some(Brackets(s).value.1), e);
    }
    if Bracketed(net, proto, s, e) {
      var b: string, p: string :|
        s == "[" + b + "]:" + p && ']' !in b && BodyDerives(net, proto, b, Some(p), e);
      BracketsOf(b, p);
    }
  }

  // ---- the printer --------------------------------------------------------

  /** What the library guarantees about the texts it accepts. */
  ghost predicate Laws(net: Net) {
    && (forall t: string :: net.pton6(t).Some? ==>
          IndexOf(t, ':') != LastIndexOf(t, ':') && '[' !in t && ']' !in t)
    && (forall q: Quad :: net.aton(Dotted(q)) == Some(q))
  }

  /** Dotted decimal notation. */
  function Dotted(q: Quad): (s: string) {
    Decimal(q[0]) + "." + Decimal(q[1]) + "." + Decimal(q[2]) + "." + Decimal(q[3])
  }

  /** Host texts: an IPv4 address or a name, or an IPv6 address. */
  datatype HostText = Plain(text: string) | Six(text: string)

  /** The host a text names. */
  ghost predicate Names(net: Net, t: HostText, h: Host) {
    match t
    case Plain(s) => s != "" && s[0] != '[' && ':' !in s && HostIs(net, s, h)
    case Six(s) => net.pton6(s).Some? && h == V6(net.pton6(s).value)
  }

  /** `host`, `host:port`, or an IPv6 address, in brackets when a port follows. */
  function Show(t: HostText, port: Option<u16>): (s: string) {
    match port
    case None => t.text
    case Some(p) => if t.Plain? then t.text + ":" + Decimal(p) else "[" + t.text + "]:" + Decimal(p)
  }

  lemma {:induction false} DigitsNoColon(s: string)
    requires AllDigits(s)
    ensures ':' !in s && '[' !in s
  {
    assert forall c | c in s :: IsDigit(c);
  }

  lemma {:induction false} OneColon(h: string, p: string)
    requires ':' !in h && ':' !in p
    ensures IndexOf(h + ":" + p, ':') == LastIndexOf(h + ":" + p, ':')
  {
    IndexOfUnique(h, ':', p);
    LastIndexOfUnique(h, ':', p);
  }

  /**
   * The parser undoes the printer for addresses, names and all ports; only a host text of digits
   * alone needs a port, since the parser refuses it by itself.
   */
  lemma {:induction false} ShowThenParse(net: Net, proto: u16, t: HostText, h: Host, port: Option<u16>)
    requires Laws(net) && Names(net, t, h)
    ensures Parse(net, proto, Show(t, port)) ==
            if port.None? && AllDigits(t.text) then None else Some(Endpoint(h, port))
  {
    hide Parse, HostIs;
    if t.Plain? {
      ShowPlain(net, proto, t.text, h, port);
    } else {
      ShowSix(net, proto, t.text, h, port);
    }
  }

  lemma {:induction false} ShowPlain(net: Net, proto: u16, s: string, h: Host, port: Option<u16>)
    requires Laws(net) && Names(net, Plain(s), h)
    ensures Parse(net, proto, Show(Plain(s), port)) ==
            if port.None? && AllDigits(s) then None else Some(Endpoint(h, port))
  {
    hide HostOf, HostIs, StringToNumber, LastIndexOf, IndexOf, Decimal, Dotted;
    HostIff(net, s, h);
    match port
    case None =>
      assert net.pton6(s).None? by {
        assert IndexOf(s, ':') == -1 && LastIndexOf(s, ':') == -1;
      }
    case Some(p) =>
      var d := Decimal(p);
      DigitsNoColon(d);
      OneColon(s, d);
      var text := s + ":" + d;
      assert net.pton6(text).None?;
      assert text[|s|] == ':' && text[0] == s[0];
      LastIndexOfUnique(s, ':', d);
      assert text[..|s|] == s && text[|s| + 1..] == d;
      PortOfDecimal(p);
  }

  lemma {:induction false} ShowSix(net: Net, proto: u16, s: string, h: Host, port: Option<u16>)
    requires Laws(net) && Names(net, Six(s), h)
    ensures Parse(net, proto, Show(Six(s), port)) == Some(Endpoint(h, port))
    ensures !AllDigits(s)
  {
    hide HostOf, StringToNumber, LastIndexOf, IndexOf, Decimal, Dotted, Brackets;
    assert ':' in s && !AllDigits(s) by {
      if AllDigits(s) {
        DigitsNoColon(s);
      }
    }
    assert s != [] && s[0] != '[' by {
      assert s[0] in s;
    }
    if port.Some? {
      var d := Decimal(port.value);
      BracketsOf(s, d);
      PortOfDecimal(port.value);
      var text := "[" + s + "]:" + d;
      assert text[0] == '[';
    }
  }

  /** A dotted address names itself and is never refused for being digits only. */
  lemma {:induction false} DottedNames(net: Net, q: Quad)
    requires Laws(net)
    ensures Names(net, Plain(Dotted(q)), V4(q)) && !AllDigits(Dotted(q))
  {
    hide Decimal;
    var s := Dotted(q);
    var a := Decimal(q[0]);
    assert net.aton(s) == Some(q);
    assert s[0] == a[0] && s[|a|] == '.';
  }

  /** IPv4 addresses with and without a port round-trip. */
  lemma {:induction false} DottedRoundTrip(net: Net, proto: u16, q: Quad, port: Option<u16>)
    requires Laws(net)
    ensures Parse(net, proto, Show(Plain(Dotted(q)), port)) == Some(Endpoint(V4(q), port))
  {
    hide Parse, Dotted;
    DottedNames(net, q);
    ShowThenParse(net, proto, Plain(Dotted(q)), V4(q), port);
  }

  /** A bracketed text that is not an IPv6 address is parsed without looking at what follows the bracket. */
  lemma {:induction false} BracketedHostIgnoresPort(net: Net, proto: u16, b: string, p: string)
    requires ']' !in b && net.pton6(b).None?
    ensures Parse(net, proto, "[" + b + "]:" + p) == ParseHostPort(net, proto, b)
  {
    hide Brackets, ParseHostPort;
    BracketsOf(b, p);
    var s := "[" + b + "]:" + p;
    assert s[0] == '[';
  }

  // ---- what a failed parse leaves behind ----------------------------------

  /** The record after the host text `h` was stored, if it names a host. */
  function WithHost(net: Net, svc: Service, h: string): (svc': Service) {
    if net.aton(h).Some? then svc.(addr := net.aton(h).value + svc.addr[4..], af := AF_INET)
    else if net.resolve(h).Some? then svc.(addr := net.resolve(h).value + svc.addr[4..], af := AF_INET)
    else svc
  }

  /** A failed parse has stored the IPv6 address, or the host before the last colon, if there is one. */
  lemma {:induction false} BodyResidueIs(net: Net, svc: Service, body: string)
    ensures
      var svc' := BodyResidue(net, svc, body);
      && (net.pton6(body).Some? ==> svc' == svc.(addr := net.pton6(body).value, af := AF_INET6, netmask := 128))
      && (net.pton6(body).None? && ':' !in body ==> svc' == WithHost(net, svc, body))
      && (forall h: string, p: string | body == h + ":" + p && ':' !in p && net.pton6(body).None? ::
            svc' == WithHost(net, svc, h))
  {
    hide LastIndexOf;
    forall h: string, p: string | body == h + ":" + p && ':' !in p && net.pton6(body).None?
      ensures BodyResidue(net, svc, body) == WithHost(net, svc, h)
    {
      CutAtLastColon(h, p);
    }
    assert ':' !in body ==> LastIndexOf(body, ':') == -1;
  }

  /** Nothing is stored for digits or for a bracket that is not closed before a colon. */
  lemma {:induction false} ResidueIs(net: Net, svc: Service, s: string)
    ensures AllDigits(s) ==> Residue(net, svc, s) == svc
    ensures !AllDigits(s) && s[0] != '[' ==> Residue(net, svc, s) == BodyResidue(net, svc, s)
    ensures forall b: string, p: string | s == "[" + b + "]:" + p && ']' !in b ::
              Residue(net, svc, s) == BodyResidue(net, svc, b)
    ensures !AllDigits(s) && s[0] == '[' && (forall b: string, p: string | ']' !in b :: s != "[" + b + "]:" + p) ==>
              Residue(net, svc, s) == svc
  {
    hide Brackets, BodyResidue;
    forall b: string, p: string | s == "[" + b + "]:" + p && ']' !in b
      ensures Residue(net, svc, s) == BodyResidue(net, svc, b)
    {
      BracketsOf(b, p);
      assert s[0] == '[' && !IsDigit(s[0]);
    }
    if s != [] && s[0] == '[' && Brackets(s).Some? {
      BracketsShape(s);
    }
  }
}
