/**
 * The comparators of depend/libipvs/libipvs.c.  Each subtracts unsigned fields and stores the
 * difference in an `int`, so 32-bit fields are compared modulo 2^32.
 */
module Ordering {
  import opened Machine
  import opened Records

  /** A sort key: the fields a comparator looks at, most significant first. */
  type SortKey = seq<u32>

  // ---- the comparators ----------------------------------------------------

  /** `ntohl(addr.in6.s6_addr32[i])`. */
  function Word(a: Addr, i: nat): (w: u32)
    requires i < 4
  {
    BigEndian(a[4 * i..4 * i + 4])
  }

  function AddrKey(v6: bool, a: Addr): (k: SortKey) {
    if v6 then [Word(a, 0), Word(a, 1), Word(a, 2), Word(a, 3)] else [Word(a, 0)]
  }

  /** Address and port, as both comparators look at them. */
  function EndKey(v6: bool, a: Addr, port: u16): (k: SortKey) {
    AddrKey(v6, a) + [Htons(port)]
  }

  function ServiceKey(s: ServiceEntry): (k: SortKey) {
    [s.fwmark, s.af, s.protocol] + EndKey(s.af == AF_INET6, s.addr, s.port)
  }

  /** The fields of `d` that are compared when the left operand's family is IPv6, or is not. */
  function DestKey(v6: bool, d: DestEntry): (k: SortKey) {
    EndKey(v6, d.addr, d.port)
  }

  /** An unsigned 32-bit subtraction stored in an `int`. */
  function FieldCmp(x: int, y: int): (r: i32) {
    Signed32(x - y)
  }

  /** The result for the first fields whose comparison is not zero. */
  function Cmp(a: SortKey, b: SortKey): (r: i32) {
    if a == [] || b == [] then 0
    else if FieldCmp(a[0], b[0]) != 0 then FieldCmp(a[0], b[0])
    else Cmp(a[1..], b[1..])
  }

  lemma {:induction false} CmpConcat(a: SortKey, b: SortKey, x: SortKey, y: SortKey)
    requires |a| == |b|
    ensures Cmp(a + x, b + y) == if Cmp(a, b) != 0 then Cmp(a, b) else Cmp(x, y)
  {
    if a == [] {
      assert a + x == x && b + y == y;
    } else {
      assert (a + x)[1..] == a[1..] + x && (b + y)[1..] == b[1..] + y;
      CmpConcat(a[1..], b[1..], x, y);
    }
  }

  lemma {:induction false} CmpCons(x: u32, y: u32, a: SortKey, b: SortKey)
    ensures Cmp([x] + a, [y] + b) == if FieldCmp(x, y) != 0 then FieldCmp(x, y) else Cmp(a, b)
  {
    assert ([x] + a)[1..] == a && ([y] + b)[1..] == b;
  }

  /** The comparison of two addresses: four words for IPv6, one otherwise. */
  method CmpAddr(v6: bool, a: Addr, b: Addr) returns (r: i32)
    ensures r == Cmp(AddrKey(v6, a), AddrKey(v6, b))
  {
    ghost var ka, kb := AddrKey(v6, a), AddrKey(v6, b);
    r := 0;
    if v6 {
      var i := 0;
      while r == 0 && i < 4
        invariant 0 <= i <= 4
        invariant Cmp(ka, kb) == if r == 0 then Cmp(ka[i..], kb[i..]) else r
      {
        assert ka[i..][1..] == ka[i + 1..] && kb[i..][1..] == kb[i + 1..];
        r := FieldCmp(Word(a, i), Word(b, i));
        i := i + 1;
      }
    } else {
      r := FieldCmp(Word(a, 0), Word(b, 0));
    }
  }

  method CmpEnd(v6: bool, a: Addr, p: u16, b: Addr, q: u16) returns (r: i32)
    ensures r == Cmp(EndKey(v6, a, p), EndKey(v6, b, q))
  {
    CmpConcat(AddrKey(v6, a), AddrKey(v6, b), [Htons(p)], [Htons(q)]);
    CmpOne(Htons(p), Htons(q));
    r := CmpAddr(v6, a, b);
    if r != 0 {
      return;
    }
    r := Htons(p) as int - Htons(q) as int;
  }

  lemma {:induction false} CmpOne(x: u16, y: u16)
    ensures Cmp([x], [y]) == x as int - y as int
  {
    assert FieldCmp(x, y) == x as int - y as int;
    assert Cmp([], []) == 0;
  }

  lemma {:induction false} CmpHead(m: u32, a: u32, p: u32, x: SortKey, n: u32, b: u32, q: u32, y: SortKey)
    ensures Cmp([m, a, p] + x, [n, b, q] + y) ==
            if FieldCmp(m, n) != 0 then FieldCmp(m, n)
            else if FieldCmp(a, b) != 0 then FieldCmp(a, b)
            else if FieldCmp(p, q) != 0 then FieldCmp(p, q)
            else Cmp(x, y)
  {
    assert [m, a, p] + x == [m] + ([a] + ([p] + x)) && [n, b, q] + y == [n] + ([b] + ([q] + y));
    CmpCons(m, n, [a] + ([p] + x), [b] + ([q] + y));
    CmpCons(a, b, [p] + x, [q] + y);
    CmpCons(p, q, x, y);
  }

  method CmpServices(s1: ServiceEntry, s2: ServiceEntry) returns (r: i32)
    ensures r == Cmp(ServiceKey(s1), ServiceKey(s2))
  {
    hide EndKey, Cmp;
    CmpHead(s1.fwmark, s1.af, s1.protocol, EndKey(s1.af == AF_INET6, s1.addr, s1.port),
            s2.fwmark, s2.af, s2.protocol, EndKey(s2.af == AF_INET6, s2.addr, s2.port));
    r := FieldCmp(s1.fwmark, s2.fwmark);
    if r != 0 { return; }
    r := s1.af as int - s2.af as int;
    if r != 0 { return; }
    r := s1.protocol as int - s2.protocol as int;
    if r != 0 { return; }
    r := CmpEnd(s1.af == AF_INET6, s1.addr, s1.port, s2.addr, s2.port);
  }

  method CmpDests(d1: DestEntry, d2: DestEntry) returns (r: i32)
    ensures r == Cmp(DestKey(d1.af == AF_INET6, d1), DestKey(d1.af == AF_INET6, d2))
  {
    r := CmpEnd(d1.af == AF_INET6, d1.addr, d1.port, d2.addr, d2.port);
  }

  lemma {:induction false} FieldCmpZero(x: u32, y: u32)
    ensures FieldCmp(x, y) == 0 <==> x == y
    ensures -0x8000_0000 <= x as int - y as int < 0x8000_0000 ==> FieldCmp(x, y) == x as int - y as int
  {
  }

  /**
   * The first of mark, family, protocol, address and port that differs decides: marks by their
   * wrapped difference, families, protocols and ports by their difference.
   */
  lemma {:induction false} ServiceFieldsInOrder(s: ServiceEntry, t: ServiceEntry)
    ensures
      var r := Cmp(ServiceKey(s), ServiceKey(t));
      var v6 := s.af == AF_INET6;
      if s.fwmark != t.fwmark then r == Signed32(s.fwmark as int - t.fwmark as int) != 0
      else if s.af != t.af then r == s.af as int - t.af as int
      else if s.protocol != t.protocol then r == s.protocol as int - t.protocol as int
      else if Significant(s.af, s.addr) != Significant(t.af, t.addr) then
        r == Cmp(AddrKey(v6, s.addr), AddrKey(v6, t.addr)) != 0
      else r == Htons(s.port) as int - Htons(t.port) as int
  {
    hide Cmp, AddrKey, Htons, EndKey;
    var v6 := s.af == AF_INET6;
    CmpHead(s.fwmark, s.af, s.protocol, EndKey(v6, s.addr, s.port),
            t.fwmark, t.af, t.protocol, EndKey(t.af == AF_INET6, t.addr, t.port));
    FieldCmpZero(s.fwmark, t.fwmark);
    FieldCmpZero(s.af, t.af);
    FieldCmpZero(s.protocol, t.protocol);
    if s.af == t.af {
      EndDecides(v6, s.addr, s.port, t.addr, t.port);
    }
  }

  lemma {:induction false} EndDecides(v6: bool, a: Addr, p: u16, b: Addr, q: u16)
    ensures
      var c := Cmp(AddrKey(v6, a), AddrKey(v6, b));
      && Cmp(EndKey(v6, a, p), EndKey(v6, b, q)) == (if c != 0 then c else Htons(p) as int - Htons(q) as int)
      && (c == 0 <==> (if v6 then a == b else a[..4] == b[..4]))
  {
    hide Cmp, Htons;
    CmpConcat(AddrKey(v6, a), AddrKey(v6, b), [Htons(p)], [Htons(q)]);
    CmpOne(Htons(p), Htons(q));
    AddrKeyEqual(v6, a, b);
    GapZero(AddrKey(v6, a), AddrKey(v6, b));
    CmpZeroIffSameKey(AddrKey(v6, a), AddrKey(v6, b));
  }

  // ---- agreement with lexicographic order ---------------------------------

  /** Strict lexicographic order. */
  predicate Less(a: SortKey, b: SortKey) {
    a != [] && b != [] && (a[0] < b[0] || (a[0] == b[0] && Less(a[1..], b[1..])))
  }

  /** The difference at the first position where the keys differ, or 0. */
  function Gap(a: SortKey, b: SortKey): (g: int) {
    if a == [] || b == [] then 0
    else if a[0] != b[0] then a[0] as int - b[0] as int
    else Gap(a[1..], b[1..])
  }

  /** The first differing fields are less than half the 32-bit range apart. */
  predicate Near(a: SortKey, b: SortKey) {
    -0x8000_0000 <= Gap(a, b) < 0x8000_0000
  }

  lemma {:induction false} CmpIsSignedGap(a: SortKey, b: SortKey)
    ensures Cmp(a, b) == Signed32(Gap(a, b))
    ensures -0x1_0000_0000 < Gap(a, b) < 0x1_0000_0000
    ensures Gap(b, a) == -Gap(a, b)
    ensures Less(a, b) <==> Gap(a, b) < 0
  {
    if a != [] && b != [] && a[0] == b[0] {
      CmpIsSignedGap(a[1..], b[1..]);
    }
  }

  lemma {:induction false} GapZero(a: SortKey, b: SortKey)
    requires |a| == |b|
    ensures Gap(a, b) == 0 <==> a == b
  {
    if a != [] && a[0] == b[0] {
      GapZero(a[1..], b[1..]);
      assert a == [a[0]] + a[1..] && b == [b[0]] + b[1..];
    }
  }

  /** The sign of a comparator is the lexicographic order exactly when the keys are near. */
  lemma {:induction false} SignAgreesIffNear(a: SortKey, b: SortKey)
    ensures ((Cmp(a, b) < 0 <==> Less(a, b)) && (Cmp(a, b) > 0 <==> Less(b, a))) <==> Near(a, b)
  {
    hide Cmp, Gap, Less;
    CmpIsSignedGap(a, b);
    CmpIsSignedGap(b, a);
  }

  /** Swapping the operands flips the sign exactly when the gap is not half the range. */
  lemma {:induction false} AntisymmetricIff(a: SortKey, b: SortKey)
    ensures (Cmp(a, b) < 0 <==> Cmp(b, a) > 0) && (Cmp(a, b) > 0 <==> Cmp(b, a) < 0)
       <==> Gap(a, b) != 0x8000_0000 && Gap(a, b) != -0x8000_0000
  {
    hide Cmp, Gap, Less;
    CmpIsSignedGap(a, b);
    CmpIsSignedGap(b, a);
    SignedNegation(Gap(a, b));
  }

  lemma {:induction false} SignedNegation(g: int)
    requires -0x1_0000_0000 < g < 0x1_0000_0000
    ensures Signed32(-g) ==
            if g == 0x8000_0000 || g == -0x8000_0000 then -0x8000_0000 else -(Signed32(g) as int)
  {
  }

  /** Keys without a differing field are equal: no key is a proper prefix of the other. */
  predicate Discrete(a: SortKey, b: SortKey) {
    Gap(a, b) == 0 ==> a == b
  }

  lemma {:induction false} DiscreteTail(a: SortKey, b: SortKey)
    requires a != [] && b != [] && a[0] == b[0] && Discrete(a, b)
    ensures Discrete(a[1..], b[1..])
  {
  }

  lemma {:induction false} NotLessTransitive(a: SortKey, b: SortKey, c: SortKey)
    requires Discrete(a, b) && Discrete(b, c)
    requires !Less(b, a) && !Less(c, b)
    ensures !Less(c, a)
  {
    if a != [] && b != [] && c != [] && a[0] == b[0] == c[0] {
      DiscreteTail(a, b);
      DiscreteTail(b, c);
      NotLessTransitive(a[1..], b[1..], c[1..]);
    }
  }

  lemma {:induction false} ServiceKeysDiscrete(s: ServiceEntry, t: ServiceEntry)
    ensures Discrete(ServiceKey(s), ServiceKey(t))
  {
    if s.af == t.af {
      GapZero(ServiceKey(s), ServiceKey(t));
    } else {
      GapOfSecond(ServiceKey(s), ServiceKey(t));
    }
  }

  lemma {:induction false} GapOfSecond(a: SortKey, b: SortKey)
    requires |a| >= 2 && |b| >= 2 && a[1] != b[1]
    ensures Gap(a, b) != 0
  {
    assert a[1..][0] == a[1] && b[1..][0] == b[1];
  }

  lemma {:induction false} DestKeysDiscrete(v6: bool, d: DestEntry, e: DestEntry)
    ensures Discrete(DestKey(v6, d), DestKey(v6, e))
  {
    GapZero(DestKey(v6, d), DestKey(v6, e));
  }

  // ---- equal keys ---------------------------------------------------------

  lemma {:induction false} WordsEqual(a: Addr, b: Addr, i: nat)
    requires i < 4
    ensures Word(a, i) == Word(b, i) <==> a[4 * i..4 * i + 4] == b[4 * i..4 * i + 4]
  {
    BigEndianInjective(a[4 * i..4 * i + 4], b[4 * i..4 * i + 4]);
  }

  lemma {:induction false} FourParts(a: Addr)
    ensures a == a[0..4] + a[4..8] + a[8..12] + a[12..16]
  {
  }

  lemma {:induction false} AddrKeyEqual(v6: bool, a: Addr, b: Addr)
    ensures AddrKey(v6, a) == AddrKey(v6, b) <==> (if v6 then a == b else a[..4] == b[..4])
  {
    WordsEqual(a, b, 0);
    assert a[..4] == a[0..4] && b[..4] == b[0..4];
    if v6 {
      WordsEqual(a, b, 1);
      WordsEqual(a, b, 2);
      WordsEqual(a, b, 3);
      FourParts(a);
      FourParts(b);
      var ka, kb := AddrKey(true, a), AddrKey(true, b);
      assert ka == kb <==> ka[0] == kb[0] && ka[1] == kb[1] && ka[2] == kb[2] && ka[3] == kb[3];
    } else {
      assert AddrKey(v6, a)[0] == Word(a, 0) && AddrKey(v6, b)[0] == Word(b, 0);
    }
  }

  lemma {:induction false} EndKeyEqual(v6: bool, a: Addr, p: u16, b: Addr, q: u16)
    ensures EndKey(v6, a, p) == EndKey(v6, b, q) <==> AddrKey(v6, a) == AddrKey(v6, b) && p == q
  {
    HtonsInvolution(p);
    HtonsInvolution(q);
    var x, y := EndKey(v6, a, p), EndKey(v6, b, q);
    var n := |AddrKey(v6, a)|;
    assert x[..n] == AddrKey(v6, a) && y[..n] == AddrKey(v6, b);
    assert x[n] == Htons(p) && y[n] == Htons(q);
  }

  lemma {:induction false} CmpZeroIffSameKey(a: SortKey, b: SortKey)
    requires Discrete(a, b)
    ensures Cmp(a, b) == 0 <==> a == b
  {
    CmpIsSignedGap(a, b);
    CmpIsSignedGap(a, a);
  }

  /** `ipvs_cmp_services` returns 0 exactly on entries that name the same service. */
  lemma {:induction false} ServiceCmpZeroIff(s: ServiceEntry, t: ServiceEntry)
    ensures Cmp(ServiceKey(s), ServiceKey(t)) == 0 <==>
            && s.fwmark == t.fwmark && s.af == t.af && s.protocol == t.protocol
            && Significant(s.af, s.addr) == Significant(t.af, t.addr) && s.port == t.port
  {
    ServiceKeysDiscrete(s, t);
    CmpZeroIffSameKey(ServiceKey(s), ServiceKey(t));
    var ks, kt := ServiceKey(s), ServiceKey(t);
    assert ks[0] == s.fwmark && ks[1] == s.af && ks[2] == s.protocol;
    assert kt[0] == t.fwmark && kt[1] == t.af && kt[2] == t.protocol;
    if s.af == t.af {
      var v6 := s.af == AF_INET6;
      assert ks[3..] == EndKey(v6, s.addr, s.port) && kt[3..] == EndKey(v6, t.addr, t.port);
      EndKeyEqual(v6, s.addr, s.port, t.addr, t.port);
      AddrKeyEqual(v6, s.addr, t.addr);
      assert ks == ks[..3] + ks[3..] && kt == kt[..3] + kt[3..];
    }
  }

  /** `ipvs_cmp_dests`, on entries of one family, returns 0 exactly on the same address and port. */
  lemma {:induction false} DestCmpZeroIff(d: DestEntry, e: DestEntry)
    requires d.af == e.af
    ensures
      var v6 := d.af == AF_INET6;
      Cmp(DestKey(v6, d), DestKey(v6, e)) == 0 <==>
      Significant(d.af, d.addr) == Significant(e.af, e.addr) && d.port == e.port
  {
    var v6 := d.af == AF_INET6;
    DestKeysDiscrete(v6, d, e);
    CmpZeroIffSameKey(DestKey(v6, d), DestKey(v6, e));
    EndKeyEqual(v6, d.addr, d.port, e.addr, e.port);
    AddrKeyEqual(v6, d.addr, e.addr);
  }

  // ---- tables -------------------------------------------------------------

  predicate DiscreteTable(ks: seq<SortKey>) {
    forall i, j | 0 <= i < |ks| && 0 <= j < |ks| :: Discrete(ks[i], ks[j])
  }

  function Apart(x: int, y: int): (d: int) {
    x - y
  }

  /** Corresponding fields of any two keys are less than half the range apart. */
  ghost predicate NarrowTable(ks: seq<SortKey>) {
    forall i, j, f | 0 <= i < |ks| && 0 <= j < |ks| && 0 <= f < |ks[i]| && f < |ks[j]| ::
      Apart(ks[i][f], ks[j][f]) < 0x8000_0000
  }

  lemma {:induction false} NarrowIsNear(a: SortKey, b: SortKey)
    requires forall f | 0 <= f < |a| && f < |b| :: -0x8000_0000 < Apart(a[f], b[f]) < 0x8000_0000
    ensures Near(a, b)
  {
    if a != [] && b != [] {
      var a', b' := a[1..], b[1..];
      assert forall f | 0 <= f < |a'| && f < |b'| :: a'[f] == a[f + 1] && b'[f] == b[f + 1];
      NarrowIsNear(a', b');
    }
  }

  lemma {:induction false} NarrowTableIsNear(ks: seq<SortKey>, i: nat, j: nat)
    requires NarrowTable(ks) && i < |ks| && j < |ks|
    ensures Near(ks[i], ks[j])
  {
    var a, b := ks[i], ks[j];
    forall f | 0 <= f < |a| && f < |b|
      ensures -0x8000_0000 < Apart(a[f], b[f]) < 0x8000_0000
    {
      assert Apart(ks[i][f], ks[j][f]) < 0x8000_0000 && Apart(ks[j][f], ks[i][f]) < 0x8000_0000;
    }
    NarrowIsNear(a, b);
  }

  /** Any two entries are near: the exact condition for the comparator to be the lexicographic order. */
  predicate NearTable(ks: seq<SortKey>) {
    forall i, j | 0 <= i < |ks| && 0 <= j < |ks| :: Near(ks[i], ks[j])
  }

  lemma {:induction false} NarrowTableIsNearTable(ks: seq<SortKey>)
    requires NarrowTable(ks)
    ensures NearTable(ks)
  {
    forall i, j | 0 <= i < |ks| && 0 <= j < |ks|
      ensures Near(ks[i], ks[j])
    {
      NarrowTableIsNear(ks, i, j);
    }
  }

  function ServiceKeys(t: seq<ServiceEntry>): (ks: seq<SortKey>)
    ensures |ks| == |t| && forall i | 0 <= i < |t| :: ks[i] == ServiceKey(t[i])
  {
    seq(|t|, i requires 0 <= i < |t| => ServiceKey(t[i]))
  }

  function DestKeys(v6: bool, t: seq<DestEntry>): (ks: seq<SortKey>)
    ensures |ks| == |t| && forall i | 0 <= i < |t| :: ks[i] == DestKey(v6, t[i])
  {
    seq(|t|, i requires 0 <= i < |t| => DestKey(v6, t[i]))
  }

  /** Adjacent entries are in comparator order: what a sorting routine leaves behind. */
  predicate CmpSorted(ks: seq<SortKey>) {
    forall i | 0 <= i < |ks| - 1 :: Cmp(ks[i], ks[i + 1]) <= 0
  }

  predicate LexSorted(ks: seq<SortKey>) {
    forall i, j | 0 <= i < j < |ks| :: !Less(ks[j], ks[i])
  }

  /** On near keys the comparator is a total preorder: consistent under swapping, and transitive. */
  lemma {:induction false} NearPreorder(ks: seq<SortKey>, i: nat, j: nat, k: nat)
    requires NearTable(ks) && DiscreteTable(ks) && i < |ks| && j < |ks| && k < |ks|
    ensures Cmp(ks[i], ks[j]) < 0 <==> Cmp(ks[j], ks[i]) > 0
    ensures Cmp(ks[i], ks[j]) <= 0 && Cmp(ks[j], ks[k]) <= 0 ==> Cmp(ks[i], ks[k]) <= 0
  {
    SignAgreesIffNear(ks[i], ks[j]);
    SignAgreesIffNear(ks[j], ks[i]);
    SignAgreesIffNear(ks[j], ks[k]);
    SignAgreesIffNear(ks[i], ks[k]);
    if !Less(ks[j], ks[i]) && !Less(ks[k], ks[j]) {
      NotLessTransitive(ks[i], ks[j], ks[k]);
    }
  }

  lemma {:induction false} AdjacentToAll(ks: seq<SortKey>, i: nat, j: nat)
    requires NearTable(ks) && DiscreteTable(ks) && CmpSorted(ks) && i < j < |ks|
    ensures !Less(ks[j], ks[i])
    decreases j
  {
    SignAgreesIffNear(ks[j - 1], ks[j]);
    assert Cmp(ks[j - 1], ks[j - 1 + 1]) <= 0;
    if i < j - 1 {
      AdjacentToAll(ks, i, j - 1);
      NotLessTransitive(ks[i], ks[j - 1], ks[j]);
    }
  }

  /** Any comparator-sorted arrangement of near keys is lexicographically sorted. */
  lemma {:induction false} CmpSortedIsLexSorted(ks: seq<SortKey>)
    requires NearTable(ks) && DiscreteTable(ks) && CmpSorted(ks)
    ensures LexSorted(ks)
  {
    forall i, j | 0 <= i < j < |ks|
      ensures !Less(ks[j], ks[i])
    {
      AdjacentToAll(ks, i, j);
    }
  }

  // ---- one result only ----------------------------------------------------

  lemma {:induction false} LessTotal(a: SortKey, b: SortKey)
    requires Discrete(a, b)
    ensures a == b || Less(a, b) || Less(b, a)
  {
    CmpIsSignedGap(a, b);
    CmpIsSignedGap(b, a);
  }

  /** Two lexicographically sorted arrangements of the same keys are equal. */
  lemma {:induction false} SortedUnique(ks: seq<SortKey>, ls: seq<SortKey>)
    requires multiset(ks) == multiset(ls) && DiscreteTable(ks) && LexSorted(ks) && LexSorted(ls)
    ensures ks == ls
    decreases |ks|
  {
    assert |ks| == |multiset(ks)| == |multiset(ls)| == |ls|;
    if ks != [] {
      SameLeast(ks, ls);
      assert ks == [ks[0]] + ks[1..] && ls == [ls[0]] + ls[1..];
      assert multiset(ks[1..]) == multiset(ks) - multiset{ks[0]};
      assert multiset(ls[1..]) == multiset(ls) - multiset{ls[0]};
      TailTable(ks);
      TailTable(ls);
      SortedUnique(ks[1..], ls[1..]);
    }
  }

  lemma {:induction false} TailTable(ks: seq<SortKey>)
    requires ks != []
    ensures LexSorted(ks) ==> LexSorted(ks[1..])
    ensures DiscreteTable(ks) ==> DiscreteTable(ks[1..])
  {
    assert forall i | 0 <= i < |ks[1..]| :: ks[1..][i] == ks[i + 1];
  }

  lemma {:induction false} LeastFirst(ks: seq<SortKey>, k: SortKey)
    requires LexSorted(ks) && k in ks
    ensures !Less(k, ks[0])
  {
    var i :| 0 <= i < |ks| && ks[i] == k;
    CmpIsSignedGap(ks[0], ks[0]);
  }

  lemma {:induction false} SameLeast(ks: seq<SortKey>, ls: seq<SortKey>)
    requires ks != [] && ls != [] && multiset(ks) == multiset(ls)
    requires DiscreteTable(ks) && LexSorted(ks) && LexSorted(ls)
    ensures ks[0] == ls[0]
  {
    assert ks[0] in multiset(ls) && ls[0] in multiset(ks);
    LeastFirst(ks, ls[0]);
    LeastFirst(ls, ks[0]);
    var j :| 0 <= j < |ks| && ks[j] == ls[0];
    assert Discrete(ks[0], ks[j]);
    LessTotal(ks[0], ls[0]);
  }

  lemma {:induction false} NarrowRearranged(ks: seq<SortKey>, ls: seq<SortKey>)
    requires multiset(ks) == multiset(ls) && NarrowTable(ks)
    ensures NarrowTable(ls)
  {
    forall i, j, f | 0 <= i < |ls| && 0 <= j < |ls| && 0 <= f < |ls[i]| && f < |ls[j]|
      ensures Apart(ls[i][f], ls[j][f]) < 0x8000_0000
    {
      assert ls[i] in multiset(ks) && ls[j] in multiset(ks);
      var a :| 0 <= a < |ks| && ks[a] == ls[i];
      var b :| 0 <= b < |ks| && ks[b] == ls[j];
      assert Apart(ks[a][f], ks[b][f]) < 0x8000_0000;
    }
  }

  /**
   * Whatever order the sorting routine is given, two comparator-sorted results for the same
   * narrow table of services carry the same keys in the same places, in lexicographic order.
   */
  lemma {:induction false} ServiceSortDetermined(t: seq<ServiceEntry>, u: seq<ServiceEntry>)
    requires multiset(ServiceKeys(t)) == multiset(ServiceKeys(u))
    requires NarrowTable(ServiceKeys(t)) && CmpSorted(ServiceKeys(t)) && CmpSorted(ServiceKeys(u))
    ensures ServiceKeys(t) == ServiceKeys(u) && LexSorted(ServiceKeys(t))
  {
    NarrowRearranged(ServiceKeys(t), ServiceKeys(u));
    ServiceTableSorted(t);
    ServiceTableSorted(u);
    SortedUnique(ServiceKeys(t), ServiceKeys(u));
  }

  lemma {:induction false} ServiceTableSorted(t: seq<ServiceEntry>)
    requires NarrowTable(ServiceKeys(t)) && CmpSorted(ServiceKeys(t))
    ensures DiscreteTable(ServiceKeys(t)) && LexSorted(ServiceKeys(t))
  {
    var ks := ServiceKeys(t);
    forall i, j | 0 <= i < |ks| && 0 <= j < |ks|
      ensures Discrete(ks[i], ks[j])
    {
      ServiceKeysDiscrete(t[i], t[j]);
    }
    NarrowTableIsNearTable(ks);
    CmpSortedIsLexSorted(ks);
  }

  /** The same for destinations of one family. */
  lemma {:induction false} DestSortDetermined(v6: bool, t: seq<DestEntry>, u: seq<DestEntry>)
    requires multiset(DestKeys(v6, t)) == multiset(DestKeys(v6, u))
    requires NarrowTable(DestKeys(v6, t)) && CmpSorted(DestKeys(v6, t)) && CmpSorted(DestKeys(v6, u))
    ensures DestKeys(v6, t) == DestKeys(v6, u) && LexSorted(DestKeys(v6, t))
  {
    NarrowRearranged(DestKeys(v6, t), DestKeys(v6, u));
    DestTableSorted(v6, t);
    DestTableSorted(v6, u);
    SortedUnique(DestKeys(v6, t), DestKeys(v6, u));
  }

  lemma {:induction false} DestTableSorted(v6: bool, t: seq<DestEntry>)
    requires NarrowTable(DestKeys(v6, t)) && CmpSorted(DestKeys(v6, t))
    ensures DiscreteTable(DestKeys(v6, t)) && LexSorted(DestKeys(v6, t))
  {
    var ks := DestKeys(v6, t);
    forall i, j | 0 <= i < |ks| && 0 <= j < |ks|
      ensures Discrete(ks[i], ks[j])
    {
      DestKeysDiscrete(v6, t[i], t[j]);
    }
    NarrowTableIsNearTable(ks);
    CmpSortedIsLexSorted(ks);
  }

  // ---- outside the bound --------------------------------------------------

  lemma {:induction false} LessTransitive(a: SortKey, b: SortKey, c: SortKey)
    requires Less(a, b) && Less(b, c)
    ensures Less(a, c)
  {
    if a[0] == b[0] == c[0] {
      LessTransitive(a[1..], b[1..], c[1..]);
    }
  }

  /**
   * Keys in ascending order, neighbours near: the comparator is transitive on them exactly when the
   * outer two are near as well.  Otherwise the last precedes the first, and the three precede each
   * other in a circle.
   */
  lemma {:induction false} TransitiveIffNear(a: SortKey, b: SortKey, c: SortKey)
    requires Less(a, b) && Less(b, c) && Near(a, b) && Near(b, c)
    ensures Cmp(a, b) < 0 && Cmp(b, c) < 0
    ensures Cmp(a, c) < 0 <==> Near(a, c)
    ensures !Near(a, c) ==> Cmp(c, a) < 0 < Cmp(a, c)
  {
    hide Cmp, Gap, Less;
    LessTransitive(a, b, c);
    CmpIsSignedGap(a, b);
    CmpIsSignedGap(b, c);
    CmpIsSignedGap(a, c);
    CmpIsSignedGap(c, a);
  }

  /** The first field decides when it differs. */
  lemma {:induction false} FirstFieldDecides(x: u32, a: SortKey, y: u32, b: SortKey)
    requires x != y
    ensures Gap([x] + a, [y] + b) == x as int - y as int
    ensures Less([x] + a, [y] + b) <==> x < y
  {
  }

  /** Three keys whose first fields are 0, 0x60000000 and 0xC0000000 precede each other in a circle. */
  lemma {:induction false} Circle(x: SortKey, y: SortKey, z: SortKey)
    ensures
      var a, b, c := [0] + x, [0x6000_0000] + y, [0xC000_0000] + z;
      Cmp(a, b) < 0 && Cmp(b, c) < 0 && Cmp(c, a) < 0 < Cmp(a, c)
  {
    hide Cmp, Less, Gap;
    FirstFieldDecides(0, x, 0x6000_0000, y);
    FirstFieldDecides(0x6000_0000, y, 0xC000_0000, z);
    FirstFieldDecides(0, x, 0xC000_0000, z);
    TransitiveIffNear([0] + x, [0x6000_0000] + y, [0xC000_0000] + z);
  }

  /** Around every service there are three, equal but for the mark, that are ordered in a circle. */
  lemma {:induction false} CircularServices(s: ServiceEntry)
    returns (a: ServiceEntry, b: ServiceEntry, c: ServiceEntry)
    ensures Cmp(ServiceKey(a), ServiceKey(b)) < 0 && Cmp(ServiceKey(b), ServiceKey(c)) < 0
    ensures Cmp(ServiceKey(c), ServiceKey(a)) < 0 < Cmp(ServiceKey(a), ServiceKey(c))
    ensures a == s.(fwmark := a.fwmark) && b == s.(fwmark := b.fwmark) && c == s.(fwmark := c.fwmark)
  {
    hide Cmp, EndKey;
    a, b, c := s.(fwmark := 0), s.(fwmark := 0x6000_0000), s.(fwmark := 0xC000_0000);
    var rest := [s.af, s.protocol] + EndKey(s.af == AF_INET6, s.addr, s.port);
    assert ServiceKey(a) == [0] + rest && ServiceKey(b) == [0x6000_0000] + rest && ServiceKey(c) == [0xC000_0000] + rest;
    Circle(rest, rest, rest);
  }

  /** The address with its first word replaced by one that has only a leading byte. */
  function WithFirst(a: Addr, x: byte): (a': Addr) {
    [x, 0, 0, 0] + a[4..]
  }

  lemma {:induction false} FirstWord(v6: bool, a: Addr, x: byte, port: u16) returns (rest: SortKey)
    ensures EndKey(v6, WithFirst(a, x), port) == [x * 0x100_0000] + rest
  {
    var k := EndKey(v6, WithFirst(a, x), port);
    assert WithFirst(a, x)[0..4] == [x, 0, 0, 0];
    rest := k[1..];
    assert k == [k[0]] + rest;
  }

  /** The same around every destination, of either family, for three addresses at one port. */
  lemma {:induction false} CircularDests(d: DestEntry) returns (a: DestEntry, b: DestEntry, c: DestEntry)
    ensures
      var v6 := d.af == AF_INET6;
      && Cmp(DestKey(v6, a), DestKey(v6, b)) < 0 && Cmp(DestKey(v6, b), DestKey(v6, c)) < 0
      && Cmp(DestKey(v6, c), DestKey(v6, a)) < 0 < Cmp(DestKey(v6, a), DestKey(v6, c))
    ensures a == d.(addr := a.addr) && b == d.(addr := b.addr) && c == d.(addr := c.addr)
  {
    hide Cmp, EndKey, WithFirst;
    var v6 := d.af == AF_INET6;
    a, b, c := d.(addr := WithFirst(d.addr, 0)), d.(addr := WithFirst(d.addr, 0x60)), d.(addr := WithFirst(d.addr, 0xC0));
    var x := FirstWord(v6, d.addr, 0, d.port);
    var y := FirstWord(v6, d.addr, 0x60, d.port);
    var z := FirstWord(v6, d.addr, 0xC0, d.port);
    Circle(x, y, z);
  }

  // ---- tables of mixed families -------------------------------------------

  /** Two comparator results that tell the same order from both sides. */
  predicate Opposite(x: int, y: int) {
    (x < 0 <==> y > 0) && (x > 0 <==> y < 0)
  }

  /** The words of an address that only IPv6 gives a meaning to. */
  function TailKey(a: Addr): (k: SortKey) {
    [Word(a, 1), Word(a, 2), Word(a, 3)]
  }

  lemma {:induction false} LongCmp(d: DestEntry, e: DestEntry)
    ensures Cmp(DestKey(true, d), DestKey(true, e)) ==
            if FieldCmp(Word(d.addr, 0), Word(e.addr, 0)) != 0 then FieldCmp(Word(d.addr, 0), Word(e.addr, 0))
            else if Cmp(TailKey(d.addr), TailKey(e.addr)) != 0 then Cmp(TailKey(d.addr), TailKey(e.addr))
            else Htons(d.port) as int - Htons(e.port) as int
  {
    hide Cmp, Word, FieldCmp, Htons;
    var x, y := TailKey(d.addr), TailKey(e.addr);
    assert DestKey(true, d) == [Word(d.addr, 0)] + (x + [Htons(d.port)]);
    assert DestKey(true, e) == [Word(e.addr, 0)] + (y + [Htons(e.port)]);
    CmpCons(Word(d.addr, 0), Word(e.addr, 0), x + [Htons(d.port)], y + [Htons(e.port)]);
    CmpConcat(x, y, [Htons(d.port)], [Htons(e.port)]);
    CmpOne(Htons(d.port), Htons(e.port));
  }

  lemma {:induction false} ShortCmp(d: DestEntry, e: DestEntry)
    ensures Cmp(DestKey(false, d), DestKey(false, e)) ==
            if FieldCmp(Word(d.addr, 0), Word(e.addr, 0)) != 0 then FieldCmp(Word(d.addr, 0), Word(e.addr, 0))
            else Htons(d.port) as int - Htons(e.port) as int
  {
    hide Cmp, Word, FieldCmp, Htons;
    CmpCons(Word(d.addr, 0), Word(e.addr, 0), [Htons(d.port)], [Htons(e.port)]);
    CmpOne(Htons(d.port), Htons(e.port));
  }

  lemma {:induction false} FieldSwap(x: u32, y: u32)
    ensures FieldCmp(x, y) == 0 <==> x == y
    ensures x != y ==> (Opposite(FieldCmp(x, y), FieldCmp(y, x)) <==> Apart(x, y) != 0x8000_0000 && Apart(y, x) != 0x8000_0000)
  {
    SignedNegation(x as int - y as int);
  }

  /**
   * An IPv6 destination against one of another family, whose comparison looks at the first word and
   * the port only: the two comparisons agree exactly when the first words decide, not half the range
   * apart, or the other words are equal, or they and the ports happen to tell the same order.
   */
  lemma {:induction false} MixedSwapIff(d: DestEntry, e: DestEntry)
    requires d.af == AF_INET6 && e.af != AF_INET6
    ensures
      var x, y := Word(d.addr, 0), Word(e.addr, 0);
      var tail := Cmp(TailKey(d.addr), TailKey(e.addr));
      Opposite(Cmp(DestKey(true, d), DestKey(true, e)), Cmp(DestKey(false, e), DestKey(false, d))) <==>
        if x != y then Apart(x, y) != 0x8000_0000 && Apart(y, x) != 0x8000_0000
        else tail == 0 || Opposite(tail, Htons(e.port) as int - Htons(d.port) as int)
  {
    hide Cmp, Word, Htons, FieldCmp;
    LongCmp(d, e);
    ShortCmp(e, d);
    FieldSwap(Word(d.addr, 0), Word(e.addr, 0));
    FieldSwap(Word(e.addr, 0), Word(d.addr, 0));
  }

  /** Beside every IPv6 destination there is an IPv4 one that it follows and that equals it. */
  lemma {:induction false} MixedWitness(d: DestEntry) returns (a: DestEntry, b: DestEntry)
    requires d.af == AF_INET6
    ensures a == d.(addr := a.addr) && b == d.(af := AF_INET, addr := b.addr)
    ensures Cmp(DestKey(true, a), DestKey(true, b)) > 0 && Cmp(DestKey(false, b), DestKey(false, a)) == 0
  {
    hide Cmp, Word, Htons, BigEndian;
    a := d.(addr := [0, 0, 0, 0, 0, 0, 0, 1] + ZEROS[..8]);
    b := d.(af := AF_INET, addr := ZEROS);
    LongCmp(a, b);
    ShortCmp(b, a);
    SmallWords(a.addr, b.addr);
    CmpCons(1, 0, [Word(a.addr, 2), Word(a.addr, 3)], [Word(b.addr, 2), Word(b.addr, 3)]);
    assert TailKey(a.addr) == [1] + [Word(a.addr, 2), Word(a.addr, 3)];
    assert TailKey(b.addr) == [0] + [Word(b.addr, 2), Word(b.addr, 3)];
  }

  lemma {:induction false} SmallWords(a: Addr, b: Addr)
    requires a == [0, 0, 0, 0, 0, 0, 0, 1] + ZEROS[..8] && b == ZEROS
    ensures Word(a, 0) == 0 && Word(a, 1) == 1 && Word(b, 0) == 0 && Word(b, 1) == 0
  {
    assert a[0..4] == [0, 0, 0, 0] && a[4..8] == [0, 0, 0, 1] && b[0..4] == [0, 0, 0, 0] && b[4..8] == [0, 0, 0, 0];
  }
}
