/**
 * Fixed-width machine arithmetic: the integer types of the C sources, the
 * conversions the compiler inserts between them, and the little-endian byte
 * image of an integer in memory.
 */
module Machine {

  type byte = x: int | 0 <= x < 0x100
  type u16 = x: int | 0 <= x < 0x1_0000
  type u32 = x: int | 0 <= x < 0x1_0000_0000
  type u64 = x: int | 0 <= x < 0x1_0000_0000_0000_0000
  type i32 = x: int | -0x8000_0000 <= x < 0x8000_0000

  /** Conversion to `unsigned`, as C defines it. */
  function Wrap32(x: int): (r: u32) {
    x % 0x1_0000_0000
  }

  /** Conversion to `size_t`. */
  function Wrap64(x: int): (r: u64) {
    x % 0x1_0000_0000_0000_0000
  }

  /** Conversion of any integer to a 32-bit two's complement `int`. */
  function Signed32(x: int): (r: i32) {
    var w := x % 0x1_0000_0000;
    if w < 0x8000_0000 then w else w - 0x1_0000_0000
  }

  lemma {:induction false} WrapKeepsLow16(x: int)
    ensures Wrap32(x) % 0x1_0000 == x % 0x1_0000
  {
    assert x == 0x1_0000 * (0x1_0000 * (x / 0x1_0000_0000)) + Wrap32(x);
  }

  lemma {:induction false} SignedOfWrap(x: i32)
    ensures Signed32(Wrap32(x)) == x
  {
  }

  lemma {:induction false} SignedIdentity(x: i32)
    ensures Signed32(x) == x
  {
  }

  /** `htons` and `ntohs` on a little-endian host. */
  function Htons(x: u16): (r: u16) {
    x % 0x100 * 0x100 + x / 0x100
  }

  lemma {:induction false} HtonsInvolution(x: u16)
    ensures Htons(Htons(x)) == x
  {
    var lo, hi := x % 0x100, x / 0x100;
    assert Htons(x) % 0x100 == hi && Htons(x) / 0x100 == lo;
  }

  /** A port as it travels: high byte first. */
  function NetworkOrder(p: u16): (s: seq<byte>) {
    [p / 0x100, p % 0x100]
  }

  /** In memory `htons(p)` is the port in network order. */
  lemma {:induction false} HtonsBytes(p: u16)
    ensures LE(Htons(p), 2) == NetworkOrder(p)
  {
    var h := Htons(p);
    assert h % 0x100 == p / 0x100 && h / 0x100 == p % 0x100;
    assert LE(h, 2) == [h % 0x100] + LE(h / 0x100, 1);
    assert LE(h / 0x100, 1) == [h / 0x100 % 0x100] + LE(h / 0x100 / 0x100, 0);
  }

  /** Bitwise conjunction of two natural numbers. */
  function And(x: nat, y: nat): (r: nat)
    ensures r <= x
  {
    if x == 0 || y == 0 then 0 else x % 2 * (y % 2) + 2 * And(x / 2, y / 2)
  }

  function Pow2(n: nat): (r: nat)
    ensures r > 0
  {
    if n == 0 then 1 else 2 * Pow2(n - 1)
  }

  /** Masking with `n` low one-bits is reduction modulo `2^n`. */
  lemma {:induction false} AndLowBits(x: nat, n: nat)
    ensures And(x, Pow2(n) - 1) == x % Pow2(n)
    decreases n
  {
    hide And, Pow2;
    Pow2Step(n);
    if n == 0 {
      AndZero(x);
    } else {
      var m := Pow2(n - 1);
      AndOdd(x, m);
      AndLowBits(x / 2, n - 1);
      HalfMod(x, m);
      assert Pow2(n) - 1 == 2 * m - 1;
    }
  }

  lemma {:induction false} Pow2Step(n: nat)
    ensures Pow2(n) == if n == 0 then 1 else 2 * Pow2(n - 1)
  {
  }

  lemma {:induction false} AndZero(x: nat)
    ensures And(x, 0) == 0
  {
  }

  lemma {:induction false} AndOdd(x: nat, m: nat)
    requires m > 0
    ensures And(x, 2 * m - 1) == x % 2 + 2 * And(x / 2, m - 1)
  {
    assert (2 * m - 1) % 2 == 1 && (2 * m - 1) / 2 == m - 1;
  }

  lemma {:induction false} HalfMod(x: nat, m: nat)
    requires m > 0
    ensures x % (2 * m) == x % 2 + 2 * (x / 2 % m)
  {
    var q, r := x / 2 / m, x / 2 % m;
    assert x / 2 == q * m + r;
    assert x == q * (2 * m) + (x % 2 + 2 * r);
    DivModUnique(x, 2 * m, q, x % 2 + 2 * r);
  }

  lemma {:induction false} ProductAtLeast(k: int, d: int)
    requires k >= 1 && d > 0
    ensures k * d >= d
  {
  }

  lemma {:induction false} DivModUnique(x: int, d: int, q: int, r: int)
    requires d > 0 && x == q * d + r && 0 <= r < d
    ensures x / d == q && x % d == r
  {
    var q', r' := x / d, x % d;
    var k := q - q';
    assert k * d == q * d - q' * d;
    if k >= 1 {
      ProductAtLeast(k, d);
    } else if k <= -1 {
      ProductAtLeast(-k, d);
    }
  }

  lemma {:induction false} Pow2Values()
    ensures Pow2(3) == 8 && Pow2(32) == 0x1_0000_0000
  {
    assert Pow2(4) == 16;
    assert Pow2(8) == 256;
    assert Pow2(12) == 0x1000;
    assert Pow2(16) == 0x1_0000;
    assert Pow2(20) == 0x10_0000;
    assert Pow2(24) == 0x100_0000;
    assert Pow2(28) == 0x1000_0000;
  }

  /** The forwarding mask 0x7 keeps the value modulo 8. */
  lemma {:induction false} AndSeven(x: nat)
    ensures And(x, 7) == x % 8
  {
    hide And, Pow2;
    Pow2Values();
    AndLowBits(x, 3);
  }

  /** A mask of 32 one-bits changes nothing. */
  lemma {:induction false} AndAllOnes(x: u32)
    ensures And(x, 0xFFFF_FFFF) == x
  {
    hide And, Pow2;
    Pow2Values();
    AndLowBits(x, 32);
  }

  // ---- byte images --------------------------------------------------------

  function Pow256(n: nat): (r: nat)
    ensures r > 0
  {
    if n == 0 then 1 else 0x100 * Pow256(n - 1)
  }

  lemma {:induction false} Pow256Values()
    ensures Pow256(1) == 0x100 && Pow256(2) == 0x1_0000
    ensures Pow256(4) == 0x1_0000_0000 && Pow256(8) == 0x1_0000_0000_0000_0000
  {
    assert Pow256(3) == 0x100_0000;
    assert Pow256(6) == 0x1_0000_0000_0000;
  }

  /** The `n`-byte little-endian image of `v`; higher bits are dropped. */
  function LE(v: nat, n: nat): (s: seq<byte>)
    ensures |s| == n
  {
    if n == 0 then [] else [v % 0x100] + LE(v / 0x100, n - 1)
  }

  function FromLE(s: seq<byte>): (v: nat)
  {
    if s == [] then 0 else s[0] + 0x100 * FromLE(s[1..])
  }

  lemma {:induction false} ByteMod(v: nat, m: nat)
    requires m > 0
    ensures v % (0x100 * m) == v % 0x100 + 0x100 * (v / 0x100 % m)
  {
    var q, r := v / 0x100 / m, v / 0x100 % m;
    assert v / 0x100 == q * m + r;
    assert v == q * (0x100 * m) + (v % 0x100 + 0x100 * r);
    DivModUnique(v, 0x100 * m, q, v % 0x100 + 0x100 * r);
  }

  /** Reading the first `k` bytes of an `n`-byte image yields `v` modulo `256^k`. */
  lemma {:induction false} ReadPrefix(v: nat, n: nat, k: nat)
    requires k <= n
    ensures FromLE(LE(v, n)[..k]) == v % Pow256(k)
  {
    if k == 0 {
    } else {
      var rest := LE(v / 0x100, n - 1);
      assert LE(v, n)[..k][1..] == rest[..k - 1];
      ReadPrefix(v / 0x100, n - 1, k - 1);
      ByteMod(v, Pow256(k - 1));
    }
  }

  lemma {:induction false} FromLEBound(s: seq<byte>)
    ensures FromLE(s) < Pow256(|s|)
  {
    if s != [] {
      FromLEBound(s[1..]);
    }
  }

  /** `ntohl` of four bytes in memory: their big-endian value. */
  function BigEndian(s: seq<byte>): (v: u32)
    requires |s| == 4
  {
    var a: int, b: int, c: int, d: int := s[0], s[1], s[2], s[3];
    ((a * 0x100 + b) * 0x100 + c) * 0x100 + d
  }

  lemma {:induction false} LastByte(hi: int, lo: byte, hi': int, lo': byte)
    requires hi * 0x100 + lo == hi' * 0x100 + lo'
    ensures hi == hi' && lo == lo'
  {
  }

  lemma {:induction false} BigEndianInjective(s: seq<byte>, t: seq<byte>)
    requires |s| == 4 && |t| == 4
    ensures BigEndian(s) == BigEndian(t) <==> s == t
  {
    if BigEndian(s) == BigEndian(t) {
      var a: int, b: int, c: int := s[0], s[1], s[2];
      var x: int, y: int, z: int := t[0], t[1], t[2];
      LastByte((a * 0x100 + b) * 0x100 + c, s[3], (x * 0x100 + y) * 0x100 + z, t[3]);
      LastByte(a * 0x100 + b, s[2], x * 0x100 + y, t[2]);
      LastByte(a, s[1], x, t[1]);
      assert s == t;
    }
  }
}
