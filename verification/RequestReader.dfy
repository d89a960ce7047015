/**
 * The body reader of src/http_server.cpp: each read callback appends a chunk and starts the next
 * read until the bytes left, counted in a `size_t`, reach zero.
 */
module RequestReader {
  import opened Machine
  import opened Options
  import opened CText
  import opened StringTools

  const MODULUS: int := 0x1_0000_0000_0000_0000

  datatype Header = Header(name: string, value: string)

  /** The first Content-Length header, read with `atoi`; 0 without one. */
  function ContentLength(headers: seq<Header>): (n: i32) {
    if headers == [] then 0
    else if ToLower(headers[0].name) == "content-length" then Atoi(CStr(headers[0].value))
    else ContentLength(headers[1..])
  }

  /** The header is Content-Length, in whatever case. */
  predicate IsLength(h: Header) {
    SameText(h.name, "content-length")
  }

  /** Only the first such header counts, whatever comes before or after it; without one the length is 0. */
  lemma {:induction false} FirstLengthCounts(before: seq<Header>, h: Header, after: seq<Header>)
    requires forall i | 0 <= i < |before| :: !IsLength(before[i])
    ensures ContentLength(before) == 0
    ensures IsLength(h) ==> ContentLength(before + [h] + after) == Atoi(CStr(h.value))
  {
    hide Atoi, CStr, ToLower, SameText;
    var all := before + [h] + after;
    if before == [] {
      assert all[0] == h;
      LoweredIff(h.name, "content-length");
    } else {
      LoweredIff(before[0].name, "content-length");
      assert all[0] == before[0] && all[1..] == before[1..] + [h] + after;
      FirstLengthCounts(before[1..], h, after);
    }
  }

  /**
   * The value of that header is its leading decimal number, white space before and any text after
   * it; a number that does not fit an `int` is cut to its low 32 bits.
   */
  lemma {:induction false} LengthIsDecimal(w: string, n: nat, rest: string)
    requires AllSpace(w) && n <= LONG_MAX && (rest == [] || !IsDigit(rest[0]))
    ensures n < 0x8000_0000 ==> Atoi(w + (Decimal(n) + rest)) == n
    ensures (Atoi(w + (Decimal(n) + rest)) - n) % 0x1_0000_0000 == 0
  {
    hide Strtol, Decimal, DigitsValue, AllSpace, AllDigits;
    var ds := Decimal(n);
    DecimalValue(n);
    StrtolStops(w, "", ds, rest);
    StrtolNumeral(w, "", ds);
    assert "" + (ds + rest) == ds + rest && "" + ds == ds;
    CutToInt(n);
  }

  lemma {:induction false} CutToInt(n: nat)
    ensures n < 0x8000_0000 ==> Signed32(n) == n
    ensures (Signed32(n) - n) % 0x1_0000_0000 == 0
  {
    var q := n / 0x1_0000_0000;
    var k := if n % 0x1_0000_0000 < 0x8000_0000 then -q else -q - 1;
    DivModUnique(Signed32(n) - n, 0x1_0000_0000, k, 0);
  }

  /** One read callback: an error, or the first `size` bytes of the buffer. */
  datatype Event = Event(error: bool, chunk: string)

  /** The handler's buffer, the bytes left of an outstanding read, and the bodies handed on. */
  datatype Reader = Reader(body: string, left: Option<u64>, handled: seq<string>)

  function OnEvent(r: Reader, e: Event): (r': Reader) {
    if r.left.None? then r
    else if e.error then r.(left := None)
    else
      var body := r.body + e.chunk;
      var rest := Wrap64(r.left.value - |e.chunk|);
      if rest > 0 then Reader(body, Some(rest), r.handled)
      else Reader(body, None, r.handled + [body])
  }

  function Feed(r: Reader, events: seq<Event>): (r': Reader)
    decreases |events|
  {
    if events == [] then r else Feed(OnEvent(r, events[0]), events[1..])
  }

  class ConnectionHandler {
    var body: string
    var left: Option<u64>
    var handled: seq<string>

    function View(): (r: Reader)
      reads this
    {
      Reader(body, left, handled)
    }

    constructor ()
      ensures View() == Reader("", None, [])
    {
      body, left, handled := "", None, [];
    }

    /** `operator()`: finds the content length and starts the first read. */
    method Start(headers: seq<Header>)
      modifies this
      ensures View() == old(View()).(left := Some(Wrap64(ContentLength(headers))))
    {
      var contentLength: i32 := 0;
      var i := 0;
      assert headers[0..] == headers;
      while i < |headers|
        invariant i <= |headers| && contentLength == 0
        invariant ContentLength(headers) == ContentLength(headers[i..])
        invariant View() == old(View())
      {
        assert headers[i..][0] == headers[i] && headers[i..][1..] == headers[i + 1..];
        var name := StrToLower(headers[i].name);
        if name == "content-length" {
          contentLength := Atoi(CStr(headers[i].value));
          break;
        }
        i := i + 1;
      }
      ReadChunk(Wrap64(contentLength));
    }

    /** `read_chunk`: one read is outstanding, with this much left. */
    method ReadChunk(leftToRead: u64)
      modifies this`left
      ensures left == Some(leftToRead)
    {
      left := Some(leftToRead);
    }

    /** `handle_post_read`. */
    method HandlePostRead(range: string, error: bool, size: nat)
      requires left.Some? && size <= |range|
      modifies this
      ensures View() == OnEvent(old(View()), Event(error, range[..size]))
    {
      var leftToRead := left.value;
      left := None;
      if error {
        return;
      }
      body := body + range[..size];
      var remaining := Wrap64(leftToRead - size);
      if remaining > 0 {
        ReadChunk(remaining);
        return;
      }
      handled := handled + [body];
    }
  }

  // ---- what a sequence of callbacks does ----------------------------------

  function Concat(events: seq<Event>): (s: string) {
    if events == [] then "" else events[0].chunk + Concat(events[1..])
  }

  predicate ErrorFree(events: seq<Event>) {
    forall i | 0 <= i < |events| :: !events[i].error
  }

  /** Equal modulo 2^64. */
  predicate Congruent(x: int, y: int) {
    (x - y) % MODULUS == 0
  }

  /** After `k` error-free callbacks the bytes received are congruent to `n`, for the first time. */
  ghost predicate CompletesAt(events: seq<Event>, n: int, k: int) {
    && 0 < k <= |events| && ErrorFree(events[..k])
    && Congruent(|Concat(events[..k])|, n)
    && forall j | 0 < j < k :: !Congruent(|Concat(events[..j])|, n)
  }

  lemma {:induction false} AddMultiple(x: int, q: int)
    ensures (x + q * MODULUS) % MODULUS == x % MODULUS
  {
    DivModUnique(x + q * MODULUS, MODULUS, x / MODULUS + q, x % MODULUS);
  }

  lemma {:induction false} CongruentWrap(x: int, y: int)
    ensures Congruent(x, y) <==> Congruent(x, Wrap64(y))
  {
    assert y == y / MODULUS * MODULUS + Wrap64(y);
    AddMultiple(x - Wrap64(y), -(y / MODULUS));
  }

  lemma {:induction false} WrapZeroIff(y: int)
    ensures Wrap64(y) == 0 <==> Congruent(0, y)
  {
    CongruentWrap(0, y);
    var w: int := Wrap64(y);
    if w != 0 {
      DivModUnique(-w, MODULUS, -1, MODULUS - w);
    }
  }

  /** Counting down from `left` by `size` first does not change which totals complete the read. */
  lemma {:induction false} SameRemainder(total: int, left: u64, size: nat)
    ensures Congruent(total + size, left) <==> Congruent(total, Wrap64(left - size))
  {
    CongruentWrap(total, left - size);
  }

  lemma {:induction false} FirstRemainder(size: nat, left: u64)
    ensures Wrap64(left - size) == 0 <==> Congruent(size, left)
  {
    var d: int := left as int - size as int;
    WrapZeroIff(d);
    assert 0 - d == size as int - left as int;
  }

  /** The reader with `left` bytes to go hands on a body exactly when and where the total completes. */
  lemma {:induction false} HandledExactly(r: Reader, events: seq<Event>)
    requires r.left.Some? && r.handled == []
    ensures forall k | CompletesAt(events, r.left.value, k) ::
              Feed(r, events).handled == [r.body + Concat(events[..k])]
    ensures (forall k :: !CompletesAt(events, r.left.value, k)) ==> Feed(r, events).handled == []
    decreases |events|
  {
    hide Congruent;
    if events != [] {
      var e := events[0];
      FirstChunk(events);
      FirstRemainder(|e.chunk|, r.left.value);
      if e.error {
        FirstEventFails(events, r.left.value);
        Silent(OnEvent(r, e), events[1..]);
      } else if Wrap64(r.left.value - |e.chunk|) == 0 {
        FirstEventCompletes(events, r.left.value);
        Silent(OnEvent(r, e), events[1..]);
        assert CompletesAt(events, r.left.value, 1);
      } else {
        var r' := OnEvent(r, e);
        HandledExactly(r', events[1..]);
        forall k
          ensures CompletesAt(events, r.left.value, k) <==> k > 1 && CompletesAt(events[1..], r'.left.value, k - 1)
        {
          ShiftCompletion(events, r.left.value, k);
        }
        LaterCompletion(r, events);
      }
    }
  }

  /** Putting the induction step together. */
  lemma {:induction false} LaterCompletion(r: Reader, events: seq<Event>)
    requires r.left.Some? && events != [] && !events[0].error && Wrap64(r.left.value - |events[0].chunk|) != 0
    requires
      var r' := OnEvent(r, events[0]);
      && (forall k | CompletesAt(events[1..], r'.left.value, k) ::
            Feed(r', events[1..]).handled == [r'.body + Concat(events[1..][..k])])
      && ((forall k :: !CompletesAt(events[1..], r'.left.value, k)) ==> Feed(r', events[1..]).handled == [])
      && (forall k :: CompletesAt(events, r.left.value, k) <==> k > 1 && CompletesAt(events[1..], r'.left.value, k - 1))
    ensures forall k | CompletesAt(events, r.left.value, k) ::
              Feed(r, events).handled == [r.body + Concat(events[..k])]
    ensures (forall k :: !CompletesAt(events, r.left.value, k)) ==> Feed(r, events).handled == []
  {
    hide Congruent, Wrap64;
    var r' := OnEvent(r, events[0]);
    forall k | CompletesAt(events, r.left.value, k)
      ensures Feed(r, events).handled == [r.body + Concat(events[..k])]
    {
      assert CompletesAt(events[1..], r'.left.value, k - 1);
      assert events[..k][1..] == events[1..][..k - 1];
      assert r.body + (events[0].chunk + Concat(events[1..][..k - 1]))
          == r.body + events[0].chunk + Concat(events[1..][..k - 1]);
    }
    if forall k :: !CompletesAt(events, r.left.value, k) {
      forall k
        ensures !CompletesAt(events[1..], r'.left.value, k)
      {
        assert CompletesAt(events, r.left.value, k + 1) <==> CompletesAt(events[1..], r'.left.value, k + 1 - 1);
      }
    }
  }

  lemma {:induction false} Silent(r: Reader, events: seq<Event>)
    requires r.left.None?
    ensures Feed(r, events) == r
    decreases |events|
  {
    if events != [] {
      Silent(r, events[1..]);
    }
  }

  lemma {:induction false} FirstEventFails(events: seq<Event>, n: int)
    requires events != [] && events[0].error
    ensures forall k :: !CompletesAt(events, n, k)
  {
    hide Congruent;
    forall k: int | 0 < k <= |events|
      ensures !ErrorFree(events[..k])
    {
      assert events[..k][0].error;
    }
  }

  lemma {:induction false} FirstEventCompletes(events: seq<Event>, n: int)
    requires events != [] && !events[0].error && Congruent(|events[0].chunk|, n)
    ensures forall k :: CompletesAt(events, n, k) <==> k == 1
  {
    hide Congruent;
    FirstChunk(events);
  }

  /** Moving past a first chunk that does not complete the read. */
  lemma {:induction false} ShiftCompletion(events: seq<Event>, left: u64, k: int)
    requires events != [] && !events[0].error && Wrap64(left - |events[0].chunk|) != 0
    ensures CompletesAt(events, left, k) <==>
            k > 1 && CompletesAt(events[1..], Wrap64(left - |events[0].chunk|), k - 1)
  {
    hide Congruent, Wrap64, ErrorFree;
    var left' := Wrap64(left - |events[0].chunk|);
    forall j: nat | 0 < j <= |events|
      ensures Congruent(|Concat(events[..j])|, left) <==> Congruent(|Concat(events[1..][..j - 1])|, left')
      ensures ErrorFree(events[..j]) <==> ErrorFree(events[1..][..j - 1])
    {
      TailPrefix(events, j);
      SameRemainder(|Concat(events[1..][..j - 1])|, left, |events[0].chunk|);
    }
    assert !Congruent(|Concat(events[..1])|, left) by {
      FirstChunk(events);
      FirstRemainder(|events[0].chunk|, left);
    }
    if k > 1 && CompletesAt(events[1..], left', k - 1) {
      forall j | 0 < j < k
        ensures !Congruent(|Concat(events[..j])|, left)
      {
        if j > 1 {
          var i := j - 1;
          assert 0 < i < k - 1;
          assert !Congruent(|Concat(events[1..][..i])|, left');
          assert Congruent(|Concat(events[..j])|, left) <==> Congruent(|Concat(events[1..][..j - 1])|, left');
        }
      }
    }
    if CompletesAt(events, left, k) {
      forall j | 0 < j < k - 1
        ensures !Congruent(|Concat(events[1..][..j])|, left')
      {
        var i := j + 1;
        assert 0 < i < k;
        assert !Congruent(|Concat(events[..i])|, left);
        assert Congruent(|Concat(events[..i])|, left) <==> Congruent(|Concat(events[1..][..i - 1])|, left');
      }
    }
  }

  lemma {:induction false} FirstChunk(events: seq<Event>)
    requires events != []
    ensures events[..1] == [events[0]] && Concat(events[..1]) == events[0].chunk
  {
    assert [events[0]][1..] == [];
    assert events[0].chunk + "" == events[0].chunk;
  }

  lemma {:induction false} TailPrefix(events: seq<Event>, j: nat)
    requires 0 < j <= |events| && !events[0].error
    ensures |Concat(events[..j])| == |events[0].chunk| + |Concat(events[1..][..j - 1])|
    ensures ErrorFree(events[..j]) <==> ErrorFree(events[1..][..j - 1])
  {
    assert events[..j][1..] == events[1..][..j - 1];
    var xs, ys := events[..j], events[1..][..j - 1];
    assert forall i | 0 <= i < |ys| :: ys[i] == xs[i + 1];
    assert xs[0] == events[0];
    if ErrorFree(ys) {
      forall i | 0 <= i < |xs|
        ensures !xs[i].error
      {
        if i > 0 {
          assert xs[i] == ys[i - 1];
        }
      }
    }
  }

  // ---- the whole connection -----------------------------------------------

  /** A handler whose first read was started for this many bytes. */
  function Started(contentLength: i32): (r: Reader) {
    Reader("", Some(Wrap64(contentLength)), [])
  }

  /**
   * For every sequence of callbacks the request is handled at most once: at the first error-free
   * callback after which the bytes received are congruent to the content length modulo 2^64, with
   * the concatenation of the chunks as its body.
   */
  lemma {:induction false} HandledOnce(contentLength: i32, events: seq<Event>)
    ensures forall k | CompletesAt(events, contentLength, k) ::
              Feed(Started(contentLength), events).handled == [Concat(events[..k])]
    ensures (forall k :: !CompletesAt(events, contentLength, k)) ==>
              Feed(Started(contentLength), events).handled == []
  {
    hide Congruent, Wrap64;
    var r := Started(contentLength);
    HandledExactly(r, events);
    forall k: int
      ensures CompletesAt(events, contentLength, k) <==> CompletesAt(events, r.left.value, k)
    {
      CompletesModulo(events, contentLength, k);
    }
    forall k | CompletesAt(events, contentLength, k)
      ensures Feed(r, events).handled == [Concat(events[..k])]
    {
      assert "" + Concat(events[..k]) == Concat(events[..k]);
    }
  }

  lemma {:induction false} CompletesModulo(events: seq<Event>, n: int, k: int)
    ensures CompletesAt(events, n, k) <==> CompletesAt(events, Wrap64(n), k)
  {
    hide Congruent, Wrap64;
    forall j: nat | 0 < j <= |events|
      ensures Congruent(|Concat(events[..j])|, n) <==> Congruent(|Concat(events[..j])|, Wrap64(n))
    {
      CongruentWrap(|Concat(events[..j])|, n);
    }
  }

  /**
   * While a read is outstanding the buffer is the concatenation of the chunks, and buffered and
   * outstanding bytes add up to the content length modulo 2^64.
   */
  lemma {:induction false} BytesConserved(r: Reader, events: seq<Event>, n: int)
    requires r.left.Some? ==> Congruent(|r.body| + r.left.value, n)
    ensures
      var r' := Feed(r, events);
      r'.left.Some? ==> r'.body == r.body + Concat(events) && Congruent(|r'.body| + r'.left.value, n)
    decreases |events|
  {
    hide Congruent, Wrap64;
    if events != [] {
      var r' := OnEvent(r, events[0]);
      if r'.left.Some? {
        MoveBytes(|r.body|, r.left.value, |events[0].chunk|, n);
        assert r'.body + Concat(events[1..]) == r.body + (events[0].chunk + Concat(events[1..]));
      } else {
        Silent(r', events[1..]);
      }
      BytesConserved(r', events[1..], n);
    } else {
      assert r.body + "" == r.body;
    }
  }

  lemma {:induction false} MoveBytes(have: nat, left: u64, size: nat, n: int)
    requires Congruent(have + left, n)
    ensures Congruent(have + size + Wrap64(left - size), n)
  {
    var d := left - size;
    assert d == d / MODULUS * MODULUS + Wrap64(d);
    AddMultiple(have + left - n, -(d / MODULUS));
  }

  /** If no chunk exceeds what is left, a handled body has exactly the (unsigned) content length. */
  lemma {:induction false} ExactLength(r: Reader, events: seq<Event>)
    requires r.left.Some? && r.handled == []
    requires forall k | 0 <= k <= |events| :: |Concat(events[..k])| <= r.left.value
    ensures Feed(r, events).handled != [] ==>
              |Feed(r, events).handled| == 1 && |Feed(r, events).handled[0]| == |r.body| + r.left.value
  {
    hide Feed, Concat;
    HandledExactly(r, events);
    if k :| CompletesAt(events, r.left.value, k) {
      SmallMultiple(|Concat(events[..k])|, r.left.value);
    }
  }

  lemma {:induction false} SmallMultiple(total: nat, left: u64)
    requires total <= left && Congruent(total, left)
    ensures total == left
  {
    if total < left {
      DivModUnique(total - left, MODULUS, -1, MODULUS + total - left);
    }
  }
}
