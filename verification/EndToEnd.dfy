/**
 * From the bytes of the connections to the kernel's table: the body reader, the checks, the address
 * parser and the worker threads put together.
 */
module EndToEnd {
  import opened Machine
  import opened Options
  import opened CText
  import C = Configuration
  import opened RequestReader
  import opened RequestHandling
  import opened Server
  import opened ServerInvariant
  import opened ServerSafety
  import K = Kernel
  import A = AddressParser
  import W = SetWeight

  /** A connection: its headers, its read callbacks, and what name services answer for it. */
  datatype Connection = Connection(headers: seq<Header>, events: seq<Event>, net: A.Net)

  /** A server at work: its configuration, what `Json::Reader` makes of a text, and its connections. */
  datatype World = World(
    config: C.Config, pool: Workers, json: string -> Option<Document>,
    netlink: bool, family: nat, initial: K.Table, connections: seq<Connection>)

  /** The bodies the reader of a connection hands on. */
  function Bodies(c: Connection): (bodies: seq<string>) {
    Feed(Started(ContentLength(c.headers)), c.events).handled
  }

  function RequestsOf(json: string -> Option<Document>, c: Connection): (r: seq<Client>) {
    seq(|Bodies(c)|, k requires 0 <= k < |Bodies(c)| => Client(json(Bodies(c)[k]), c.net))
  }

  function Requests(json: string -> Option<Document>, cs: seq<Connection>): (r: seq<Client>) {
    if cs == [] then [] else RequestsOf(json, cs[0]) + Requests(json, cs[1..])
  }

  /** The thread system for all requests that are handed on. */
  function Serving(w: World): (p: Params) {
    Params(w.config.apiKey, w.config.vip, w.pool, w.netlink, w.family, w.initial, Requests(w.json, w.connections))
  }

  /** The body of the connection is complete after `n` callbacks. */
  ghost predicate Received(c: Connection, n: int, body: string) {
    CompletesAt(c.events, ContentLength(c.headers), n) && body == Concat(c.events[..n])
  }

  /** A connection hands on its body exactly when and where that is complete. */
  lemma {:induction false} BodyIff(c: Connection, body: string)
    ensures Bodies(c) == [body] <==> exists n :: Received(c, n, body)
    ensures |Bodies(c)| <= 1
  {
    hide CompletesAt, Concat, Feed, Started, ContentLength;
    HandledOnce(ContentLength(c.headers), c.events);
    if exists n :: CompletesAt(c.events, ContentLength(c.headers), n) {
      var n :| CompletesAt(c.events, ContentLength(c.headers), n);
      CompleteInRange(c, n);
      if Bodies(c) == [body] {
        assert Received(c, n, [body][0]);
      }
      if m :| Received(c, m, body) {
        CompleteInRange(c, m);
        assert [Concat(c.events[..m])][0] == body;
      }
    }
  }

  lemma {:induction false} CompleteInRange(c: Connection, n: int)
    requires CompletesAt(c.events, ContentLength(c.headers), n)
    ensures 0 < n <= |c.events|
  {
    hide ContentLength;
  }

  /** Every request comes from a connection whose body is complete. */
  lemma {:induction false} Origin(json: string -> Option<Document>, cs: seq<Connection>, i: nat)
    returns (m: nat, n: int, body: string)
    requires i < |Requests(json, cs)|
    ensures m < |cs| && Received(cs[m], n, body)
    ensures Requests(json, cs)[i] == Client(json(body), cs[m].net)
  {
    hide Received, Bodies;
    var mine := RequestsOf(json, cs[0]);
    if i < |mine| {
      m, body := 0, Bodies(cs[0])[i];
      BodyIff(cs[0], body);
      assert Bodies(cs[0]) == [body];
      n :| Received(cs[0], n, body);
    } else {
      m, n, body := Origin(json, cs[1..], i - |mine|);
      m := m + 1;
    }
  }

  lemma {:induction false} RequestsConcat(json: string -> Option<Document>, a: seq<Connection>, b: seq<Connection>)
    ensures Requests(json, a + b) == Requests(json, a) + Requests(json, b)
  {
    hide RequestsOf;
    if a == [] {
      assert a + b == b;
    } else {
      assert (a + b)[1..] == a[1..] + b;
      RequestsConcat(json, a[1..], b);
    }
  }

  /**
   * Every received body becomes exactly one request, which comes after those of all earlier
   * connections and before those of all later ones; a connection that is not received adds none.
   */
  lemma {:induction false} EachBodyOnce(json: string -> Option<Document>, a: seq<Connection>, c: Connection, b: seq<Connection>)
    ensures forall n, body | Received(c, n, body) ::
              Requests(json, a + [c] + b) == Requests(json, a) + [Client(json(body), c.net)] + Requests(json, b)
    ensures (forall n, body :: !Received(c, n, body)) ==>
              Requests(json, a + [c] + b) == Requests(json, a) + Requests(json, b)
  {
    hide Received, Bodies, Requests;
    RequestsConcat(json, a + [c], b);
    RequestsConcat(json, a, [c]);
    OneConnection(json, c);
    forall n, body | Received(c, n, body)
      ensures RequestsOf(json, c) == [Client(json(body), c.net)]
    {
      BodyIff(c, body);
    }
    if forall n, body :: !Received(c, n, body) {
      NotReceived(c);
    }
  }

  lemma {:induction false} OneConnection(json: string -> Option<Document>, c: Connection)
    ensures Requests(json, [c]) == RequestsOf(json, c)
  {
    hide RequestsOf;
    assert [c][1..] == [] && RequestsOf(json, c) + [] == RequestsOf(json, c);
  }

  lemma {:induction false} NotReceived(c: Connection)
    requires forall n, body :: !Received(c, n, body)
    ensures Bodies(c) == []
  {
    hide Received, Bodies;
    BodyIff(c, "");
    if Bodies(c) != [] {
      BodyIff(c, Bodies(c)[0]);
    }
  }

  /**
   * The bytes of connection `c` ask for `weight` on the destination `key`: its body is received, is
   * JSON with the configured key, and its host, parsed beside the configured address, names `key`.
   */
  ghost predicate BytesAsk(w: World, c: Connection, key: (K.ServiceId, K.DestId), weight: i32) {
    exists n, body, host, server ::
      && Received(c, n, body)
      && Asks(w.json(body), w.config.apiKey, host, weight) && AsString(host) == Some(server)
      && (host.Str? ==> server == host.chars)
      && Names(w, c, server, weight, key)
  }

  /** The update for these texts is on `key`. */
  predicate Names(w: World, c: Connection, server: string, weight: i32, key: (K.ServiceId, K.DestId)) {
    var u := W.UpdateFor(w.netlink, c.net, CStr(w.config.vip), CStr(server), weight);
    u.Some? && KeyOf(u.value) == key
  }

  /** A request that wants an update on `key` was asked for by the bytes of some connection. */
  lemma {:induction false} WantedByBytes(w: World, i: nat, key: (K.ServiceId, K.DestId)) returns (m: nat)
    requires
      var p := Serving(w);
      i < |p.clients| && Callable(p, i) && Wanted(p, i).Some? && KeyOf(Wanted(p, i).value) == key
    ensures m < |w.connections| && BytesAsk(w, w.connections[m], key, Judged(Serving(w), i).weight)
  {
    hide Requests, Validate, Asks, W.UpdateFor, CStr, Received;
    var p := Serving(w);
    var n, body;
    m, n, body := Origin(w.json, w.connections, i);
    var host, weight := Judged(p, i).host, Judged(p, i).weight;
    AcceptedIff(w.json(body), w.config.apiKey, host, weight);
    var server := AsString(host).value;
    assert Names(w, w.connections[m], server, weight, key);
  }

  /** The bytes of some connection ask for it. */
  ghost predicate SomeBytesAsk(w: World, key: (K.ServiceId, K.DestId), weight: i32) {
    exists c :: c in w.connections && BytesAsk(w, c, key, weight)
  }

  /**
   * In every state of every run a destination no call was carried out on has its initial state, and
   * any other is direct-routed without thresholds and has the weight of the last one carried out,
   * which is one that the bytes of some connection asked for on this destination.
   */
  lemma {:induction false} BytesToTable(w: World, schedule: Schedule, key: (K.ServiceId, K.DestId))
    requires key in w.initial
    ensures
      var lib := Reach(Serving(w), schedule).lib;
      && key in lib.table
      && ((forall k | 0 <= k < |lib.log| :: !K.Hits(w.initial, Calls(lib.log), k, key)) ==>
            lib.table[key] == w.initial[key])
      && forall k | LastHit(w.initial, lib.log, k, key) ::
           exists weight :: lib.table[key] == Weighted(weight) && SomeBytesAsk(w, key, weight)
  {
    hide Reach, Judged, Wanted, Requests, BytesAsk, K.Hits, K.Run;
    var p := Serving(w);
    LastRequestWins(p, schedule, key);
    var lib := Reach(p, schedule).lib;
    forall k | LastHit(w.initial, lib.log, k, key)
      ensures exists weight :: lib.table[key] == Weighted(weight) && SomeBytesAsk(w, key, weight)
    {
      var i := lib.log[k].tid;
      var m := WantedByBytes(w, i, key);
      assert w.connections[m] in w.connections;
      assert SomeBytesAsk(w, key, Judged(p, i).weight);
    }
  }
}
