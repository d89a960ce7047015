/**
 * The life of `ipvs_interface` in src/ipvs_interface.cpp: initialisation with a second attempt after
 * loading the kernel module, and the destructor.  A raw socket opened by a failed attempt is lost.
 */
module IpvsInterface {
  import opened Options
  import L = Libipvs

  /** What the foreign calls of one `ipvs_init` answer. */
  datatype Attempt = Attempt(ping: L.Env, info: L.Env)

  predicate Works(a: Attempt) {
    L.Initialises(a.ping, a.info)
  }

  predicate Strands(a: Attempt) {
    L.Strands(a.ping, a.info)
  }

  /** The second attempt is made only after a failed first one and a successful `modprobe`. */
  predicate Retries(first: Attempt, modprobed: bool) {
    !Works(first) && modprobed
  }

  function One(b: bool): (n: nat) {
    if b then 1 else 0
  }

  /** Sockets that no later call can close, known from the answers alone. */
  function Stranded(first: Attempt, modprobed: bool, second: Attempt): (n: nat) {
    One(Strands(first)) + One(Retries(first, modprobed) && Strands(second))
  }

  class IpvsInterface {
    const lib: L.Session
    var initialized: bool

    ghost predicate Valid()
      reads this, lib
    {
      lib.Valid() && (lib.sockfd.Some? ==> lib.sockfd.value in lib.live)
    }

    constructor (lib: L.Session)
      requires lib.Valid() && lib.sockfd.None?
      ensures this.lib == lib && !initialized && Valid()
    {
      this.lib := lib;
      initialized := false;
    }

    /** One call of `ipvs_init`, with the raw socket it leaves open, if any. */
    method Try(a: Attempt) returns (ok: bool, ghost raw: set<nat>)
      requires Valid()
      modifies lib
      ensures Valid() && (ok <==> Works(a))
      ensures raw !! old(lib.live) && lib.live == old(lib.live) + raw
      ensures |raw| == One(Strands(a)) + One(ok && !lib.tryNl)
      ensures ok && !lib.tryNl ==> lib.sockfd.Some? && lib.sockfd.value in raw
    {
      hide L.Delivered;
      var rc := lib.Init(a.ping, a.info);
      ok, raw := rc == 0, {};
      if !lib.tryNl && lib.sockfd.Some? {
        raw := {lib.sockfd.value};
      }
    }

    /** `init`: up to two attempts; every raw socket they open is held. */
    method Init(first: Attempt, modprobed: bool, second: Attempt) returns (ok: bool, ghost raw: set<nat>)
      requires Valid()
      modifies this, lib
      ensures Valid() && initialized == (ok || old(initialized))
      ensures ok <==> Works(first) || (modprobed && Works(second))
      ensures raw !! old(lib.live) && lib.live == old(lib.live) + raw
      ensures |raw| == Stranded(first, modprobed, second) + One(ok && !lib.tryNl)
      ensures ok && !lib.tryNl ==> lib.sockfd.Some? && lib.sockfd.value in raw
    {
      hide Works, Strands;
      ok, raw := Try(first);
      if !ok && modprobed {
        ghost var more;
        ok, more := Try(second);
        Both(old(lib.live), raw, more);
        raw := raw + more;
      }
      if ok {
        initialized := true;
      }
    }

    /** The destructor. */
    method Destroy()
      requires Valid()
      modifies lib
      ensures lib.live == (if initialized && !lib.tryNl && lib.sockfd.Some?
                           then old(lib.live) - {lib.sockfd.value} else old(lib.live))
      ensures lib.tryNl == old(lib.tryNl) && lib.sockfd == old(lib.sockfd)
    {
      if initialized {
        lib.Close();
      }
    }
  }

  /** The socket is lost in the very case the retry is made for: the module loads and netlink answers. */
  lemma {:induction false} RetryLosesSocket() returns (first: Attempt, second: Attempt)
    ensures !Works(first) && Works(second) && Stranded(first, true, second) == 1
  {
    var silent := L.Env(true, true, true, true, true, true, false, -1, true, true, [], false);
    var answers := L.Env(true, true, true, true, true, true, true, 24, true, true, [], true);
    first, second := Attempt(silent, silent), Attempt(answers, answers);
  }

  lemma {:induction false} Both(live: set<nat>, a: set<nat>, b: set<nat>)
    requires a !! live && b !! live + a
    ensures a + b !! live && live + a + b == live + (a + b) && |a + b| == |a| + |b|
  {
  }

  /**
   * Construction, initialisation and destruction: exactly the stranded sockets stay open.  In
   * particular the case the retry is there for, a module that is not loaded yet, loses one socket.
   */
  method Lifecycle(lib: L.Session, first: Attempt, modprobed: bool, second: Attempt)
    returns (ok: bool, ghost lost: set<nat>)
    requires lib.Valid() && lib.sockfd.None?
    modifies lib
    ensures ok <==> Works(first) || (modprobed && Works(second))
    ensures lost !! old(lib.live) && lib.live == old(lib.live) + lost
    ensures |lost| == Stranded(first, modprobed, second)
  {
    var ipvs := new IpvsInterface(lib);
    ok, lost := ipvs.Init(first, modprobed, second);
    ghost var raw := lost;
    ipvs.Destroy();
    if ok && !lib.tryNl {
      lost := raw - {lib.sockfd.value};
    }
  }
}
