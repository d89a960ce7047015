/** Safety over every run: exclusion, ownership, linearizability, and what the table ends up holding. */
module ServerSafety {
  import opened Machine
  import opened Options
  import opened CText
  import opened Records
  import opened RequestHandling
  import opened Kernel
  import opened Server
  import opened ServerInvariant
  import A = AddressParser
  import W = SetWeight

  /** The state after a schedule. */
  function Reach(p: Params, schedule: Schedule): (s: State)
    ensures |s.threads| == |p.clients|
  {
    Exec(p, Init(p), schedule)
  }

  lemma {:induction false} ReachInv(p: Params, schedule: Schedule)
    ensures Inv(p, Reach(p, schedule))
  {
    hide Inv;
    InitInv(p);
    Invariant(p, Init(p), schedule);
  }

  /** No thread ever holds both mutexes, and each mutex is held by at most the one thread it names. */
  lemma {:induction false} MutualExclusion(p: Params, schedule: Schedule)
    ensures
      var s := Reach(p, schedule);
      && (s.config.Some? ==> s.config != s.lib.owner)
      && (forall i: nat, j: nat | i < |s.threads| && j < |s.threads| ::
            && (HoldsConfig(s.threads[i]) && HoldsConfig(s.threads[j]) ==> i == j)
            && (HoldsIpvs(s.threads[i]) && HoldsIpvs(s.threads[j]) ==> i == j))
  {
    hide AllJustified, Tracked, Guarded, Reach;
    ReachInv(p, schedule);
    var s := Reach(p, schedule);
    if s.config.Some? {
      assert HoldsConfig(s.threads[s.config.value]);
    }
  }

  /**
   * A thread without `ipvs_mutex` can do nothing to libipvs's globals, the sockets, the table and
   * the history except take the mutex.
   */
  lemma {:induction false} OnlyHolderTouches(p: Params, schedule: Schedule, i: nat, c: Choice)
    requires Enabled(p, Reach(p, schedule), i) && Reach(p, schedule).lib.owner != Some(i)
    ensures
      var s := Reach(p, schedule);
      var s' := Next(p, s, i, c);
      s'.lib == s.lib || (s.lib.owner.None? && s'.lib == s.lib.(owner := Some(i), order := s.lib.order + [i]))
  {
    hide AllJustified, Tracked, Guarded, Reach, Front, W.UpdateFor, W.CommandFor, AsString, CStr, Commit;
    ReachInv(p, schedule);
    var s := Reach(p, schedule);
    assert HoldsIpvs(s.threads[i]) <==> s.lib.owner == Some(i);
  }

  /**
   * A thread about to send on or free the socket in the global finds its own there, the only one
   * open; outside `ipvs_mutex` no socket is open.
   */
  lemma {:induction false} SocketIsOwn(p: Params, schedule: Schedule, i: nat)
    requires i < |p.clients|
    ensures
      var s := Reach(p, schedule);
      && (s.lib.owner.None? ==> s.lib.open == {})
      && (s.threads[i].Connected? || s.threads[i].Replied? ==>
            s.lib.sock == Some(s.threads[i].handle) && s.lib.open == {s.threads[i].handle})
  {
    hide AllJustified, Tracked, Sequential, FamilyKept, Reach;
    ReachInv(p, schedule);
    var s := Reach(p, schedule);
    if s.threads[i].Connected? || s.threads[i].Replied? {
      assert HoldsIpvs(s.threads[i]);
      var h := s.threads[i].handle;
      assert h in s.lib.open;
      assert h in {s.lib.sock.value};
    }
  }

  /**
   * Linearizability: the table is the fold of the finished calls in the order in which their threads
   * took `ipvs_mutex`, each call asks for exactly what its request and the configuration say, and its
   * result is that of the sequential run.
   */
  lemma {:induction false} Linearizable(p: Params, schedule: Schedule)
    ensures
      var s := Reach(p, schedule);
      && s.lib.table == Run(p.initial, Calls(s.lib.log))
      && Tids(s.lib.log) <= s.lib.order && |s.lib.order| <= |s.lib.log| + 1 && Distinct(s.lib.order)
      && forall k | 0 <= k < |s.lib.log| ::
           && s.lib.log[k].tid < |p.clients| && Warranted(p, s.lib.log[k].tid, s.lib.log[k].call)
           && s.lib.log[k].ok == Succeeds(Run(p.initial, Calls(s.lib.log[..k])), s.lib.log[k].call)
  {
    hide Reach, Succeeds, Run, Wanted, Calls, SocketsOwned, FamilyKept, Locks, Judged, Warranted;
    ReachInv(p, schedule);
    var s := Reach(p, schedule);
    forall k | 0 <= k < |s.lib.log|
      ensures s.lib.log[k].tid < |p.clients| && Warranted(p, s.lib.log[k].tid, s.lib.log[k].call)
    {
      var i := s.lib.log[k].tid;
      assert Matches(s.threads[i], s.lib.log[k]);
      assert Justified(p, i, s.threads[i]);
    }
  }

  /** The answer of a finished request in the history. */
  predicate AnsweredBy(p: Params, log: seq<Entry>, k: int, i: nat, response: Response) {
    && 0 <= k < |log| && log[k].tid == i
    && response == (if Succeeds(Run(p.initial, Calls(log[..k])), log[k].call) then OK else NOT_SET)
    && response.status == (if Succeeds(Run(p.initial, Calls(log[..k])), log[k].call) then 200 else 500)
  }

  /**
   * Every answered request was answered by its own checks without ever taking `ipvs_mutex`, or by
   * the result its call has in the sequential run.
   */
  lemma {:induction false} AnswersAreSequential(p: Params, schedule: Schedule, i: nat)
    requires i < |p.clients| && Reach(p, schedule).threads[i].Done?
    ensures
      var s := Reach(p, schedule);
      if s.threads[i].outcome.None?
      then Judged(p, i) == Reject(s.threads[i].response) && i !in s.lib.order
      else exists k :: AnsweredBy(p, s.lib.log, k, i, s.threads[i].response)
  {
    hide Reach, Succeeds, Run, Wanted, Calls, SocketsOwned, FamilyKept;
    ReachInv(p, schedule);
    var s := Reach(p, schedule);
    assert Justified(p, i, s.threads[i]);
    if s.threads[i].outcome.Some? {
      assert Entered(s.threads[i]) && i in s.lib.order;
      var k := CommittedEntry(s, i);
      assert Matches(s.threads[i], s.lib.log[k]);
      assert AnsweredBy(p, s.lib.log, k, i, s.threads[i].response);
    }
  }

  /**
   * Only authentic requests with a host and an integer weight ever take `ipvs_mutex`, and of the
   * answered requests exactly these did; the others got the complaint of the checks.
   */
  lemma {:induction false} OnlyAskedEnter(p: Params, schedule: Schedule, i: nat)
    requires i < |p.clients|
    ensures
      var s := Reach(p, schedule);
      var doc := p.clients[i].doc;
      && (i in s.lib.order ==> exists host, weight :: Asks(doc, p.apiKey, host, weight))
      && (s.threads[i].Done? && i !in s.lib.order ==>
            && Judged(p, i) == Reject(s.threads[i].response)
            && (forall host, weight :: !Asks(doc, p.apiKey, host, weight))
            && Complaint(doc, p.apiKey, s.threads[i].response))
  {
    hide Reach, Guarded, Locks, Asks, Wanted, Validate, Complaint;
    ReachInv(p, schedule);
    var s := Reach(p, schedule);
    var doc := p.clients[i].doc;
    assert Justified(p, i, s.threads[i]) && (Entered(s.threads[i]) <==> i in s.lib.order);
    if i in s.lib.order {
      AcceptedIff(doc, p.apiKey, Judged(p, i).host, Judged(p, i).weight);
    }
    forall host, weight
      ensures Judged(p, i) == Accept(host, weight) <==> Asks(doc, p.apiKey, host, weight)
    {
      AcceptedIff(doc, p.apiKey, host, weight);
    }
    if Judged(p, i).Reject? {
      RejectedIff(doc, p.apiKey, Judged(p, i).response);
    }
  }

  /** A request whose host is a string calls the library for that very text. */
  lemma {:induction false} StringHostWanted(p: Params, i: nat, host: string, weight: i32)
    requires i < |p.clients| && Asks(p.clients[i].doc, p.apiKey, Str(host), weight)
    ensures Callable(p, i)
    ensures Wanted(p, i) == W.UpdateFor(p.netlink, p.clients[i].net, CStr(p.vip), CStr(host), weight)
  {
    hide Asks, Validate, W.UpdateFor, CStr;
    AcceptedIff(p.clients[i].doc, p.apiKey, Str(host), weight);
  }

  /** `p` with another body in request `i`. */
  function WithDoc(p: Params, i: nat, doc: Option<Document>): (p': Params)
    requires i < |p.clients|
  {
    p.(clients := p.clients[i := p.clients[i].(doc := doc)])
  }

  /**
   * A request without the key influences nothing by what else it carries: with any other members
   * beside the same `api_key` every run goes the same way, its own answer included.
   */
  lemma {:induction false} UnauthenticInvisible(p: Params, i: nat, d: Document, d': Document, schedule: Schedule)
    requires i < |p.clients| && p.clients[i].doc == Some(d) && !d.NotObject? && !d'.NotObject?
    requires Member(d, "api_key") == Member(d', "api_key") && !Authentic(Some(d), p.apiKey)
    ensures Reach(WithDoc(p, i, Some(d')), schedule) == Reach(p, schedule)
  {
    hide Enabled, Next, Authentic, Inv;
    var p' := WithDoc(p, i, Some(d'));
    if schedule != [] {
      var n := |schedule| - 1;
      UnauthenticInvisible(p, i, d, d', schedule[..n]);
      var before := Reach(p, schedule[..n]);
      var (j, c) := schedule[n];
      SameEnabled(p, p', before, j);
      if Enabled(p, before, j) {
        ReachInv(p, schedule[..n]);
        SameStep(p, i, d, d', before, j, c);
      }
    }
  }

  lemma {:induction false} SameEnabled(p: Params, p': Params, s: State, j: nat)
    requires p.pool == p'.pool
    ensures Enabled(p, s, j) <==> Enabled(p', s, j)
  {
    hide CountBusy;
  }

  lemma {:induction false} SameStep(p: Params, i: nat, d: Document, d': Document, s: State, j: nat, c: Choice)
    requires i < |p.clients| && p.clients[i].doc == Some(d) && !d.NotObject? && !d'.NotObject?
    requires Member(d, "api_key") == Member(d', "api_key") && !Authentic(Some(d), p.apiKey)
    requires Inv(p, s) && Enabled(p, s, j)
    ensures
      var p' := WithDoc(p, i, Some(d'));
      Enabled(p', s, j) && Next(p', s, j, c) == Next(p, s, j, c)
  {
    hide Validate, Authentic, Locks, Tracked, Guarded, CountBusy, Commit, W.UpdateFor, W.CommandFor, AsString, CStr;
    UnauthenticLearnsNothing(d, d', p.apiKey);
    assert Justified(p, j, s.threads[j]);
  }

  /** Where a thread's finished call stands in the history. */
  lemma {:induction false} CommittedEntry(s: State, i: nat) returns (k: nat)
    requires i < |s.threads| && Committed(s.threads[i]) && i in s.lib.order
    requires s.lib.order == Tids(s.lib.log) + Pending(s.lib.owner, Holder(s))
    ensures k < |s.lib.log| && s.lib.log[k].tid == i
  {
    k :| 0 <= k < |s.lib.order| && s.lib.order[k] == i;
  }

  // ---- weights ------------------------------------------------------------

  function KeyOf(u: Update): (key: (ServiceId, DestId)) {
    (u.svc, u.dest)
  }

  /** The state every update of `set_weight` asks for. */
  function Weighted(weight: i32): (d: DestState) {
    DestState(IP_VS_CONN_F_DROUTE, weight, 0, 0)
  }

  lemma {:induction false} WantedState(p: Params, i: nat)
    requires i < |p.clients| && Callable(p, i) && Wanted(p, i).Some?
    ensures Wanted(p, i).value.state == Weighted(Judged(p, i).weight)
  {
    hide A.Parse, W.CommandFor, W.UpdateFor;
    var net, v, s, w := p.clients[i].net, CStr(p.vip), CStr(AsString(Judged(p, i).host).value), Judged(p, i).weight;
    assert W.CommandFor(net, v, s, w).Some? by {
      W.UpdateNeedsCommand(p.netlink, net, v, s, w);
    }
    W.CommandMeaning(net, v, s, w);
  }

  /** Entry `k` is the last of the history carried out on `key`. */
  ghost predicate LastHit(t0: Table, log: seq<Entry>, k: int, key: (ServiceId, DestId)) {
    && 0 <= k < |log| && Hits(t0, Calls(log), k, key)
    && forall j | k < j < |log| :: !Hits(t0, Calls(log), j, key)
  }

  /**
   * In every reachable state each destination has the weight asked for by the last request naming
   * it that was carried out, with direct routing and no thresholds, or its initial state if there is none.
   */
  lemma {:induction false} LastRequestWins(p: Params, schedule: Schedule, key: (ServiceId, DestId))
    requires key in p.initial
    ensures
      var lib := Reach(p, schedule).lib;
      && key in lib.table
      && ((forall k | 0 <= k < |lib.log| :: !Hits(p.initial, Calls(lib.log), k, key)) ==>
            lib.table[key] == p.initial[key])
      && forall k | LastHit(p.initial, lib.log, k, key) ::
           && lib.log[k].tid < |p.clients| && Callable(p, lib.log[k].tid)
           && Wanted(p, lib.log[k].tid).Some? && KeyOf(Wanted(p, lib.log[k].tid).value) == key
           && lib.table[key] == Weighted(Judged(p, lib.log[k].tid).weight)
  {
    hide Reach, Judged, Wanted, Hits;
    Linearizable(p, schedule);
    var lib := Reach(p, schedule).lib;
    var calls := Calls(lib.log);
    LastUpdateWins(p.initial, calls, key);
    forall k | LastHit(p.initial, lib.log, k, key)
      ensures lib.log[k].tid < |p.clients| && Callable(p, lib.log[k].tid)
      ensures Wanted(p, lib.log[k].tid).Some? && KeyOf(Wanted(p, lib.log[k].tid).value) == key
      ensures lib.table[key] == Weighted(Judged(p, lib.log[k].tid).weight)
    {
      var i := lib.log[k].tid;
      assert Warranted(p, i, lib.log[k].call);
      HitHasUpdate(p.initial, calls, k, key);
      WantedState(p, i);
    }
  }

  lemma {:induction false} HitHasUpdate(t: Table, calls: seq<Call>, k: int, key: (ServiceId, DestId))
    requires 0 <= k < |calls| && Hits(t, calls, k, key)
    ensures calls[k].update.Some? && KeyOf(calls[k].update.value) == key
  {
  }

  /** The history entry `k` answered 200 for the destination `key`. */
  predicate Served(log: seq<Entry>, k: int, key: (ServiceId, DestId))
    requires 0 <= k < |log|
  {
    log[k].ok && log[k].call.update.Some? && KeyOf(log[k].call.update.value) == key
  }

  /** Success and effect coincide for every entry whose reply is not lost. */
  lemma {:induction false} ServedIffHit(p: Params, schedule: Schedule, k: int, key: (ServiceId, DestId))
    requires 0 <= k < |Reach(p, schedule).lib.log|
    ensures
      var log := Reach(p, schedule).lib.log;
      && (Served(log, k, key) ==> Hits(p.initial, Calls(log), k, key))
      && (log[k].call.fate != ReplyLost ==> (Served(log, k, key) <==> Hits(p.initial, Calls(log), k, key)))
  {
    hide Reach, Judged, Wanted, Run, Warranted, Distinct, Tids;
    Linearizable(p, schedule);
    var log := Reach(p, schedule).lib.log;
    KeysKept(p.initial, Calls(log[..k]));
    assert Calls(log)[k] == log[k].call;
    assert Applied(Run(p.initial, Calls(log[..k])), log[k].call) == Applied(p.initial, log[k].call);
  }

  /** Entry `k` is the last success reported for `key`. */
  predicate LastServed(log: seq<Entry>, k: int, key: (ServiceId, DestId)) {
    0 <= k < |log| && Served(log, k, key) && forall j | k < j < |log| :: !Served(log, j, key)
  }

  /**
   * Where no reply is lost, which setsockopt never does, the weight is that of the last request
   * answered with success, and the initial state stands if there is none.
   */
  lemma {:induction false} LastSuccessWins(p: Params, schedule: Schedule, key: (ServiceId, DestId))
    requires key in p.initial
    requires p.netlink ==>
               forall k | 0 <= k < |Reach(p, schedule).lib.log| :: Reach(p, schedule).lib.log[k].call.fate != ReplyLost
    ensures
      var lib := Reach(p, schedule).lib;
      && key in lib.table
      && ((forall k | 0 <= k < |lib.log| :: !Served(lib.log, k, key)) ==> lib.table[key] == p.initial[key])
      && forall k | LastServed(lib.log, k, key) ::
           && lib.log[k].tid < |p.clients| && Callable(p, lib.log[k].tid)
           && Wanted(p, lib.log[k].tid).Some? && KeyOf(Wanted(p, lib.log[k].tid).value) == key
           && lib.table[key] == Weighted(Judged(p, lib.log[k].tid).weight)
  {
    hide Reach, Judged, Wanted, Hits, Run, Served, Tids, Distinct;
    LastRequestWins(p, schedule, key);
    Linearizable(p, schedule);
    var lib := Reach(p, schedule).lib;
    forall k | 0 <= k < |lib.log|
      ensures Served(lib.log, k, key) <==> Hits(p.initial, Calls(lib.log), k, key)
    {
      assert Warranted(p, lib.log[k].tid, lib.log[k].call);
      ServedIffHit(p, schedule, k, key);
    }
    assert forall k | LastServed(lib.log, k, key) :: LastHit(p.initial, lib.log, k, key);
  }

  /**
   * A request answered with an error has changed the table exactly when the reply of an update that
   * the kernel did carry out, and that was not already in force, was lost.
   */
  lemma {:induction false} FailedRequestChangesIff(p: Params, schedule: Schedule, k: nat)
    requires k < |Reach(p, schedule).lib.log| && !Reach(p, schedule).lib.log[k].ok
    ensures
      var log := Reach(p, schedule).lib.log;
      var before, after := Run(p.initial, Calls(log[..k])), Run(p.initial, Calls(log[..k + 1]));
      after != before <==>
        && log[k].call.fate == ReplyLost && log[k].call.update.Some?
        && KeyOf(log[k].call.update.value) in before
        && before[KeyOf(log[k].call.update.value)] != log[k].call.update.value.state
  {
    hide Reach, Judged, Wanted, Succeeds, After, Warranted, Distinct, Tids;
    Linearizable(p, schedule);
    var log := Reach(p, schedule).lib.log;
    var before := Run(p.initial, Calls(log[..k]));
    var calls := Calls(log[..k + 1]);
    assert calls[..|calls| - 1] == Calls(log[..k]);
    FailedCallChangesIff(before, log[k].call);
  }

  // ---- order in time ------------------------------------------------------

  lemma {:induction false} StepExtends(p: Params, s: State, i: nat, c: Choice)
    requires |s.threads| == |p.clients| && Enabled(p, s, i)
    ensures s.lib.order <= Next(p, s, i, c).lib.order && s.lib.log <= Next(p, s, i, c).lib.log
  {
    hide Front, Succeeds, After, W.UpdateFor, W.CommandFor, AsString, CStr;
  }

  /** History is only ever added to. */
  lemma {:induction false} HistoryGrows(p: Params, s: State, schedule: Schedule)
    requires |s.threads| == |p.clients|
    ensures s.lib.order <= Exec(p, s, schedule).lib.order && s.lib.log <= Exec(p, s, schedule).lib.log
  {
    hide Enabled, Next;
    if schedule != [] {
      var n := |schedule| - 1;
      HistoryGrows(p, s, schedule[..n]);
      var before := Exec(p, s, schedule[..n]);
      if Enabled(p, before, schedule[n].0) {
        StepExtends(p, before, schedule[n].0, schedule[n].1);
      }
    }
  }

  /**
   * Real-time order: a request that had entered the library before another took `ipvs_mutex`
   * precedes it in the order of every later state.
   */
  lemma {:induction false} RealTimeOrder(p: Params, first: Schedule, rest: Schedule, i: nat, j: nat, a: nat, b: nat)
    requires i < |p.clients| && j < |p.clients|
    requires Entered(Reach(p, first).threads[i]) && !Entered(Reach(p, first).threads[j])
    requires
      var order := Exec(p, Reach(p, first), rest).lib.order;
      a < |order| && b < |order| && order[a] == i && order[b] == j
    ensures a < b
  {
    hide Reach, Exec, Guarded, AllJustified, Entered;
    ReachInv(p, first);
    Invariant(p, Reach(p, first), rest);
    HistoryGrows(p, Reach(p, first), rest);
    var order, order' := Reach(p, first).lib.order, Exec(p, Reach(p, first), rest).lib.order;
    var k :| 0 <= k < |order| && order[k] == i;
    assert order'[k] == i;
    assert k == a by {
      assert Distinct(order');
    }
    assert j !in order;
    assert forall m | 0 <= m < |order| :: order'[m] == order[m] && order[m] != j;
  }
}
