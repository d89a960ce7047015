/** Progress: every run ends, and exactly which requests can leave the others waiting for ever. */
module ServerProgress {
  import opened Options
  import opened CText
  import opened RequestHandling
  import opened Kernel
  import opened Server
  import opened ServerInvariant
  import opened ServerSafety
  import opened ServerRuns
  import W = SetWeight

  /** The most steps a thread has left. */
  function Rank(pc: Pc): (n: nat) {
    match pc
    case Ready => 11
    case ConfigHeld => 10
    case ConfigCopied(_, _) => 9
    case Checking(_, _) => 8
    case Waiting(_, _, _) => 7
    case Inside(_, _, _) => 6
    case Named(_, _, _) => 5
    case Marked(_) => 4
    case Connected(_, _, _) => 3
    case Replied(_, _, _) => 2
    case Returned(_, _) => 1
    case Done(_, _) => 0
    case Crashed => 0
    case CrashedInside => 0
  }

  function Total(threads: seq<Pc>): (n: nat) {
    if threads == [] then 0 else Rank(threads[0]) + Total(threads[1..])
  }

  lemma {:induction false} TotalUpdate(threads: seq<Pc>, i: nat, pc: Pc)
    requires i < |threads|
    ensures Total(threads[i := pc]) == Total(threads) - Rank(threads[i]) + Rank(pc)
    decreases i
  {
    hide Rank;
    if i == 0 {
      assert threads[i := pc][1..] == threads[1..];
    } else {
      assert threads[i := pc][1..] == threads[1..][i - 1 := pc];
      TotalUpdate(threads[1..], i - 1, pc);
    }
  }

  lemma {:induction false} StepRank(p: Params, s: State, i: nat, c: Choice)
    requires |s.threads| == |p.clients| && Enabled(p, s, i)
    ensures Rank(Next(p, s, i, c).threads[i]) < Rank(s.threads[i])
  {
    hide Validate, Succeeds, After, W.UpdateFor, W.CommandFor, AsString, CStr;
  }

  /** How many entries of a schedule are real steps. */
  function Steps(p: Params, s: State, schedule: Schedule): (n: nat)
    requires |s.threads| == |p.clients|
  {
    if schedule == [] then 0
    else
      var n := |schedule| - 1;
      Steps(p, s, schedule[..n]) + (if Enabled(p, Exec(p, s, schedule[..n]), schedule[n].0) then 1 else 0)
  }

  lemma {:induction false} StepsUseRank(p: Params, s: State, schedule: Schedule)
    requires |s.threads| == |p.clients|
    ensures Steps(p, s, schedule) + Total(Exec(p, s, schedule).threads) <= Total(s.threads)
  {
    hide Enabled, Rank;
    if schedule != [] {
      var n := |schedule| - 1;
      StepsUseRank(p, s, schedule[..n]);
      var before := Exec(p, s, schedule[..n]);
      var (i, c) := schedule[n];
      if Enabled(p, before, i) {
        StepUsesRank(p, before, i, c);
      }
    }
  }

  lemma {:induction false} StepUsesRank(p: Params, s: State, i: nat, c: Choice)
    requires |s.threads| == |p.clients| && Enabled(p, s, i)
    ensures Total(Next(p, s, i, c).threads) < Total(s.threads)
  {
    hide Rank, Total, Front, Back;
    StepRank(p, s, i, c);
    var s' := Next(p, s, i, c);
    assert s'.threads == s.threads[i := s'.threads[i]];
    TotalUpdate(s.threads, i, s'.threads[i]);
  }

  lemma {:induction false} TotalReady(threads: seq<Pc>)
    requires forall i | 0 <= i < |threads| :: threads[i] == Ready
    ensures Total(threads) == 11 * |threads|
  {
    if threads != [] {
      TotalReady(threads[1..]);
    }
  }

  /** No schedule makes more than eleven steps per request: every run comes to rest. */
  lemma {:induction false} BoundedWork(p: Params, schedule: Schedule)
    ensures Steps(p, Init(p), schedule) <= 11 * |p.clients|
  {
    hide Exec, Steps;
    StepsUseRank(p, Init(p), schedule);
    TotalReady(Init(p).threads);
  }

  /** The holder of `ipvs_mutex` died inside. */
  predicate Leaked(s: State) {
    s.lib.owner.Some? && s.lib.owner.value < |s.threads| && s.threads[s.lib.owner.value].CrashedInside?
  }

  /** The request is through, or waits for a leaked mutex, or for a worker of a pool that all do. */
  predicate AtRest(p: Params, s: State, i: nat)
    requires i < |s.threads|
  {
    || Finished(s.threads[i])
    || (Leaked(s) && (s.threads[i].Waiting? || (s.threads[i].Ready? && CountBusy(s.threads) >= p.pool)))
  }

  /**
   * A reachable state is stuck exactly when every request is through, waits behind a leaked mutex or
   * has not begun because workers that wait there fill the pool.
   */
  lemma {:induction false} StuckIff(p: Params, schedule: Schedule)
    ensures
      var s := Reach(p, schedule);
      (forall i: nat :: !Enabled(p, s, i)) <==> (forall i: nat | i < |s.threads| :: AtRest(p, s, i))
  {
    hide Reach, AllJustified, Tracked, Guarded;
    ReachInv(p, schedule);
    var s := Reach(p, schedule);
    hide CountBusy;
    assert s.config.Some? ==> HoldsConfig(s.threads[s.config.value]) && Enabled(p, s, s.config.value);
    if forall i: nat :: !Enabled(p, s, i) {
      if s.lib.owner.Some? {
        var k := s.lib.owner.value;
        assert HoldsIpvs(s.threads[k]) && !Enabled(p, s, k);
      } else {
        assert forall j: nat | j < |s.threads| :: !Enabled(p, s, j) && !Busy(s.threads[j]);
        NoneBusy(s.threads);
      }
      forall i: nat | i < |s.threads|
        ensures AtRest(p, s, i)
      {
        assert !Enabled(p, s, i);
      }
    }
    if forall i: nat | i < |s.threads| :: AtRest(p, s, i) {
      forall i: nat
        ensures !Enabled(p, s, i)
      {
        assert i < |s.threads| ==> AtRest(p, s, i);
      }
    }
  }

  /** Every accepted host converts to a string. */
  predicate AllConvertible(p: Params) {
    forall i: nat | i < |p.clients| :: Judged(p, i).Accept? ==> Callable(p, i)
  }

  /**
   * With convertible hosts every run that comes to rest has answered every request, except those
   * whose body is JSON but neither an object nor null: their handler threw.
   */
  lemma {:induction false} EveryRequestAnswered(p: Params, schedule: Schedule)
    requires AllConvertible(p) && forall i: nat :: !Enabled(p, Reach(p, schedule), i)
    ensures
      var s := Reach(p, schedule);
      && s.config.None? && s.lib.owner.None?
      && forall i: nat | i < |p.clients| ::
           if p.clients[i].doc.Some? && p.clients[i].doc.value.NotObject? then s.threads[i].Crashed?
           else s.threads[i].Done?
  {
    hide Reach, Validate, AsString, Guarded, Tracked, Wanted;
    StuckIff(p, schedule);
    ReachInv(p, schedule);
    var s := Reach(p, schedule);
    forall i: nat | i < |s.threads|
      ensures !s.threads[i].CrashedInside? && (Judged(p, i).Thrown? <==> p.clients[i].doc.Some? && p.clients[i].doc.value.NotObject?)
    {
      assert Justified(p, i, s.threads[i]);
      ThrownIff(p.clients[i].doc, p.apiKey);
    }
    forall i: nat | i < |s.threads|
      ensures Finished(s.threads[i]) && (s.threads[i].Crashed? <==> Judged(p, i).Thrown?)
    {
      assert AtRest(p, s, i) && Justified(p, i, s.threads[i]);
    }
  }

  /** Once leaked, `ipvs_mutex` stays leaked and nothing behind it ever changes again. */
  lemma {:induction false} LeakIsForever(p: Params, first: Schedule, rest: Schedule)
    ensures Leaked(Reach(p, first)) ==>
              && Leaked(Exec(p, Reach(p, first), rest))
              && Exec(p, Reach(p, first), rest).lib == Reach(p, first).lib
  {
    hide Leaked, Reach, Exec;
    if Leaked(Reach(p, first)) {
      ReachInv(p, first);
      LeakLasts(p, Reach(p, first), rest);
    }
  }

  lemma {:induction false} LeakLasts(p: Params, s: State, schedule: Schedule)
    requires Inv(p, s) && Leaked(s)
    ensures Leaked(Exec(p, s, schedule)) && Exec(p, s, schedule).lib == s.lib
  {
    hide Tracked, Guarded, Justified, Next, Enabled;
    if schedule != [] {
      var n := |schedule| - 1;
      LeakLasts(p, s, schedule[..n]);
      Invariant(p, s, schedule[..n]);
      var before := Exec(p, s, schedule[..n]);
      if Enabled(p, before, schedule[n].0) {
        LeakStays(p, before, schedule[n].0, schedule[n].1);
      }
    }
  }

  lemma {:induction false} LeakStays(p: Params, s: State, i: nat, c: Choice)
    requires |s.threads| == |p.clients| && Locks(s) && Leaked(s) && Enabled(p, s, i)
    ensures Leaked(Next(p, s, i, c)) && Next(p, s, i, c).lib == s.lib
  {
    hide Front, Back;
    assert HoldsIpvs(s.threads[i]) ==> s.lib.owner == Some(i);
  }

  lemma {:induction false} AloneLeaks(p: Params, i: nat)
    requires i < |p.clients| && Judged(p, i).Accept? && !Callable(p, i)
    ensures Leaked(Reach(p, Repeat(i, LUCKY, 6)))
  {
    hide Exec, Judged, Front, AsString, Repeat;
    var s := Init(p);
    AloneToInside(p, s, i, LUCKY);
    var (host, weight) := (Judged(p, i).host, Judged(p, i).weight);
    BackStep(p, s, i, LUCKY, 5, Taken(s.lib, i), Inside(p.vip, host, weight));
  }

  /** Some run leaks `ipvs_mutex` exactly when some accepted request has a host that does not convert. */
  lemma {:induction false} LeakReachableIff(p: Params)
    ensures (exists schedule :: Leaked(Reach(p, schedule))) <==> !AllConvertible(p)
  {
    hide Reach, Judged, Callable, Guarded, Tracked, Locks, Wanted;
    if schedule :| Leaked(Reach(p, schedule)) {
      ReachInv(p, schedule);
      var s := Reach(p, schedule);
      var i := s.lib.owner.value;
      assert Justified(p, i, s.threads[i]);
    }
    if !AllConvertible(p) {
      var i: nat :| i < |p.clients| && Judged(p, i).Accept? && !Callable(p, i);
      AloneLeaks(p, i);
    }
  }
}
