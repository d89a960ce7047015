/**
 * Which failures the requests at hand make possible: a lost reply that hides an update, and a stale
 * family number that spoils the next request.
 */
module ServerFailures {
  import opened Options
  import opened Kernel
  import opened Server
  import opened ServerInvariant
  import opened ServerSafety
  import opened ServerRuns
  import L = Libipvs

  // ---- failed requests that changed the table -----------------------------

  /** Entry `k` was answered with an error although its update changed the table. */
  ghost predicate FailedChange(p: Params, schedule: Schedule, k: nat) {
    var log := Reach(p, schedule).lib.log;
    && k < |log| && !log[k].ok
    && Run(p.initial, Calls(log[..k + 1])) != Run(p.initial, Calls(log[..k]))
  }

  /** Request `i` asks for a state that a destination of the initial table does not have yet. */
  predicate Effective(p: Params, i: nat) {
    && i < |p.clients| && Callable(p, i) && Wanted(p, i).Some?
    && KeyOf(Wanted(p, i).value) in p.initial
    && p.initial[KeyOf(Wanted(p, i).value)] != Wanted(p, i).value.state
  }

  /** A destination that has left its initial state was changed by an effective request. */
  lemma {:induction false} ChangedByEffective(p: Params, schedule: Schedule, k: nat, key: (ServiceId, DestId))
    requires k <= |Reach(p, schedule).lib.log| && key in p.initial
    requires
      var t := Run(p.initial, Calls(Reach(p, schedule).lib.log[..k]));
      key in t && t[key] != p.initial[key]
    ensures exists i :: Effective(p, i)
  {
    hide Reach, Wanted, Judged, Callable, Run, Tids, Distinct, Succeeds;
    Linearizable(p, schedule);
    var log := Reach(p, schedule).lib.log;
    var calls := Calls(log[..k]);
    LastUpdateWins(p.initial, calls, key);
    var j := LastHitOf(p.initial, calls, key);
    assert calls[j] == log[j].call && Warranted(p, log[j].tid, log[j].call);
    assert Effective(p, log[j].tid);
  }

  lemma {:induction false} LastHitOf(t: Table, calls: seq<Call>, key: (ServiceId, DestId)) returns (j: nat)
    requires exists i :: 0 <= i < |calls| && Hits(t, calls, i, key)
    ensures j < |calls| && Hits(t, calls, j, key)
    ensures forall m | j < m < |calls| :: !Hits(t, calls, m, key)
  {
    hide Hits;
    j := |calls|;
    while true
      invariant 0 < j <= |calls|
      invariant forall m | j <= m < |calls| :: !Hits(t, calls, m, key)
      decreases j
    {
      j := j - 1;
      if Hits(t, calls, j, key) {
        return;
      }
      assert exists i :: 0 <= i < j && Hits(t, calls, i, key);
    }
  }

  lemma {:induction false} FailedChangeNeedsEffective(p: Params, schedule: Schedule, k: nat)
    requires FailedChange(p, schedule, k)
    ensures p.netlink && exists i :: Effective(p, i)
  {
    hide Reach, Wanted, Judged, Callable, Run, Tids, Distinct, Succeeds, Calls;
    FailedRequestChangesIff(p, schedule, k);
    Linearizable(p, schedule);
    var e := Reach(p, schedule).lib.log[k];
    assert Warranted(p, e.tid, e.call);
    var key := KeyOf(e.call.update.value);
    var before := Run(p.initial, Calls(Reach(p, schedule).lib.log[..k]));
    KeysKept(p.initial, Calls(Reach(p, schedule).lib.log[..k]));
    if before[key] == p.initial[key] {
      assert Effective(p, e.tid);
    } else {
      ChangedByEffective(p, schedule, k, key);
    }
  }

  const REPLY_LOST := Choice(true, true, Some(true), ReplyLost)

  lemma {:induction false} EffectiveCanFail(p: Params, i: nat)
    requires p.netlink && Effective(p, i)
    ensures FailedChange(p, Repeat(i, REPLY_LOST, 11), 0)
  {
    hide Exec, Repeat, Wanted, Judged, Callable;
    var s := Init(p);
    ServedAlone(p, s, i, REPLY_LOST);
    var u := Wanted(p, i).value;
    var (lib, ok) := Exchanged(p, s.lib, i, u, REPLY_LOST);
    var log := lib.log;
    assert |log| == 1 && log[0].call == Call(Some(u), ReplyLost) && !log[0].ok;
    assert log[..0] == [] && log[..1] == log;
    assert Calls(log[..1]) == [Call(Some(u), ReplyLost)] && Calls(log[..0]) == [];
    OneCall(p.initial, Call(Some(u), ReplyLost));
    assert After(p.initial, Call(Some(u), ReplyLost))[KeyOf(u)] == u.state;
  }

  lemma {:induction false} OneCall(t: Table, c: Call)
    ensures Run(t, []) == t && Run(t, [c]) == After(t, c)
  {
    assert [c][..0] == [];
  }

  /**
   * Some run answers a request with an error after changing the table for it exactly when netlink is
   * in use and some request would change a destination of the initial table.
   */
  lemma {:induction false} FailedChangeReachableIff(p: Params)
    ensures (exists schedule, k :: FailedChange(p, schedule, k)) <==> p.netlink && exists i :: Effective(p, i)
  {
    hide FailedChange, Effective, Repeat;
    if schedule, k :| FailedChange(p, schedule, k) {
      FailedChangeNeedsEffective(p, schedule, k);
    }
    if p.netlink && exists i :: Effective(p, i) {
      var i :| Effective(p, i);
      EffectiveCanFail(p, i);
    }
  }

  /**
   * The destination `key` is not as the answers tell: nothing reported success for it and it has left
   * its initial state, or it is not in the state of the last success reported.
   */
  ghost predicate SuccessOverruled(p: Params, schedule: Schedule, key: (ServiceId, DestId)) {
    var lib := Reach(p, schedule).lib;
    && key in p.initial && key in lib.table
    && (|| ((forall k | 0 <= k < |lib.log| :: !Served(lib.log, k, key)) && lib.table[key] != p.initial[key])
        || (exists k :: LastServed(lib.log, k, key) && lib.table[key] != lib.log[k].call.update.value.state))
  }

  /** Without netlink the answers tell the truth. */
  lemma {:induction false} TruthfulWithoutNetlink(p: Params, schedule: Schedule, key: (ServiceId, DestId))
    ensures !p.netlink ==> !SuccessOverruled(p, schedule, key)
  {
    hide Reach, Wanted, Judged, Callable, Run, Tids, Distinct, Succeeds;
    var lib := Reach(p, schedule).lib;
    if !p.netlink && key in p.initial {
      LastSuccessWins(p, schedule, key);
      Linearizable(p, schedule);
      forall k | LastServed(lib.log, k, key)
        ensures lib.table[key] == lib.log[k].call.update.value.state
      {
        assert Warranted(p, lib.log[k].tid, lib.log[k].call);
        WantedState(p, lib.log[k].tid);
      }
    }
  }

  lemma {:induction false} OverruledNeedsEffective(p: Params, schedule: Schedule, key: (ServiceId, DestId))
    requires SuccessOverruled(p, schedule, key)
    ensures exists i :: Effective(p, i)
  {
    hide Reach, Wanted, Judged, Callable, Run, Tids, Distinct, Succeeds;
    Linearizable(p, schedule);
    var lib := Reach(p, schedule).lib;
    assert lib.log[..|lib.log|] == lib.log;
    if lib.table[key] != p.initial[key] {
      ChangedByEffective(p, schedule, |lib.log|, key);
    } else {
      var k :| LastServed(lib.log, k, key) && lib.table[key] != lib.log[k].call.update.value.state;
      assert Warranted(p, lib.log[k].tid, lib.log[k].call);
      assert Effective(p, lib.log[k].tid);
    }
  }

  lemma {:induction false} EffectiveCanOverrule(p: Params, i: nat)
    requires p.netlink && Effective(p, i)
    ensures SuccessOverruled(p, Repeat(i, REPLY_LOST, 11), KeyOf(Wanted(p, i).value))
  {
    hide Exec, Repeat, Wanted, Judged, Callable;
    ServedAlone(p, Init(p), i, REPLY_LOST);
    var u := Wanted(p, i).value;
    var (lib, ok) := Exchanged(p, Init(p).lib, i, u, REPLY_LOST);
    assert |lib.log| == 1 && !lib.log[0].ok && lib.table[KeyOf(u)] == u.state;
  }

  /**
   * Some run leaves a destination in another state than the last success reported for it, or than
   * the initial one if there is none, exactly when netlink is in use and some request would change a
   * destination of the initial table.
   */
  lemma {:induction false} OverruledReachableIff(p: Params)
    ensures (exists schedule, key :: SuccessOverruled(p, schedule, key)) <==> p.netlink && exists i :: Effective(p, i)
  {
    hide SuccessOverruled, Effective, Repeat, Wanted;
    if schedule, key :| SuccessOverruled(p, schedule, key) {
      TruthfulWithoutNetlink(p, schedule, key);
      OverruledNeedsEffective(p, schedule, key);
    }
    if p.netlink && exists i :: Effective(p, i) {
      var i :| Effective(p, i);
      EffectiveCanOverrule(p, i);
    }
  }

  // ---- stale family numbers -----------------------------------------------

  /** The last call before `k` that got as far as resolving the family failed to. */
  ghost predicate LastResolveFailed(log: seq<Entry>, k: nat)
    requires k <= |log|
  {
    exists j :: L.LastResolution(Resolutions(log[..k]), j) && log[j].resolution == Some(UNRESOLVED)
  }

  /**
   * The message of a call is addressed to IPVS exactly when the last call that resolved the family
   * did so successfully, whatever its own resolve gives; otherwise the call fails and changes nothing.
   */
  lemma {:induction false} AddressedByPredecessor(p: Params, schedule: Schedule, k: nat)
    requires k < |Reach(p, schedule).lib.log| && Reach(p, schedule).lib.log[k].header.Some?
    ensures
      var log := Reach(p, schedule).lib.log;
      && (log[k].header.value != p.family <==> LastResolveFailed(log, k))
      && (log[k].header.value != p.family ==>
            !log[k].ok && Run(p.initial, Calls(log[..k + 1])) == Run(p.initial, Calls(log[..k])))
  {
    hide Reach, Locks, Tracked, SocketsOwned, Sequential, Justified, Run, L.FamilyAfter;
    ReachInv(p, schedule);
    Linearizable(p, schedule);
    var log := Reach(p, schedule).lib.log;
    assert Addressed(p, log[k], HeaderAfter(p, log[..k]));
    HeaderIff(p, log, k);
    if log[k].header.value != p.family {
      FailedRequestChangesIff(p, schedule, k);
    }
  }

  lemma {:induction false} HeaderIff(p: Params, log: seq<Entry>, k: nat)
    requires k <= |log|
    requires forall j | 0 <= j < k :: log[j].resolution in {None, Some(p.family), Some(UNRESOLVED)}
    ensures HeaderAfter(p, log[..k]) != p.family <==> LastResolveFailed(log, k)
  {
    hide L.FamilyAfter;
    var rs := Resolutions(log[..k]);
    L.AddressedIff(p.family, rs, p.family);
    assert forall j | 0 <= j < k :: rs[j] == log[j].resolution;
  }

  /** Entry `k` was misaddressed although its own resolve of the family succeeded. */
  predicate Spoiled(p: Params, schedule: Schedule, k: nat) {
    var log := Reach(p, schedule).lib.log;
    && k < |log| && log[k].resolution == Some(p.family)
    && log[k].header.Some? && log[k].header.value != p.family
  }

  /** Request `i` asks for an update. */
  predicate Asking(p: Params, i: nat) {
    i < |p.clients| && Callable(p, i) && Wanted(p, i).Some?
  }

  ghost predicate TwoAsking(p: Params) {
    exists i, j :: i != j && Asking(p, i) && Asking(p, j)
  }

  lemma {:induction false} SpoiledNeedsTwo(p: Params, schedule: Schedule, k: nat)
    requires Spoiled(p, schedule, k)
    ensures p.netlink && TwoAsking(p)
  {
    hide Reach, Locks, SocketsOwned, Sequential, Justified, Run, HeaderAfter, Wanted, Judged, Callable;
    ReachInv(p, schedule);
    Linearizable(p, schedule);
    AddressedByPredecessor(p, schedule, k);
    var s := Reach(p, schedule);
    var log := s.lib.log;
    var j :| L.LastResolution(Resolutions(log[..k]), j) && log[j].resolution == Some(UNRESOLVED);
    assert Addressed(p, log[k], HeaderAfter(p, log[..k])) && Addressed(p, log[j], HeaderAfter(p, log[..j]));
    assert Warranted(p, log[k].tid, log[k].call) && Warranted(p, log[j].tid, log[j].call);
    assert Tids(log)[j] == s.lib.order[j] && Tids(log)[k] == s.lib.order[k];
    assert Asking(p, log[k].tid) && Asking(p, log[j].tid) && log[j].tid != log[k].tid;
  }

  lemma {:induction false} ExecConcat(p: Params, s: State, a: Schedule, b: Schedule)
    requires |s.threads| == |p.clients|
    ensures Exec(p, s, a + b) == Exec(p, Exec(p, s, a), b)
    decreases |b|
  {
    hide Enabled, Next;
    if b == [] {
      assert a + b == a;
    } else {
      var n := |b| - 1;
      assert (a + b)[..|a + b| - 1] == a + b[..n];
      ExecConcat(p, s, a, b[..n]);
    }
  }

  const UNLUCKY := Choice(true, true, Some(false), Unsent)

  lemma {:induction false} TwoCanSpoil(p: Params, i: nat, j: nat)
    requires p.netlink && i != j && Asking(p, i) && Asking(p, j)
    ensures Spoiled(p, Repeat(i, UNLUCKY, 11) + Repeat(j, LUCKY, 11), 1)
  {
    hide Exec, Repeat, Wanted, Judged, Callable, Succeeds, After;
    var s := Init(p);
    ServedAlone(p, s, i, UNLUCKY);
    var s1 := Exec(p, s, Repeat(i, UNLUCKY, 11));
    assert Fresh(p, s1, j);
    ServedAlone(p, s1, j, LUCKY);
    ExecConcat(p, s, Repeat(i, UNLUCKY, 11), Repeat(j, LUCKY, 11));
  }

  /**
   * Some run misaddresses a request whose own resolve succeeds exactly when netlink is in use and at
   * least two requests ask for an update.
   */
  lemma {:induction false} SpoiledReachableIff(p: Params)
    ensures (exists schedule, k :: Spoiled(p, schedule, k)) <==> p.netlink && TwoAsking(p)
  {
    hide Spoiled, Asking, Repeat;
    if schedule, k :| Spoiled(p, schedule, k) {
      SpoiledNeedsTwo(p, schedule, k);
    }
    if p.netlink && TwoAsking(p) {
      var i, j :| i != j && Asking(p, i) && Asking(p, j);
      TwoCanSpoil(p, i, j);
    }
  }
}
