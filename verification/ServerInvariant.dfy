/** What every step of every thread keeps. */
module ServerInvariant {
  import opened Options
  import opened CText
  import opened RequestHandling
  import opened Kernel
  import opened Server
  import L = Libipvs
  import W = SetWeight

  // ---- one thread ---------------------------------------------------------

  predicate HoldsConfig(pc: Pc) {
    pc.ConfigHeld? || pc.ConfigCopied?
  }

  predicate HoldsIpvs(pc: Pc) {
    pc.Inside? || pc.Named? || pc.Marked? || pc.Connected? || pc.Replied? || pc.Returned? || pc.CrashedInside?
  }

  /** The thread has acquired `ipvs_mutex` at some time. */
  predicate Entered(pc: Pc) {
    HoldsIpvs(pc) || (pc.Done? && pc.outcome.Some?)
  }

  /** Its library call is over. */
  predicate Committed(pc: Pc) {
    pc.Replied? || pc.Returned? || (pc.Done? && pc.outcome.Some?)
  }

  /** The thread's state agrees with this entry of the history. */
  predicate Matches(pc: Pc, e: Entry) {
    || (pc.Replied? && pc.call == e.call && pc.ok == e.ok)
    || (pc.Returned? && pc.call == e.call && pc.ok == e.ok)
    || (pc.Done? && pc.outcome == Some(e.call) && pc.response == (if e.ok then OK else NOT_SET))
  }

  function Sockets(pc: Pc): (s: set<nat>) {
    match pc
    case Connected(_, handle, _) => {handle}
    case Replied(_, _, handle) => {handle}
    case _ => {}
  }

  function Judged(p: Params, i: nat): (v: Verdict)
    requires i < |p.clients|
  {
    Validate(p.clients[i].doc, p.apiKey)
  }

  /** The request is accepted and its host converts to a string. */
  predicate Callable(p: Params, i: nat)
    requires i < |p.clients|
  {
    Judged(p, i).Accept? && AsString(Judged(p, i).host).Some?
  }

  /** The update request `i` asks for, computed from the request and the configuration alone. */
  function Wanted(p: Params, i: nat): (u: Option<Update>)
    requires i < |p.clients| && Callable(p, i)
  {
    W.UpdateFor(p.netlink, p.clients[i].net, CStr(p.vip), CStr(AsString(Judged(p, i).host).value), Judged(p, i).weight)
  }

  /** The call is the one request `i` asks for; only netlink loses replies. */
  predicate Warranted(p: Params, i: nat, call: Call)
    requires i < |p.clients|
  {
    Callable(p, i) && Wanted(p, i) == call.update && (call.fate == ReplyLost ==> p.netlink)
  }

  /** What a thread carries along comes from its own request and the configuration. */
  predicate Justified(p: Params, i: nat, pc: Pc)
    requires i < |p.clients|
  {
    match pc
    case Ready => true
    case ConfigHeld => true
    case ConfigCopied(apiKey, vip) => apiKey == p.apiKey && vip == p.vip
    case Checking(apiKey, vip) => apiKey == p.apiKey && vip == p.vip
    case Waiting(vip, host, weight) => vip == p.vip && Judged(p, i) == Accept(host, weight)
    case Inside(vip, host, weight) => vip == p.vip && Judged(p, i) == Accept(host, weight)
    case Named(vip, server, weight) =>
      vip == p.vip && Callable(p, i) && AsString(Judged(p, i).host).value == server && Judged(p, i).weight == weight
    case Marked(update) => Callable(p, i) && Wanted(p, i) == Some(update)
    case Connected(update, _, _) => p.netlink && Callable(p, i) && Wanted(p, i) == Some(update)
    case Replied(call, _, _) => Warranted(p, i, call)
    case Returned(call, _) => Warranted(p, i, call)
    case Done(response, None) => Judged(p, i) == Reject(response)
    case Done(_, Some(call)) => Warranted(p, i, call)
    case Crashed => Judged(p, i).Thrown?
    case CrashedInside => Judged(p, i).Accept? && !Callable(p, i)
  }

  // ---- the guarded part ---------------------------------------------------

  function Tids(log: seq<Entry>): (r: seq<nat>) {
    seq(|log|, k requires 0 <= k < |log| => log[k].tid)
  }

  function Calls(log: seq<Entry>): (r: seq<Call>) {
    seq(|log|, k requires 0 <= k < |log| => log[k].call)
  }

  /** The table and every result are those of running the calls one after another. */
  ghost predicate Sequential(t0: Table, log: seq<Entry>, t: Table) {
    && t == Run(t0, Calls(log))
    && forall k | 0 <= k < |log| :: log[k].ok == Succeeds(Run(t0, Calls(log[..k])), log[k].call)
  }

  function Pending(owner: Option<nat>, holder: Option<Pc>): (r: seq<nat>) {
    if owner.Some? && holder.Some? && !Committed(holder.value) then [owner.value] else []
  }

  /** The sockets that are open, and the global that names them, belong to the holder of `ipvs_mutex`. */
  predicate SocketsOwned(lib: Lib, holder: Option<Pc>) {
    && lib.open == (if holder.Some? then Sockets(holder.value) else {})
    && (lib.open != {} ==> lib.sock.Some? && lib.open == {lib.sock.value})
  }

  function Resolutions(log: seq<Entry>): (r: seq<Option<int>>) {
    seq(|log|, k requires 0 <= k < |log| => log[k].resolution)
  }

  /** The header a message built after these calls carries. */
  function HeaderAfter(p: Params, log: seq<Entry>): (f: int) {
    L.FamilyAfter(p.family, Resolutions(log))
  }

  /** The entry was addressed as its predecessors left the family, and only rightly addressed ones are carried out. */
  predicate Addressed(p: Params, e: Entry, family: int) {
    && e.resolution in {None, Some(p.family), Some(UNRESOLVED)}
    && (e.resolution.Some? ==> e.header.Some?)
    && (e.header.Some? ==> p.netlink && e.call.update.Some? && e.header.value == family)
    && (e.call.fate in {Acknowledged, ReplyLost} && p.netlink ==> e.header == Some(p.family))
  }

  /** The global family is what the history leaves, and so is the header of a message in preparation. */
  ghost predicate FamilyKept(p: Params, lib: Lib, holder: Option<Pc>) {
    && lib.family == HeaderAfter(p, lib.log)
    && (holder.Some? && holder.value.Connected? ==> holder.value.header == lib.family)
    && forall k | 0 <= k < |lib.log| :: Addressed(p, lib.log[k], HeaderAfter(p, lib.log[..k]))
  }

  ghost predicate Guarded(p: Params, lib: Lib, holder: Option<Pc>) {
    && SocketsOwned(lib, holder)
    && lib.order == Tids(lib.log) + Pending(lib.owner, holder)
    && Sequential(p.initial, lib.log, lib.table)
    && FamilyKept(p, lib, holder)
  }

  function HolderOf(pc: Pc): (h: Option<Pc>) {
    if HoldsIpvs(pc) then Some(pc) else None
  }

  lemma {:induction false} TidsSnoc(log: seq<Entry>, e: Entry)
    ensures Tids(log + [e]) == Tids(log) + [e.tid] && Calls(log + [e]) == Calls(log) + [e.call]
  {
  }

  lemma {:induction false} SequentialSnoc(t0: Table, log: seq<Entry>, t: Table, e: Entry)
    requires Sequential(t0, log, t) && e.ok == Succeeds(t, e.call)
    ensures Sequential(t0, log + [e], After(t, e.call))
  {
    hide Succeeds, After;
    var log' := log + [e];
    TidsSnoc(log, e);
    var calls := Calls(log');
    assert calls[..|calls| - 1] == Calls(log);
    assert log'[..|log|] == log;
    assert forall k | 0 <= k < |log| :: log'[..k] == log[..k];
  }

  lemma {:induction false} CommitKeeps(
    t0: Table, lib: Lib, i: nat, call: Call, header: Option<int>, resolution: Option<int>)
    requires Sequential(t0, lib.log, lib.table) && lib.order == Tids(lib.log) + [i]
    ensures
      var (lib', ok) := Commit(lib, i, call, header, resolution);
      Sequential(t0, lib'.log, lib'.table) && lib'.order == Tids(lib'.log)
  {
    hide Sequential, Succeeds, After, Tids;
    var e := Entry(i, call, Succeeds(lib.table, call), header, resolution);
    SequentialSnoc(t0, lib.log, lib.table, e);
    TidsSnoc(lib.log, e);
  }

  predicate Moves(lib: Lib, i: nat, pc: Pc) {
    && !InFront(pc) && !Finished(pc)
    && (if pc.Waiting? then lib.owner.None? else lib.owner == Some(i))
  }

  /** The history part of a step behind `ipvs_mutex`. */
  lemma {:induction false} BackKeepsHistory(p: Params, lib: Lib, i: nat, pc: Pc, c: Choice)
    requires i < |p.clients| && Moves(lib, i, pc)
    requires Sequential(p.initial, lib.log, lib.table) && lib.order == Tids(lib.log) + Pending(lib.owner, HolderOf(pc))
    ensures
      var (lib', pc') := Back(p, lib, i, pc, c);
      && Sequential(p.initial, lib'.log, lib'.table)
      && lib'.order == Tids(lib'.log) + Pending(lib'.owner, HolderOf(pc'))
  {
    hide Sequential, Tids, Commit, W.UpdateFor, W.CommandFor, AsString, CStr;
    if pc.Named? || pc.Marked? || pc.Connected? {
      forall l: Lib, call, header, resolution | l.log == lib.log && l.table == lib.table && l.order == lib.order
        ensures
          var (lib', ok) := Commit(l, i, call, header, resolution);
          Sequential(p.initial, lib'.log, lib'.table) && lib'.order == Tids(lib'.log) && lib'.owner == l.owner
      {
        CommitKeeps(p.initial, l, i, call, header, resolution);
        CommitFrame(l, i, call, header, resolution);
      }
    }
  }

  lemma {:induction false} CommitFrame(lib: Lib, i: nat, call: Call, header: Option<int>, resolution: Option<int>)
    ensures
      var (lib', ok) := Commit(lib, i, call, header, resolution);
      && lib'.log == lib.log + [Entry(i, call, ok, header, resolution)]
      && lib'.family == (if resolution.Some? then resolution.value else lib.family)
      && lib' == lib.(table := lib'.table, log := lib'.log, family := lib'.family)
  {
  }

  lemma {:induction false} HeaderSnoc(p: Params, log: seq<Entry>, e: Entry)
    ensures HeaderAfter(p, log + [e]) == (if e.resolution.Some? then e.resolution.value else HeaderAfter(p, log))
  {
    var rs := Resolutions(log + [e]);
    assert rs[..|rs| - 1] == Resolutions(log) && rs[|rs| - 1] == e.resolution;
  }

  /** Appending an entry addressed as the global family says keeps the family part of the invariant. */
  lemma {:induction false} FamilySnoc(p: Params, lib: Lib, e: Entry, lib': Lib, holder: Option<Pc>)
    requires FamilyKept(p, lib, None) && Addressed(p, e, lib.family) && !(holder.Some? && holder.value.Connected?)
    requires lib'.log == lib.log + [e]
    requires lib'.family == (if e.resolution.Some? then e.resolution.value else lib.family)
    ensures FamilyKept(p, lib', holder)
  {
    hide HeaderAfter, Addressed;
    HeaderSnoc(p, lib.log, e);
    forall k | 0 <= k < |lib'.log|
      ensures Addressed(p, lib'.log[k], HeaderAfter(p, lib'.log[..k]))
    {
      if k < |lib.log| {
        assert lib'.log[..k] == lib.log[..k];
      } else {
        assert lib'.log[..k] == lib.log;
      }
    }
  }

  /** The family part of a step behind `ipvs_mutex`. */
  lemma {:induction false} BackKeepsFamily(p: Params, lib: Lib, i: nat, pc: Pc, c: Choice)
    requires i < |p.clients| && Moves(lib, i, pc) && Justified(p, i, pc) && FamilyKept(p, lib, HolderOf(pc))
    ensures
      var (lib', pc') := Back(p, lib, i, pc, c);
      FamilyKept(p, lib', HolderOf(pc'))
  {
    hide FamilyKept, HeaderAfter, W.UpdateFor, W.CommandFor, AsString, CStr, Succeeds, After, Wanted, Judged;
    var (lib', pc') := Back(p, lib, i, pc, c);
    ForgetHolder(p, lib, HolderOf(pc));
    if lib'.log == lib.log {
      SameFamily(p, lib, lib', HolderOf(pc'));
    } else {
      var e := lib'.log[|lib.log|];
      assert lib'.log == lib.log + [e];
      FamilySnoc(p, lib, e, lib', HolderOf(pc'));
    }
  }

  lemma {:induction false} ForgetHolder(p: Params, lib: Lib, holder: Option<Pc>)
    requires FamilyKept(p, lib, holder)
    ensures FamilyKept(p, lib, None)
    ensures holder.Some? && holder.value.Connected? ==> holder.value.header == lib.family
  {
    hide HeaderAfter, Addressed;
  }

  lemma {:induction false} SameFamily(p: Params, lib: Lib, lib': Lib, holder: Option<Pc>)
    requires FamilyKept(p, lib, None) && lib'.log == lib.log && lib'.family == lib.family
    requires holder.Some? && holder.value.Connected? ==> holder.value.header == lib'.family
    ensures FamilyKept(p, lib', holder)
  {
    hide HeaderAfter, Addressed;
  }

  lemma {:induction false} BackKeepsSockets(p: Params, lib: Lib, i: nat, pc: Pc, c: Choice)
    requires i < |p.clients| && Moves(lib, i, pc) && SocketsOwned(lib, HolderOf(pc))
    ensures
      var (lib', pc') := Back(p, lib, i, pc, c);
      SocketsOwned(lib', HolderOf(pc'))
  {
    hide Succeeds, After, W.UpdateFor, W.CommandFor, AsString, CStr;
    var (lib', pc') := Back(p, lib, i, pc, c);
    if pc.Marked? {
      assert lib.open == {};
    }
  }

  /** Who is where, and what is recorded, after a step behind `ipvs_mutex`. */
  lemma {:induction false} BackFacts(p: Params, lib: Lib, i: nat, pc: Pc, c: Choice)
    requires i < |p.clients| && Moves(lib, i, pc)
    ensures
      var (lib', pc') := Back(p, lib, i, pc, c);
      && lib'.owner == (if HoldsIpvs(pc') then Some(i) else None)
      && lib'.order == lib.order + (if pc.Waiting? then [i] else [])
      && Entered(pc') && !HoldsConfig(pc')
      && (Committed(pc) || !Committed(pc') ==> lib'.log == lib.log)
      && (!Committed(pc) && Committed(pc') ==>
            |lib'.log| == |lib.log| + 1 && lib'.log[..|lib.log|] == lib.log
            && lib'.log[|lib.log|].tid == i && Matches(pc', lib'.log[|lib.log|]))
      && (Committed(pc) ==> forall e | Matches(pc, e) :: Matches(pc', e))
  {
    hide Succeeds, After, W.UpdateFor, W.CommandFor, AsString, CStr;
  }

  lemma {:induction false} BackJustified(p: Params, lib: Lib, i: nat, pc: Pc, c: Choice)
    requires i < |p.clients| && Moves(lib, i, pc) && Justified(p, i, pc)
    ensures Justified(p, i, Back(p, lib, i, pc, c).1)
  {
    hide Succeeds, After, W.UpdateFor, W.CommandFor, AsString, CStr, Validate;
  }

  lemma {:induction false} FrontFacts(p: Params, config: Option<nat>, i: nat, pc: Pc)
    requires i < |p.clients| && InFront(pc) && (if HoldsConfig(pc) then config == Some(i) else pc.Checking? || config.None?)
    requires Justified(p, i, pc)
    ensures
      var (config', pc') := Front(p, config, i, pc);
      && Justified(p, i, pc') && !Entered(pc') && !Committed(pc')
      && (if pc.Checking? then config' == config && !HoldsConfig(pc')
          else config' == (if HoldsConfig(pc') then Some(i) else None))
  {
    hide Validate, W.UpdateFor, AsString, CStr;
  }

  // ---- the whole system ---------------------------------------------------

  predicate Locks(s: State) {
    && (s.config.Some? ==> s.config.value < |s.threads|)
    && (s.lib.owner.Some? ==> s.lib.owner.value < |s.threads|)
    && forall j: nat | j < |s.threads| ::
         && (HoldsConfig(s.threads[j]) <==> s.config == Some(j))
         && (HoldsIpvs(s.threads[j]) <==> s.lib.owner == Some(j))
  }

  function Holder(s: State): (h: Option<Pc>) {
    if s.lib.owner.Some? && s.lib.owner.value < |s.threads| then Some(s.threads[s.lib.owner.value]) else None
  }

  predicate Distinct(order: seq<nat>) {
    forall a, b | 0 <= a < b < |order| :: order[a] != order[b]
  }

  /** The history is about the threads, and each occurs once. */
  predicate Tracked(s: State) {
    && (forall k | 0 <= k < |s.lib.order| :: s.lib.order[k] < |s.threads|)
    && (forall j: nat | j < |s.threads| :: Entered(s.threads[j]) <==> j in s.lib.order)
    && Distinct(s.lib.order)
    && (forall k | 0 <= k < |s.lib.log| ::
          s.lib.log[k].tid < |s.threads| && Matches(s.threads[s.lib.log[k].tid], s.lib.log[k]))
  }

  predicate AllJustified(p: Params, s: State) {
    |s.threads| == |p.clients| && forall j: nat | j < |s.threads| :: Justified(p, j, s.threads[j])
  }

  ghost predicate Inv(p: Params, s: State) {
    && AllJustified(p, s) && Locks(s) && Tracked(s) && Guarded(p, s.lib, Holder(s))
  }

  lemma {:induction false} InitInv(p: Params)
    ensures Inv(p, Init(p))
  {
  }

  lemma {:induction false} JustifiedStep(p: Params, s: State, i: nat, c: Choice)
    requires AllJustified(p, s) && Locks(s) && Enabled(p, s, i)
    ensures AllJustified(p, Next(p, s, i, c))
  {
    hide Justified, Front, Back;
    if InFront(s.threads[i]) {
      FrontFacts(p, s.config, i, s.threads[i]);
    } else {
      BackJustified(p, s.lib, i, s.threads[i], c);
    }
  }

  lemma {:induction false} LocksStep(p: Params, s: State, i: nat, c: Choice)
    requires AllJustified(p, s) && Locks(s) && Enabled(p, s, i)
    ensures Locks(Next(p, s, i, c))
  {
    hide Justified, Front, Back, Matches;
    if InFront(s.threads[i]) {
      FrontFacts(p, s.config, i, s.threads[i]);
    } else {
      BackFacts(p, s.lib, i, s.threads[i], c);
    }
  }

  lemma {:induction false} GuardedStep(p: Params, s: State, i: nat, c: Choice)
    requires AllJustified(p, s) && Locks(s) && Enabled(p, s, i) && Guarded(p, s.lib, Holder(s))
    ensures
      var s' := Next(p, s, i, c);
      Guarded(p, s'.lib, Holder(s'))
  {
    hide Justified, Front, Back, Matches, Sequential, SocketsOwned, FamilyKept, Tids;
    var pc := s.threads[i];
    if InFront(pc) {
      assert s.lib.owner != Some(i);
      assert Holder(Next(p, s, i, c)) == Holder(s);
    } else {
      assert HolderOf(pc) == Holder(s);
      BackKeepsHistory(p, s.lib, i, pc, c);
      BackKeepsSockets(p, s.lib, i, pc, c);
      BackKeepsFamily(p, s.lib, i, pc, c);
      BackFacts(p, s.lib, i, pc, c);
      assert Holder(Next(p, s, i, c)) == HolderOf(Back(p, s.lib, i, pc, c).1);
    }
  }

  lemma {:induction false} TrackedStep(p: Params, s: State, i: nat, c: Choice)
    requires AllJustified(p, s) && Locks(s) && Tracked(s) && Enabled(p, s, i)
    ensures Tracked(Next(p, s, i, c))
  {
    hide Justified, Front, Back;
    var pc := s.threads[i];
    if InFront(pc) {
      FrontFacts(p, s.config, i, pc);
    } else {
      BackFacts(p, s.lib, i, pc, c);
    }
  }

  lemma {:induction false} StepKeepsInv(p: Params, s: State, i: nat, c: Choice)
    requires Inv(p, s) && Enabled(p, s, i)
    ensures Inv(p, Next(p, s, i, c))
  {
    hide AllJustified, Locks, Tracked, Guarded, Enabled, Next;
    JustifiedStep(p, s, i, c);
    LocksStep(p, s, i, c);
    TrackedStep(p, s, i, c);
    GuardedStep(p, s, i, c);
  }

  /** Every interleaving of any number of threads keeps the invariant. */
  lemma {:induction false} Invariant(p: Params, s: State, schedule: Schedule)
    requires Inv(p, s)
    ensures Inv(p, Exec(p, s, schedule))
  {
    hide Locks, Tracked, Guarded, Enabled, Next;
    if schedule != [] {
      var n := |schedule| - 1;
      Invariant(p, s, schedule[..n]);
      var before := Exec(p, s, schedule[..n]);
      if Enabled(p, before, schedule[n].0) {
        StepKeepsInv(p, before, schedule[n].0, schedule[n].1);
      }
    }
  }
}
