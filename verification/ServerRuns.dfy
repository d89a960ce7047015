/** Runs in which one request is handled from start to end while the other threads stand still. */
module ServerRuns {
  import opened Options
  import opened CText
  import opened RequestHandling
  import opened Kernel
  import opened Server
  import opened ServerInvariant
  import L = Libipvs
  import W = SetWeight

  /** Everything goes well. */
  const LUCKY := Choice(true, true, Some(true), Acknowledged)

  /** Thread `i` moves `n` times, under one choice of the environment. */
  function Repeat(i: nat, c: Choice, n: nat): (schedule: Schedule) {
    if n == 0 then [] else Repeat(i, c, n - 1) + [(i, c)]
  }

  /** `s` with thread `i` elsewhere. */
  function Moved(s: State, i: nat, config: Option<nat>, lib: Lib, pc: Pc): (s': State)
    requires i < |s.threads|
  {
    State(config, lib, s.threads[i := pc])
  }

  /** No mutex is held, nobody is at work and thread `i` has not begun. */
  predicate Fresh(p: Params, s: State, i: nat) {
    && |s.threads| == |p.clients| && i < |s.threads| && s.threads[i] == Ready
    && s.config.None? && s.lib.owner.None?
    && forall j | 0 <= j < |s.threads| :: !Busy(s.threads[j])
  }

  lemma {:induction false} NoneBusy(threads: seq<Pc>)
    requires forall j | 0 <= j < |threads| :: !Busy(threads[j])
    ensures CountBusy(threads) == 0
  {
    if threads != [] {
      NoneBusy(threads[1..]);
    }
  }

  lemma {:induction false} ExecSnoc(p: Params, s: State, i: nat, c: Choice, n: nat)
    requires |s.threads| == |p.clients| && Enabled(p, Exec(p, s, Repeat(i, c, n)), i)
    ensures Exec(p, s, Repeat(i, c, n + 1)) == Next(p, Exec(p, s, Repeat(i, c, n)), i, c)
  {
    hide Enabled, Next;
    var longer := Repeat(i, c, n + 1);
    assert longer[..|longer| - 1] == Repeat(i, c, n);
  }

  lemma {:induction false} FrontStep(p: Params, s: State, i: nat, c: Choice, n: nat, config: Option<nat>, pc: Pc)
    requires Fresh(p, s, i) && InFront(pc) && (pc.Ready? ==> config.None?)
    requires Exec(p, s, Repeat(i, c, n)) == Moved(s, i, config, s.lib, pc)
    ensures
      var (config', pc') := Front(p, config, i, pc);
      Exec(p, s, Repeat(i, c, n + 1)) == Moved(s, i, config', s.lib, pc')
  {
    hide Exec, Front, Back, Repeat, CountBusy;
    if pc.Ready? {
      NoneBusy(s.threads[i := pc]);
    }
    ExecSnoc(p, s, i, c, n);
    var pc' := Front(p, config, i, pc).1;
    assert s.threads[i := pc][i := pc'] == s.threads[i := pc'];
  }

  lemma {:induction false} BackStep(p: Params, s: State, i: nat, c: Choice, n: nat, lib: Lib, pc: Pc)
    requires Fresh(p, s, i) && !InFront(pc) && !Finished(pc) && (pc.Waiting? ==> lib.owner.None?)
    requires Exec(p, s, Repeat(i, c, n)) == Moved(s, i, None, lib, pc)
    ensures
      var (lib', pc') := Back(p, lib, i, pc, c);
      Exec(p, s, Repeat(i, c, n + 1)) == Moved(s, i, None, lib', pc')
  {
    hide Exec, Front, Back, Repeat;
    ExecSnoc(p, s, i, c, n);
    var pc' := Back(p, lib, i, pc, c).1;
    assert s.threads[i := pc][i := pc'] == s.threads[i := pc'];
  }

  /** The library's state once thread `i` has taken the mutex. */
  function Taken(lib: Lib, i: nat): (lib': Lib) {
    lib.(owner := Some(i), order := lib.order + [i])
  }

  /** An accepted request gets into the library in five steps. */
  lemma {:induction false} AloneToInside(p: Params, s: State, i: nat, c: Choice)
    requires Fresh(p, s, i) && Judged(p, i).Accept?
    ensures Exec(p, s, Repeat(i, c, 5)) ==
            Moved(s, i, None, Taken(s.lib, i), Inside(p.vip, Judged(p, i).host, Judged(p, i).weight))
  {
    hide Exec, Validate, Repeat;
    assert Exec(p, s, Repeat(i, c, 0)) == Moved(s, i, None, s.lib, Ready) by {
      ExecNothing(p, s, i, c);
    }
    FrontStep(p, s, i, c, 0, None, Ready);
    FrontStep(p, s, i, c, 1, Some(i), ConfigHeld);
    FrontStep(p, s, i, c, 2, Some(i), ConfigCopied(p.apiKey, p.vip));
    FrontStep(p, s, i, c, 3, None, Checking(p.apiKey, p.vip));
    BackStep(p, s, i, c, 4, s.lib, Waiting(p.vip, Judged(p, i).host, Judged(p, i).weight));
  }

  lemma {:induction false} ExecNothing(p: Params, s: State, i: nat, c: Choice)
    requires Fresh(p, s, i)
    ensures Exec(p, s, Repeat(i, c, 0)) == Moved(s, i, None, s.lib, Ready)
  {
    assert s.threads[i := Ready] == s.threads;
  }

  /** The library's state, and the result, of an exchange carried through from `Taken`. */
  function Exchanged(p: Params, lib: Lib, i: nat, u: Update, c: Choice): (r: (Lib, bool)) {
    var held := Taken(lib, i).(func := L.FUpdateDest, sock := Some(lib.next), next := lib.next + 1, open := {lib.next});
    Commit(held, i, Call(Some(u), ExchangeFate(p, lib.family, Resolution(p, c), c.fate)),
           Some(lib.family), Resolution(p, c))
  }

  /** A request that asks for an update is handled in eleven steps, and leaves no lock behind. */
  lemma {:induction false} ServedAlone(p: Params, s: State, i: nat, c: Choice)
    requires Fresh(p, s, i) && s.lib.open == {} && p.netlink && c.messageBuilt && c.socketOpens
    requires Callable(p, i) && Wanted(p, i).Some?
    ensures
      var (lib, ok) := Exchanged(p, s.lib, i, Wanted(p, i).value, c);
      var s' := Exec(p, s, Repeat(i, c, 11));
      && s'.config.None? && s'.lib.owner.None? && s'.lib.open == {} && s'.threads[i].Done?
      && s'.lib.log == lib.log && s'.lib.table == lib.table && s'.lib.family == lib.family
      && forall j: nat | j < |s.threads| && j != i :: s'.threads[j] == s.threads[j]
  {
    hide Exec, Repeat, Judged, AsString, W.UpdateFor, W.CommandFor, CStr, Succeeds, After, Resolution, ExchangeFate;
    AloneToInside(p, s, i, c);
    var host, weight := Judged(p, i).host, Judged(p, i).weight;
    var server, u := AsString(host).value, Wanted(p, i).value;
    var lib5 := Taken(s.lib, i);
    BackStep(p, s, i, c, 5, lib5, Inside(p.vip, host, weight));
    BackStep(p, s, i, c, 6, lib5, Named(p.vip, server, weight));
    W.UpdateNeedsCommand(p.netlink, p.clients[i].net, CStr(p.vip), CStr(server), weight);
    var lib7 := lib5.(func := L.FUpdateDest);
    BackStep(p, s, i, c, 7, lib7, Marked(u));
    FromMarked(p, s, i, c, lib7, u);
  }

  /** The last four steps. */
  lemma {:induction false} FromMarked(p: Params, s: State, i: nat, c: Choice, lib: Lib, u: Update)
    requires Fresh(p, s, i) && lib.open == {} && p.netlink && c.messageBuilt && c.socketOpens
    requires
      var (lib', pc') := Back(p, lib, i, Marked(u), c);
      Exec(p, s, Repeat(i, c, 8)) == Moved(s, i, None, lib', pc')
    ensures
      var held := lib.(sock := Some(lib.next), next := lib.next + 1, open := {lib.next});
      var (done, ok) := Commit(held, i, Call(Some(u), ExchangeFate(p, lib.family, Resolution(p, c), c.fate)),
                               Some(lib.family), Resolution(p, c));
      var s' := Exec(p, s, Repeat(i, c, 11));
      && s'.config.None? && s'.lib.owner.None? && s'.lib.open == {} && s'.threads[i].Done?
      && s'.lib.log == done.log && s'.lib.table == done.table && s'.lib.family == done.family
      && forall j: nat | j < |s.threads| && j != i :: s'.threads[j] == s.threads[j]
  {
    hide Exec, Repeat, W.UpdateFor, W.CommandFor, CStr, AsString, Succeeds, After, Resolution, ExchangeFate;
    var held := lib.(sock := Some(lib.next), next := lib.next + 1, open := {lib.next});
    assert lib.open + {lib.next} == {lib.next};
    var pc8 := Connected(u, lib.next, lib.family);
    BackStep(p, s, i, c, 8, held, pc8);
    var (lib9, pc9) := Back(p, held, i, pc8, c);
    BackStep(p, s, i, c, 9, lib9, pc9);
    var (lib10, pc10) := Back(p, lib9, i, pc9, c);
    assert lib10.open == {};
    BackStep(p, s, i, c, 10, lib10, pc10);
  }
}
