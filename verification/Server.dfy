/**
 * The worker threads of src/http_server.cpp as a step system.  Every thread runs
 * `handle_post_request` for one client; they share `configuration_mutex`, `ipvs_mutex`, the
 * unsynchronised globals of libipvs and the kernel's table.
 */
module Server {
  import opened Machine
  import opened Options
  import opened CText
  import opened RequestHandling
  import opened Kernel
  import A = AddressParser
  import L = Libipvs
  import W = SetWeight

  /** One request: its parsed body, and what name services answer while it is handled. */
  datatype Client = Client(doc: Option<Document>, net: A.Net)

  /** A number of worker threads. */
  type Workers = n: nat | n > 0 witness 1

  /**
   * The configuration, the size of the thread pool, the backend (`try_nl`, set once before any
   * thread starts), the netlink family of IPVS, the table at the start and the requests.
   */
  datatype Params = Params(
    apiKey: string, vip: string, pool: Workers, netlink: bool, family: nat, initial: Table, clients: seq<Client>)

  /** Where a thread is; each step leaves one of these for the next. */
  datatype Pc =
    | Ready
    | ConfigHeld
    | ConfigCopied(apiKey: string, vip: string)
    | Checking(apiKey: string, vip: string)
    | Waiting(vip: string, host: Json, weight: i32)
    | Inside(vip: string, host: Json, weight: i32)
    | Named(vip: string, server: string, weight: i32)
    | Marked(update: Update)
    | Connected(update: Update, handle: nat, header: int)
    | Replied(call: Call, ok: bool, handle: nat)
    | Returned(call: Call, ok: bool)
    | Done(response: Response, outcome: Option<Call>)
    | Crashed
    | CrashedInside

  /**
   * A finished library call in the history, with the family in the header of its message, if a
   * socket was opened for one, and what it resolved the family to, if it got that far.
   */
  datatype Entry = Entry(tid: nat, call: Call, ok: bool, header: Option<int>, resolution: Option<int>)

  /**
   * What `ipvs_mutex` is there to guard: libipvs's globals, the open sockets and the kernel's
   * table, with the order of lock acquisitions and the finished calls as history.
   */
  datatype Lib = Lib(
    owner: Option<nat>, func: L.Func, family: int, sock: Option<nat>, next: nat, open: set<nat>,
    table: Table, order: seq<nat>, log: seq<Entry>)

  datatype State = State(config: Option<nat>, lib: Lib, threads: seq<Pc>)

  /** What the environment decides in a step. */
  datatype Choice = Choice(messageBuilt: bool, socketOpens: bool, resolves: Option<bool>, fate: Fate)

  /** `ipvs_init` has succeeded: with netlink the family is resolved. */
  function Init(p: Params): (s: State) {
    State(None, Lib(None, L.FInit, p.family, None, 0, {}, p.initial, [], []), seq(|p.clients|, _ => Ready))
  }

  predicate Finished(pc: Pc) {
    pc.Done? || pc.Crashed? || pc.CrashedInside?
  }

  /** The thread is at work on its request. */
  predicate Busy(pc: Pc) {
    !pc.Ready? && !Finished(pc)
  }

  function CountBusy(threads: seq<Pc>): (n: nat) {
    if threads == [] then 0 else CountBusy(threads[1..]) + (if Busy(threads[0]) then 1 else 0)
  }

  /** Only the two lock operations wait, and the start of a request waits for a worker of the pool. */
  predicate Enabled(p: Params, s: State, i: nat) {
    && i < |s.threads| && !Finished(s.threads[i])
    && (s.threads[i].Ready? ==> s.config.None? && CountBusy(s.threads) < p.pool)
    && (s.threads[i].Waiting? ==> s.lib.owner.None?)
  }

  /** Up to the checks: the configuration is copied under its mutex. */
  function Front(p: Params, config: Option<nat>, i: nat, pc: Pc): (r: (Option<nat>, Pc))
    requires i < |p.clients|
  {
    match pc
    case Ready => (Some(i), ConfigHeld)
    case ConfigHeld => (config, ConfigCopied(p.apiKey, p.vip))
    case ConfigCopied(apiKey, vip) => (None, Checking(apiKey, vip))
    case Checking(apiKey, vip) =>
      (config,
       match Validate(p.clients[i].doc, apiKey)
       case Accept(host, weight) => Waiting(vip, host, weight)
       case Reject(response) => Done(response, None)
       case Thrown => Crashed)
    case _ => (config, pc)
  }

  /** A setsockopt call answers at once: no reply of it is lost. */
  function Synchronous(fate: Fate): (f: Fate) {
    if fate == ReplyLost then Refused else fate
  }

  /** What a failed resolve leaves in the global family: no family has a negative number. */
  const UNRESOLVED := -1

  /** What a connected socket resolves the family to. */
  function Resolution(p: Params, c: Choice): (r: Option<int>) {
    if c.resolves.None? then None else Some(if c.resolves.value then p.family else UNRESOLVED)
  }

  /** A message goes out once the family resolves; one with another family in its header is refused. */
  function ExchangeFate(p: Params, header: int, resolution: Option<int>, fate: Fate): (f: Fate) {
    if resolution != Some(p.family) then Unsent
    else if header != p.family && fate != Unsent then Refused
    else fate
  }

  /** A call ends: the kernel's table, the global family and the history take it in. */
  function Commit(lib: Lib, i: nat, call: Call, header: Option<int>, resolution: Option<int>): (r: (Lib, bool)) {
    var ok := Succeeds(lib.table, call);
    (lib.(table := After(lib.table, call),
          family := if resolution.Some? then resolution.value else lib.family,
          log := lib.log + [Entry(i, call, ok, header, resolution)]),
     ok)
  }

  /** From `ipvs_mutex.lock()` to `ipvs_mutex.unlock()`; sockets go through the global `sock`. */
  function Back(p: Params, lib: Lib, i: nat, pc: Pc, c: Choice): (r: (Lib, Pc))
    requires i < |p.clients|
  {
    match pc
    case Waiting(vip, host, weight) =>
      (lib.(owner := Some(i), order := lib.order + [i]), Inside(vip, host, weight))
    case Inside(vip, host, weight) =>
      (lib, match AsString(host)
            case Some(server) => Named(vip, server, weight)
            case None => CrashedInside)
    case Named(vip, server, weight) =>
      var net, v, s := p.clients[i].net, CStr(vip), CStr(server);
      var marked := if W.CommandFor(net, v, s, weight).Some? then lib.(func := L.FUpdateDest) else lib;
      (match W.UpdateFor(p.netlink, net, v, s, weight)
       case Some(update) => (marked, Marked(update))
       case None =>
         var call := Call(None, Unsent);
         var (lib', ok) := Commit(marked, i, call, None, None);
         (lib', Returned(call, ok)))
    case Marked(update) =>
      if !p.netlink || !c.messageBuilt || !c.socketOpens then
        var call := Call(Some(update), if p.netlink then Unsent else Synchronous(c.fate));
        var (lib', ok) := Commit(if p.netlink && c.messageBuilt then lib.(sock := None) else lib, i, call, None, None);
        (lib', Returned(call, ok))
      else
        // the header was written when the message was built, before the family is resolved again
        (lib.(sock := Some(lib.next), next := lib.next + 1, open := lib.open + {lib.next}),
         Connected(update, lib.next, lib.family))
    case Connected(update, handle, header) =>
      // the exchange uses whatever socket the global names, if that one is still open
      var usable := lib.sock.Some? && lib.sock.value in lib.open;
      var resolution := if usable then Resolution(p, c) else None;
      var call := Call(Some(update), ExchangeFate(p, header, resolution, c.fate));
      var (lib', ok) := Commit(lib, i, call, Some(header), resolution);
      (lib', Replied(call, ok, handle))
    case Replied(call, ok, handle) =>
      // the socket the global names is freed; the global is only reset on failure
      (lib.(open := lib.open - (if lib.sock.Some? then {lib.sock.value} else {}),
            sock := if ok then lib.sock else None),
       Returned(call, ok))
    case Returned(call, ok) =>
      (lib.(owner := None), Done(if ok then OK else NOT_SET, Some(call)))
    case _ => (lib, pc)
  }

  predicate InFront(pc: Pc) {
    pc.Ready? || pc.ConfigHeld? || pc.ConfigCopied? || pc.Checking?
  }

  /** One step of thread `i`. */
  function Next(p: Params, s: State, i: nat, c: Choice): (s': State)
    requires |s.threads| == |p.clients| && Enabled(p, s, i)
    ensures |s'.threads| == |p.clients|
  {
    if InFront(s.threads[i]) then
      var (config, pc) := Front(p, s.config, i, s.threads[i]);
      s.(config := config, threads := s.threads[i := pc])
    else
      var (lib, pc) := Back(p, s.lib, i, s.threads[i], c);
      s.(lib := lib, threads := s.threads[i := pc])
  }

  /** A schedule: who is to move, and what the environment decides; a blocked thread does not move. */
  type Schedule = seq<(nat, Choice)>

  function Exec(p: Params, s: State, schedule: Schedule): (s': State)
    requires |s.threads| == |p.clients|
    ensures |s'.threads| == |p.clients|
  {
    if schedule == [] then s
    else
      var n := |schedule| - 1;
      var before := Exec(p, s, schedule[..n]);
      if Enabled(p, before, schedule[n].0) then Next(p, before, schedule[n].0, schedule[n].1) else before
  }
}
