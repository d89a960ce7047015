/**
 * The steps a thread takes inside the library, done in one go, have the outcome that
 * `SetWeight.SetWeight` promises under the same answers of the foreign calls.
 */
module ServerCall {
  import opened Machine
  import opened Options
  import opened CText
  import opened Kernel
  import opened Server
  import A = AddressParser
  import L = Libipvs
  import W = SetWeight

  /** The steps of thread `i` until its call has returned; four are always enough. */
  function Solo(p: Params, lib: Lib, i: nat, pc: Pc, c: Choice, steps: nat): (r: (Lib, Pc))
    requires i < |p.clients|
    decreases steps
  {
    if steps == 0 || pc.Returned? then (lib, pc)
    else
      var (lib', pc') := Back(p, lib, i, pc, c);
      Solo(p, lib', i, pc', c, steps - 1)
  }

  /** The step choices that stand for these answers; an unreceived reply may be lost or a refusal. */
  function ChoiceOf(netlink: bool, env: L.Env, lost: bool): (c: Choice) {
    Choice(
      L.UpdateBuilt(env),
      env.sockAlloc,
      if env.connected then Some(env.family >= 0) else None,
      if netlink && !(env.hooked && env.sent) then Unsent
      else if env.received then Acknowledged
      else if netlink && lost then ReplyLost
      else Refused)
  }

  lemma {:induction false} SoloStep(p: Params, lib: Lib, i: nat, pc: Pc, c: Choice, steps: nat)
    requires i < |p.clients| && steps > 0
    ensures Solo(p, lib, i, pc, c, steps) ==
            (if pc.Returned? then (lib, pc)
             else Solo(p, Back(p, lib, i, pc, c).0, i, Back(p, lib, i, pc, c).1, c, steps - 1))
    ensures pc.Returned? || steps == 1 ==>
              Solo(p, lib, i, pc, c, steps) == (if pc.Returned? then (lib, pc) else Back(p, lib, i, pc, c))
  {
    hide Back;
  }

  /** The update's message, if there is one, carries the family of IPVS in its header. */
  predicate Rightly(p: Params, lib: Lib) {
    p.netlink ==> lib.family == p.family
  }

  /**
   * The globals after a call that got to the library: the family as it was last resolved, and after
   * a success still the name of the freed socket.
   */
  predicate Leaves(p: Params, lib: Lib, lib': Lib, env: L.Env, ok: bool) {
    && lib'.family == (if p.netlink && L.UpdateBuilt(env) && env.sockAlloc && env.connected
                       then if env.family >= 0 then p.family else UNRESOLVED
                       else lib.family)
    && lib'.sock == (if !p.netlink || !L.UpdateBuilt(env) then lib.sock else if ok then Some(lib.next) else None)
  }

  /** From a marked update to the return of the call. */
  lemma {:induction false} SoloMarked(p: Params, lib: Lib, i: nat, u: Update, env: L.Env, lost: bool)
    requires i < |p.clients| && lib.open == {}
    ensures
      var c := ChoiceOf(p.netlink, env, lost);
      var (lib', pc') := Solo(p, lib, i, Marked(u), c, 3);
      var reached := !p.netlink || (c.messageBuilt && L.Delivered(env));
      && pc'.Returned? && lib'.open == {} && lib'.owner == lib.owner && lib'.order == lib.order
      && lib'.table == (if reached && Rightly(p, lib) && (env.received || (p.netlink && lost))
                        then Edit(lib.table, u) else lib.table)
      && pc'.ok == (reached && Rightly(p, lib) && env.received && Present(lib.table, u))
      && Leaves(p, lib, lib', env, pc'.ok)
  {
    hide Solo, Edit, Present;
    var c := ChoiceOf(p.netlink, env, lost);
    SoloStep(p, lib, i, Marked(u), c, 3);
    var (lib1, pc1) := Back(p, lib, i, Marked(u), c);
    SoloStep(p, lib1, i, pc1, c, 2);
    if pc1.Connected? {
      assert lib1.sock == Some(lib.next) && lib1.open == {lib.next} && pc1.header == lib.family;
      var (lib2, pc2) := Back(p, lib1, i, pc1, c);
      assert lib2.open == {lib.next} && lib2.sock == Some(lib.next) && pc2.Replied?;
      SoloStep(p, lib2, i, pc2, c, 1);
      var (lib3, pc3) := Back(p, lib2, i, pc2, c);
      assert lib3.open == {} && pc3.Returned?;
    }
    EditAbsent(lib.table, u);
  }

  lemma {:induction false} EditAbsent(t: Table, u: Update)
    ensures !Present(t, u) ==> Edit(t, u) == t
  {
  }

  /**
   * For every answer of the environment the call leaves no socket open and changes the table exactly
   * by the update its request denotes, if that reaches the kernel rightly addressed and is carried
   * out; where the kernel acknowledges only what it carries out, the result is the one `SetWeight`
   * returns.
   */
  lemma {:induction false} SoloIsSetWeight(
    p: Params, lib: Lib, i: nat, vip: string, server: string, weight: i32, env: L.Env, lost: bool)
    requires i < |p.clients| && lib.open == {}
    ensures
      var (lib', pc') := Solo(p, lib, i, Named(vip, server, weight), ChoiceOf(p.netlink, env, lost), 4);
      var cmd := W.CommandFor(p.clients[i].net, CStr(vip), CStr(server), weight);
      && pc'.Returned? && lib'.open == {} && lib'.owner == lib.owner && lib'.order == lib.order
      && if cmd.None? then !pc'.ok && lib'.table == lib.table
         else
           var (svc, dest) := cmd.value;
           var reached := L.UpdateReaches(p.netlink, svc, dest, env);
           && (p.netlink || L.SockoptAccepts(svc, dest) ==> Leaves(p, lib, lib', env, pc'.ok))
           && if !reached then !pc'.ok && lib'.table == lib.table
           else
             var u := Denote(L.UpdateRequest(p.netlink, svc, dest).value);
             && u.Some?
             && lib'.table == (if Rightly(p, lib) && (env.received || (p.netlink && lost))
                               then Edit(lib.table, u.value) else lib.table)
             && pc'.ok == (Rightly(p, lib) && env.received && Present(lib.table, u.value))
  {
    hide Solo, W.CommandFor, W.UpdateFor, L.UpdateRequest, Denote, CStr, Edit, A.Parse;
    var net, v, s := p.clients[i].net, CStr(vip), CStr(server);
    var c := ChoiceOf(p.netlink, env, lost);
    var pc := Named(vip, server, weight);
    SoloStep(p, lib, i, pc, c, 4);
    var (lib1, pc1) := Back(p, lib, i, pc, c);
    SoloStep(p, lib1, i, pc1, c, 3);
    if W.CommandFor(net, v, s, weight).Some? {
      var (svc, dest) := W.CommandFor(net, v, s, weight).value;
      RequestDenotes(p.netlink, net, v, s, weight);
      var marked := lib.(func := L.FUpdateDest);
      if W.UpdateFor(p.netlink, net, v, s, weight).Some? {
        SoloMarked(p, marked, i, W.UpdateFor(p.netlink, net, v, s, weight).value, env, lost);
      }
    }
    W.UpdateNeedsCommand(p.netlink, net, v, s, weight);
  }

  /** A request is made exactly when the update exists, and the update is what it denotes. */
  lemma {:induction false} RequestDenotes(netlink: bool, net: A.Net, vip: string, server: string, weight: i32)
    requires W.CommandFor(net, vip, server, weight).Some?
    ensures
      var (svc, dest) := W.CommandFor(net, vip, server, weight).value;
      var u := W.UpdateFor(netlink, net, vip, server, weight);
      && (u.Some? <==> netlink || L.SockoptAccepts(svc, dest))
      && L.UpdateRequest(netlink, svc, dest).Some? == u.Some?
      && (u.Some? ==> Denote(L.UpdateRequest(netlink, svc, dest).value) == u)
  {
    hide W.CommandFor, Denote, A.Parse, L.SockoptAccepts;
    W.CommandMeaning(net, vip, server, weight);
    var (svc, dest) := W.CommandFor(net, vip, server, weight).value;
    if !netlink && L.SockoptAccepts(svc, dest) {
      SockoptDenotes(svc, dest);
    }
  }
}
