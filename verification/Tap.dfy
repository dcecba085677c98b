/**
 The TAP factory as an object that changes the host in place (internal/network/tap.go): Setup,
 Recreate, apply with its deferred cleanup, and Teardown.
 */
module Tap {
  import opened Basics
  import opened Address
  import opened Links
  import opened HostNetwork
  import Egress
  import Policy

  /** A command that does not exist is not issued. */
  function Logged(log: seq<Cmd>, cmd: Cmd): seq<Cmd> {
    if cmd == Nothing then log else log + [cmd]
  }

  /** What apply issues while it tries its first `k` commands. */
  function Issued(link: Link, rules: seq<Egress.Rule>, k: nat): seq<Cmd>
    requires k <= STEPS
  {
    if k == 0 then [] else Logged(Issued(link, rules, k - 1), Command(link, rules, k - 1))
  }

  function TableAndRouteScript(link: Link): seq<Cmd> {
    (if link.table != "" then [NftDelete(link.table)] else [])
    + (if GuestSubnet(link).Some? then [RouteDel(GuestSubnet(link).value)] else [])
  }

  function DevicesScript(link: Link): seq<Cmd> {
    (if link.netns != "" then [NetnsDel(link.netns)] else if link.name != "" then [LinkDel(link.name)] else [])
    + (if link.hostVeth != "" then [LinkDel(link.hostVeth)] else [])
  }

  /** What Teardown issues. */
  function TeardownScript(link: Link): seq<Cmd> {
    TableAndRouteScript(link) + DevicesScript(link)
  }

  /** Teardown reports an error exactly when the table or the namespace (without one, the TAP) cannot be removed. */
  predicate TeardownReports(net: Net, link: Link) {
    || (link.table != "" && link.table !in net.tables)
    || (link.netns != "" && link.netns !in net.spaces)
    || (link.netns == "" && link.name != "" && Port(Root, link.name) !in net.devs)
  }

  /**
   One apply: `done` commands went through. All of them, and the link stays; or the next one
   stopped the build, and Teardown ran.
   */
  ghost predicate Applied(base: Net, net: Net, issued: seq<Cmd>, link: Link, rules: seq<Egress.Rule>, refuses: Refusals,
                          ok: bool, done: nat)
  {
    && done <= STEPS && (ok <==> done == STEPS)
    && Reached(base, link, rules, refuses, done).Some?
    && var n := Reached(base, link, rules, refuses, done).value;
       if ok then net == n && issued == Issued(link, rules, STEPS)
       else && Reached(base, link, rules, refuses, done + 1).None?
            && net == Teardown(n, link) && issued == Issued(link, rules, done + 1) + TeardownScript(link)
  }

  class TAP {
    var net: Net
    var seqno: Word32          // the allocation counter
    ghost var log: seq<Cmd>    // the commands issued so far

    constructor (net: Net)
      ensures this.net == net && seqno == 0 && log == []
    {
      this.net := net;
      seqno := 0;
      log := [];
    }

    method Run(cmd: Cmd, refuse: bool) returns (ok: bool)
      modifies this`net, this`log
      ensures ok <==> !refuse && Exec(old(net), cmd).Some?
      ensures net == if ok then Exec(old(net), cmd).value else old(net)
      ensures log == old(log) + [cmd]
    {
      var r := Exec(net, cmd);
      ok := !refuse && r.Some?;
      if ok {
        net := r.value;
      }
      log := log + [cmd];
    }

    /** A command of Teardown, if it applies. */
    method RunIf(applies: bool, cmd: Cmd) returns (ok: bool)
      modifies this`net, this`log
      ensures net == if applies then Try(old(net), cmd) else old(net)
      ensures log == old(log) + if applies then [cmd] else []
      ensures ok <==> (applies ==> Exec(old(net), cmd).Some?)
    {
      ok := true;
      if applies { ok := Run(cmd, false); }
    }

    method RemoveTableAndRoute(link: Link) returns (ok: bool)
      modifies this`net, this`log
      ensures net == WithoutTableAndRoute(old(net), link)
      ensures log == old(log) + TableAndRouteScript(link)
      ensures ok <==> link.table == "" || link.table in old(net).tables
    {
      var subnet := GuestSubnet(link);
      ok := RunIf(link.table != "", NftDelete(link.table));
      var _ := RunIf(subnet.Some?, if subnet.Some? then RouteDel(subnet.value) else Nothing);
    }

    method RemoveDevices(link: Link) returns (ok: bool)
      modifies this`net, this`log
      ensures net == WithoutDevices(old(net), link)
      ensures log == old(log) + DevicesScript(link)
      ensures ok <==> if link.netns != "" then link.netns in old(net).spaces
                      else link.name == "" || Port(Root, link.name) in old(net).devs
    {
      var cmd := if link.netns != "" then NetnsDel(link.netns) else LinkDel(link.name);
      ok := RunIf(link.netns != "" || link.name != "", cmd);
      var _ := RunIf(link.hostVeth != "", LinkDel(link.hostVeth));
    }

    /** Removes whatever is left of a link; every command is tried. */
    method TeardownLink(link: Link) returns (ok: bool)
      modifies this`net, this`log
      ensures net == Teardown(old(net), link)
      ensures log == old(log) + TeardownScript(link)
      ensures ok <==> !TeardownReports(old(net), link)
    {
      var a := RemoveTableAndRoute(link);
      assert net.spaces == old(net).spaces && net.devs == old(net).devs;
      var b := RemoveDevices(link);
      ok := a && b;
    }

    /** The build has come to command `k`. */
    ghost predicate At(base: Net, before: seq<Cmd>, link: Link, rules: seq<Egress.Rule>, refuses: Refusals, k: nat)
      reads this
    {
      k <= STEPS && Reached(base, link, rules, refuses, k) == Some(net) && log == before + Issued(link, rules, k)
    }

    /** The k-th command of apply. When it stops the build, the deferred cleanup runs. */
    method Next(link: Link, rules: seq<Egress.Rule>, k: nat, refuses: Refusals, ghost base: Net, ghost before: seq<Cmd>)
        returns (ok: bool, ghost issued: seq<Cmd>)
      requires k < STEPS && At(base, before, link, rules, refuses, k)
      modifies this`net, this`log
      ensures ok ==> At(base, before, link, rules, refuses, k + 1)
      ensures !ok ==> log == before + issued && Applied(base, net, issued, link, rules, refuses, false, k)
    {
      ReachedNext(base, link, rules, refuses, k, net);
      var cmd := Command(link, rules, k);
      issued := Issued(link, rules, k + 1) + TeardownScript(link);
      if cmd == Nothing { return true, issued; }
      ok := Run(cmd, refuses(k));
      ok := ok || Optional(link, k);
      if !ok {
        var _ := TeardownLink(link);
        assert log == before + issued;
      }
    }

    /** The namespace. */
    method BuildNamespace(link: Link, rules: seq<Egress.Rule>, refuses: Refusals, ghost base: Net,
                          ghost before: seq<Cmd>)
        returns (ok: bool, ghost done: nat, ghost issued: seq<Cmd>)
      requires At(base, before, link, rules, refuses, 0)
      modifies this`net, this`log
      ensures ok ==> At(base, before, link, rules, refuses, 2)
      ensures !ok ==> log == before + issued && Applied(base, net, issued, link, rules, refuses, false, done)
    {
      done := 0;
      ok, issued := Next(link, rules, 0, refuses, base, before);      // netns add
      if !ok { return; }
      done := 1;
      ok, issued := Next(link, rules, 1, refuses, base, before);      // lo up
    }

    /** The TAP, created in the host and moved into the namespace. */
    method BuildTap(link: Link, rules: seq<Egress.Rule>, refuses: Refusals, ghost base: Net, ghost before: seq<Cmd>)
        returns (ok: bool, ghost done: nat, ghost issued: seq<Cmd>)
      requires At(base, before, link, rules, refuses, 2)
      modifies this`net, this`log
      ensures ok ==> At(base, before, link, rules, refuses, 6)
      ensures !ok ==> log == before + issued && Applied(base, net, issued, link, rules, refuses, false, done)
    {
      done := 2;
      ok, issued := Next(link, rules, 2, refuses, base, before);      // tuntap add
      if !ok { return; }
      done := 3;
      ok, issued := Next(link, rules, 3, refuses, base, before);      // move the TAP
      if !ok { return; }
      done := 4;
      ok, issued := Next(link, rules, 4, refuses, base, before);      // TAP address
      if !ok { return; }
      done := 5;
      ok, issued := Next(link, rules, 5, refuses, base, before);      // TAP up
    }

    /** The veth pair between the host and the namespace. */
    method BuildVeth(link: Link, rules: seq<Egress.Rule>, refuses: Refusals, ghost base: Net, ghost before: seq<Cmd>)
        returns (ok: bool, ghost done: nat, ghost issued: seq<Cmd>)
      requires At(base, before, link, rules, refuses, 6)
      modifies this`net, this`log
      ensures ok ==> At(base, before, link, rules, refuses, 12)
      ensures !ok ==> log == before + issued && Applied(base, net, issued, link, rules, refuses, false, done)
    {
      done := 6;
      ok, issued := Next(link, rules, 6, refuses, base, before);      // veth add
      if !ok { return; }
      done := 7;
      ok, issued := Next(link, rules, 7, refuses, base, before);      // move the inner end
      if !ok { return; }
      done := 8;
      ok, issued := Next(link, rules, 8, refuses, base, before);      // host end address
      if !ok { return; }
      done := 9;
      ok, issued := Next(link, rules, 9, refuses, base, before);      // host end up
      if !ok { return; }
      done := 10;
      ok, issued := Next(link, rules, 10, refuses, base, before);     // inner end address
      if !ok { return; }
      done := 11;
      ok, issued := Next(link, rules, 11, refuses, base, before);     // inner end up
    }

    /** Routes, forwarding and the packet filter. */
    method RouteAndFilter(link: Link, rules: seq<Egress.Rule>, refuses: Refusals, ghost base: Net,
                          ghost before: seq<Cmd>)
        returns (ok: bool, ghost done: nat, ghost issued: seq<Cmd>)
      requires At(base, before, link, rules, refuses, 12)
      modifies this`net, this`log
      ensures ok ==> At(base, before, link, rules, refuses, 17)
      ensures !ok ==> log == before + issued && Applied(base, net, issued, link, rules, refuses, false, done)
    {
      done := 12;
      ok, issued := Next(link, rules, 12, refuses, base, before);     // default route
      if !ok { return; }
      done := 13;
      ok, issued := Next(link, rules, 13, refuses, base, before);     // host route, when there is one
      if !ok { return; }
      done := 14;
      ok, issued := Next(link, rules, 14, refuses, base, before);     // sysctl in the host
      if !ok { return; }
      done := 15;
      ok, issued := Next(link, rules, 15, refuses, base, before);     // sysctl in the namespace
      if !ok { return; }
      done := 16;
      ok, issued := Next(link, rules, 16, refuses, base, before);     // load the rules
    }

    /**
     Builds the link, or stops at the first command the host refuses and cleans up. `done` is the
     number of commands that went through and `issued` what was issued.
     */
    method Apply(link: Link, ips: seq<IP>, refuses: Refusals)
        returns (ok: bool, ghost done: nat, ghost issued: seq<Cmd>)
      modifies this`net, this`log
      ensures log == old(log) + issued
      ensures !ValidNetns(link.netns) ==> !ok && net == old(net) && issued == []
      ensures ValidNetns(link.netns) ==>
                Applied(old(net), net, issued, link, Egress.ForwardRules(link, ips), refuses, ok, done)
      ensures old(Start(net, link)) && Addressed(link) && ValidNetns(link.netns) ==>
                (ok <==> old(Fits(net, link)) && Willing(link, refuses))
    {
      ok, done, issued := false, 0, [];
      if !ValidNetns(link.netns) { return; }
      ghost var base, before := net, log;
      var rules := Egress.RenderNFT(link, ips);
      if Start(base, link) && Addressed(link) { BuildSucceedsIff(base, link, rules, refuses); }
      ok, done, issued := BuildNamespace(link, rules, refuses, base, before);
      if !ok { AppliedIff(base, net, issued, link, rules, refuses, ok, done); return; }
      ok, done, issued := BuildTap(link, rules, refuses, base, before);
      if !ok { AppliedIff(base, net, issued, link, rules, refuses, ok, done); return; }
      ok, done, issued := BuildVeth(link, rules, refuses, base, before);
      if !ok { AppliedIff(base, net, issued, link, rules, refuses, ok, done); return; }
      ok, done, issued := RouteAndFilter(link, rules, refuses, base, before);
      if !ok { AppliedIff(base, net, issued, link, rules, refuses, ok, done); return; }
      done, issued := STEPS, Issued(link, rules, STEPS);
    }

    /** A valid, non-empty policy that resolves to at least one address. */
    method Precheck(policy: Policy.Policy, resolver: Policy.Resolver) returns (ips: Option<seq<IP>>)
      ensures ips.Some? <==> Policy.Servable(policy, resolver)
      ensures ips.Some? ==> ips == Policy.Resolution(policy.allowlist, resolver)
    {
      var v := Policy.Validate(policy);
      if v != Policy.Valid || policy.allowlist == [] { return None; }
      ips := Policy.ResolveAllowlist(policy.allowlist, resolver);
      if ips.None? { return; }
      if ips.value == [] {
        assert forall ip :: ip !in ips.value;
        return None;
      }
      assert ips.value[0] in ips.value;
    }

    /** Takes the next index exactly when the policy passes the precheck, and builds that index's link. */
    method Setup(id: string, policy: Policy.Policy, resolver: Policy.Resolver, refuses: Refusals)
        returns (link: Option<Link>, ghost done: nat, ghost issued: seq<Cmd>)
      modifies this
      ensures log == old(log) + issued
      ensures seqno == if Policy.Servable(policy, resolver) then NextIndex(old(seqno)) else old(seqno)
      ensures !Policy.Servable(policy, resolver) || SetupLink(id, seqno).None? ==>
                link.None? && net == old(net) && issued == []
      ensures Policy.Servable(policy, resolver) && SetupLink(id, seqno).Some? ==>
                && (link.Some? ==> link == SetupLink(id, seqno))
                && var l := SetupLink(id, seqno).value;
                   && Applied(old(net), net, issued, l, RulesFor(l, policy, resolver), refuses, link.Some?, done)
                   && (Consistent(old(net)) ==> (link.Some? <==> Fits(old(net), l) && Willing(l, refuses)))
    {
      link, done, issued := None, 0, [];
      var ips := Precheck(policy, resolver);
      if ips.None? { return; }
      seqno := NextIndex(seqno);
      link := SetupLink(id, seqno);
      if link.None? { return; }
      SetupLinksAreNamed(id, seqno);
      var ok;
      ok, done, issued := Apply(link.value, ips.value, refuses);
      if !ok { link := None; }
    }

    /** Rebuilds a stored link under the current policy without allocating anything. */
    method Recreate(link: Link, policy: Policy.Policy, resolver: Policy.Resolver, refuses: Refusals)
        returns (up: Option<Link>, ghost done: nat, ghost issued: seq<Cmd>)
      modifies this`net, this`log
      ensures log == old(log) + issued
      ensures link.name == "" || !Policy.Servable(policy, resolver) || !ValidNetns(FillDerived(link).netns) ==>
                up.None? && net == old(net) && issued == []
      ensures link.name != "" && Policy.Servable(policy, resolver) && ValidNetns(FillDerived(link).netns) ==>
                && (up.Some? ==> up == Some(FillDerived(link)))
                && var l := FillDerived(link);
                   && Applied(old(net), net, issued, l, RulesFor(l, policy, resolver), refuses, up.Some?, done)
                   && (Start(old(net), l) && Addressed(l) ==> (up.Some? <==> Fits(old(net), l) && Willing(l, refuses)))
    {
      up, done, issued := None, 0, [];
      if link.name == "" { return; }
      var ips := Precheck(policy, resolver);
      if ips.None? { return; }
      var l := FillDerived(link);
      var ok;
      ok, done, issued := Apply(l, ips.value, refuses);
      if ok { up := Some(l); }
    }
  }

  /** The rules of a link under a policy. */
  function RulesFor(link: Link, policy: Policy.Policy, resolver: Policy.Resolver): seq<Egress.Rule> {
    var ips := Policy.Resolution(policy.allowlist, resolver);
    if ips.Some? then Egress.ForwardRules(link, ips.value) else []
  }

  /** A link Setup allocates meets the naming conditions of the compensation theorem and has its addresses. */
  lemma SetupLinksAreNamed(id: string, n: nat)
    requires SetupLink(id, n).Some?
    ensures var link := SetupLink(id, n).value;
            FromSetup(link) && Named(link) && Addressed(link) && ValidNetns(link.netns)
  {
    SetupIsWellNamed(SetupLink(id, n).value);
  }

  /**
   The filter guards the link's own way out. After a build of a link of Setup, where no table of its
   name was before, every rule names one device: it is in the host, the guest's subnet leaves through
   it, and its other end is inside the link's namespace.
   */
  lemma RulesGuardTheLink(base: Net, id: string, n: nat, ips: seq<IP>, refuses: Refusals, r: Egress.Rule)
    requires Consistent(base) && SetupLink(id, n).Some? && SetupLink(id, n).value.table !in base.tables
    requires var link := SetupLink(id, n).value;
             var up := Reached(base, link, Egress.ForwardRules(link, ips), refuses, STEPS);
             up.Some? && link.table in up.value.tables && r in up.value.tables[link.table]
    ensures var link := SetupLink(id, n).value;
            var up := Reached(base, link, Egress.ForwardRules(link, ips), refuses, STEPS).value;
            var out := Port(Root, r.dev);
            && out in up.devs
            && up.devs[out].peer.Some? && up.devs[out].peer.value.at == Inner(link.netns)
            && up.devs[out].peer.value in up.devs
            && GuestSubnet(link).Some? && GuestSubnet(link).value in up.routes
            && up.routes[GuestSubnet(link).value] == out
            && Port(Root, link.name) !in up.devs
  {
    SetupLinksAreNamed(id, n);
    var link := SetupLink(id, n).value;
    var rules := Egress.ForwardRules(link, ips);
    SubnetIsRouted(base, link, rules, refuses);
    BuildThenTeardown(base, link, rules, refuses);
    Egress.RulesNameTheDevice(link, ips);
  }

  /**
   What an apply means on a consistent host: it succeeds exactly when the link fits and the host
   refuses nothing that must succeed; then the link is up with its rules; and a failed one leaves
   the host as it was exactly when Teardown has nothing of the host's own to remove and the command
   that failed is not the TAP move.
   */
  lemma AppliedMeans(base: Net, net: Net, issued: seq<Cmd>, link: Link, rules: seq<Egress.Rule>, refuses: Refusals,
                     ok: bool, done: nat)
    requires Start(base, link) && Addressed(link) && Applied(base, net, issued, link, rules, refuses, ok, done)
    ensures ok <==> Fits(base, link) && Willing(link, refuses)
    ensures ok ==> Built(base, net, link, rules, STEPS)
    ensures !ok ==> (net == base.(forward := net.forward) <==> Spared(base, link) && done != 3)
  {
    BuildSucceedsIff(base, link, rules, refuses);
    AppliedIff(base, net, issued, link, rules, refuses, ok, done);
    ReachedIsBuilt(base, link, rules, refuses, done);
    if !ok {
      var n := Reached(base, link, rules, refuses, done).value;
      TeardownRestoresIff(base, n, link, After(link, done));
      TeardownKeepsForwarding(n, link);
    }
  }

  lemma AppliedIff(base: Net, net: Net, issued: seq<Cmd>, link: Link, rules: seq<Egress.Rule>, refuses: Refusals,
                   ok: bool, done: nat)
    requires Applied(base, net, issued, link, rules, refuses, ok, done)
    ensures ok <==> Reached(base, link, rules, refuses, STEPS).Some?
  {
    if !ok && Reached(base, link, rules, refuses, STEPS).Some? {
      var _ := IteratePassed(BuildStep(link, rules, refuses), base, done, STEPS);
    }
  }

  /** What was built and torn down where Teardown has nothing else to remove can be built again. */
  lemma RebuildSucceeds(base: Net, link: Link, rules: seq<Egress.Rule>, refuses: Refusals, again: Refusals)
    requires Start(base, link) && Addressed(link) && Reached(base, link, rules, refuses, STEPS).Some?
    requires Spared(base, link) && Willing(link, again)
    ensures Reached(Teardown(Reached(base, link, rules, refuses, STEPS).value, link), link, rules, again, STEPS).Some?
  {
    BuildSucceedsIff(base, link, rules, refuses);
    BuildThenTeardown(base, link, rules, refuses);
    var n := Reached(base, link, rules, refuses, STEPS).value;
    BuildSucceedsIff(base.(forward := n.forward), link, rules, again);
  }

  /** The first part of a session's life: its link is built, written into a record and torn down. */
  method SetupAndSave(t: TAP, id: string, rec: Record, policy: Policy.Policy, resolver: Policy.Resolver,
                      refuses: Refusals)
      returns (first: Option<Link>, saved: Record, ghost issued: seq<Cmd>)
    modifies t
    ensures first.Some? ==>
              && first == SetupLink(id, t.seqno) && saved == FillRecordNetwork(rec, first)
              && var rules := RulesFor(first.value, policy, resolver);
                 && issued == Issued(first.value, rules, STEPS)
                 && t.log == old(t.log) + issued + TeardownScript(first.value)
                 && Reached(old(t.net), first.value, rules, refuses, STEPS).Some?
                 && t.net == Teardown(Reached(old(t.net), first.value, rules, refuses, STEPS).value, first.value)
  {
    ghost var done;
    first, done, issued := t.Setup(id, policy, resolver, refuses);
    saved := FillRecordNetwork(rec, first);
    if first.Some? {
      var _ := t.TeardownLink(first.value);
    }
  }

  /**
   One round of a session's link: Setup builds it, it is written into a record and torn down, and a
   later boot reads it back and recreates it. When the allowlist resolves to the same addresses, the
   same link comes back by the same commands; and where the first build went through and Teardown
   had nothing else to remove, the second goes through.
   */
  method SetupThenRecreate(t: TAP, id: string, rec: Record, policy: Policy.Policy, resolver: Policy.Resolver,
                           later: Policy.Policy, laterResolver: Policy.Resolver, refuses: Refusals, refuses2: Refusals)
      returns (first: Option<Link>, second: Option<Link>, ghost issued: seq<Cmd>, ghost again: seq<Cmd>)
    requires Policy.Resolution(policy.allowlist, resolver) == Policy.Resolution(later.allowlist, laterResolver)
    modifies t
    ensures first.Some? && second.Some? ==>
              && second == first && again == issued
              && issued == Issued(first.value, RulesFor(first.value, policy, resolver), STEPS)
              && t.log == old(t.log) + issued + TeardownScript(first.value) + again
    ensures (first.Some? && Consistent(old(t.net)) && Spared(old(t.net), first.value)
             && Policy.Servable(later, laterResolver) && Willing(first.value, refuses2)) ==> second.Some?
  {
    ghost var done;
    again, second := [], None;
    ghost var base := t.net;
    var saved;
    first, saved, issued := SetupAndSave(t, id, rec, policy, resolver, refuses);
    if first.None? { return; }
    ghost var rules, down := RulesFor(first.value, policy, resolver), t.net;
    SetupLinksAreNamed(id, t.seqno);
    LinkSurvivesRound(rec, first.value);
    second, done, again := t.Recreate(LinkFromRecord(saved).value, later, laterResolver, refuses2);
    if Policy.Servable(later, laterResolver) {
      AppliedIff(down, t.net, again, first.value, rules, refuses2, second.Some?, done);
      if Consistent(base) && Spared(base, first.value) && Willing(first.value, refuses2) {
        RebuildSucceeds(base, first.value, rules, refuses, refuses2);
      }
    }
  }

  // ---- sessions with similar ids ----

  /**
   Two sessions whose ids agree on their first 13 letters and digits cannot be up together: while
   one is, every build of the other fails, and its cleanup removes the host veth of the first.
   */
  lemma SimilarSessionCutsLiveLink(base: Net, vm1: string, a: string, i: nat, rules: seq<Egress.Rule>,
                                   refuses: Refusals,
                                   vm2: string, b: string, j: nat, more: seq<Egress.Rule>, refuses2: Refusals, k: nat)
    requires a != "" && b != "" && SessionCore(a) == SessionCore(b) && k <= STEPS && Consistent(base)
    requires SetupLink(TapID(vm1, a), i).Some? && SetupLink(TapID(vm2, b), j).Some?
    requires Reached(base, SetupLink(TapID(vm1, a), i).value, rules, refuses, STEPS).Some?
    ensures var first, second := SetupLink(TapID(vm1, a), i).value, SetupLink(TapID(vm2, b), j).value;
            var live := Reached(base, first, rules, refuses, STEPS).value;
            var n := Reached(live, second, more, refuses2, k);
            && Port(Root, first.hostVeth) in live.devs
            && (n.Some? ==> k < STEPS && Port(Root, first.hostVeth) !in Teardown(n.value, second).devs)
  {
    SetupLinksAreNamed(TapID(vm1, a), i);
    SetupLinksAreNamed(TapID(vm2, b), j);
    SameDevicesIff(vm1, a, vm2, b);
    CollidingBuildCutsLiveLink(base, SetupLink(TapID(vm1, a), i).value, rules, refuses,
                               SetupLink(TapID(vm2, b), j).value, more, refuses2, k);
  }
}
