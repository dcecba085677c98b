/**
 Building a link on the host and undoing it: `apply` with its deferred cleanup, Teardown, Setup and
 Recreate (internal/network/tap.go).

 Each `ip` or `nft` command is one step of an abstract host that either takes effect or is refused
 without effect. */
module HostNetwork {
  import opened Basics
  import opened Address
  import opened Links
  import Egress

  /** The host's own namespace, or a named one. */
  datatype Space = Root | Inner(ns: string)

  /** A device: where it is and what it is called. */
  datatype Port = Port(at: Space, name: string)

  /** A TAP has no peer; each end of a veth pair names the other. */
  datatype Device = Device(peer: Option<Port>, up: bool, addrs: set<Quad>)

  datatype Namespace = Namespace(loUp: bool, forward: bool, gateway: Option<Quad>)

  datatype Net = Net(
    spaces: map<string, Namespace>,
    devs: map<Port, Device>,
    routes: map<(Quad, nat), Port>,
    tables: map<string, seq<Egress.Rule>>,
    forward: bool)

  datatype Cmd =
    | NetnsAdd(ns: string)
    | LoUp(ns: string)
    | TuntapAdd(name: string)
    | SetNetns(name: string, ns: string)
    | AddrAdd(port: Port, addr: Option<Quad>)
    | LinkUp(port: Port)
    | VethAdd(host: string, peer: string)
    | DefaultRoute(ns: string, via: Option<Quad>)
    | RouteAdd(subnet: (Quad, nat), out: Port)
    | NftLoad(table: string, rules: seq<Egress.Rule>)
    | NftDelete(table: string)
    | RouteDel(subnet: (Quad, nat))
    | NetnsDel(ns: string)
    | LinkDel(name: string)
    | Forward(at: Space)
    | Nothing

  /** A set of devices together with the veth peers of its members. */
  function WithPeers(devs: map<Port, Device>, gone: set<Port>): set<Port> {
    gone + (set p | p in devs && devs[p].peer.Some? && devs[p].peer.value in gone)
  }

  /** Devices vanish with their veth peers and with the routes that leave through them. */
  function Remove(net: Net, gone: set<Port>): Net {
    var all := WithPeers(net.devs, gone);
    net.(devs := net.devs - all, routes := map r | r in net.routes && net.routes[r] !in all :: net.routes[r])
  }

  /** Moving a device between namespaces: its addresses go, its peer follows it by name. */
  function Move(net: Net, src: Port, dst: Port): Net
    requires src in net.devs
  {
    var d := net.devs[src];
    var devs := (net.devs - {src})[dst := Device(d.peer, false, {})];
    if d.peer.Some? && d.peer.value in devs
    then net.(devs := devs[d.peer.value := devs[d.peer.value].(peer := Some(dst))])
    else net.(devs := devs)
  }

  /** One command; None is a refusal, which changes nothing. */
  function Exec(net: Net, cmd: Cmd): Option<Net> {
    match cmd
    case NetnsAdd(ns) =>
      if ns in net.spaces then None else Some(net.(spaces := net.spaces[ns := Namespace(false, false, None)]))
    case LoUp(ns) =>
      if ns !in net.spaces then None else Some(net.(spaces := net.spaces[ns := net.spaces[ns].(loUp := true)]))
    case TuntapAdd(name) =>
      var p := Port(Root, name);
      if p in net.devs then None else Some(net.(devs := net.devs[p := Device(None, false, {})]))
    case SetNetns(name, ns) =>
      if Port(Root, name) !in net.devs || ns !in net.spaces || Port(Inner(ns), name) in net.devs then None
      else Some(Move(net, Port(Root, name), Port(Inner(ns), name)))
    case AddrAdd(p, addr) =>
      if p !in net.devs || addr.None? then None
      else Some(net.(devs := net.devs[p := net.devs[p].(addrs := net.devs[p].addrs + {addr.value})]))
    case LinkUp(p) =>
      if p !in net.devs then None else Some(net.(devs := net.devs[p := net.devs[p].(up := true)]))
    case VethAdd(h, g) =>
      var (p, q) := (Port(Root, h), Port(Root, g));
      if p in net.devs || q in net.devs || p == q then None
      else Some(net.(devs := net.devs[p := Device(Some(q), false, {})][q := Device(Some(p), false, {})]))
    case DefaultRoute(ns, via) =>
      if ns !in net.spaces || via.None? then None
      else Some(net.(spaces := net.spaces[ns := net.spaces[ns].(gateway := via)]))
    case RouteAdd(subnet, out) =>
      if subnet in net.routes || out !in net.devs then None else Some(net.(routes := net.routes[subnet := out]))
    case NftLoad(table, rules) =>
      var before := if table in net.tables then net.tables[table] else [];
      Some(net.(tables := net.tables[table := before + rules]))
    case NftDelete(table) => if table !in net.tables then None else Some(net.(tables := net.tables - {table}))
    case RouteDel(subnet) => if subnet !in net.routes then None else Some(net.(routes := net.routes - {subnet}))
    case NetnsDel(ns) =>
      if ns !in net.spaces then None
      else Some(Remove(net.(spaces := net.spaces - {ns}), set p | p in net.devs && p.at == Inner(ns)))
    case LinkDel(name) => if Port(Root, name) !in net.devs then None else Some(Remove(net, {Port(Root, name)}))
    case Forward(at) =>
      if at == Root then Some(net.(forward := true))
      else if at.ns !in net.spaces then None
      else Some(net.(spaces := net.spaces[at.ns := net.spaces[at.ns].(forward := true)]))
    case Nothing => Some(net)
  }

  /** A command whose error is ignored. */
  function Try(net: Net, cmd: Cmd): Net {
    var r := Exec(net, cmd);
    if r.Some? then r.value else net
  }

  /** Whether the host route of the guest subnet is installed for this link. */
  predicate HasRoute(link: Link) {
    GuestSubnet(link).Some? && link.uplinkNS.Some?
  }

  /** Which commands the host refuses beyond those it must, by position. */
  type Refusals = nat -> bool

  const STEPS: nat := 17

  /** The commands of apply, in order. */
  function Command(link: Link, rules: seq<Egress.Rule>, k: nat): Cmd {
    var inNs := (name: string) => Port(Inner(link.netns), name);
    if k == 0 then NetnsAdd(link.netns)
    else if k == 1 then LoUp(link.netns)
    else if k == 2 then TuntapAdd(link.name)
    else if k == 3 then SetNetns(link.name, link.netns)
    else if k == 4 then AddrAdd(inNs(link.name), link.hostIP)
    else if k == 5 then LinkUp(inNs(link.name))
    else if k == 6 then VethAdd(link.hostVeth, link.nsVeth)
    else if k == 7 then SetNetns(link.nsVeth, link.netns)
    else if k == 8 then AddrAdd(Port(Root, link.hostVeth), link.uplinkHost)
    else if k == 9 then LinkUp(Port(Root, link.hostVeth))
    else if k == 10 then AddrAdd(inNs(link.nsVeth), link.uplinkNS)
    else if k == 11 then LinkUp(inNs(link.nsVeth))
    else if k == 12 then DefaultRoute(link.netns, link.uplinkHost)
    else if k == 13 then
      if HasRoute(link) then RouteAdd(GuestSubnet(link).value, Port(Root, link.hostVeth)) else Nothing
    else if k == 14 then Forward(Root)
    else if k == 15 then Forward(Inner(link.netns))
    else NftLoad(link.table, rules)
  }

  /** The sysctls, whose errors apply ignores, and a host route that is not wanted. */
  predicate Optional(link: Link, k: nat) {
    k == 14 || k == 15 || (k == 13 && !HasRoute(link))
  }

  /** One command of apply on a host that may refuse it; None stops the build. */
  function Attempt(net: Net, cmd: Cmd, refuse: bool, optional: bool): Option<Net> {
    var r := if refuse then None else Exec(net, cmd);
    if r.None? && optional then Some(net) else r
  }

  function BuildStep(link: Link, rules: seq<Egress.Rule>, refuses: Refusals): (nat, Net) -> Option<Net> {
    (k: nat, net: Net) => Attempt(net, Command(link, rules, k), refuses(k), Optional(link, k))
  }

  function Iterate(step: (nat, Net) -> Option<Net>, base: Net, k: nat): Option<Net> {
    if k == 0 then Some(base)
    else
      var n := Iterate(step, base, k - 1);
      if n.None? then None else step(k - 1, n.value)
  }

  /** The host once the first `k` commands were issued; None when one of them stopped the build. */
  function Reached(base: Net, link: Link, rules: seq<Egress.Rule>, refuses: Refusals, k: nat): Option<Net> {
    Iterate(BuildStep(link, rules, refuses), base, k)
  }

  lemma ReachedNext(base: Net, link: Link, rules: seq<Egress.Rule>, refuses: Refusals, k: nat, net: Net)
    requires Reached(base, link, rules, refuses, k) == Some(net)
    ensures Reached(base, link, rules, refuses, k + 1)
            == Attempt(net, Command(link, rules, k), refuses(k), Optional(link, k))
  {
  }

  /** What every step keeps holds wherever the iteration gets. */
  lemma {:induction false} IterateKeeps(step: (nat, Net) -> Option<Net>, base: Net, good: (nat, Net) -> bool, k: nat)
    requires good(0, base) && Iterate(step, base, k).Some?
    requires forall i, n :: 0 <= i < k && good(i, n) && step(i, n).Some? ==> good(i + 1, step(i, n).value)
    ensures good(k, Iterate(step, base, k).value)
  {
    if k > 0 { IterateKeeps(step, base, good, k - 1); }
  }

  /** An iteration that has come to `k` passed every step before. */
  lemma {:induction false} IteratePassed(step: (nat, Net) -> Option<Net>, base: Net, j: nat, k: nat) returns (n: Net)
    requires j < k && Iterate(step, base, k).Some?
    ensures Iterate(step, base, j) == Some(n) && step(j, n).Some?
    decreases k
  {
    if j == k - 1 { n := Iterate(step, base, j).value; } else { n := IteratePassed(step, base, j, k - 1); }
  }

  function WithoutTableAndRoute(net: Net, link: Link): Net {
    var n := if link.table != "" then Try(net, NftDelete(link.table)) else net;
    if GuestSubnet(link).Some? then Try(n, RouteDel(GuestSubnet(link).value)) else n
  }

  function WithoutDevices(net: Net, link: Link): Net {
    var n := if link.netns != "" then Try(net, NetnsDel(link.netns))
             else if link.name != "" then Try(net, LinkDel(link.name)) else net;
    if link.hostVeth != "" then Try(n, LinkDel(link.hostVeth)) else n
  }

  /** Teardown; the errors it collects do not stop it. */
  function Teardown(net: Net, link: Link): Net {
    WithoutDevices(WithoutTableAndRoute(net, link), link)
  }

  // ---- how far a build has come ----

  datatype TapPlace = NoTap | TapInHost | TapInNs
  datatype VethPlace = NoVeth | VethInHost | VethSplit

  datatype Progress = Progress(ns: bool, tap: TapPlace, veth: VethPlace, route: bool, table: bool)

  /** What exists once the first `k` commands have taken effect. */
  function After(link: Link, k: nat): Progress {
    Progress(
      k >= 1,
      if k < 3 then NoTap else if k == 3 then TapInHost else TapInNs,
      if k < 7 then NoVeth else if k == 7 then VethInHost else VethSplit,
      k >= 14 && HasRoute(link),
      k >= 17)
  }

  /** Whether the build has made a device at `p` by now, and if so which peer that device has. */
  function OwnedAt(link: Link, tap: TapPlace, veth: VethPlace, p: Port): Option<Option<Port>> {
    if p == Port(Root, link.name) then if tap == TapInHost then Some(None) else None
    else if p == Port(Inner(link.netns), link.name) then if tap == TapInNs then Some(None) else None
    else if p == Port(Root, link.hostVeth) then
      match veth
      case NoVeth => None
      case VethInHost => Some(Some(Port(Root, link.nsVeth)))
      case VethSplit => Some(Some(Port(Inner(link.netns), link.nsVeth)))
    else if p == Port(Root, link.nsVeth) then
      if veth == VethInHost then Some(Some(Port(Root, link.hostVeth))) else None
    else if p == Port(Inner(link.netns), link.nsVeth) then
      if veth == VethSplit then Some(Some(Port(Root, link.hostVeth))) else None
    else None
  }

  /** At `p` is a new device of the build, or whatever `base` has there. */
  ghost predicate DevAt(base: map<Port, Device>, devs: map<Port, Device>, owned: Option<Option<Port>>, p: Port) {
    if owned.Some? then p !in base && p in devs && devs[p].peer == owned.value
    else (p in devs <==> p in base) && (p in devs ==> devs[p] == base[p])
  }

  /** The devices are those of `base` and the build's own; the names it took were free. */
  ghost predicate DevShape(base: map<Port, Device>, devs: map<Port, Device>, link: Link, tap: TapPlace,
                           veth: VethPlace)
  {
    && (tap != NoTap ==> Port(Root, link.name) !in base)
    && (veth != NoVeth ==> Port(Root, link.hostVeth) !in base && Port(Root, link.nsVeth) !in base)
    && forall p :: DevAt(base, devs, OwnedAt(link, tap, veth, p), p)
  }

  ghost predicate SpaceShape(base: map<string, Namespace>, spaces: map<string, Namespace>, link: Link, ns: bool) {
    if ns then link.netns !in base && link.netns in spaces && spaces - {link.netns} == base else spaces == base
  }

  ghost predicate RouteShape(base: map<(Quad, nat), Port>, routes: map<(Quad, nat), Port>, link: Link, route: bool) {
    if route && GuestSubnet(link).Some?
    then GuestSubnet(link).value !in base && routes == base[GuestSubnet(link).value := Port(Root, link.hostVeth)]
    else routes == base
  }

  ghost predicate TableShape(base: map<string, seq<Egress.Rule>>, tables: map<string, seq<Egress.Rule>>,
                             link: Link, table: bool)
  {
    if table then link.table in tables && tables - {link.table} == base - {link.table} else tables == base
  }

  /** `net` is `base` plus exactly what a build of the link has made so far. */
  ghost predicate Shape(base: Net, net: Net, link: Link, g: Progress) {
    && SpaceShape(base.spaces, net.spaces, link, g.ns)
    && DevShape(base.devs, net.devs, link, g.tap, g.veth)
    && RouteShape(base.routes, net.routes, link, g.route)
    && TableShape(base.tables, net.tables, link, g.table)
  }

  /** Devices are in existing namespaces, veth ends name existing devices, routes leave through existing devices. */
  ghost predicate Consistent(net: Net) {
    && (forall p :: p in net.devs && p.at.Inner? ==> p.at.ns in net.spaces)
    && (forall p :: p in net.devs && net.devs[p].peer.Some? ==> net.devs[p].peer.value in net.devs)
    && (forall r :: r in net.routes ==> net.routes[r] in net.devs)
  }

  /** The names apply relies on. */
  ghost predicate Named(link: Link) {
    && link.netns != "" && link.table != ""
    && link.name != "" && link.hostVeth != "" && link.nsVeth != ""
    && link.name != link.hostVeth && link.name != link.nsVeth && link.hostVeth != link.nsVeth
  }

  ghost predicate Start(base: Net, link: Link) {
    Consistent(base) && Named(link)
  }

  // ---- each command takes the shape one step further ----

  lemma SpaceUpdate(base: map<string, Namespace>, spaces: map<string, Namespace>, link: Link, ns: bool,
                    value: Namespace)
    requires SpaceShape(base, spaces, link, ns) && (!ns ==> link.netns !in spaces)
    ensures SpaceShape(base, spaces[link.netns := value], link, true)
  {
  }

  lemma AddTap(base: map<Port, Device>, devs: map<Port, Device>, link: Link, veth: VethPlace, d: Device)
    requires Named(link) && DevShape(base, devs, link, NoTap, veth) && d.peer.None? && Port(Root, link.name) !in devs
    ensures DevShape(base, devs[Port(Root, link.name) := d], link, TapInHost, veth)
  {
    var src, out := Port(Root, link.name), devs[Port(Root, link.name) := d];
    assert DevAt(base, devs, OwnedAt(link, NoTap, veth, src), src);
    forall p ensures DevAt(base, out, OwnedAt(link, TapInHost, veth, p), p) {
      assert DevAt(base, devs, OwnedAt(link, NoTap, veth, p), p);
    }
  }

  lemma MoveTap(base: map<Port, Device>, devs: map<Port, Device>, link: Link, veth: VethPlace, d: Device)
    requires Named(link) && DevShape(base, devs, link, TapInHost, veth) && d.peer.None?
    requires Port(Inner(link.netns), link.name) !in devs
    ensures var src, dst := Port(Root, link.name), Port(Inner(link.netns), link.name);
            DevShape(base, (devs - {src})[dst := d], link, TapInNs, veth)
  {
    var src, dst := Port(Root, link.name), Port(Inner(link.netns), link.name);
    var out := (devs - {src})[dst := d];
    assert DevAt(base, devs, OwnedAt(link, TapInHost, veth, src), src);
    forall p ensures DevAt(base, out, OwnedAt(link, TapInNs, veth, p), p) {
      assert DevAt(base, devs, OwnedAt(link, TapInHost, veth, p), p);
    }
  }

  lemma AddVeth(base: map<Port, Device>, devs: map<Port, Device>, link: Link, tap: TapPlace, d: Device, e: Device)
    requires Named(link) && DevShape(base, devs, link, tap, NoVeth)
    requires Port(Root, link.hostVeth) !in devs && Port(Root, link.nsVeth) !in devs
    requires d.peer == Some(Port(Root, link.nsVeth)) && e.peer == Some(Port(Root, link.hostVeth))
    ensures DevShape(base, devs[Port(Root, link.hostVeth) := d][Port(Root, link.nsVeth) := e], link, tap, VethInHost)
  {
    var hv, nv := Port(Root, link.hostVeth), Port(Root, link.nsVeth);
    var out := devs[hv := d][nv := e];
    assert DevAt(base, devs, OwnedAt(link, tap, NoVeth, hv), hv);
    assert DevAt(base, devs, OwnedAt(link, tap, NoVeth, nv), nv);
    forall p ensures DevAt(base, out, OwnedAt(link, tap, VethInHost, p), p) {
      assert DevAt(base, devs, OwnedAt(link, tap, NoVeth, p), p);
    }
  }

  lemma MoveVeth(base: map<Port, Device>, devs: map<Port, Device>, link: Link, tap: TapPlace, d: Device, e: Device)
    requires Named(link) && DevShape(base, devs, link, tap, VethInHost)
    requires Port(Inner(link.netns), link.nsVeth) !in devs
    requires d.peer == Some(Port(Root, link.hostVeth)) && e.peer == Some(Port(Inner(link.netns), link.nsVeth))
    ensures var src, dst := Port(Root, link.nsVeth), Port(Inner(link.netns), link.nsVeth);
            DevShape(base, (devs - {src})[dst := d][Port(Root, link.hostVeth) := e], link, tap, VethSplit)
  {
    var src, dst, host := Port(Root, link.nsVeth), Port(Inner(link.netns), link.nsVeth), Port(Root, link.hostVeth);
    var out := (devs - {src})[dst := d][host := e];
    forall p ensures DevAt(base, out, OwnedAt(link, tap, VethSplit, p), p) {
      assert DevAt(base, devs, OwnedAt(link, tap, VethInHost, p), p);
    }
  }

  /** Addresses and flags change no structure. */
  lemma Retouch(base: map<Port, Device>, devs: map<Port, Device>, link: Link, tap: TapPlace, veth: VethPlace,
                q: Port, d: Device)
    requires DevShape(base, devs, link, tap, veth) && OwnedAt(link, tap, veth, q).Some? && q in devs
    requires d.peer == devs[q].peer
    ensures DevShape(base, devs[q := d], link, tap, veth)
  {
    forall p ensures DevAt(base, devs[q := d], OwnedAt(link, tap, veth, p), p) {
      assert DevAt(base, devs, OwnedAt(link, tap, veth, p), p);
    }
  }

  /** What the host has where the build made a device. */
  lemma Owned(base: map<Port, Device>, devs: map<Port, Device>, link: Link, tap: TapPlace, veth: VethPlace, p: Port)
    requires DevShape(base, devs, link, tap, veth)
    ensures DevAt(base, devs, OwnedAt(link, tap, veth, p), p)
  {
  }

  lemma NamespaceCommand(base: Net, net: Net, link: Link, rules: seq<Egress.Rule>, k: nat)
    requires Start(base, link) && Shape(base, net, link, After(link, k)) && (k == 0 || k == 1 || k == 12)
    requires Exec(net, Command(link, rules, k)).Some?
    ensures Shape(base, Exec(net, Command(link, rules, k)).value, link, After(link, k + 1))
  {
    var g, next := After(link, k), Exec(net, Command(link, rules, k)).value;
    SpaceUpdate(base.spaces, net.spaces, link, g.ns, next.spaces[link.netns]);
  }

  lemma TapAddCommand(base: Net, net: Net, link: Link, rules: seq<Egress.Rule>)
    requires Start(base, link) && Shape(base, net, link, After(link, 2))
    requires Exec(net, Command(link, rules, 2)).Some?
    ensures Shape(base, Exec(net, Command(link, rules, 2)).value, link, After(link, 3))
  {
    AddTap(base.devs, net.devs, link, NoVeth, Device(None, false, {}));
  }

  lemma TapMoveCommand(base: Net, net: Net, link: Link, rules: seq<Egress.Rule>)
    requires Start(base, link) && Shape(base, net, link, After(link, 3))
    requires Exec(net, Command(link, rules, 3)).Some?
    ensures Shape(base, Exec(net, Command(link, rules, 3)).value, link, After(link, 4))
  {
    Owned(base.devs, net.devs, link, TapInHost, NoVeth, Port(Root, link.name));
    MoveTap(base.devs, net.devs, link, NoVeth, Device(None, false, {}));
  }

  lemma VethAddCommand(base: Net, net: Net, link: Link, rules: seq<Egress.Rule>)
    requires Start(base, link) && Shape(base, net, link, After(link, 6))
    requires Exec(net, Command(link, rules, 6)).Some?
    ensures Shape(base, Exec(net, Command(link, rules, 6)).value, link, After(link, 7))
  {
    var next := Exec(net, Command(link, rules, 6)).value;
    AddVeth(base.devs, net.devs, link, TapInNs,
            next.devs[Port(Root, link.hostVeth)], next.devs[Port(Root, link.nsVeth)]);
  }

  /** Moving the inner end tells the outer end its new place. */
  lemma VethMoves(base: map<Port, Device>, net: Net, link: Link)
    requires Named(link) && DevShape(base, net.devs, link, TapInNs, VethInHost)
    requires Exec(net, SetNetns(link.nsVeth, link.netns)).Some?
    ensures var src, dst := Port(Root, link.nsVeth), Port(Inner(link.netns), link.nsVeth);
            var host := Port(Root, link.hostVeth);
            && src in net.devs && host in net.devs && dst !in net.devs
            && Exec(net, SetNetns(link.nsVeth, link.netns)).value
               == net.(devs := (net.devs - {src})[dst := Device(Some(host), false, {})]
                               [host := net.devs[host].(peer := Some(dst))])
  {
    Owned(base, net.devs, link, TapInNs, VethInHost, Port(Root, link.nsVeth));
    Owned(base, net.devs, link, TapInNs, VethInHost, Port(Root, link.hostVeth));
  }

  lemma VethMoveCommand(base: Net, net: Net, link: Link, rules: seq<Egress.Rule>)
    requires Start(base, link) && Shape(base, net, link, After(link, 7))
    requires Exec(net, Command(link, rules, 7)).Some?
    ensures Shape(base, Exec(net, Command(link, rules, 7)).value, link, After(link, 8))
  {
    VethMoves(base.devs, net, link);
    var dst, host := Port(Inner(link.netns), link.nsVeth), Port(Root, link.hostVeth);
    MoveVeth(base.devs, net.devs, link, TapInNs, Device(Some(host), false, {}), net.devs[host].(peer := Some(dst)));
  }

  lemma DeviceCommand(base: Net, net: Net, link: Link, rules: seq<Egress.Rule>, k: nat)
    requires Start(base, link) && Shape(base, net, link, After(link, k)) && (k == 4 || k == 5 || 8 <= k <= 11)
    requires Exec(net, Command(link, rules, k)).Some?
    ensures Shape(base, Exec(net, Command(link, rules, k)).value, link, After(link, k + 1))
  {
    var g, next := After(link, k), Exec(net, Command(link, rules, k)).value;
    var p := Command(link, rules, k).port;
    Retouch(base.devs, net.devs, link, g.tap, g.veth, p, next.devs[p]);
  }

  lemma RouteOrTableCommand(base: Net, net: Net, link: Link, rules: seq<Egress.Rule>, k: nat)
    requires Start(base, link) && Shape(base, net, link, After(link, k)) && (k == 13 || k == 16)
    requires Exec(net, Command(link, rules, k)).Some?
    ensures Shape(base, Exec(net, Command(link, rules, k)).value, link, After(link, k + 1))
  {
  }

  lemma ForwardCommand(base: Net, net: Net, link: Link, rules: seq<Egress.Rule>, k: nat)
    requires Start(base, link) && Shape(base, net, link, After(link, k)) && (k == 14 || k == 15)
    requires Exec(net, Command(link, rules, k)).Some?
    ensures Shape(base, Exec(net, Command(link, rules, k)).value, link, After(link, k + 1))
  {
    if k == 15 { SpaceUpdate(base.spaces, net.spaces, link, true, net.spaces[link.netns].(forward := true)); }
  }

  lemma CommandKeepsShape(base: Net, net: Net, link: Link, rules: seq<Egress.Rule>, k: nat)
    requires Start(base, link) && k < STEPS && Shape(base, net, link, After(link, k))
    ensures var r := Exec(net, Command(link, rules, k));
            r.Some? ==> Shape(base, r.value, link, After(link, k + 1))
  {
    if Exec(net, Command(link, rules, k)).Some? {
      if k == 0 || k == 1 || k == 12 { NamespaceCommand(base, net, link, rules, k); }
      else if k == 2 { TapAddCommand(base, net, link, rules); }
      else if k == 3 { TapMoveCommand(base, net, link, rules); }
      else if k == 6 { VethAddCommand(base, net, link, rules); }
      else if k == 7 { VethMoveCommand(base, net, link, rules); }
      else if k == 13 || k == 16 { RouteOrTableCommand(base, net, link, rules, k); }
      else if k == 14 || k == 15 { ForwardCommand(base, net, link, rules, k); }
      else { DeviceCommand(base, net, link, rules, k); }
    }
  }

  // ---- addresses, flags and rules ----

  function AddrSet(addr: Option<Quad>, done: bool): set<Quad> {
    if done && addr.Some? then {addr.value} else {}
  }

  /** Loading rules into an existing table adds to it. */
  function RulesBefore(base: Net, link: Link): seq<Egress.Rule> {
    if link.table in base.tables then base.tables[link.table] else []
  }

  ghost predicate DeviceSet(devs: map<Port, Device>, p: Port, addr: Option<Quad>, addressed: bool, up: bool) {
    p in devs && devs[p].addrs == AddrSet(addr, addressed) && (up ==> devs[p].up)
  }

  /** What the first `k` commands have configured on the devices, the namespace and the table. */
  ghost predicate Configured(base: Net, net: Net, link: Link, rules: seq<Egress.Rule>, k: nat) {
    && (k >= 2 ==> link.netns in net.spaces && net.spaces[link.netns].loUp)
    && (k >= 4 ==> DeviceSet(net.devs, Port(Inner(link.netns), link.name), link.hostIP, k >= 5, k >= 6))
    && (k >= 7 ==> DeviceSet(net.devs, Port(Root, link.hostVeth), link.uplinkHost, k >= 9, k >= 10))
    && (k >= 8 ==> DeviceSet(net.devs, Port(Inner(link.netns), link.nsVeth), link.uplinkNS, k >= 11, k >= 12))
    && (k >= 13 ==> net.spaces[link.netns].gateway == link.uplinkHost)
    && (k >= 17 ==> link.table in net.tables && net.tables[link.table] == RulesBefore(base, link) + rules)
  }

  lemma EarlyConfigures(base: Net, net: Net, link: Link, rules: seq<Egress.Rule>, k: nat)
    requires Start(base, link) && Shape(base, net, link, After(link, k)) && Configured(base, net, link, rules, k)
    requires k <= 3
    requires Exec(net, Command(link, rules, k)).Some?
    ensures Configured(base, Exec(net, Command(link, rules, k)).value, link, rules, k + 1)
  {
    if k == 3 { Owned(base.devs, net.devs, link, TapInHost, NoVeth, Port(Root, link.name)); }
  }

  lemma TapConfigures(base: Net, net: Net, link: Link, rules: seq<Egress.Rule>, k: nat)
    requires Start(base, link) && Configured(base, net, link, rules, k) && 4 <= k <= 6
    requires Exec(net, Command(link, rules, k)).Some?
    ensures Configured(base, Exec(net, Command(link, rules, k)).value, link, rules, k + 1)
  {
  }

  lemma VethMoveConfigures(base: Net, net: Net, link: Link, rules: seq<Egress.Rule>)
    requires Start(base, link) && Shape(base, net, link, After(link, 7)) && Configured(base, net, link, rules, 7)
    requires Exec(net, Command(link, rules, 7)).Some?
    ensures Configured(base, Exec(net, Command(link, rules, 7)).value, link, rules, 8)
  {
    VethMoves(base.devs, net, link);
  }

  lemma UplinkConfigures(base: Net, net: Net, link: Link, rules: seq<Egress.Rule>, k: nat)
    requires Start(base, link) && Configured(base, net, link, rules, k) && 8 <= k <= 11
    requires Exec(net, Command(link, rules, k)).Some?
    ensures Configured(base, Exec(net, Command(link, rules, k)).value, link, rules, k + 1)
  {
  }

  lemma LateConfigures(base: Net, net: Net, link: Link, rules: seq<Egress.Rule>, k: nat)
    requires Start(base, link) && Shape(base, net, link, After(link, k)) && Configured(base, net, link, rules, k)
    requires 12 <= k < STEPS
    requires Exec(net, Command(link, rules, k)).Some?
    ensures Configured(base, Exec(net, Command(link, rules, k)).value, link, rules, k + 1)
  {
  }

  /** What is set after each command is what the commands so far set, and nothing of it is lost. */
  lemma CommandConfigures(base: Net, net: Net, link: Link, rules: seq<Egress.Rule>, k: nat)
    requires Start(base, link) && k < STEPS && Shape(base, net, link, After(link, k))
    requires Configured(base, net, link, rules, k)
    requires Exec(net, Command(link, rules, k)).Some?
    ensures Configured(base, Exec(net, Command(link, rules, k)).value, link, rules, k + 1)
  {
    if k <= 3 { EarlyConfigures(base, net, link, rules, k); }
    else if k <= 6 { TapConfigures(base, net, link, rules, k); }
    else if k == 7 { VethMoveConfigures(base, net, link, rules); }
    else if k <= 11 { UplinkConfigures(base, net, link, rules, k); }
    else { LateConfigures(base, net, link, rules, k); }
  }

  /** The first `k` commands of a build: exactly the link's own objects, configured so far. */
  ghost predicate Built(base: Net, net: Net, link: Link, rules: seq<Egress.Rule>, k: nat) {
    Shape(base, net, link, After(link, k)) && Configured(base, net, link, rules, k)
  }

  /** On any host, a build that has come to command `k` has added its own objects and nothing else. */
  lemma ReachedIsBuilt(base: Net, link: Link, rules: seq<Egress.Rule>, refuses: Refusals, k: nat)
    requires Start(base, link) && k <= STEPS && Reached(base, link, rules, refuses, k).Some?
    ensures Built(base, Reached(base, link, rules, refuses, k).value, link, rules, k)
  {
    var step := BuildStep(link, rules, refuses);
    var good := (i: nat, n: Net) => Built(base, n, link, rules, i);
    AtStart(base, link, rules);
    forall i: nat, n | i < k && good(i, n) && step(i, n).Some? ensures good(i + 1, step(i, n).value) {
      AttemptBuilds(base, n, link, rules, refuses(i), i, step(i, n).value);
    }
    IterateKeeps(step, base, good, k);
  }

  lemma AtStart(base: Net, link: Link, rules: seq<Egress.Rule>)
    ensures Built(base, base, link, rules, 0)
  {
    forall p ensures DevAt(base.devs, base.devs, OwnedAt(link, NoTap, NoVeth, p), p) {
    }
  }

  lemma AttemptBuilds(base: Net, net: Net, link: Link, rules: seq<Egress.Rule>, refuse: bool, k: nat, next: Net)
    requires Start(base, link) && k < STEPS && Built(base, net, link, rules, k)
    requires Attempt(net, Command(link, rules, k), refuse, Optional(link, k)) == Some(next)
    ensures Built(base, next, link, rules, k + 1)
  {
    if Exec(net, Command(link, rules, k)).Some? {
      CommandKeepsShape(base, net, link, rules, k);
      CommandConfigures(base, net, link, rules, k);
    }
  }

  // ---- when a build succeeds ----

  /** The names and the route a build creates are free. */
  ghost predicate Fits(base: Net, link: Link) {
    && link.netns !in base.spaces
    && Port(Root, link.name) !in base.devs
    && Port(Root, link.hostVeth) !in base.devs && Port(Root, link.nsVeth) !in base.devs
    && (HasRoute(link) ==> GuestSubnet(link).value !in base.routes)
  }

  predicate Addressed(link: Link) {
    link.hostIP.Some? && link.uplinkHost.Some? && link.uplinkNS.Some?
  }

  /** The host refuses none of the commands that must succeed. */
  ghost predicate Willing(link: Link, refuses: Refusals) {
    forall k :: 0 <= k < STEPS && refuses(k) ==> k == 14 || k == 15 || (k == 13 && !HasRoute(link))
  }

  /** Nothing of an earlier host is inside a namespace that did not exist. */
  lemma NothingInside(base: Net, devs: map<Port, Device>, link: Link, tap: TapPlace, veth: VethPlace, name: string)
    requires Start(base, link) && link.netns !in base.spaces && DevShape(base.devs, devs, link, tap, veth)
    requires OwnedAt(link, tap, veth, Port(Inner(link.netns), name)).None?
    ensures Port(Inner(link.netns), name) !in devs
  {
    Owned(base.devs, devs, link, tap, veth, Port(Inner(link.netns), name));
  }

  lemma CommandRuns(base: Net, net: Net, link: Link, rules: seq<Egress.Rule>, k: nat)
    requires Start(base, link) && k < STEPS && Shape(base, net, link, After(link, k))
    requires Fits(base, link) && Addressed(link)
    ensures Exec(net, Command(link, rules, k)).Some?
  {
    var g := After(link, k);
    var tap, inner := Port(Inner(link.netns), link.name), Port(Inner(link.netns), link.nsVeth);
    if k == 3 { NothingInside(base, net.devs, link, g.tap, g.veth, link.name); }
    if k == 7 { NothingInside(base, net.devs, link, g.tap, g.veth, link.nsVeth); }
    Owned(base.devs, net.devs, link, g.tap, g.veth, Port(Root, link.name));
    Owned(base.devs, net.devs, link, g.tap, g.veth, tap);
    Owned(base.devs, net.devs, link, g.tap, g.veth, Port(Root, link.hostVeth));
    Owned(base.devs, net.devs, link, g.tap, g.veth, Port(Root, link.nsVeth));
    Owned(base.devs, net.devs, link, g.tap, g.veth, inner);
  }

  lemma AttemptRuns(base: Net, net: Net, link: Link, rules: seq<Egress.Rule>, refuse: bool, k: nat)
    requires Start(base, link) && k < STEPS && Shape(base, net, link, After(link, k))
    requires Fits(base, link) && Addressed(link) && (refuse ==> Optional(link, k))
    ensures Attempt(net, Command(link, rules, k), refuse, Optional(link, k)).Some?
  {
    CommandRuns(base, net, link, rules, k);
  }

  /** A build that went through was refused nothing it needed. */
  lemma ReachedWasWilling(base: Net, link: Link, rules: seq<Egress.Rule>, refuses: Refusals, k: nat, j: nat)
    requires j < k <= STEPS && Reached(base, link, rules, refuses, k).Some? && refuses(j)
    ensures Optional(link, j)
  {
    var _ := IteratePassed(BuildStep(link, rules, refuses), base, j, k);
  }

  /** Where a build stops, and on which host. */
  lemma {:induction false} StopsAt(step: (nat, Net) -> Option<Net>, base: Net, k: nat) returns (j: nat, n: Net)
    requires Iterate(step, base, k).None?
    ensures j < k && Iterate(step, base, j) == Some(n) && step(j, n).None?
  {
    if Iterate(step, base, k - 1).None? { j, n := StopsAt(step, base, k - 1); }
    else { j, n := k - 1, Iterate(step, base, k - 1).value; }
  }

  lemma WillingHostReaches(base: Net, link: Link, rules: seq<Egress.Rule>, refuses: Refusals, k: nat)
    requires Start(base, link) && Fits(base, link) && Addressed(link) && Willing(link, refuses) && k <= STEPS
    ensures Reached(base, link, rules, refuses, k).Some?
  {
    if Reached(base, link, rules, refuses, k).None? {
      var j, n := StopsAt(BuildStep(link, rules, refuses), base, k);
      ReachedIsBuilt(base, link, rules, refuses, j);
      AttemptRuns(base, n, link, rules, refuses(j), j);
    }
  }

  /** A build succeeds exactly when its names are free and the host refuses nothing it needs. */
  lemma BuildSucceedsIff(base: Net, link: Link, rules: seq<Egress.Rule>, refuses: Refusals)
    requires Start(base, link) && Addressed(link)
    ensures Reached(base, link, rules, refuses, STEPS).Some? <==> Fits(base, link) && Willing(link, refuses)
  {
    if Reached(base, link, rules, refuses, STEPS).Some? {
      ReachedIsBuilt(base, link, rules, refuses, STEPS);
      forall k | 0 <= k < STEPS && refuses(k) ensures Optional(link, k) {
        ReachedWasWilling(base, link, rules, refuses, STEPS, k);
      }
    } else if Fits(base, link) && Willing(link, refuses) {
      WillingHostReaches(base, link, rules, refuses, STEPS);
    }
  }

  // ---- Teardown ----

  /** Nothing Teardown removes by name is there. */
  ghost predicate Spared(base: Net, link: Link) {
    && link.netns !in base.spaces
    && link.table !in base.tables
    && (GuestSubnet(link).Some? ==> GuestSubnet(link).value !in base.routes)
    && Port(Root, link.hostVeth) !in base.devs
  }

  /** The commands of Teardown. */
  predicate Deletes(cmd: Cmd) {
    cmd.NftDelete? || cmd.RouteDel? || cmd.NetnsDel? || cmd.LinkDel?
  }

  /** A deleting command adds nothing. */
  lemma DeletionShrinks(net: Net, cmd: Cmd)
    requires Deletes(cmd)
    ensures var r := Try(net, cmd);
            && r.spaces.Keys <= net.spaces.Keys && r.devs.Keys <= net.devs.Keys
            && r.routes.Keys <= net.routes.Keys && r.tables.Keys <= net.tables.Keys && r.forward == net.forward
  {
  }

  /** A device without a peer stays in the host unless it is deleted by name. */
  lemma DeletionKeepsPeerless(net: Net, cmd: Cmd, p: Port)
    requires Deletes(cmd) && p.at == Root && cmd != LinkDel(p.name) && p in net.devs && net.devs[p].peer.None?
    ensures p in Try(net, cmd).devs && Try(net, cmd).devs[p] == net.devs[p]
  {
  }

  /** The four commands of a Teardown of a named link, one after the other. */
  function TeardownStep(link: Link, k: nat): Cmd {
    if k == 0 then NftDelete(link.table)
    else if k == 1 then if GuestSubnet(link).Some? then RouteDel(GuestSubnet(link).value) else NftDelete(link.table)
    else if k == 2 then NetnsDel(link.netns)
    else LinkDel(link.hostVeth)
  }

  lemma TeardownIsFourSteps(net: Net, link: Link)
    requires Named(link)
    ensures var n2 := Try(Try(net, TeardownStep(link, 0)), TeardownStep(link, 1));
            Teardown(net, link) == Try(Try(n2, TeardownStep(link, 2)), TeardownStep(link, 3))
  {
  }

  /** Whatever the host is like, these are gone after a Teardown. */
  lemma TeardownClears(net: Net, link: Link)
    requires Named(link)
    ensures Spared(Teardown(net, link), link)
  {
    TeardownIsFourSteps(net, link);
    var n1 := Try(net, TeardownStep(link, 0));
    var n2 := Try(n1, TeardownStep(link, 1));
    var n3 := Try(n2, TeardownStep(link, 2));
    var n4 := Try(n3, TeardownStep(link, 3));
    assert link.table !in n1.tables;
    assert GuestSubnet(link).Some? ==> GuestSubnet(link).value !in n2.routes;
    assert link.netns !in n3.spaces;
    assert Port(Root, link.hostVeth) !in n4.devs;
    DeletionShrinks(n1, TeardownStep(link, 1));
    DeletionShrinks(n2, TeardownStep(link, 2));
    DeletionShrinks(n3, TeardownStep(link, 3));
  }

  lemma TeardownKeepsForwarding(net: Net, link: Link)
    requires Named(link)
    ensures Teardown(net, link).forward == net.forward
  {
    TeardownIsFourSteps(net, link);
    var n1 := Try(net, TeardownStep(link, 0));
    var n2 := Try(n1, TeardownStep(link, 1));
    DeletionShrinks(net, TeardownStep(link, 0));
    DeletionShrinks(n1, TeardownStep(link, 1));
    DeletionShrinks(n2, TeardownStep(link, 2));
    DeletionShrinks(Try(n2, TeardownStep(link, 2)), TeardownStep(link, 3));
  }

  /** A TAP that is still in the host stays there. */
  lemma TeardownKeepsTap(net: Net, link: Link)
    requires Named(link) && Port(Root, link.name) in net.devs && net.devs[Port(Root, link.name)].peer.None?
    ensures Port(Root, link.name) in Teardown(net, link).devs
  {
    TeardownIsFourSteps(net, link);
    var p := Port(Root, link.name);
    var n1 := Try(net, TeardownStep(link, 0));
    var n2 := Try(n1, TeardownStep(link, 1));
    var n3 := Try(n2, TeardownStep(link, 2));
    DeletionKeepsPeerless(net, TeardownStep(link, 0), p);
    DeletionKeepsPeerless(n1, TeardownStep(link, 1), p);
    DeletionKeepsPeerless(n2, TeardownStep(link, 2), p);
    DeletionKeepsPeerless(n3, TeardownStep(link, 3), p);
  }

  /** What is left of the TAP and of the veth pair once the namespace is gone. */
  function TapOutside(tap: TapPlace): TapPlace {
    if tap == TapInNs then NoTap else tap
  }

  function VethOutside(veth: VethPlace): VethPlace {
    if veth == VethSplit then NoVeth else veth
  }

  /** Removing new devices takes no old device and no old route. */
  lemma RemoveNew(base: Net, net: Net, gone: set<Port>)
    requires Consistent(base) && net.routes == base.routes
    requires forall p :: p in base.devs ==> p in net.devs && net.devs[p] == base.devs[p]
    requires forall p :: p in gone ==> p !in base.devs
    ensures var r := Remove(net, gone);
            r.routes == base.routes && forall p :: p in base.devs ==> p in r.devs && r.devs[p] == base.devs[p]
  {
    var all := WithPeers(net.devs, gone);
    assert forall p :: p in base.devs ==> p !in all;
    assert forall k :: k in net.routes ==> net.routes[k] !in all;
  }

  lemma OldDevicesStay(base: map<Port, Device>, devs: map<Port, Device>, link: Link, tap: TapPlace, veth: VethPlace)
    requires DevShape(base, devs, link, tap, veth)
    ensures forall p :: p in base ==> p in devs && devs[p] == base[p]
  {
    forall p | p in base ensures p in devs && devs[p] == base[p] {
      Owned(base, devs, link, tap, veth, p);
    }
  }

  /** With the namespace go its devices and the host end of a split veth pair, nothing else of ours. */
  lemma GoneWithNamespace(base: map<Port, Device>, devs: map<Port, Device>, link: Link, tap: TapPlace,
                          veth: VethPlace, p: Port)
    requires Named(link) && DevShape(base, devs, link, tap, veth) && OwnedAt(link, tap, veth, p).Some?
    ensures var gone := set q | q in devs && q.at == Inner(link.netns);
            p in devs && (p in WithPeers(devs, gone) <==> OwnedAt(link, TapOutside(tap), VethOutside(veth), p).None?)
  {
    Owned(base, devs, link, tap, veth, p);
    if veth == VethSplit { Owned(base, devs, link, tap, veth, Port(Inner(link.netns), link.nsVeth)); }
  }

  lemma NetnsDelShape(base: Net, net: Net, link: Link, tap: TapPlace, veth: VethPlace)
    requires Start(base, link) && link.netns !in base.spaces
    requires DevShape(base.devs, net.devs, link, tap, veth) && net.routes == base.routes
    ensures var r := Remove(net, set p | p in net.devs && p.at == Inner(link.netns));
            r.routes == base.routes && DevShape(base.devs, r.devs, link, TapOutside(tap), VethOutside(veth))
  {
    var gone := set p | p in net.devs && p.at == Inner(link.netns);
    OldDevicesStay(base.devs, net.devs, link, tap, veth);
    RemoveNew(base, net, gone);
    var r := Remove(net, gone);
    forall p ensures DevAt(base.devs, r.devs, OwnedAt(link, TapOutside(tap), VethOutside(veth), p), p) {
      Owned(base.devs, net.devs, link, tap, veth, p);
      if OwnedAt(link, tap, veth, p).Some? { GoneWithNamespace(base.devs, net.devs, link, tap, veth, p); }
    }
  }

  lemma GoneWithVeth(base: map<Port, Device>, devs: map<Port, Device>, link: Link, tap: TapPlace, p: Port)
    requires Named(link) && DevShape(base, devs, link, tap, VethInHost) && OwnedAt(link, tap, VethInHost, p).Some?
    ensures p in devs && (p in WithPeers(devs, {Port(Root, link.hostVeth)}) <==> OwnedAt(link, tap, NoVeth, p).None?)
  {
    Owned(base, devs, link, tap, VethInHost, p);
  }

  lemma LinkDelShape(base: Net, net: Net, link: Link, tap: TapPlace, veth: VethPlace)
    requires Start(base, link) && DevShape(base.devs, net.devs, link, tap, veth) && net.routes == base.routes
    requires veth != VethSplit && Port(Root, link.hostVeth) !in base.devs
    ensures var r := Try(net, LinkDel(link.hostVeth));
            r.routes == base.routes && DevShape(base.devs, r.devs, link, tap, NoVeth)
  {
    var h := Port(Root, link.hostVeth);
    Owned(base.devs, net.devs, link, tap, veth, h);
    if veth == VethInHost {
      OldDevicesStay(base.devs, net.devs, link, tap, veth);
      RemoveNew(base, net, {h});
      var r := Remove(net, {h});
      forall p ensures DevAt(base.devs, r.devs, OwnedAt(link, tap, NoVeth, p), p) {
        Owned(base.devs, net.devs, link, tap, veth, p);
        if OwnedAt(link, tap, veth, p).Some? { GoneWithVeth(base.devs, net.devs, link, tap, p); }
      }
    }
  }

  lemma NothingLeftIsBase(base: map<Port, Device>, devs: map<Port, Device>, link: Link)
    requires DevShape(base, devs, link, NoTap, NoVeth)
    ensures devs == base
  {
    forall p ensures (p in devs <==> p in base) && (p in devs ==> devs[p] == base[p]) {
      Owned(base, devs, link, NoTap, NoVeth, p);
    }
  }

  lemma TablesAndRoutesGone(base: Net, net: Net, link: Link, g: Progress)
    requires Start(base, link) && Spared(base, link) && Shape(base, net, link, g)
    ensures WithoutTableAndRoute(net, link) == net.(tables := base.tables, routes := base.routes)
  {
    assert base.tables - {link.table} == base.tables;
    if g.route && GuestSubnet(link).Some? {
      assert net.routes - {GuestSubnet(link).value} == base.routes;
    }
  }

  lemma NamespaceGone(base: Net, net: Net, link: Link, g: Progress)
    requires Start(base, link) && Spared(base, link) && net.routes == base.routes && Possible(g)
    requires SpaceShape(base.spaces, net.spaces, link, g.ns) && DevShape(base.devs, net.devs, link, g.tap, g.veth)
    ensures var r := Try(net, NetnsDel(link.netns));
            && r.spaces == base.spaces && r.routes == base.routes
            && r.tables == net.tables && r.forward == net.forward
            && DevShape(base.devs, r.devs, link, TapOutside(g.tap), VethOutside(g.veth))
  {
    if g.ns {
      NetnsDelShape(base, net.(spaces := net.spaces - {link.netns}), link, g.tap, g.veth);
    }
  }

  /** A build only ever has devices once it has its namespace. */
  predicate Possible(g: Progress) {
    !g.ns ==> g.tap == NoTap && g.veth == NoVeth && !g.route && !g.table
  }

  /** On a host Teardown spares, it removes all of a partly built link but a TAP that never left the host. */
  lemma TeardownShape(base: Net, net: Net, link: Link, g: Progress)
    requires Start(base, link) && Spared(base, link) && Shape(base, net, link, g) && Possible(g)
    ensures var r := Teardown(net, link);
            && r.spaces == base.spaces && r.routes == base.routes && r.tables == base.tables
            && r.forward == net.forward
            && DevShape(base.devs, r.devs, link, TapOutside(g.tap), NoVeth)
  {
    var n2 := WithoutTableAndRoute(net, link);
    TablesAndRoutesGone(base, net, link, g);
    var n3 := Try(n2, NetnsDel(link.netns));
    NamespaceGone(base, n2, link, g);
    LinkDelShape(base, n3, link, TapOutside(g.tap), VethOutside(g.veth));
  }

  /**
   Teardown of a partly built link restores the host, the forwarding flag aside, exactly when
   nothing of the names it removes was there before and no TAP is stranded in the host.
   */
  lemma TeardownRestoresIff(base: Net, net: Net, link: Link, g: Progress)
    requires Start(base, link) && Shape(base, net, link, g) && Possible(g)
    ensures Teardown(net, link) == base.(forward := net.forward) <==> Spared(base, link) && g.tap != TapInHost
  {
    var r := Teardown(net, link);
    if g.tap == TapInHost {
      Owned(base.devs, net.devs, link, g.tap, g.veth, Port(Root, link.name));
      TeardownKeepsTap(net, link);
    } else if Spared(base, link) {
      TeardownShape(base, net, link, g);
      NothingLeftIsBase(base.devs, r.devs, link);
    } else {
      TeardownClears(net, link);
    }
  }

  // ---- whole builds, on any host ----

  /**
   Compensation, for every host and every point of failure: when command `k` stops the build, the
   deferred Teardown leaves the host as it was exactly when the host had nothing Teardown removes by
   name and that command is not the TAP move.
   */
  lemma CompensationIff(base: Net, link: Link, rules: seq<Egress.Rule>, refuses: Refusals, k: nat)
    requires Start(base, link) && k < STEPS && Reached(base, link, rules, refuses, k).Some?
    ensures var n := Reached(base, link, rules, refuses, k).value;
            Teardown(n, link) == base.(forward := n.forward)
            <==> Spared(base, link) && Command(link, rules, k) != SetNetns(link.name, link.netns)
  {
    ReachedIsBuilt(base, link, rules, refuses, k);
    TeardownRestoresIff(base, Reached(base, link, rules, refuses, k).value, link, After(link, k));
  }

  /**
   A finished build has its TAP inside the namespace only, every device up with its own address,
   the default route and the rules. A later Teardown restores the host exactly when it had no table
   of this name and no route to the subnet.
   */
  lemma BuildThenTeardown(base: Net, link: Link, rules: seq<Egress.Rule>, refuses: Refusals)
    requires Start(base, link) && Reached(base, link, rules, refuses, STEPS).Some?
    ensures var n := Reached(base, link, rules, refuses, STEPS).value;
            && Port(Inner(link.netns), link.name) in n.devs && Port(Root, link.name) !in n.devs
            && Configured(base, n, link, rules, STEPS)
            && (Teardown(n, link) == base.(forward := n.forward)
                <==> && link.table !in base.tables
                     && (GuestSubnet(link).Some? ==> GuestSubnet(link).value !in base.routes))
  {
    ReachedIsBuilt(base, link, rules, refuses, STEPS);
    var n := Reached(base, link, rules, refuses, STEPS).value;
    Owned(base.devs, n.devs, link, TapInNs, VethSplit, Port(Root, link.name));
    TeardownRestoresIff(base, n, link, After(link, STEPS));
  }

  /** After a build packets are forwarded, in the host and in the namespace, unless a sysctl was refused. */
  lemma ForwardingIsOn(base: Net, link: Link, rules: seq<Egress.Rule>, refuses: Refusals)
    requires Start(base, link) && Reached(base, link, rules, refuses, STEPS).Some?
    ensures var n := Reached(base, link, rules, refuses, STEPS).value;
            && (!refuses(14) ==> n.forward)
            && link.netns in n.spaces && (!refuses(15) ==> n.spaces[link.netns].forward)
  {
    var step := BuildStep(link, rules, refuses);
    var n14 := IteratePassed(step, base, 14, STEPS);
    var n15 := IteratePassed(step, base, 15, STEPS);
    var n16 := IteratePassed(step, base, 16, STEPS);
    ReachedIsBuilt(base, link, rules, refuses, 14);
    NextForwards(n14, link, rules, refuses(14), 14, n15);
    NextForwards(n15, link, rules, refuses(15), 15, n16);
    NextForwards(n16, link, rules, refuses(16), 16, Reached(base, link, rules, refuses, STEPS).value);
  }

  /** The last three commands switch forwarding on and nothing off. */
  lemma NextForwards(net: Net, link: Link, rules: seq<Egress.Rule>, refuse: bool, k: nat, next: Net)
    requires 14 <= k <= 16 && link.netns in net.spaces
    requires Attempt(net, Command(link, rules, k), refuse, Optional(link, k)) == Some(next)
    ensures link.netns in next.spaces
    ensures net.forward || (k == 14 && !refuse) ==> next.forward
    ensures net.spaces[link.netns].forward || (k == 15 && !refuse) ==> next.spaces[link.netns].forward
  {
  }

  /** The guest's packets have a way: the subnet leaves through the host veth, whose peer is in the namespace. */
  lemma SubnetIsRouted(base: Net, link: Link, rules: seq<Egress.Rule>, refuses: Refusals)
    requires Start(base, link) && Reached(base, link, rules, refuses, STEPS).Some?
    requires link.hostIP.Some? && link.uplinkNS.Some?
    ensures var n, out := Reached(base, link, rules, refuses, STEPS).value, Port(Root, link.hostVeth);
            && GuestSubnet(link).Some? && GuestSubnet(link).value in n.routes
            && n.routes[GuestSubnet(link).value] == out
            && out in n.devs && n.devs[out].peer == Some(Port(Inner(link.netns), link.nsVeth))
            && Port(Inner(link.netns), link.nsVeth) in n.devs
            && link.table in n.tables && n.tables[link.table] == RulesBefore(base, link) + rules
  {
    ReachedIsBuilt(base, link, rules, refuses, STEPS);
    var n := Reached(base, link, rules, refuses, STEPS).value;
    Owned(base.devs, n.devs, link, TapInNs, VethSplit, Port(Root, link.hostVeth));
    Owned(base.devs, n.devs, link, TapInNs, VethSplit, Port(Inner(link.netns), link.nsVeth));
  }

  /** A link without a namespace has its TAP in the host, and Teardown removes that. */
  lemma TeardownWithoutNamespace(net: Net, link: Link)
    requires link.netns == "" && link.name != ""
    ensures Port(Root, link.name) !in Teardown(net, link).devs
  {
    var n2 := WithoutTableAndRoute(net, link);
    var n3 := Try(n2, LinkDel(link.name));
    assert Port(Root, link.name) !in n3.devs;
    DeletionShrinks(n3, LinkDel(link.hostVeth));
  }

  // ---- two links on one host ----

  /** A partly or fully built host is consistent again. */
  lemma ShapeIsConsistent(base: Net, net: Net, link: Link, k: nat)
    requires Start(base, link) && k <= STEPS && Shape(base, net, link, After(link, k))
    ensures Consistent(net)
  {
    var g := After(link, k);
    OldDevicesStay(base.devs, net.devs, link, g.tap, g.veth);
    forall p | p in net.devs
      ensures p.at.Inner? ==> p.at.ns in net.spaces
      ensures net.devs[p].peer.Some? ==> net.devs[p].peer.value in net.devs
    {
      Owned(base.devs, net.devs, link, g.tap, g.veth, p);
      if net.devs[p].peer.Some? { Owned(base.devs, net.devs, link, g.tap, g.veth, net.devs[p].peer.value); }
    }
    Owned(base.devs, net.devs, link, g.tap, g.veth, Port(Root, link.hostVeth));
  }

  /**
   While a link is up, every build of a link with the same host veth name stops before its veth
   pair exists, and wherever it stops its cleanup removes the live link's host veth.
   */
  lemma CollidingBuildCutsLiveLink(base: Net, first: Link, rules: seq<Egress.Rule>, refuses: Refusals,
                                   second: Link, more: seq<Egress.Rule>, refuses2: Refusals, k: nat)
    requires Start(base, first) && Reached(base, first, rules, refuses, STEPS).Some?
    requires Named(second) && second.hostVeth == first.hostVeth && k <= STEPS
    ensures var live := Reached(base, first, rules, refuses, STEPS).value;
            var n := Reached(live, second, more, refuses2, k);
            && Port(Root, first.hostVeth) in live.devs
            && (n.Some? ==> k <= 6 && Port(Root, first.hostVeth) in n.value.devs
                            && Port(Root, first.hostVeth) !in Teardown(n.value, second).devs)
  {
    var live := Reached(base, first, rules, refuses, STEPS).value;
    ReachedIsBuilt(base, first, rules, refuses, STEPS);
    ShapeIsConsistent(base, live, first, STEPS);
    Owned(base.devs, live.devs, first, TapInNs, VethSplit, Port(Root, first.hostVeth));
    var n := Reached(live, second, more, refuses2, k);
    if n.Some? {
      ReachedIsBuilt(live, second, more, refuses2, k);
      OldDevicesStay(live.devs, n.value.devs, second, After(second, k).tap, After(second, k).veth);
      TeardownClears(n.value, second);
    }
  }
}
