/**
 The nftables forward chain in front of a microVM (internal/network/nft.go) as a packet filter
 over connection-tracking traces.

 A packet is seen by the forward hook after destination translation, so a reply carries the
 guest's own address. A flow is tracked from its first accepted packet; entries may expire at any
 moment; a dropped packet leaves no entry.
 */
module Egress {
  import opened Basics
  import opened Address
  import opened Links

  /** The accept rules RenderNFT can write; everything unmatched meets the drop policy. */
  datatype Rule =
    | EstablishedIn(dev: string)
    | EstablishedOut(dev: string)
    | ToV4(dev: string, addrs: seq<IP>)
    | ToV6(dev: string, addrs: seq<IP>)

  /** The host-visible device of a link: its uplink veth, or the TAP when it has none. */
  function FilterIface(link: Link): string {
    if link.hostVeth != "" then link.hostVeth else link.name
  }

  /** Partitions the addresses by family and writes a daddr rule for each family that occurs. */
  method RenderNFT(link: Link, allow: seq<IP>) returns (rules: seq<Rule>)
    ensures rules == ForwardRules(link, allow)
  {
    var dev := FilterIface(link);
    var v4, v6: seq<IP> := [], [];
    for i := 0 to |allow|
      invariant v4 == OfFamily(allow[..i], true) && v6 == OfFamily(allow[..i], false)
    {
      assert allow[..i + 1][..i] == allow[..i];
      if allow[i].V4? { v4 := v4 + [allow[i]]; } else { v6 := v6 + [allow[i]]; }
    }
    assert allow[..|allow|] == allow;
    rules := [EstablishedIn(dev), EstablishedOut(dev)];
    if |v4| > 0 { rules := rules + [ToV4(dev, v4)]; }
    if |v6| > 0 { rules := rules + [ToV6(dev, v6)]; }
  }

  function OfFamily(ips: seq<IP>, four: bool): (r: seq<IP>)
    ensures forall ip :: ip in r <==> ip in ips && ip.V4? == four
  {
    if ips == [] then []
    else
      var init, last := ips[..|ips| - 1], ips[|ips| - 1];
      assert forall ip :: ip in ips <==> ip in init || ip == last;
      OfFamily(init, four) + if last.V4? == four then [last] else []
  }

  function ForwardRules(link: Link, allow: seq<IP>): seq<Rule> {
    var dev := FilterIface(link);
    var v4, v6 := OfFamily(allow, true), OfFamily(allow, false);
    [EstablishedIn(dev), EstablishedOut(dev)]
    + (if |v4| > 0 then [ToV4(dev, v4)] else [])
    + (if |v6| > 0 then [ToV6(dev, v6)] else [])
  }

  /** No rule has an empty address set, which nft would not load; each set holds one family and all of it. */
  lemma RulesAreWellFormed(link: Link, allow: seq<IP>)
    ensures var rules := ForwardRules(link, allow);
            && |rules| >= 2 && rules[0].EstablishedIn? && rules[1].EstablishedOut?
            && (forall i :: 2 <= i < |rules| ==> (rules[i].ToV4? || rules[i].ToV6?) && rules[i].addrs != [])
            && (forall i :: 0 <= i < |rules| && rules[i].ToV4? ==>
                  forall ip :: ip in rules[i].addrs <==> ip in allow && ip.V4?)
            && (forall i :: 0 <= i < |rules| && rules[i].ToV6? ==>
                  forall ip :: ip in rules[i].addrs <==> ip in allow && ip.V6?)
  {
  }

  /** Every rule names the host veth, or the TAP of a link that has no veth. */
  lemma RulesNameTheDevice(link: Link, allow: seq<IP>)
    ensures forall i :: 0 <= i < |ForwardRules(link, allow)| ==>
                          ForwardRules(link, allow)[i].dev == if link.hostVeth == "" then link.name else link.hostVeth
  {
  }

  // ---- packets and connection tracking ----

  datatype Flow = Flow(src: IP, dst: IP, proto: nat, sport: nat, dport: nat)

  function Reverse(f: Flow): (r: Flow)
    ensures r.src == f.dst && r.dst == f.src
  {
    Flow(f.dst, f.src, f.proto, f.dport, f.sport)
  }

  /** What relates a packet to another flow: a helper expects it, or it is an ICMP error about it. */
  datatype Relation = Expected(flow: Flow) | ErrorAbout(flow: Flow)

  datatype Packet = Packet(iif: string, oif: string, flow: Flow, related: Option<Relation>)

  datatype CtState = New | Established | Related

  /** A tracked flow: whether a reply was seen, and whether it was expected by a helper. */
  datatype Entry = Entry(replied: bool, expected: bool)

  /** Tracked flows by the direction of their first packet. */
  type Conntrack = map<Flow, Entry>

  predicate Tracked(ct: Conntrack, f: Flow) {
    f in ct || Reverse(f) in ct
  }

  predicate IsError(p: Packet) {
    p.related.Some? && p.related.value.ErrorAbout?
  }

  /** An error belongs to the flow it is about. An expected flow stays related until its first reply. */
  function Classify(ct: Conntrack, p: Packet): CtState {
    var relates := p.related.Some? && Tracked(ct, p.related.value.flow);
    if IsError(p) then if relates then Related else New
    else if p.flow in ct then
      if ct[p.flow].replied then Established else if ct[p.flow].expected then Related else New
    else if Reverse(p.flow) in ct then Established
    else if relates then Related
    else New
  }

  predicate Matches(r: Rule, st: CtState, p: Packet) {
    match r
    case EstablishedIn(dev) => p.iif == dev && st != New
    case EstablishedOut(dev) => p.oif == dev && st != New
    case ToV4(dev, addrs) => p.iif == dev && p.flow.dst.V4? && p.flow.dst in addrs
    case ToV6(dev, addrs) => p.iif == dev && p.flow.dst.V6? && p.flow.dst in addrs
  }

  /** First match accepts; the chain's policy is drop. */
  predicate Accepts(rules: seq<Rule>, st: CtState, p: Packet) {
    rules != [] && (Matches(rules[0], st, p) || Accepts(rules[1..], st, p))
  }

  /** What an accepted packet leaves in the table. An error has no entry of its own. */
  function Track(ct: Conntrack, p: Packet): Conntrack {
    var f := p.flow;
    if IsError(p) || f in ct then ct
    else if Reverse(f) in ct then ct[Reverse(f) := ct[Reverse(f)].(replied := true)]
    else ct[f := Entry(false, Classify(ct, p) == Related)]
  }

  /** The chain as one condition: in or out of the device on a known flow, or in to an allowed address. */
  lemma AcceptsIff(link: Link, allow: seq<IP>, st: CtState, p: Packet)
    ensures var dev := FilterIface(link);
            Accepts(ForwardRules(link, allow), st, p) <==>
              (st != New && (p.iif == dev || p.oif == dev)) || (p.iif == dev && p.flow.dst in allow)
  {
    var dev := FilterIface(link);
    var v4, v6 := OfFamily(allow, true), OfFamily(allow, false);
    ChainMeans(dev, v4, v6, st, p);
    assert p.flow.dst in allow <==> p.flow.dst in v4 || p.flow.dst in v6;
  }

  lemma ChainMeans(dev: string, v4: seq<IP>, v6: seq<IP>, st: CtState, p: Packet)
    requires forall ip :: ip in v4 ==> ip.V4?
    requires forall ip :: ip in v6 ==> ip.V6?
    ensures Accepts([EstablishedIn(dev), EstablishedOut(dev)]
                    + (if |v4| > 0 then [ToV4(dev, v4)] else [])
                    + (if |v6| > 0 then [ToV6(dev, v6)] else []), st, p) <==>
              (st != New && (p.iif == dev || p.oif == dev)) || (p.iif == dev && (p.flow.dst in v4 || p.flow.dst in v6))
  {
    var r4 := if |v4| > 0 then [ToV4(dev, v4)] else [];
    var r6 := if |v6| > 0 then [ToV6(dev, v6)] else [];
    AcceptsConcat([EstablishedIn(dev), EstablishedOut(dev)] + r4, r6, st, p);
    AcceptsConcat([EstablishedIn(dev), EstablishedOut(dev)], r4, st, p);
    AcceptsConcat([EstablishedIn(dev)], [EstablishedOut(dev)], st, p);
    assert [EstablishedIn(dev)] + [EstablishedOut(dev)] == [EstablishedIn(dev), EstablishedOut(dev)];
    AcceptsOne(EstablishedIn(dev), st, p);
    AcceptsOne(EstablishedOut(dev), st, p);
    if |v4| > 0 { AcceptsOne(ToV4(dev, v4), st, p); }
    if |v6| > 0 { AcceptsOne(ToV6(dev, v6), st, p); }
  }

  lemma AcceptsOne(r: Rule, st: CtState, p: Packet)
    ensures Accepts([r], st, p) <==> Matches(r, st, p)
  {
    assert [r][1..] == [];
  }

  lemma {:induction false} AcceptsConcat(a: seq<Rule>, b: seq<Rule>, st: CtState, p: Packet)
    ensures Accepts(a + b, st, p) <==> Accepts(a, st, p) || Accepts(b, st, p)
  {
    if a == [] {
      assert a + b == b;
    } else {
      AcceptsConcat(a[1..], b, st, p);
      assert (a + b)[1..] == a[1..] + b;
    }
  }

  // ---- traces ----

  datatype Event = Pkt(p: Packet) | Expire(f: Flow)

  /** The tracking table before event `i`, starting empty. */
  function TableAt(rules: seq<Rule>, tr: seq<Event>, i: nat): Conntrack
    requires i <= |tr|
  {
    if i == 0 then map[]
    else
      var ct := TableAt(rules, tr, i - 1);
      match tr[i - 1]
      case Expire(f) => ct - {f}
      case Pkt(p) => if Accepts(rules, Classify(ct, p), p) then Track(ct, p) else ct
  }

  predicate AcceptedAt(rules: seq<Rule>, tr: seq<Event>, i: nat)
    requires i < |tr|
  {
    tr[i].Pkt? && Accepts(rules, Classify(TableAt(rules, tr, i), tr[i].p), tr[i].p)
  }

  predicate SameFlow(f: Flow, g: Flow) {
    f == g || f == Reverse(g)
  }

  /** Packet `i` belongs to the flow of packet `m`, or is related to it. */
  predicate Joins(tr: seq<Event>, i: nat, m: nat)
    requires i < |tr| && m < |tr| && tr[i].Pkt? && tr[m].Pkt?
  {
    || SameFlow(tr[i].p.flow, tr[m].p.flow)
    || (tr[i].p.related.Some? && SameFlow(tr[i].p.related.value.flow, tr[m].p.flow))
  }

  /** Packet `i` leads back to packet `j` through accepted packets, each joining an earlier one. */
  ghost predicate LeadsBack(rules: seq<Rule>, tr: seq<Event>, i: nat, j: nat)
    requires i < |tr| && j < |tr|
    decreases i
  {
    && AcceptedAt(rules, tr, i)
    && (i == j || exists m: nat :: m < i && tr[m].Pkt? && Joins(tr, i, m) && LeadsBack(rules, tr, m, j))
  }

  /** No earlier accepted packet belongs to the flow of packet `j`. */
  ghost predicate OpensFlow(rules: seq<Rule>, tr: seq<Event>, j: nat)
    requires j < |tr| && tr[j].Pkt?
  {
    forall m: nat :: m < j && tr[m].Pkt? && SameFlow(tr[j].p.flow, tr[m].p.flow) ==> !AcceptedAt(rules, tr, m)
  }

  /** Every tracked flow was opened by an accepted packet. */
  lemma {:induction false} TrackedWasAccepted(rules: seq<Rule>, tr: seq<Event>, i: nat, f: Flow) returns (m: nat)
    requires i <= |tr| && f in TableAt(rules, tr, i)
    ensures m < i && tr[m].Pkt? && AcceptedAt(rules, tr, m) && tr[m].p.flow == f
    decreases i
  {
    var ct := TableAt(rules, tr, i - 1);
    if f in ct {
      m := TrackedWasAccepted(rules, tr, i - 1, f);
    } else {
      m := i - 1;
    }
  }

  /**
   Safety over whole traces: every packet the chain accepts leads back, through its own flow or
   related flows, to a packet that opened its flow by entering from the guest's device towards an
   allowlisted address.
   */
  lemma {:induction false} EveryAcceptedPacketHasAnAllowedOrigin(link: Link, allow: seq<IP>, tr: seq<Event>, i: nat)
      returns (j: nat)
    requires i < |tr| && AcceptedAt(ForwardRules(link, allow), tr, i)
    ensures j <= i && tr[j].Pkt?
    ensures LeadsBack(ForwardRules(link, allow), tr, i, j)
    ensures OpensFlow(ForwardRules(link, allow), tr, j)
    ensures tr[j].p.iif == FilterIface(link) && tr[j].p.flow.dst in allow
    decreases i
  {
    var rules := ForwardRules(link, allow);
    var p, ct := tr[i].p, TableAt(rules, tr, i);
    if m: nat :| m < i && tr[m].Pkt? && SameFlow(p.flow, tr[m].p.flow) && AcceptedAt(rules, tr, m) {
      j := EveryAcceptedPacketHasAnAllowedOrigin(link, allow, tr, m);
      assert Joins(tr, i, m);
    } else {
      assert OpensFlow(rules, tr, i);
      if p.flow in ct {
        var m := TrackedWasAccepted(rules, tr, i, p.flow);
        assert false;
      }
      if Reverse(p.flow) in ct {
        var m := TrackedWasAccepted(rules, tr, i, Reverse(p.flow));
        assert false;
      }
      AcceptsIff(link, allow, Classify(ct, p), p);
      if p.iif == FilterIface(link) && p.flow.dst in allow {
        j := i;
      } else {
        var g := p.related.value.flow;
        var f := if g in ct then g else Reverse(g);
        var m := TrackedWasAccepted(rules, tr, i, f);
        assert SameFlow(g, tr[m].p.flow);
        j := EveryAcceptedPacketHasAnAllowedOrigin(link, allow, tr, m);
        assert Joins(tr, i, m);
      }
    }
  }

  /** Traffic between other devices is never accepted by this table. */
  lemma OtherTrafficIsDropped(link: Link, allow: seq<IP>, tr: seq<Event>, i: nat)
    requires i < |tr| && tr[i].Pkt?
    requires tr[i].p.iif != FilterIface(link) && tr[i].p.oif != FilterIface(link)
    ensures !AcceptedAt(ForwardRules(link, allow), tr, i)
  {
    AcceptsIff(link, allow, Classify(TableAt(ForwardRules(link, allow), tr, i), tr[i].p), tr[i].p);
  }

  /** With an empty allowlist nothing is ever accepted, on any trace. */
  lemma EmptyAllowlistDropsAll(link: Link, tr: seq<Event>, i: nat)
    requires i < |tr|
    ensures !AcceptedAt(ForwardRules(link, []), tr, i)
  {
    if AcceptedAt(ForwardRules(link, []), tr, i) {
      var j := EveryAcceptedPacketHasAnAllowedOrigin(link, [], tr, i);
      assert false;
    }
  }

  /**
   The filter is not vacuous: the opening packet to an allowed address passes in any state, and
   while the entry lives its reply passes back out to the guest.
   */
  lemma AllowedExchangePasses(link: Link, allow: seq<IP>, ct: Conntrack, p: Packet, reply: Packet)
    requires p.iif == FilterIface(link) && p.flow.dst in allow
    requires reply.oif == FilterIface(link) && reply.flow == Reverse(p.flow) != p.flow
    ensures var rules := ForwardRules(link, allow);
            && Accepts(rules, Classify(ct, p), p)
            && (!Tracked(ct, p.flow) && !IsError(p) && !IsError(reply) ==>
                  Accepts(rules, Classify(Track(ct, p), reply), reply))
  {
    AcceptsIff(link, allow, Classify(ct, p), p);
    var next := Track(ct, p);
    AcceptsIff(link, allow, Classify(next, reply), reply);
    assert Reverse(reply.flow) == p.flow;
  }

  /** So does a flow a tracked one expects, wherever it leads: its first packet and the next ones before any reply. */
  lemma ExpectedFlowPasses(link: Link, allow: seq<IP>, ct: Conntrack, p: Packet, q: Packet)
    requires p.related.Some? && p.related.value.Expected? && Tracked(ct, p.related.value.flow) && !Tracked(ct, p.flow)
    requires p.iif == FilterIface(link) || p.oif == FilterIface(link)
    requires q.flow == p.flow && !IsError(q) && (q.iif == FilterIface(link) || q.oif == FilterIface(link))
    ensures var rules := ForwardRules(link, allow);
            Accepts(rules, Classify(ct, p), p) && Accepts(rules, Classify(Track(ct, p), q), q)
  {
    AcceptsIff(link, allow, Classify(ct, p), p);
    AcceptsIff(link, allow, Classify(Track(ct, p), q), q);
  }
}
