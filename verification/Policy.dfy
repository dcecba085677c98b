/**
 The egress policy: validation, the in-process Allows check and the resolution of an allowlist
 into addresses (internal/network/policy.go, internal/network/tap.go).

 Name lookup and IPv6 text are parameters. Letters are lower-cased in the ASCII range.
 */
module Policy {
  import opened Basics
  import opened Address
  import opened Links
  import Egress

  datatype Policy = Policy(defaultPolicy: string, allowlist: seq<string>)

  // ---- text ----

  predicate IsSpace(c: char) {
    || c == ' ' || '\t' <= c <= '\r' || c == '\U{85}' || c == '\U{a0}'
    || c == '\U{1680}' || '\U{2000}' <= c <= '\U{200a}' || c == '\U{2028}' || c == '\U{2029}'
    || c == '\U{202f}' || c == '\U{205f}' || c == '\U{3000}'
  }

  /** Among the ASCII characters: space, tab, line feed, vertical tab, form feed and carriage return. */
  lemma IsSpaceAscii(c: char)
    requires c < 128 as char
    ensures IsSpace(c) <==> c in " \t\n\U{b}\U{c}\r"
  {
  }

  function TrimLeft(s: string): (r: string)
    ensures |r| <= |s|
    ensures r == "" || !IsSpace(r[0])
  {
    if s != "" && IsSpace(s[0]) then TrimLeft(s[1..]) else s
  }

  function TrimRight(s: string): (r: string)
    ensures |r| <= |s| && r == s[..|r|]
    ensures r == "" || !IsSpace(r[|r| - 1])
  {
    if s != "" && IsSpace(s[|s| - 1]) then TrimRight(s[..|s| - 1]) else s
  }

  function TrimSpace(s: string): string {
    TrimRight(TrimLeft(s))
  }

  function LowerChar(c: char): (r: char)
    ensures IsSpace(r) <==> IsSpace(c)
  {
    if 'A' <= c <= 'Z' then c - 'A' + 'a' else c
  }

  function ToLower(s: string): (r: string)
    ensures |r| == |s| && forall i :: 0 <= i < |s| ==> r[i] == LowerChar(s[i])
  {
    seq(|s|, i requires 0 <= i < |s| => LowerChar(s[i]))
  }

  function IndexOf(s: string, c: char): (i: Option<nat>)
    ensures i.None? <==> c !in s
    ensures i.Some? ==> i.value < |s| && s[i.value] == c && c !in s[..i.value]
  {
    if s == "" then None
    else if s[0] == c then Some(0)
    else
      var r := IndexOf(s[1..], c);
      if r.None? then None
      else
        assert s[..r.value + 1] == [s[0]] + s[1..][..r.value];
        Some(r.value + 1)
  }

  function LastIndexOf(s: string, c: char): (i: Option<nat>)
    ensures i.None? <==> c !in s
    ensures i.Some? ==> i.value < |s| && s[i.value] == c && c !in s[i.value + 1..]
  {
    if s == "" then None
    else if s[|s| - 1] == c then Some(|s| - 1)
    else
      var t := s[..|s| - 1];
      assert s == t + [s[|s| - 1]];
      var r := LastIndexOf(t, c);
      if r.None? then None
      else
        assert s[r.value + 1..] == t[r.value + 1..] + [s[|s| - 1]];
        r
  }

  /** net.SplitHostPort; None stands for every kind of address error. */
  function SplitHostPort(s: string): Option<(string, string)> {
    var colon := LastIndexOf(s, ':');
    if colon.None? then None
    else
      var i := colon.value;
      if s[0] == '[' then
        var close := IndexOf(s, ']');
        if close.None? || close.value + 1 != i then None
        else if '[' in s[1..] || ']' in s[close.value + 1..] then None
        else Some((s[1..close.value], s[i + 1..]))
      else if ':' in s[..i] || '[' in s || ']' in s then None
      else Some((s[..i], s[i + 1..]))
  }

  lemma LastIndexIs(s: string, c: char, i: nat)
    requires i < |s| && s[i] == c && forall k :: i < k < |s| ==> s[k] != c
    ensures LastIndexOf(s, c) == Some(i)
  {
    assert c in s;
    var j := LastIndexOf(s, c).value;
    assert forall k :: j < k < |s| ==> s[k] == s[j + 1..][k - j - 1];
  }

  lemma FirstIndexIs(s: string, c: char, i: nat)
    requires i < |s| && s[i] == c && forall k :: 0 <= k < i ==> s[k] != c
    ensures IndexOf(s, c) == Some(i)
  {
    assert c in s;
    var j := IndexOf(s, c).value;
    assert forall k :: 0 <= k < j ==> s[k] == s[..j][k];
  }

  /** The brackets are at 0 and `i - 1`, the last colon is at `i`. */
  lemma SplitAtBrackets(s: string, i: nat)
    requires 2 <= i < |s| && s[0] == '[' && s[i - 1] == ']' && s[i] == ':'
    requires forall k :: 1 <= k < |s| ==> s[k] != '[' && (k != i - 1 ==> s[k] != ']')
    requires forall k :: i < k < |s| ==> s[k] != ':'
    ensures SplitHostPort(s) == Some((s[1..i - 1], s[i + 1..]))
  {
    LastIndexIs(s, ':', i);
    FirstIndexIs(s, ']', i - 1);
  }

  /** The bracketed form carries hosts that contain colons. */
  lemma SplitBracketed(host: string, port: string)
    requires '[' !in host && ']' !in host && '[' !in port && ']' !in port && ':' !in port
    ensures SplitHostPort("[" + host + "]:" + port) == Some((host, port))
  {
    var s := "[" + host + "]:" + port;
    var i := |host| + 2;
    assert forall k :: 1 <= k < i - 1 ==> s[k] == host[k - 1];
    assert forall k :: i < k < |s| ==> s[k] == port[k - i - 1];
    assert s[1..i - 1] == host && s[i + 1..] == port;
    SplitAtBrackets(s, i);
  }

  /** Without brackets a second colon is an error. */
  lemma SplitTooManyColons(a: string, b: string, c: string)
    requires a == "" || a[0] != '['
    requires ':' !in c
    ensures SplitHostPort(a + ":" + b + ":" + c).None?
  {
    var s := a + ":" + b + ":" + c;
    var i := |a| + 1 + |b|;
    assert forall k :: i < k < |s| ==> s[k] == c[k - i - 1];
    LastIndexIs(s, ':', i);
    assert s[..i][|a|] == ':';
  }

  /** No bracket and no colon. */
  predicate Bare(s: string) {
    ':' !in s && '[' !in s && ']' !in s
  }

  lemma SplitBare(host: string, port: string)
    requires Bare(host) && Bare(port)
    ensures SplitHostPort(host + ":" + port) == Some((host, port))
  {
    var s := host + ":" + port;
    var i := |host|;
    assert s[..i] == host && s[i + 1..] == port;
    assert forall k :: i < k < |s| ==> s[k] == port[k - i - 1];
    LastIndexIs(s, ':', i);
    assert forall k :: 0 <= k < |s| ==> s[k] != '[' && s[k] != ']';
  }

  lemma BracketForm(s: string, close: nat)
    requires 1 <= close && close + 1 < |s| && s[0] == '[' && s[close] == ']' && s[close + 1] == ':'
    requires '[' !in s[1..] && ']' !in s[..close] && ']' !in s[close + 1..] && ':' !in s[close + 2..]
    ensures var h, p := s[1..close], s[close + 2..];
            s == "[" + h + "]:" + p && '[' !in h && ']' !in h && Bare(p)
  {
    assert s[..close] == ['['] + s[1..close];
    assert s[1..] == s[1..close] + [']'] + s[close + 1..];
    assert s[close + 1..] == [':'] + s[close + 2..];
  }

  lemma BareForm(s: string, i: nat)
    requires i < |s| && s[i] == ':' && ':' !in s[..i] && ':' !in s[i + 1..] && '[' !in s && ']' !in s
    ensures s == s[..i] + ":" + s[i + 1..] && Bare(s[..i]) && Bare(s[i + 1..])
  {
    assert forall c :: c in s[..i] || c in s[i + 1..] ==> c in s;
  }

  /** What a text that splits looks like. */
  lemma SplitForms(s: string)
    requires SplitHostPort(s).Some?
    ensures var (h, p) := SplitHostPort(s).value;
            || (s == h + ":" + p && Bare(h) && Bare(p))
            || (s == "[" + h + "]:" + p && '[' !in h && ']' !in h && Bare(p))
  {
    var i := LastIndexOf(s, ':').value;
    if s[0] == '[' {
      BracketForm(s, IndexOf(s, ']').value);
    } else {
      BareForm(s, i);
    }
  }

  /** Exactly which texts split, and into what: host:port, or [host]:port for a host with colons. */
  lemma SplitIff(s: string, host: string, port: string)
    ensures SplitHostPort(s) == Some((host, port)) <==>
              || (s == host + ":" + port && Bare(host) && Bare(port))
              || (s == "[" + host + "]:" + port && '[' !in host && ']' !in host && Bare(port))
  {
    if SplitHostPort(s) == Some((host, port)) {
      SplitForms(s);
    } else if s == host + ":" + port && Bare(host) && Bare(port) {
      SplitBare(host, port);
    } else if s == "[" + host + "]:" + port && '[' !in host && ']' !in host && Bare(port) {
      SplitBracketed(host, port);
    }
  }

  // ---- Validate ----

  datatype Verdict = Valid | OpenByDefault | UnknownDefault | EmptyEntry(i: nat)

  predicate Acceptable(p: Policy) {
    p.defaultPolicy == "deny" && forall i :: 0 <= i < |p.allowlist| ==> TrimSpace(p.allowlist[i]) != ""
  }

  /** Only deny-by-default policies without blank entries pass; the first blank entry is named. */
  method Validate(p: Policy) returns (v: Verdict)
    ensures v == Valid <==>
              p.defaultPolicy == "deny" && forall i :: 0 <= i < |p.allowlist| ==> TrimSpace(p.allowlist[i]) != ""
    ensures v == OpenByDefault <==> p.defaultPolicy == "allow"
    ensures v == UnknownDefault <==> p.defaultPolicy != "allow" && p.defaultPolicy != "deny"
    ensures v.EmptyEntry? ==> && v.i < |p.allowlist| && TrimSpace(p.allowlist[v.i]) == ""
                              && forall j :: 0 <= j < v.i ==> TrimSpace(p.allowlist[j]) != ""
  {
    if p.defaultPolicy == "allow" { return OpenByDefault; }
    if p.defaultPolicy != "deny" { return UnknownDefault; }
    for i := 0 to |p.allowlist|
      invariant forall j :: 0 <= j < i ==> TrimSpace(p.allowlist[j]) != ""
    {
      if TrimSpace(p.allowlist[i]) == "" { return EmptyEntry(i); }
    }
    return Valid;
  }

  // ---- Allows ----

  function HostPart(s: string): string {
    var r := SplitHostPort(s);
    if r.None? then s else r.value.0
  }

  function Normal(s: string): string {
    TrimSpace(ToLower(s))
  }

  /** One allowlist entry admits a query. */
  predicate EntryAdmits(raw: string, query: string) {
    var entry := Normal(raw);
    || entry == query
    || entry == HostPart(query)
    || (SplitHostPort(entry).Some? && SplitHostPort(entry).value.0 == HostPart(query))
  }

  /** The meaning of Allows: a non-blank query admitted by some entry. */
  ghost predicate Allowed(allowlist: seq<string>, hostport: string) {
    Normal(hostport) != "" && SomeAdmits(allowlist, Normal(hostport))
  }

  /** The two tests of the loop body, on normalised text. */
  predicate Hit(entry: string, query: string, host: string) {
    || entry == query
    || entry == host
    || (SplitHostPort(entry).Some? && (SplitHostPort(entry).value.0 == host || entry == query))
  }

  /** The loop body on one entry. */
  method TestEntry(raw: string, query: string, host: string) returns (hit: bool)
    requires host == HostPart(query)
    ensures hit <==> EntryAdmits(raw, query)
  {
    var entry := Normal(raw);
    hit := Hit(entry, query, host);
  }

  ghost predicate SomeAdmits(allowlist: seq<string>, query: string) {
    exists i :: 0 <= i < |allowlist| && EntryAdmits(allowlist[i], query)
  }

  /** The loop over the allowlist. */
  method TestEntries(allowlist: seq<string>, query: string, host: string) returns (ok: bool)
    requires host == HostPart(query)
    ensures ok <==> SomeAdmits(allowlist, query)
  {
    ghost var hits := Hits(allowlist, query);
    for i := 0 to |allowlist|
      invariant forall j :: 0 <= j < i ==> !hits[j]
    {
      var hit := TestEntry(allowlist[i], query, host);
      if hit {
        SomeHit(allowlist, query, i);
        return true;
      }
    }
    NoHit(allowlist, query);
    return false;
  }

  /** Which entries admit the query. */
  ghost function Hits(allowlist: seq<string>, query: string): (hits: seq<bool>)
    ensures |hits| == |allowlist|
    ensures forall i :: 0 <= i < |allowlist| ==> hits[i] == EntryAdmits(allowlist[i], query)
  {
    seq(|allowlist|, i requires 0 <= i < |allowlist| => EntryAdmits(allowlist[i], query))
  }

  lemma SomeHit(allowlist: seq<string>, query: string, i: nat)
    requires i < |allowlist| && EntryAdmits(allowlist[i], query)
    ensures SomeAdmits(allowlist, query)
  {
  }

  lemma NoHit(allowlist: seq<string>, query: string)
    requires forall i :: 0 <= i < |allowlist| ==> !Hits(allowlist, query)[i]
    ensures !SomeAdmits(allowlist, query)
  {
    forall i | 0 <= i < |allowlist| ensures !EntryAdmits(allowlist[i], query) {
      assert !Hits(allowlist, query)[i];
    }
  }

  method Allows(allowlist: seq<string>, hostport: string) returns (ok: bool)
    ensures ok <==> Allowed(allowlist, hostport)
  {
    var query := Normal(hostport);
    if query == "" { return false; }
    ok := TestEntries(allowlist, query, HostPart(query));
  }

  // ---- resolveAllowlist ----

  datatype Resolver = Resolver(lookup: string -> Option<seq<IP>>, parse6: string -> Option<IP>)

  /** The addresses one entry stands for; None is a failed lookup. */
  function EntryAddresses(raw: string, net: Resolver): Option<seq<IP>> {
    var host := HostPart(TrimSpace(raw));
    var ip := ParseIP(host, net.parse6);
    if ip.Some? then Some([ip.value]) else net.lookup(host)
  }

  ghost predicate NoDuplicates(ips: seq<IP>) {
    forall i, j :: 0 <= i < j < |ips| ==> ips[i] != ips[j]
  }

  predicate StandsFor(raw: string, net: Resolver, ip: IP) {
    EntryAddresses(raw, net).Some? && ip in EntryAddresses(raw, net).value
  }

  ghost predicate SomeStandsFor(entries: seq<string>, net: Resolver, ip: IP) {
    exists i :: 0 <= i < |entries| && StandsFor(entries[i], net, ip)
  }

  /** `ips` lists, once each, exactly the addresses the entries stand for. */
  ghost predicate Resolves(entries: seq<string>, net: Resolver, ips: seq<IP>) {
    && NoDuplicates(ips)
    && (forall i :: 0 <= i < |entries| ==> EntryAddresses(entries[i], net).Some?)
    && (forall ip :: ip in ips <==> SomeStandsFor(entries, net, ip))
  }

  /** A policy under which a link can be built: acceptable, every entry resolves, and some address comes out. */
  ghost predicate Servable(p: Policy, net: Resolver) {
    && Acceptable(p) && p.allowlist != []
    && (forall i :: 0 <= i < |p.allowlist| ==> EntryAddresses(p.allowlist[i], net).Some?)
    && exists ip :: SomeStandsFor(p.allowlist, net, ip)
  }

  /** Appends the addresses not seen before. */
  function Appended(ips: seq<IP>, found: seq<IP>): seq<IP>
    decreases |found|
  {
    if found == [] then ips
    else Appended(if found[0] in ips then ips else ips + [found[0]], found[1..])
  }

  lemma {:induction false} AppendedHolds(ips: seq<IP>, found: seq<IP>)
    requires NoDuplicates(ips)
    ensures NoDuplicates(Appended(ips, found))
    ensures forall ip :: ip in Appended(ips, found) <==> ip in ips || ip in found
    decreases |found|
  {
    if found != [] {
      AppendedHolds(if found[0] in ips then ips else ips + [found[0]], found[1..]);
    }
  }

  /** New addresses come after the old ones, in the order they were found. */
  lemma {:induction false} AppendedInOrder(ips: seq<IP>, found: seq<IP>)
    ensures ips <= Appended(ips, found)
    ensures NoDuplicates(found) && (forall ip :: ip in found ==> ip !in ips) ==> Appended(ips, found) == ips + found
    decreases |found|
  {
    if found != [] {
      var next := if found[0] in ips then ips else ips + [found[0]];
      AppendedInOrder(next, found[1..]);
      if NoDuplicates(found) && forall ip :: ip in found ==> ip !in ips {
        forall ip | ip in found[1..] ensures ip !in next {
          assert ip in found;
        }
        assert (ips + [found[0]]) + found[1..] == ips + found;
      }
    }
  }

  method AddNew(ips: seq<IP>, found: seq<IP>) returns (out: seq<IP>)
    ensures out == Appended(ips, found)
  {
    var seen := set ip | ip in ips;
    out := ips;
    for i := 0 to |found|
      invariant forall ip :: ip in seen <==> ip in out
      invariant Appended(out, found[i..]) == Appended(ips, found)
    {
      assert found[i..][1..] == found[i + 1..];
      if found[i] !in seen {
        seen := seen + {found[i]};
        out := out + [found[i]];
      }
    }
  }

  /** What each entry stands for, in order. */
  function Found(entries: seq<string>, net: Resolver): seq<Option<seq<IP>>> {
    seq(|entries|, i requires 0 <= i < |entries| => EntryAddresses(entries[i], net))
  }

  predicate Holds(list: Option<seq<IP>>, ip: IP) {
    list.Some? && ip in list.value
  }

  /** The addresses in order of first appearance; None when an entry has none to offer. */
  function Merged(ips: seq<IP>, lists: seq<Option<seq<IP>>>): Option<seq<IP>>
    decreases |lists|
  {
    if lists == [] then Some(ips)
    else if lists[0].None? then None
    else Merged(Appended(ips, lists[0].value), lists[1..])
  }

  lemma {:induction false} MergedHolds(ips: seq<IP>, lists: seq<Option<seq<IP>>>)
    requires NoDuplicates(ips)
    ensures Merged(ips, lists).None? <==> exists i :: 0 <= i < |lists| && lists[i].None?
    ensures Merged(ips, lists).Some? ==>
              && NoDuplicates(Merged(ips, lists).value)
              && forall ip :: ip in Merged(ips, lists).value <==>
                                ip in ips || exists i :: 0 <= i < |lists| && Holds(lists[i], ip)
    decreases |lists|
  {
    if lists != [] && lists[0].Some? {
      var more, rest := Appended(ips, lists[0].value), lists[1..];
      AppendedHolds(ips, lists[0].value);
      MergedHolds(more, rest);
      assert forall i :: 1 <= i < |lists| ==> lists[i] == rest[i - 1];
      forall ip ensures (ip in more || exists i :: 0 <= i < |rest| && Holds(rest[i], ip))
                        <==> (ip in ips || exists i :: 0 <= i < |lists| && Holds(lists[i], ip))
      {
        assert ip in lists[0].value <==> Holds(lists[0], ip);
      }
    }
  }

  /** The addresses of earlier entries come before those of later ones. */
  lemma {:induction false} MergedInOrder(ips: seq<IP>, lists: seq<Option<seq<IP>>>, k: nat)
    requires k <= |lists| && Merged(ips, lists).Some?
    ensures Merged(ips, lists[..k]).Some? && Merged(ips, lists[..k]).value <= Merged(ips, lists).value
    decreases |lists|
  {
    if lists != [] {
      var next := Appended(ips, lists[0].value);
      AppendedInOrder(ips, lists[0].value);
      if k > 0 {
        MergedInOrder(next, lists[1..], k - 1);
        assert lists[..k][1..] == lists[1..][..k - 1];
      } else {
        MergedInOrder(next, lists[1..], 0);
        assert lists[1..][..0] == lists[..0] == [];
      }
    }
  }

  /** Collects the addresses without duplicates; stops at the first entry that has none to offer. */
  method Merge(lists: seq<Option<seq<IP>>>) returns (out: Option<seq<IP>>)
    ensures out == Merged([], lists)
  {
    var ips: seq<IP> := [];
    for k := 0 to |lists|
      invariant Merged(ips, lists[k..]) == Merged([], lists)
    {
      assert lists[k..][1..] == lists[k + 1..];
      if lists[k].None? { return None; }
      ips := AddNew(ips, lists[k].value);
    }
    return Some(ips);
  }

  /** The addresses of an allowlist. */
  function Resolution(entries: seq<string>, net: Resolver): Option<seq<IP>> {
    Merged([], Found(entries, net))
  }

  lemma ResolutionResolves(entries: seq<string>, net: Resolver)
    ensures Resolution(entries, net).Some? ==> Resolves(entries, net, Resolution(entries, net).value)
    ensures Resolution(entries, net).None? <==> exists i :: 0 <= i < |entries| && EntryAddresses(entries[i], net).None?
  {
    var lists := Found(entries, net);
    MergedHolds([], lists);
    assert forall i :: 0 <= i < |entries| ==> lists[i] == EntryAddresses(entries[i], net);
    if Resolution(entries, net).Some? { MergedResolves(entries, net, Resolution(entries, net).value); }
  }

  /** Fails exactly when some entry cannot be resolved. */
  method ResolveAllowlist(entries: seq<string>, net: Resolver) returns (out: Option<seq<IP>>)
    ensures out == Resolution(entries, net)
    ensures out.Some? ==> Resolves(entries, net, out.value)
    ensures out.None? <==> exists i :: 0 <= i < |entries| && EntryAddresses(entries[i], net).None?
  {
    ResolutionResolves(entries, net);
    var lists := Found(entries, net);
    out := Merge(lists);
  }

  lemma MergedResolves(entries: seq<string>, net: Resolver, ips: seq<IP>)
    requires NoDuplicates(ips)
    requires forall i :: 0 <= i < |entries| ==> Found(entries, net)[i].Some?
    requires forall ip :: ip in ips <==> exists i :: 0 <= i < |entries| && Holds(Found(entries, net)[i], ip)
    ensures Resolves(entries, net, ips)
  {
    forall ip ensures ip in ips <==> SomeStandsFor(entries, net, ip) {
      forall i | 0 <= i < |entries| ensures StandsFor(entries[i], net, ip) <==> Holds(Found(entries, net)[i], ip) {
      }
    }
    forall i | 0 <= i < |entries| ensures EntryAddresses(entries[i], net).Some? {
      assert Found(entries, net)[i].Some?;
    }
  }

  // ---- entries and queries that name a host ----

  predicate HostChar(c: char) {
    'a' <= c <= 'z' || '0' <= c <= '9' || c == '.' || c == '-' || c == '_'
  }

  /** A host name or an IPv4 literal in lower case. */
  predicate HostText(h: string) {
    h != "" && forall i :: 0 <= i < |h| ==> HostChar(h[i])
  }

  /** The same text but for the case of some letters. */
  predicate CaseOf(v: string, h: string) {
    && |v| == |h|
    && forall i :: 0 <= i < |h| ==> v[i] == h[i] || ('A' <= v[i] <= 'Z' && h[i] == v[i] - 'A' + 'a')
  }

  predicate Blank(s: string) {
    forall i :: 0 <= i < |s| ==> IsSpace(s[i])
  }

  /** A port as net.SplitHostPort takes it: a number, a service name or nothing. */
  predicate PortText(port: Option<string>) {
    port.Some? ==> Bare(port.value)
  }

  function WithPort(v: string, port: Option<string>): string {
    match port
    case None => v
    case Some(p) => v + ":" + p
  }

  /** A text that names the host `h`: in any case, with or without a port, padded or not. */
  ghost predicate Names(raw: string, h: string) {
    exists pre, v, port, post ::
      Blank(pre) && Blank(post) && CaseOf(v, h) && PortText(port) && raw == pre + WithPort(v, port) + post
  }

  lemma {:induction false} TrimLeftDrops(pre: string, x: string)
    requires Blank(pre) && x != "" && !IsSpace(x[0])
    ensures TrimLeft(pre + x) == x
  {
    if pre == "" {
      assert pre + x == x;
    } else {
      assert (pre + x)[1..] == pre[1..] + x;
      TrimLeftDrops(pre[1..], x);
    }
  }

  lemma {:induction false} TrimRightDrops(x: string, post: string)
    requires Blank(post)
    ensures TrimRight(x + post) == TrimRight(x)
  {
    if post == "" {
      assert x + post == x;
    } else {
      var t := post[..|post| - 1];
      assert (x + post)[..|x + post| - 1] == x + t;
      TrimRightDrops(x, t);
    }
  }

  /** Trimming on the right stops at a character that is not a space. */
  lemma {:induction false} TrimRightStops(s: string, k: nat)
    requires k < |s| && !IsSpace(s[k])
    ensures |TrimRight(s)| > k
  {
    if IsSpace(s[|s| - 1]) { TrimRightStops(s[..|s| - 1], k); }
  }

  lemma BlankIsTrimmed(s: string)
    requires Blank(s)
    ensures TrimSpace(s) == ""
  {
    LeftOfBlank(s);
    TrimRightDrops("", TrimLeft(s));
    assert "" + TrimLeft(s) == TrimLeft(s);
  }

  lemma {:induction false} LeftOfBlank(s: string)
    requires Blank(s)
    ensures Blank(TrimLeft(s))
  {
    if s != "" { LeftOfBlank(s[1..]); }
  }

  lemma HostIsBare(v: string, h: string)
    requires HostText(h) && CaseOf(v, h)
    ensures Bare(v) && v != "" && forall i :: 0 <= i < |v| ==> !IsSpace(v[i])
  {
    forall i | 0 <= i < |v| ensures v[i] != ':' && v[i] != '[' && v[i] != ']' && !IsSpace(v[i]) {
      assert HostChar(h[i]);
    }
  }

  /** Trimming leaves the host, and of the port all but spaces after it. */
  lemma TrimmedHost(pre: string, v: string, port: Option<string>, post: string, h: string)
      returns (rest: Option<string>)
    requires HostText(h) && CaseOf(v, h) && Blank(pre) && Blank(post) && PortText(port)
    ensures PortText(rest) && (rest.Some? <==> port.Some?)
    ensures TrimSpace(pre + WithPort(v, port) + post) == WithPort(v, rest)
  {
    HostIsBare(v, h);
    var x := WithPort(v, port);
    assert pre + x + post == pre + (x + post);
    assert (x + post)[0] == v[0];
    TrimLeftDrops(pre, x + post);
    TrimRightDrops(x, post);
    if port.None? {
      TrimRightStops(v, |v| - 1);
      rest := None;
    } else {
      assert x[|v|] == ':';
      TrimRightStops(x, |v|);
      var t := TrimRight(x);
      assert t == x[..|t|];
      rest := Some(port.value[..|t| - |v| - 1]);
      assert t == v + ":" + rest.value;
    }
  }

  lemma HostOf(v: string, port: Option<string>, h: string)
    requires HostText(h) && CaseOf(v, h) && PortText(port)
    ensures HostPart(WithPort(v, port)) == v && WithPort(v, port) != ""
  {
    HostIsBare(v, h);
    if port.Some? { SplitBare(v, port.value); }
  }

  lemma LowerHost(v: string, port: Option<string>, h: string)
    requires HostText(h) && CaseOf(v, h) && PortText(port)
    ensures var low := if port.Some? then Some(ToLower(port.value)) else None;
            ToLower(WithPort(v, port)) == WithPort(h, low) && PortText(low)
  {
    forall i | 0 <= i < |v| ensures LowerChar(v[i]) == h[i] {
      assert HostChar(h[i]);
    }
    assert ToLower(v) == h;
  }

  /** Lower-casing before trimming or after it is the same. */
  lemma LowerThenTrim(s: string)
    ensures TrimSpace(ToLower(s)) == ToLower(TrimSpace(s))
  {
    LowerTrimLeft(s);
    LowerTrimRight(TrimLeft(s));
  }

  lemma {:induction false} LowerTrimLeft(s: string)
    ensures TrimLeft(ToLower(s)) == ToLower(TrimLeft(s))
  {
    if s != "" && IsSpace(s[0]) {
      LowerTrimLeft(s[1..]);
      assert ToLower(s)[1..] == ToLower(s[1..]);
    }
  }

  lemma {:induction false} LowerTrimRight(s: string)
    ensures TrimRight(ToLower(s)) == ToLower(TrimRight(s))
  {
    if s != "" && IsSpace(s[|s| - 1]) {
      LowerTrimRight(s[..|s| - 1]);
      assert ToLower(s)[..|s| - 1] == ToLower(s[..|s| - 1]);
    }
  }

  /** What the normal form of a text that names a host is. */
  lemma NormalHost(raw: string, h: string) returns (port: Option<string>)
    requires Names(raw, h) && HostText(h)
    ensures PortText(port) && Normal(raw) == WithPort(h, port) && Normal(raw) != ""
    ensures HostPart(Normal(raw)) == h
  {
    var pre, v, p, post :|
      Blank(pre) && Blank(post) && CaseOf(v, h) && PortText(p) && raw == pre + WithPort(v, p) + post;
    var rest := TrimmedHost(pre, v, p, post, h);
    LowerThenTrim(raw);
    LowerHost(v, rest, h);
    port := if rest.Some? then Some(ToLower(rest.value)) else None;
    HostOf(h, port, h);
  }

  /**
   An entry that names a host admits a query that names one exactly when the hosts are equal,
   whatever case they are written in, whatever ports they name and however they are padded.
   */
  lemma HostAdmitsIff(raw: string, h: string, query: string, k: string)
    requires Names(raw, h) && Names(query, k) && HostText(h) && HostText(k)
    ensures EntryAdmits(raw, Normal(query)) <==> h == k
  {
    var _ := NormalHost(raw, h);
    var _ := NormalHost(query, k);
    HostOf(k, None, k);
    EqualHostsIff(raw, Normal(query), h, k);
  }

  /** An entry admits a query exactly when their hosts are equal, where the query's host is itself a host. */
  lemma EqualHostsIff(raw: string, query: string, h: string, k: string)
    requires HostPart(Normal(raw)) == h && HostPart(query) == k && HostPart(k) == k
    ensures EntryAdmits(raw, query) <==> h == k
  {
  }

  ghost predicate HostList(allowlist: seq<string>, hosts: seq<string>) {
    && |hosts| == |allowlist|
    && forall i :: 0 <= i < |allowlist| ==> HostText(hosts[i]) && Names(allowlist[i], hosts[i])
  }

  /** For an allowlist of hosts, Allows admits exactly the queries for one of them. */
  lemma AllowsHostsIff(allowlist: seq<string>, hosts: seq<string>, query: string, k: string)
    requires HostList(allowlist, hosts) && HostText(k) && Names(query, k)
    ensures Allowed(allowlist, query) <==> k in hosts
  {
    var _ := NormalHost(query, k);
    forall i | 0 <= i < |allowlist| ensures EntryAdmits(allowlist[i], Normal(query)) <==> hosts[i] == k {
      HostAdmitsIff(allowlist[i], hosts[i], query, k);
    }
  }

  /** A blank query is refused, whatever is allowed. */
  lemma BlankQueryIsRefused(allowlist: seq<string>, query: string)
    requires Blank(query)
    ensures !Allowed(allowlist, query)
  {
    LowerThenTrim(query);
    BlankIsTrimmed(query);
  }

  /** An entry is looked up as it is written, without padding and without its port. */
  lemma EntryIsLookedUp(pre: string, v: string, port: Option<string>, post: string, h: string, net: Resolver)
    requires HostText(h) && CaseOf(v, h) && Blank(pre) && Blank(post) && PortText(port)
    ensures EntryAddresses(pre + WithPort(v, port) + post, net)
            == match ParseIP(v, net.parse6)
               case Some(ip) => Some([ip])
               case None => net.lookup(v)
  {
    var rest := TrimmedHost(pre, v, port, post, h);
    HostOf(v, rest, h);
  }

  // ---- the compiled policy means what Allows says ----

  /** The text names an IPv4 literal. */
  ghost predicate Literal(raw: string, q: Quad) {
    Names(raw, Print(q))
  }

  lemma PrintIsHost(q: Quad)
    ensures HostText(Print(q))
  {
  }

  /** A literal entry admits a literal query exactly when the addresses are equal, whatever ports they name. */
  lemma LiteralAdmitsIff(raw: string, q: Quad, query: string, x: Quad)
    requires Literal(raw, q) && Literal(query, x)
    ensures EntryAdmits(raw, Normal(query)) <==> q == x
  {
    PrintIsHost(q);
    PrintIsHost(x);
    HostAdmitsIff(raw, Print(q), query, Print(x));
    if Print(q) == Print(x) { PrintInjective(q, x); }
  }

  /** A printed address has no letters. */
  lemma LiteralIsWritten(v: string, q: Quad)
    requires CaseOf(v, Print(q))
    ensures v == Print(q)
  {
    assert forall i :: 0 <= i < |Print(q)| ==> IsDigit(Print(q)[i]) || Print(q)[i] == '.';
  }

  lemma LiteralEntryAddresses(raw: string, q: Quad, net: Resolver)
    requires Literal(raw, q)
    ensures EntryAddresses(raw, net) == Some([V4(q)])
  {
    var h := Print(q);
    var pre, v, p, post :|
      Blank(pre) && Blank(post) && CaseOf(v, h) && PortText(p) && raw == pre + WithPort(v, p) + post;
    PrintIsHost(q);
    LiteralIsWritten(v, q);
    EntryIsLookedUp(pre, v, p, post, h, net);
    PrintThenParseIP(q, net.parse6);
  }

  ghost predicate LiteralList(allowlist: seq<string>, quads: seq<Quad>) {
    |quads| == |allowlist| && forall i :: 0 <= i < |allowlist| ==> Literal(allowlist[i], quads[i])
  }

  lemma LiteralListAllows(allowlist: seq<string>, quads: seq<Quad>, query: string, x: Quad)
    requires LiteralList(allowlist, quads) && Literal(query, x)
    ensures Allowed(allowlist, query) <==> x in quads
  {
    PrintIsHost(x);
    var _ := NormalHost(query, Print(x));
    forall i | 0 <= i < |allowlist| ensures EntryAdmits(allowlist[i], Normal(query)) <==> quads[i] == x {
      LiteralAdmitsIff(allowlist[i], quads[i], query, x);
    }
  }

  lemma LiteralListStandsFor(allowlist: seq<string>, quads: seq<Quad>, net: Resolver, x: Quad)
    requires LiteralList(allowlist, quads)
    ensures SomeStandsFor(allowlist, net, V4(x)) <==> x in quads
  {
    forall i | 0 <= i < |allowlist| ensures StandsFor(allowlist[i], net, V4(x)) <==> quads[i] == x {
      LiteralEntryAddresses(allowlist[i], quads[i], net);
    }
  }

  /**
   For an allowlist of IPv4 literals the in-process check and the resolved address list agree on
   every IPv4 literal query, whatever port it names.
   */
  lemma AllowsAgreesWithResolution(allowlist: seq<string>, quads: seq<Quad>, net: Resolver, ips: seq<IP>,
                                   query: string, x: Quad)
    requires LiteralList(allowlist, quads) && Resolves(allowlist, net, ips) && Literal(query, x)
    ensures Allowed(allowlist, query) <==> V4(x) in ips
  {
    LiteralListAllows(allowlist, quads, query, x);
    LiteralListStandsFor(allowlist, quads, net, x);
  }

  /**
   Compilation preserves meaning: a packet opening a new flow passes exactly when it enters by
   the filter interface and some entry stands for its destination.
   */
  lemma NewFlowAcceptedIff(link: Link, entries: seq<string>, net: Resolver, ips: seq<IP>, p: Egress.Packet)
    requires Resolves(entries, net, ips)
    ensures Egress.Accepts(Egress.ForwardRules(link, ips), Egress.New, p) <==>
              p.iif == Egress.FilterIface(link) && SomeStandsFor(entries, net, p.flow.dst)
  {
    Egress.AcceptsIff(link, ips, Egress.New, p);
  }

  /** For IPv4-literal allowlists the packet filter decides what Allows decides. */
  lemma FilterAgreesWithAllows(link: Link, allowlist: seq<string>, quads: seq<Quad>, net: Resolver, ips: seq<IP>,
                               p: Egress.Packet, query: string, x: Quad)
    requires LiteralList(allowlist, quads) && Resolves(allowlist, net, ips) && Literal(query, x)
    requires p.iif == Egress.FilterIface(link) && p.flow.dst == V4(x)
    ensures Egress.Accepts(Egress.ForwardRules(link, ips), Egress.New, p) <==> Allowed(allowlist, query)
  {
    Egress.AcceptsIff(link, ips, Egress.New, p);
    AllowsAgreesWithResolution(allowlist, quads, net, ips, query, x);
  }
}
