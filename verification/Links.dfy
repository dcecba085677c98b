/**
 The TAP link of one microVM: names, the /30 allocator, and the part of a snapshot record that
 carries the link across a save and a restore (internal/network/tap.go, internal/network/netns.go,
 internal/runtime/fcsnap.go).
 */
module Links {
  import opened Basics
  import opened Address
  import opened Paths

  datatype Link = Link(
    name: string,
    hostIP: Option<Quad>,
    guestIP: Option<Quad>,
    prefix: nat,
    guestMAC: string,
    table: string,
    netns: string,
    netnsPath: string,
    hostVeth: string,
    nsVeth: string,
    uplinkHost: Option<Quad>,
    uplinkNS: Option<Quad>)

  // ---- names ----

  predicate IsAlnum(c: char) {
    'a' <= c <= 'z' || 'A' <= c <= 'Z' || '0' <= c <= '9'
  }

  /** strings.Map with -1 for every rune outside `keep`. */
  function Filter(s: string, keep: char -> bool): (r: string)
    ensures forall i :: 0 <= i < |r| ==> keep(r[i])
    ensures |r| <= |s|
  {
    if s == "" then ""
    else if keep(s[0]) then [s[0]] + Filter(s[1..], keep)
    else Filter(s[1..], keep)
  }

  /** Filtering works character by character: with FilterOne this says what it is. */
  lemma {:induction false} FilterConcat(a: string, b: string, keep: char -> bool)
    ensures Filter(a + b, keep) == Filter(a, keep) + Filter(b, keep)
  {
    if a == "" {
      assert a + b == b;
    } else {
      assert (a + b)[1..] == a[1..] + b;
      FilterConcat(a[1..], b, keep);
    }
  }

  lemma FilterOne(c: char, keep: char -> bool)
    ensures Filter([c], keep) == if keep(c) then [c] else ""
  {
  }

  lemma {:induction false} FilterKeepsAll(s: string, keep: char -> bool)
    requires forall i :: 0 <= i < |s| ==> keep(s[i])
    ensures Filter(s, keep) == s
  {
    if s != "" { FilterKeepsAll(s[1..], keep); }
  }

  /** Kernel interface names hold at most 15 characters. */
  function Clip(s: string, n: nat): (r: string)
    ensures |r| <= n && r <= s
    ensures |s| <= n ==> r == s
    ensures |s| > 0 && n > 0 ==> |r| > 0 && r[0] == s[0]
  {
    if |s| > n then s[..n] else s
  }

  function TapName(id: string): (s: string)
    ensures 2 <= |s| <= 15 && s[0] == 'w'
  {
    var t := Clip("w" + Filter(id, IsAlnum), 15);
    if |t| == 1 then "wtap" else t
  }

  function TrimW(tap: string): string {
    if |tap| > 0 && tap[0] == 'w' then tap[1..] else tap
  }

  function VethBase(tap: string): (b: string)
    ensures b != ""
  {
    if TrimW(tap) == "" then "tap" else TrimW(tap)
  }

  function HostVethName(tap: string): (s: string)
    ensures 2 <= |s| <= 15 && s[0] == 'h'
  {
    var full := "h" + VethBase(tap);
    assert |full| >= 2;
    Clip(full, 15)
  }

  function NsVethName(tap: string): (s: string)
    ensures 2 <= |s| <= 15 && s[0] == 'g'
  {
    var full := "g" + VethBase(tap);
    assert |full| >= 2;
    Clip(full, 15)
  }

  /** The part of an id that reaches its device names: its first 14 letters and digits. */
  function NameCore(id: string): string {
    var core := Clip(Filter(id, IsAlnum), 14);
    if core == "" then "tap" else core
  }

  /** The three device names of a link are one letter before the same core. */
  lemma DeviceNames(id: string)
    ensures TapName(id) == "w" + NameCore(id)
    ensures HostVethName(TapName(id)) == "h" + NameCore(id)
    ensures NsVethName(TapName(id)) == "g" + NameCore(id)
  {
    var kept, core := Filter(id, IsAlnum), NameCore(id);
    assert TapName(id) == "w" + core by {
      if kept != "" { assert Clip("w" + kept, 15) == "w" + Clip(kept, 14); }
    }
    assert ("w" + core)[1..] == core;
    assert |"h" + core| <= 15 && |"g" + core| <= 15;
  }

  /** The id Setup is given: a session's links are named after it, other links after their VM. */
  function TapID(vmID: string, session: string): string {
    if session != "" then "s" + session else vmID
  }

  lemma FilterFirst(c: char, s: string, keep: char -> bool)
    requires keep(c)
    ensures Filter([c] + s, keep) == [c] + Filter(s, keep)
  {
    assert ([c] + s)[1..] == s;
  }

  /** The part of a session id that reaches its device names: the prefix takes one of the 14 places. */
  function SessionCore(session: string): string {
    Clip(Filter(session, IsAlnum), 13)
  }

  lemma SessionNameCore(vmID: string, session: string)
    requires session != ""
    ensures NameCore(TapID(vmID, session)) == "s" + SessionCore(session)
  {
    FilterFirst('s', session, IsAlnum);
    var kept := Filter(session, IsAlnum);
    assert Clip("s" + kept, 14) == "s" + Clip(kept, 13);
  }

  lemma SamePrefix(p: string, x: string, y: string)
    ensures p + x == p + y <==> x == y
  {
    assert (p + x)[|p|..] == x && (p + y)[|p|..] == y;
  }

  /**
   Two sessions ask for the same device names exactly when the first 13 letters and digits of their
   ids agree: punctuation and later characters are lost.
   */
  lemma SameDevicesIff(vm1: string, a: string, vm2: string, b: string)
    requires a != "" && b != ""
    ensures var t, u := TapName(TapID(vm1, a)), TapName(TapID(vm2, b));
            && (t == u <==> SessionCore(a) == SessionCore(b))
            && (HostVethName(t) == HostVethName(u) <==> SessionCore(a) == SessionCore(b))
            && (NsVethName(t) == NsVethName(u) <==> SessionCore(a) == SessionCore(b))
  {
    DeviceNames(TapID(vm1, a));
    DeviceNames(TapID(vm2, b));
    SessionNameCore(vm1, a);
    SessionNameCore(vm2, b);
    var x, y := SessionCore(a), SessionCore(b);
    SamePrefix("s", x, y);
    SamePrefix("w", "s" + x, "s" + y);
    SamePrefix("h", "s" + x, "s" + y);
    SamePrefix("g", "s" + x, "s" + y);
  }

  function NetnsName(id: string): (s: string)
    ensures 7 < |s| <= 128 && s[..7] == "warden-"
  {
    var kept := Filter(id, c => IsAlnum(c) || c == '-');
    var s := if kept == "" then "warden-tap" else Clip("warden-" + kept, 128);
    assert forall i :: 0 <= i < 7 ==> s[i] == "warden-"[i];
    s
  }

  function NftTable(id: string): (s: string)
    ensures |s| >= 7
  {
    "warden_" + seq(|id|, i requires 0 <= i < |id| => if IsAlnum(id[i]) || id[i] == '_' then id[i] else '_')
  }

  function NetnsPath(ns: string): (s: string)
    ensures s != ""
  {
    "/var/run/netns/" + ns
  }

  /** The first letters of the names of a session's link. */
  lemma SessionInitials(vmID: string, session: string)
    requires session != ""
    ensures var id := TapID(vmID, session);
            NameCore(id)[0] == 's' && NetnsName(id)[7] == 's' && NftTable(id)[7] == 's'
  {
    SessionNameCore(vmID, session);
    FilterFirst('s', session, c => IsAlnum(c) || c == '-');
  }

  /** The first letters of the names of a link without a session. */
  lemma JobInitials(number: string)
    ensures var id := TapID("fc-" + number, "");
            NameCore(id) != "" && NameCore(id)[0] == 'f' && NetnsName(id)[7] == 'f' && NftTable(id)[7] == 'f'
  {
    assert "fc-" + number == ['f'] + ("c-" + number);
    FilterFirst('f', "c-" + number, IsAlnum);
    FilterFirst('f', "c-" + number, c => IsAlnum(c) || c == '-');
  }

  /** A link of a session and a link without one share no name. */
  lemma SessionsAndJobsApart(vmID: string, session: string, number: string)
    requires session != ""
    ensures var a, b := TapID(vmID, session), TapID("fc-" + number, "");
            && TapName(a) != TapName(b) && HostVethName(TapName(a)) != HostVethName(TapName(b))
            && NsVethName(TapName(a)) != NsVethName(TapName(b))
            && NetnsName(a) != NetnsName(b) && NftTable(a) != NftTable(b)
  {
    var a, b := TapID(vmID, session), TapID("fc-" + number, "");
    SessionInitials(vmID, session);
    JobInitials(number);
    DeviceNames(a);
    DeviceNames(b);
    assert forall c: char :: ([c] + NameCore(a))[1] == 's' && ([c] + NameCore(b))[1] == 'f';
  }

  // ---- the names of a link, spelled out ----

  predicate Number(s: string) {
    s != "" && forall i :: 0 <= i < |s| ==> '0' <= s[i] <= '9'
  }

  /** Letters of either case and digits. */
  predicate Word(s: string) {
    forall i :: 0 <= i < |s| ==> 'a' <= s[i] <= 'z' || 'A' <= s[i] <= 'Z' || '0' <= s[i] <= '9'
  }

  lemma WordIsKept(word: string)
    requires Word(word)
    ensures Filter(word, IsAlnum) == word
  {
    FilterKeepsAll(word, IsAlnum);
  }

  /** A character that is not kept leaves no trace. */
  lemma DropsBetween(front: string, c: char, word: string)
    requires Word(front) && Word(word) && !IsAlnum(c)
    ensures Filter(front + [c] + word, IsAlnum) == front + word
  {
    FilterConcat(front + [c], word, IsAlnum);
    FilterConcat(front, [c], IsAlnum);
    FilterOne(c, IsAlnum);
    WordIsKept(front);
    WordIsKept(word);
    assert front + "" == front;
  }

  lemma Glue(a: string, b: string, ab: string, c: string)
    requires a + b == ab
    ensures a + (b + c) == ab + c
  {
  }

  /** The device names that come from a short word. */
  lemma CoreNames(id: string, core: string)
    requires Filter(id, IsAlnum) == core && 1 <= |core| <= 14
    ensures var tap := TapName(id);
            tap == "w" + core && HostVethName(tap) == "h" + core && NsVethName(tap) == "g" + core
  {
    DeviceNames(id);
  }

  lemma {:induction false} NothingIsKept(s: string, keep: char -> bool)
    requires forall i :: 0 <= i < |s| ==> !keep(s[i])
    ensures Filter(s, keep) == ""
  {
    if s != "" { NothingIsKept(s[1..], keep); }
  }

  /** What an id without letters, digits and dashes gets, and the veths of a bare TAP name. */
  lemma FallbackNames(id: string)
    requires forall i :: 0 <= i < |id| ==> !Word([id[i]]) && id[i] != '-'
    ensures TapName(id) == "wtap" && NetnsName(id) == "warden-tap"
    ensures HostVethName("w") == "htap" && NsVethName("w") == "gtap"
  {
    forall i | 0 <= i < |id| ensures !IsAlnum(id[i]) {
      assert Word([id[i]]) <==> IsAlnum([id[i]][0]);
    }
    NothingIsKept(id, IsAlnum);
    NothingIsKept(id, c => IsAlnum(c) || c == '-');
    assert "h" + "tap" == "htap" && "g" + "tap" == "gtap";
  }

  /** The namespace of an id of letters, digits and dashes. */
  lemma NetnsKeeps(id: string)
    requires id != "" && |id| <= 121
    requires forall i :: 0 <= i < |id| ==> Word([id[i]]) || id[i] == '-'
    ensures NetnsName(id) == "warden-" + id
  {
    var keep := c => IsAlnum(c) || c == '-';
    forall i | 0 <= i < |id| ensures keep(id[i]) {
      assert Word([id[i]]) ==> IsAlnum([id[i]][0]);
    }
    FilterKeepsAll(id, keep);
  }

  /** The table name keeps every place of the id: letters, digits and underscores stay, the rest is masked. */
  lemma TableMasks(id: string, i: nat)
    requires i < |id|
    ensures |NftTable(id)| == 7 + |id| && NftTable(id)[..7] == "warden_"
    ensures NftTable(id)[7 + i] == if Word([id[i]]) || id[i] == '_' then id[i] else '_'
  {
    var s := NftTable(id);
    assert s[..7] == "warden_";
    assert Word([id[i]]) <==> IsAlnum([id[i]][0]);
  }

  lemma JobCore(n: string, fc: string, id: string)
    requires Number(n) && fc == "fc" && id == "fc-" + n
    ensures Filter(id, IsAlnum) == fc + n
  {
    assert id == fc + ['-'] + n;
    DropsBetween(fc, '-', n);
  }

  lemma JobDevices(n: string)
    requires Number(n) && |n| <= 12
    ensures var tap := TapName("fc-" + n);
            tap == "wfc" + n && HostVethName(tap) == "hfc" + n && NsVethName(tap) == "gfc" + n
  {
    JobCore(n, "fc", "fc-" + n);
    CoreNames("fc-" + n, "fc" + n);
    Glue("w", "fc", "wfc", n);
    Glue("h", "fc", "hfc", n);
    Glue("g", "fc", "gfc", n);
  }

  lemma JobNetns(n: string)
    requires Number(n) && |n| <= 118
    ensures NetnsName("fc-" + n) == "warden-fc-" + n
  {
    var id := "fc-" + n;
    forall i | 0 <= i < |id| ensures Word([id[i]]) || id[i] == '-' {
      if i >= 3 { assert id[i] == n[i - 3]; }
    }
    NetnsKeeps(id);
    assert "warden-" + id == "warden-fc-" + n;
  }

  lemma JobTable(n: string)
    requires Number(n)
    ensures NftTable("fc-" + n) == "warden_fc_" + n
  {
    var id := "fc-" + n;
    var s, t := NftTable(id), "warden_fc_" + n;
    TableMasks(id, 0);
    forall i | 0 <= i < |s| ensures s[i] == t[i] {
      if i < 7 {
        assert s[i] == s[..7][i];
      } else {
        TableMasks(id, i - 7);
        if i >= 10 { assert id[i - 7] == n[i - 10]; }
      }
    }
  }

  /** The names of the link of the VM numbered `n`. */
  lemma JobNames(n: string)
    requires Number(n) && |n| <= 12
    ensures var id := TapID("fc-" + n, "");
            && TapName(id) == "wfc" + n
            && HostVethName(TapName(id)) == "hfc" + n
            && NsVethName(TapName(id)) == "gfc" + n
            && NetnsName(id) == "warden-fc-" + n
            && NftTable(id) == "warden_fc_" + n
  {
    JobDevices(n);
    JobNetns(n);
    JobTable(n);
  }

  /** Different VMs of a process have links that share no name. */
  lemma JobsApart(m: string, n: string)
    requires Number(m) && |m| <= 12 && Number(n) && |n| <= 12 && m != n
    ensures var a, b := TapID("fc-" + m, ""), TapID("fc-" + n, "");
            && TapName(a) != TapName(b) && HostVethName(TapName(a)) != HostVethName(TapName(b))
            && NsVethName(TapName(a)) != NsVethName(TapName(b))
            && NetnsName(a) != NetnsName(b) && NftTable(a) != NftTable(b)
  {
    JobNames(m);
    JobNames(n);
    SamePrefix("wfc", m, n);
    SamePrefix("hfc", m, n);
    SamePrefix("gfc", m, n);
    SamePrefix("warden-fc-", m, n);
    SamePrefix("warden_fc_", m, n);
  }

  /** The names of the link of a session whose id is a short word. */
  lemma SessionNames(vmID: string, session: string)
    requires session != "" && Word(session) && |session| <= 13
    ensures var id := TapID(vmID, session);
            && TapName(id) == "ws" + session
            && HostVethName(TapName(id)) == "hs" + session
            && NsVethName(TapName(id)) == "gs" + session
            && NetnsName(id) == "warden-s" + session
  {
    var id := "s" + session;
    SessionWord(id, session);
    WordIsKept(id);
    CoreNames(id, id);
    Glue("w", "s", "ws", session);
    Glue("h", "s", "hs", session);
    Glue("g", "s", "gs", session);
    NetnsKeeps(id);
    Glue("warden-", "s", "warden-s", session);
  }

  lemma SessionWord(id: string, session: string)
    requires Word(session) && id == "s" + session
    ensures Word(id) && forall i :: 0 <= i < |id| ==> Word([id[i]])
  {
    forall i | 0 <= i < |id| ensures Word([id[i]]) && Word(id[i..i + 1]) {
      if i >= 1 { assert id[i] == session[i - 1]; }
      assert id[i..i + 1] == [id[i]];
    }
    assert forall i :: 0 <= i < |id| ==> [id[i]][0] == id[i];
  }

  /** Accepted by validateNetNSName. */
  predicate ValidNetns(name: string) {
    && name != ""
    && name == Base(name)
    && !exists i :: 0 <= i < |name| - 1 && name[i] == '.' && name[i + 1] == '.'
  }

  /** The check in plain words. The root directory passes it. */
  lemma ValidNetnsIff(name: string)
    ensures ValidNetns(name) <==>
              && name != "" && (name == "/" || '/' !in name)
              && forall i :: 0 <= i < |name| - 1 ==> !(name[i] == '.' && name[i + 1] == '.')
  {
    OwnBaseIff(name);
  }

  /** Every namespace name Setup derives passes the check apply makes first. */
  lemma DerivedNetnsIsValid(id: string)
    ensures ValidNetns(NetnsName(id))
  {
    var kept := Filter(id, c => IsAlnum(c) || c == '-');
    var s := NetnsName(id);
    forall i | 0 <= i < |s| ensures s[i] != '/' && s[i] != '.' {
      if kept != "" {
        assert s[i] == ("warden-" + kept)[i];
        if i >= 7 { assert s[i] == kept[i - 7]; }
      }
    }
    OwnBaseIff(s);
  }

  // ---- the /30 allocator ----

  const UINT32: nat := 0x1_0000_0000
  const LAST_INDEX: nat := 16383

  type Word32 = n: nat | n < UINT32

  /** pair30 with the source's uint32 and byte truncations written out. */
  function Pair30(b0: Byte, b1: Byte, n: nat): Option<(Quad, Quad)> {
    if n == 0 || n > LAST_INDEX then None
    else
      var off := (n - 1) * 4 % UINT32;
      var hi := off / 256 % 256;
      var lo := off % 256;
      Some((Quad(b0, b1, hi, (lo + 1) % 256), Quad(b0, b1, hi, (lo + 2) % 256)))
  }

  /** An address as a 32-bit number. */
  function Addr32(q: Quad): nat {
    ((q.a * 256 + q.b) * 256 + q.c) * 256 + q.d
  }

  /** Membership in the /30 prefix of `net`: the top 30 bits agree. */
  predicate InPrefix30(net: Quad, q: Quad) {
    Addr32(q) / 4 == Addr32(net) / 4
  }

  /** Two /30 prefixes have no address in common exactly when neither holds the other's address. */
  lemma DisjointPrefixIff(p: Quad, q: Quad)
    ensures !InPrefix30(p, q) <==> forall x: Quad :: !(InPrefix30(p, x) && InPrefix30(q, x))
  {
    assert InPrefix30(q, q);
  }

  /** The pair is addresses 1 and 2 of block n - 1 of b0.b1.0.0/16: nothing was truncated. */
  lemma Pair30Exact(b0: Byte, b1: Byte, n: nat)
    requires 1 <= n <= LAST_INDEX
    ensures var p := Pair30(b0, b1, n).value;
            && Addr32(p.0) == (b0 * 256 + b1) * 65536 + 4 * (n - 1) + 1
            && Addr32(p.1) == Addr32(p.0) + 1
            && p.0.a == p.1.a == b0 && p.0.b == p.1.b == b1
  {
    OffsetBytes(n);
  }

  /** The offset of a block fits 16 bits, and its low byte leaves room for the two hosts. */
  lemma OffsetBytes(n: nat)
    requires 1 <= n <= LAST_INDEX
    ensures var off := (n - 1) * 4;
            off % UINT32 == off && off / 256 < 256 && off % 256 <= 252 && off == off / 256 * 256 + off % 256
  {
    var q, r := (n - 1) / 64, (n - 1) % 64;
    DivMod256(q, 4 * r);
    assert (n - 1) * 4 == 256 * q + 4 * r;
  }

  lemma DivMod256(q: nat, r: nat)
    requires r < 256
    ensures (256 * q + r) / 256 == q && (256 * q + r) % 256 == r
  {
  }

  function HexDigit(n: nat): (c: char)
    requires n < 16
  {
    if n < 10 then '0' + n as char else 'a' + (n - 10) as char
  }

  lemma HexDigitInjective(m: nat, n: nat)
    requires m < 16 && n < 16 && HexDigit(m) == HexDigit(n)
    ensures m == n
  {
  }

  function Hex2(b: Byte): (s: string)
    ensures |s| == 2
  {
    [HexDigit(b / 16), HexDigit(b % 16)]
  }

  function MacFromIP(ip: Option<Quad>): string {
    match ip
    case None => "06:00:00:00:00:01"
    case Some(q) => "06:00:" + Hex2(q.a) + ":" + Hex2(q.b) + ":" + Hex2(q.c) + ":" + Hex2(q.d)
  }

  lemma Hex2Injective(x: Byte, y: Byte)
    requires Hex2(x) == Hex2(y)
    ensures x == y
  {
    assert Hex2(x)[0] == Hex2(y)[0] && Hex2(x)[1] == Hex2(y)[1];
    HexDigitInjective(x / 16, y / 16);
    HexDigitInjective(x % 16, y % 16);
  }

  lemma MacInjective(p: Quad, q: Quad)
    requires MacFromIP(Some(p)) == MacFromIP(Some(q))
    ensures p == q
  {
    var s, t := MacFromIP(Some(p)), MacFromIP(Some(q));
    assert s[6..8] == Hex2(p.a) && t[6..8] == Hex2(q.a);
    assert s[9..11] == Hex2(p.b) && t[9..11] == Hex2(q.b);
    assert s[12..14] == Hex2(p.c) && t[12..14] == Hex2(q.c);
    assert s[15..17] == Hex2(p.d) && t[15..17] == Hex2(q.d);
    Hex2Injective(p.a, q.a);
    Hex2Injective(p.b, q.b);
    Hex2Injective(p.c, q.c);
    Hex2Injective(p.d, q.d);
  }

  /** The link Setup builds for index `n`; None is the out-of-range error. */
  function SetupLink(id: string, n: nat): Option<Link> {
    var tap := Pair30(172, 25, n);
    var uplink := Pair30(172, 27, n);
    if tap.None? || uplink.None? then None
    else
      var name := TapName(id);
      var ns := NetnsName(id);
      Some(Link(
             name := name,
             hostIP := Some(tap.value.0),
             guestIP := Some(tap.value.1),
             prefix := 30,
             guestMAC := MacFromIP(Some(tap.value.1)),
             table := NftTable(id),
             netns := ns,
             netnsPath := NetnsPath(ns),
             hostVeth := HostVethName(name),
             nsVeth := NsVethName(name),
             uplinkHost := Some(uplink.value.0),
             uplinkNS := Some(uplink.value.1)))
  }

  lemma FirstNames(n: string, id: string)
    requires n == "1" && id == "fc-1"
    ensures TapName(id) == "wfc1" && HostVethName(TapName(id)) == "hfc1" && NsVethName(TapName(id)) == "gfc1"
    ensures NetnsName(id) == "warden-fc-1" && NftTable(id) == "warden_fc_1"
  {
    assert id == "fc-" + n;
    JobDevices(n);
    JobNetns(n);
    JobTable(n);
  }

  lemma FirstPath(ns: string)
    requires ns == "warden-fc-1"
    ensures NetnsPath(ns) == "/var/run/netns/warden-fc-1"
  {
  }

  lemma FirstMac()
    ensures MacFromIP(Some(Quad(172, 25, 0, 2))) == "06:00:ac:19:00:02"
    ensures MacFromIP(None) == "06:00:00:00:00:01"
  {
    assert Hex2(172) == "ac" && Hex2(25) == "19" && Hex2(0) == "00" && Hex2(2) == "02";
  }

  /** The first link of a process, in full. */
  lemma FirstLinkIs(id: string)
    requires id == "fc-1"
    ensures SetupLink(id, 1) == Some(Link(
              name := "wfc1",
              hostIP := Some(Quad(172, 25, 0, 1)),
              guestIP := Some(Quad(172, 25, 0, 2)),
              prefix := 30,
              guestMAC := "06:00:ac:19:00:02",
              table := "warden_fc_1",
              netns := "warden-fc-1",
              netnsPath := "/var/run/netns/warden-fc-1",
              hostVeth := "hfc1",
              nsVeth := "gfc1",
              uplinkHost := Some(Quad(172, 27, 0, 1)),
              uplinkNS := Some(Quad(172, 27, 0, 2))))
  {
    FirstNames("1", id);
    FirstMac();
    FirstPath(NetnsName(id));
    assert Pair30(172, 25, 1) == Some((Quad(172, 25, 0, 1), Quad(172, 25, 0, 2)));
    assert Pair30(172, 27, 1) == Some((Quad(172, 27, 0, 1), Quad(172, 27, 0, 2)));
  }

  /** The network address and prefix length of the TAP's /30. */
  function GuestSubnet(link: Link): Option<(Quad, nat)> {
    match link.hostIP
    case None => None
    case Some(ip) =>
      Some((ip.(d := ip.d - ip.d % 4), if link.prefix == 0 then 30 else link.prefix))
  }

  /** Where the four addresses of the n-th link lie: the TAP pair in 172.25/16, the uplink pair in 172.27/16. */
  lemma SetupAddresses(id: string, n: nat)
    requires 1 <= n <= 16383
    ensures var l := SetupLink(id, n).value;
            && Addr32(l.hostIP.value) == Addr32(Quad(172, 25, 0, 0)) + 4 * (n - 1) + 1
            && Addr32(l.guestIP.value) == Addr32(Quad(172, 25, 0, 0)) + 4 * (n - 1) + 2
            && Addr32(l.uplinkHost.value) == Addr32(Quad(172, 27, 0, 0)) + 4 * (n - 1) + 1
            && Addr32(l.uplinkNS.value) == Addr32(Quad(172, 27, 0, 0)) + 4 * (n - 1) + 2
            && l.guestMAC == MacFromIP(l.guestIP)
  {
    Pair30Exact(172, 25, n);
    Pair30Exact(172, 27, n);
  }

  /** The seq counter after k allocations, and so the index of the k-th one. */
  function IndexOf(k: nat): nat {
    k % UINT32
  }

  /** Adding 1 to the 32-bit counter. */
  function NextIndex(n: Word32): Word32 {
    if n + 1 == UINT32 then 0 else n + 1
  }

  /** A counter that starts at 0 and is advanced k times is at IndexOf(k). */
  lemma CounterAt(k: nat)
    ensures IndexOf(0) == 0 && IndexOf(k) < UINT32 && IndexOf(k + 1) == NextIndex(IndexOf(k))
  {
  }

  /** The link returned by the k-th Setup call that passed its precheck. */
  function KthLink(id: string, k: nat): Option<Link> {
    SetupLink(id, IndexOf(k))
  }

  /** Neither the TAP block nor the uplink block of one link meets a block of the other. */
  predicate Separate(l: Link, m: Link) {
    && l.hostIP.Some? && l.uplinkHost.Some? && m.hostIP.Some? && m.uplinkHost.Some?
    && !InPrefix30(l.hostIP.value, m.hostIP.value)
    && !InPrefix30(l.uplinkHost.value, m.uplinkHost.value)
    && !InPrefix30(l.hostIP.value, m.uplinkHost.value)
    && !InPrefix30(l.uplinkHost.value, m.hostIP.value)
    && l.guestMAC != m.guestMAC
  }

  lemma DifferentIndexSeparates(id1: string, n1: nat, id2: string, n2: nat)
    requires 1 <= n1 <= LAST_INDEX && 1 <= n2 <= LAST_INDEX && n1 != n2
    ensures Separate(SetupLink(id1, n1).value, SetupLink(id2, n2).value)
  {
    Pair30Exact(172, 25, n1);
    Pair30Exact(172, 27, n1);
    Pair30Exact(172, 25, n2);
    Pair30Exact(172, 27, n2);
    var l, m := SetupLink(id1, n1).value, SetupLink(id2, n2).value;
    if l.guestMAC == m.guestMAC { MacInjective(l.guestIP.value, m.guestIP.value); }
  }

  /**
   Which Setup calls of one process succeed in allocating: exactly those whose index lands in
   1..16383. So the calls after the 16383rd fail until the 32-bit counter has wrapped.
   */
  lemma AllocationSucceedsIff(id: string, k: nat)
    ensures KthLink(id, k).Some? <==> 1 <= k % 0x1_0000_0000 <= 16383
    ensures 16383 < k < 0x1_0000_0000 ==> KthLink(id, k).None?
  {
    if k < UINT32 { assert k % UINT32 == k; }
  }

  /**
   Two allocations of one process are separate exactly when their call numbers differ modulo
   2^32; in particular always, while fewer than 2^32 calls were made.
   */
  lemma AllocationsSeparateIff(id1: string, k1: nat, id2: string, k2: nat)
    requires KthLink(id1, k1).Some? && KthLink(id2, k2).Some?
    ensures Separate(KthLink(id1, k1).value, KthLink(id2, k2).value) <==>
              k1 % 0x1_0000_0000 != k2 % 0x1_0000_0000
    ensures k1 != k2 && k1 < 0x1_0000_0000 && k2 < 0x1_0000_0000 ==>
              Separate(KthLink(id1, k1).value, KthLink(id2, k2).value)
  {
    AllocationSucceedsIff(id1, k1);
    AllocationSucceedsIff(id2, k2);
    var n1, n2 := IndexOf(k1), IndexOf(k2);
    SmallIndex(k1);
    SmallIndex(k2);
    if n1 != n2 {
      DifferentIndexSeparates(id1, n1, id2, n2);
    } else {
      SameIndexShares(id1, id2, n1);
    }
  }

  lemma SmallIndex(k: nat)
    ensures k < UINT32 ==> IndexOf(k) == k
  {
  }

  lemma SameIndexShares(id1: string, id2: string, n: nat)
    requires 1 <= n <= LAST_INDEX
    ensures !Separate(SetupLink(id1, n).value, SetupLink(id2, n).value)
  {
    var h := Pair30(172, 25, n).value.0;
    assert InPrefix30(h, h);
  }

  lemma Mod4(k: int, d: int)
    ensures (4 * k + d) % 4 == d % 4
  {
  }

  /** Rounding the last octet down to a multiple of four rounds the address down too. */
  lemma RoundDown(q: Quad)
    ensures 0 <= q.d % 4 <= q.d
    ensures Addr32(q.(d := q.d - q.d % 4)) == Addr32(q) - q.d % 4
    ensures Addr32(q) % 4 == q.d % 4
  {
    Mod4(((q.a * 256 + q.b) * 256 + q.c) * 64, q.d);
  }

  /** The subnet of any link: none without a host address, and /30 unless the link says otherwise. */
  lemma GuestSubnetOfAny(link: Link)
    ensures GuestSubnet(link).Some? <==> link.hostIP.Some?
    ensures link.hostIP.Some? ==>
              && GuestSubnet(link).value.1 == (if link.prefix == 0 then 30 else link.prefix)
              && Addr32(GuestSubnet(link).value.0) % 4 == 0
              && Addr32(GuestSubnet(link).value.0) <= Addr32(link.hostIP.value)
              && Addr32(link.hostIP.value) < Addr32(GuestSubnet(link).value.0) + 4
  {
    if link.hostIP.Some? {
      var q := link.hostIP.value;
      RoundDown(q);
      RoundDown(q.(d := q.d - q.d % 4));
    }
  }

  /** Host and guest share one /30, whose network address GuestSubnet computes. */
  lemma GuestSubnetIsTheBlock(id: string, n: nat, q: Quad)
    requires 1 <= n <= LAST_INDEX
    ensures var l := SetupLink(id, n).value;
            var net := GuestSubnet(l).value;
            && net.1 == 30
            && Addr32(net.0) % 4 == 0
            && Addr32(l.hostIP.value) == Addr32(net.0) + 1
            && Addr32(l.guestIP.value) == Addr32(net.0) + 2
            && (InPrefix30(l.hostIP.value, q) <==> Addr32(net.0) <= Addr32(q) < Addr32(net.0) + 4)
  {
    Pair30Exact(172, 25, n);
    var p := Pair30(172, 25, n).value;
    var k := (172 * 256 + 25) * 16384 + n - 1;
    NetworkOfBlock(p.0, k);
    BlockFacts(k, Addr32(p.0), Addr32(q));
  }

  /** Rounding the second address of block `k` down gives the block's first address. */
  lemma NetworkOfBlock(h: Quad, k: nat)
    requires Addr32(h) == 4 * k + 1
    ensures Addr32(h.(d := h.d - h.d % 4)) == 4 * k
  {
    RoundDown(h);
    Mod4(k, 1);
  }

  lemma BlockOf(k: nat, x: nat)
    ensures x / 4 == k <==> 4 * k <= x < 4 * k + 4
  {
  }

  /** The four addresses of block `k`, as numbers. */
  lemma BlockFacts(k: nat, host: nat, q: nat)
    requires host == 4 * k + 1
    ensures (4 * k) % 4 == 0
    ensures q / 4 == host / 4 <==> 4 * k <= q < 4 * k + 4
  {
    BlockOf(k, host);
    BlockOf(k, q);
  }

  // ---- the record of a saved VM ----

  datatype Kind = NoKind | Full | Diff

  /** A snapshot record. Its paths are fixed by the session id, so they are not repeated here. */
  datatype Record = Record(
    sessionID: string,
    vmID: string,
    guestCID: nat,
    hasNetwork: bool,
    hostDevName: string,
    guestMAC: string,
    guestIP: string,
    hostIP: string,
    netns: string,
    netnsPath: string,
    hostVeth: string,
    nsVeth: string,
    uplinkHost: string,
    uplinkNS: string,
    table: string,
    generation: nat,
    lastKind: Kind,
    createdAt: nat)

  function IpString(ip: Option<Quad>): string {
    match ip
    case None => ""
    case Some(q) => Print(q)
  }

  function FillRecordNetwork(rec: Record, link: Option<Link>): Record {
    match link
    case None => rec.(hasNetwork := false)
    case Some(l) =>
      rec.(hasNetwork := true,
           hostDevName := l.name,
           guestMAC := l.guestMAC,
           guestIP := IpString(l.guestIP),
           hostIP := IpString(l.hostIP),
           netns := l.netns,
           netnsPath := l.netnsPath,
           hostVeth := l.hostVeth,
           nsVeth := l.nsVeth,
           uplinkHost := IpString(l.uplinkHost),
           uplinkNS := IpString(l.uplinkNS),
           table := l.table)
  }

  function LinkFromRecord(rec: Record): Option<Link> {
    if !rec.hasNetwork then None
    else Some(Link(
                name := rec.hostDevName,
                hostIP := ParseV4(rec.hostIP),
                guestIP := ParseV4(rec.guestIP),
                prefix := 30,
                guestMAC := rec.guestMAC,
                table := rec.table,
                netns := rec.netns,
                netnsPath := rec.netnsPath,
                hostVeth := rec.hostVeth,
                nsVeth := rec.nsVeth,
                uplinkHost := ParseV4(rec.uplinkHost),
                uplinkNS := ParseV4(rec.uplinkNS)))
  }

  lemma IpTextRoundTrip(ip: Option<Quad>)
    ensures ParseV4(IpString(ip)) == ip
  {
    if ip.Some? { PrintThenParse(ip.value); }
  }

  /** A link survives being written into a record and read back, absent addresses included. */
  lemma RecordKeepsLink(rec: Record, link: Option<Link>)
    requires link.Some? ==> link.value.prefix == 30
    ensures LinkFromRecord(FillRecordNetwork(rec, link)) == link
    ensures FillRecordNetwork(rec, link).hasNetwork <==> link.Some?
  {
    if link.Some? {
      IpTextRoundTrip(link.value.hostIP);
      IpTextRoundTrip(link.value.guestIP);
      IpTextRoundTrip(link.value.uplinkHost);
      IpTextRoundTrip(link.value.uplinkNS);
    }
  }

  /** What Recreate fills in when a stored link lacks a derived name. */
  function FillDerived(link: Link): Link {
    var l1 := if link.hostVeth == "" || link.nsVeth == ""
              then link.(hostVeth := HostVethName(link.name), nsVeth := NsVethName(link.name)) else link;
    var l2 := if l1.netns == "" then l1.(netns := NetnsName(l1.name)) else l1;
    var l3 := if l2.netnsPath == "" then l2.(netnsPath := NetnsPath(l2.netns)) else l2;
    var l4 := if l3.table == "" then l3.(table := NftTable(l3.name)) else l3;
    if l4.prefix == 0 then l4.(prefix := 30) else l4
  }

  /** What a record holds is kept; the veth names are replaced together when one is missing. */
  lemma FillDerivedKeeps(link: Link)
    ensures var l := FillDerived(link);
            && l == link.(hostVeth := l.hostVeth, nsVeth := l.nsVeth, netns := l.netns, netnsPath := l.netnsPath,
                          table := l.table, prefix := l.prefix)
            && (link.netns != "" ==> l.netns == link.netns) && (link.netnsPath != "" ==> l.netnsPath == link.netnsPath)
            && (link.table != "" ==> l.table == link.table) && (link.prefix != 0 ==> l.prefix == link.prefix)
            && (link.hostVeth != "" && link.nsVeth != "" ==> l.hostVeth == link.hostVeth && l.nsVeth == link.nsVeth)
  {
  }

  /** Filling twice is filling once. */
  lemma FillDerivedTwice(link: Link)
    ensures FillDerived(FillDerived(link)) == FillDerived(link)
  {
    var l := FillDerived(link);
    assert l.hostVeth != "" && l.nsVeth != "" && l.netns != "" && l.netnsPath != "" && l.table != "" && l.prefix != 0;
  }

  /** What a record of a TAP name alone becomes. */
  lemma FillDerivedCompletes(link: Link, core: string)
    requires Word(core) && 1 <= |core| <= 14 && link.name == "w" + core
    requires link.hostVeth == "" || link.nsVeth == ""
    requires link.netns == link.netnsPath == link.table == "" && link.prefix == 0
    ensures FillDerived(link) == link.(hostVeth := "h" + core, nsVeth := "g" + core, netns := "warden-w" + core,
                                       netnsPath := "/var/run/netns/warden-w" + core, table := "warden_w" + core,
                                       prefix := 30)
  {
    var name := "w" + core;
    assert name[1..] == core;
    forall i | 0 <= i < |name| ensures Word([name[i]]) {
      if i >= 1 { assert name[i] == core[i - 1]; }
    }
    NetnsKeeps(name);
    assert "warden-" + name == "warden-w" + core;
    assert "/var/run/netns/" + ("warden-w" + core) == "/var/run/netns/warden-w" + core;
    var s, t := NftTable(name), "warden_w" + core;
    TableMasks(name, 0);
    forall i | 0 <= i < |s| ensures s[i] == t[i] {
      if i < 7 { assert s[i] == s[..7][i]; } else { TableMasks(name, i - 7); }
    }
  }

  /** A link Setup can have produced. */
  ghost predicate FromSetup(link: Link) {
    exists id: string, n: nat :: 1 <= n <= LAST_INDEX && SetupLink(id, n) == Some(link)
  }

  /** The names of a link differ from each other, and its namespace passes apply's check. */
  ghost predicate WellNamed(link: Link) {
    && link.name != "" && link.hostVeth != "" && link.nsVeth != "" && link.table != ""
    && link.netnsPath != "" && link.prefix == 30
    && link.name != link.hostVeth && link.name != link.nsVeth && link.hostVeth != link.nsVeth
    && ValidNetns(link.netns)
  }

  lemma SetupIsWellNamed(link: Link)
    requires FromSetup(link)
    ensures WellNamed(link)
  {
    var id: string, n: nat :| 1 <= n <= LAST_INDEX && SetupLink(id, n) == Some(link);
    DerivedNetnsIsValid(id);
    assert link.name[0] == 'w' && link.hostVeth[0] == 'h' && link.nsVeth[0] == 'g';
  }

  /** A link that a record keeps and Recreate leaves as it is. */
  predicate Storable(link: Link) {
    && link.name != "" && link.hostVeth != "" && link.nsVeth != "" && link.table != ""
    && link.netns != "" && link.netnsPath != "" && link.prefix == 30
  }

  lemma StorableIsDerived(link: Link)
    requires Storable(link)
    ensures FillDerived(link) == link
  {
  }

  lemma FilledIsStorable(link: Link)
    requires link.name != "" && link.prefix == 30
    ensures Storable(FillDerived(link))
  {
  }

  lemma SetupIsStorable(link: Link)
    requires FromSetup(link)
    ensures Storable(link)
  {
    SetupIsWellNamed(link);
  }

  /** One save and restore hands Recreate exactly the link Setup allocated. */
  lemma LinkSurvivesRound(rec: Record, link: Link)
    requires FromSetup(link)
    ensures LinkFromRecord(FillRecordNetwork(rec, Some(link))) == Some(link)
    ensures FillDerived(link) == link
  {
    SetupIsStorable(link);
    StorableIsDerived(link);
    RecordKeepsLink(rec, Some(link));
  }
}
