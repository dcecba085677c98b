/**
 IP addresses and their text, as the network code uses them: `net.IP.String` and `net.ParseIP`.
 Only the IPv4 grammar is spelled out; IPv6 text is read by a parameter.
 */
module Address {
  import opened Basics

  datatype Quad = Quad(a: Byte, b: Byte, c: Byte, d: Byte)

  /** A normalised address: an IPv4-mapped IPv6 address is a V4, as `To4` treats it. */
  datatype IP = V4(quad: Quad) | V6(bytes: seq<Byte>)

  // ---- decimal octets ----

  predicate IsDigit(c: char) {
    '0' <= c <= '9'
  }

  function Digit(n: nat): (c: char)
    requires n < 10
    ensures IsDigit(c) && DigitValue(c) == n
  {
    '0' + n as char
  }

  function DigitValue(c: char): (n: nat)
    requires IsDigit(c)
    ensures n < 10
  {
    (c - '0') as int
  }

  /** An octet in decimal without leading zeros. */
  function Dec(n: Byte): (s: string)
    ensures 1 <= |s| <= 3
    ensures forall i :: 0 <= i < |s| ==> IsDigit(s[i])
  {
    if n < 10 then [Digit(n)]
    else if n < 100 then [Digit(n / 10), Digit(n % 10)]
    else [Digit(n / 100), Digit(n / 10 % 10), Digit(n % 10)]
  }

  function Print(q: Quad): string {
    Dec(q.a) + "." + Dec(q.b) + "." + Dec(q.c) + "." + Dec(q.d)
  }

  /** An address as it is written. */
  lemma PrintExample()
    ensures Print(Quad(172, 25, 0, 1)) == "172.25.0.1" && Print(Quad(10, 0, 255, 9)) == "10.0.255.9"
  {
    assert Dec(172) == "172" && Dec(25) == "25" && Dec(0) == "0" && Dec(1) == "1";
    assert Dec(10) == "10" && Dec(255) == "255" && Dec(9) == "9";
  }

  /**
   The dotted-decimal reader: `val` and `digits` describe the octet being read, `fields` the
   octets already finished.
   */
  function ParseFields(rest: string, val: nat, digits: nat, fields: seq<Byte>): Option<seq<Byte>>
    requires val < 256
    decreases |rest|
  {
    if rest == "" then
      if |fields| == 3 then Some(fields + [val]) else None
    else if IsDigit(rest[0]) then
      var next := val * 10 + DigitValue(rest[0]);
      if (digits == 1 && val == 0) || next > 255 then None
      else ParseFields(rest[1..], next, digits + 1, fields)
    else if rest[0] == '.' then
      if digits == 0 || |rest| == 1 || |fields| == 3 then None
      else ParseFields(rest[1..], 0, 0, fields + [val])
    else None
  }

  lemma {:induction false} ParsesFour(rest: string, val: nat, digits: nat, fields: seq<Byte>)
    requires val < 256
    ensures var r := ParseFields(rest, val, digits, fields); r.Some? ==> |r.value| == 4
    decreases |rest|
  {
    if rest != "" {
      if IsDigit(rest[0]) {
        var next := val * 10 + DigitValue(rest[0]);
        if next <= 255 { ParsesFour(rest[1..], next, digits + 1, fields); }
      } else {
        ParsesFour(rest[1..], 0, 0, fields + [val]);
      }
    }
  }

  function ParseV4(s: string): Option<Quad> {
    var r := ParseFields(s, 0, 0, []);
    ParsesFour(s, 0, 0, []);
    if r.None? then None else Some(Quad(r.value[0], r.value[1], r.value[2], r.value[3]))
  }

  /** Reading one printed octet. */
  lemma {:induction false} ParseOctet(n: Byte, rest: string, fields: seq<Byte>)
    ensures ParseFields(Dec(n) + rest, 0, 0, fields) == ParseFields(rest, n, |Dec(n)|, fields)
  {
    var s := Dec(n) + rest;
    if n < 10 {
      assert s[1..] == rest;
    } else if n < 100 {
      var t := [Digit(n % 10)] + rest;
      assert s[1..] == t && t[1..] == rest;
      assert ParseFields(t, n / 10, 1, fields) == ParseFields(rest, n, 2, fields);
    } else {
      var t := [Digit(n / 10 % 10), Digit(n % 10)] + rest;
      var u := [Digit(n % 10)] + rest;
      assert s[1..] == t && t[1..] == u && u[1..] == rest;
      assert n / 100 * 10 + n / 10 % 10 == n / 10;
      assert ParseFields(u, n / 10, 2, fields) == ParseFields(rest, n, 3, fields);
      assert ParseFields(t, n / 100, 1, fields) == ParseFields(u, n / 10, 2, fields);
    }
  }

  lemma ParseDottedOctet(n: Byte, rest: string, fields: seq<Byte>)
    requires |fields| < 3 && rest != ""
    ensures ParseFields(Dec(n) + "." + rest, 0, 0, fields) == ParseFields(rest, 0, 0, fields + [n])
  {
    assert Dec(n) + "." + rest == Dec(n) + ("." + rest);
    ParseOctet(n, "." + rest, fields);
    assert ("." + rest)[1..] == rest;
  }

  /** Printing and reading back is the identity on addresses. */
  lemma PrintThenParse(q: Quad)
    ensures ParseV4(Print(q)) == Some(q)
  {
    var s3 := Dec(q.d);
    var s2 := Dec(q.c) + "." + s3;
    var s1 := Dec(q.b) + "." + s2;
    var s0 := Dec(q.a) + "." + s1;
    assert Print(q) == s0;
    ParseDottedOctet(q.a, s1, []);
    assert [] + [q.a] == [q.a];
    ParseDottedOctet(q.b, s2, [q.a]);
    assert [q.a] + [q.b] == [q.a, q.b];
    ParseDottedOctet(q.c, s3, [q.a, q.b]);
    assert [q.a, q.b] + [q.c] == [q.a, q.b, q.c];
    ParseOctet(q.d, "", [q.a, q.b, q.c]);
    assert s3 + "" == s3;
    assert [q.a, q.b, q.c] + [q.d] == [q.a, q.b, q.c, q.d];
  }

  /** The text of the octets already read, each with its dot. */
  ghost function Dotted(fields: seq<Byte>): string {
    if fields == [] then "" else Dotted(fields[..|fields| - 1]) + Dec(fields[|fields| - 1]) + "."
  }

  /** The text read so far. */
  ghost function Consumed(val: Byte, digits: nat, fields: seq<Byte>): string {
    if digits == 0 then Dotted(fields) else Dotted(fields) + Dec(val)
  }

  /** A further digit either starts an octet or extends the decimal of a non-zero one. */
  lemma ConsumeDigit(val: Byte, digits: nat, fields: seq<Byte>, d: nat)
    requires d < 10 && val * 10 + d < 256
    requires if digits == 0 then val == 0 else 0 < val && digits == |Dec(val)|
    ensures Consumed(val, digits, fields) + [Digit(d)] == Consumed(val * 10 + d, digits + 1, fields)
    ensures digits + 1 == |Dec(val * 10 + d)|
  {
    if digits > 0 {
      var n := val * 10 + d;
      assert n / 10 == val && n % 10 == d;
      if val >= 10 { assert n / 100 == val / 10 && n / 10 % 10 == val % 10; }
      assert Dec(val) + [Digit(d)] == Dec(n);
    }
  }

  lemma ConsumeDot(val: Byte, digits: nat, fields: seq<Byte>)
    requires digits > 0
    ensures Consumed(val, digits, fields) + "." == Consumed(0, 0, fields + [val])
  {
    assert (fields + [val])[..|fields|] == fields;
  }

  ghost function Whole(all: seq<Byte>): string
    requires all != []
  {
    Dotted(all[..|all| - 1]) + Dec(all[|all| - 1])
  }

  /** Whatever the reader accepts is spelled the one way the printer spells it. */
  lemma {:induction false} AcceptedIsCanonical(rest: string, val: Byte, digits: nat, fields: seq<Byte>)
    requires if digits == 0 then val == 0 else digits == |Dec(val)|
    requires ParseFields(rest, val, digits, fields).Some?
    requires rest == "" ==> digits > 0
    ensures var all := ParseFields(rest, val, digits, fields).value;
            all != [] && Consumed(val, digits, fields) + rest == Whole(all)
    decreases |rest|
  {
    var pre := Consumed(val, digits, fields);
    if rest == "" {
      assert (fields + [val])[..|fields|] == fields;
      assert pre + rest == pre;
    } else {
      assert pre + rest == pre + [rest[0]] + rest[1..];
      if IsDigit(rest[0]) {
        var d := DigitValue(rest[0]);
        assert Digit(d) == rest[0];
        ConsumeDigit(val, digits, fields, d);
        AcceptedIsCanonical(rest[1..], val * 10 + d, digits + 1, fields);
      } else {
        ConsumeDot(val, digits, fields);
        assert [rest[0]] == ".";
        AcceptedIsCanonical(rest[1..], 0, 0, fields + [val]);
      }
    }
  }

  /** Reading and printing back is the identity on every text the reader accepts. */
  lemma ParseThenPrint(s: string)
    requires ParseV4(s).Some?
    ensures Print(ParseV4(s).value) == s
  {
    ParsesFour(s, 0, 0, []);
    var f := ParseFields(s, 0, 0, []).value;
    AcceptedIsCanonical(s, 0, 0, []);
    assert f[..3] == [f[0], f[1], f[2]];
    assert f[..3][..2] == [f[0], f[1]];
    assert f[..3][..2][..1] == [f[0]];
    assert Dotted(f[..3]) == Dec(f[0]) + "." + Dec(f[1]) + "." + Dec(f[2]) + "." by {
      assert [f[0]][..0] == [];
      assert Dotted([f[0]]) == Dec(f[0]) + ".";
      assert [f[0], f[1]][..1] == [f[0]];
      assert Dotted([f[0], f[1]]) == Dec(f[0]) + "." + Dec(f[1]) + ".";
      assert [f[0], f[1], f[2]][..2] == [f[0], f[1]];
    }
    assert Consumed(0, 0, []) + s == s;
  }

  /** Printing is injective, so two addresses with the same text are the same address. */
  lemma PrintInjective(p: Quad, q: Quad)
    requires Print(p) == Print(q)
    ensures p == q
  {
    PrintThenParse(p);
    PrintThenParse(q);
  }

  // ---- net.ParseIP ----

  /** The first '.' or ':' decides which grammar is tried. */
  function FirstSeparator(s: string): (c: Option<char>)
    ensures c.Some? ==> c.value == '.' || c.value == ':'
  {
    if s == "" then None
    else if s[0] == '.' || s[0] == ':' then Some(s[0])
    else if s[0] == '%' then None
    else FirstSeparator(s[1..])
  }

  function ParseIP(s: string, parse6: string -> Option<IP>): Option<IP> {
    match FirstSeparator(s)
    case None => None
    case Some(c) =>
      if c == ':' then parse6(s)
      else
        var q := ParseV4(s);
        if q.None? then None else Some(V4(q.value))
  }

  lemma {:induction false} DotComesFirst(digits: string, rest: string)
    requires forall i :: 0 <= i < |digits| ==> IsDigit(digits[i])
    ensures FirstSeparator(digits + "." + rest) == Some('.')
  {
    var s := digits + "." + rest;
    if digits != "" {
      DotComesFirst(digits[1..], rest);
      assert s[1..] == digits[1..] + "." + rest;
    }
  }

  lemma PrintThenParseIP(q: Quad, parse6: string -> Option<IP>)
    ensures ParseIP(Print(q), parse6) == Some(V4(q))
  {
    PrintThenParse(q);
    var rest := Dec(q.b) + "." + Dec(q.c) + "." + Dec(q.d);
    DotComesFirst(Dec(q.a), rest);
    assert Print(q) == Dec(q.a) + "." + rest;
  }

  /** A text whose first separator is a colon is read as IPv6; without one, or with a zone first, as nothing. */
  lemma {:induction false} ParseIPChooses(front: string, rest: string, parse6: string -> Option<IP>)
    requires forall i :: 0 <= i < |front| ==> front[i] != '.' && front[i] != ':' && front[i] != '%'
    ensures FirstSeparator(front + rest) == FirstSeparator(rest)
    ensures rest != "" && rest[0] == ':' ==> ParseIP(front + rest, parse6) == parse6(front + rest)
    ensures rest == "" || rest[0] == '%' ==> ParseIP(front + rest, parse6).None?
  {
    if front == "" {
      assert front + rest == rest;
    } else {
      assert (front + rest)[1..] == front[1..] + rest;
      ParseIPChooses(front[1..], rest, parse6);
    }
  }

  /** A text read as an IPv4 address through `ParseIP` is the printed form or came from `parse6`. */
  lemma ParseIPCanonical(s: string, parse6: string -> Option<IP>)
    requires FirstSeparator(s) != Some(':')
    requires ParseIP(s, parse6).Some?
    ensures ParseIP(s, parse6).value.V4? && s == Print(ParseIP(s, parse6).value.quad)
  {
    ParseThenPrint(s);
  }
}
