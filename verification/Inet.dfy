/** IPv4 socket addresses as text. */
module Inet {
  import opened Bytes
  import opened Format
  import opened Numerals
  import opened Sequences
  import opened Wrappers

  // ---------- addresses in dotted form ----------

  /** The parts of a text between its dots. */
  ghost function Split(s: string): (r: seq<string>)
    ensures |r| > 0
  {
    if s == [] then [[]]
    else
      var front, c := Split(s[..|s| - 1]), s[|s| - 1];
      if c == '.' then front + [[]] else front[..|front| - 1] + [front[|front| - 1] + [c]]
  }

  /** A part that is read as a number of at most 255; it may be empty. */
  ghost predicate IsOctet(s: string) {
    (forall i | 0 <= i < |s| :: IsDigit(s[i])) && Value(s, 10) <= 255
  }

  ghost predicate AllOctets(parts: seq<string>) { forall i | 0 <= i < |parts| :: IsOctet(parts[i]) }

  /** The four bytes of an address, as they lie in memory. */
  type Addr = a: seq<Byte> | |a| == 4 witness [0, 0, 0, 0]

  const NONE: Addr := [255, 255, 255, 255]
  const ANY: Addr := [0, 0, 0, 0]

  /** The address that a text stands for. */
  ghost function AddrOf(s: string): Option<Addr> {
    var p := Split(s);
    if |p| == 4 && AllOctets(p)
    then Some([Value(p[0], 10), Value(p[1], 10), Value(p[2], 10), Value(p[3], 10)])
    else None
  }

  lemma SplitAppend(s: string, c: char)
    ensures var f := Split(s); Split(s + [c]) == if c == '.' then f + [[]] else f[..|f| - 1] + [f[|f| - 1] + [c]]
  {
    assert (s + [c])[..|s|] == s;
  }

  /** A part that is no octet stays one however the text goes on. */
  lemma BadPartStays(s: string, c: char)
    requires !AllOctets(Split(s))
    ensures !AllOctets(Split(s + [c]))
  {
    var f, g := Split(s), Split(s + [c]);
    SplitAppend(s, c);
    assert |f| > 0;
    hide Split, IsOctet;
    var i :| 0 <= i < |f| && !IsOctet(f[i]);
    Longer(f[i], c);
    assert g[i] == if i == |f| - 1 && c != '.' then f[i] + [c] else f[i];
  }

  lemma Longer(s: string, c: char)
    requires !IsOctet(s)
    ensures !IsOctet(s + [c])
  {
    ValueAppend(s, c, 10);
    if i: nat :| i < |s| && !IsDigit(s[i]) { assert (s + [c])[i] == s[i]; }
  }

  lemma {:induction false} BadPrefix(s: string, i: nat)
    requires i <= |s| && !AllOctets(Split(s[..i]))
    ensures !AllOctets(Split(s))
    decreases |s| - i
  {
    if i == |s| {
      assert s[..i] == s;
    } else {
      assert s[..i + 1] == s[..i] + [s[i]];
      BadPartStays(s[..i], s[i]);
      BadPrefix(s, i + 1);
    }
  }

  /** The bytes of a number in network byte order. */
  function BigEndian(u: Uint32): Addr { [u / 0x100_0000, u / 0x1_0000 % 256, u / 256 % 256, u % 256] }

  /** The 32-bit number made by shifting the parts in. */
  ghost function Shifted(parts: seq<string>): Uint32 {
    if parts == [] then 0
    else ShiftIn(Shifted(parts[..|parts| - 1]), Value(parts[|parts| - 1], 10))
  }

  /** One more part: the C expression for the address so far. */
  function ShiftIn(addr: Uint32, octet: nat): Uint32 { (addr * 256 % 0x1_0000_0000 + octet) % 0x1_0000_0000 }

  lemma ShiftedAppend(parts: seq<string>, p: string)
    ensures Shifted(parts + [p]) == ShiftIn(Shifted(parts), Value(p, 10))
  {
    assert (parts + [p])[..|parts|] == parts;
  }

  lemma ShiftedFour(p: seq<string>)
    requires |p| == 4 && AllOctets(p)
    ensures BigEndian(ShiftIn(Shifted(p[..3]), Value(p[3], 10)))
      == [Value(p[0], 10), Value(p[1], 10), Value(p[2], 10), Value(p[3], 10)]
  {
    var a, b, c, d := Value(p[0], 10), Value(p[1], 10), Value(p[2], 10), Value(p[3], 10);
    assert a <= 255 && b <= 255 && c <= 255 && d <= 255;
    assert p[..1] == [] + [p[0]] && p[..2] == p[..1] + [p[1]] && p[..3] == p[..2] + [p[2]];
    ShiftedAppend([], p[0]);
    ShiftedAppend(p[..1], p[1]);
    ShiftedAppend(p[..2], p[2]);
    ShiftIns(a, b, c, d);
    BytesOf(a, b, c, d);
    hide Shifted, Value, IsOctet, ShiftIn;
  }

  lemma ShiftIns(a: Byte, b: Byte, c: Byte, d: Byte)
    ensures ShiftIn(ShiftIn(ShiftIn(ShiftIn(0, a), b), c), d) as int
      == 0x100_0000 * a as int + 0x1_0000 * b as int + 256 * c as int + d as int
  {
    hide ShiftIn;
    var x: int, y: int, z: int := a, b, c;
    ShiftInSmall(0, a);
    ShiftInSmall(a, b);
    ShiftInSmall(256 * x + y, c);
    ShiftInSmall(0x1_0000 * x + 256 * y + z, d);
  }

  lemma ShiftInSmall(addr: Uint32, octet: Byte)
    requires addr < 0x100_0000
    ensures ShiftIn(addr, octet) as int == 256 * addr as int + octet as int
  {
  }

  lemma BytesOf(a: Byte, b: Byte, c: Byte, d: Byte)
    ensures var u: int := 0x100_0000 * a + 0x1_0000 * b + 256 * c + d;
      0 <= u < 0x1_0000_0000 && u / 0x100_0000 == a && u / 0x1_0000 % 256 == b && u / 256 % 256 == c && u % 256 == d
  {
    var u: int := 0x100_0000 * a + 0x1_0000 * b + 256 * c + d;
    assert u / 0x1_0000 == 256 * a + b;
    assert u / 256 == 0x1_0000 * a + 256 * b + c;
  }

  /** The loop has read `s`: `n` dots, the parts before the last one in `addr`, the last one in `octet`. */
  ghost predicate Scanned(s: string, addr: Uint32, octet: nat, n: nat) {
    var parts := Split(s);
    n == |parts| - 1 && AllOctets(parts) && octet == Value(parts[n], 10) && addr == Shifted(parts[..n])
  }

  lemma ScanDigit(s: string, c: char, addr: Uint32, octet: nat, n: nat)
    requires Scanned(s, addr, octet, n) && IsDigit(c)
    ensures var o := octet * 10 + (c as int - '0' as int);
      if o > 255 then !AllOctets(Split(s + [c])) else Scanned(s + [c], addr, o, n)
  {
    hide Split, Shifted, Value, IsOctet;
    var f := Split(s);
    SplitAppend(s, c);
    OctetAppend(f[n], c);
    LastPart(f, f[n] + [c]);
  }

  lemma LastPart(f: seq<string>, p: string)
    requires AllOctets(f) && |f| > 0
    ensures var n := |f| - 1; var t := f[..n] + [p]; t[..n] == f[..n] && t[n] == p && (AllOctets(t) <==> IsOctet(p))
  {
    var n := |f| - 1;
    var t := f[..n] + [p];
    assert t[n] == p && forall i | 0 <= i < n :: t[i] == f[i];
  }

  lemma OctetAppend(s: string, c: char)
    requires IsOctet(s) && IsDigit(c)
    ensures Value(s + [c], 10) == 10 * Value(s, 10) + (c as int - '0' as int)
    ensures IsOctet(s + [c]) <==> Value(s + [c], 10) <= 255
  {
    ValueAppend(s, c, 10);
  }

  lemma ScanDot(s: string, addr: Uint32, octet: nat, n: nat)
    requires Scanned(s, addr, octet, n)
    ensures Scanned(s + ['.'], ShiftIn(addr, octet), 0, n + 1)
  {
    var f := Split(s);
    SplitAppend(s, '.');
    assert f == f[..n] + [f[n]] && (f + [[]])[..n + 1] == f;
    ShiftedAppend(f[..n], f[n]);
    assert IsOctet([]);
  }

  lemma ScanOther(s: string, c: char, addr: Uint32, octet: nat, n: nat)
    requires Scanned(s, addr, octet, n) && !IsDigit(c) && c != '.'
    ensures !AllOctets(Split(s + [c]))
  {
    var f := Split(s);
    SplitAppend(s, c);
    assert (f[n] + [c])[|f[n]|] == c;
    assert !IsOctet(Split(s + [c])[n]);
  }

  lemma ScanEnd(s: string, addr: Uint32, octet: nat, n: nat)
    requires Scanned(s, addr, octet, n)
    ensures AddrOf(s) == if n == 3 then Some(BigEndian(ShiftIn(addr, octet))) else None
  {
    if n == 3 { ShiftedFour(Split(s)); }
  }

  /** Parses a dotted address; the same value stands for an error and for 255.255.255.255. */
  method InetAddr(text: string) returns (r: Addr)
    requires |text| < 0x1_0000_0000
    ensures r == if AddrOf(text).Some? then AddrOf(text).value else NONE
  {
    hide Scanned;
    var addr: Uint32, octet: nat, n: nat := 0, 0, 0;
    ScanStart();
    for i := 0 to |text|
      invariant Scanned(text[..i], addr, octet, n)
    {
      var c := text[i];
      assert text[..i + 1] == text[..i] + [c];
      if '0' <= c <= '9' {
        ScanDigit(text[..i], c, addr, octet, n);
        octet := octet * 10 + (c as int - '0' as int);
        if octet > 255 {
          BadPrefix(text, i + 1);
          return NONE;
        }
        continue;
      }
      if c == '.' {
        ScanDot(text[..i], addr, octet, n);
        addr := ShiftIn(addr, octet);
        octet := 0;
        n := n + 1;
        continue;
      }
      ScanOther(text[..i], c, addr, octet, n);
      BadPrefix(text, i + 1);
      return NONE;
    }
    assert text[..|text|] == text;
    ScanEnd(text, addr, octet, n);
    if n == 3 {
      addr := ShiftIn(addr, octet);
      return BigEndian(addr);
    }
    r := NONE;
  }

  lemma ScanStart()
    ensures Scanned([], 0, 0, 0)
  {
  }

  // ---------- sockets ----------

  datatype Endpoint = Endpoint(addr: Addr, port: nat)

  /** The index of the first `c` in a text, or its length. */
  ghost function Find(s: string, c: char): (i: nat)
    ensures i <= |s| && c !in s[..i] && (i < |s| ==> s[i] == c)
  {
    if s == [] || s[0] == c then 0 else 1 + Find(s[1..], c)
  }

  method Strlchr(s: string, c: char) returns (i: nat)
    ensures i == Find(s, c)
  {
    i := 0;
    while i < |s|
      invariant i <= |s| && Find(s, c) == i + Find(s[i..], c)
    {
      if s[i] == c {
        return;
      }
      assert s[i..][1..] == s[i + 1..];
      i := i + 1;
    }
  }

  /** A number that may be a port, or 0. */
  ghost function PortOf(s: string): nat {
    var n := Parsed(s, 10, INT_MAX);
    if 1 <= n <= 65535 then n else 0
  }

  /** The endpoint that a text stands for: an address and a port; for a listener, a star and a port or
      only a port will do. */
  ghost function EndpointOf(s: string, listen: bool): Option<Endpoint> {
    var i := Find(s, ':');
    if i == |s| then
      if listen && PortOf(s) > 0 then Some(Endpoint(ANY, PortOf(s))) else None
    else
      var host, port := s[..i], PortOf(s[i + 1..]);
      if port == 0 then None
      else if host == "*" then if listen then Some(Endpoint(ANY, port)) else None
      else
        match AddrOf(host)
        case None => None
        case Some(a) => if a == NONE then None else Some(Endpoint(a, port))
  }

  /** The fields of a parsed text; the caller sets `listen`. */
  class Url {
    var listen: bool
    var port: nat
    var portText: string
    var host: string
    var addr: Addr
    var sinPort: nat
    var err: Option<string>
  }

  method ParseInetSock(str: string, url: Url) returns (ok: bool)
    requires |str| < 0x1_0000_0000
    modifies url`port, url`portText, url`host, url`addr, url`sinPort, url`err
    ensures ok <==> EndpointOf(str, url.listen).Some?
    ensures ok ==> Endpoint(url.addr, url.port) == EndpointOf(str, url.listen).value && url.sinPort == url.port
    ensures ok ==> var i := Find(str, ':');
      url.host == (if i == |str| then "*" else str[..i]) && url.portText == str[if i == |str| then 0 else i + 1..]
    ensures !ok && str != [] ==> url.err.Some?
  {
    if |str| == 0 {
      return false;
    }
    var i := Strlchr(str, ':');
    if i == |str| {
      if !url.listen {
        url.err := Some("need a host");
        return false;
      }
      var n := Atoi(str);
      if n == -1 {
        url.err := Some("no port");
        return false;
      }
      if n < 1 || n > 65535 {
        url.err := Some("invalid port");
        return false;
      }
      url.port, url.sinPort, url.addr := n, n, ANY;
      url.portText, url.host := str, "*";
      return true;
    }
    ok := ParseHostAndPort(str, i, url);
  }

  /** The text with a colon at the index `i`. */
  method ParseHostAndPort(str: string, i: nat, url: Url) returns (ok: bool)
    requires i == Find(str, ':') < |str| < 0x1_0000_0000
    modifies url`port, url`portText, url`host, url`addr, url`sinPort, url`err
    ensures ok <==> EndpointOf(str, url.listen).Some?
    ensures ok ==> Endpoint(url.addr, url.port) == EndpointOf(str, url.listen).value && url.sinPort == url.port
    ensures ok ==> url.host == str[..i] && url.portText == str[i + 1..]
    ensures !ok ==> url.err.Some?
  {
    var n := Atoi(str[i + 1..]);
    if n < 1 || n > 65535 {
      url.err := Some("invalid port");
      return false;
    }
    url.port, url.sinPort := n, n;
    url.portText := str[i + 1..];
    var len := i;
    if len == 0 {
      url.err := Some("no host");
      return false;
    }
    url.host := str[..i];
    if len == 1 && str[0] == '*' {
      if !url.listen {
        url.err := Some("unsupport '*' for no listen");
        return false;
      }
      url.addr := ANY;
      return true;
    }
    url.addr := InetAddr(url.host);
    if url.addr == NONE {
      url.err := Some("invalid ip");
      return false;
    }
    url.err := None;
    ok := true;
  }

  // ---------- printing ----------

  function Dec(n: nat): string { Digits(n, 10, false) }

  function ShowAddr(a: Addr): string { Dec(a[0]) + "." + Dec(a[1]) + "." + Dec(a[2]) + "." + Dec(a[3]) }

  function Show(e: Endpoint): string { ShowAddr(e.addr) + ":" + Dec(e.port) }

  const FORMAT := "%ud.%ud.%ud.%ud:%d"

  function Args(e: Endpoint): seq<Arg> {
    [Number(e.addr[0]), Number(e.addr[1]), Number(e.addr[2]), Number(e.addr[3]), Number(e.port)]
  }

  lemma {:induction false} OutputUd(rest: string, n: nat, args: seq<Arg>)
    requires n < 0x1_0000_0000
    ensures Output("%ud" + rest, [Number(n)] + args) == Behind(Dec(n), Output(rest, args))
  {
    var s := "ud" + rest;
    assert ("%ud" + rest)[1..] == s && s[1..] == "d" + rest && s[1..][1..] == rest;
    var g := Flags(' ', 0, true, 0, false, NO_LENGTH);
    assert SkipDigits(s) == s && ReadWidth(s, 0) == 0;
    assert ReadFlags(s[1..], g.(sign := false), [Number(n)] + args)
      == Some((g.(sign := false), s[1..], [Number(n)] + args));
    assert ([Number(n)] + args)[1..] == args;
    assert Repeat(' ', 0) + Dec(n) == Dec(n);
    assert Directive(s, [Number(n)] + args) == Some((Dec(n), rest, args));
  }

  lemma {:induction false} OutputD(n: nat)
    requires n < 0x8000_0000
    ensures Output("%d", [Number(n)]) == Some(Dec(n))
  {
    assert "%d"[1..] == "d" && "d"[1..] == [];
    var g := Flags(' ', 0, true, 0, false, NO_LENGTH);
    assert SkipDigits("d") == "d" && ReadWidth("d", 0) == 0;
    assert ReadFlags("d", g, [Number(n)]) == Some((g, "d", [Number(n)]));
    assert [Number(n)][1..] == [];
    assert Repeat(' ', 0) + Dec(n) == Dec(n);
    assert Directive("d", [Number(n)]) == Some((Dec(n), [], []));
    assert Dec(n) + [] == Dec(n);
  }

  lemma {:induction false} OutputPlain(c: char, rest: string, args: seq<Arg>)
    requires c != '%'
    ensures Output([c] + rest, args) == Behind([c], Output(rest, args))
  {
    assert ([c] + rest)[1..] == rest;
  }

  /** What the format of an endpoint prints. */
  lemma {:induction false} OutputIsShow(e: Endpoint)
    requires e.port < 0x8000_0000
    ensures Output(FORMAT, Args(e)) == Some(Show(e))
  {
    hide Output, Digits;
    var f4 := ":%d";
    var f3, f2, f1 := "%ud" + f4, "%ud" + (['.'] + ("%ud" + f4)), "%ud" + (['.'] + ("%ud" + (['.'] + ("%ud" + f4))));
    var a4 := [Number(e.port)];
    var a3 := [Number(e.addr[3])] + a4;
    var a2 := [Number(e.addr[2])] + a3;
    var a1 := [Number(e.addr[1])] + a2;
    OutputD(e.port);
    OutputPlain(':', "%d", a4);
    assert [':'] + "%d" == f4;
    OutputUd(f4, e.addr[3], a4);
    OutputPlain('.', f3, a3);
    OutputUd(['.'] + f3, e.addr[2], a3);
    OutputPlain('.', f2, a2);
    OutputUd(['.'] + f2, e.addr[1], a2);
    OutputPlain('.', f1, a1);
    OutputUd(['.'] + f1, e.addr[0], a1);
    assert FORMAT == "%ud" + (['.'] + f1);
    assert Args(e) == [Number(e.addr[0])] + a1;
    assert Show(e) == Dec(e.addr[0])
      + (['.'] + (Dec(e.addr[1]) + (['.'] + (Dec(e.addr[2]) + (['.'] + (Dec(e.addr[3]) + ([':'] + Dec(e.port))))))));
  }

  /** Prints an endpoint into a buffer, as far as it fits. */
  method SockNtop(e: Endpoint, text: array<char>, len: nat) returns (n: nat)
    requires len <= text.Length && e.port < 65536
    modifies text
    ensures n == (if |Show(e)| <= len then |Show(e)| else len) && text[..n] == Show(e)[..n]
      && text[n..] == old(text[n..])
  {
    OutputIsShow(e);
    n := Vslprintf(text, 0, len, FORMAT, Args(e));
  }

  // ---------- the round trip ----------

  lemma {:induction false} DecDigits(n: nat)
    ensures forall i | 0 <= i < |Dec(n)| :: IsDigit(Dec(n)[i])
    ensures Value(Dec(n), 10) == n && IsNumeral(Dec(n), 10)
  {
    DigitsRoundTrip(n, 10, false);
    forall i | 0 <= i < |Dec(n)|
      ensures IsDigit(Dec(n)[i])
    {
      assert DigitValue(Dec(n)[i]) < 10;
    }
  }

  lemma {:induction false} SplitNoDot(s: string, d: string)
    requires '.' !in d
    ensures Split(s + d) == Split(s)[..|Split(s)| - 1] + [Split(s)[|Split(s)| - 1] + d]
    decreases |d|
  {
    if d == [] {
      assert s + d == s && Split(s)[|Split(s)| - 1] + d == Split(s)[|Split(s)| - 1];
    } else {
      var t, c := d[..|d| - 1], d[|d| - 1];
      assert s + d == (s + t) + [c] && d == t + [c];
      SplitNoDot(s, t);
      SplitAppend(s + t, c);
      Grouped(Split(s)[|Split(s)| - 1], t, [c]);
    }
  }

  lemma {:induction false} SplitJoined(s: string, d: string)
    requires '.' !in d
    ensures Split(s + "." + d) == Split(s) + [d]
  {
    SplitAppend(s, '.');
    SplitNoDot(s + ".", d);
    assert [] + d == d;
  }

  lemma {:induction false} SplitShown(p: string, q: string, r: string, s: string)
    requires '.' !in p && '.' !in q && '.' !in r && '.' !in s
    ensures Split(p + "." + q + "." + r + "." + s) == [p, q, r, s]
  {
    SplitNoDot([], p);
    assert [] + p == p && Split([]) == [[]];
    hide Split;
    SplitJoined(p, q);
    SplitJoined(p + "." + q, r);
    SplitJoined(p + "." + q + "." + r, s);
  }

  lemma {:induction false} AddrRoundTrip(a: Addr)
    ensures AddrOf(ShowAddr(a)) == Some(a)
  {
    hide Digits, Value, Split;
    var p, q, r, s := Dec(a[0]), Dec(a[1]), Dec(a[2]), Dec(a[3]);
    DecDigits(a[0]);
    DecDigits(a[1]);
    DecDigits(a[2]);
    DecDigits(a[3]);
    SplitShown(p, q, r, s);
    assert a == [a[0], a[1], a[2], a[3]];
  }

  /** Numbers between dots; a part that is missing is empty. */
  function Dotted(parts: seq<Option<nat>>): string {
    if |parts| == 0 then []
    else if |parts| == 1 then Part(parts[0])
    else Dotted(parts[..|parts| - 1]) + "." + Part(parts[|parts| - 1])
  }

  function Part(n: Option<nat>): string { if n.Some? then Dec(n.value) else [] }

  /** What a part counts. */
  function Octet(n: Option<nat>): nat { if n.Some? then n.value else 0 }

  lemma {:induction false} PartIsOctet(n: Option<nat>)
    ensures '.' !in Part(n) && Value(Part(n), 10) == Octet(n) && (IsOctet(Part(n)) <==> Octet(n) <= 255)
  {
    if n.Some? { DecDigits(n.value); }
  }

  ghost function Parts(parts: seq<Option<nat>>): seq<string> {
    if parts == [] then [] else Parts(parts[..|parts| - 1]) + [Part(parts[|parts| - 1])]
  }

  lemma {:induction false} PartAt(parts: seq<Option<nat>>, i: nat)
    requires i < |parts|
    ensures |Parts(parts)| == |parts| && Parts(parts)[i] == Part(parts[i])
  {
    hide Part;
    if |parts| > 1 { PartAt(parts[..|parts| - 1], if i < |parts| - 1 then i else 0); }
  }

  lemma SplitOne(d: string)
    requires '.' !in d
    ensures Split(d) == [d]
  {
    SplitNoDot([], d);
    assert [] + d == d && Split([]) == [[]];
  }

  lemma LastDotted(parts: seq<Option<nat>>)
    requires parts != []
    ensures var n := |parts| - 1; var d := Part(parts[n]);
      && Parts(parts) == Parts(parts[..n]) + [d]
      && Dotted(parts) == if n == 0 then d else Dotted(parts[..n]) + "." + d
  {
  }

  lemma {:induction false} SplitDotted(parts: seq<Option<nat>>)
    requires parts != []
    ensures Split(Dotted(parts)) == Parts(parts)
    decreases |parts|
  {
    var n := |parts| - 1;
    PartIsOctet(parts[n]);
    LastDotted(parts);
    assert n == 0 ==> Parts(parts[..n]) == [];
    hide Split, Part, Dotted, Parts;
    if n == 0 {
      SplitOne(Part(parts[0]));
    } else {
      SplitDotted(parts[..n]);
      SplitJoined(Dotted(parts[..n]), Part(parts[n]));
    }
  }

  /** Numbers between dots are an address exactly when they are four, and none is above 255; an empty
      part counts as 0. */
  lemma {:induction false} DottedIsRead(parts: seq<Option<nat>>)
    requires parts != []
    ensures AddrOf(Dotted(parts)).Some? <==> |parts| == 4 && forall i | 0 <= i < |parts| :: Octet(parts[i]) <= 255
    ensures AddrOf(Dotted(parts)).Some? ==>
      AddrOf(Dotted(parts)).value == [Octet(parts[0]), Octet(parts[1]), Octet(parts[2]), Octet(parts[3])]
  {
    SplitDotted(parts);
    PartAt(parts, 0);
    hide Dotted, Part, Value, IsOctet, Split, Octet, Parts;
    var p := Split(Dotted(parts));
    forall i | 0 <= i < |parts|
      ensures Value(p[i], 10) == Octet(parts[i]) && (IsOctet(p[i]) <==> Octet(parts[i]) <= 255)
    {
      PartAt(parts, i);
      PartIsOctet(parts[i]);
    }
  }

  /** Any other character makes a text no address. */
  lemma {:induction false} OnlyDigitsAndDots(s: string, i: nat)
    requires i < |s| && !IsDigit(s[i]) && s[i] != '.'
    ensures AddrOf(s) == None
  {
    var t, c := s[..i], s[i];
    assert s[..i + 1] == t + [c];
    SplitAppend(t, c);
    var f := Split(t);
    assert (f[|f| - 1] + [c])[|f[|f| - 1]|] == c;
    assert !IsOctet(Split(s[..i + 1])[|f| - 1]);
    BadPrefix(s, i + 1);
  }

  lemma {:induction false} FindAfter(s: string, c: char, rest: string)
    requires c !in s
    ensures Find(s + [c] + rest, c) == |s|
  {
    if s != [] {
      assert (s + [c] + rest)[1..] == s[1..] + [c] + rest;
      FindAfter(s[1..], c, rest);
    }
  }

  /** Parsing what was printed gives the same endpoint back, unless the address is
      255.255.255.255 or the port is not one: then there is an error. */
  lemma {:induction false} EndpointRoundTrip(e: Endpoint, listen: bool)
    ensures EndpointOf(Show(e), listen) == if e.addr != NONE && 1 <= e.port <= 65535 then Some(e) else None
  {
    var host, port := ShowAddr(e.addr), Dec(e.port);
    var s := Show(e);
    NoColon(e.addr);
    FindAfter(host, ':', port);
    assert s == host + [':'] + port;
    assert s[..|host|] == host && s[|host| + 1..] == port;
    DecDigits(e.port);
    AddrRoundTrip(e.addr);
    DecDigits(e.addr[0]);
    assert host[0] == Dec(e.addr[0])[0];
  }

  lemma {:induction false} FindNone(s: string, c: char)
    requires c !in s
    ensures Find(s, c) == |s|
  {
  }

  /** A listener may leave the address out, or write a star for it, and nobody else. */
  lemma {:induction false} AnyAddress(port: nat, listen: bool)
    ensures EndpointOf(Dec(port), listen) == EndpointOf("*:" + Dec(port), listen)
      == if listen && 1 <= port <= 65535 then Some(Endpoint(ANY, port)) else None
  {
    var s := "*:" + Dec(port);
    DecDigits(port);
    FindNone(Dec(port), ':');
    assert s == "*" + [':'] + Dec(port);
    FindAfter("*", ':', Dec(port));
    assert s[..1] == "*" && s[2..] == Dec(port);
  }

  lemma NoColon(a: Addr)
    ensures ':' !in ShowAddr(a)
  {
    DecDigits(a[0]);
    DecDigits(a[1]);
    DecDigits(a[2]);
    DecDigits(a[3]);
  }

  // ---------- port ranges ----------

  /** The ports that a text such as `80` or `80-90` stands for. */
  ghost function PortsOf(s: string): Option<(nat, nat)> {
    var i := Find(s, '-');
    var first, last := PortOf(s[..i]), if i == |s| then PortOf(s) else PortOf(s[i + 1..]);
    if first > 0 && last > 0 && first <= last then Some((first, last)) else None
  }

  method ParsePortRange(data: string) returns (ok: bool, portBegin: int, portEnd: int)
    ensures ok <==> PortsOf(data).Some?
    ensures ok ==> portBegin >= 0 && portEnd >= 0 && PortsOf(data) == Some((portBegin, portEnd))
  {
    ok, portBegin, portEnd := false, -1, -1;
    var p := Strlchr(data, '-');
    assert data[..|data|] == data;
    if p < |data| {
      portEnd := Atoi(data[p + 1..]);
      if portEnd < 1 || portEnd > 65535 {
        return;
      }
    }
    portBegin := Atoi(data[..p]);
    if portBegin < 1 || portBegin > 65535 {
      return;
    }
    if portEnd != -1 && portBegin > portEnd {
      return;
    } else if portEnd == -1 {
      portEnd := portBegin;
    }
    ok := true;
  }

  /** A port, or two of them, are read as themselves if they are ports and not upside down. */
  lemma {:induction false} PortsRoundTrip(first: nat, last: nat)
    ensures PortsOf(Dec(first) + "-" + Dec(last)) ==
      if 1 <= first <= last <= 65535 then Some((first, last)) else None
    ensures PortsOf(Dec(first)) == if 1 <= first <= 65535 then Some((first, first)) else None
  {
    var s, a, b := Dec(first) + "-" + Dec(last), Dec(first), Dec(last);
    DecDigits(first);
    DecDigits(last);
    FindAfter(a, '-', b);
    FindNone(a, '-');
    assert s == a + ['-'] + b;
    assert s[..|a|] == a && s[|a| + 1..] == b && a[..|a|] == a;
  }
}
