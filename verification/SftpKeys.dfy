// The key under which a connection's session is kept (SftpDock::connectionKey):
// user, host and port put into a text by place markers. The port comes last, and
// goes into the names too where they look like markers.
module SftpKeys {
  import opened Bytes

  // What the dock compares of a connection's settings.
  datatype Settings = Settings(username: string, host: string, port: nat)

  function Decimal(n: nat): (s: string)
    ensures |s| > 0 && forall i :: 0 <= i < |s| ==> '0' <= s[i] <= '9'
  {
    if n < 10 then ['0' + n as char] else Decimal(n / 10) + ['0' + (n % 10) as char]
  }

  lemma {:induction false} DecimalTells(m: nat, n: nat)
    requires Decimal(m) == Decimal(n)
    ensures m == n
  {
    var s, t := Decimal(m), Decimal(n);
    assert s[|s| - 1] == t[|t| - 1];
    if m >= 10 && n >= 10 {
      assert Decimal(m / 10) == s[..|s| - 1] == t[..|t| - 1] == Decimal(n / 10);
      DecimalTells(m / 10, n / 10);
    }
  }

  function ValueOf(s: string): nat
    requires forall i :: 0 <= i < |s| ==> '0' <= s[i] <= '9'
  {
    if |s| == 0 then 0 else ValueOf(s[..|s| - 1]) * 10 + (s[|s| - 1] - '0') as nat
  }

  // The port as it is written by hand: its value in tens, and no zero too many.
  lemma {:induction false} DecimalReads(n: nat)
    ensures ValueOf(Decimal(n)) == n && (n > 0 ==> Decimal(n)[0] != '0')
  {
    var s := Decimal(n);
    if n >= 10 {
      DecimalReads(n / 10);
      assert s[..|s| - 1] == Decimal(n / 10);
    } else {
      assert s[..0] == [];
    }
  }

  // ---- Place markers

  datatype Marker = Marker(value: nat, size: nat)

  predicate IsDigit(c: char) { '0' <= c <= '9' }

  function Number(c: char): nat
    requires IsDigit(c)
  {
    (c - '0') as nat
  }

  // One or two digits after a percent sign; an L between them asks for the
  // number as the locale writes it.
  function MarkerAt(s: string): (m: Option<Marker>)
    ensures m.Some? ==> 2 <= m.value.size <= |s| && s[0] == '%'
  {
    if |s| < 2 || s[0] != '%' then None
    else
      var at := if s[1] == 'L' then 2 else 1;
      if |s| <= at || !IsDigit(s[at]) then None
      else if at + 1 < |s| && IsDigit(s[at + 1]) then
        Some(Marker(10 * Number(s[at]) + Number(s[at + 1]), at + 2))
      else Some(Marker(Number(s[at]), at + 1))
  }

  const NO_MARKER := 100

  function ValueAt(s: string): nat { if MarkerAt(s).Some? then MarkerAt(s).value.value else NO_MARKER }

  // The lowest number of a marker in a text.
  function Lowest(s: string): (m: nat)
    ensures m <= NO_MARKER
  {
    if |s| == 0 then NO_MARKER else Min(Min(ValueAt(s), NO_MARKER), Lowest(s[1..]))
  }

  // Every marker of that number replaced.
  function Fill(s: string, m: nat, text: string): string {
    if |s| == 0 then ""
    else if MarkerAt(s).Some? && MarkerAt(s).value.value == m then text + Fill(s[MarkerAt(s).value.size..], m, text)
    else [s[0]] + Fill(s[1..], m, text)
  }

  // QString::arg() with a number: the markers of the lowest number are replaced.
  function Arg(s: string, text: string): string { if Lowest(s) < NO_MARKER then Fill(s, Lowest(s), text) else s }

  // User and host go in together, for %1 and %2; the port after them, for
  // what is the lowest marker by then.
  function Key(s: Settings): string { Arg(s.username + "@" + s.host + ":" + "%3", Decimal(s.port)) }

  // ---- Markers do not reach across

  // No marker goes on into a text that begins like this.
  ghost predicate Stops(b: string) { |b| == 0 || (!IsDigit(b[0]) && b[0] != 'L') }

  lemma MarkerLocal(a: string, b: string)
    requires |a| > 0 && Stops(b)
    ensures MarkerAt(a + b) == MarkerAt(a)
  {
  }

  lemma {:induction false} LowestSplits(a: string, b: string)
    requires Stops(b)
    ensures Lowest(a + b) == Min(Lowest(a), Lowest(b))
  {
    if |a| == 0 {
      assert a + b == b;
    } else {
      hide MarkerAt;
      LowestSplits(a[1..], b);
      MarkerLocal(a, b);
      assert (a + b)[1..] == a[1..] + b;
    }
  }

  lemma FillStep(s: string, m: nat, text: string)
    requires |s| > 0
    ensures var k := MarkerAt(s);
            Fill(s, m, text) ==
            if k.Some? && k.value.value == m then text + Fill(s[k.value.size..], m, text)
            else [s[0]] + Fill(s[1..], m, text)
  {
  }

  lemma TailOf(a: string, b: string, at: nat)
    requires 0 < at <= |a|
    ensures (a + b)[at..] == a[at..] + b && (a + b)[0] == a[0]
  {
  }

  lemma {:induction false} FillSplits(a: string, b: string, m: nat, text: string)
    requires Stops(b)
    ensures Fill(a + b, m, text) == Fill(a, m, text) + Fill(b, m, text)
    decreases |a|
  {
    hide MarkerAt, Fill, Stops;
    if |a| == 0 {
      EmptyText(m, text);
      assert a + b == b && [] + Fill(b, m, text) == Fill(b, m, text);
    } else {
      MarkerLocal(a, b);
      var k := MarkerAt(a);
      var at := if k.Some? && k.value.value == m then k.value.size else 1;
      var first := if k.Some? && k.value.value == m then text else [a[0]];
      FillStep(a, m, text);
      FillStep(a + b, m, text);
      TailOf(a, b, at);
      FillSplits(a[at..], b, m, text);
      Chain(first, Fill(a[at..], m, text), Fill(b, m, text));
    }
  }

  lemma Chain(a: string, b: string, c: string)
    ensures a + b + c == a + (b + c)
  {
  }

  lemma {:induction false} FillNone(s: string, m: nat, text: string)
    requires m < Lowest(s)
    ensures Fill(s, m, text) == s
  {
    if |s| > 0 {
      FillNone(s[1..], m, text);
    }
  }

  lemma LowestSkips(c: char, s: string)
    requires c != '%'
    ensures Lowest([c] + s) == Lowest(s)
  {
    assert ([c] + s)[1..] == s;
  }

  lemma FillSkips(c: char, s: string, m: nat, text: string)
    requires c != '%'
    ensures Fill([c] + s, m, text) == [c] + Fill(s, m, text)
  {
    assert ([c] + s)[1..] == s;
  }

  lemma {:induction false} LowestOfRest(s: string, i: nat)
    requires i <= |s|
    ensures Lowest(s[i..]) >= Lowest(s)
  {
    if i == 0 {
      assert s[0..] == s;
    } else {
      LowestOfRest(s[1..], i - 1);
      assert s[1..][i - 1..] == s[i..];
    }
  }

  // ---- What a key looks like

  ghost function LowestOf(s: Settings): nat { Min(Min(Lowest(s.username), Lowest(s.host)), 3) }

  lemma Template()
    ensures Lowest("%3") == 3
  {
    assert "%3"[1..] == "3" && "3"[1..] == "";
    assert MarkerAt("%3") == Some(Marker(3, 2));
  }

  lemma TemplateFilled(m: nat, text: string)
    requires m <= 3
    ensures Fill("%3", m, text) == if m == 3 then text else "%3"
  {
    assert "%3"[1..] == "3" && "3"[1..] == "" && "%3"[2..] == "";
    assert MarkerAt("%3") == Some(Marker(3, 2));
    assert Fill("3", m, text) == "3";
  }

  // The markers of the lowest number, in the names and in the text, are the port.
  lemma KeyLooks(s: Settings)
    ensures var m, d := LowestOf(s), Decimal(s.port);
            Key(s) == Fill(s.username, m, d) + "@" + Fill(s.host, m, d) + ":" + if m == 3 then d else "%3"
  {
    hide MarkerAt, Lowest, Fill;
    var u, h, d := s.username, s.host, Decimal(s.port);
    var tail := h + (":" + "%3");
    assert u + "@" + h + ":" + "%3" == u + ("@" + tail);
    LowestSplits(u, "@" + tail);
    LowestSkips('@', tail);
    LowestSplits(h, ":" + "%3");
    LowestSkips(':', "%3");
    Template();
    var m := LowestOf(s);
    assert Lowest(u + ("@" + tail)) == m;
    FillSplits(u, "@" + tail, m, d);
    FillSkips('@', tail, m, d);
    FillSplits(h, ":" + "%3", m, d);
    FillSkips(':', "%3", m, d);
    TemplateFilled(m, d);
  }

  // Names without markers up to %3 come out as they are.
  ghost predicate Hit(name: string) { Lowest(name) <= 3 }

  lemma PlainKey(s: Settings)
    requires !Hit(s.username) && !Hit(s.host)
    ensures Key(s) == s.username + "@" + s.host + ":" + Decimal(s.port)
  {
    KeyLooks(s);
    FillNone(s.username, 3, Decimal(s.port));
    FillNone(s.host, 3, Decimal(s.port));
  }

  // ---- Cutting a key apart

  // What is before and after the last `c`.
  function CutLast(s: string, c: char): (string, string) {
    if |s| == 0 then ("", "")
    else if s[|s| - 1] == c then (s[..|s| - 1], "")
    else
      var (a, b) := CutLast(s[..|s| - 1], c);
      (a, b + [s[|s| - 1]])
  }

  lemma {:induction false} CutsLast(a: string, b: string, c: char)
    requires c !in b
    ensures CutLast(a + [c] + b, c) == (a, b)
    decreases |b|
  {
    var s := a + [c] + b;
    if |b| == 0 {
      assert s[..|s| - 1] == a;
    } else {
      CutsLast(a, b[..|b| - 1], c);
      assert s[..|s| - 1] == a + [c] + b[..|b| - 1];
      assert b == b[..|b| - 1] + [b[|b| - 1]];
    }
  }

  // Connections without percent signs in their names, nor an `@` in their
  // hosts', have different keys.
  lemma KeyTells(s: Settings, t: Settings)
    requires '%' !in s.username + s.host && '%' !in t.username + t.host
    requires '@' !in s.host && '@' !in t.host && Key(s) == Key(t)
    ensures s == t
  {
    NoMarkers(s.username);
    NoMarkers(s.host);
    NoMarkers(t.username);
    NoMarkers(t.host);
    PlainKey(s);
    PlainKey(t);
    CutsLast(s.username + "@" + s.host, Decimal(s.port), ':');
    CutsLast(t.username + "@" + t.host, Decimal(t.port), ':');
    DecimalTells(s.port, t.port);
    CutsLast(s.username, s.host, '@');
    CutsLast(t.username, t.host, '@');
  }

  lemma {:induction false} NoMarkers(s: string)
    requires '%' !in s
    ensures Lowest(s) == NO_MARKER
  {
    if |s| > 0 {
      NoMarkers(s[1..]);
    }
  }

  lemma KeysCanClash()
    ensures var s, t := Settings("a@b", "c", 22), Settings("a", "b@c", 22); s != t && Key(s) == Key(t)
  {
    var s, t := Settings("a@b", "c", 22), Settings("a", "b@c", 22);
    NoMarkers(s.username);
    NoMarkers(s.host);
    NoMarkers(t.username);
    NoMarkers(t.host);
    PlainKey(s);
    PlainKey(t);
    assert s.username + "@" + s.host == "a@b@c" == t.username + "@" + t.host;
    assert |s.username| != |t.username|;
  }

  // ---- Own keys

  // The digits of the port are in the name where they could have come from a
  // marker: with none of the low ones before them.
  ghost predicate Hides(name: string, d: string) {
    exists i :: PortAt(name, d, i)
  }

  ghost predicate PortAt(name: string, d: string, i: int) {
    0 <= i <= i + |d| <= |name| && name[i..i + |d|] == d && !Hit(name[..i])
  }

  ghost predicate Clean(s: Settings) {
    && '@' !in s.username && '@' !in s.host
    && !Hit(s.username) && !Hit(s.host)
    && !Hides(s.username, Decimal(s.port)) && !Hides(s.host, Decimal(s.port))
  }

  // A connection has a key of its own if and only if neither name has an `@`,
  // a marker up to %3, or its port's digits where a marker could have put them.
  lemma KeyIsOwnIff(s: Settings)
    ensures (forall t :: Key(t) == Key(s) ==> t == s) <==> Clean(s)
  {
    hide Key, Lowest, Hides;
    if Clean(s) {
      forall t | Key(t) == Key(s)
        ensures t == s
      {
        CleanIsOwn(s, t);
      }
    } else if Hit(s.username) || Hit(s.host) {
      HitIsShared(s);
    } else if '@' in s.username || '@' in s.host {
      OtherCut(s);
    } else {
      HiddenIsShared(s);
    }
  }

  // ---- Clean names

  // How many `@` a text has.
  ghost function Ats(s: string): nat { if |s| == 0 then 0 else (if s[0] == '@' then 1 else 0) + Ats(s[1..]) }

  lemma {:induction false} AtsAdd(a: string, b: string)
    ensures Ats(a + b) == Ats(a) + Ats(b)
  {
    if |a| == 0 {
      assert a + b == b;
    } else {
      AtsAdd(a[1..], b);
      assert (a + b)[1..] == a[1..] + b && (a + b)[0] == a[0];
    }
  }

  lemma {:induction false} NoAts(s: string)
    ensures Ats(s) == 0 <==> '@' !in s
  {
    if |s| > 0 {
      NoAts(s[1..]);
      assert s == [s[0]] + s[1..];
    }
  }

  lemma JoinedAts(u: string, h: string)
    ensures Ats(u + "@" + h) == Ats(u) + 1 + Ats(h)
  {
    assert "@"[1..] == "";
    AtsAdd(u, "@");
    AtsAdd(u + "@", h);
  }

  lemma CleanIsOwn(s: Settings, t: Settings)
    requires Clean(s) && Key(t) == Key(s)
    ensures t == s
  {
    hide Key, Lowest, Fill, Hides, Ats, CutLast;
    SameParts(s, t);
    Preimage(t.username, s.username, Decimal(s.port));
    Preimage(t.host, s.host, Decimal(s.port));
  }

  // Equal keys have equal parts, if one of them is of clean names.
  lemma SameParts(s: Settings, t: Settings)
    requires Clean(s) && Key(t) == Key(s)
    ensures Lowest(t.username) >= 3 && Lowest(t.host) >= 3 && t.port == s.port
    ensures Fill(t.username, 3, Decimal(s.port)) == s.username && Fill(t.host, 3, Decimal(s.port)) == s.host
  {
    hide Key, Lowest, Fill, Hides, Ats, CutLast;
    PlainKey(s);
    KeyLooks(t);
    var m, d := LowestOf(t), Decimal(t.port);
    var u, h := Fill(t.username, m, d), Fill(t.host, m, d);
    var end := if m == 3 then d else "%3";
    CutsLast(s.username + "@" + s.host, Decimal(s.port), ':');
    CutsLast(u + "@" + h, end, ':');
    assert end == Decimal(s.port) && u + "@" + h == s.username + "@" + s.host;
    assert m == 3 by {
      assert Decimal(s.port)[0] != '%';
    }
    DecimalTells(s.port, t.port);
    SameNames(u, h, s.username, s.host);
  }

  lemma SameNames(u: string, h: string, x: string, y: string)
    requires u + "@" + h == x + "@" + y && '@' !in x && '@' !in y
    ensures u == x && h == y
  {
    hide Ats, CutLast;
    JoinedAts(u, h);
    JoinedAts(x, y);
    NoAts(x);
    NoAts(y);
    NoAts(h);
    CutsLast(u, h, '@');
    CutsLast(x, y, '@');
  }

  // A name that comes from another one hides the port.
  lemma Preimage(x: string, name: string, d: string)
    requires Lowest(x) >= 3 && Fill(x, 3, d) == name
    ensures x == name || Hides(name, d)
  {
    hide Lowest, Fill;
    if Lowest(x) == 3 {
      var i := FirstMarker(x, d);
      assert PortAt(name, d, i);
    } else {
      FillNone(x, 3, d);
    }
  }

  // Before the first marker a text comes out as it is.
  lemma {:induction false} FirstMarker(x: string, d: string) returns (i: nat)
    requires Lowest(x) == 3
    ensures i < |x| && x[i] == '%' && Lowest(x[..i]) > 3
    ensures var y := Fill(x, 3, d); i + |d| <= |y| && y[..i] == x[..i] && y[i..i + |d|] == d
  {
    hide MarkerAt, Fill, Lowest;
    if ValueAt(x) == 3 {
      i := 0;
      EmptyText(3, d);
      FillStep(x, 3, d);
      StartsWithMarker(x);
    } else {
      LowestStep(x);
      i := FirstMarker(x[1..], d);
      FillStep(x, 3, d);
      FirstLater(x, i);
      Later(x[0], x[1..], Fill(x[1..], 3, d), i, |d|);
      i := i + 1;
    }
  }

  lemma StartsWithMarker(x: string)
    requires ValueAt(x) == 3
    ensures |x| > 0 && x[0] == '%'
  {
  }

  lemma LowestStep(x: string)
    requires Lowest(x) < NO_MARKER
    ensures |x| > 0 && Lowest(x) == Min(ValueAt(x), Lowest(x[1..]))
  {
  }

  // No marker ends where a later one begins.
  lemma FirstLater(x: string, i: nat)
    requires i + 1 < |x| && x[i + 1] == '%' && Lowest(x[1..][..i]) > 3 && ValueAt(x) > 3
    ensures Lowest(x[..i + 1]) > 3
  {
    hide MarkerAt;
    var p := x[..i + 1];
    assert p + x[i + 1..] == x && p[1..] == x[1..][..i];
    MarkerLocal(p, x[i + 1..]);
  }

  lemma Later(c: char, rest: string, z: string, i: nat, k: nat)
    requires i <= |rest| && i + k <= |z| && z[..i] == rest[..i]
    ensures ([c] + z)[..i + 1] == ([c] + rest)[..i + 1] && ([c] + z)[i + 1..i + 1 + k] == z[i..i + k]
  {
  }

  // ---- Shared keys

  // With an `@`, the names can be cut apart at another one.
  lemma OtherCut(s: Settings)
    requires !Hit(s.username) && !Hit(s.host) && ('@' in s.username || '@' in s.host)
    ensures exists t :: t != s && Key(t) == Key(s)
  {
    hide Key, Hit;
    var u, h := s.username, s.host;
    if '@' in u {
      var i :| 0 <= i < |u| && u[i] == '@';
      CutAt(u, i);
      NotHitJoined(u[..i], u[i + 1..]);
      NotHitJoined(u[i + 1..], h);
      SameKeyCut(s, Settings(u[..i], u[i + 1..] + "@" + h, s.port), u[..i], u[i + 1..], h);
    } else {
      var i :| 0 <= i < |h| && h[i] == '@';
      CutAt(h, i);
      NotHitJoined(h[..i], h[i + 1..]);
      NotHitJoined(u, h[..i]);
      SameKeyCut(Settings(u + "@" + h[..i], h[i + 1..], s.port), s, u, h[..i], h[i + 1..]);
    }
  }

  lemma CutAt(s: string, i: nat)
    requires i < |s| && s[i] == '@'
    ensures s == s[..i] + "@" + s[i + 1..]
  {
  }

  lemma NotHitJoined(a: string, b: string)
    ensures Hit(a + "@" + b) <==> Hit(a) || Hit(b)
  {
    hide Lowest;
    assert a + "@" + b == a + ("@" + b);
    LowestSplits(a, "@" + b);
    LowestSkips('@', b);
  }

  // Three texts joined by `@`, cut at the one or at the other.
  lemma SameKeyCut(s: Settings, t: Settings, a: string, b: string, c: string)
    requires s.port == t.port && !Hit(s.username) && !Hit(s.host) && !Hit(t.username) && !Hit(t.host)
    requires s.username == a + "@" + b && s.host == c && t.username == a && t.host == b + "@" + c
    ensures s != t && Key(s) == Key(t)
  {
    hide Key, Hit;
    PlainKey(s);
    PlainKey(t);
    assert a + "@" + b + "@" + c == a + "@" + (b + "@" + c);
    assert |s.username| != |t.username|;
  }

  // A low marker in a name can be written with an L or without: both come out
  // as the port.
  lemma HitIsShared(s: Settings)
    requires Hit(s.username) || Hit(s.host)
    ensures exists t :: t != s && Key(t) == Key(s)
  {
    hide Key, Lowest, Fill;
    var m, d := LowestOf(s), Decimal(s.port);
    var first := Lowest(s.username) == m;
    var name := if first then s.username else s.host;
    var other := Respelt(name, d);
    var t := if first then s.(username := other) else s.(host := other);
    KeyLooks(s);
    KeyLooks(t);
    assert t != s && Key(t) == Key(s);
  }

  lemma {:induction false} LowestMarker(x: string) returns (i: nat)
    requires Lowest(x) < NO_MARKER
    ensures i < |x| && MarkerAt(x[i..]).Some? && MarkerAt(x[i..]).value.value == Lowest(x)
  {
    hide MarkerAt;
    if ValueAt(x) == Lowest(x) {
      i := 0;
      assert x[0..] == x;
    } else {
      i := LowestMarker(x[1..]);
      assert x[1..][i..] == x[i + 1..];
      i := i + 1;
    }
  }

  lemma Respelt(x: string, d: string) returns (y: string)
    requires Lowest(x) < NO_MARKER
    ensures y != x && Lowest(y) == Lowest(x) && Fill(y, Lowest(x), d) == Fill(x, Lowest(x), d)
  {
    hide Lowest, Fill, MarkerAt;
    var m := Lowest(x);
    var i := LowestMarker(x);
    var p, r := x[..i], x[i..];
    assert x == p + r;
    MarkerStarts(r);
    LowestOfRest(x, i);
    OneStep(r, m, d);
    var q := OtherSpelling(r, d);
    y := p + q;
    LowestSplits(p, r);
    LowestSplits(p, q);
    FillSplits(p, r, m, d);
    FillSplits(p, q, m, d);
    assert y[i..] == q && x[i..] == r;
  }

  lemma MarkerStarts(r: string)
    requires MarkerAt(r).Some?
    ensures |r| > 0 && r[0] == '%' && Stops(r)
  {
  }

  // The same marker with an L put in or left out.
  lemma OtherSpelling(r: string, d: string) returns (q: string)
    requires MarkerAt(r).Some? && MarkerAt(r).value.value == Lowest(r)
    ensures q != r && Stops(q) && Lowest(q) == Lowest(r)
    ensures Fill(q, Lowest(r), d) == Fill(r, Lowest(r), d)
  {
    var m := Lowest(r);
    q := if r[1] == 'L' then "%" + r[2..] else "%L" + r[1..];
    assert |q| != |r|;
    var long, short := if r[1] == 'L' then r else q, if r[1] == 'L' then q else r;
    SameMarker(short, long, d);
  }

  lemma SameMarker(short: string, long: string, d: string)
    requires |short| > 0 && short[0] == '%' && long == "%L" + short[1..]
    requires MarkerAt(short).Some? || MarkerAt(long).Some?
    requires |short| > 1 && short[1] != 'L'
    ensures MarkerAt(short).Some? && MarkerAt(long) == Some(Marker(ValueAt(short), MarkerAt(short).value.size + 1))
    ensures Lowest(long) == Lowest(short)
    ensures Fill(long, ValueAt(short), d) == Fill(short, ValueAt(short), d)
  {
    var tail := short[1..];
    assert long[2..] == tail && long[1..] == "L" + tail;
    LowestSkips('L', tail);
    var k := MarkerAt(short).value.size;
    assert long[k + 1..] == short[k..];
  }

  // The port's digits in a name can be a marker instead.
  lemma HiddenIsShared(s: Settings)
    requires !Hit(s.username) && !Hit(s.host)
    requires Hides(s.username, Decimal(s.port)) || Hides(s.host, Decimal(s.port))
    ensures exists t :: t != s && Key(t) == Key(s)
  {
    hide Key, Lowest, Fill;
    var d := Decimal(s.port);
    var first := Hides(s.username, d);
    var name := if first then s.username else s.host;
    var i :| PortAt(name, d, i);
    var other := name[..i] + ("%03" + name[i + |d|..]);
    MarkerForPort(name, d, i);
    var t := if first then s.(username := other) else s.(host := other);
    PlainKey(s);
    KeyLooks(t);
    FillNone(if first then s.host else s.username, 3, d);
    assert t != s && Key(t) == Key(s);
  }

  lemma MarkerForPort(name: string, d: string, i: nat)
    requires !Hit(name) && PortAt(name, d, i)
    ensures var x := name[..i] + ("%03" + name[i + |d|..]); Lowest(x) == 3 && Fill(x, 3, d) == name
  {
    hide Lowest, Fill;
    var p, q := name[..i], name[i + |d|..];
    LowestOfRest(name, i + |d|);
    MarkerBetween(p, q, d);
    Pieces(name, i, |d|);
  }

  lemma Pieces(s: string, i: nat, k: nat)
    requires i + k <= |s|
    ensures s == s[..i] + s[i..i + k] + s[i + k..]
  {
  }

  lemma MarkerBetween(p: string, q: string, d: string)
    requires Lowest(p) > 3 && Lowest(q) > 3
    ensures var x := p + ("%03" + q); Lowest(x) == 3 && Fill(x, 3, d) == p + d + q
  {
    hide Lowest, Fill;
    LowestSplits(p, "%03" + q);
    FillSplits(p, "%03" + q, 3, d);
    Three(q, d);
    FillNone(p, 3, d);
    FillNone(q, 3, d);
    Chain(p, d, q);
  }

  lemma Three(q: string, d: string)
    ensures Lowest("%03" + q) == Min(3, Lowest(q))
    ensures Fill("%03" + q, 3, d) == d + Fill(q, 3, d)
  {
    hide Lowest, Fill;
    var x := "%03" + q;
    assert x[1..] == ['0'] + (['3'] + q) && x[3..] == q;
    LowestSkips('0', ['3'] + q);
    LowestSkips('3', q);
    assert MarkerAt(x) == Some(Marker(3, 3));
    OneStep(x, 3, d);
  }

  lemma OneStep(x: string, m: nat, d: string)
    requires |x| > 0 && MarkerAt(x).Some? && MarkerAt(x).value.value == m
    ensures Lowest(x) == Min(Min(m, NO_MARKER), Lowest(x[1..]))
    ensures Fill(x, m, d) == d + Fill(x[MarkerAt(x).value.size..], m, d)
  {
  }

  // Two hosts on the same link, told apart by their zone alone, share a key.
  lemma ZonesCanClash()
    ensures var s, t := Settings("u", "fe80::1%1", 22), Settings("u", "fe80::1%2", 22);
            s != t && Key(s) == Key(t) == "u@fe80::122:%3"
  {
    var s, t := Settings("u", "fe80::1%1", 22), Settings("u", "fe80::1%2", 22);
    ZoneKey('1');
    ZoneKey('2');
    assert s.host == "fe80::1%" + ['1'] && t.host == "fe80::1%" + ['2'];
    assert s.host[8] != t.host[8];
  }

  lemma ZoneKey(zone: char)
    requires zone == '1' || zone == '2'
    ensures Key(Settings("u", "fe80::1%" + [zone], 22)) == "u@fe80::122:%3"
  {
    hide Lowest, Fill, Key;
    var s := Settings("u", "fe80::1%" + [zone], 22);
    var m := Number(zone);
    KeyLooks(s);
    NoMarkers("u");
    NoMarkers("fe80::1");
    var mark := ['%', zone];
    assert s.host == "fe80::1" + mark;
    LowestSplits("fe80::1", mark);
    FillSplits("fe80::1", mark, m, "22");
    FillNone("u", m, "22");
    FillNone("fe80::1", m, "22");
    assert MarkerAt(mark) == Some(Marker(m, 2));
    OneStep(mark, m, "22");
    EmptyText(m, "22");
    assert mark[1..] == [zone] + [] && mark[2..] == [];
    LowestSkips(zone, []);
    assert Decimal(22) == "22" by {
      assert Decimal(2) == "2";
    }
  }

  lemma EmptyText(m: nat, d: string)
    ensures Lowest([]) == NO_MARKER && Fill([], m, d) == []
  {
  }
}
