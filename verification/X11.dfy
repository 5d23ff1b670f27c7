// The connection-setup request of an X client and how the bridge rewrites it
// (X11Forwarder::processSetup), as a function of the bytes the client has sent.
module X11 {
  import opened Bytes

  // ---- Fields of the request

  function Pad4(n: nat): (r: nat)
    ensures r % 4 == 0 && n <= r < n + 4
  {
    (n + 3) / 4 * 4
  }

  function ReadU16(b: bytes, off: nat, little: bool): (v: nat)
    requires off + 2 <= |b|
    ensures v < 0x1_0000
  {
    if little then b[off + 1] as int * 256 + b[off] as int else b[off] as int * 256 + b[off + 1] as int
  }

  function WithU16(b: bytes, off: nat, v: nat, little: bool): (r: bytes)
    requires off + 2 <= |b| && v < 0x1_0000
    ensures |r| == |b| && ReadU16(r, off, little) == v
    ensures forall k :: 0 <= k < |b| && k != off && k != off + 1 ==> r[k] == b[k]
  {
    var low, high := v % 256, v / 256;
    if little then b[off := low][off + 1 := high] else b[off := high][off + 1 := low]
  }

  const LITTLE: byte := 108 // 'l'
  const BIG: byte := 66 // 'B'

  // "MIT-MAGIC-COOKIE-1"
  const AUTH_PROTO: bytes := [77, 73, 84, 45, 77, 65, 71, 73, 67, 45, 67, 79, 79, 75, 73, 69, 45, 49]

  const COOKIE_LEN := 16

  // The cookie the remote side was given, and the local display's, if any.
  datatype Cookies = Cookies(fake: bytes, own: bytes)

  predicate Known(c: Cookies) { |c.fake| == COOKIE_LEN && (|c.own| == 0 || |c.own| == COOKIE_LEN) }

  // ---- The rewriting

  datatype Outcome = Wait | Refuse | Rewritten(out: bytes)

  function Padded(b: bytes): bytes { b + Repeat(0, Pad4(|b|) - |b|) }

  // The header and the credentials sent in place of the client's.
  function Credentials(header: bytes, little: bool, c: Cookies): bytes
    requires |header| == 12 && Known(c)
  {
    if |c.own| == 0 then WithU16(WithU16(header, 6, 0, little), 8, 0, little)
    else WithU16(WithU16(header, 6, |AUTH_PROTO|, little), 8, |c.own|, little) + Padded(AUTH_PROTO) + Padded(c.own)
  }

  function Rewrite(s: bytes, c: Cookies): Outcome
    requires Known(c)
  {
    if |s| < 12 then Wait
    else
      var little := s[0] == LITTLE;
      if !little && s[0] != BIG then Refuse
      else
        var nameLen, dataLen := ReadU16(s, 6, little), ReadU16(s, 8, little);
        var total := 12 + Pad4(nameLen) + Pad4(dataLen);
        if |s| < total then Wait
        else if s[12 + Pad4(nameLen)..][..dataLen] != c.fake then Refuse
        else Rewritten(Credentials(s[..12], little, c) + s[total..])
  }

  // What a rewriting or a refusal depends on has arrived: more bytes are passed on.
  lemma RewriteExtends(s: bytes, t: bytes, c: Cookies)
    requires Known(c)
    ensures Rewrite(s, c).Refuse? ==> Rewrite(s + t, c).Refuse?
    ensures Rewrite(s, c).Rewritten? ==> Rewrite(s + t, c) == Rewritten(Rewrite(s, c).out + t)
  {
    hide Credentials;
    if |s| >= 12 && (s[0] == LITTLE || s[0] == BIG) {
      var st, little := s + t, s[0] == LITTLE;
      var nameLen, dataLen := ReadU16(s, 6, little), ReadU16(s, 8, little);
      var total := 12 + Pad4(nameLen) + Pad4(dataLen);
      assert ReadU16(st, 6, little) == nameLen && ReadU16(st, 8, little) == dataLen;
      if |s| >= total {
        assert st[..12] == s[..12];
        assert st[12 + Pad4(nameLen)..][..dataLen] == s[12 + Pad4(nameLen)..][..dataLen];
        assert st[total..] == s[total..] + t;
        assert Credentials(s[..12], little, c) + (s[total..] + t) == Credentials(s[..12], little, c) + s[total..] + t;
      }
    }
  }

  // ---- The request as the X protocol lays it out

  // A setup request; `unused` are the header's three pad bytes, `namePad` and
  // `dataPad` fill name and data up to a multiple of four.
  datatype Setup = Setup(little: bool, version: bytes, unused: bytes, name: bytes, namePad: bytes, data: bytes,
      dataPad: bytes)

  predicate WellFormed(q: Setup) {
    && |q.version| == 4 && |q.unused| == 3
    && |q.name| < 0x1_0000 && |q.namePad| == Pad4(|q.name|) - |q.name|
    && |q.data| < 0x1_0000 && |q.dataPad| == Pad4(|q.data|) - |q.data|
  }

  function Ascii(text: string): (b: bytes)
    requires forall i :: 0 <= i < |text| ==> text[i] < 128 as char
    ensures |b| == |text|
  {
    seq(|text|, i requires 0 <= i < |text| => text[i] as int)
  }

  function U16Bytes(v: nat, little: bool): (r: bytes)
    requires v < 0x1_0000
    ensures |r| == 2
  {
    if little then [v % 256, v / 256] else [v / 256, v % 256]
  }

  function Header(q: Setup): (h: bytes)
    requires WellFormed(q)
    ensures |h| == 12
  {
    [if q.little then 108 else 66, q.unused[0]] + q.version + U16Bytes(|q.name|, q.little)
      + U16Bytes(|q.data|, q.little) + q.unused[1..]
  }

  function Encode(q: Setup): (e: bytes)
    requires WellFormed(q)
    ensures |e| == 12 + Pad4(|q.name|) + Pad4(|q.data|)
  {
    Header(q) + (q.name + q.namePad) + (q.data + q.dataPad)
  }

  // The same request with the local display's credentials, or with none.
  function Swapped(q: Setup, c: Cookies): (r: Setup)
    requires WellFormed(q) && Known(c)
    ensures WellFormed(r)
  {
    assert |"MIT-MAGIC-COOKIE-1"| == 18;
    if |c.own| == 0 then q.(name := [], namePad := [], data := [], dataPad := [])
    else q.(name := Ascii("MIT-MAGIC-COOKIE-1"), namePad := [0, 0], data := c.own, dataPad := [])
  }

  lemma HeaderFields(q: Setup)
    requires WellFormed(q)
    ensures var h := Header(q);
            && h[0] == (if q.little then 108 else 66)
            && ReadU16(h, 6, q.little) == |q.name| && ReadU16(h, 8, q.little) == |q.data|
  {
  }

  // Cutting apart what was put together.
  lemma Cuts(h: bytes, n: bytes, d: bytes, rest: bytes)
    ensures var s := h + n + d + rest;
            && s[..|h|] == h && s[|h| + |n|..] == d + rest && s[|h| + |n| + |d|..] == rest
  {
    var s := h + n + d + rest;
    assert s == (h + n) + (d + rest);
  }

  lemma Front(a: bytes, b: bytes, rest: bytes)
    ensures (a + b + rest)[..|a|] == a
  {
  }

  lemma SameFields(h: bytes, tail: bytes, little: bool)
    requires |h| == 12
    ensures (h + tail)[0] == h[0]
    ensures ReadU16(h + tail, 6, little) == ReadU16(h, 6, little)
            && ReadU16(h + tail, 8, little) == ReadU16(h, 8, little)
  {
  }

  lemma EncodeParts(q: Setup)
    requires WellFormed(q)
    ensures Encode(q) == Header(q) + (q.name + q.namePad) + (q.data + q.dataPad)
  {
  }

  lemma Regrouped(h: bytes, n: bytes, d: bytes, rest: bytes)
    ensures h + n + d + rest == h + (n + d + rest)
  {
  }

  // What follows a header reads the same with the rest of the stream behind it.
  lemma EncodedFields(q: Setup, rest: bytes)
    requires WellFormed(q)
    ensures var s, at := Encode(q) + rest, 12 + Pad4(|q.name|);
            && s[..12] == Header(q) && s[0] == (if q.little then 108 else 66)
            && ReadU16(s, 6, q.little) == |q.name| && ReadU16(s, 8, q.little) == |q.data|
            && s[at..][..|q.data|] == q.data && s[at + Pad4(|q.data|)..] == rest
  {
    hide Header, ReadU16, Pad4, Encode;
    HeaderFields(q);
    var h, n, d := Header(q), q.name + q.namePad, q.data + q.dataPad;
    assert Encode(q) == h + n + d by {
      EncodeParts(q);
    }
    Cuts(h, n, d, rest);
    Front(q.data, q.dataPad, rest);
    Regrouped(h, n, d, rest);
    SameFields(h, n + d + rest, q.little);
  }

  lemma ProtocolName()
    ensures AUTH_PROTO == Ascii("MIT-MAGIC-COOKIE-1") && |AUTH_PROTO| == 18
  {
  }

  lemma HeaderSwapped(q: Setup, c: Cookies)
    requires WellFormed(q) && Known(c)
    ensures Credentials(Header(q), q.little, c) == Encode(Swapped(q, c))
  {
    hide Ascii;
    ProtocolName();
    var r := Swapped(q, c);
    var h := WithU16(WithU16(Header(q), 6, |r.name|, q.little), 8, |r.data|, q.little);
    assert h == Header(r);
    if |c.own| == 0 {
      assert Encode(r) == Header(r);
    } else {
      assert Padded(AUTH_PROTO) == r.name + r.namePad;
      assert Padded(c.own) == r.data + r.dataPad;
    }
  }

  // A client that shows the fake cookie has its credentials - and nothing else
  // of its request or of what follows - replaced.
  lemma SwapsCredentials(q: Setup, rest: bytes, c: Cookies)
    requires WellFormed(q) && Known(c) && q.data == c.fake
    ensures Rewrite(Encode(q) + rest, c) == Rewritten(Encode(Swapped(q, c)) + rest)
  {
    hide Header, Encode, Swapped, Credentials;
    EncodedFields(q, rest);
    HeaderSwapped(q, c);
  }

  // Any other cookie is refused.
  lemma RefusesOthers(q: Setup, rest: bytes, c: Cookies)
    requires WellFormed(q) && Known(c) && q.data != c.fake
    ensures Rewrite(Encode(q) + rest, c).Refuse?
  {
    hide Header, Encode, Credentials;
    EncodedFields(q, rest);
  }

  // Until the whole request is there, nothing is decided.
  lemma WaitsForAll(q: Setup, k: nat, c: Cookies)
    requires WellFormed(q) && Known(c) && k < |Encode(q)|
    ensures Rewrite(Encode(q)[..k], c).Wait?
  {
    hide Header, Encode, Credentials;
    EncodedFields(q, []);
    assert Encode(q) + [] == Encode(q);
    var e := Encode(q);
    if k >= 12 {
      assert forall j :: 0 <= j < 12 ==> e[..k][j] == e[j];
    }
  }

  // The request a rewritten stream began with.
  function SetupOf(s: bytes): (q: Setup)
    requires |s| >= 12
    requires var little := s[0] == LITTLE; |s| >= 12 + Pad4(ReadU16(s, 6, little)) + Pad4(ReadU16(s, 8, little))
    ensures WellFormed(q)
  {
    var little := s[0] == LITTLE;
    var n, d := ReadU16(s, 6, little), ReadU16(s, 8, little);
    var at := 12 + Pad4(n);
    Setup(little, s[2..6], [s[1]] + s[10..12], s[12..12 + n], s[12 + n..at], s[at..at + d], s[at + d..at + Pad4(d)])
  }

  ghost predicate Whole(s: bytes) {
    && |s| >= 12 && (s[0] == LITTLE || s[0] == BIG)
    && var little := s[0] == LITTLE;
       |s| >= 12 + Pad4(ReadU16(s, 6, little)) + Pad4(ReadU16(s, 8, little))
  }

  lemma U16Read(s: bytes, off: nat, little: bool)
    requires off + 2 <= |s|
    ensures U16Bytes(ReadU16(s, off, little), little) == s[off..off + 2]
  {
  }

  lemma HeaderRead(s: bytes)
    requires Whole(s)
    ensures Header(SetupOf(s)) == s[..12]
  {
    hide U16Bytes, ReadU16, Pad4;
    var little, q := s[0] == LITTLE, SetupOf(s);
    U16Read(s, 6, little);
    U16Read(s, 8, little);
    assert |q.name| == ReadU16(s, 6, little) && |q.data| == ReadU16(s, 8, little);
    assert [if little then 108 else 66, q.unused[0]] == s[..2];
    assert s[..2] + s[2..6] == s[..6];
    assert s[..6] + s[6..8] == s[..8];
    assert s[..8] + s[8..10] == s[..10];
    assert q.unused[1..] == s[10..12];
    assert s[..10] + s[10..12] == s[..12];
  }

  lemma SetupEncoded(s: bytes)
    requires Whole(s)
    ensures s == Encode(SetupOf(s)) + s[|Encode(SetupOf(s))|..]
  {
    hide Header, ReadU16, Pad4;
    HeaderRead(s);
    var q := SetupOf(s);
    var d, at := |q.data|, 12 + Pad4(|q.name|);
    assert q.name + q.namePad == s[12..at];
    assert q.data + q.dataPad == s[at..at + Pad4(d)];
    assert Encode(q) == s[..at + Pad4(d)];
  }

  // A stream is let through exactly when it begins with a whole request that
  // carries the fake cookie.
  lemma LetThroughIff(s: bytes, c: Cookies)
    requires Known(c)
    ensures Rewrite(s, c).Rewritten? <==> exists q, rest :: WellFormed(q) && q.data == c.fake && s == Encode(q) + rest
  {
    if Rewrite(s, c).Rewritten? {
      SetupEncoded(s);
      var q := SetupOf(s);
      var at := 12 + Pad4(|q.name|);
      assert s[at..][..|q.data|] == s[at..at + |q.data|];
      assert q.data == c.fake;
    }
    if q, rest :| WellFormed(q) && q.data == c.fake && s == Encode(q) + rest {
      SwapsCredentials(q, rest, c);
    }
  }
}
