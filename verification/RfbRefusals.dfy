// Rectangles a server should not send: the client fails with the reason that
// fits, closes, and goes on showing what it showed.
module RfbRefusals {
  import opened Bytes
  import opened Images
  import opened Rfb
  import opened RfbRuns
  import Hextile
  import Tight
  import Zrle

  // The client has given up, for that reason.
  ghost predicate GaveUp(s: Session, t: Session, why: Reason) {
    t.stage.Idle? && t.failedAlready && t.screen.fb == s.screen.fb && t.events == s.events + [Failure(why), Closed]
  }

  ghost predicate AwaitsRect(s: Session) { Wf(s) && s.stage.Running? && !s.inRect && s.batch.left > 0 }

  // The rectangle and the encoding that a header names.
  ghost function Place(b: bytes): Rect
    requires |b| >= 12
  {
    Rect(U16(b, 0), U16(b, 2), U16(b, 4), U16(b, 6))
  }

  ghost function Encoding(b: bytes): int
    requires |b| >= 12
  {
    S32(U32(b, 8))
  }

  ghost predicate Fits(s: Session, r: Rect) {
    (r.w > 0 || r.h > 0) && r.x + r.w <= s.screen.work.w && r.y + r.h <= s.screen.work.h
  }

  // What is refused by its header alone: a place that is not on the screen, a
  // number that is no encoding, a size no screen can have.
  lemma RefusesHeader(env: Env, s: Session, b: bytes)
    requires AwaitsRect(s) && |b| >= 12
    ensures var r, enc, t := Place(b), Encoding(b), Step(env, s, b).s;
            && (enc != -223 && enc != -224 && !Fits(s, r) ==> GaveUp(s, t, OutsideScreen))
            && (Fits(s, r) && enc !in {0, 1, 5, 7, 16, -223, -224} ==> GaveUp(s, t, UnsupportedEncoding(enc)))
            && (enc == -223 && !(1 <= r.w <= 16384 && 1 <= r.h <= 16384) ==> GaveUp(s, t, BadDesktopSize))
  {
    hide RawBody, CopyBody, HextileBody, TightBody, ZrleBody, Resizing, EndRect;
    var u := s.(inRect := true, cur := Header(b));
    assert u.events + [Failure(OutsideScreen), Closed] == s.events + [Failure(OutsideScreen), Closed];
  }

  // A copy from outside the screen.
  lemma RefusesCopy(env: Env, s: Session, b: bytes)
    requires AwaitsRect(s) && |b| >= 16 && Encoding(b) == 1 && Fits(s, Place(b))
    requires U16(b, 12) + U16(b, 4) > s.screen.work.w || U16(b, 14) + U16(b, 6) > s.screen.work.h
    ensures GaveUp(s, Step(env, s, b).s, BadCopy)
  {
    hide Paint, Read, Drew;
    assert U16(b[12..], 0) == U16(b, 12) && U16(b[12..], 2) == U16(b, 14);
  }

  lemma TightStep(env: Env, s: Session, b: bytes)
    requires AwaitsRect(s) && |b| > 12 && Encoding(b) == 7 && Fits(s, Place(b))
    ensures var u := s.(inRect := true, cur := Header(b));
            Begun(u) && Step(env, s, b) == Later(TightBody(env, u, b[12..]), 12)
  {
    hide TightBody, ZrleBody, HextileBody, RawBody, CopyBody;
  }

  // A Tight rectangle of a kind there is not, or with a filter there is not.
  lemma RefusesTight(env: Env, s: Session, b: bytes)
    requires AwaitsRect(s) && |b| > 13 && Encoding(b) == 7 && Fits(s, Place(b))
    ensures b[12] >= 160 ==> GaveUp(s, Step(env, s, b).s, BadTightKind)
    ensures 64 <= b[12] < 128 && b[13] > 2 ==> GaveUp(s, Step(env, s, b).s, BadTightFilter)
  {
    hide ApplyTight, TightResets;
    TightStep(env, s, b);
    var body := b[12..];
    assert body[0] == b[12] && body[1] == b[13];
    assert 64 <= b[12] < 128 ==> b[12] as int / 64 % 2 == 1;
  }

  // A picture that cannot be read, or is of another size than its rectangle.
  lemma RefusesPicture(env: Env, s: Session, head: bytes, resets: nat, data: bytes)
    requires AwaitsRect(s) && |head| == 12 && Encoding(head) == 7 && Fits(s, Place(head))
    requires resets < 16 && |data| < 0x40_0000
    requires var j := env.jpeg(data); j.None? || j.value.w != Place(head).w || j.value.h != Place(head).h
    ensures var b := head + ([Tight.Control(resets, 9)] + Tight.CompactBytes(|data|) + data);
            GaveUp(s, Step(env, s, b).s, BadJpeg)
  {
    hide Paint, Drew, TightResets, Tight.Parse, Tight.CompactBytes;
    var body := [Tight.Control(resets, 9)] + Tight.CompactBytes(|data|) + data;
    var b := head + body;
    SameHeader(head, body);
    TightStep(env, s, b);
    Tight.PictureRoundTrip(data, Place(head).w, Place(head).h, resets, []);
    assert body + [] == body && b[12..] == body;
  }

  lemma SameHeader(head: bytes, body: bytes)
    requires |head| == 12
    ensures Header(head + body) == Header(head) && Place(head + body) == Place(head)
    ensures Encoding(head + body) == Encoding(head)
  {
    var b := head + body;
    assert U16(b, 0) == U16(head, 0) && U16(b, 2) == U16(head, 2) && U16(b, 4) == U16(head, 4)
      && U16(b, 6) == U16(head, 6) && U32(b, 8) == U32(head, 8);
  }

  // A ZRLE rectangle that says it is longer than 64 MiB, or whose data cannot
  // be inflated, or does not decode.
  lemma RefusesZrle(env: Env, s: Session, b: bytes)
    requires AwaitsRect(s) && |b| >= 16 && Encoding(b) == 16 && Fits(s, Place(b))
    ensures U32(b, 12) > 0x400_0000 ==> GaveUp(s, Step(env, s, b).s, OversizedZrle)
    ensures U32(b, 12) <= 0x400_0000 && |b| >= 16 + U32(b, 12) ==>
              var d := Inflate(env, HistoryOf(s.streams.zrle), Inflation(b[16..16 + U32(b, 12)], -1));
              && (d.None? ==> GaveUp(s, Step(env, s, b).s, Corrupt))
              && (d.Some? && !Zrle.DecodeRect(s.screen.work, Place(b), d.value).0 ==>
                    GaveUp(s, Step(env, s, b).s, BadZrle))
  {
    hide Zrle.DecodeRect, Drew, Inflate;
    var body, n := b[12..], U32(b, 12);
    assert U32(body, 0) == n;
    Inner(b, n);
  }

  lemma Inner(b: bytes, n: nat)
    requires |b| >= 16
    ensures |b| >= 16 + n ==> b[12..][4..4 + n] == b[16..16 + n]
  {
  }

  // A Tight rectangle whose data cannot be inflated to just its pixels.
  lemma RefusesTightData(env: Env, s: Session, head: bytes, c: Tight.Code, stream: nat, resets: nat, z: bytes)
    requires AwaitsRect(s) && |head| == 12 && Encoding(head) == 7 && Fits(s, Place(head))
    requires Tight.Legal(c, Place(head).w, Place(head).h) && stream < 4 && resets < 16 && |z| < 0x40_0000
    requires |Tight.Filtered(c, Place(head).w, Place(head).h)| >= 12
    requires var control := Tight.Control(resets, stream + if Tight.Named(c) then 4 else 0);
             Inflate(env, HistoryOf(TightResets(s.streams.tight, control)[stream]),
               Inflation(z, |Tight.Filtered(c, Place(head).w, Place(head).h)|)).None?
    ensures var b := head + Tight.Encode(c, Place(head).w, Place(head).h, stream, resets, z);
            GaveUp(s, Step(env, s, b).s, Corrupt)
  {
    hide Paint, Drew, TightResets, Tight.Parse, Tight.Legal, Tight.Filtered, Inflate, Tight.FilterBytes,
      Tight.DataBytes, Tight.RowSize;
    var w, h := Place(head).w, Place(head).h;
    var body := Tight.Encode(c, w, h, stream, resets, z);
    SameHeader(head, body);
    TightStep(env, s, head + body);
    Tight.RectangleRoundTrip(c, w, h, stream, resets, z, []);
    Tight.FilteredSize(c, w, h);
    assert body + [] == body && (head + body)[12..] == body;
  }

  // A Hextile rectangle with a subrectangle that sticks out of its tile.
  lemma RefusesHextile(env: Env, s: Session, b: bytes)
    requires AwaitsRect(s) && |b| >= 12 && Encoding(b) == 5 && Fits(s, Place(b))
    requires Hextile.RunLoop(Place(b), Hextile.Progress(0, 0, Hextile.START, s.screen.work), b[12..]).status.Failed?
    ensures GaveUp(s, Step(env, s, b).s, BadSubrect)
  {
    hide Hextile.RunLoop, Drew;
  }
}
