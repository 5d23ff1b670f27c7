// Whole rectangles through the client: what an encoder sends is what the
// working image shows, and interrupted Tight rectangles leave the zlib streams
// as uninterrupted ones do.
module RfbRectangles {
  import opened Bytes
  import opened Images
  import opened Rfb
  import opened RfbRuns
  import Hextile
  import Tight
  import Zrle

  // ---- Tight retries

  // How often `stepTight` was called too early, and with how much data.
  ghost predicate TooEarly(b: bytes, cuts: seq<nat>, r: Rect) {
    forall i :: 0 <= i < |cuts| ==> cuts[i] <= |b| && (cuts[i] > 0 ==> Tight.Parse(b[..cuts[i]], r.w, r.h).Short?)
  }

  ghost function AfterTries(env: Env, s: Session, b: bytes, cuts: seq<nat>): Session
    requires Open(s) && Begun(s) && s.inRect && s.cur.enc == ENC_TIGHT && TooEarly(b, cuts, s.cur.rect)
    decreases |cuts|
  {
    if |cuts| == 0 then s
    else
      TightExtends(env, s, b[..cuts[0]], []);
      AfterTries(env, TightBody(env, s, b[..cuts[0]]).s, b, cuts[1..])
  }

  // However often a Tight rectangle is tried too early, it ends as if it had
  // been decoded once, with all its data there: same image, same streams.
  lemma {:induction false} TightRetriesHarmless(env: Env, s: Session, b: bytes, cuts: seq<nat>)
    requires Open(s) && Begun(s) && s.inRect && s.cur.enc == ENC_TIGHT && TooEarly(b, cuts, s.cur.rect)
    ensures var t := AfterTries(env, s, b, cuts);
            Open(t) && Begun(t) && t.inRect && t.cur.enc == ENC_TIGHT && TightBody(env, t, b) == TightBody(env, s, b)
    decreases |cuts|
  {
    if |cuts| > 0 {
      var part, rest := b[..cuts[0]], b[cuts[0]..];
      assert b == part + rest;
      TightExtends(env, s, part, []);
      TightExtends(env, s, part, rest);
      TightRetriesHarmless(env, TightBody(env, s, part).s, b, cuts[1..]);
    }
  }

  // The streams a Tight rectangle leaves: resets first, then its compressed
  // data inflated once, on the stream its control byte names.
  lemma TightStreams(env: Env, s: Session, b: bytes)
    requires Open(s) && Begun(s) && s.inRect && s.cur.enc == ENC_TIGHT && |b| > 0
    ensures var base := TightResets(s.streams.tight, b[0]);
            var p := Tight.Parse(b, s.cur.rect.w, s.cur.rect.h);
            TightBody(env, s, b).s.streams.tight ==
            if p.Ready? && p.op.Basic? && p.op.data.Zipped? then
              Feed(base, b[0] as int / 16 % 4,
                Inflation(p.op.data.z, Tight.RowSize(p.op.filter, s.cur.rect.w) * s.cur.rect.h))
            else base
  {
    var t := WithTight(s, TightResets(s.streams.tight, b[0]));
    var p := Tight.Parse(b, s.cur.rect.w, s.cur.rect.h);
    if p.Ready? {
      ApplyStreams(env, t, p.op, p.used);
    }
  }

  lemma ApplyStreams(env: Env, s: Session, op: Tight.Op, used: nat)
    requires Open(s) && Begun(s) && Tight.GoodOp(op, s.cur.rect.w, s.cur.rect.h)
    ensures ApplyTight(env, s, op, used).s.streams.tight ==
            if op.Basic? && op.data.Zipped? then
              Feed(s.streams.tight, op.stream,
                Inflation(op.data.z, Tight.RowSize(op.filter, s.cur.rect.w) * s.cur.rect.h))
            else s.streams.tight
  {
  }

  // ---- Round trips through the client

  // A Tight rectangle in any filter shows the pixels that were filtered.
  lemma TightRectangle(env: Env, s: Session, c: Tight.Code, stream: nat, resets: nat, z: bytes, rest: bytes)
    requires Open(s) && Begun(s) && s.inRect && s.cur.enc == ENC_TIGHT
    requires Tight.Legal(c, s.cur.rect.w, s.cur.rect.h) && stream < 4 && resets < 16 && |z| < 0x40_0000
    requires var d := Tight.Filtered(c, s.cur.rect.w, s.cur.rect.h);
             |d| >= 12 ==>
               Inflate(env, HistoryOf(TightResets(s.streams.tight,
                 Tight.Control(resets, stream + if Tight.Named(c) then 4 else 0))[stream]), Inflation(z, |d|))
                 == Some(d)
    ensures var b := Tight.Encode(c, s.cur.rect.w, s.cur.rect.h, stream, resets, z);
            var r := TightBody(env, s, b + rest);
            r.ok && r.used == |b| && r.s.screen.work == Paint(s.screen.work, s.cur.rect, Tight.Meaning(c))
  {
    var w, h := s.cur.rect.w, s.cur.rect.h;
    var b, d := Tight.Encode(c, w, h, stream, resets, z), Tight.Filtered(c, w, h);
    Tight.RectangleRoundTrip(c, w, h, stream, resets, z, rest);
    Tight.FilterRoundTrip(c, w, h);
    assert (b + rest)[0] == b[0] == Tight.Control(resets, stream + if Tight.Named(c) then 4 else 0);
    var t := WithTight(s, TightResets(s.streams.tight, b[0]));
    ApplyPaints(env, t, Tight.FilterOf(c), d, stream, z, |b|);
  }

  lemma ApplyPaints(env: Env, s: Session, f: Tight.Filter, d: bytes, stream: nat, z: bytes, used: nat)
    requires Open(s) && Begun(s) && stream < 4 && (f.Indexed? ==> |f.pal| > 0)
    requires |d| == Tight.RowSize(f, s.cur.rect.w) * s.cur.rect.h
    requires |d| >= 12 ==> Inflate(env, HistoryOf(s.streams.tight[stream]), Inflation(z, |d|)) == Some(d)
    ensures var r := ApplyTight(env, s,
            Tight.Basic(stream, f, if |d| < 12 then Tight.Plain(d) else Tight.Zipped(z)), used);
            r.ok && r.used == used
            && r.s.screen.work == Paint(s.screen.work, s.cur.rect, Tight.Pixels(f, s.cur.rect.w, s.cur.rect.h, d))
  {
  }

  ghost function WireLength(n: nat): (b: bytes)
    requires n < 0x1_0000_0000
    ensures |b| == 4 && U32(b, 0) == n
  {
    var b := [n / 0x100_0000, n / 0x1_0000 % 256, n / 256 % 256, n % 256];
    assert n / 0x1_0000 == n / 0x100_0000 * 256 + n / 0x1_0000 % 256;
    assert n % 0x1_0000 == n / 256 % 256 * 256 + n % 256;
    b
  }

  // A ZRLE rectangle shows exactly the picture it was encoded from.
  lemma ZrleRectangle(env: Env, s: Session, codes: seq<Zrle.Code>, want: Image, z: bytes, rest: bytes)
    requires Open(s) && Begun(s) && s.inRect && s.cur.enc == ENC_ZRLE && s.cur.rect.w > 0 && s.cur.rect.h > 0
    requires want.Ok() && SameSize(s.screen.work, want) && Zrle.Depicts(codes, want, s.cur.rect, 0, 0)
    requires |z| <= MAX_ZRLE
    requires Inflate(env, HistoryOf(s.streams.zrle), Inflation(z, -1))
            == Some(Zrle.EncodeFrom(codes, want, s.cur.rect, 0, 0))
    ensures var r := ZrleBody(env, s, WireLength(|z|) + z + rest);
            r.ok && r.used == 4 + |z| && r.s.screen.work == Overlay(s.screen.work, s.cur.rect, want)
  {
    var d := Zrle.EncodeFrom(codes, want, s.cur.rect, 0, 0);
    var b := WireLength(|z|) + z + rest;
    assert U32(b, 0) == U32(WireLength(|z|), 0);
    assert b[4..4 + |z|] == z;
    Zrle.ZrleRoundTrip(codes, s.screen.work, want, s.cur.rect, []);
    assert d + [] == d;
  }

  // A Hextile rectangle shows exactly the picture it was encoded from.
  lemma HextileRectangle(s: Session, codes: seq<Hextile.Code>, want: Image, rest: bytes)
    requires Open(s) && Begun(s) && s.inRect && s.cur.enc == ENC_HEXTILE && s.cur.rect.w > 0 && s.cur.rect.h > 0
    requires s.cur.tileX == 0 && s.cur.tileY == 0 && s.cur.carry == Hextile.START
    requires want.Ok() && SameSize(s.screen.work, want) && Hextile.Depicts(codes, want, s.cur.rect, 0, 0, Hextile.FIRST)
    ensures var b := Hextile.EncodeFrom(codes, want, s.cur.rect, 0, 0, Hextile.FIRST);
            var r := HextileBody(s, b + rest);
            r.ok && r.used == |b| && r.s.screen.work == Overlay(s.screen.work, s.cur.rect, want)
  {
    Hextile.HextileRoundTrip(codes, s.screen.work, want, s.cur.rect, rest);
  }
}
