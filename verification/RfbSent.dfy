// What a server sends for one rectangle, in every encoding the client knows,
// and what the client makes of it.
module RfbSent {
  import opened Bytes
  import opened Images
  import opened Rfb
  import opened RfbRuns
  import opened RfbRectangles
  import Hextile
  import Tight
  import Zrle

  // ---- What a server sends

  // A rectangle and how it is sent. Compressed data is what the server's end of
  // a stream has made of it; of a new desktop size only the size counts.
  datatype Sent =
    | Raw(r: Rect, px: seq<Pixel>)
    | Copied(r: Rect, sx: nat, sy: nat)
    | Tiled(r: Rect, px: seq<Pixel>, codes: seq<Hextile.Code>)
    | Zipped(r: Rect, px: seq<Pixel>, tiles: seq<Zrle.Code>, z: bytes)
    | Filtered(r: Rect, c: Tight.Code, stream: nat, resets: nat, z: bytes)
    | Filled(r: Rect, colour: Pixel, resets: nat)
    | Photo(r: Rect, px: seq<Pixel>, data: bytes, resets: nat)
    | Resize(r: Rect)

  // The encodings' registered numbers.
  function Number(x: Sent): int {
    match x
    case Raw(_, _) => 0
    case Copied(_, _, _) => 1
    case Tiled(_, _, _) => 5
    case Zipped(_, _, _, _) => 16
    case Resize(_) => -223
    case _ => 7
  }

  predicate OnTight(x: Sent) { x.Filtered? || x.Filled? || x.Photo? }

  ghost function ControlOf(x: Sent): byte
    requires OnTight(x) && x.resets < 16 && (x.Filtered? ==> x.stream < 4)
  {
    if x.Filled? then Tight.Control(x.resets, 8)
    else if x.Photo? then Tight.Control(x.resets, 9)
    else Tight.Control(x.resets, x.stream + if Tight.Named(x.c) then 4 else 0)
  }

  predicate Sizable(r: Rect) {
    r.x < 0x1_0000 && r.y < 0x1_0000 && 0 < r.w < 0x1_0000 && 0 < r.h < 0x1_0000
  }

  // A rectangle that lies on the screen, of pixels to be had.
  ghost predicate Drawable(work: Image, x: Sent) {
    && work.Ok() && Sizable(x.r)
    && (if x.Resize? then x.r.w <= 16384 && x.r.h <= 16384 else work.Covers(x.r))
    && (x.Copied? ==> work.Covers(Rect(x.sx, x.sy, x.r.w, x.r.h)))
    && (x.Filtered? ==> Tight.Legal(x.c, x.r.w, x.r.h))
    && (x.Raw? || x.Tiled? || x.Zipped? || x.Photo? ==> |x.px| == x.r.Area())
  }

  // Bytes for it that fit the streams as they are.
  ghost predicate Coded(env: Env, work: Image, streams: Streams, x: Sent)
    requires Drawable(work, x)
  {
    match x
    case Raw(_, _) => true
    case Copied(_, sx, sy) => sx < 0x1_0000 && sy < 0x1_0000
    case Tiled(r, px, codes) => Hextile.Depicts(codes, Paint(work, r, px), r, 0, 0, Hextile.FIRST)
    case Zipped(r, px, tiles, z) =>
      && |z| <= 0x400_0000
      && Zrle.Depicts(tiles, Paint(work, r, px), r, 0, 0)
      && Inflate(env, HistoryOf(streams.zrle), Inflation(z, -1))
         == Some(Zrle.EncodeFrom(tiles, Paint(work, r, px), r, 0, 0))
    case Filtered(r, c, stream, resets, z) =>
      && stream < 4 && resets < 16 && |z| < 0x40_0000
      && var d := Tight.Filtered(c, r.w, r.h);
         |d| >= 12 ==>
           Inflate(env, if Resets(x, stream) then [] else HistoryOf(streams.tight[stream]), Inflation(z, |d|))
           == Some(d)
    case Filled(_, _, resets) => resets < 16
    case Photo(r, px, data, resets) =>
      && resets < 16 && |data| < 0x40_0000
      && env.jpeg(data).Some?
      && var j := env.jpeg(data).value;
         j.w == r.w && j.h == r.h && forall k :: 0 <= k < r.Area() ==> px[k] == j.pixel(k)
    case Resize(_) => true
  }

  // A server can send this to a client with such an image and such streams.
  ghost predicate Sendable(env: Env, work: Image, streams: Streams, x: Sent) {
    Drawable(work, x) && Coded(env, work, streams, x)
  }

  ghost function PixelsOf(work: Image, x: Sent): seq<Pixel>
    requires Drawable(work, x) && !x.Resize?
  {
    match x
    case Copied(r, sx, sy) => Read(work, Rect(sx, sy, r.w, r.h))
    case Filtered(_, c, _, _, _) => Tight.Meaning(c)
    case Filled(r, colour, _) => Repeat(colour, r.Area())
    case Raw(_, px) => px
    case Tiled(_, px, _) => px
    case Zipped(_, px, _, _) => px
    case Photo(_, px, _, _) => px
  }

  // The image with the rectangle in it; a new one is black.
  ghost function After(work: Image, x: Sent): (o: Image)
    requires Drawable(work, x)
    ensures o.Ok() && o.w == (if x.Resize? then x.r.w else work.w) && o.h == (if x.Resize? then x.r.h else work.h)
    ensures x.Resize? ==> forall px, py :: o.Bounds(px, py) ==> o.At(px, py) == Rgb(0, 0, 0)
  {
    if x.Resize? then Blank(x.r.w, x.r.h) else Paint(work, x.r, PixelsOf(work, x))
  }

  // Whether a rectangle's low control bits start a Tight stream afresh.
  predicate Resets(x: Sent, i: nat)
    requires i < 4
  {
    OnTight(x) && (if i == 0 then x.resets else if i == 1 then x.resets / 2 else if i == 2 then x.resets / 4
                   else x.resets / 8) % 2 == 1
  }

  ghost function AfterResets(tight: Tights, x: Sent): Tights {
    seq(4, i requires 0 <= i < 4 => if Resets(x, i) then Some([]) else tight[i])
  }

  ghost function StreamsAfter(env: Env, work: Image, streams: Streams, x: Sent): Streams
    requires Sendable(env, work, streams, x)
  {
    if x.Zipped? then streams.(zrle := Some(HistoryOf(streams.zrle) + [Inflation(x.z, -1)]))
    else if !OnTight(x) then streams
    else
      var base := AfterResets(streams.tight, x);
      var n := if x.Filtered? then |Tight.Filtered(x.c, x.r.w, x.r.h)| else 0;
      streams.(tight := if n < 12 then base
                        else base[x.stream := Some(HistoryOf(base[x.stream]) + [Inflation(x.z, n)])])
  }

  // ---- On the wire

  function Wire16(n: nat): (b: bytes)
    requires n < 0x1_0000
    ensures |b| == 2
  {
    [n / 256, n % 256]
  }

  function HeaderOf(x: Sent): (b: bytes)
    requires Sizable(x.r)
    ensures |b| == 12
  {
    Wire16(x.r.x) + Wire16(x.r.y) + Wire16(x.r.w) + Wire16(x.r.h)
    + if x.Resize? then [255, 255, 255, 33] else [0, 0, 0, Number(x)]
  }

  ghost function BodyOf(env: Env, work: Image, streams: Streams, x: Sent): bytes
    requires Sendable(env, work, streams, x)
  {
    match x
    case Raw(_, px) => Hextile.RawBytes(px)
    case Copied(_, sx, sy) => Wire16(sx) + Wire16(sy)
    case Tiled(r, px, codes) => Hextile.EncodeFrom(codes, Paint(work, r, px), r, 0, 0, Hextile.FIRST)
    case Zipped(_, _, _, z) => WireLength(|z|) + z
    case Filtered(r, c, stream, resets, z) => Tight.Encode(c, r.w, r.h, stream, resets, z)
    case Filled(_, colour, _) => [ControlOf(x)] + Tight.RgbBytes([colour])
    case Photo(_, _, data, _) => [ControlOf(x)] + Tight.CompactBytes(|data|) + data
    case Resize(_) => []
  }

  ghost function RectOf(env: Env, work: Image, streams: Streams, x: Sent): bytes
    requires Sendable(env, work, streams, x)
  {
    HeaderOf(x) + BodyOf(env, work, streams, x)
  }

  lemma HeaderReads(x: Sent, rest: bytes)
    requires Sizable(x.r)
    ensures Header(HeaderOf(x) + rest) == Current(x.r, Number(x), 0, 0, Hextile.START)
  {
    var b := HeaderOf(x) + rest;
    var enc := if x.Resize? then [255, 255, 255, 33] else [0, 0, 0, Number(x)];
    assert b[0..2] == Wire16(x.r.x) && b[2..4] == Wire16(x.r.y) && b[4..6] == Wire16(x.r.w) && b[6..8] == Wire16(x.r.h);
    assert b[8..12] == enc;
    assert b[8] == b[8..12][0] && b[9] == b[8..12][1] && b[10] == b[8..12][2] && b[11] == b[8..12][3];
    Read16(b, 0, x.r.x);
    Read16(b, 2, x.r.y);
    Read16(b, 4, x.r.w);
    Read16(b, 6, x.r.h);
  }

  lemma Read16(b: bytes, at: nat, n: nat)
    requires at + 2 <= |b| && n < 0x1_0000 && b[at..at + 2] == Wire16(n)
    ensures U16(b, at) == n
  {
    assert b[at] == b[at..at + 2][0] && b[at + 1] == b[at..at + 2][1];
  }

  // ---- One rectangle

  // A rectangle of which the header has just been read.
  ghost predicate Ready(env: Env, t: Session, x: Sent) {
    && Open(t) && Begun(t) && t.inRect
    && t.cur == Current(x.r, Number(x), 0, 0, Hextile.START)
    && Sendable(env, t.screen.work, t.streams, x)
  }

  // The rectangle drawn and counted.
  ghost function Ended(env: Env, t: Session, x: Sent): Session
    requires t.screen.Ok() && t.batch.left > 0 && Sendable(env, t.screen.work, t.streams, x)
  {
    if x.Resize? then EndRect(Resizing(t, x.r.w, x.r.h))
    else
      EndRect(t.(screen := Drawn(t.screen, After(t.screen.work, x), x.r),
                 streams := StreamsAfter(env, t.screen.work, t.streams, x)))
  }

  // Where in the rectangle the decoder has got to no longer matters.
  ghost predicate Arrived(env: Env, t: Session, x: Sent, r: Result, size: nat)
    requires t.screen.Ok() && t.batch.left > 0 && Sendable(env, t.screen.work, t.streams, x)
  {
    r.ok && r.used == size && r.s.(cur := t.cur) == Ended(env, t, x)
  }

  lemma EndRectAnyCur(s: Session, c: Current)
    requires s.screen.Ok() && s.batch.left > 0 && c.enc == s.cur.enc
    ensures EndRect(s).(cur := c) == EndRect(s.(cur := c))
  {
  }

  lemma RawArrives(env: Env, t: Session, x: Sent)
    requires Ready(env, t, x) && x.Raw?
    ensures Arrived(env, t, x, Body(env, t, BodyOf(env, t.screen.work, t.streams, x)), |Hextile.RawBytes(x.px)|)
  {
    hide Hextile.RawBytes, Hextile.WirePixels, Paint, Rfb.EndRect;
    var b := Hextile.RawBytes(x.px);
    Hextile.RawBytesRoundTrip(x.px, []);
    assert b + [] == b;
    EndRectAnyCur(t.(screen := Drawn(t.screen, After(t.screen.work, x), x.r)), t.cur);
  }

  lemma CopyArrives(env: Env, t: Session, x: Sent)
    requires Ready(env, t, x) && x.Copied?
    ensures Arrived(env, t, x, Body(env, t, BodyOf(env, t.screen.work, t.streams, x)), 4)
  {
    hide Paint, Read, Rfb.EndRect;
    var b := Wire16(x.sx) + Wire16(x.sy);
    assert b[0..2] == Wire16(x.sx) && b[2..4] == Wire16(x.sy);
    Read16(b, 0, x.sx);
    Read16(b, 2, x.sy);
    EndRectAnyCur(t.(screen := Drawn(t.screen, After(t.screen.work, x), x.r)), t.cur);
  }

  lemma OverlayPainted(work: Image, r: Rect, px: seq<Pixel>)
    requires work.Ok() && work.Covers(r) && |px| == r.Area()
    ensures Overlay(work, r, Paint(work, r, px)) == Paint(work, r, px)
  {
    PaintRead(work, r, px);
  }

  lemma TiledArrives(env: Env, t: Session, x: Sent)
    requires Ready(env, t, x) && x.Tiled?
    ensures var b := BodyOf(env, t.screen.work, t.streams, x);
            Arrived(env, t, x, Body(env, t, b), |b|)
  {
    hide Paint, Overlay, Hextile.EncodeFrom, Hextile.Depicts, Rfb.EndRect, Hextile.RunLoop;
    var b := BodyOf(env, t.screen.work, t.streams, x);
    var want := Paint(t.screen.work, x.r, x.px);
    Hextile.HextileRoundTrip(x.codes, t.screen.work, want, x.r, []);
    assert b + [] == b;
    OverlayPainted(t.screen.work, x.r, x.px);
    var l := Hextile.RunLoop(x.r, ProgressOf(t), b);
    EndRectAnyCur(WithProgress(t, l.p).(screen := Drawn(t.screen, want, x.r)), t.cur);
  }

  lemma ZippedArrives(env: Env, t: Session, x: Sent)
    requires Ready(env, t, x) && x.Zipped?
    ensures var b := BodyOf(env, t.screen.work, t.streams, x);
            Arrived(env, t, x, Body(env, t, b), |b|)
  {
    hide Paint, Overlay, Zrle.EncodeFrom, Zrle.Depicts, Zrle.DecodeRect, Rfb.EndRect, Inflate;
    var b := WireLength(|x.z|) + x.z;
    var want := Paint(t.screen.work, x.r, x.px);
    assert U32(b, 0) == U32(WireLength(|x.z|), 0);
    assert b[4..4 + |x.z|] == x.z;
    var d := Zrle.EncodeFrom(x.tiles, want, x.r, 0, 0);
    Zrle.ZrleRoundTrip(x.tiles, t.screen.work, want, x.r, []);
    assert d + [] == d;
    OverlayPainted(t.screen.work, x.r, x.px);
    EndRectAnyCur(t.(screen := Drawn(t.screen, want, x.r), streams := StreamsAfter(env, t.screen.work, t.streams, x)),
      t.cur);
  }

  // What the low bits of a control byte do, whatever kind stands above them.
  lemma ControlResets(tight: Tights, x: Sent)
    requires OnTight(x) && x.resets < 16 && (x.Filtered? ==> x.stream < 4)
    ensures TightResets(tight, ControlOf(x)) == AfterResets(tight, x)
  {
    hide Bit, Resets;
    var kind := if x.Filled? then 8 else if x.Photo? then 9 else x.stream + if Tight.Named(x.c) then 4 else 0;
    forall i | 0 <= i < 4
      ensures Bit(ControlOf(x), ResetMask(i)) <==> Resets(x, i)
    {
      LowBits(x, kind, i);
    }
  }

  lemma LowBits(x: Sent, kind: nat, i: nat)
    requires OnTight(x) && x.resets < 16 && kind < 16 && i < 4
    ensures Bit(Tight.Control(x.resets, kind), ResetMask(i)) <==> Resets(x, i)
  {
    var c := x.resets + 16 * kind;
    if i == 0 {
      Evened(x.resets, 8 * kind);
    } else if i == 1 {
      assert c / 2 == x.resets / 2 + 8 * kind;
      Evened(x.resets / 2, 4 * kind);
    } else if i == 2 {
      assert c / 4 == x.resets / 4 + 4 * kind;
      Evened(x.resets / 4, 2 * kind);
    } else {
      assert c / 8 == x.resets / 8 + 2 * kind;
      Evened(x.resets / 8, kind);
    }
  }

  lemma Evened(a: nat, k: nat)
    ensures (a + 2 * k) % 2 == a % 2
  {
  }

  lemma FilteredArrives(env: Env, t: Session, x: Sent)
    requires Ready(env, t, x) && x.Filtered?
    ensures var b := BodyOf(env, t.screen.work, t.streams, x);
            Arrived(env, t, x, Body(env, t, b), |b|)
  {
    hide Paint, Tight.Parse, Tight.Encode, Tight.Legal, Tight.Filtered, Tight.Pixels, Tight.Meaning, Tight.RowSize,
      Rfb.EndRect, Inflate, TightResets, Resets, ControlOf;
    var w, h := x.r.w, x.r.h;
    var b, d := Tight.Encode(x.c, w, h, x.stream, x.resets, x.z), Tight.Filtered(x.c, w, h);
    Tight.RectangleRoundTrip(x.c, w, h, x.stream, x.resets, x.z, []);
    assert b + [] == b;
    Tight.FilterRoundTrip(x.c, w, h);
    FirstByte(x, b);
    ControlResets(t.streams.tight, x);
    var after := StreamsAfter(env, t.screen.work, t.streams, x);
    EndRectAnyCur(t.(screen := Drawn(t.screen, After(t.screen.work, x), x.r), streams := after), t.cur);
  }

  lemma FirstByte(x: Sent, b: bytes)
    requires x.Filtered? && Tight.Legal(x.c, x.r.w, x.r.h) && x.stream < 4 && x.resets < 16 && |x.z| < 0x40_0000
    requires b == Tight.Encode(x.c, x.r.w, x.r.h, x.stream, x.resets, x.z)
    ensures |b| > 0 && b[0] == ControlOf(x)
  {
  }

  lemma FilledArrives(env: Env, t: Session, x: Sent)
    requires Ready(env, t, x) && x.Filled?
    ensures var b := BodyOf(env, t.screen.work, t.streams, x);
            Arrived(env, t, x, Body(env, t, b), |b|)
  {
    hide Paint, Tight.Parse, Rfb.EndRect, TightResets, AfterResets;
    var b := [ControlOf(x)] + Tight.RgbBytes([x.colour]);
    Tight.FillRoundTrip(x.colour, x.r.w, x.r.h, x.resets, []);
    assert b + [] == b && |Tight.RgbBytes([x.colour])| == 3;
    ControlResets(t.streams.tight, x);
    var after := StreamsAfter(env, t.screen.work, t.streams, x);
    EndRectAnyCur(t.(screen := Drawn(t.screen, After(t.screen.work, x), x.r), streams := after), t.cur);
  }

  lemma PhotoArrives(env: Env, t: Session, x: Sent)
    requires Ready(env, t, x) && x.Photo?
    ensures var b := BodyOf(env, t.screen.work, t.streams, x);
            Arrived(env, t, x, Body(env, t, b), |b|)
  {
    hide Paint, Tight.Parse, Rfb.EndRect, TightResets, AfterResets, Tight.CompactBytes;
    var b := [ControlOf(x)] + Tight.CompactBytes(|x.data|) + x.data;
    Tight.PictureRoundTrip(x.data, x.r.w, x.r.h, x.resets, []);
    assert b + [] == b;
    assert JpegPixels(env.jpeg(x.data).value, x.r.Area()) == x.px;
    ControlResets(t.streams.tight, x);
    var after := StreamsAfter(env, t.screen.work, t.streams, x);
    EndRectAnyCur(t.(screen := Drawn(t.screen, After(t.screen.work, x), x.r), streams := after), t.cur);
  }

  lemma BodyArrives(env: Env, t: Session, x: Sent)
    requires Ready(env, t, x)
    ensures var b := BodyOf(env, t.screen.work, t.streams, x);
            Arrived(env, t, x, Body(env, t, b), |b|)
  {
    hide Rfb.Body, Coded, Arrived, Tight.Legal;
    match x
    case Raw(_, _) => RawArrives(env, t, x);
    case Copied(_, _, _) => CopyArrives(env, t, x);
    case Tiled(_, _, _) => TiledArrives(env, t, x);
    case Zipped(_, _, _, _) => ZippedArrives(env, t, x);
    case Filtered(_, _, _, _, _) => FilteredArrives(env, t, x);
    case Filled(_, _, _) => FilledArrives(env, t, x);
    case Photo(_, _, _, _) => PhotoArrives(env, t, x);
    case Resize(_) => ResizeArrives(env, t, x);
  }

  lemma ResizeArrives(env: Env, t: Session, x: Sent)
    requires Ready(env, t, x) && x.Resize?
    ensures Arrived(env, t, x, Body(env, t, []), 0)
  {
    hide Rfb.EndRect;
    EndRectAnyCur(Resizing(t, x.r.w, x.r.h), t.cur);
  }
}
