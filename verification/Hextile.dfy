// Hextile rectangles (VncClient::stepHextileTile and the loop in stepRect; RFC
// 6143 section 7.7.4): the resumable tile decoder, the plain fold it agrees
// with, a reference encoder, and the round trip.
module Hextile {
  import opened Bytes
  import opened Images
  import opened Tiles

  const SIDE := 16

  // The colours a tile may inherit from the one before it.
  datatype Carry = Carry(bg: Pixel, fg: Pixel)

  const START := Carry(BLACK, WHITE)

  function WirePixel(b: bytes, off: nat): Pixel
    requires off + 4 <= |b|
  {
    Rgb(b[off + 2], b[off + 1], b[off])
  }

  function WirePixels(b: bytes, n: nat): (p: seq<Pixel>)
    requires 4 * n <= |b|
    ensures |p| == n
  {
    seq(n, i requires 0 <= i < n => WirePixel(b, 4 * i))
  }

  // ---- One tile

  // A tile's bytes, once they are all here.
  datatype Parsed =
    | Short
    | RawTile(px: seq<Pixel>, used: nat)
    | Drawn(carry: Carry, coloured: bool, n: nat, subrects: bytes, used: nat)

  function SubrectSize(coloured: bool): nat { if coloured then 6 else 2 }

  function SubrectsSize(n: nat, coloured: bool): nat { if coloured then 6 * n else 2 * n }

  function Parse(b: bytes, area: nat, c: Carry): (p: Parsed)
    ensures p.RawTile? ==> |p.px| == area
    ensures p.Drawn? ==> |p.subrects| == SubrectsSize(p.n, p.coloured)
    ensures !p.Short? ==> 0 < p.used <= |b|
  {
    if |b| == 0 then Short
    else
      var sub := b[0];
      if Bit(sub, 1) then
        if |b| < 1 + area * 4 then Short else RawTile(WirePixels(b[1..], area), 1 + area * 4)
      else
        var p1 := if Bit(sub, 2) then 5 else 1;
        if |b| < p1 then Short
        else
          var bg := if Bit(sub, 2) then WirePixel(b, 1) else c.bg;
          var p2 := if Bit(sub, 4) then p1 + 4 else p1;
          if |b| < p2 then Short
          else
            var fg := if Bit(sub, 4) then WirePixel(b, p1) else c.fg;
            var p3 := if Bit(sub, 8) then p2 + 1 else p2;
            if |b| < p3 then Short
            else
              var n: int := if Bit(sub, 8) then b[p2] else 0;
              var coloured := Bit(sub, 16);
              var used := p3 + SubrectsSize(n, coloured);
              if |b| < used then Short else Drawn(Carry(bg, fg), coloured, n, b[p3..used], used)
  }

  ghost function Fill(img: Image, r: Rect, c: Pixel): (o: Image)
    requires img.Ok()
    ensures o.Ok() && SameSize(o, img)
    ensures forall x, y {:trigger o.At(x, y)} :: img.Bounds(x, y)
              ==> o.At(x, y) == if r.Has(x, y) then c else img.At(x, y)
  {
    Paint(img, r, Repeat(c, r.Area()))
  }

  datatype Subrect = Subrect(box: Rect, colour: Pixel)

  function SubrectAt(coloured: bool, fg: Pixel, b: bytes): Subrect
    requires |b| >= SubrectSize(coloured)
  {
    var o := if coloured then 4 else 0;
    var xy, wh: int := b[o], b[o + 1];
    Subrect(Rect(xy / 16, xy % 16, wh / 16 + 1, wh % 16 + 1), if coloured then WirePixel(b, 0) else fg)
  }

  // Subrectangles drawn one after the other; stops at the first one that
  // sticks out of the tile.
  ghost function DrawSubrects(img: Image, t: Rect, coloured: bool, fg: Pixel, n: nat, b: bytes): (res: (bool, Image))
    requires img.Ok() && |b| >= SubrectsSize(n, coloured)
    ensures res.1.Ok() && SameSize(res.1, img)
    decreases n
  {
    if n == 0 then (true, img)
    else
      var s := SubrectAt(coloured, fg, b);
      if !s.box.Within(t.w, t.h) then (false, img)
      else DrawSubrects(Fill(img, s.box.Moved(t.x, t.y), s.colour), t, coloured, fg, n - 1, b[SubrectSize(coloured)..])
  }

  datatype Outcome =
    | NeedMore
    | Broken(c: Carry, img: Image)
    | Took(c: Carry, img: Image, used: nat)

  ghost function DecodeTile(img: Image, t: Rect, c: Carry, b: bytes): (o: Outcome)
    requires img.Ok()
    ensures !o.NeedMore? ==> o.img.Ok() && SameSize(o.img, img)
    ensures o.Took? ==> 0 < o.used <= |b|
  {
    match Parse(b, t.Area(), c)
    case Short => NeedMore
    case RawTile(px, used) => Took(c, Paint(img, t, px), used)
    case Drawn(c', coloured, n, subrects, used) =>
      var (ok, o) := DrawSubrects(Fill(img, t, c'.bg), t, coloured, c'.fg, n, subrects);
      if ok then Took(c', o, used) else Broken(c', o)
  }

  lemma PixelsExtend(b: bytes, e: bytes)
    ensures forall off: nat {:trigger WirePixel(b, off)} ::
              off + 4 <= |b| ==> WirePixel(b + e, off) == WirePixel(b, off)
  {
  }

  lemma RasterExtends(b: bytes, e: bytes, n: nat)
    requires 4 * n <= |b|
    ensures WirePixels(b + e, n) == WirePixels(b, n)
  {
  }

  // A tile that is all here is not affected by what follows it.
  lemma ParseExtends(b: bytes, e: bytes, area: nat, c: Carry)
    requires !Parse(b, area, c).Short?
    ensures Parse(b + e, area, c) == Parse(b, area, c)
  {
    hide Bit, WirePixel, WirePixels, SubrectsSize;
    var d := b + e;
    assert forall i :: 0 <= i < |b| ==> d[i] == b[i];
    var p := Parse(b, area, c);
    PixelsExtend(b, e);
    if p.RawTile? {
      assert d[1..] == b[1..] + e;
      RasterExtends(b[1..], e, area);
    } else {
      assert d[p.used - |p.subrects|..p.used] == b[p.used - |p.subrects|..p.used];
    }
  }

  lemma TileExtends(img: Image, t: Rect, c: Carry, b: bytes, e: bytes)
    requires img.Ok() && !DecodeTile(img, t, c, b).NeedMore?
    ensures DecodeTile(img, t, c, b + e) == DecodeTile(img, t, c, b)
  {
    hide Parse, DrawSubrects, Paint;
    ParseExtends(b, e, t.Area(), c);
  }

  // The drawing is broken off exactly when some subrectangle sticks out.
  lemma {:induction false} DrawnIff(img: Image, t: Rect, coloured: bool, fg: Pixel, n: nat, b: bytes)
    requires img.Ok() && |b| >= SubrectsSize(n, coloured)
    ensures DrawSubrects(img, t, coloured, fg, n, b).0
            <==> forall i :: 0 <= i < n ==> NthWithin(t, coloured, fg, n, b, i)
    decreases n
  {
    hide SubrectAt, Fill, NthWithin;
    if n > 0 {
      var s, rest := SubrectAt(coloured, fg, b), b[SubrectSize(coloured)..];
      var m := n - 1;
      FirstWithin(t, coloured, fg, n, b);
      DrawnIff(Fill(img, s.box.Moved(t.x, t.y), s.colour), t, coloured, fg, m, rest);
      if i :| 0 <= i < m && !NthWithin(t, coloured, fg, m, rest, i) {
        LaterWithin(t, coloured, fg, n, b, i + 1);
        assert !NthWithin(t, coloured, fg, n, b, i + 1);
      } else {
        forall i | 0 <= i < n
          ensures NthWithin(t, coloured, fg, n, b, i) <==> i > 0 || s.box.Within(t.w, t.h)
        {
          if i > 0 {
            LaterWithin(t, coloured, fg, n, b, i);
          }
        }
      }
    }
  }

  lemma FirstWithin(t: Rect, coloured: bool, fg: Pixel, n: nat, b: bytes)
    requires n > 0 && |b| >= SubrectsSize(n, coloured)
    ensures NthWithin(t, coloured, fg, n, b, 0) <==> SubrectAt(coloured, fg, b).box.Within(t.w, t.h)
  {
    assert b[0..] == b;
  }

  lemma LaterWithin(t: Rect, coloured: bool, fg: Pixel, n: nat, b: bytes, i: nat)
    requires 0 < i < n && |b| >= SubrectsSize(n, coloured)
    ensures NthWithin(t, coloured, fg, n, b, i)
            <==> NthWithin(t, coloured, fg, n - 1, b[SubrectSize(coloured)..], i - 1)
  {
    var size := SubrectSize(coloured);
    assert b[size..][(i - 1) * size..] == b[i * size..];
  }

  // The i-th of `n` subrectangles, of two bytes or, with a colour, six.
  ghost predicate NthWithin(t: Rect, coloured: bool, fg: Pixel, n: nat, b: bytes, i: nat)
    requires i < n && |b| >= SubrectsSize(n, coloured)
  {
    var at := if coloured then i * 6 else i * 2;
    SubrectAt(coloured, fg, b[at..]).box.Within(t.w, t.h)
  }

  // So a tile breaks the rectangle off exactly when it is all here and one of
  // its subrectangles sticks out.
  lemma TileBreaksIff(img: Image, t: Rect, c: Carry, b: bytes)
    requires img.Ok()
    ensures DecodeTile(img, t, c, b).Broken? <==>
            && Parse(b, t.Area(), c).Drawn?
            && var p := Parse(b, t.Area(), c);
               exists i :: 0 <= i < p.n && !NthWithin(t, p.coloured, p.carry.fg, p.n, p.subrects, i)
    ensures DecodeTile(img, t, c, b).NeedMore? <==> Parse(b, t.Area(), c).Short?
  {
    hide Parse, DrawSubrects, NthWithin, Paint;
    var p := Parse(b, t.Area(), c);
    if p.Drawn? {
      DrawnIff(Fill(img, t, p.carry.bg), t, p.coloured, p.carry.fg, p.n, p.subrects);
    }
  }

  lemma {:induction false} SubrectsStayInside(img: Image, t: Rect, coloured: bool, fg: Pixel, n: nat, b: bytes,
      x: int, y: int)
    requires img.Ok() && |b| >= SubrectsSize(n, coloured) && img.Bounds(x, y) && !t.Has(x, y)
    ensures DrawSubrects(img, t, coloured, fg, n, b).1.At(x, y) == img.At(x, y)
    decreases n
  {
    if n > 0 {
      var s := SubrectAt(coloured, fg, b);
      if s.box.Within(t.w, t.h) {
        SubrectsStayInside(Fill(img, s.box.Moved(t.x, t.y), s.colour), t, coloured, fg, n - 1,
          b[SubrectSize(coloured)..], x, y);
      }
    }
  }

  lemma TileStaysInside(img: Image, t: Rect, c: Carry, b: bytes, x: int, y: int)
    requires img.Ok() && img.Bounds(x, y) && !t.Has(x, y) && !DecodeTile(img, t, c, b).NeedMore?
    ensures DecodeTile(img, t, c, b).img.At(x, y) == img.At(x, y)
  {
    match Parse(b, t.Area(), c)
    case Drawn(c', coloured, n, subrects, used) =>
      SubrectsStayInside(Fill(img, t, c'.bg), t, coloured, c'.fg, n, subrects, x, y);
    case _ =>
  }

  // ---- The resumable loop over a rectangle

  // What the client keeps between two reads in the middle of a rectangle.
  datatype Progress = Progress(tx: nat, ty: nat, carry: Carry, img: Image)

  datatype Status = Stalled | Failed | Finished

  // The status reached, the progress made, and the bytes used.
  datatype Loop = Loop(status: Status, p: Progress, used: nat)

  predicate AtTile(r: Rect, tx: nat, ty: nat) { ty < r.h ==> tx <= r.w }

  ghost function RunLoop(r: Rect, p: Progress, b: bytes): (l: Loop)
    requires p.img.Ok() && AtTile(r, p.tx, p.ty)
    ensures l.p.img.Ok() && SameSize(l.p.img, p.img) && l.used <= |b|
    ensures AtTile(r, l.p.tx, l.p.ty)
    ensures l.status.Stalled? || l.status.Failed? ==> l.p.ty < r.h
    ensures p.ty < r.h && l.status.Finished? ==> l.used > 0
    decreases |b|
  {
    if p.ty >= r.h then Loop(Finished, p, 0)
    else
      var t := TileAt(r.w, r.h, SIDE, p.tx, p.ty).Moved(r.x, r.y);
      match DecodeTile(p.img, t, p.carry, b)
      case NeedMore => Loop(Stalled, p, 0)
      case Broken(c, img) => Loop(Failed, p.(carry := c, img := img), 0)
      case Took(c, img, used) =>
        var l := RunLoop(r, Progress(NextX(r.w, SIDE, p.tx), NextY(r.w, SIDE, p.tx, p.ty), c, img), b[used..]);
        Loop(l.status, l.p, used + l.used)
  }

  lemma LoopStep(r: Rect, p: Progress, b: bytes)
    requires p.img.Ok() && AtTile(r, p.tx, p.ty)
    ensures var l := RunLoop(r, p, b);
            if p.ty >= r.h then l == Loop(Finished, p, 0)
            else
              var o := DecodeTile(p.img, TileAt(r.w, r.h, SIDE, p.tx, p.ty).Moved(r.x, r.y), p.carry, b);
              if o.NeedMore? then l == Loop(Stalled, p, 0)
              else if o.Broken? then l == Loop(Failed, p.(carry := o.c, img := o.img), 0)
              else
                var next := Progress(NextX(r.w, SIDE, p.tx), NextY(r.w, SIDE, p.tx, p.ty), o.c, o.img);
                var rest := RunLoop(r, next, b[o.used..]);
                l == Loop(rest.status, rest.p, o.used + rest.used)
  {
    hide DecodeTile, TileAt;
  }

  // Stopping for want of data and going on later is the same as having had
  // all the data at once; a finished or broken rectangle ignores what follows.
  lemma {:induction false} LoopResumes(r: Rect, p: Progress, b: bytes, e: bytes)
    requires p.img.Ok() && AtTile(r, p.tx, p.ty)
    ensures var l := RunLoop(r, p, b);
            if l.status.Stalled? then
              var l' := RunLoop(r, l.p, b[l.used..] + e);
              RunLoop(r, p, b + e) == Loop(l'.status, l'.p, l.used + l'.used)
            else RunLoop(r, p, b + e) == l
    decreases |b|
  {
    hide DecodeTile, TileAt, RunLoop;
    LoopStep(r, p, b);
    LoopStep(r, p, b + e);
    if p.ty < r.h {
      var t := TileAt(r.w, r.h, SIDE, p.tx, p.ty).Moved(r.x, r.y);
      var o := DecodeTile(p.img, t, p.carry, b);
      if o.NeedMore? {
        assert b[0..] == b;
      } else {
        TileExtends(p.img, t, p.carry, b, e);
        if o.Took? {
          var next := Progress(NextX(r.w, SIDE, p.tx), NextY(r.w, SIDE, p.tx, p.ty), o.c, o.img);
          assert (b + e)[o.used..] == b[o.used..] + e;
          LoopResumes(r, next, b[o.used..], e);
          var l := RunLoop(r, next, b[o.used..]);
          assert b[o.used..][l.used..] == b[o.used + l.used..];
        }
      }
    }
  }

  lemma {:induction false} LoopStaysInside(r: Rect, p: Progress, b: bytes, x: int, y: int)
    requires p.img.Ok() && AtTile(r, p.tx, p.ty) && p.img.Bounds(x, y) && !r.Has(x, y)
    ensures RunLoop(r, p, b).p.img.At(x, y) == p.img.At(x, y)
    decreases |b|
  {
    if p.ty < r.h {
      var t := TileAt(r.w, r.h, SIDE, p.tx, p.ty).Moved(r.x, r.y);
      var o := DecodeTile(p.img, t, p.carry, b);
      assert !t.Has(x, y);
      if !o.NeedMore? {
        TileStaysInside(p.img, t, p.carry, b, x, y);
        if o.Took? {
          LoopStaysInside(r, Progress(NextX(r.w, SIDE, p.tx), NextY(r.w, SIDE, p.tx, p.ty), o.c, o.img), b[o.used..],
            x, y);
        }
      }
    }
  }

  // ---- The plain form: a fold over a list of tiles

  ghost function Fold(ts: seq<Rect>, r: Rect, img: Image, c: Carry, b: bytes): (o: Outcome)
    requires img.Ok()
    ensures !o.NeedMore? ==> o.img.Ok() && SameSize(o.img, img)
    ensures o.Took? ==> o.used <= |b|
  {
    if |ts| == 0 then Took(c, img, 0)
    else match DecodeTile(img, ts[0].Moved(r.x, r.y), c, b)
      case Took(c1, img1, used) =>
        (match Fold(ts[1..], r, img1, c1, b[used..])
         case Took(c2, img2, more) => Took(c2, img2, used + more)
         case other => other)
      case other => other
  }

  // The resumable loop computes the fold over the row-major list of tiles.
  lemma {:induction false} LoopIsFold(r: Rect, p: Progress, b: bytes)
    requires p.img.Ok() && Cursor(r.w, r.h, SIDE, p.tx, p.ty)
    ensures var l, f := RunLoop(r, p, b), Fold(TilesFrom(r.w, r.h, SIDE, p.tx, p.ty), r, p.img, p.carry, b);
            match f
            case NeedMore => l.status.Stalled?
            case Broken(c, img) => l.status.Failed? && l.p.carry == c && l.p.img == img
            case Took(c, img, used) => l.status.Finished? && l.p.carry == c && l.p.img == img && l.used == used
    decreases |b|
  {
    if p.ty < r.h {
      var ts := TilesFrom(r.w, r.h, SIDE, p.tx, p.ty);
      var nx, ny := NextX(r.w, SIDE, p.tx), NextY(r.w, SIDE, p.tx, p.ty);
      assert ts[1..] == TilesFrom(r.w, r.h, SIDE, nx, ny);
      var o := DecodeTile(p.img, ts[0].Moved(r.x, r.y), p.carry, b);
      if o.Took? {
        LoopIsFold(r, Progress(nx, ny, o.c, o.img), b[o.used..]);
      }
    }
  }

  // ---- Reference encoder

  // What an encoder may take the first tile of a rectangle to inherit: black and white.
  const FIRST := Carry(Rgb(0, 0, 0), Rgb(255, 255, 255))


  // A tile as an encoder may write it. `bg` and `fg` are sent when present;
  // subrectangles carry their own colours exactly when `coloured`.
  datatype Code =
    | Raw(px: seq<Pixel>)
    | Filled(bg: Option<Pixel>, fg: Option<Pixel>, coloured: bool, subs: seq<Subrect>)

  ghost function Or<T>(o: Option<T>, d: T): T { if o.Some? then o.value else d }

  ghost function CarryAfter(c: Carry, code: Code): Carry {
    match code
    case Raw(_) => c
    case Filled(bg, fg, _, _) => Carry(Or(bg, c.bg), Or(fg, c.fg))
  }

  ghost predicate Fitting(s: Subrect, t: Rect) { s.box.Within(t.w, t.h) && s.box.w > 0 && s.box.h > 0 }

  ghost predicate Legal(code: Code, t: Rect, c: Carry) {
    t.w <= 16 && t.h <= 16 &&
    match code
    case Raw(px) => |px| == t.Area()
    case Filled(_, _, coloured, subs) =>
      && |subs| < 256
      && (forall i :: 0 <= i < |subs| ==> Fitting(subs[i], t) && (coloured || subs[i].colour == CarryAfter(c, code).fg))
  }

  // The colour a list of subrectangles leaves on a pixel: each one that
  // contains it paints over what was there.
  ghost function SubColour(subs: seq<Subrect>, under: Pixel, x: int, y: int): Pixel {
    if |subs| == 0 then under
    else SubColour(subs[1..], if subs[0].box.Has(x, y) then subs[0].colour else under, x, y)
  }

  ghost function Colour(code: Code, t: Rect, c: Carry, x: int, y: int): Pixel
    requires Legal(code, t, c) && Rect(0, 0, t.w, t.h).Has(x, y)
  {
    match code
    case Raw(px) => px[Rect(0, 0, t.w, t.h).Index(x, y)]
    case Filled(_, _, _, subs) => SubColour(subs, CarryAfter(c, code).bg, x, y)
  }

  ghost function WireBytes(p: Pixel): (b: bytes)
    ensures |b| == 4
  {
    [p.b, p.g, p.r, 0]
  }

  ghost function RawBytes(px: seq<Pixel>): (b: bytes)
    ensures |b| == 4 * |px|
  {
    if |px| == 0 then [] else WireBytes(px[0]) + RawBytes(px[1..])
  }

  ghost function OptBytes(p: Option<Pixel>): (b: bytes)
    ensures |b| == if p.Some? then 4 else 0
  {
    if p.Some? then WireBytes(p.value) else []
  }

  ghost function SubrectBytes(coloured: bool, s: Subrect, t: Rect): (b: bytes)
    requires Fitting(s, t) && t.w <= 16 && t.h <= 16
    ensures |b| == SubrectSize(coloured)
  {
    (if coloured then WireBytes(s.colour) else []) + [s.box.x * 16 + s.box.y, (s.box.w - 1) * 16 + (s.box.h - 1)]
  }

  ghost function SubrectsBytes(coloured: bool, subs: seq<Subrect>, t: Rect): (b: bytes)
    requires t.w <= 16 && t.h <= 16 && forall i :: 0 <= i < |subs| ==> Fitting(subs[i], t)
    ensures |b| == SubrectsSize(|subs|, coloured)
  {
    if |subs| == 0 then [] else SubrectBytes(coloured, subs[0], t) + SubrectsBytes(coloured, subs[1..], t)
  }

  ghost function Flag(on: bool, mask: nat): nat { if on then mask else 0 }

  ghost function Header(bg: bool, fg: bool, any: bool, coloured: bool): byte {
    Flag(bg, 2) + Flag(fg, 4) + Flag(any, 8) + Flag(coloured, 16)
  }

  ghost function Encode(code: Code, t: Rect, c: Carry): bytes
    requires Legal(code, t, c)
  {
    match code
    case Raw(px) => [1] + RawBytes(px)
    case Filled(bg, fg, coloured, subs) =>
      [Header(bg.Some?, fg.Some?, |subs| > 0, coloured)] + OptBytes(bg) + OptBytes(fg)
      + (if |subs| > 0 then [|subs|] else []) + SubrectsBytes(coloured, subs, t)
  }

  // ---- Round trip

  lemma {:induction false} RawBytesRoundTrip(px: seq<Pixel>, rest: bytes)
    ensures WirePixels(RawBytes(px) + rest, |px|) == px
  {
    if |px| > 0 {
      RawBytesRoundTrip(px[1..], rest);
      var d := RawBytes(px) + rest;
      var tail := RawBytes(px[1..]) + rest;
      assert d == WireBytes(px[0]) + tail;
      forall i | 0 <= i < |px|
        ensures WirePixel(d, 4 * i) == px[i]
      {
        if i > 0 {
          assert WirePixel(d, 4 * i) == WirePixel(tail, 4 * (i - 1)) == WirePixels(tail, |px| - 1)[i - 1];
        }
      }
    }
  }

  lemma HeaderBits(bg: bool, fg: bool, any: bool, coloured: bool)
    ensures var h := Header(bg, fg, any, coloured);
            !Bit(h, 1) && Bit(h, 2) == bg && Bit(h, 4) == fg && Bit(h, 8) == any && Bit(h, 16) == coloured
  {
  }

  lemma WirePixelAt(d: bytes, off: nat, p: Pixel)
    requires off + 4 <= |d| && d[off..off + 4] == WireBytes(p)
    ensures WirePixel(d, off) == p
  {
    var w := d[off..off + 4];
    assert w[0] == d[off] && w[1] == d[off + 1] && w[2] == d[off + 2];
  }

  // Each piece of a concatenation is found where it was put.
  lemma Pieces(a: bytes, b: bytes, c: bytes, d: bytes, e: bytes, f: bytes)
    ensures var s := a + b + c + d + e + f;
            var i, j, k, l := |a|, |a| + |b|, |a| + |b| + |c|, |a| + |b| + |c| + |d|;
            s[..i] == a && s[i..j] == b && s[j..k] == c && s[k..l] == d && s[l..l + |e|] == e
  {
  }

  lemma ParseFilled(code: Code, t: Rect, c: Carry, rest: bytes)
    requires Legal(code, t, c) && code.Filled?
    ensures var d := Encode(code, t, c);
            Parse(d + rest, t.Area(), c) ==
            Drawn(CarryAfter(c, code), code.coloured, |code.subs|, SubrectsBytes(code.coloured, code.subs, t), |d|)
  {
    hide WirePixel, SubrectsBytes, WireBytes, Header;
    var any := |code.subs| > 0;
    HeaderBits(code.bg.Some?, code.fg.Some?, any, code.coloured);
    var head := [Header(code.bg.Some?, code.fg.Some?, any, code.coloured)];
    var bg, fg, n := OptBytes(code.bg), OptBytes(code.fg), if any then [|code.subs|] else [];
    var d := Encode(code, t, c) + rest;
    Pieces(head, bg, fg, n, SubrectsBytes(code.coloured, code.subs, t), rest);
    assert d[0] == d[..1][0];
    if code.bg.Some? {
      WirePixelAt(d, 1, code.bg.value);
    }
    if code.fg.Some? {
      WirePixelAt(d, 1 + |bg|, code.fg.value);
    }
    var p2 := 1 + |bg| + |fg|;
    assert any ==> d[p2] == d[p2..p2 + 1][0];
  }

  lemma SubrectRoundTrip(coloured: bool, fg: Pixel, s: Subrect, t: Rect, rest: bytes)
    requires Fitting(s, t) && t.w <= 16 && t.h <= 16 && (coloured || s.colour == fg)
    ensures SubrectAt(coloured, fg, SubrectBytes(coloured, s, t) + rest) == s
  {
    var b := SubrectBytes(coloured, s, t);
    var o := if coloured then 4 else 0;
    assert b[o] == s.box.x * 16 + s.box.y && b[o + 1] == (s.box.w - 1) * 16 + (s.box.h - 1);
  }

  lemma FirstSubrect(img: Image, t: Rect, coloured: bool, fg: Pixel, subs: seq<Subrect>, rest: bytes)
    requires img.Ok() && t.w <= 16 && t.h <= 16 && |subs| > 0
    requires forall i :: 0 <= i < |subs| ==> Fitting(subs[i], t) && (coloured || subs[i].colour == fg)
    ensures var others := SubrectsBytes(coloured, subs[1..], t) + rest;
            DrawSubrects(img, t, coloured, fg, |subs|, SubrectsBytes(coloured, subs, t) + rest)
            == DrawSubrects(Fill(img, subs[0].box.Moved(t.x, t.y), subs[0].colour), t, coloured, fg, |subs| - 1, others)
  {
    var first, others := SubrectBytes(coloured, subs[0], t), SubrectsBytes(coloured, subs[1..], t) + rest;
    var d := SubrectsBytes(coloured, subs, t) + rest;
    assert d == first + others && d[|first|..] == others;
    SubrectRoundTrip(coloured, fg, subs[0], t, others);
  }

  lemma {:induction false} SubrectsRoundTrip(img: Image, t: Rect, coloured: bool, fg: Pixel, subs: seq<Subrect>,
      rest: bytes, x: int, y: int)
    requires img.Ok() && img.Covers(t) && t.w <= 16 && t.h <= 16 && img.Bounds(x, y)
    requires forall i :: 0 <= i < |subs| ==> Fitting(subs[i], t) && (coloured || subs[i].colour == fg)
    ensures var res := DrawSubrects(img, t, coloured, fg, |subs|, SubrectsBytes(coloured, subs, t) + rest);
            && res.0
            && res.1.At(x, y) == if t.Has(x, y) then SubColour(subs, img.At(x, y), x - t.x, y - t.y) else img.At(x, y)
    decreases |subs|
  {
    hide SubrectBytes, SubrectAt, Paint;
    if |subs| > 0 {
      FirstSubrect(img, t, coloured, fg, subs, rest);
      var mid := Fill(img, subs[0].box.Moved(t.x, t.y), subs[0].colour);
      assert mid.Bounds(x, y);
      SubrectsRoundTrip(mid, t, coloured, fg, subs[1..], rest, x, y);
    }
  }

  lemma {:induction false} SubrectsAccepted(img: Image, t: Rect, coloured: bool, fg: Pixel, subs: seq<Subrect>)
    requires img.Ok() && t.w <= 16 && t.h <= 16
    requires forall i :: 0 <= i < |subs| ==> Fitting(subs[i], t) && (coloured || subs[i].colour == fg)
    ensures DrawSubrects(img, t, coloured, fg, |subs|, SubrectsBytes(coloured, subs, t)).0
    decreases |subs|
  {
    if |subs| > 0 {
      FirstSubrect(img, t, coloured, fg, subs, []);
      var bytes, others := SubrectsBytes(coloured, subs, t), SubrectsBytes(coloured, subs[1..], t);
      assert bytes + [] == bytes && others + [] == others;
      SubrectsAccepted(Fill(img, subs[0].box.Moved(t.x, t.y), subs[0].colour), t, coloured, fg, subs[1..]);
    }
  }

  lemma FilledTileRoundTrip(code: Code, img: Image, t: Rect, c: Carry, rest: bytes)
    requires img.Ok() && img.Covers(t) && Legal(code, t, c) && code.Filled?
    ensures var c' := CarryAfter(c, code);
            DecodeTile(img, t, c, Encode(code, t, c) + rest)
            == Took(c', DrawSubrects(Fill(img, t, c'.bg), t, code.coloured, c'.fg, |code.subs|,
              SubrectsBytes(code.coloured, code.subs, t)).1, |Encode(code, t, c)|)
  {
    hide Parse, Encode, DrawSubrects, Paint, SubrectsBytes;
    ParseFilled(code, t, c, rest);
    SubrectsAccepted(Fill(img, t, CarryAfter(c, code).bg), t, code.coloured, CarryAfter(c, code).fg, code.subs);
  }

  lemma RawTileRoundTrip(code: Code, img: Image, t: Rect, c: Carry, rest: bytes)
    requires img.Ok() && img.Covers(t) && Legal(code, t, c) && code.Raw?
    ensures DecodeTile(img, t, c, Encode(code, t, c) + rest) == Took(c, Paint(img, t, code.px), |Encode(code, t, c)|)
  {
    hide Parse, Encode, Paint;
    RawParses(code, t, c, rest);
  }

  lemma RawParses(code: Code, t: Rect, c: Carry, rest: bytes)
    requires Legal(code, t, c) && code.Raw?
    ensures Parse(Encode(code, t, c) + rest, t.Area(), c) == RawTile(code.px, |Encode(code, t, c)|)
  {
    hide WirePixels, RawBytes;
    var d := Encode(code, t, c) + rest;
    assert d[0] == 1 && d[1..] == RawBytes(code.px) + rest;
    RawBytesRoundTrip(code.px, rest);
  }

  // Decoding a legal code uses exactly its bytes, passes on its colours, and
  // leaves in the tile the colours it stands for.
  lemma TileRoundTrip(code: Code, img: Image, t: Rect, c: Carry, rest: bytes)
    requires img.Ok() && img.Covers(t) && Legal(code, t, c)
    ensures var o := DecodeTile(img, t, c, Encode(code, t, c) + rest);
            && o.Took? && o.used == |Encode(code, t, c)| && o.c == CarryAfter(c, code)
            && forall x, y {:trigger o.img.At(x, y)} :: img.Bounds(x, y) ==>
                 o.img.At(x, y) == if t.Has(x, y) then Colour(code, t, c, x - t.x, y - t.y) else img.At(x, y)
  {
    hide DecodeTile, Encode, DrawSubrects, SubrectsBytes, SubColour;
    if code.Raw? {
      RawTileRoundTrip(code, img, t, c, rest);
    } else {
      FilledTileRoundTrip(code, img, t, c, rest);
      var c' := CarryAfter(c, code);
      var filled := Fill(img, t, c'.bg);
      var bytes := SubrectsBytes(code.coloured, code.subs, t);
      assert bytes + [] == bytes;
      var o := DrawSubrects(filled, t, code.coloured, c'.fg, |code.subs|, bytes).1;
      forall x, y | img.Bounds(x, y)
        ensures o.At(x, y) == if t.Has(x, y) then Colour(code, t, c, x - t.x, y - t.y) else img.At(x, y)
      {
        assert filled.Bounds(x, y) && filled.At(x, y) == if t.Has(x, y) then c'.bg else img.At(x, y);
        SubrectsRoundTrip(filled, t, code.coloured, c'.fg, code.subs, [], x, y);
      }
    }
  }

  // One code per tile from the cursor on, each standing for what `want` has
  // there, given the colours the tiles before it pass on.
  ghost predicate Depicts(codes: seq<Code>, want: Image, r: Rect, tx: nat, ty: nat, c: Carry)
    requires want.Ok() && want.Covers(r) && Cursor(r.w, r.h, 16, tx, ty)
    decreases r.h - ty, r.w - tx
  {
    if ty >= r.h then codes == []
    else
      var t := TileAt(r.w, r.h, 16, tx, ty).Moved(r.x, r.y);
      && codes != []
      && Legal(codes[0], t, c)
      && (forall x, y :: t.Has(x, y) ==> Colour(codes[0], t, c, x - t.x, y - t.y) == want.At(x, y))
      && Depicts(codes[1..], want, r, NextX(r.w, 16, tx), NextY(r.w, 16, tx, ty), CarryAfter(c, codes[0]))
  }

  ghost function EncodeFrom(codes: seq<Code>, want: Image, r: Rect, tx: nat, ty: nat, c: Carry): bytes
    requires want.Ok() && want.Covers(r) && Cursor(r.w, r.h, 16, tx, ty)
    requires Depicts(codes, want, r, tx, ty, c)
    decreases r.h - ty, r.w - tx
  {
    if ty >= r.h then []
    else
      var t := TileAt(r.w, r.h, 16, tx, ty).Moved(r.x, r.y);
      Encode(codes[0], t, c)
      + EncodeFrom(codes[1..], want, r, NextX(r.w, 16, tx), NextY(r.w, 16, tx, ty), CarryAfter(c, codes[0]))
  }

  lemma TileIsWanted(code: Code, img: Image, want: Image, t: Rect, c: Carry, rest: bytes)
    requires img.Ok() && want.Ok() && SameSize(img, want) && img.Covers(t) && Legal(code, t, c)
    requires forall x, y :: t.Has(x, y) ==> Colour(code, t, c, x - t.x, y - t.y) == want.At(x, y)
    ensures DecodeTile(img, t, c, Encode(code, t, c) + rest)
            == Took(CarryAfter(c, code), Paint(img, t, Read(want, t)), |Encode(code, t, c)|)
  {
    TileRoundTrip(code, img, t, c, rest);
    var o, q := DecodeTile(img, t, c, Encode(code, t, c) + rest).img, Paint(img, t, Read(want, t));
    forall x, y | o.Bounds(x, y)
      ensures o.At(x, y) == q.At(x, y)
    {
      assert img.Bounds(x, y);
      OverlayAt(img, t, want, x, y);
    }
    SameImage(o, q);
  }

  // One turn of the loop on an encoded tile.
  lemma LoopTakesTile(code: Code, want: Image, r: Rect, p: Progress, others: bytes)
    requires p.img.Ok() && want.Ok() && SameSize(p.img, want) && want.Covers(r) && Cursor(r.w, r.h, 16, p.tx, p.ty)
            && p.ty < r.h
    requires var t := TileAt(r.w, r.h, 16, p.tx, p.ty).Moved(r.x, r.y);
             && Legal(code, t, p.carry)
             && forall x, y :: t.Has(x, y) ==> Colour(code, t, p.carry, x - t.x, y - t.y) == want.At(x, y)
    ensures var t := TileAt(r.w, r.h, 16, p.tx, p.ty).Moved(r.x, r.y);
            var d := Encode(code, t, p.carry);
            var l := RunLoop(r, Progress(NextX(r.w, 16, p.tx), NextY(r.w, 16, p.tx, p.ty),
              CarryAfter(p.carry, code), Paint(p.img, t, Read(want, t))), others);
            RunLoop(r, p, d + others) == Loop(l.status, l.p, |d| + l.used)
  {
    var t := TileAt(r.w, r.h, 16, p.tx, p.ty).Moved(r.x, r.y);
    var d := Encode(code, t, p.carry);
    TileIsWanted(code, p.img, want, t, p.carry, others);
    assert (d + others)[|d|..] == others;
  }

  lemma {:induction false} LoopUndoesEncode(codes: seq<Code>, want: Image, r: Rect, p: Progress, rest: bytes)
    requires p.img.Ok() && want.Ok() && SameSize(p.img, want) && want.Covers(r) && Cursor(r.w, r.h, 16, p.tx, p.ty)
    requires Depicts(codes, want, r, p.tx, p.ty, p.carry)
    ensures var d := EncodeFrom(codes, want, r, p.tx, p.ty, p.carry);
            var l := RunLoop(r, p, d + rest);
            l.status.Finished? && l.used == |d| && PaintedFrom(l.p.img, p.img, want, r, 16, p.tx, p.ty)
    decreases r.h - p.ty, r.w - p.tx
  {
    if p.ty < r.h {
      var t := TileAt(r.w, r.h, 16, p.tx, p.ty).Moved(r.x, r.y);
      var nx, ny, c := NextX(r.w, 16, p.tx), NextY(r.w, 16, p.tx, p.ty), CarryAfter(p.carry, codes[0]);
      var first, others := Encode(codes[0], t, p.carry), EncodeFrom(codes[1..], want, r, nx, ny, c);
      assert first + others + rest == first + (others + rest);
      LoopTakesTile(codes[0], want, r, p, others + rest);
      var next := Progress(nx, ny, c, Paint(p.img, t, Read(want, t)));
      LoopUndoesEncode(codes[1..], want, r, next, rest);
      PaintTileThenRest(RunLoop(r, next, others + rest).p.img, p.img, want, r, 16, p.tx, p.ty);
    }
  }

  // The Hextile round trip: for every target image and every legal choice of
  // code per tile, decoding writes exactly the target into the rectangle.
  lemma HextileRoundTrip(codes: seq<Code>, img: Image, want: Image, r: Rect, rest: bytes)
    requires img.Ok() && want.Ok() && SameSize(img, want) && img.Covers(r) && r.w > 0 && r.h > 0
    requires Depicts(codes, want, r, 0, 0, FIRST)
    ensures var d := EncodeFrom(codes, want, r, 0, 0, FIRST);
            var l := RunLoop(r, Progress(0, 0, START, img), d + rest);
            l.status.Finished? && l.used == |d| && l.p.img == Overlay(img, r, want)
  {
    var p := Progress(0, 0, START, img);
    LoopUndoesEncode(codes, want, r, p, rest);
    PaintedAll(RunLoop(r, p, EncodeFrom(codes, want, r, 0, 0, FIRST) + rest).p.img, img, want, r, 16);
  }

  // Every image has codes, such as a raw one for each tile.
  ghost function RawCodes(want: Image, r: Rect, tx: nat, ty: nat, c: Carry): (codes: seq<Code>)
    requires want.Ok() && want.Covers(r) && Cursor(r.w, r.h, 16, tx, ty)
    ensures Depicts(codes, want, r, tx, ty, c)
    decreases r.h - ty, r.w - tx
  {
    if ty >= r.h then []
    else
      var t := TileAt(r.w, r.h, 16, tx, ty).Moved(r.x, r.y);
      var code := Raw(Read(want, t));
      RawShows(want, t, c);
      [code] + RawCodes(want, r, NextX(r.w, 16, tx), NextY(r.w, 16, tx, ty), CarryAfter(c, code))
  }

  lemma RawShows(want: Image, t: Rect, c: Carry)
    requires want.Ok() && want.Covers(t) && t.w <= 16 && t.h <= 16
    ensures Legal(Raw(Read(want, t)), t, c)
    ensures forall x, y :: t.Has(x, y) ==> Colour(Raw(Read(want, t)), t, c, x - t.x, y - t.y) == want.At(x, y)
  {
    forall x, y | t.Has(x, y)
      ensures Read(want, t)[t.Index(x, y)] == want.At(x, y)
              && Rect(0, 0, t.w, t.h).Index(x - t.x, y - t.y) == t.Index(x, y)
    {
    }
  }

  lemma EveryImageArrives(img: Image, want: Image, r: Rect, rest: bytes)
    requires img.Ok() && want.Ok() && SameSize(img, want) && img.Covers(r) && r.w > 0 && r.h > 0
    ensures exists d ::
              var l := RunLoop(r, Progress(0, 0, START, img), d + rest);
              l.status.Finished? && l.used == |d| && l.p.img == Overlay(img, r, want)
  {
    var codes := RawCodes(want, r, 0, 0, FIRST);
    HextileRoundTrip(codes, img, want, r, rest);
    var d := EncodeFrom(codes, want, r, 0, 0, FIRST);
    var l := RunLoop(r, Progress(0, 0, START, img), d + rest);
    assert l.status.Finished? && l.used == |d| && l.p.img == Overlay(img, r, want);
  }
}
