// Images as rows of pixels, rectangles, and the one drawing primitive every
// decoder comes down to: writing a run of pixels into a rectangle in reading
// order.
module Images {
  import opened Bytes

  // QRgb as the client uses it: every pixel it writes has alpha 0xff.
  datatype Pixel = Rgb(r: byte, g: byte, b: byte)

  const BLACK := Rgb(0, 0, 0)
  const WHITE := Rgb(255, 255, 255)

  // A QRect, held as its corner and size.
  datatype Rect = Rect(x: nat, y: nat, w: nat, h: nat) {
    predicate Has(px: int, py: int) { x <= px < x + w && y <= py < y + h }

    // QRect::isNull(): both sides zero.
    predicate Null() { w == 0 && h == 0 }

    predicate Within(width: nat, height: nat) { x + w <= width && y + h <= height }

    function Area(): nat { w * h }

    function United(o: Rect): Rect {
      if Null() then o
      else if o.Null() then this
      else
        var left, top := Min(x, o.x), Min(y, o.y);
        Rect(left, top, Max(x + w, o.x + o.w) - left, Max(y + h, o.y + o.h) - top)
    }

    // The part of this rectangle inside a width-by-height screen.
    function Clipped(width: nat, height: nat): Rect {
      Rect(x, y, Max(0, Min(x + w, width) - x), Max(0, Min(y + h, height) - y))
    }

    function Moved(dx: nat, dy: nat): Rect { Rect(x + dx, y + dy, w, h) }

    // Position of a pixel of this rectangle in reading order.
    function Index(px: int, py: int): (k: nat)
      requires Has(px, py)
      ensures k < Area()
    {
      IndexBelowArea(px - x, py - y, w, h);
      (py - y) * w + (px - x)
    }
  }

  const EMPTY := Rect(0, 0, 0, 0)

  lemma IndexBelowArea(dx: nat, dy: nat, w: nat, h: nat)
    requires dx < w && dy < h
    ensures 0 <= dy * w + dx < w * h
  {
    assert (dy + 1) * w <= h * w;
  }

  datatype Image = Image(w: nat, h: nat, rows: seq<seq<Pixel>>) {
    ghost predicate Ok() { |rows| == h && forall y :: 0 <= y < h ==> |rows[y]| == w }

    ghost predicate Bounds(x: int, y: int) { 0 <= x < w && 0 <= y < h }

    ghost predicate Covers(r: Rect) { r.Within(w, h) }

    ghost function At(x: int, y: int): Pixel
      requires Ok() && Bounds(x, y)
    {
      rows[y][x]
    }
  }

  ghost predicate SameSize(a: Image, b: Image) { a.w == b.w && a.h == b.h }

  lemma SameImage(a: Image, b: Image)
    requires a.Ok() && b.Ok() && SameSize(a, b)
    requires forall x, y :: a.Bounds(x, y) ==> a.At(x, y) == b.At(x, y)
    ensures a == b
  {
    forall y | 0 <= y < a.h
      ensures a.rows[y] == b.rows[y]
    {
      forall x | 0 <= x < a.w
        ensures a.rows[y][x] == b.rows[y][x]
      {
        assert a.Bounds(x, y);
        assert a.At(x, y) == b.At(x, y);
      }
    }
  }

  ghost function Tabulate(w: nat, h: nat, f: (int, int) -> Pixel): (o: Image)
    ensures o.Ok() && o.w == w && o.h == h
    ensures forall x, y {:trigger o.At(x, y)} :: o.Bounds(x, y) ==> o.At(x, y) == f(x, y)
  {
    Image(w, h, seq(h, y => seq(w, x => f(x, y))))
  }

  ghost function Blank(w: nat, h: nat): (o: Image)
    ensures o.Ok() && o.w == w && o.h == h
    ensures forall x, y {:trigger o.At(x, y)} :: o.Bounds(x, y) ==> o.At(x, y) == BLACK
  {
    Tabulate(w, h, (x, y) => BLACK)
  }

  // `p` written into `r` in reading order; pixels past the end of `p` keep
  // their colour.
  ghost function Paint(img: Image, r: Rect, p: seq<Pixel>): (o: Image)
    requires img.Ok()
    ensures o.Ok() && SameSize(o, img)
    ensures forall x, y {:trigger o.At(x, y)} :: img.Bounds(x, y) ==>
              o.At(x, y) == if r.Has(x, y) && r.Index(x, y) < |p| then p[r.Index(x, y)] else img.At(x, y)
  {
    Tabulate(img.w, img.h, (x, y) =>
      if r.Has(x, y) && r.Index(x, y) < |p| then p[r.Index(x, y)]
      else if img.Ok() && img.Bounds(x, y) then img.At(x, y) else BLACK)
  }

  // The pixels of `r` in reading order.
  ghost function Read(img: Image, r: Rect): (p: seq<Pixel>)
    requires img.Ok() && img.Covers(r)
    ensures |p| == r.Area()
    ensures forall x, y :: r.Has(x, y) ==> p[r.Index(x, y)] == img.At(x, y)
  {
    var p := seq(r.Area(), k requires 0 <= k < r.Area() =>
      RowColumn(k, r.w, r.h);
      img.At(r.x + k % r.w, r.y + k / r.w));
    assert forall x, y :: r.Has(x, y) ==> p[r.Index(x, y)] == img.At(x, y) by {
      forall x, y | r.Has(x, y)
        ensures p[r.Index(x, y)] == img.At(x, y)
      {
        DivMod(x - r.x, y - r.y, r.w);
      }
    }
    p
  }

  lemma RowColumn(k: nat, w: nat, h: nat)
    requires k < w * h
    ensures w > 0 && 0 <= k % w < w && 0 <= k / w < h
  {
    if w != 0 {
      var q := k / w;
      assert k == w * q + k % w;
      assert q >= h ==> w * q >= w * h;
    }
  }

  lemma DivMod(dx: nat, dy: nat, w: nat)
    requires dx < w
    ensures (dy * w + dx) / w == dy && (dy * w + dx) % w == dx
  {
    var k := dy * w + dx;
    var q := k / w;
    assert k == w * q + k % w;
    assert q > dy ==> w * q >= w * (dy + 1);
    assert q < dy ==> w * q <= w * (dy - 1);
  }

  // The pixel at position `k` of a rectangle.
  lemma PixelAt(r: Rect, k: nat)
    requires k < r.Area()
    ensures r.w > 0 && r.Has(r.x + k % r.w, r.y + k / r.w) && r.Index(r.x + k % r.w, r.y + k / r.w) == k
  {
    RowColumn(k, r.w, r.h);
    assert k == r.w * (k / r.w) + k % r.w;
  }

  // Writing a rectangle and reading it back.
  lemma PaintRead(img: Image, r: Rect, p: seq<Pixel>)
    requires img.Ok() && img.Covers(r) && |p| == r.Area()
    ensures Read(Paint(img, r, p), r) == p
  {
    var o := Paint(img, r, p);
    var q := Read(o, r);
    forall k | 0 <= k < |p|
      ensures q[k] == p[k]
    {
      PixelAt(r, k);
      var x, y := r.x + k % r.w, r.y + k / r.w;
      assert img.Bounds(x, y) && o.At(x, y) == p[k];
    }
  }

  // `want` inside `r`, `img` outside: what decoding a rectangle should leave.
  ghost function Overlay(img: Image, r: Rect, want: Image): (o: Image)
    requires img.Ok() && want.Ok() && SameSize(img, want) && img.Covers(r)
    ensures o.Ok() && SameSize(o, img)
  {
    Paint(img, r, Read(want, r))
  }

  lemma OverlayAt(img: Image, r: Rect, want: Image, x: int, y: int)
    requires img.Ok() && want.Ok() && SameSize(img, want) && img.Covers(r) && img.Bounds(x, y)
    ensures Overlay(img, r, want).At(x, y) == if r.Has(x, y) then want.At(x, y) else img.At(x, y)
  {
  }

  // One pixel changed.
  ghost function With(img: Image, px: int, py: int, c: Pixel): (o: Image)
    requires img.Ok()
    ensures o.Ok() && SameSize(o, img)
    ensures forall x, y {:trigger o.At(x, y)} :: img.Bounds(x, y)
              ==> o.At(x, y) == if x == px && y == py then c else img.At(x, y)
  {
    Tabulate(img.w, img.h, (x, y) =>
      if x == px && y == py then c else if img.Ok() && img.Bounds(x, y) then img.At(x, y) else BLACK)
  }

  lemma PaintNone(img: Image, r: Rect)
    requires img.Ok()
    ensures Paint(img, r, []) == img
  {
    SameImage(Paint(img, r, []), img);
  }

  // Painting goes on pixel by pixel in reading order.
  lemma PaintNext(img: Image, r: Rect, p: seq<Pixel>, px: int, py: int, c: Pixel)
    requires img.Ok() && r.Has(px, py) && |p| == r.Index(px, py)
    ensures With(Paint(img, r, p), px, py, c) == Paint(img, r, p + [c])
  {
    var a, b := With(Paint(img, r, p), px, py, c), Paint(img, r, p + [c]);
    forall x, y | a.Bounds(x, y)
      ensures a.At(x, y) == b.At(x, y)
    {
      assert img.Bounds(x, y);
      if r.Has(x, y) {
        DivMod(x - r.x, y - r.y, r.w);
        DivMod(px - r.x, py - r.y, r.w);
      }
    }
    SameImage(a, b);
  }
}
