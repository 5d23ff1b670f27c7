// The order in which Hextile (16x16) and ZRLE (64x64) walk a rectangle: tiles
// left to right, then top to bottom, clipped at the right and bottom edges.
module Tiles {
  import opened Bytes
  import opened Images

  predicate Cursor(w: nat, h: nat, side: nat, tx: nat, ty: nat) {
    side > 0 && w > 0 && (ty < h ==> tx < w)
  }

  function TileAt(w: nat, h: nat, side: nat, tx: nat, ty: nat): (t: Rect)
    requires tx <= w && ty <= h
    ensures t.Within(w, h)
  {
    Rect(tx, ty, Min(side, w - tx), Min(side, h - ty))
  }

  // Where the cursor goes after the tile at (tx, ty).
  function NextX(w: nat, side: nat, tx: nat): nat { if tx + side >= w then 0 else tx + side }

  function NextY(w: nat, side: nat, tx: nat, ty: nat): nat { if tx + side >= w then ty + side else ty }

  // All tiles from the cursor on.
  ghost function TilesFrom(w: nat, h: nat, side: nat, tx: nat, ty: nat): (ts: seq<Rect>)
    requires Cursor(w, h, side, tx, ty)
    ensures forall i :: 0 <= i < |ts| ==> ts[i].Within(w, h)
    decreases h - ty, w - tx
  {
    if ty >= h then []
    else [TileAt(w, h, side, tx, ty)] + TilesFrom(w, h, side, NextX(w, side, tx), NextY(w, side, tx, ty))
  }

  // Pixels the cursor has not passed yet.
  ghost predicate Ahead(side: nat, tx: int, ty: int, x: int, y: int) {
    y >= ty + side || (y >= ty && x >= tx)
  }

  lemma AheadSplits(w: nat, h: nat, side: nat, tx: nat, ty: nat, x: nat, y: nat)
    requires Cursor(w, h, side, tx, ty) && ty < h && x < w && y < h
    ensures Ahead(side, tx, ty, x, y) <==>
            TileAt(w, h, side, tx, ty).Has(x, y) || Ahead(side, NextX(w, side, tx), NextY(w, side, tx, ty), x, y)
    ensures !(TileAt(w, h, side, tx, ty).Has(x, y) && Ahead(side, NextX(w, side, tx), NextY(w, side, tx, ty), x, y))
  {
  }

  // How many of the tiles contain a pixel.
  ghost function Times(ts: seq<Rect>, x: int, y: int): nat {
    if |ts| == 0 then 0 else (if ts[0].Has(x, y) then 1 else 0) + Times(ts[1..], x, y)
  }

  // From any cursor position, the remaining tiles cover the remaining pixels
  // once and the passed ones not at all.
  lemma {:induction false} TilesPartition(w: nat, h: nat, side: nat, tx: nat, ty: nat, x: nat, y: nat)
    requires Cursor(w, h, side, tx, ty) && x < w && y < h
    ensures Times(TilesFrom(w, h, side, tx, ty), x, y) == if Ahead(side, tx, ty, x, y) then 1 else 0
    decreases h - ty, w - tx
  {
    if ty < h {
      TilesPartition(w, h, side, NextX(w, side, tx), NextY(w, side, tx, ty), x, y);
      AheadSplits(w, h, side, tx, ty, x, y);
    }
  }

  // Started at the top left corner, the tiles partition the rectangle.
  lemma EachPixelInOneTile(w: nat, h: nat, side: nat, x: nat, y: nat)
    requires side > 0 && x < w && y < h
    ensures Times(TilesFrom(w, h, side, 0, 0), x, y) == 1
  {
    TilesPartition(w, h, side, 0, 0, x, y);
  }

  // `want` on the pixels of `r` the cursor is still to reach, `img` elsewhere.
  ghost predicate PaintedFrom(o: Image, img: Image, want: Image, r: Rect, side: nat, tx: int, ty: int)
    requires o.Ok() && img.Ok() && want.Ok() && SameSize(o, img) && SameSize(img, want)
  {
    forall x, y :: img.Bounds(x, y) ==>
      o.At(x, y) == if r.Has(x, y) && Ahead(side, tx, ty, x - r.x, y - r.y) then want.At(x, y) else img.At(x, y)
  }

  lemma PaintedNone(img: Image, want: Image, r: Rect, side: nat, tx: nat, ty: nat)
    requires img.Ok() && want.Ok() && SameSize(img, want) && ty >= r.h
    ensures PaintedFrom(img, img, want, r, side, tx, ty)
  {
  }

  // Painting the tile under the cursor and then everything behind it paints
  // everything from the cursor on.
  lemma PaintTileThenRest(o: Image, img: Image, want: Image, r: Rect, side: nat, tx: nat, ty: nat)
    requires Cursor(r.w, r.h, side, tx, ty) && ty < r.h
    requires img.Ok() && want.Ok() && o.Ok() && SameSize(o, img) && SameSize(img, want) && img.Covers(r)
    requires var t := TileAt(r.w, r.h, side, tx, ty).Moved(r.x, r.y);
             PaintedFrom(o, Paint(img, t, Read(want, t)), want, r, side, NextX(r.w, side, tx), NextY(r.w, side, tx, ty))
    ensures PaintedFrom(o, img, want, r, side, tx, ty)
  {
    var t := TileAt(r.w, r.h, side, tx, ty).Moved(r.x, r.y);
    var mid := Paint(img, t, Read(want, t));
    forall x, y | img.Bounds(x, y)
      ensures o.At(x, y) == if r.Has(x, y) && Ahead(side, tx, ty, x - r.x, y - r.y) then want.At(x, y) else img.At(x, y)
    {
      assert mid.Bounds(x, y);
      assert t.Has(x, y) ==> mid.At(x, y) == want.At(x, y);
      if r.Has(x, y) {
        AheadSplits(r.w, r.h, side, tx, ty, x - r.x, y - r.y);
      }
    }
  }

  // Painted from the first tile on: the whole rectangle.
  lemma PaintedAll(o: Image, img: Image, want: Image, r: Rect, side: nat)
    requires img.Ok() && want.Ok() && o.Ok() && SameSize(o, img) && SameSize(img, want) && img.Covers(r)
    requires PaintedFrom(o, img, want, r, side, 0, 0)
    ensures o == Overlay(img, r, want)
  {
    var q := Overlay(img, r, want);
    forall x, y | o.Bounds(x, y)
      ensures o.At(x, y) == q.At(x, y)
    {
      assert img.Bounds(x, y);
      OverlayAt(img, r, want, x, y);
    }
    SameImage(o, q);
  }
}
