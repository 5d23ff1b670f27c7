// ZRLE rectangles after decompression (VncClient::stepZrle; RFC 6143 sections
// 7.7.5 and 7.7.6): the decoder, a reference encoder for every kind of tile,
// and the proof that decoding undoes encoding.
module Zrle {
  import opened Bytes
  import opened Images
  import opened Packing
  import opened Tiles

  const SIDE := 64

  // What decoding one tile yields: the pixels written so far in reading
  // order, whether the data was sound, and how much of it was used.
  datatype Tile = Tile(ok: bool, px: seq<Pixel>, used: nat)

  const BAD := Tile(false, [], 0)

  // ---- Decoder

  function CPixel(d: bytes, off: nat): Pixel
    requires off + 3 <= |d|
  {
    Rgb(d[off + 2], d[off + 1], d[off])
  }

  function CPixels(d: bytes, n: nat): (p: seq<Pixel>)
    requires 3 * n <= |d|
    ensures |p| == n
  {
    seq(n, i requires 0 <= i < n => CPixel(d, 3 * i))
  }

  // The bytes of a run length: 255s, then one smaller byte.
  function RunLength(d: bytes): (r: Option<(nat, nat)>)
    ensures r.Some? ==> 0 < r.value.1 <= |d|
  {
    if |d| == 0 then None
    else if d[0] != 255 then Some((d[0] as int, 1))
    else match RunLength(d[1..])
      case None => None
      case Some((n, used)) => Some((n + 255, used + 1))
  }

  datatype Run = Run(colour: Pixel, n: nat, used: nat)

  // The next run: of colours when `pal` is empty, else of palette indices.
  function NextRun(pal: seq<Pixel>, d: bytes): (r: Option<Run>)
    ensures r.Some? ==> 0 < r.value.n && 0 < r.value.used <= |d|
  {
    var head := if |pal| == 0 then 3 else 1;
    if |d| < head then None
    else
      var colour := if |pal| == 0 then CPixel(d, 0) else pal[d[0] as int % 128 % |pal|];
      if |pal| > 0 && d[0] < 128 then Some(Run(colour, 1, 1))
      else match RunLength(d[head..])
        case None => None
        case Some((n, used)) => Some(Run(colour, 1 + n, head + used))
  }

  function Runs(pal: seq<Pixel>, d: bytes, left: nat): (t: Tile)
    ensures |t.px| <= left && (t.ok ==> |t.px| == left && t.used <= |d|)
    decreases left
  {
    if left == 0 then Tile(true, [], 0)
    else match NextRun(pal, d)
      case None => BAD
      case Some(r) =>
        if r.n > left then BAD
        else
          var t := Runs(pal, d[r.used..], left - r.n);
          Tile(t.ok, Repeat(r.colour, r.n) + t.px, r.used + t.used)
  }

  function PackedBits(n: nat): (bits: nat)
    ensures Width(bits)
  {
    if n == 2 then 1 else if n <= 4 then 2 else 4
  }

  // The entries the decoder reads: none for a size of 127, which is then
  // taken as all black.
  function Entries(size: nat): nat { if size == 127 then 0 else size }

  function Palette(d: bytes, size: nat): (pal: seq<Pixel>)
    requires |d| >= 3 * Entries(size)
    ensures |pal| == size
  {
    if size == 127 then Repeat(BLACK, 127) else CPixels(d, size)
  }

  // A tile without runs: raw, one colour, or packed indices.
  function DecodeFlat(pal: seq<Pixel>, d: bytes, tw: nat, th: nat): (t: Tile)
    ensures |t.px| <= tw * th && (t.ok ==> |t.px| == tw * th && t.used <= |d|)
  {
    if |pal| == 0 then
      var n := tw * th;
      if |d| < 3 * n then BAD else Tile(true, CPixels(d, n), 3 * n)
    else if |pal| == 1 then Tile(true, Repeat(pal[0], tw * th), 0)
    else
      var bits := PackedBits(|pal|);
      var size := RowBytes(bits, tw) * th;
      if |d| < size then BAD else Tile(true, UnpackRows(bits, tw, th, pal, d), size)
  }

  function DecodeTile(d: bytes, tw: nat, th: nat): (t: Tile)
    ensures |t.px| <= tw * th && (t.ok ==> |t.px| == tw * th && 0 < t.used <= |d|)
  {
    if |d| < 1 then BAD
    else
      var size := d[0] as int % 128;
      var start := 1 + 3 * Entries(size);
      if |d| < start then BAD
      else
        var pal := Palette(d[1..], size);
        var t := if d[0] >= 128 then Runs(pal, d[start..], tw * th) else DecodeFlat(pal, d[start..], tw, th);
        Tile(t.ok, t.px, start + t.used)
  }

  // The tiles from the cursor on, painted into `r`.
  ghost function DecodeFrom(img: Image, r: Rect, tx: nat, ty: nat, d: bytes): (res: (bool, Image))
    requires img.Ok() && img.Covers(r) && (r.w > 0 ==> Cursor(r.w, r.h, SIDE, tx, ty))
    ensures res.1.Ok() && SameSize(res.1, img)
    decreases r.h - ty, r.w - tx
  {
    if ty >= r.h || r.w == 0 then (true, img)
    else
      var t := TileAt(r.w, r.h, SIDE, tx, ty).Moved(r.x, r.y);
      var z := DecodeTile(d, t.w, t.h);
      if !z.ok then (false, Paint(img, t, z.px))
      else DecodeFrom(Paint(img, t, z.px), r, NextX(r.w, SIDE, tx), NextY(r.w, SIDE, tx, ty), d[z.used..])
  }

  ghost function DecodeRect(img: Image, r: Rect, d: bytes): (res: (bool, Image))
    requires img.Ok() && img.Covers(r)
    ensures res.1.Ok() && SameSize(res.1, img)
  {
    DecodeFrom(img, r, 0, 0, d)
  }

  // Nothing outside the rectangle is touched, sound data or not.
  lemma {:induction false} DecodeStaysInside(img: Image, r: Rect, tx: nat, ty: nat, d: bytes, x: int, y: int)
    requires img.Ok() && img.Covers(r) && (r.w > 0 ==> Cursor(r.w, r.h, SIDE, tx, ty))
    requires img.Bounds(x, y) && !r.Has(x, y)
    ensures DecodeFrom(img, r, tx, ty, d).1.At(x, y) == img.At(x, y)
    decreases r.h - ty, r.w - tx
  {
    if ty < r.h && r.w > 0 {
      var t := TileAt(r.w, r.h, SIDE, tx, ty).Moved(r.x, r.y);
      var z := DecodeTile(d, t.w, t.h);
      assert !t.Has(x, y);
      if z.ok {
        DecodeStaysInside(Paint(img, t, z.px), r, NextX(r.w, SIDE, tx), NextY(r.w, SIDE, tx, ty), d[z.used..], x, y);
      }
    }
  }

  // ---- Reference encoder

  // A run as the encoder chose it; `short` is the one-byte form of a single
  // palette pixel.
  datatype RunCode = RunCode(colour: Pixel, index: nat, n: nat, short: bool)

  // Every way RFC 6143 lets a tile be written. An empty palette in `Rle` is
  // plain RLE.
  datatype Code =
    | Raw(px: seq<Pixel>)
    | Solid(colour: Pixel)
    | Packed(pal: seq<Pixel>, idx: seq<nat>)
    | Rle(pal: seq<Pixel>, runs: seq<RunCode>)

  ghost predicate GoodRun(pal: seq<Pixel>, r: RunCode) {
    && r.n > 0
    && (|pal| > 0 ==> r.index < |pal| && pal[r.index] == r.colour && (r.short ==> r.n == 1))
  }

  ghost predicate Legal(c: Code, tw: nat, th: nat) {
    match c
    case Raw(px) => |px| == tw * th
    case Solid(_) => true
    case Packed(pal, idx) => 2 <= |pal| <= 16 && |idx| == tw * th && Names(pal, idx)
    case Rle(pal, runs) => |pal| <= 126 && (forall i :: 0 <= i < |runs| ==> GoodRun(pal, runs[i]))
                             && |RunPixels(runs)| == tw * th
  }

  ghost function RunPixels(runs: seq<RunCode>): seq<Pixel> {
    if |runs| == 0 then [] else Repeat(runs[0].colour, runs[0].n) + RunPixels(runs[1..])
  }

  // The pixels a code stands for.
  ghost function Meaning(c: Code, tw: nat, th: nat): (p: seq<Pixel>)
    requires Legal(c, tw, th)
    ensures |p| == tw * th
  {
    match c
    case Raw(px) => px
    case Solid(colour) => Repeat(colour, tw * th)
    case Packed(pal, idx) => Colours(pal, idx)
    case Rle(_, runs) => RunPixels(runs)
  }

  ghost function PixelBytes(px: seq<Pixel>): (d: bytes)
    ensures |d| == 3 * |px|
  {
    if |px| == 0 then [] else [px[0].b, px[0].g, px[0].r] + PixelBytes(px[1..])
  }

  // `n` as 255s and a remainder.
  ghost function LengthBytes(n: nat): bytes {
    if n >= 255 then [255] + LengthBytes(n - 255) else [n]
  }

  ghost function EncodeRun(pal: seq<Pixel>, r: RunCode): bytes
    requires GoodRun(pal, r) && |pal| <= 126
  {
    if |pal| == 0 then PixelBytes([r.colour]) + LengthBytes(r.n - 1)
    else if r.short then [r.index]
    else [128 + r.index] + LengthBytes(r.n - 1)
  }

  ghost function EncodeRuns(pal: seq<Pixel>, runs: seq<RunCode>): bytes
    requires |pal| <= 126 && forall i :: 0 <= i < |runs| ==> GoodRun(pal, runs[i])
  {
    if |runs| == 0 then [] else EncodeRun(pal, runs[0]) + EncodeRuns(pal, runs[1..])
  }

  lemma SmallIndices(pal: seq<Pixel>, idx: seq<nat>)
    requires 2 <= |pal| <= 16 && Names(pal, idx)
    ensures Fits(PackedBits(|pal|), idx)
  {
  }

  ghost function Encode(c: Code, tw: nat, th: nat): bytes
    requires Legal(c, tw, th)
  {
    match c
    case Raw(px) => [0] + PixelBytes(px)
    case Solid(colour) => [1] + PixelBytes([colour])
    case Packed(pal, idx) =>
      SmallIndices(pal, idx);
      [|pal|] + PixelBytes(pal) + PackRows(if |pal| == 2 then 1 else if |pal| <= 4 then 2 else 4, tw, th, idx)
    case Rle(pal, runs) => [128 + |pal|] + PixelBytes(pal) + EncodeRuns(pal, runs)
  }

  // ---- Round trip

  lemma {:induction false} PixelsRoundTrip(px: seq<Pixel>, rest: bytes)
    ensures CPixels(PixelBytes(px) + rest, |px|) == px
  {
    if |px| > 0 {
      PixelsRoundTrip(px[1..], rest);
      var d := PixelBytes(px) + rest;
      var tail := PixelBytes(px[1..]) + rest;
      assert d == [px[0].b, px[0].g, px[0].r] + tail;
      forall i | 0 <= i < |px|
        ensures CPixel(d, 3 * i) == px[i]
      {
        if i > 0 {
          assert CPixel(d, 3 * i) == CPixel(tail, 3 * (i - 1)) == CPixels(tail, |px| - 1)[i - 1];
        }
      }
    }
  }

  // Run lengths of any size survive.
  lemma {:induction false} LengthRoundTrip(n: nat, rest: bytes)
    ensures RunLength(LengthBytes(n) + rest) == Some((n, |LengthBytes(n)|))
  {
    if n >= 255 {
      LengthRoundTrip(n - 255, rest);
      assert (LengthBytes(n) + rest)[1..] == LengthBytes(n - 255) + rest;
    }
  }

  lemma PixelOne(c: Pixel)
    ensures PixelBytes([c]) == [c.b, c.g, c.r]
  {
    assert PixelBytes([c][1..]) == [];
  }

  lemma RunRoundTrip(pal: seq<Pixel>, r: RunCode, rest: bytes)
    requires |pal| <= 126 && GoodRun(pal, r)
    ensures NextRun(pal, EncodeRun(pal, r) + rest) == Some(Run(r.colour, r.n, |EncodeRun(pal, r)|))
  {
    hide LengthBytes, RunLength, PixelBytes;
    var d := EncodeRun(pal, r) + rest;
    var tail := LengthBytes(r.n - 1) + rest;
    LengthRoundTrip(r.n - 1, rest);
    if |pal| == 0 {
      PixelOne(r.colour);
      assert d == [r.colour.b, r.colour.g, r.colour.r] + tail && d[3..] == tail;
    } else if r.short {
      Small(r.index, |pal|);
      assert d == [r.index] + rest;
    } else {
      Small(r.index, |pal|);
      assert d == [128 + r.index] + tail && d[1..] == tail;
      assert (128 + r.index) % 128 == r.index;
    }
  }

  lemma {:induction false} RunsRoundTrip(pal: seq<Pixel>, runs: seq<RunCode>, rest: bytes)
    requires |pal| <= 126 && forall i :: 0 <= i < |runs| ==> GoodRun(pal, runs[i])
    ensures Runs(pal, EncodeRuns(pal, runs) + rest, |RunPixels(runs)|)
            == Tile(true, RunPixels(runs), |EncodeRuns(pal, runs)|)
  {
    hide NextRun, EncodeRun;
    if |runs| > 0 {
      var first, others := EncodeRun(pal, runs[0]), EncodeRuns(pal, runs[1..]);
      var d := EncodeRuns(pal, runs) + rest;
      Behind(first, others, rest);
      RunRoundTrip(pal, runs[0], others + rest);
      RunsRoundTrip(pal, runs[1..], rest);
      RunsStep(pal, d, |RunPixels(runs)|);
    }
  }

  lemma Behind(first: bytes, others: bytes, rest: bytes)
    ensures first + others + rest == first + (others + rest) && (first + others + rest)[|first|..] == others + rest
  {
  }

  // Runs() by one run.
  lemma RunsStep(pal: seq<Pixel>, d: bytes, left: nat)
    requires left > 0
    ensures var t, run := Runs(pal, d, left), NextRun(pal, d);
            if run.None? || run.value.n > left then t == BAD
            else
              var r := run.value;
              var rest := Runs(pal, d[r.used..], left - r.n);
              t == Tile(rest.ok, Repeat(r.colour, r.n) + rest.px, r.used + rest.used)
  {
    hide NextRun;
  }

  lemma FlatRoundTrip(pal: seq<Pixel>, idx: seq<nat>, tw: nat, th: nat, rest: bytes)
    requires 2 <= |pal| <= 16 && |idx| == tw * th && Names(pal, idx) && Fits(PackedBits(|pal|), idx)
    ensures var packed := PackRows(PackedBits(|pal|), tw, th, idx);
            DecodeFlat(pal, packed + rest, tw, th) == Tile(true, Colours(pal, idx), |packed|)
  {
    PackedRoundTrip(PackedBits(|pal|), tw, th, pal, idx, rest);
  }

  // A palette and what follows it are found where they were put.
  lemma HeaderRoundTrip(tag: byte, pal: seq<Pixel>, body: bytes)
    requires |pal| <= 126 && tag as int % 128 == |pal|
    ensures var d := [tag] + PixelBytes(pal) + body;
            && |d| >= 1 + 3 * |pal|
            && Palette(d[1..], |pal|) == pal
            && d[1 + 3 * |pal|..] == body
  {
    hide PixelBytes, CPixels;
    var d := [tag] + PixelBytes(pal) + body;
    assert d[1..] == PixelBytes(pal) + body;
    PixelsRoundTrip(pal, body);
  }

  // A tile is decoded from its palette and body.
  lemma TileOf(tag: byte, pal: seq<Pixel>, body: bytes, tw: nat, th: nat)
    requires |pal| <= 126 && tag as int % 128 == |pal|
    ensures var t := if tag >= 128 then Runs(pal, body, tw * th) else DecodeFlat(pal, body, tw, th);
            DecodeTile([tag] + PixelBytes(pal) + body, tw, th) == Tile(t.ok, t.px, 1 + 3 * |pal| + t.used)
  {
    hide Runs, DecodeFlat, Palette;
    HeaderRoundTrip(tag, pal, body);
  }

  lemma RawRoundTrip(px: seq<Pixel>, tw: nat, th: nat, rest: bytes)
    requires |px| == tw * th
    ensures DecodeTile([0] + PixelBytes(px) + rest, tw, th) == Tile(true, px, 1 + 3 * |px|)
  {
    hide DecodeTile, CPixels;
    TileOf(0, [], PixelBytes(px) + rest, tw, th);
    assert [0] + PixelBytes(px) + rest == [0] + PixelBytes([]) + (PixelBytes(px) + rest);
    PixelsRoundTrip(px, rest);
  }

  lemma SolidRoundTrip(colour: Pixel, tw: nat, th: nat, rest: bytes)
    ensures DecodeTile([1] + PixelBytes([colour]) + rest, tw, th) == Tile(true, Repeat(colour, tw * th), 4)
  {
    hide DecodeTile;
    TileOf(1, [colour], rest, tw, th);
  }

  lemma PackedTileRoundTrip(pal: seq<Pixel>, idx: seq<nat>, tw: nat, th: nat, rest: bytes)
    requires 2 <= |pal| <= 16 && |idx| == tw * th && Names(pal, idx) && Fits(PackedBits(|pal|), idx)
    ensures var code := [|pal|] + PixelBytes(pal) + PackRows(PackedBits(|pal|), tw, th, idx);
            DecodeTile(code + rest, tw, th) == Tile(true, Colours(pal, idx), |code|)
  {
    hide DecodeTile, DecodeFlat, PackRows, Colours;
    var head, packed := [|pal|] + PixelBytes(pal), PackRows(PackedBits(|pal|), tw, th, idx);
    TileOf(|pal|, pal, packed + rest, tw, th);
    assert head + packed + rest == head + (packed + rest);
    FlatRoundTrip(pal, idx, tw, th, rest);
  }

  lemma RleRoundTrip(pal: seq<Pixel>, runs: seq<RunCode>, tw: nat, th: nat, rest: bytes)
    requires |pal| <= 126 && (forall i :: 0 <= i < |runs| ==> GoodRun(pal, runs[i])) && |RunPixels(runs)| == tw * th
    ensures var code := [128 + |pal|] + PixelBytes(pal) + EncodeRuns(pal, runs);
            DecodeTile(code + rest, tw, th) == Tile(true, RunPixels(runs), |code|)
  {
    hide DecodeTile, Runs, EncodeRuns, RunPixels;
    var head, coded := [128 + |pal|] + PixelBytes(pal), EncodeRuns(pal, runs);
    TileOf(128 + |pal|, pal, coded + rest, tw, th);
    assert head + coded + rest == head + (coded + rest);
    RunsRoundTrip(pal, runs, rest);
  }

  // Decoding any legal code of a tile gives the pixels it stands for and uses
  // exactly its bytes.
  lemma TileRoundTrip(c: Code, tw: nat, th: nat, rest: bytes)
    requires Legal(c, tw, th)
    ensures DecodeTile(Encode(c, tw, th) + rest, tw, th) == Tile(true, Meaning(c, tw, th), |Encode(c, tw, th)|)
  {
    match c
    case Raw(px) => RawRoundTrip(px, tw, th, rest);
    case Solid(colour) => SolidRoundTrip(colour, tw, th, rest);
    case Packed(pal, idx) =>
      SmallIndices(pal, idx);
      PackedTileRoundTrip(pal, idx, tw, th, rest);
    case Rle(pal, runs) => RleRoundTrip(pal, runs, tw, th, rest);
  }

  // ---- What does not decode

  lemma {:induction false} LengthIgnores(d: bytes, e: bytes)
    requires RunLength(d).Some?
    ensures RunLength(d + e) == RunLength(d)
  {
    if d[0] == 255 {
      LengthIgnores(d[1..], e);
      assert (d + e)[1..] == d[1..] + e;
    }
  }

  lemma RunIgnores(pal: seq<Pixel>, d: bytes, e: bytes)
    requires NextRun(pal, d).Some?
    ensures NextRun(pal, d + e) == NextRun(pal, d)
  {
    hide RunLength;
    var head := if |pal| == 0 then 3 else 1;
    assert (d + e)[head..] == d[head..] + e;
    if |pal| == 0 || d[0] >= 128 {
      LengthIgnores(d[head..], e);
    }
  }

  lemma {:induction false} RunsIgnore(pal: seq<Pixel>, d: bytes, e: bytes, left: nat)
    requires Runs(pal, d, left).ok
    ensures Runs(pal, d + e, left) == Runs(pal, d, left)
    decreases left
  {
    hide NextRun;
    if left > 0 {
      var r := NextRun(pal, d).value;
      RunIgnores(pal, d, e);
      assert (d + e)[r.used..] == d[r.used..] + e;
      RunsIgnore(pal, d[r.used..], e, left - r.n);
    }
  }

  lemma {:induction false} RowsIgnore(bits: nat, w: nat, h: nat, pal: seq<Pixel>, d: bytes, e: bytes)
    requires Width(bits) && |pal| > 0 && |d| >= RowBytes(bits, w) * h
    ensures UnpackRows(bits, w, h, pal, d + e) == UnpackRows(bits, w, h, pal, d)
    decreases h
  {
    hide RowBytes, UnpackRow;
    if h > 0 {
      var n := RowBytes(bits, w);
      RowsSplit(n, h);
      RowIgnores(bits, w, pal, d, e);
      assert (d + e)[n..] == d[n..] + e;
      RowsIgnore(bits, w, h - 1, pal, d[n..], e);
    }
  }

  lemma RowIgnores(bits: nat, w: nat, pal: seq<Pixel>, d: bytes, e: bytes)
    requires Width(bits) && |pal| > 0 && |d| >= RowBytes(bits, w)
    ensures UnpackRow(bits, w, pal, d + e) == UnpackRow(bits, w, pal, d)
  {
    forall x | 0 <= x < w
      ensures UnpackRow(bits, w, pal, d + e)[x] == UnpackRow(bits, w, pal, d)[x]
    {
      ByteOfBelow(bits, w, x);
      assert (d + e)[ByteOf(bits, x)] == d[ByteOf(bits, x)];
    }
  }

  lemma FlatIgnores(pal: seq<Pixel>, d: bytes, e: bytes, tw: nat, th: nat)
    requires DecodeFlat(pal, d, tw, th).ok
    ensures DecodeFlat(pal, d + e, tw, th) == DecodeFlat(pal, d, tw, th)
  {
    hide UnpackRows, RowBytes;
    if |pal| == 0 {
      assert CPixels(d + e, tw * th) == CPixels(d, tw * th);
    } else if |pal| > 1 {
      RowsIgnore(PackedBits(|pal|), tw, th, pal, d, e);
    }
  }

  // A tile that decodes is not affected by what follows it.
  lemma TileIgnores(d: bytes, e: bytes, tw: nat, th: nat)
    requires DecodeTile(d, tw, th).ok
    ensures DecodeTile(d + e, tw, th) == DecodeTile(d, tw, th)
  {
    hide Runs, DecodeFlat;
    var size := d[0] as int % 128;
    var start := 1 + 3 * Entries(size);
    var pal := Palette(d[1..], size);
    assert (d + e)[0] == d[0] && (d + e)[1..] == d[1..] + e && (d + e)[start..] == d[start..] + e;
    assert Palette(d[1..] + e, size) == pal;
    if d[0] >= 128 {
      RunsIgnore(pal, d[start..], e, tw * th);
    } else {
      FlatIgnores(pal, d[start..], e, tw, th);
    }
  }

  // A tile cut short anywhere does not decode.
  lemma CutTileFails(c: Code, tw: nat, th: nat, k: nat)
    requires Legal(c, tw, th) && k < |Encode(c, tw, th)|
    ensures !DecodeTile(Encode(c, tw, th)[..k], tw, th).ok
  {
    hide DecodeTile, Encode, Legal, Meaning;
    var b := Encode(c, tw, th);
    if DecodeTile(b[..k], tw, th).ok {
      TileIgnores(b[..k], b[k..], tw, th);
      assert b[..k] + b[k..] == b && b + [] == b;
      TileRoundTrip(c, tw, th, []);
    }
  }

  // Nor do runs of which one goes past the tile's end.
  lemma {:induction false} LongRunFails(pal: seq<Pixel>, runs: seq<RunCode>, last: RunCode, left: nat, rest: bytes)
    requires |pal| <= 126 && GoodRun(pal, last) && forall i :: 0 <= i < |runs| ==> GoodRun(pal, runs[i])
    requires |RunPixels(runs)| < left < |RunPixels(runs)| + last.n
    ensures !Runs(pal, EncodeRuns(pal, runs) + (EncodeRun(pal, last) + rest), left).ok
    decreases |runs|
  {
    hide NextRun, EncodeRun;
    var tail := EncodeRun(pal, last) + rest;
    var d := EncodeRuns(pal, runs) + tail;
    RunsStep(pal, d, left);
    if |runs| == 0 {
      assert d == tail;
      RunRoundTrip(pal, last, rest);
    } else {
      var first, others := EncodeRun(pal, runs[0]), EncodeRuns(pal, runs[1..]);
      Behind(first, others, tail);
      RunRoundTrip(pal, runs[0], others + tail);
      LongRunFails(pal, runs[1..], last, left - runs[0].n, rest);
    }
  }

  // One code for each tile from the cursor on, each standing for what `want`
  // has there.
  ghost predicate Depicts(codes: seq<Code>, want: Image, r: Rect, tx: nat, ty: nat)
    requires want.Ok() && want.Covers(r) && Cursor(r.w, r.h, 64, tx, ty)
    decreases r.h - ty, r.w - tx
  {
    if ty >= r.h then codes == []
    else
      var t := TileAt(r.w, r.h, 64, tx, ty).Moved(r.x, r.y);
      && codes != []
      && Legal(codes[0], t.w, t.h)
      && Meaning(codes[0], t.w, t.h) == Read(want, t)
      && Depicts(codes[1..], want, r, NextX(r.w, 64, tx), NextY(r.w, 64, tx, ty))
  }

  ghost function EncodeFrom(codes: seq<Code>, want: Image, r: Rect, tx: nat, ty: nat): bytes
    requires want.Ok() && want.Covers(r) && Cursor(r.w, r.h, 64, tx, ty)
    requires Depicts(codes, want, r, tx, ty)
    decreases r.h - ty, r.w - tx
  {
    if ty >= r.h then []
    else
      var t := TileAt(r.w, r.h, 64, tx, ty);
      Encode(codes[0], t.w, t.h) + EncodeFrom(codes[1..], want, r, NextX(r.w, 64, tx), NextY(r.w, 64, tx, ty))
  }

  lemma {:induction false} DecodeUndoesEncode(codes: seq<Code>, img: Image, want: Image, r: Rect, tx: nat, ty: nat,
      rest: bytes)
    requires img.Ok() && want.Ok() && SameSize(img, want) && img.Covers(r) && Cursor(r.w, r.h, 64, tx, ty)
    requires Depicts(codes, want, r, tx, ty)
    ensures var res := DecodeFrom(img, r, tx, ty, EncodeFrom(codes, want, r, tx, ty) + rest);
            res.0 && PaintedFrom(res.1, img, want, r, 64, tx, ty)
    decreases r.h - ty, r.w - tx
  {
    hide DecodeTile, Encode, Meaning, Legal, Paint, Read, PaintedFrom;
    if ty >= r.h {
      PaintedNone(img, want, r, 64, tx, ty);
    } else {
      var t := TileAt(r.w, r.h, 64, tx, ty).Moved(r.x, r.y);
      var nx, ny := NextX(r.w, 64, tx), NextY(r.w, 64, tx, ty);
      var first, others := Encode(codes[0], t.w, t.h), EncodeFrom(codes[1..], want, r, nx, ny) + rest;
      var d := EncodeFrom(codes, want, r, tx, ty) + rest;
      assert d == first + others;
      assert d[|first|..] == others;
      TileRoundTrip(codes[0], t.w, t.h, others);
      var mid := Paint(img, t, Read(want, t));
      DecodeUndoesEncode(codes[1..], mid, want, r, nx, ny, rest);
      assert DecodeFrom(img, r, tx, ty, d) == DecodeFrom(mid, r, nx, ny, others);
      PaintTileThenRest(DecodeFrom(img, r, tx, ty, d).1, img, want, r, 64, tx, ty);
    }
  }

  // The ZRLE round trip: for every target image and every legal choice of
  // code per tile, decoding writes exactly the target into the rectangle.
  lemma ZrleRoundTrip(codes: seq<Code>, img: Image, want: Image, r: Rect, rest: bytes)
    requires img.Ok() && want.Ok() && SameSize(img, want) && img.Covers(r) && r.w > 0 && r.h > 0
    requires Depicts(codes, want, r, 0, 0)
    ensures DecodeRect(img, r, EncodeFrom(codes, want, r, 0, 0) + rest) == (true, Overlay(img, r, want))
  {
    DecodeUndoesEncode(codes, img, want, r, 0, 0, rest);
    PaintedAll(DecodeRect(img, r, EncodeFrom(codes, want, r, 0, 0) + rest).1, img, want, r, 64);
  }

  // A rectangle cut short anywhere does not decode.
  lemma {:induction false} CutRectFails(codes: seq<Code>, img: Image, want: Image, r: Rect, tx: nat, ty: nat, k: nat)
    requires img.Ok() && want.Ok() && SameSize(img, want) && img.Covers(r) && Cursor(r.w, r.h, 64, tx, ty)
    requires Depicts(codes, want, r, tx, ty) && k < |EncodeFrom(codes, want, r, tx, ty)|
    ensures !DecodeFrom(img, r, tx, ty, EncodeFrom(codes, want, r, tx, ty)[..k]).0
    decreases r.h - ty, r.w - tx
  {
    hide DecodeTile, Encode, Meaning, Legal, Paint, Read;
    var t := TileAt(r.w, r.h, 64, tx, ty).Moved(r.x, r.y);
    var nx, ny := NextX(r.w, 64, tx), NextY(r.w, 64, tx, ty);
    var first, others := Encode(codes[0], t.w, t.h), EncodeFrom(codes[1..], want, r, nx, ny);
    var d := EncodeFrom(codes, want, r, tx, ty)[..k];
    if k < |first| {
      assert d == first[..k];
      CutTileFails(codes[0], t.w, t.h, k);
    } else {
      var rest := others[..k - |first|];
      assert d == first + rest && d[|first|..] == rest;
      TileRoundTrip(codes[0], t.w, t.h, rest);
      CutRectFails(codes[1..], Paint(img, t, Read(want, t)), want, r, nx, ny, k - |first|);
    }
  }

  // Every image has codes, such as a raw one for each tile.
  ghost function RawCodes(want: Image, r: Rect, tx: nat, ty: nat): (codes: seq<Code>)
    requires want.Ok() && want.Covers(r) && Cursor(r.w, r.h, 64, tx, ty)
    ensures Depicts(codes, want, r, tx, ty)
    decreases r.h - ty, r.w - tx
  {
    if ty >= r.h then []
    else
      var t := TileAt(r.w, r.h, 64, tx, ty).Moved(r.x, r.y);
      [Raw(Read(want, t))] + RawCodes(want, r, NextX(r.w, 64, tx), NextY(r.w, 64, tx, ty))
  }

  lemma EveryImageArrives(img: Image, want: Image, r: Rect, rest: bytes)
    requires img.Ok() && want.Ok() && SameSize(img, want) && img.Covers(r) && r.w > 0 && r.h > 0
    ensures exists d :: DecodeRect(img, r, d + rest) == (true, Overlay(img, r, want))
  {
    var codes := RawCodes(want, r, 0, 0);
    ZrleRoundTrip(codes, img, want, r, rest);
    var d := EncodeFrom(codes, want, r, 0, 0);
    assert DecodeRect(img, r, d + rest) == (true, Overlay(img, r, want));
  }
}
