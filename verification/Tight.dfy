// Tight rectangles (VncClient::stepTight): reading one rectangle's bytes, the
// filters that turn them into pixels, and the encoders they undo.
module Tight {
  import opened Bytes
  import opened Images
  import opened Packing

  // ---- Reading

  datatype Filter = Copy | Indexed(pal: seq<Pixel>) | Gradient

  // Filtered pixel data, as sent or still compressed.
  datatype Data = Plain(d: bytes) | Zipped(z: bytes)

  datatype Op =
    | Fill(colour: Pixel)
    | Picture(jpeg: bytes)
    | Basic(stream: nat, filter: Filter, data: Data)

  datatype Parsed = Short | BadKind | BadFilter | Ready(op: Op, used: nat)

  // One to three bytes, seven bits each, low bits first; the third byte counts
  // whole. The value and the bytes it took.
  function CompactLength(b: bytes, at: nat): (r: Option<(nat, nat)>)
    ensures r.Some? ==> 1 <= r.value.1 <= 3 && at + r.value.1 <= |b|
  {
    if |b| < at + 1 then None
    else if b[at] < 128 then Some((b[at] as int, 1))
    else if |b| < at + 2 then None
    else
      var two := b[at] as int % 128 + b[at + 1] as int % 128 * 128;
      if b[at + 1] < 128 then Some((two, 2))
      else if |b| < at + 3 then None
      else Some((two + b[at + 2] as int * 16384, 3))
  }

  function PixelOf(b: bytes, at: nat): Pixel
    requires at + 3 <= |b|
  {
    Rgb(b[at], b[at + 1], b[at + 2])
  }

  function PixelsOf(b: bytes, n: nat): (p: seq<Pixel>)
    requires 3 * n <= |b|
    ensures |p| == n
  {
    seq(n, i requires 0 <= i < n => PixelOf(b, 3 * i))
  }

  function IndexBits(pal: seq<Pixel>): (bits: nat)
    ensures Width(bits)
  {
    if |pal| == 2 then 1 else 8
  }

  function RowSize(f: Filter, w: nat): nat {
    match f
    case Indexed(pal) => RowBytes(IndexBits(pal), w)
    case _ => w * 3
  }

  // The filter and where it ends.
  function ParseFilter(b: bytes): (r: Option<Option<(Filter, nat)>>)
    requires |b| > 0
    ensures r.Some? && r.value.Some? ==>
              var (f, pos) := r.value.value; pos <= |b| && (f.Indexed? ==> |f.pal| > 0)
  {
    var explicit := Bit(b[0], 0x40);
    if explicit && |b| < 2 then None
    else
      var id: int := if explicit then b[1] else 0;
      var pos := if explicit then 2 else 1;
      if id == 1 then
        if |b| < pos + 1 then None
        else
          var n := b[pos] as int + 1;
          if |b| < pos + 1 + n * 3 then None
          else Some(Some((Indexed(PixelsOf(b[pos + 1..], n)), pos + 1 + n * 3)))
      else if id > 2 then Some(None)
      else Some(Some((if id == 2 then Gradient else Copy, pos)))
  }

  const SMALL := 12

  function ParseBasic(b: bytes, w: nat, h: nat): (p: Parsed)
    requires |b| > 0
    ensures p.Ready? ==> 0 < p.used <= |b| && GoodOp(p.op, w, h)
  {
    match ParseFilter(b)
    case None => Short
    case Some(None) => BadFilter
    case Some(Some((f, pos))) =>
      var stream := b[0] as int / 16 % 4;
      var size := RowSize(f, w) * h;
      if size < SMALL then
        if |b| < pos + size then Short
        else Ready(Basic(stream, f, Plain(b[pos..pos + size])), pos + size)
      else
        match CompactLength(b, pos)
        case None => Short
        case Some((length, n)) =>
          if |b| < pos + n + length then Short
          else Ready(Basic(stream, f, Zipped(b[pos + n..pos + n + length])), pos + n + length)
  }

  predicate GoodOp(op: Op, w: nat, h: nat) {
    op.Basic? ==>
      && op.stream < 4
      && (op.filter.Indexed? ==> |op.filter.pal| > 0)
      && (op.data.Plain? ==> |op.data.d| == RowSize(op.filter, w) * h)
  }

  function Parse(b: bytes, w: nat, h: nat): (p: Parsed)
    requires |b| > 0
    ensures p.Ready? ==> 0 < p.used <= |b| && GoodOp(p.op, w, h)
  {
    var kind := b[0] as int / 16;
    if kind == 8 then
      if |b| < 4 then Short else Ready(Fill(PixelOf(b, 1)), 4)
    else if kind == 9 then
      match CompactLength(b, 1)
      case None => Short
      case Some((length, n)) =>
        if |b| < 1 + n + length then Short else Ready(Picture(b[1 + n..1 + n + length]), 1 + n + length)
    else if kind > 9 then BadKind
    else ParseBasic(b, w, h)
  }

  lemma CompactLengthExtends(b: bytes, e: bytes, at: nat)
    requires CompactLength(b, at).Some?
    ensures CompactLength(b + e, at) == CompactLength(b, at)
  {
  }

  lemma FilterExtends(b: bytes, e: bytes)
    requires |b| > 0 && ParseFilter(b).Some?
    ensures ParseFilter(b + e) == ParseFilter(b)
  {
    var d := b + e;
    var explicit := Bit(b[0], 0x40);
    assert d[0] == b[0];
    var pos := if explicit then 2 else 1;
    if explicit {
      assert d[1] == b[1];
    }
    if explicit && b[1] == 1 {
      var n := b[pos] as int + 1;
      assert d[pos] == b[pos];
      assert PixelsOf(d[pos + 1..], n) == PixelsOf(b[pos + 1..], n);
    }
  }

  lemma BasicExtends(b: bytes, e: bytes, w: nat, h: nat)
    requires |b| > 0 && !ParseBasic(b, w, h).Short?
    ensures ParseBasic(b + e, w, h) == ParseBasic(b, w, h)
  {
    hide ParseFilter, CompactLength, RowSize;
    var d := b + e;
    assert d[0] == b[0];
    FilterExtends(b, e);
    if ParseFilter(b).value.Some? {
      var (f, pos) := ParseFilter(b).value.value;
      var size := RowSize(f, w) * h;
      if size < SMALL {
        assert d[pos..pos + size] == b[pos..pos + size];
      } else {
        CompactLengthExtends(b, e, pos);
        var (length, n) := CompactLength(b, pos).value;
        assert d[pos + n..pos + n + length] == b[pos + n..pos + n + length];
      }
    }
  }

  // A rectangle that is all here, or already known to be bad, is not affected
  // by what follows it.
  lemma ParseExtends(b: bytes, e: bytes, w: nat, h: nat)
    requires |b| > 0 && !Parse(b, w, h).Short?
    ensures Parse(b + e, w, h) == Parse(b, w, h)
  {
    hide ParseBasic, CompactLength;
    var d := b + e;
    assert d[0] == b[0];
    var kind := b[0] as int / 16;
    if kind == 8 {
      assert PixelOf(d, 1) == PixelOf(b, 1);
    } else if kind == 9 {
      CompactLengthExtends(b, e, 1);
      var (length, n) := CompactLength(b, 1).value;
      assert d[1 + n..1 + n + length] == b[1 + n..1 + n + length];
    } else if kind < 8 {
      BasicExtends(b, e, w, h);
    }
  }

  // ---- Filters

  function Clamp(v: int): (c: byte) { Max(0, Min(v, 255)) }

  // The gradient prediction for component `i` of a picture with `stride`
  // components to the row, from the components before it.
  function Predicted(before: bytes, stride: nat): byte
    requires stride > 0
  {
    var i := |before|;
    var inner, lower := i % stride >= 3, i >= stride;
    var left: int := if inner && i >= 3 then before[i - 3] else 0;
    var above: int := if lower then before[i - stride] else 0;
    var aboveLeft: int := if inner && lower && i >= stride + 3 then before[i - stride - 3] else 0;
    Clamp(left + above - aboveLeft)
  }

  function Ungradient(d: bytes, stride: nat, done: bytes): (o: bytes)
    requires stride > 0 && |done| <= |d|
    ensures |o| == |d|
    decreases |d| - |done|
  {
    if |done| == |d| then done
    else Ungradient(d, stride, done + [(d[|done|] as int + Predicted(done, stride)) % 256])
  }

  lemma UngradientOne(d: bytes, stride: nat, done: bytes)
    requires stride > 0 && |done| < |d|
    ensures Ungradient(d, stride, done)
            == Ungradient(d, stride, done + [(d[|done|] as int + Predicted(done, stride)) % 256])
  {
  }

  ghost predicate IsBytes(s: seq<int>) { forall i :: 0 <= i < |s| ==> 0 <= s[i] < 256 }

  lemma ThreeBytes(w: nat, h: nat)
    ensures w * 3 * h == 3 * (w * h)
  {
  }

  // The pixels that filtered data stands for.
  function Pixels(f: Filter, w: nat, h: nat, d: bytes): (p: seq<Pixel>)
    requires |d| == RowSize(f, w) * h && (f.Indexed? ==> |f.pal| > 0)
    ensures |p| == w * h
  {
    ThreeBytes(w, h);
    match f
    case Copy => PixelsOf(d, w * h)
    case Indexed(pal) => UnpackRows(IndexBits(pal), w, h, pal, d)
    case Gradient => if w == 0 then PixelsOf(d, w * h) else PixelsOf(Ungradient(d, w * 3, []), w * h)
  }

  // ---- Encoders and round trips

  ghost function CompactBytes(n: nat): bytes
    requires n < 0x40_0000
  {
    if n < 128 then [n]
    else if n < 16384 then [n % 128 + 128, n / 128]
    else [n % 128 + 128, n / 128 % 128 + 128, n / 16384]
  }

  // Every length below 2^22 survives.
  lemma CompactRoundTrip(n: nat, pre: bytes, rest: bytes)
    requires n < 0x40_0000
    ensures CompactLength(pre + CompactBytes(n) + rest, |pre|) == Some((n, |CompactBytes(n)|))
  {
    var b, c := pre + CompactBytes(n) + rest, CompactBytes(n);
    assert forall i :: 0 <= i < |c| ==> b[|pre| + i] == c[i];
    if n >= 16384 {
      assert n == n % 128 + n / 128 % 128 * 128 + n / 16384 * 16384;
    }
  }

  ghost function RgbBytes(px: seq<Pixel>): (d: bytes)
    ensures |d| == 3 * |px|
  {
    if |px| == 0 then [] else [px[0].r, px[0].g, px[0].b] + RgbBytes(px[1..])
  }

  lemma {:induction false} PixelsRoundTrip(px: seq<Pixel>, rest: bytes)
    ensures PixelsOf(RgbBytes(px) + rest, |px|) == px
  {
    if |px| > 0 {
      PixelsRoundTrip(px[1..], rest);
      var d, tail := RgbBytes(px) + rest, RgbBytes(px[1..]) + rest;
      assert d == [px[0].r, px[0].g, px[0].b] + tail;
      forall i | 0 <= i < |px|
        ensures PixelOf(d, 3 * i) == px[i]
      {
        if i > 0 {
          assert PixelOf(d, 3 * i) == PixelOf(tail, 3 * (i - 1)) == PixelsOf(tail, |px| - 1)[i - 1];
        }
      }
    }
  }

  // Component `c` of the pixel at (x, y) of a raster `w` wide; nothing outside.
  ghost function Component(px: seq<Pixel>, w: nat, x: int, y: int, c: nat): byte
    requires c < 3 && x < w
  {
    if x < 0 || y < 0 || y * w + x >= |px| then 0
    else
      NotNegative(x, y, w);
      PartOf(px[y * w + x], c)
  }

  ghost function PartOf(p: Pixel, c: nat): byte
    requires c < 3
  {
    if c == 0 then p.r else if c == 1 then p.g else p.b
  }

  lemma NotNegative(x: int, y: int, w: nat)
    requires x >= 0 && y >= 0
    ensures y * w + x >= 0
  {
  }

  // What its neighbours make a component likely to be.
  ghost function Guess(px: seq<Pixel>, w: nat, x: int, y: int, c: nat): (g: byte)
    requires c < 3 && x < w
  {
    var sum := Component(px, w, x - 1, y, c) as int + Component(px, w, x, y - 1, c) - Component(px, w, x - 1, y - 1, c);
    if sum < 0 then 0 else if sum > 255 then 255 else sum
  }

  // What an encoder sends: each component's distance from that.
  ghost function Residuals(px: seq<Pixel>, w: nat): (d: bytes)
    requires w > 0
    ensures |d| == 3 * |px|
  {
    seq(3 * |px|, i requires 0 <= i < 3 * |px| =>
      (Component(px, w, i / 3 % w, i / 3 / w, i % 3) as int - Guess(px, w, i / 3 % w, i / 3 / w, i % 3)) % 256)
  }

  lemma {:induction false} RgbAt(px: seq<Pixel>, k: nat, c: nat)
    requires k < |px| && c < 3
    ensures RgbBytes(px)[3 * k + c] == PartOf(px[k], c)
  {
    var head := [px[0].r, px[0].g, px[0].b];
    if k == 0 {
      assert RgbBytes(px)[c] == head[c];
    } else {
      RgbAt(px[1..], k - 1, c);
      assert RgbBytes(px)[3 * k + c] == RgbBytes(px[1..])[3 * (k - 1) + c];
    }
  }

  // Where the client finds a component, and the line above it.
  lemma Position(w: nat, x: nat, y: nat, c: nat)
    requires x < w && c < 3
    ensures var k, stride := y * w + x, w * 3;
            && k >= 0 && (3 * k + c) % stride == 3 * x + c
            && (3 * k + c >= stride <==> y > 0)
            && (y > 0 ==> k >= w && k - w == (y - 1) * w + x)
  {
    var k, stride := y * w + x, w * 3;
    assert 3 * k + c == y * stride + (3 * x + c);
    DivMod(3 * x + c, y, stride);
    if y > 0 {
      assert y * stride == (y - 1) * stride + stride;
      assert (y - 1) * stride >= 0;
    }
  }

  // A neighbour `dx` to the left and `dy` above.
  lemma Neighbour(px: seq<Pixel>, w: nat, x: nat, y: nat, c: nat, dx: nat, dy: nat)
    requires x < w && c < 3 && dx <= 1 && dy <= 1 && dx + dy > 0 && 0 <= y * w + x < |px|
    ensures x >= dx && y >= dy ==>
              var before := RgbBytes(px)[..3 * (y * w + x) + c];
              var at := |before| - dy * (w * 3) - 3 * dx;
              0 <= at < |before| && Component(px, w, x - dx, y - dy, c) == before[at]
    ensures x < dx || y < dy ==> Component(px, w, x - dx, y - dy, c) == 0
  {
    if x >= dx && y >= dy {
      Back(w, x, y, c, dx, dy);
      RgbAt(px, (y - dy) * w + (x - dx), c);
    }
  }

  lemma Back(w: nat, x: nat, y: nat, c: nat, dx: nat, dy: nat)
    requires x < w && c < 3 && dx <= 1 && dy <= 1 && x >= dx && y >= dy
    ensures 3 * (y * w + x) + c - dy * (w * 3) - 3 * dx == 3 * ((y - dy) * w + (x - dx)) + c >= 0
  {
    NotNegative(x - dx, y - dy, w);
  }

  // The client's prediction from the components before one is that of its
  // neighbours.
  lemma PredictsGuess(px: seq<Pixel>, w: nat, x: nat, y: nat, c: nat)
    requires x < w && c < 3 && 0 <= y * w + x < |px|
    ensures Predicted(RgbBytes(px)[..3 * (y * w + x) + c], w * 3) == Guess(px, w, x, y, c)
  {
    hide RgbBytes, Component;
    Position(w, x, y, c);
    Neighbour(px, w, x, y, c, 1, 0);
    Neighbour(px, w, x, y, c, 0, 1);
    Neighbour(px, w, x, y, c, 1, 1);
  }

  // The gradient filter reproduces every raster from its residuals.
  lemma GradientRoundTrip(px: seq<Pixel>, w: nat)
    requires w > 0
    ensures Ungradient(Residuals(px, w), w * 3, []) == RgbBytes(px)
  {
    var o := RgbBytes(px);
    UngradientFrom(px, w, 0);
    assert o[..0] == [];
  }

  lemma {:induction false} UngradientFrom(px: seq<Pixel>, w: nat, i: nat)
    requires w > 0 && i <= 3 * |px|
    ensures Ungradient(Residuals(px, w), w * 3, RgbBytes(px)[..i]) == RgbBytes(px)
    decreases 3 * |px| - i
  {
    hide Predicted, Residuals, RgbBytes, Ungradient;
    var o, d := RgbBytes(px), Residuals(px, w);
    if i < 3 * |px| {
      UngradientFrom(px, w, i + 1);
      ResidualAt(px, w, i);
      UndoesModulo(o[i], Predicted(o[..i], w * 3));
      UngradientOne(d, w * 3, o[..i]);
      assert o[..i + 1] == o[..i] + [o[i]];
    } else {
      assert o[..i] == o;
      UngradientNone(d, w * 3, o);
    }
  }

  lemma UngradientNone(d: bytes, stride: nat, done: bytes)
    requires stride > 0 && |done| == |d|
    ensures Ungradient(d, stride, done) == done
  {
  }

  lemma ResidualAt(px: seq<Pixel>, w: nat, i: nat)
    requires w > 0 && i < 3 * |px|
    ensures Residuals(px, w)[i] as int == (RgbBytes(px)[i] as int - Predicted(RgbBytes(px)[..i], w * 3)) % 256
  {
    hide Predicted, RgbBytes, Guess;
    var k, c := i / 3, i % 3;
    var x, y := k % w, k / w;
    assert k == y * w + x;
    RgbAt(px, k, c);
    PredictsGuess(px, w, x, y, c);
  }

  lemma UndoesModulo(v: byte, p: byte)
    ensures ((v as int - p) % 256 + p) % 256 == v as int
  {
  }

  // How an encoder may filter a raster of `w` by `h` pixels. The copy filter
  // may be named in the rectangle or left out.
  datatype Code = Copied(px: seq<Pixel>, named: bool) | Coded(pal: seq<Pixel>, idx: seq<nat>) | Graded(px: seq<Pixel>)

  ghost predicate Legal(c: Code, w: nat, h: nat) {
    match c
    case Copied(px, _) => |px| == w * h
    case Coded(pal, idx) => 1 <= |pal| <= 256 && |idx| == w * h && Names(pal, idx)
    case Graded(px) => |px| == w * h
  }

  ghost function Meaning(c: Code): seq<Pixel>
    requires c.Coded? ==> Names(c.pal, c.idx)
  {
    match c
    case Copied(px, _) => px
    case Coded(pal, idx) => Colours(pal, idx)
    case Graded(px) => px
  }

  ghost function FilterOf(c: Code): Filter {
    match c
    case Copied(_, _) => Copy
    case Coded(pal, _) => Indexed(pal)
    case Graded(_) => Gradient
  }

  ghost function Filtered(c: Code, w: nat, h: nat): (d: bytes)
    requires Legal(c, w, h)
    ensures |d| == RowSize(FilterOf(c), w) * h
  {
    ThreeBytes(w, h);
    match c
    case Copied(px, _) => RgbBytes(px)
    case Coded(pal, idx) => PackRows(if |pal| == 2 then 1 else 8, w, h, idx)
    case Graded(px) => if w == 0 then RgbBytes(px) else Residuals(px, w)
  }

  // Every filter is undone.
  lemma FilterRoundTrip(c: Code, w: nat, h: nat)
    requires Legal(c, w, h)
    ensures Pixels(FilterOf(c), w, h, Filtered(c, w, h)) == Meaning(c)
  {
    ThreeBytes(w, h);
    match c
    case Copied(px, _) =>
      PixelsRoundTrip(px, []);
      assert RgbBytes(px) + [] == RgbBytes(px);
    case Coded(pal, idx) =>
      PackedRoundTrip(IndexBits(pal), w, h, pal, idx, []);
      var d := PackRows(IndexBits(pal), w, h, idx);
      assert d + [] == d;
    case Graded(px) =>
      PixelsRoundTrip(px, []);
      assert RgbBytes(px) + [] == RgbBytes(px);
      if w > 0 {
        GradientRoundTrip(px, w);
      }
  }

  // ---- A whole rectangle

  // The control byte: streams to reset, then the kind.
  ghost function Control(resets: nat, kind: nat): byte
    requires resets < 16 && kind < 16
  {
    resets + 16 * kind
  }

  ghost predicate Named(c: Code) { c.Copied? ==> c.named }

  ghost function FilterBytes(c: Code): bytes
    requires c.Coded? ==> 1 <= |c.pal| <= 256
  {
    match c
    case Copied(_, named) => if named then [0] else []
    case Coded(pal, _) => [1, |pal| - 1] + RgbBytes(pal)
    case Graded(_) => [2]
  }

  // The data as it goes on the wire; `z` is its compressed form.
  ghost function DataBytes(d: bytes, z: bytes): bytes
    requires |z| < 0x40_0000
  {
    if |d| < 12 then d else CompactBytes(|z|) + z
  }

  ghost function Encode(c: Code, w: nat, h: nat, stream: nat, resets: nat, z: bytes): bytes
    requires Legal(c, w, h) && stream < 4 && resets < 16 && |z| < 0x40_0000
  {
    [Control(resets, stream + if Named(c) then 4 else 0)] + FilterBytes(c) + DataBytes(Filtered(c, w, h), z)
  }

  lemma FilterHeader(c: Code, control: byte, rest: bytes)
    requires (c.Coded? ==> 1 <= |c.pal| <= 256) && (Bit(control, 0x40) <==> Named(c))
    ensures ParseFilter([control] + FilterBytes(c) + rest) == Some(Some((FilterOf(c), 1 + |FilterBytes(c)|)))
  {
    if c.Coded? {
      PaletteHeader(c, control, rest);
    } else {
      var b := [control] + FilterBytes(c) + rest;
      assert b[0] == control;
    }
  }

  lemma PaletteHeader(c: Code, control: byte, rest: bytes)
    requires c.Coded? && 1 <= |c.pal| <= 256 && Bit(control, 0x40)
    ensures ParseFilter([control] + FilterBytes(c) + rest) == Some(Some((FilterOf(c), 1 + |FilterBytes(c)|)))
  {
    hide RgbBytes, PixelsOf, Bit;
    var b := [control] + FilterBytes(c) + rest;
    assert b[0] == control;
    assert b[1] == 1 && b[2] == |c.pal| - 1;
    assert b[3..] == RgbBytes(c.pal) + rest;
    PixelsRoundTrip(c.pal, rest);
  }

  lemma ControlParts(resets: nat, stream: nat, named: bool)
    requires resets < 16 && stream < 4
    ensures var control := Control(resets, stream + if named then 4 else 0);
            control as int / 16 == stream + (if named then 4 else 0) && control as int / 16 % 4 == stream
              && (Bit(control, 0x40) <==> named)
  {
  }

  lemma DataRoundTrip(head: bytes, f: Filter, d: bytes, z: bytes, w: nat, h: nat, rest: bytes)
    requires |head| > 0 && |z| < 0x40_0000 && |d| == RowSize(f, w) * h
    requires ParseFilter(head + (DataBytes(d, z) + rest)) == Some(Some((f, |head|)))
    ensures ParseBasic(head + (DataBytes(d, z) + rest), w, h)
            == Ready(Basic(head[0] as int / 16 % 4, f, if |d| < 12 then Plain(d) else Zipped(z)),
              |head| + |DataBytes(d, z)|)
  {
    hide ParseFilter, CompactLength, CompactBytes, RowSize;
    var b := head + (DataBytes(d, z) + rest);
    assert b[0] == head[0];
    if |d| < 12 {
      assert b[|head|..|head| + |d|] == d;
    } else {
      CompactRoundTrip(|z|, head, z + rest);
      assert b == head + CompactBytes(|z|) + (z + rest);
      var n := |CompactBytes(|z|)|;
      assert b[|head| + n..|head| + n + |z|] == z;
    }
  }

  lemma FilteredSize(c: Code, w: nat, h: nat)
    requires Legal(c, w, h)
    ensures |Filtered(c, w, h)| == RowSize(FilterOf(c), w) * h && (c.Coded? ==> 1 <= |c.pal| <= 256)
  {
  }

  // Reading an encoded rectangle finds its filter, stream and data, and uses
  // exactly its bytes.
  lemma RectangleRoundTrip(c: Code, w: nat, h: nat, stream: nat, resets: nat, z: bytes, rest: bytes)
    requires Legal(c, w, h) && stream < 4 && resets < 16 && |z| < 0x40_0000
    ensures var b, d := Encode(c, w, h, stream, resets, z), Filtered(c, w, h);
            Parse(b + rest, w, h)
            == Ready(Basic(stream, FilterOf(c), if |d| < 12 then Plain(d) else Zipped(z)), |b|)
  {
    hide ParseFilter, ParseBasic, FilterBytes, FilterOf, DataBytes, Filtered, Control, RowSize, Legal;
    FilteredSize(c, w, h);
    var kind := stream + if Named(c) then 4 else 0;
    var control := Control(resets, kind);
    var data := DataBytes(Filtered(c, w, h), z);
    var head := [control] + FilterBytes(c);
    assert head + data + rest == head + (data + rest);
    ControlParts(resets, stream, Named(c));
    FilterHeader(c, control, data + rest);
    DataRoundTrip(head, FilterOf(c), Filtered(c, w, h), z, w, h, rest);
  }

  lemma FillRoundTrip(colour: Pixel, w: nat, h: nat, resets: nat, rest: bytes)
    requires resets < 16
    ensures Parse([Control(resets, 8)] + RgbBytes([colour]) + rest, w, h) == Ready(Fill(colour), 4)
  {
    var b := [Control(resets, 8)] + RgbBytes([colour]) + rest;
    assert b[0] as int / 16 == 8 && RgbBytes([colour]) == [colour.r, colour.g, colour.b];
    assert b[1] == colour.r && b[2] == colour.g && b[3] == colour.b;
  }

  // A picture is found with its own bytes, whatever they are.
  lemma PictureRoundTrip(data: bytes, w: nat, h: nat, resets: nat, rest: bytes)
    requires |data| < 0x40_0000 && resets < 16
    ensures var b := [Control(resets, 9)] + CompactBytes(|data|) + data;
            Parse(b + rest, w, h) == Ready(Picture(data), |b|)
  {
    hide CompactLength, CompactBytes;
    var head, n := [Control(resets, 9)], |CompactBytes(|data|)|;
    var b := head + CompactBytes(|data|) + data + rest;
    CompactRoundTrip(|data|, head, data + rest);
    assert b == head + CompactBytes(|data|) + (data + rest);
    assert b[0] as int / 16 == 9;
    assert b[1 + n..1 + n + |data|] == data;
  }
}
