// Rows of small palette indices packed into bytes, most significant bits
// first, as Tight's one-bit palette and ZRLE's packed palettes store them.
module Packing {
  import opened Bytes
  import opened Images

  // One, two, four or eight bits to a pixel.
  predicate Width(bits: nat) { bits == 1 || bits == 2 || bits == 4 || bits == 8 }

  function PerByte(bits: nat): nat
    requires Width(bits)
  {
    if bits == 1 then 8 else if bits == 2 then 4 else if bits == 4 then 2 else 1
  }

  // How many palette entries an index of that many bits can name.
  function Nameable(bits: nat): nat
    requires Width(bits)
  {
    if bits == 1 then 2 else if bits == 2 then 4 else if bits == 4 then 16 else 256
  }

  // Bytes in a row of `w` pixels: `(w * bits + 7) / 8`.
  function RowBytes(bits: nat, w: nat): nat
    requires Width(bits)
  {
    (w + PerByte(bits) - 1) / PerByte(bits)
  }

  // Pixel `x` of a row sits in byte `x * bits / 8` ...
  function ByteOf(bits: nat, x: nat): nat
    requires Width(bits)
  {
    if bits == 1 then x / 8 else if bits == 2 then x / 4 else if bits == 4 then x / 2 else x
  }

  // ... above the `8 - bits * (x % (8 / bits) + 1)` low bits of that byte.
  function SlotOf(bits: nat, x: nat): (slot: nat)
    requires Width(bits)
    ensures slot < PerByte(bits)
  {
    if bits == 1 then x % 8 else if bits == 2 then x % 4 else if bits == 4 then x % 2 else 0
  }

  lemma ByteOfBelow(bits: nat, w: nat, x: nat)
    requires Width(bits) && x < w
    ensures ByteOf(bits, x) < RowBytes(bits, w)
  {
  }

  function Digit(bits: nat, b: byte, slot: nat): (i: nat)
    requires Width(bits) && slot < PerByte(bits)
    ensures i < Nameable(bits)
  {
    var v: int := b;
    if bits == 8 then v
    else if bits == 4 then (if slot == 0 then v / 16 else v % 16)
    else if bits == 2 then
      (if slot == 0 then v / 64 else if slot == 1 then v / 16 % 4 else if slot == 2 then v / 4 % 4 else v % 4)
    else if slot == 0 then v / 128 else if slot == 1 then v / 64 % 2
    else if slot == 2 then v / 32 % 2 else if slot == 3 then v / 16 % 2
    else if slot == 4 then v / 8 % 2 else if slot == 5 then v / 4 % 2
    else if slot == 6 then v / 2 % 2 else v % 2
  }

  function Unpack(bits: nat, row: bytes, x: nat): (i: nat)
    requires Width(bits) && ByteOf(bits, x) < |row|
    ensures i < Nameable(bits)
  {
    Digit(bits, row[ByteOf(bits, x)], SlotOf(bits, x))
  }

  // One row of palette colours.
  function UnpackRow(bits: nat, w: nat, pal: seq<Pixel>, row: bytes): (p: seq<Pixel>)
    requires Width(bits) && |pal| > 0 && |row| >= RowBytes(bits, w)
    ensures |p| == w
  {
    seq(w, x requires 0 <= x < w =>
      ByteOfBelow(bits, w, x);
      pal[Unpack(bits, row, x) % |pal|])
  }

  // `h` rows, each starting on a byte boundary.
  function UnpackRows(bits: nat, w: nat, h: nat, pal: seq<Pixel>, d: bytes): (p: seq<Pixel>)
    requires Width(bits) && |pal| > 0 && |d| >= RowBytes(bits, w) * h
    ensures |p| == w * h
    decreases h
  {
    if h == 0 then []
    else
      RowsSplit(RowBytes(bits, w), h);
      UnpackRow(bits, w, pal, d) + UnpackRows(bits, w, h - 1, pal, d[RowBytes(bits, w)..])
  }

  lemma RowsSplit(rowBytes: nat, h: nat)
    requires h > 0
    ensures rowBytes * h == rowBytes + rowBytes * (h - 1)
    ensures rowBytes * h >= rowBytes
  {
  }

  // ---- The encoder

  function Padded(vals: seq<nat>, i: nat): nat { if i < |vals| then vals[i] else 0 }

  ghost predicate Fits(bits: nat, vals: seq<nat>)
    requires Width(bits)
  {
    forall i :: 0 <= i < |vals| ==> vals[i] < Nameable(bits)
  }

  ghost function PackByte(bits: nat, v: seq<nat>): (b: byte)
    requires Width(bits) && Fits(bits, v) && 0 < |v| <= PerByte(bits)
  {
    if bits == 8 then v[0]
    else if bits == 4 then 16 * v[0] + Padded(v, 1)
    else if bits == 2 then 64 * v[0] + 16 * Padded(v, 1) + 4 * Padded(v, 2) + Padded(v, 3)
    else 128 * v[0] + 64 * Padded(v, 1) + 32 * Padded(v, 2) + 16 * Padded(v, 3)
         + 8 * Padded(v, 4) + 4 * Padded(v, 5) + 2 * Padded(v, 6) + Padded(v, 7)
  }

  ghost function PackRow(bits: nat, vals: seq<nat>): (d: bytes)
    requires Width(bits) && Fits(bits, vals)
    ensures |d| == RowBytes(bits, |vals|)
  {
    if |vals| == 0 then []
    else
      var k := Min(PerByte(bits), |vals|);
      [PackByte(bits, vals[..k])] + PackRow(bits, vals[k..])
  }

  lemma EightDigits(a: nat, b: nat, c: nat, d: nat, e: nat, f: nat, g: nat, h: nat)
    requires a < 2 && b < 2 && c < 2 && d < 2 && e < 2 && f < 2 && g < 2 && h < 2
    ensures var v := 128 * a + 64 * b + 32 * c + 16 * d + 8 * e + 4 * f + 2 * g + h;
            && v / 128 == a && v / 64 % 2 == b && v / 32 % 2 == c && v / 16 % 2 == d
            && v / 8 % 2 == e && v / 4 % 2 == f && v / 2 % 2 == g && v % 2 == h
  {
    var v := 128 * a + 64 * b + 32 * c + 16 * d + 8 * e + 4 * f + 2 * g + h;
    assert v / 2 == 64 * a + 32 * b + 16 * c + 8 * d + 4 * e + 2 * f + g;
    assert v / 4 == 32 * a + 16 * b + 8 * c + 4 * d + 2 * e + f;
    assert v / 8 == 16 * a + 8 * b + 4 * c + 2 * d + e;
    assert v / 16 == 8 * a + 4 * b + 2 * c + d;
    assert v / 32 == 4 * a + 2 * b + c;
    assert v / 64 == 2 * a + b;
  }

  lemma FourDigits(a: nat, b: nat, c: nat, d: nat)
    requires a < 4 && b < 4 && c < 4 && d < 4
    ensures var v := 64 * a + 16 * b + 4 * c + d;
            v / 64 == a && v / 16 % 4 == b && v / 4 % 4 == c && v % 4 == d
  {
    var v := 64 * a + 16 * b + 4 * c + d;
    assert v / 16 == 4 * a + b;
    assert v / 4 == 16 * a + 4 * b + c;
  }

  lemma DigitOfEight(v: seq<nat>, slot: nat)
    requires Fits(1, v) && slot < |v| <= 8
    ensures Digit(1, PackByte(1, v), slot) == v[slot]
  {
    var a, b, c, d := v[0], Padded(v, 1), Padded(v, 2), Padded(v, 3);
    var e, f, g, h := Padded(v, 4), Padded(v, 5), Padded(v, 6), Padded(v, 7);
    EightDigits(a, b, c, d, e, f, g, h);
    assert v[slot] == [a, b, c, d, e, f, g, h][slot];
  }

  lemma DigitOfPacked(bits: nat, v: seq<nat>, slot: nat)
    requires Width(bits) && Fits(bits, v) && slot < |v| <= PerByte(bits)
    ensures Digit(bits, PackByte(bits, v), slot) == v[slot]
  {
    hide Digit, PackByte;
    if bits == 1 {
      DigitOfEight(v, slot);
    } else if bits == 2 {
      DigitOfFour(v, slot);
    } else {
      DigitOfTwo(bits, v, slot);
    }
  }

  lemma DigitOfFour(v: seq<nat>, slot: nat)
    requires Fits(2, v) && slot < |v| <= 4
    ensures Digit(2, PackByte(2, v), slot) == v[slot]
  {
    FourDigits(v[0], Padded(v, 1), Padded(v, 2), Padded(v, 3));
  }

  lemma DigitOfTwo(bits: nat, v: seq<nat>, slot: nat)
    requires (bits == 4 || bits == 8) && Fits(bits, v) && slot < |v| <= PerByte(bits)
    ensures Digit(bits, PackByte(bits, v), slot) == v[slot]
  {
  }

  lemma UnpackShift(bits: nat, first: byte, tail: bytes, x: nat)
    requires Width(bits) && x >= PerByte(bits) && ByteOf(bits, x - PerByte(bits)) < |tail|
    ensures ByteOf(bits, x) < |tail| + 1 && Unpack(bits, [first] + tail, x) == Unpack(bits, tail, x - PerByte(bits))
  {
    assert ByteOf(bits, x) == ByteOf(bits, x - PerByte(bits)) + 1;
  }

  lemma UnpackFirst(bits: nat, first: byte, tail: bytes, x: nat)
    requires Width(bits) && x < PerByte(bits)
    ensures ByteOf(bits, x) == 0 && Unpack(bits, [first] + tail, x) == Digit(bits, first, x)
  {
  }

  lemma {:induction false} UnpackPacked(bits: nat, vals: seq<nat>, x: nat, rest: bytes)
    requires Width(bits) && Fits(bits, vals) && x < |vals|
    ensures ByteOf(bits, x) < |PackRow(bits, vals) + rest|
    ensures Unpack(bits, PackRow(bits, vals) + rest, x) == vals[x]
    decreases |vals|
  {
    hide PackByte, Digit, Unpack, ByteOf, RowBytes;
    var k := Min(PerByte(bits), |vals|);
    var first, tail := PackByte(bits, vals[..k]), PackRow(bits, vals[k..]) + rest;
    assert PackRow(bits, vals) + rest == [first] + tail;
    if x < PerByte(bits) {
      UnpackFirst(bits, first, tail, x);
      DigitOfPacked(bits, vals[..k], x);
    } else {
      UnpackPacked(bits, vals[k..], x - k, rest);
      UnpackShift(bits, first, tail, x);
    }
  }

  ghost function PackRows(bits: nat, w: nat, h: nat, vals: seq<nat>): (d: bytes)
    requires Width(bits) && Fits(bits, vals) && |vals| == w * h
    ensures |d| == RowBytes(bits, w) * h
    decreases h
  {
    if h == 0 then []
    else
      RowsSplit(w, h);
      RowsSplit(RowBytes(bits, w), h);
      PackRow(bits, vals[..w]) + PackRows(bits, w, h - 1, vals[w..])
  }

  ghost predicate Names(pal: seq<Pixel>, vals: seq<nat>) { forall i :: 0 <= i < |vals| ==> vals[i] < |pal| }

  // The colours a sequence of palette indices stands for.
  ghost function Colours(pal: seq<Pixel>, vals: seq<nat>): (p: seq<Pixel>)
    requires Names(pal, vals)
    ensures |p| == |vals|
  {
    seq(|vals|, i requires 0 <= i < |vals| => pal[vals[i]])
  }

  lemma Small(i: nat, n: nat)
    requires i < n
    ensures i % n == i
  {
  }

  lemma UnpackPackedRow(bits: nat, pal: seq<Pixel>, vals: seq<nat>, rest: bytes)
    requires Width(bits) && Fits(bits, vals) && |pal| > 0 && Names(pal, vals)
    ensures UnpackRow(bits, |vals|, pal, PackRow(bits, vals) + rest) == Colours(pal, vals)
  {
    var row := PackRow(bits, vals) + rest;
    var got, want := UnpackRow(bits, |vals|, pal, row), Colours(pal, vals);
    forall x | 0 <= x < |vals|
      ensures got[x] == want[x]
    {
      UnpackPacked(bits, vals, x, rest);
      Small(vals[x], |pal|);
    }
  }

  lemma UnpackRowsStep(bits: nat, w: nat, h: nat, pal: seq<Pixel>, first: bytes, others: bytes)
    requires Width(bits) && |pal| > 0 && h > 0 && |first| == RowBytes(bits, w)
            && |others| >= RowBytes(bits, w) * (h - 1)
    ensures |first + others| >= RowBytes(bits, w) * h
    ensures UnpackRows(bits, w, h, pal, first + others)
            == UnpackRow(bits, w, pal, first + others) + UnpackRows(bits, w, h - 1, pal, others)
  {
    RowsSplit(RowBytes(bits, w), h);
    assert (first + others)[|first|..] == others;
  }

  lemma ColoursSplit(pal: seq<Pixel>, vals: seq<nat>, k: nat)
    requires Names(pal, vals) && k <= |vals|
    ensures Colours(pal, vals) == Colours(pal, vals[..k]) + Colours(pal, vals[k..])
  {
  }

  // Packed palette pixels decode to the colours that were packed.
  lemma {:induction false} PackedRoundTrip(bits: nat, w: nat, h: nat, pal: seq<Pixel>, vals: seq<nat>, rest: bytes)
    requires Width(bits) && Fits(bits, vals) && |vals| == w * h && |pal| > 0 && Names(pal, vals)
    ensures UnpackRows(bits, w, h, pal, PackRows(bits, w, h, vals) + rest) == Colours(pal, vals)
    decreases h
  {
    hide RowBytes, UnpackRow, PackRow, Colours;
    if h > 0 {
      RowsSplit(w, h);
      var first, others := PackRow(bits, vals[..w]), PackRows(bits, w, h - 1, vals[w..]) + rest;
      assert PackRows(bits, w, h, vals) + rest == first + others;
      UnpackPackedRow(bits, pal, vals[..w], others);
      UnpackRowsStep(bits, w, h, pal, first, others);
      PackedRoundTrip(bits, w, h - 1, pal, vals[w..], rest);
      ColoursSplit(pal, vals, w);
    }
  }
}
