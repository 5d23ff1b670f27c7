// One row of the hex dump (HexDumpWidget): an offset, the bytes in hex and the
// bytes as text.
module HexRows {
  import opened Bytes

  const PER_ROW := 16

  datatype Grouping = OneByte | Word | Dword

  function Size(g: Grouping): (n: nat)
    ensures n > 0
  {
    match g case OneByte => 1 case Word => 2 case Dword => 4
  }

  // ---- Numbers

  type nibble = x: int | 0 <= x < 16

  function Digit(n: nibble): char { "0123456789ABCDEF"[n] }

  predicate IsHex(c: char) { '0' <= c <= '9' || 'A' <= c <= 'F' }

  function Val(c: char): nibble
    requires IsHex(c)
  {
    if c <= '9' then (c - '0') as int else (c - 'A') as int + 10
  }

  lemma DigitReads(n: nibble)
    ensures IsHex(Digit(n)) && Val(Digit(n)) == n
  {
    assert Digit(n) == if n < 10 then '0' + n as char else 'A' + (n - 10) as char by {
      if
      case n == 0 || n == 1 || n == 2 || n == 3 || n == 4 =>
      case n == 5 || n == 6 || n == 7 || n == 8 || n == 9 =>
      case n == 10 || n == 11 || n == 12 || n == 13 || n == 14 || n == 15 =>
    }
  }

  function Digits(n: nat): (s: string)
    ensures |s| > 0
  {
    if n < 16 then [Digit(n)] else Digits(n / 16) + [Digit(n % 16)]
  }

  // At least eight digits.
  function Offset(n: nat): string {
    var s := Digits(n);
    Repeat('0', Max(0, 8 - |s|)) + s
  }

  ghost predicate AllHex(s: string) { forall i :: 0 <= i < |s| ==> IsHex(s[i]) }

  function Value(s: string): nat
    requires AllHex(s)
  {
    if |s| == 0 then 0 else Value(s[..|s| - 1]) * 16 + Val(s[|s| - 1])
  }

  lemma {:induction false} DigitsRead(n: nat)
    ensures AllHex(Digits(n)) && Value(Digits(n)) == n
  {
    DigitReads(n % 16);
    if n >= 16 {
      DigitsRead(n / 16);
      var s := Digits(n);
      assert s[..|s| - 1] == Digits(n / 16);
    } else {
      assert Digits(n)[..0] == [];
    }
  }

  lemma {:induction false} ZerosRead(k: nat, s: string)
    requires AllHex(s)
    ensures AllHex(Repeat('0', k) + s) && Value(Repeat('0', k) + s) == Value(s)
    decreases k + |s|
  {
    var z := Repeat('0', k) + s;
    if |s| > 0 {
      ZerosRead(k, s[..|s| - 1]);
      assert z[..|z| - 1] == Repeat('0', k) + s[..|s| - 1];
    } else if k > 0 {
      ZerosRead(k - 1, s);
      assert z[..|z| - 1] == Repeat('0', k - 1) + s;
    } else {
      assert z == s;
    }
  }

  lemma {:induction false} DigitsCount(n: nat, k: nat, bound: nat)
    requires k > 0 && bound == Power(k)
    ensures n < bound ==> |Digits(n)| <= k
    ensures n >= bound ==> |Digits(n)| > k && Digits(n)[0] != '0'
    decreases k
  {
    assert n >= bound <==> n / 16 >= Power(k - 1);
    if n >= 16 {
      if k > 1 {
        DigitsCount(n / 16, k - 1, Power(k - 1));
      } else {
        FirstNotZero(n);
      }
    }
  }

  ghost function Power(k: nat): (p: nat)
    ensures p > 0
  {
    if k == 0 then 1 else 16 * Power(k - 1)
  }

  lemma {:induction false} FirstNotZero(n: nat)
    requires n > 0
    ensures Digits(n)[0] != '0'
  {
    if n >= 16 {
      FirstNotZero(n / 16);
    }
  }

  // Eight digits as long as they do, and no zero too many.
  lemma OffsetReads(n: nat)
    ensures AllHex(Offset(n)) && Value(Offset(n)) == n && |Offset(n)| >= 8
    ensures if n < 0x1_0000_0000 then |Offset(n)| == 8 else Offset(n)[0] != '0'
  {
    DigitsCount(n, 8, 0x1_0000_0000);
    DigitsRead(n);
    ZerosRead(Max(0, 8 - |Digits(n)|), Digits(n));
  }

  // ---- The hex column

  function Pair(b: byte): (s: string)
    ensures |s| == 2
  {
    [Digit(b / 16), Digit(b % 16)]
  }

  // A space after each group but the last.
  function Gap(b: bytes, i: nat, g: Grouping): string { if i + 1 < |b| && (i + 1) % Size(g) == 0 then " " else "" }

  // From the i-th byte on.
  function HexFrom(b: bytes, i: nat, g: Grouping): string
    requires i <= |b|
    decreases |b| - i
  {
    if i == |b| then ""
    else Pair(b[i]) + Gap(b, i, g) + HexFrom(b, i + 1, g)
  }

  method HexPartOnly(b: bytes, g: Grouping) returns (hex: string)
    ensures hex == HexFrom(b, 0, g)
  {
    hide Pair, Digit;
    hex := "";
    var i := 0;
    while i < |b|
      invariant 0 <= i <= |b|
      invariant hex + HexFrom(b, i, g) == HexFrom(b, 0, g)
    {
      Joined(hex, Pair(b[i]), Gap(b, i, g), HexFrom(b, i + 1, g));
      hex := hex + Pair(b[i]);
      var last := i == |b| - 1;
      if !last && (i + 1) % Size(g) == 0 {
        hex := hex + " ";
      } else {
        assert hex + "" == hex;
      }
      i := i + 1;
    }
  }

  lemma Joined(a: string, b: string, c: string, d: string)
    ensures a + (b + c + d) == a + b + c + d && b + c + d == b + (c + d)
  {
  }

  function FullWidth(g: Grouping): nat { |HexFrom(Repeat(0, PER_ROW), 0, g)| }

  // A shorter row is no wider.
  lemma {:induction false} Narrower(b: bytes, c: bytes, i: nat, g: Grouping)
    requires i <= |b| <= |c|
    ensures |HexFrom(b, i, g)| <= |HexFrom(c, i, g)|
    decreases |b| - i
  {
    hide Pair, Gap;
    if i < |b| {
      Narrower(b, c, i + 1, g);
      GapNarrower(b, c, i, g);
    }
  }

  lemma GapNarrower(b: bytes, c: bytes, i: nat, g: Grouping)
    requires i < |b| <= |c|
    ensures |Gap(b, i, g)| <= |Gap(c, i, g)|
  {
  }

  // ---- The text column

  function Shown(b: byte): char { if 0x20 <= b < 0x7f then b as char else '.' }

  function Ascii(b: bytes): (s: string)
    ensures |s| == |b|
  {
    seq(|b|, i requires 0 <= i < |b| => Shown(b[i]))
  }

  // ---- The row

  function LeftJustified(s: string, width: nat): (r: string)
    ensures |r| == Max(|s|, width)
  {
    s + Repeat(' ', Max(0, width - |s|))
  }

  function Row(offset: nat, b: bytes, g: Grouping): string {
    Offset(offset) + "  " + LeftJustified(HexFrom(b, 0, g), FullWidth(g)) + "  |" + Ascii(b) + "|"
  }

  method FormatRow(offset: nat, b: bytes, g: Grouping) returns (row: string)
    ensures row == Row(offset, b, g)
  {
    var ascii := "";
    for i := 0 to |b|
      invariant ascii == Ascii(b)[..i]
    {
      ascii := ascii + [Shown(b[i])];
    }
    assert ascii == Ascii(b);
    var hex := HexPartOnly(b, g);
    var full := HexPartOnly(Repeat(0, PER_ROW), g);
    row := Offset(offset) + "  " + LeftJustified(hex, |full|) + "  |" + ascii + "|";
  }

  // ---- Reading a row back, whatever its grouping

  function LeadingHex(s: string): (r: string)
    ensures AllHex(r) && |r| <= |s|
  {
    if |s| > 0 && IsHex(s[0]) then [s[0]] + LeadingHex(s[1..]) else ""
  }

  function ReadHex(s: string): bytes {
    if |s| >= 2 && IsHex(s[0]) && IsHex(s[1]) then [Val(s[0]) * 16 + Val(s[1])] + ReadHex(s[2..])
    else if |s| >= 2 && s[0] == ' ' && IsHex(s[1]) then ReadHex(s[1..])
    else []
  }

  function ReadRow(s: string): (nat, bytes) {
    var digits := LeadingHex(s);
    (Value(digits), if |s| < |digits| + 2 then [] else ReadHex(s[|digits| + 2..]))
  }

  lemma {:induction false} LeadingReads(d: string, rest: string)
    requires AllHex(d) && |rest| > 0 && !IsHex(rest[0])
    ensures LeadingHex(d + rest) == d
  {
    if |d| == 0 {
      assert d + rest == rest;
    } else {
      LeadingReads(d[1..], rest);
      assert (d + rest)[1..] == d[1..] + rest && (d + rest)[0] == d[0];
    }
  }

  lemma PairReads(b: byte)
    ensures IsHex(Pair(b)[0]) && IsHex(Pair(b)[1]) && Val(Pair(b)[0]) * 16 + Val(Pair(b)[1]) == b
  {
    DigitReads(b / 16);
    DigitReads(b % 16);
  }

  lemma {:induction false} HexReads(b: bytes, i: nat, g: Grouping, rest: string)
    requires i <= |b| && |rest| >= 2 && rest[0] == ' ' && rest[1] == ' '
    ensures ReadHex(HexFrom(b, i, g) + rest) == b[i..]
    decreases |b| - i
  {
    hide ReadHex, Val, Pair, Size;
    if i == |b| {
      assert HexFrom(b, i, g) + rest == rest;
      Stops(rest);
    } else {
      HexReads(b, i + 1, g, rest);
      PairReads(b[i]);
      var next := HexFrom(b, i + 1, g) + rest;
      Joined(Pair(b[i]), Gap(b, i, g), HexFrom(b, i + 1, g), rest);
      Joined(Gap(b, i, g), HexFrom(b, i + 1, g), rest, "");
      assert HexFrom(b, i, g) + rest == Pair(b[i]) + (Gap(b, i, g) + next);
      if Gap(b, i, g) == " " {
        PairReads(b[i + 1]);
        FirstDigit(b, i + 1, g, rest);
        Skips(next);
      } else {
        assert Gap(b, i, g) + next == next;
      }
      ReadsPair(Pair(b[i]), Gap(b, i, g) + next);
    }
  }

  lemma FirstDigit(b: bytes, i: nat, g: Grouping, rest: string)
    requires i < |b|
    ensures var s := HexFrom(b, i, g) + rest; |s| > 0 && s[0] == Pair(b[i])[0]
  {
  }

  lemma ReadsPair(p: string, s: string)
    requires |p| == 2 && IsHex(p[0]) && IsHex(p[1])
    ensures ReadHex(p + s) == [Val(p[0]) * 16 + Val(p[1])] + ReadHex(s)
  {
    assert (p + s)[2..] == s;
  }

  lemma Skips(s: string)
    requires |s| >= 1 && IsHex(s[0])
    ensures ReadHex(" " + s) == ReadHex(s)
  {
    assert (" " + s)[1..] == s;
  }

  lemma Stops(s: string)
    requires |s| >= 2 && s[0] == ' ' && s[1] == ' '
    ensures ReadHex(s) == []
  {
  }

  // A row reads back to its offset and its bytes; so grouping only spaces them.
  lemma RowReads(offset: nat, b: bytes, g: Grouping)
    ensures ReadRow(Row(offset, b, g)) == (offset, b)
  {
    hide LeadingHex, ReadHex, HexFrom, Ascii, Offset, Value, FullWidth;
    OffsetReads(offset);
    var hex, tail := HexFrom(b, 0, g), Repeat(' ', Max(0, FullWidth(g) - |HexFrom(b, 0, g)|)) + "  |" + Ascii(b) + "|";
    assert tail[0] == ' ' && tail[1] == ' ';
    HexReads(b, 0, g, tail);
    var row := Row(offset, b, g);
    RowSplits(Offset(offset), hex, Repeat(' ', Max(0, FullWidth(g) - |hex|)), Ascii(b));
    assert row == Offset(offset) + ("  " + (hex + tail));
    LeadingReads(Offset(offset), "  " + (hex + tail));
    assert row[|Offset(offset)| + 2..] == hex + tail;
  }

  lemma RowSplits(o: string, h: string, p: string, a: string)
    ensures o + "  " + (h + p) + "  |" + a + "|" == o + ("  " + (h + (p + "  |" + a + "|")))
  {
  }

  // ---- How a row looks

  // Bytes to a group, and the width of sixteen of them.
  function PerGroup(g: Grouping): nat { if g.OneByte? then 1 else if g.Word? then 2 else 4 }

  function ColumnWidth(g: Grouping): nat { if g.OneByte? then 47 else if g.Word? then 39 else 35 }

  // Where byte `k` is in a hex column that begins with byte `i`.
  function Place(i: nat, k: nat, g: Grouping): int { 2 * (k - i) + (k / PerGroup(g) - i / PerGroup(g)) }

  // Two digits and, after each whole group but the last byte, one space.
  lemma {:induction false} HexAt(b: bytes, i: nat, g: Grouping, k: nat)
    requires i <= k < |b|
    ensures var s, at := HexFrom(b, i, g), Place(i, k, g);
            && 0 <= at && at + 2 <= |s| && s[at..at + 2] == Pair(b[k])
            && (GapAfter(b, k, g) ==> at + 2 < |s| && s[at + 2] == ' ')
            && (k + 1 == |b| ==> |s| == at + 2)
    decreases |b| - i
  {
    hide Pair, Place, GapAfter, HexFrom, Gap;
    var head, rest := Pair(b[i]) + Gap(b, i, g), HexFrom(b, i + 1, g);
    HexCons(b, i, g);
    NextPlace(i, k, g);
    GapIs(b, i, g);
    if k > i {
      GapInside(b, i, k, g);
      HexAt(b, i + 1, g, k);
      Shifted(head, rest, Place(i + 1, k, g), GapAfter(b, k, g));
    }
  }

  predicate GapAfter(b: bytes, k: nat, g: Grouping) { k + 1 < |b| && (k + 1) % PerGroup(g) == 0 }

  lemma HexCons(b: bytes, i: nat, g: Grouping)
    requires i < |b|
    ensures HexFrom(b, i, g) == Pair(b[i]) + Gap(b, i, g) + HexFrom(b, i + 1, g)
    ensures i + 1 == |b| ==> HexFrom(b, i + 1, g) == ""
  {
  }

  lemma GapIs(b: bytes, i: nat, g: Grouping)
    ensures Gap(b, i, g) == if GapAfter(b, i, g) then " " else ""
    ensures i + 1 == |b| ==> !GapAfter(b, i, g)
  {
  }

  lemma GapInside(b: bytes, i: nat, k: nat, g: Grouping)
    requires i < k < |b|
    ensures GapAfter(b, i, g) <==> (i + 1) % PerGroup(g) == 0
  {
  }

  lemma NextPlace(i: nat, k: nat, g: Grouping)
    requires i <= k
    ensures k > i ==> Place(i, k, g) == Place(i + 1, k, g) + 2 + if (i + 1) % PerGroup(g) == 0 then 1 else 0
    ensures k == i ==> Place(i, k, g) == 0
  {
  }

  lemma Shifted(head: string, rest: string, at: int, gap: bool)
    requires 0 <= at && at + 2 <= |rest| && (gap ==> at + 2 < |rest|)
    ensures var s := head + rest;
            s[|head| + at..|head| + at + 2] == rest[at..at + 2] && (gap ==> s[|head| + at + 2] == rest[at + 2])
  {
  }

  lemma FullWidthIs(g: Grouping)
    ensures FullWidth(g) == ColumnWidth(g)
  {
    HexAt(Repeat(0, 16), 0, g, 15);
  }

  // Every character of a row of up to sixteen bytes: eight digits or more for
  // the offset, two spaces, the bytes by groups, blanks up to the width of a
  // whole row, and, between bars, the bytes as text with a dot for what is not
  // printable.
  ghost predicate Looks(row: string, o: nat, b: bytes, g: Grouping, hex: nat, w: nat) {
    Framed(row, o, b, hex, w) && ShowsBytes(row, o, b, g, hex)
  }

  ghost predicate Framed(row: string, o: nat, b: bytes, hex: nat, w: nat) {
    && hex <= w && |row| == o + 2 + w + 3 + |b| + 1
    && row[o] == ' ' && row[o + 1] == ' '
    && (forall p :: o + 2 + hex <= p < o + 2 + w ==> row[p] == ' ')
    && row[o + 2 + w] == ' ' && row[o + 2 + w + 1] == ' ' && row[o + 2 + w + 2] == '|'
    && (forall k :: 0 <= k < |b| ==> row[o + 2 + w + 3 + k] == if 32 <= b[k] <= 126 then b[k] as char else '.')
    && row[|row| - 1] == '|'
  }

  ghost predicate ShowsBytes(row: string, o: nat, b: bytes, g: Grouping, hex: nat) {
    && (forall k :: 0 <= k < |b| ==> ByteAt(row, o + 2, Place(0, k, g), b[k], hex))
    && (forall k :: 0 <= k < |b| && GapAfter(b, k, g) ==> GapAt(row, o + 2, Place(0, k, g) + 2, hex))
  }

  // Two digits of a column stand for that byte.
  ghost predicate ByteAt(s: string, start: nat, at: int, v: byte, hex: nat) {
    && 0 <= at && at + 2 <= hex && start + at + 2 <= |s|
    && IsHex(s[start + at]) && IsHex(s[start + at + 1]) && Val(s[start + at]) * 16 + Val(s[start + at + 1]) == v
  }

  ghost predicate GapAt(s: string, start: nat, at: int, hex: nat) {
    0 <= at < hex && start + at < |s| && s[start + at] == ' '
  }

  lemma RowLooks(offset: nat, b: bytes, g: Grouping)
    requires |b| <= 16
    ensures var hex := if |b| == 0 then 0 else Place(0, |b| - 1, g) + 2;
            && hex >= 0
            && Row(offset, b, g)[..|Offset(offset)|] == Offset(offset)
            && Looks(Row(offset, b, g), |Offset(offset)|, b, g, hex, ColumnWidth(g))
  {
    hide Offset, Pair, ColumnWidth, Place, GapAfter, HexFrom, FullWidth, Ascii, LeftJustified, Framed, ShowsBytes;
    var w, hex, text := ColumnWidth(g), HexFrom(b, 0, g), Ascii(b);
    FullWidthIs(g);
    HexWidth(b, g);
    RowFrame(Offset(offset), hex, w, text);
    RowText(Row(offset, b, g), |Offset(offset)|, b, |hex|, w);
    RowBytes(Row(offset, b, g), |Offset(offset)|, b, g);
  }

  lemma RowText(row: string, o: nat, b: bytes, hex: nat, w: nat)
    requires hex <= w && |row| == o + 2 + w + 3 + |b| + 1 && row[o] == ' ' && row[o + 1] == ' '
    requires forall p :: o + 2 + hex <= p < o + 2 + w ==> row[p] == ' '
    requires row[o + 2 + w] == ' ' && row[o + 2 + w + 1] == ' ' && row[o + 2 + w + 2] == '|'
    requires forall k :: 0 <= k < |b| ==> row[o + 2 + w + 3 + k] == Ascii(b)[k]
    requires row[|row| - 1] == '|'
    ensures Framed(row, o, b, hex, w)
  {
    assert forall k :: 0 <= k < |b| ==> Ascii(b)[k] == Shown(b[k]);
  }

  lemma RowBytes(row: string, o: nat, b: bytes, g: Grouping)
    requires var hex := HexFrom(b, 0, g); o + 2 + |hex| <= |row| && row[o + 2..o + 2 + |hex|] == hex
    ensures ShowsBytes(row, o, b, g, |HexFrom(b, 0, g)|)
  {
    hide Pair, Place, GapAfter, HexFrom, ByteAt, GapAt;
    var hex := HexFrom(b, 0, g);
    forall k | 0 <= k < |b|
      ensures ByteAt(row, o + 2, Place(0, k, g), b[k], |hex|)
      ensures GapAfter(b, k, g) ==> GapAt(row, o + 2, Place(0, k, g) + 2, |hex|)
    {
      HexAt(b, 0, g, k);
      PairIs(row, o + 2, hex, Place(0, k, g), b[k], GapAfter(b, k, g));
    }
  }

  lemma HexWidth(b: bytes, g: Grouping)
    requires |b| <= 16
    ensures |HexFrom(b, 0, g)| == (if |b| == 0 then 0 else Place(0, |b| - 1, g) + 2) <= FullWidth(g)
  {
    hide Place, GapAfter;
    Narrower(b, Repeat(0, 16), 0, g);
    if |b| > 0 {
      HexAt(b, 0, g, |b| - 1);
    }
  }

  // The parts of a row, each in its place.
  lemma RowFrame(o: string, hex: string, w: nat, text: string)
    requires |hex| <= w
    ensures var row := o + "  " + LeftJustified(hex, w) + "  |" + text + "|";
            var n := |o|;
            && |row| == n + 2 + w + 3 + |text| + 1 && row[..n] == o && row[n] == ' ' && row[n + 1] == ' '
            && row[n + 2..n + 2 + |hex|] == hex
            && (forall p :: n + 2 + |hex| <= p < n + 2 + w ==> row[p] == ' ')
            && row[n + 2 + w] == ' ' && row[n + 2 + w + 1] == ' ' && row[n + 2 + w + 2] == '|'
            && (forall k :: 0 <= k < |text| ==> row[n + 2 + w + 3 + k] == text[k])
            && row[|row| - 1] == '|'
  {
  }

  lemma PairIs(row: string, start: nat, hex: string, at: int, v: byte, gap: bool)
    requires start + |hex| <= |row| && row[start..start + |hex|] == hex
    requires 0 <= at && at + 2 <= |hex| && hex[at..at + 2] == Pair(v) && (gap ==> at + 2 < |hex| && hex[at + 2] == ' ')
    ensures ByteAt(row, start, at, v, |hex|) && (gap ==> GapAt(row, start, at + 2, |hex|))
  {
    PairReads(v);
    var p := hex[at..at + 2];
    assert p[0] == hex[at] == row[start + at] && p[1] == hex[at + 1] == row[start + at + 1];
  }

  // No line break in a row.
  ghost predicate OneLine(s: string) { |s| > 0 && '\n' !in s }

  lemma {:induction false} HexIsOneLine(b: bytes, i: nat, g: Grouping)
    requires i <= |b|
    ensures '\n' !in HexFrom(b, i, g)
    decreases |b| - i
  {
    hide Pair;
    if i < |b| {
      HexIsOneLine(b, i + 1, g);
      PairReads(b[i]);
    }
  }

  lemma RowIsOneLine(offset: nat, b: bytes, g: Grouping)
    ensures OneLine(Row(offset, b, g))
  {
    hide Offset, HexFrom, Ascii, FullWidth;
    OffsetIsOneLine(offset);
    HexIsOneLine(b, 0, g);
    TextIsOneLine(b);
    var hex := LeftJustified(HexFrom(b, 0, g), FullWidth(g));
    assert '\n' !in hex;
    NoBreaks(Offset(offset), hex, Ascii(b));
  }

  lemma OffsetIsOneLine(offset: nat)
    ensures '\n' !in Offset(offset) && |Offset(offset)| > 0
  {
    hide Offset;
    OffsetReads(offset);
  }

  lemma TextIsOneLine(b: bytes)
    ensures '\n' !in Ascii(b)
  {
  }

  lemma NoBreaks(o: string, hex: string, text: string)
    requires '\n' !in o && '\n' !in hex && '\n' !in text
    ensures '\n' !in o + "  " + hex + "  |" + text + "|"
  {
  }
}
