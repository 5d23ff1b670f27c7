// The live hex dump (HexDumpWidget): rows are added as bytes come and dropped
// from the front past a cap, yet the text is always that of a full rebuild.
module HexDump {
  import opened Bytes
  import opened HexRows

  const CAP := 1024 * 1024

  // ---- The text of some lines

  function Join(lines: seq<string>): string {
    if |lines| == 0 then "" else if |lines| == 1 then lines[0] else lines[0] + "\n" + Join(lines[1..])
  }

  ghost predicate Plain(lines: seq<string>) { forall i :: 0 <= i < |lines| ==> OneLine(lines[i]) }

  // appendPlainText(): on a line of its own unless the text is empty.
  function Appended(text: string, more: string): string { if text == "" then more else text + "\n" + more }

  // Selecting the first block and removing it, with the line break it leaves behind.
  function WithoutFirst(text: string): string {
    if |text| == 0 then "" else if text[0] == '\n' then text[1..] else WithoutFirst(text[1..])
  }

  lemma {:induction false} JoinAdds(a: seq<string>, b: seq<string>)
    requires Plain(a) && |b| > 0
    ensures Join(a + b) == Appended(Join(a), Join(b))
  {
    if |a| == 0 {
      assert a + b == b;
    } else {
      JoinAdds(a[1..], b);
      assert (a + b)[1..] == a[1..] + b && (a + b)[0] == a[0];
      if |a| > 1 {
        JoinIsEmpty(a[1..]);
        assert a[0] + "\n" + (Join(a[1..]) + "\n" + Join(b)) == a[0] + "\n" + Join(a[1..]) + "\n" + Join(b);
      }
    }
  }

  lemma JoinIsEmpty(a: seq<string>)
    requires Plain(a) && |a| > 0
    ensures Join(a) != ""
  {
    assert OneLine(a[0]);
  }

  lemma {:induction false} FirstGoes(line: string, rest: string)
    requires '\n' !in line
    ensures WithoutFirst(line + "\n" + rest) == rest && WithoutFirst(line) == ""
  {
    if |line| == 0 {
      assert (line + "\n" + rest)[1..] == rest;
    } else {
      FirstGoes(line[1..], rest);
      assert (line + "\n" + rest)[1..] == line[1..] + "\n" + rest;
    }
  }

  lemma JoinDrops(lines: seq<string>)
    requires Plain(lines) && |lines| > 0
    ensures WithoutFirst(Join(lines)) == Join(lines[1..])
  {
    assert OneLine(lines[0]);
    FirstGoes(lines[0], Join(lines[1..]));
  }

  // ---- The rows of some bytes

  // The whole rows, the first one at offset `base`.
  function Lines(b: bytes, base: nat, g: Grouping): (r: seq<string>)
    ensures |r| == |b| / PER_ROW
    decreases |b|
  {
    if |b| < PER_ROW then [] else [Row(base, b[..PER_ROW], g)] + Lines(b[PER_ROW..], base + PER_ROW, g)
  }

  lemma {:induction false} LinesArePlain(b: bytes, base: nat, g: Grouping)
    ensures Plain(Lines(b, base, g))
    decreases |b|
  {
    if |b| >= PER_ROW {
      LinesArePlain(b[PER_ROW..], base + PER_ROW, g);
      RowIsOneLine(base, b[..PER_ROW], g);
    }
  }

  lemma {:induction false} LinesAdd(a: bytes, b: bytes, base: nat, g: Grouping)
    requires |a| % PER_ROW == 0
    ensures Lines(a + b, base, g) == Lines(a, base, g) + Lines(b, base + |a|, g)
    decreases |a|
  {
    hide Row;
    if |a| == 0 {
      assert a + b == b;
    } else {
      assert (a + b)[..PER_ROW] == a[..PER_ROW] && (a + b)[PER_ROW..] == a[PER_ROW..] + b;
      LinesAdd(a[PER_ROW..], b, base + PER_ROW, g);
    }
  }

  lemma LastLine(b: bytes, i: nat, base: nat, g: Grouping)
    requires i % PER_ROW == 0 && i + PER_ROW <= |b|
    ensures Lines(b[..i + PER_ROW], base, g) == Lines(b[..i], base, g) + [Row(base + i, b[i..i + PER_ROW], g)]
  {
    hide Row;
    var row := b[i..i + PER_ROW];
    assert b[..i + PER_ROW] == b[..i] + row;
    LinesAdd(b[..i], row, base, g);
    assert row[..PER_ROW] == row && row[PER_ROW..] == [];
  }

  // ---- What is shown

  // How much of so many bytes is no longer kept: whole rows, as few as the cap
  // allows.
  function Dropped(n: nat): (d: nat)
    ensures d % 16 == 0 && d <= n && n - d <= 1048576
    ensures if n <= 1048576 then d == 0 else n - d > 1048576 - 16
  {
    if n <= CAP then 0 else (n - CAP + PER_ROW - 1) / PER_ROW * PER_ROW
  }

  // Trimming after each addition keeps what trimming once would.
  lemma TrimsAlike(before: nat, n: nat)
    requires before <= n
    ensures var size := n - Dropped(before);
            if size <= CAP then Dropped(n) == Dropped(before)
            else
              var rows := (size - CAP + PER_ROW - 1) / PER_ROW;
              rows > 0 && rows * PER_ROW <= size / PER_ROW * PER_ROW && Dropped(n) == Dropped(before) + rows * PER_ROW
  {
    var d := Dropped(before);
    var size := n - d;
    if size > CAP {
      var rows := (size - CAP + PER_ROW - 1) / PER_ROW;
      var k := d / PER_ROW;
      assert d == k * PER_ROW;
      assert n - CAP + PER_ROW - 1 == (size - CAP + PER_ROW - 1) + k * PER_ROW;
      assert (n - CAP + PER_ROW - 1) / PER_ROW == rows + k;
    }
  }

  lemma WholeLess(n: nat, rows: nat)
    requires rows * PER_ROW <= n
    ensures (n - rows * PER_ROW) / PER_ROW * PER_ROW == n / PER_ROW * PER_ROW - rows * PER_ROW
  {
    assert n == (n - rows * PER_ROW) + rows * PER_ROW;
    assert (n - rows * PER_ROW) / PER_ROW == n / PER_ROW - rows;
  }

  // What the dump shows of all that was received.
  ghost function Display(received: bytes, g: Grouping): string {
    var d := Dropped(|received|);
    Join(Lines(received[d..], d, g))
  }

  lemma NextSlice(b: bytes, i: nat)
    requires PER_ROW <= i && i + PER_ROW <= |b|
    ensures b[PER_ROW..][i - PER_ROW..i] == b[i..i + PER_ROW]
  {
  }

  // The k-th line shows sixteen bytes received, under their offset in the
  // stream, whatever the grouping.
  lemma {:induction false} LineAt(b: bytes, base: nat, g: Grouping, k: nat)
    requires k < |b| / PER_ROW
    ensures ReadRow(Lines(b, base, g)[k]) == (base + PER_ROW * k, b[PER_ROW * k..PER_ROW * k + PER_ROW])
    decreases k
  {
    hide Row, ReadRow;
    if k == 0 {
      RowReads(base, b[..PER_ROW], g);
    } else {
      LineAt(b[PER_ROW..], base + PER_ROW, g, k - 1);
      assert PER_ROW * (k - 1) == PER_ROW * k - PER_ROW;
      NextSlice(b, PER_ROW * k);
    }
  }

  // Every line of the display reads back to its part of the stream.
  lemma DisplayReads(received: bytes, g: Grouping, k: nat)
    requires k < (|received| - Dropped(|received|)) / 16
    ensures var d := Dropped(|received|);
            var at := d + 16 * k;
            ReadRow(Lines(received[d..], d, g)[k]) == (at, received[at..at + 16])
  {
    hide Dropped, ReadRow, Lines, Row;
    var d, i := Dropped(|received|), PER_ROW * k;
    var kept := received[d..];
    LineAt(kept, d, g, k);
    assert i + PER_ROW <= |kept|;
    assert kept[i..i + PER_ROW] == received[d + i..d + i + PER_ROW];
  }

  class HexDumpWidget {
    var buffer: bytes
    var droppedByteCount: nat
    var formattedOffset: nat
    var grouping: Grouping
    var text: string            // of the text edit
    ghost var received: bytes   // since the last clear

    // The kept bytes are the last of those received; all whole rows of them,
    // and nothing else, are shown.
    ghost predicate Valid()
      reads this
    {
      && droppedByteCount == Dropped(|received|)
      && buffer == received[droppedByteCount..]
      && formattedOffset == |buffer| / PER_ROW * PER_ROW
      && text == Display(received, grouping)
    }

    constructor ()
      ensures Valid() && received == [] && grouping == OneByte
    {
      buffer, droppedByteCount, formattedOffset, grouping, text, received := [], 0, 0, OneByte, "", [];
    }

    method AppendData(data: bytes)
      requires Valid()
      modifies this
      ensures Valid() && received == old(received) + data && grouping == old(grouping)
      ensures |buffer| <= 1048576 && 0 <= |buffer| - formattedOffset < 16
    {
      hide Row, Join, Lines, Dropped, WithoutFirst;
      if data == [] {
        assert received + data == received;
        return;
      }
      ghost var all := received + data;
      assert all[droppedByteCount..] == buffer + data;
      received := all;
      buffer := buffer + data;

      ghost var from, base := formattedOffset, droppedByteCount;
      WholeRows(old(buffer), buffer, base, grouping);
      assert text == Join(Lines(buffer[..from], base, grouping));
      var newLines := FormatNew();
      LinesArePlain(buffer[..from], base, grouping);
      if newLines != [] {
        JoinAdds(Lines(buffer[..from], base, grouping), newLines);
        text := Appended(text, Join(newLines));
      } else {
        assert Lines(buffer[..from], base, grouping) + [] == Lines(buffer[..from], base, grouping);
      }
      WholeRows(buffer[..formattedOffset], buffer, base, grouping);
      Trim(all);
    }

    // The rows that have become whole.
    method FormatNew() returns (newLines: seq<string>)
      requires formattedOffset <= |buffer| && formattedOffset % PER_ROW == 0
      modifies this`formattedOffset
      ensures old(formattedOffset) <= formattedOffset <= |buffer| && formattedOffset % PER_ROW == 0
      ensures |buffer| - formattedOffset < PER_ROW
      ensures Lines(buffer[..formattedOffset], droppedByteCount, grouping)
              == Lines(buffer[..old(formattedOffset)], droppedByteCount, grouping) + newLines
    {
      hide Row, Lines;
      newLines := [];
      ghost var before := Lines(buffer[..formattedOffset], droppedByteCount, grouping);
      assert before + [] == before;
      while |buffer| - formattedOffset >= PER_ROW
        invariant old(formattedOffset) <= formattedOffset <= |buffer| && formattedOffset % PER_ROW == 0
        invariant Lines(buffer[..formattedOffset], droppedByteCount, grouping) == before + newLines
      {
        LastLine(buffer, formattedOffset, droppedByteCount, grouping);
        var row := buffer[formattedOffset..formattedOffset + PER_ROW];
        var line := FormatRow(droppedByteCount + formattedOffset, row, grouping);
        newLines := newLines + [line];
        formattedOffset := formattedOffset + PER_ROW;
      }
    }

    // Whole rows go from the front until the cap holds.
    method Trim(ghost all: bytes)
      requires received == all && droppedByteCount <= |all| && buffer == all[droppedByteCount..]
      requires formattedOffset == |buffer| / PER_ROW * PER_ROW
              && text == Join(Lines(buffer, droppedByteCount, grouping))
      requires exists n: nat :: n <= |all| && droppedByteCount == Dropped(n)
      modifies this`buffer, this`droppedByteCount, this`formattedOffset, this`text
      ensures Valid()
    {
      hide Row, Join, Lines, WithoutFirst, Dropped, Plain;
      ghost var n: nat :| n <= |all| && droppedByteCount == Dropped(n);
      TrimsAlike(n, |all|);
      ghost var b, base, lines := buffer, droppedByteCount, Lines(buffer, droppedByteCount, grouping);
      if |buffer| > CAP {
        var excess := |buffer| - CAP;
        var rowsToTrim := (excess + PER_ROW - 1) / PER_ROW;
        var bytesToTrim := Min(rowsToTrim * PER_ROW, formattedOffset);
        if bytesToTrim > 0 {
          LinesAdd(b[..bytesToTrim], b[bytesToTrim..], base, grouping);
          assert b[..bytesToTrim] + b[bytesToTrim..] == b;
          buffer := buffer[bytesToTrim..];
          droppedByteCount := droppedByteCount + bytesToTrim;
          formattedOffset := formattedOffset - bytesToTrim;
          LinesArePlain(b, base, grouping);
          assert lines[bytesToTrim / PER_ROW..] == Lines(buffer, droppedByteCount, grouping);
          assert all[droppedByteCount..] == buffer;
          WholeLess(|b|, rowsToTrim);
          DropBlocks(bytesToTrim / PER_ROW, lines);
        }
      }
    }

    // The text's first blocks go, one at a time.
    method DropBlocks(n: nat, ghost lines: seq<string>)
      requires n <= |lines| && Plain(lines) && text == Join(lines)
      modifies this`text
      ensures text == Join(lines[n..])
    {
      hide Join, WithoutFirst, Plain;
      assert lines[0..] == lines;
      for i := 0 to n
        invariant text == Join(lines[i..])
      {
        PlainRest(lines, i);
        JoinDrops(lines[i..]);
        text := WithoutFirst(text);
      }
    }

    lemma PlainRest(lines: seq<string>, i: nat)
      requires Plain(lines) && i < |lines|
      ensures Plain(lines[i..]) && lines[i..][1..] == lines[i + 1..]
    {
    }

    method Clear()
      modifies this
      ensures Valid() && received == [] && grouping == old(grouping)
    {
      buffer, droppedByteCount, formattedOffset, text := [], 0, 0, "";
      received := [];
    }

    method SetGrouping(g: Grouping)
      requires Valid()
      modifies this`grouping, this`text
      ensures Valid() && grouping == g
    {
      if grouping == g {
        return;
      }
      grouping := g;
      RebuildDisplay();
    }

    // The text as if no row had been shown yet; so it changes nothing when the
    // text was that of the present grouping.
    method RebuildDisplay()
      requires droppedByteCount == Dropped(|received|) && buffer == received[droppedByteCount..]
      requires formattedOffset == |buffer| / PER_ROW * PER_ROW
      modifies this`text
      ensures text == Display(received, grouping)
    {
      hide Row, Join, Lines, Dropped;
      var lines: seq<string> := [];
      var offset := 0;
      assert Lines(buffer[..0], droppedByteCount, grouping) == [];
      while offset < formattedOffset
        invariant 0 <= offset <= formattedOffset && offset % PER_ROW == 0
        invariant lines == Lines(buffer[..offset], droppedByteCount, grouping)
      {
        LastLine(buffer, offset, droppedByteCount, grouping);
        var row := buffer[offset..offset + PER_ROW];
        var line := FormatRow(droppedByteCount + offset, row, grouping);
        lines := lines + [line];
        offset := offset + PER_ROW;
      }
      WholeRows(buffer[..offset], buffer, droppedByteCount, grouping);
      text := Join(lines);
    }

    // A partial row has no line.
    lemma WholeRows(whole: bytes, b: bytes, base: nat, g: Grouping)
      requires |whole| <= |b| && b[..|whole|] == whole
      ensures var n := |whole| / PER_ROW * PER_ROW; Lines(b[..n], base, g) == Lines(whole, base, g)
      ensures |whole| % PER_ROW == 0 && |b| - |whole| < PER_ROW ==> Lines(b, base, g) == Lines(whole, base, g)
    {
      hide Row;
      var n := |whole| / PER_ROW * PER_ROW;
      LinesAdd(whole[..n], whole[n..], base, g);
      assert whole[..n] + whole[n..] == whole && b[..n] == whole[..n];
      assert Lines(whole[n..], base + n, g) == [];
      if |whole| % PER_ROW == 0 && |b| - |whole| < PER_ROW {
        LinesAdd(whole, b[|whole|..], base, g);
        assert whole + b[|whole|..] == b;
        assert Lines(b[|whole|..], base + |whole|, g) == [];
      }
    }
  }
}
