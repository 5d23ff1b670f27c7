// The Telnet transport as the object it is: a parser state, buffers and flags
// updated byte by byte, and a socket it writes to. Its methods are tied to the
// functions of module Telnet.
module TelnetTransports {
  import opened Bytes
  import opened Telnet

  ghost function DataIn(i: Item): bytes { if i.Plain? then [i.b] else [] }

  // The data among the items, in order.
  ghost function DataOf(items: seq<Item>): bytes {
    if |items| == 0 then [] else DataIn(items[0]) + DataOf(items[1..])
  }

  lemma {:induction false} DataSplits(a: seq<Item>, b: seq<Item>)
    ensures DataOf(a + b) == DataOf(a) + DataOf(b)
    decreases |a|
  {
    hide DataIn;
    if |a| == 0 {
      assert a + b == b;
    } else {
      DataSplits(a[1..], b);
      assert (a + b)[1..] == a[1..] + b && (a + b)[0] == a[0];
      assert DataIn(a[0]) + (DataOf(a[1..]) + DataOf(b)) == DataOf(a) + DataOf(b);
    }
  }

  // Everything an endpoint answers to a series of items, and its state after them.
  ghost function HandleAll(e: Endpoint, items: seq<Item>): (Endpoint, seq<Item>)
    decreases |items|
  {
    if |items| == 0 then (e, [])
    else
      var (f, first) := Handle(e, items[0]);
      var (g, rest) := HandleAll(f, items[1..]);
      (g, first + rest)
  }

  lemma {:induction false} HandleSplits(e: Endpoint, a: seq<Item>, b: seq<Item>)
    ensures var (f, first) := HandleAll(e, a);
            var (g, rest) := HandleAll(f, b);
            HandleAll(e, a + b) == (g, first + rest)
    decreases |a|
  {
    if |a| == 0 {
      assert a + b == b;
      Nothing(HandleAll(e, b).1);
    } else {
      var (f, first) := Handle(e, a[0]);
      HandleSplits(f, a[1..], b);
      assert (a + b)[1..] == a[1..] + b;
      var (g, middle) := HandleAll(f, a[1..]);
      assert first + (middle + HandleAll(g, b).1) == first + middle + HandleAll(g, b).1;
    }
  }

  class TelnetTransport {
    var parseState: ParseState
    var pendingCommand: byte
    var subNegBuffer: bytes
    var plainBuffer: bytes
    var nawsEnabled: bool
    var cols: int
    var rows: int

    var connected: bool
    // What has been written to the socket, and what readyRead has delivered.
    var socket: bytes
    var delivered: bytes

    ghost function TheParser(): Parser
      reads this
    {
      Parser(parseState, pendingCommand, subNegBuffer)
    }

    ghost function Options(): Endpoint
      reads this
    {
      Endpoint(nawsEnabled, cols, rows)
    }

    constructor ()
      ensures TheParser() == Parser(Data, 0, []) && Options() == Endpoint(false, 80, 24)
      ensures plainBuffer == [] && socket == [] && delivered == [] && !connected
    {
      parseState, pendingCommand, subNegBuffer, plainBuffer := Data, 0, [], [];
      nawsEnabled, cols, rows, connected := false, 80, 24, false;
      socket, delivered := [], [];
    }

    // A new connection starts with nothing negotiated.
    method ConnectToHost()
      modifies this
      ensures parseState == Data && subNegBuffer == [] && plainBuffer == []
      ensures Options() == Endpoint(false, old(cols), old(rows))
      ensures socket == old(socket) && delivered == old(delivered) && connected == old(connected)
    {
      parseState, subNegBuffer, plainBuffer, nawsEnabled := Data, [], [], false;
    }

    method Write(data: bytes)
      modifies this`socket
      ensures socket == if connected then old(socket) + Escape(data) else old(socket)
    {
      if !connected {
        return;
      }
      var escaped: bytes := [];
      assert data[0..] == data;
      for i := 0 to |data|
        invariant escaped + Escape(data[i..]) == Escape(data)
      {
        escaped := escaped + [data[i]];
        if data[i] == IAC {
          escaped := escaped + [IAC];
        }
        assert data[i..][1..] == data[i + 1..];
      }
      socket := socket + escaped;
    }

    method SendCommand(command: byte, option: byte)
      modifies this`socket
      ensures socket == old(socket) + CommandBytes(command, option)
    {
      socket := socket + [IAC, command, option];
    }

    method SendSubnegotiation(option: byte, payload: bytes)
      modifies this`socket
      ensures socket == old(socket) + SubBytes(option, payload)
    {
      var out := [IAC, SB, option];
      for i := 0 to |payload|
        invariant out + Escape(payload[i..]) == [IAC, SB, option] + Escape(payload)
      {
        out := out + [payload[i]];
        if payload[i] == IAC {
          out := out + [IAC];
        }
        assert payload[i..][1..] == payload[i + 1..];
      }
      out := out + [IAC, SE];
      socket := socket + out;
    }

    method SendWindowSize()
      modifies this`socket
      ensures socket == old(socket) + WireAll(SizeReport(Options()))
    {
      WireOne(Sub([OPT_NAWS] + SizeBytes(cols, rows)));
      if !nawsEnabled {
        return;
      }
      assert ([OPT_NAWS] + SizeBytes(cols, rows))[1..] == SizeBytes(cols, rows);
      SendSubnegotiation(OPT_NAWS, SizeBytes(cols, rows));
    }

    method Resize(newCols: int, newRows: int)
      modifies this`socket, this`cols, this`rows
      ensures var (e, sent) := React(old(Options()), Resized(newCols, newRows));
              Options() == e && socket == old(socket) + WireAll(sent)
    {
      cols, rows := newCols, newRows;
      SendWindowSize();
    }

    method HandleCommand(command: byte, option: byte)
      requires Negotiation(command)
      modifies this`socket, this`nawsEnabled
      ensures var (e, sent) := Handle(old(Options()), Command(command, option));
              Options() == e && socket == old(socket) + WireAll(sent)
    {
      hide WireAll, SizeBytes;
      ghost var was := Options();
      assert WireAll([]) == [] by {
        WireNone();
      }
      if command == WILL {
        var answer := if option == OPT_ECHO || option == OPT_SGA then DO else DONT;
        WireOne(Command(answer, option));
        SendCommand(answer, option);
      } else if command == DO {
        if option == OPT_NAWS {
          WireOne(Command(WILL, option));
          WireSplits([Command(WILL, option)], SizeReport(was.(naws := true)));
          SendCommand(WILL, option);
          nawsEnabled := true;
          SendWindowSize();
        } else if option == OPT_TTYPE {
          WireOne(Command(WILL, option));
          SendCommand(WILL, option);
        } else {
          WireOne(Command(WONT, option));
          SendCommand(WONT, option);
        }
      } else if command == WONT {
        if option == OPT_NAWS {
          nawsEnabled := false;
        }
      }
    }

    method HandleSubnegotiation(payload: bytes)
      modifies this`socket
      ensures socket == old(socket) + WireAll(Handle(Options(), Sub(payload)).1)
    {
      if |payload| == 0 {
        return;
      }
      if payload[0] == OPT_TTYPE && |payload| >= 2 && payload[1] == 1 {
        WireOne(Sub([OPT_TTYPE, 0] + TERMINAL));
        assert ([OPT_TTYPE, 0] + TERMINAL)[1..] == [0] + TERMINAL;
        SendSubnegotiation(OPT_TTYPE, [0] + TERMINAL);
      }
    }

    // One byte, by the state it arrives in.
    method ProcessByte(b: byte)
      requires parseState.Negotiate? ==> Negotiation(pendingCommand)
      modifies this`parseState, this`pendingCommand, this`subNegBuffer, this`plainBuffer, this`nawsEnabled, this`socket
      ensures parseState.Negotiate? ==> Negotiation(pendingCommand)
      ensures var (p, found) := Feed(old(TheParser()), b);
              var (e, sent) := HandleAll(old(Options()), found);
              && TheParser() == p && Options() == e
              && socket == old(socket) + WireAll(sent)
              && plainBuffer == old(plainBuffer) + DataOf(found)
    {
      ghost var found := Feed(TheParser(), b).1;
      OneItem(Options(), found);
      match parseState {
        case Data =>
          if b == IAC {
            parseState := IacSeen;
          } else {
            plainBuffer := plainBuffer + [b];
          }
        case IacSeen =>
          if b == IAC {
            plainBuffer := plainBuffer + [IAC];
            parseState := Data;
          } else if b == WILL || b == WONT || b == DO || b == DONT {
            pendingCommand := b;
            parseState := Negotiate;
          } else if b == SB {
            subNegBuffer := [];
            parseState := SubNegData;
          } else {
            parseState := Data;
          }
        case Negotiate =>
          HandleCommand(pendingCommand, b);
          parseState := Data;
        case SubNegData =>
          if b == IAC {
            parseState := SubNegIacSeen;
          } else {
            subNegBuffer := subNegBuffer + [b];
          }
        case SubNegIacSeen =>
          if b == SE {
            HandleSubnegotiation(subNegBuffer);
            parseState := Data;
          } else if b == IAC {
            subNegBuffer := subNegBuffer + [IAC];
            parseState := SubNegData;
          } else {
            // The subnegotiation is given up.
            parseState := Data;
          }
      }
    }

    // A chunk from the socket: its data is delivered in one piece, and every
    // command and subnegotiation completed in it is answered.
    method ProcessIncoming(chunk: bytes)
      requires (parseState.Negotiate? ==> Negotiation(pendingCommand)) && plainBuffer == []
      modifies this
      ensures (parseState.Negotiate? ==> Negotiation(pendingCommand)) && plainBuffer == []
      ensures var (p, found) := FeedAll(old(TheParser()), chunk);
              var (e, sent) := HandleAll(old(Options()), found);
              && TheParser() == p && Options() == e && connected == old(connected)
              && socket == old(socket) + WireAll(sent)
              && delivered == old(delivered) + DataOf(found)
    {
      hide Feed, FeedAll, HandleAll, WireAll, DataOf;
      ghost var p0, e0 := TheParser(), Options();
      StartOfChunk(p0, e0, chunk);
      for i := 0 to |chunk|
        invariant parseState.Negotiate? ==> Negotiation(pendingCommand)
        invariant connected == old(connected) && delivered == old(delivered)
        invariant TheParser() == FeedAll(p0, chunk[..i]).0
        invariant Options() == HandleAll(e0, FeedAll(p0, chunk[..i]).1).0
        invariant socket == old(socket) + WireAll(HandleAll(e0, FeedAll(p0, chunk[..i]).1).1)
        invariant plainBuffer == DataOf(FeedAll(p0, chunk[..i]).1)
      {
        OneMore(p0, e0, chunk, i);
        ProcessByte(chunk[i]);
      }
      assert chunk[..|chunk|] == chunk;
      if plainBuffer != [] {
        delivered := delivered + plainBuffer;
        plainBuffer := [];
      }
    }
  }

  lemma WireNone()
    ensures WireAll([]) == []
  {
  }

  lemma StartOfChunk(p: Parser, e: Endpoint, chunk: bytes)
    ensures FeedAll(p, chunk[..0]) == (p, []) && HandleAll(e, []) == (e, []) && WireAll([]) == [] && DataOf([]) == []
  {
  }

  lemma OneItem(e: Endpoint, found: seq<Item>)
    requires |found| <= 1
    ensures HandleAll(e, found) == if |found| == 0 then (e, []) else Handle(e, found[0])
    ensures DataOf(found) == if |found| == 1 && found[0].Plain? then [found[0].b] else []
  {
    if |found| == 1 {
      assert found[1..] == [];
      Nothing(Handle(e, found[0]).1);
    }
  }

  // What one more byte adds to what has been found, answered and delivered.
  lemma OneMore(p: Parser, e: Endpoint, chunk: bytes, i: nat)
    requires i < |chunk|
    ensures var (q, before) := FeedAll(p, chunk[..i]);
            var (r, found) := Feed(q, chunk[i]);
            var (f, sent) := HandleAll(e, before);
            var (g, more) := HandleAll(f, found);
            && FeedAll(p, chunk[..i + 1]) == (r, before + found)
            && HandleAll(e, before + found) == (g, sent + more)
            && WireAll(sent + more) == WireAll(sent) + WireAll(more)
            && DataOf(before + found) == DataOf(before) + DataOf(found)
  {
    assert chunk[..i + 1] == chunk[..i] + [chunk[i]];
    FeedSplits(p, chunk[..i], [chunk[i]]);
    var (q, before) := FeedAll(p, chunk[..i]);
    FeedOne(q, chunk[i]);
    var found := Feed(q, chunk[i]).1;
    HandleSplits(e, before, found);
    var (f, sent) := HandleAll(e, before);
    WireSplits(sent, HandleAll(f, found).1);
    DataSplits(before, found);
  }
}
