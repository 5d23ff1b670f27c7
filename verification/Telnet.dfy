// The Telnet engine (TelnetTransport): the parser as a function of its state
// and each byte, the messages it finds and sends, and what holds of them - the
// data comes through unchanged, negotiation comes to rest, and no window size
// is reported before it was offered.
module Telnet {
  import opened Bytes

  const SE: byte := 240
  const SB: byte := 250
  const WILL: byte := 251
  const WONT: byte := 252
  const DO: byte := 253
  const DONT: byte := 254
  const IAC: byte := 255

  const OPT_ECHO: byte := 1
  const OPT_SGA: byte := 3
  const OPT_TTYPE: byte := 24
  const OPT_NAWS: byte := 31

  const TERMINAL: bytes := [120, 116, 101, 114, 109, 45, 50, 53, 54, 99, 111, 108, 111, 114] // "xterm-256color"

  // What travels over a connection.
  datatype Item = Plain(b: byte) | Command(command: byte, option: byte) | Sub(payload: bytes)

  predicate Negotiation(c: byte) { WILL <= c <= DONT }

  // ---- Parsing

  datatype ParseState = Data | IacSeen | Negotiate | SubNegData | SubNegIacSeen

  datatype Parser = Parser(state: ParseState, pending: byte, sub: bytes)

  // One byte: the next parser state, and the item it completes, if any.
  function Feed(p: Parser, b: byte): (Parser, seq<Item>) {
    match p.state
    case Data => if b == IAC then (p.(state := IacSeen), []) else (p, [Plain(b)])
    case IacSeen =>
      if b == IAC then (p.(state := Data), [Plain(IAC)])
      else if Negotiation(b) then (p.(pending := b, state := Negotiate), [])
      else if b == SB then (p.(sub := [], state := SubNegData), [])
      else (p.(state := Data), [])
    case Negotiate => (p.(state := Data), [Command(p.pending, b)])
    case SubNegData => if b == IAC then (p.(state := SubNegIacSeen), []) else (p.(sub := p.sub + [b]), [])
    case SubNegIacSeen =>
      if b == SE then (p.(state := Data), [Sub(p.sub)])
      else if b == IAC then (p.(sub := p.sub + [IAC], state := SubNegData), [])
      else (p.(state := Data), [])
  }

  ghost function FeedAll(p: Parser, bs: bytes): (Parser, seq<Item>)
    decreases |bs|
  {
    if |bs| == 0 then (p, [])
    else
      var (q, found) := Feed(p, bs[0]);
      var (r, more) := FeedAll(q, bs[1..]);
      (r, found + more)
  }

  // Chunk boundaries make no difference to the parser.
  lemma {:induction false} FeedSplits(p: Parser, a: bytes, b: bytes)
    ensures var (q, first) := FeedAll(p, a);
            var (r, second) := FeedAll(q, b);
            FeedAll(p, a + b) == (r, first + second)
    decreases |a|
  {
    if |a| == 0 {
      assert a + b == b;
      assert [] + FeedAll(p, b).1 == FeedAll(p, b).1;
    } else {
      var (q, found) := Feed(p, a[0]);
      FeedSplits(q, a[1..], b);
      assert (a + b)[1..] == a[1..] + b;
      var (q1, first) := FeedAll(q, a[1..]);
      var second := FeedAll(q1, b).1;
      assert found + (first + second) == found + first + second;
    }
  }

  lemma Nothing(s: seq<Item>)
    ensures [] + s == s && s + [] == s
  {
  }

  lemma FeedOne(p: Parser, b: byte)
    ensures FeedAll(p, [b]) == Feed(p, b)
  {
    assert [b][1..] == [];
    assert Feed(p, b).1 + [] == Feed(p, b).1;
  }

  lemma FeedTwo(p: Parser, a: byte, b: byte)
    ensures var (q, f) := Feed(p, a);
            var (r, g) := Feed(q, b);
            FeedAll(p, [a, b]) == (r, f + g)
  {
    assert [a, b][1..] == [b];
    FeedOne(Feed(p, a).0, b);
  }

  lemma FeedThree(p: Parser, a: byte, b: byte, c: byte)
    ensures var (q, f) := Feed(p, a);
            var (r, g) := Feed(q, b);
            var (s, h) := Feed(r, c);
            FeedAll(p, [a, b, c]) == (s, f + (g + h))
  {
    assert [a, b, c][1..] == [b, c];
    FeedTwo(Feed(p, a).0, b, c);
  }

  // The parser after a series of reads, and everything it found in them.
  ghost function FeedChunks(p: Parser, chunks: seq<bytes>): (Parser, seq<Item>)
    decreases |chunks|
  {
    if |chunks| == 0 then (p, [])
    else
      var (q, found) := FeedAll(p, chunks[0]);
      var (r, more) := FeedChunks(q, chunks[1..]);
      (r, found + more)
  }

  lemma {:induction false} AnyChunking(p: Parser, chunks: seq<bytes>)
    ensures FeedChunks(p, chunks) == FeedAll(p, Flat(chunks))
    decreases |chunks|
  {
    if |chunks| > 0 {
      var q := FeedAll(p, chunks[0]).0;
      AnyChunking(q, chunks[1..]);
      FeedSplits(p, chunks[0], Flat(chunks[1..]));
    }
  }

  // ---- Writing

  // IAC doubled, so that it is not taken for a command.
  function Escape(data: bytes): bytes {
    if |data| == 0 then []
    else (if data[0] == IAC then [IAC, IAC] else [data[0]]) + Escape(data[1..])
  }

  function CommandBytes(command: byte, option: byte): bytes { [IAC, command, option] }

  function SubBytes(option: byte, payload: bytes): bytes { [IAC, SB, option] + Escape(payload) + [IAC, SE] }

  ghost predicate Sendable(i: Item) {
    match i
    case Plain(_) => true
    case Command(c, _) => Negotiation(c)
    case Sub(payload) => |payload| > 0 && payload[0] != IAC
  }

  // The bytes an item is sent as.
  ghost function Wire(i: Item): bytes {
    match i
    case Plain(b) => Escape([b])
    case Command(c, o) => CommandBytes(c, o)
    case Sub(payload) => if |payload| == 0 then [] else SubBytes(payload[0], payload[1..])
  }

  ghost function WireAll(items: seq<Item>): bytes {
    if |items| == 0 then [] else Wire(items[0]) + WireAll(items[1..])
  }

  lemma {:induction false} WireSplits(a: seq<Item>, b: seq<Item>)
    ensures WireAll(a + b) == WireAll(a) + WireAll(b)
    decreases |a|
  {
    hide Wire;
    if |a| == 0 {
      assert a + b == b;
    } else {
      WireSplits(a[1..], b);
      assert (a + b)[1..] == a[1..] + b;
    }
  }

  lemma WireOne(i: Item)
    ensures WireAll([i]) == Wire(i)
  {
    hide Wire;
    assert [i][1..] == [];
  }

  ghost function Plains(data: bytes): (items: seq<Item>)
    ensures |items| == |data| && forall i :: 0 <= i < |data| ==> items[i] == Plain(data[i])
  {
    seq(|data|, i requires 0 <= i < |data| => Plain(data[i]))
  }

  // ---- Transparency

  // Escaped data is delivered as it was, whatever it contains.
  lemma {:induction false} DataTransparent(p: Parser, data: bytes)
    requires p.state.Data?
    ensures FeedAll(p, Escape(data)) == (p, Plains(data))
  {
    if |data| > 0 {
      var head := if data[0] == IAC then [IAC, IAC] else [data[0]];
      FeedSplits(p, head, Escape(data[1..]));
      DataTransparent(p, data[1..]);
      OnePlain(p, data[0]);
      assert Plains(data) == [Plain(data[0])] + Plains(data[1..]);
    }
  }

  lemma OnePlain(p: Parser, b: byte)
    requires p.state.Data?
    ensures FeedAll(p, if b == IAC then [IAC, IAC] else [b]) == (p, [Plain(b)])
  {
    if b == IAC {
      FeedTwo(p, IAC, IAC);
      Nothing([Plain(b)]);
    } else {
      FeedOne(p, b);
    }
  }

  lemma OnePayload(p: Parser, b: byte)
    requires p.state.SubNegData?
    ensures FeedAll(p, if b == IAC then [IAC, IAC] else [b]) == (p.(sub := p.sub + [b]), [])
  {
    if b == IAC {
      FeedTwo(p, IAC, IAC);
      Nothing([]);
    } else {
      FeedOne(p, b);
    }
  }

  // Escaped payload collects in the subnegotiation buffer as it was.
  lemma {:induction false} PayloadTransparent(p: Parser, data: bytes)
    requires p.state.SubNegData?
    ensures FeedAll(p, Escape(data)) == (p.(sub := p.sub + data), [])
    decreases |data|
  {
    if |data| == 0 {
      assert p.sub + data == p.sub;
    } else {
      var head := if data[0] == IAC then [IAC, IAC] else [data[0]];
      var q := p.(sub := p.sub + [data[0]]);
      FeedSplits(p, head, Escape(data[1..]));
      PayloadTransparent(q, data[1..]);
      OnePayload(p, data[0]);
      assert p.sub + [data[0]] + data[1..] == p.sub + data;
    }
  }

  lemma CommandParses(p: Parser, c: byte, o: byte)
    requires p.state.Data? && Negotiation(c)
    ensures FeedAll(p, CommandBytes(c, o)) == (p.(pending := c), [Command(c, o)])
  {
    FeedThree(p, IAC, c, o);
    Nothing([Command(c, o)]);
  }

  lemma SubOpens(p: Parser, o: byte)
    requires p.state.Data?
    ensures FeedAll(p, [IAC, SB, o]) ==
            if o == IAC then (p.(sub := [], state := SubNegIacSeen), []) else (p.(sub := [o], state := SubNegData), [])
  {
    FeedThree(p, IAC, SB, o);
    Nothing([]);
    assert [] + [o] == [o];
  }

  lemma SubCloses(p: Parser)
    requires p.state.SubNegData?
    ensures FeedAll(p, [IAC, SE]) == (p.(state := Data), [Sub(p.sub)])
  {
    FeedTwo(p, IAC, SE);
    Nothing([Sub(p.sub)]);
  }

  lemma SubParses(p: Parser, o: byte, payload: bytes)
    requires p.state.Data? && o != IAC
    ensures FeedAll(p, SubBytes(o, payload)) == (p.(sub := [o] + payload), [Sub([o] + payload)])
  {
    var q := p.(sub := [o], state := SubNegData);
    SubOpens(p, o);
    FeedSplits(p, [IAC, SB, o], Escape(payload));
    PayloadTransparent(q, payload);
    FeedSplits(p, [IAC, SB, o] + Escape(payload), [IAC, SE]);
    SubCloses(q.(sub := [o] + payload));
    assert [] + [] + [Sub([o] + payload)] == [Sub([o] + payload)];
  }

  // After a bare IAC inside a subnegotiation nothing as long as the payload is
  // ever handed on.
  lemma {:induction false} BareIacSpoils(p: Parser, payload: bytes)
    requires p.state.SubNegIacSeen?
    ensures forall q :: FeedAll(p, Escape(payload) + [IAC, SE]).1 == [Sub(q)] ==> |q| <= |p.sub| + |payload|
    decreases |payload|
  {
    var d := Escape(payload) + [IAC, SE];
    if |payload| == 0 {
      assert d == [IAC, SE];
      FeedTwo(p, IAC, SE);
    } else {
      var x := payload[0];
      var rest := Escape(payload[1..]) + [IAC, SE];
      if x == IAC {
        assert d == [IAC, IAC] + rest;
        FeedTwo(p, IAC, IAC);
        FeedSplits(p, [IAC, IAC], rest);
        BareIacSpoils(p.(sub := p.sub + [IAC]), payload[1..]);
      } else {
        assert d == [x] + rest;
        FeedOne(p, x);
        FeedSplits(p, [x], rest);
        var back := p.(state := Data);
        DataTransparent(back, payload[1..]);
        FeedSplits(back, Escape(payload[1..]), [IAC, SE]);
        FeedTwo(back, IAC, SE);
        var found := FeedAll(p, d).1;
        assert found == Feed(p, x).1 + Plains(payload[1..]);
        if |found| == 1 && found[0].Sub? {
          assert x == SE && found[0] == Sub(p.sub);
        }
      }
    }
  }

  // A subnegotiation is handed on exactly once and as it was sent - whatever
  // its payload - if and only if its option is not IAC itself, which
  // sendSubnegotiation() does not escape.
  lemma SubTransparentIff(p: Parser, o: byte, payload: bytes)
    requires p.state.Data?
    ensures FeedAll(p, SubBytes(o, payload)).1 == [Sub([o] + payload)] <==> o != IAC
  {
    hide FeedAll, Escape;
    if o != IAC {
      SubParses(p, o, payload);
    } else {
      SubOpens(p, o);
      var q := p.(sub := [], state := SubNegIacSeen);
      BareIacSpoils(q, payload);
      FeedSplits(p, [IAC, SB, o], Escape(payload) + [IAC, SE]);
      assert SubBytes(o, payload) == [IAC, SB, o] + (Escape(payload) + [IAC, SE]);
    }
  }

  lemma WireParses(p: Parser, i: Item)
    requires p.state.Data? && Sendable(i)
    ensures FeedAll(p, Wire(i)).0.state.Data? && FeedAll(p, Wire(i)).1 == [i]
  {
    match i
    case Plain(b) =>
      OnePlain(p, b);
      assert Escape([b]) == (if b == IAC then [IAC, IAC] else [b]) by {
        assert [b][1..] == [];
      }
    case Command(c, o) => CommandParses(p, c, o);
    case Sub(payload) =>
      SubParses(p, payload[0], payload[1..]);
      assert [payload[0]] + payload[1..] == payload;
  }

  // Whatever mixture of data and messages one end sends, the other end finds
  // exactly that.
  lemma {:induction false} StreamTransparent(p: Parser, items: seq<Item>)
    requires p.state.Data? && forall i :: 0 <= i < |items| ==> Sendable(items[i])
    ensures FeedAll(p, WireAll(items)).0.state.Data? && FeedAll(p, WireAll(items)).1 == items
    decreases |items|
  {
    if |items| > 0 {
      WireParses(p, items[0]);
      FeedSplits(p, Wire(items[0]), WireAll(items[1..]));
      StreamTransparent(FeedAll(p, Wire(items[0])).0, items[1..]);
    }
  }

  // However the escaped data is cut up on its way, it is delivered as it was.
  lemma DeliveredInAnyChunks(data: bytes, chunks: seq<bytes>)
    requires Flat(chunks) == Escape(data)
    ensures FeedChunks(Parser(Data, 0, []), chunks) == (Parser(Data, 0, []), Plains(data))
  {
    AnyChunking(Parser(Data, 0, []), chunks);
    DataTransparent(Parser(Data, 0, []), data);
  }

  // ---- Negotiation

  datatype Endpoint = Endpoint(naws: bool, cols: int, rows: int)

  function SizeBytes(cols: int, rows: int): bytes { [cols / 256 % 256, cols % 256, rows / 256 % 256, rows % 256] }

  function SizeReport(e: Endpoint): seq<Item> {
    if e.naws then [Sub([OPT_NAWS] + SizeBytes(e.cols, e.rows))] else []
  }

  // handleCommand() and handleSubnegotiation(): the new state and what is sent.
  function Handle(e: Endpoint, i: Item): (r: (Endpoint, seq<Item>)) {
    match i
    case Plain(_) => (e, [])
    case Command(c, o) =>
      if c == WILL then (e, [Command(if o == OPT_ECHO || o == OPT_SGA then DO else DONT, o)])
      else if c == DO then
        if o == OPT_NAWS then (e.(naws := true), [Command(WILL, o)] + SizeReport(e.(naws := true)))
        else if o == OPT_TTYPE then (e, [Command(WILL, o)])
        else (e, [Command(WONT, o)])
      else if c == WONT && o == OPT_NAWS then (e.(naws := false), [])
      else (e, [])
    case Sub(payload) =>
      if |payload| >= 2 && payload[0] == OPT_TTYPE && payload[1] == 1 then (e, [Sub([OPT_TTYPE, 0] + TERMINAL)])
      else (e, [])
  }

  // A 16-bit window size comes back from its four bytes.
  lemma SizeSurvives(cols: nat, rows: nat)
    requires cols < 0x1_0000 && rows < 0x1_0000
    ensures var s := SizeBytes(cols, rows); |s| == 4 && U16(s, 0) == cols && U16(s, 2) == rows
  {
  }

  // A report parses back to the size it was made from, on any parser at rest.
  lemma ReportSurvives(p: Parser, cols: nat, rows: nat)
    requires p.state.Data? && cols < 0x1_0000 && rows < 0x1_0000
    ensures var found := FeedAll(p, SubBytes(OPT_NAWS, SizeBytes(cols, rows))).1;
            |found| == 1 && found[0].Sub? && |found[0].payload| == 5 && found[0].payload[0] == OPT_NAWS
            && U16(found[0].payload, 1) == cols && U16(found[0].payload, 3) == rows
  {
    SizeSurvives(cols, rows);
    SubParses(p, OPT_NAWS, SizeBytes(cols, rows));
  }

  lemma RepliesSendable(e: Endpoint, i: Item)
    ensures forall k :: 0 <= k < |Handle(e, i).1| ==> Sendable(Handle(e, i).1[k]) && !Handle(e, i).1[k].Plain?
  {
  }

  // An upper bound on the messages an in-flight message can still cause,
  // itself included.
  ghost function Weight(i: Item): nat {
    match i
    case Plain(_) => 1
    case Command(c, o) =>
      if c == WILL then (if o == OPT_ECHO || o == OPT_SGA then 3 else 2)
      else if c == DO then (if o == OPT_NAWS then 4 else if o == OPT_TTYPE then 3 else 2)
      else 1
    case Sub(payload) => if |payload| >= 2 && payload[0] == OPT_TTYPE && payload[1] == 1 then 2 else 1
  }

  ghost function Load(items: seq<Item>): nat {
    if |items| == 0 then 0 else Weight(items[0]) + Load(items[1..])
  }

  lemma {:induction false} LoadAdds(a: seq<Item>, b: seq<Item>)
    ensures Load(a + b) == Load(a) + Load(b)
  {
    if |a| == 0 {
      assert a + b == b;
    } else {
      LoadAdds(a[1..], b);
      assert (a + b)[1..] == a[1..] + b;
    }
  }

  lemma RepliesWeighLess(e: Endpoint, i: Item)
    ensures Load(Handle(e, i).1) < Weight(i)
  {
    var replies := Handle(e, i).1;
    if |replies| == 1 {
      assert replies[1..] == [];
    } else if |replies| == 2 {
      assert replies == [replies[0]] + [replies[1]];
      LoadAdds([replies[0]], [replies[1]]);
      assert [replies[0]][1..] == [] && [replies[1]][1..] == [];
    }
  }

  // Two endpoints and the messages on their way between them.
  datatype Net = Net(a: Endpoint, b: Endpoint, toA: seq<Item>, toB: seq<Item>)

  ghost function NetLoad(n: Net): nat { Load(n.toA) + Load(n.toB) }

  // Delivers the oldest message to one end, which may answer.
  ghost function Deliver(n: Net, toA: bool): Net
    requires if toA then |n.toA| > 0 else |n.toB| > 0
  {
    if toA then
      var (e, replies) := Handle(n.a, n.toA[0]);
      Net(e, n.b, n.toA[1..], n.toB + replies)
    else
      var (e, replies) := Handle(n.b, n.toB[0]);
      Net(n.a, e, n.toA + replies, n.toB[1..])
  }

  lemma DeliveryLightens(n: Net, toA: bool)
    requires if toA then |n.toA| > 0 else |n.toB| > 0
    ensures NetLoad(Deliver(n, toA)) < NetLoad(n)
  {
    if toA {
      RepliesWeighLess(n.a, n.toA[0]);
      LoadAdds(n.toB, Handle(n.a, n.toA[0]).1);
    } else {
      RepliesWeighLess(n.b, n.toB[0]);
      LoadAdds(n.toA, Handle(n.b, n.toB[0]).1);
    }
  }

  // A schedule that always delivers something that is there.
  ghost predicate Possible(n: Net, schedule: seq<bool>)
    decreases |schedule|
  {
    |schedule| > 0 ==>
      && (if schedule[0] then |n.toA| > 0 else |n.toB| > 0)
      && Possible(Deliver(n, schedule[0]), schedule[1..])
  }

  // Negotiation terminates: from any messages in flight, in any order of
  // delivery, there are no more deliveries than the initial load.
  lemma {:induction false} NegotiationTerminates(n: Net, schedule: seq<bool>)
    requires Possible(n, schedule)
    ensures |schedule| <= NetLoad(n)
    decreases |schedule|
  {
    if |schedule| > 0 {
      DeliveryLightens(n, schedule[0]);
      NegotiationTerminates(Deliver(n, schedule[0]), schedule[1..]);
    }
  }

  // ---- Window size reports

  datatype Input = Arrived(item: Item) | Resized(cols: int, rows: int)

  function React(e: Endpoint, i: Input): (Endpoint, seq<Item>) {
    match i
    case Arrived(item) => Handle(e, item)
    case Resized(cols, rows) => var f := e.(cols := cols, rows := rows); (f, SizeReport(f))
  }

  // The state and everything sent after a series of inputs.
  ghost function ReactAll(e: Endpoint, inputs: seq<Input>): (Endpoint, seq<Item>) {
    if |inputs| == 0 then (e, [])
    else
      var (f, sent) := ReactAll(e, inputs[..|inputs| - 1]);
      var (g, more) := React(f, inputs[|inputs| - 1]);
      (g, sent + more)
  }

  ghost predicate Offered(sent: seq<Item>, before: int) {
    exists j :: 0 <= j < before && j < |sent| && sent[j] == Command(WILL, OPT_NAWS)
  }

  ghost predicate IsReport(i: Item) { i.Sub? && |i.payload| > 0 && i.payload[0] == OPT_NAWS }

  // Every window size report comes after an offer to send them.
  ghost predicate ReportsOffered(sent: seq<Item>) {
    forall k :: 0 <= k < |sent| && IsReport(sent[k]) ==> Offered(sent, k)
  }

  lemma OfferedLater(sent: seq<Item>, more: seq<Item>, before: int, later: int)
    requires Offered(sent, before) && before <= later
    ensures Offered(sent + more, later)
  {
    var j :| 0 <= j < before && j < |sent| && sent[j] == Command(WILL, OPT_NAWS);
    assert (sent + more)[j] == Command(WILL, OPT_NAWS);
  }

  // On a connection, whatever arrives and however often the window is resized,
  // no size is reported before WILL NAWS was sent.
  lemma {:induction false} NoReportBeforeOffer(cols: int, rows: int, inputs: seq<Input>)
    ensures var (e, sent) := ReactAll(Endpoint(false, cols, rows), inputs);
            ReportsOffered(sent) && (e.naws ==> Offered(sent, |sent|))
  {
    if |inputs| > 0 {
      NoReportBeforeOffer(cols, rows, inputs[..|inputs| - 1]);
      var (f, sent) := ReactAll(Endpoint(false, cols, rows), inputs[..|inputs| - 1]);
      var i := inputs[|inputs| - 1];
      var (g, more) := React(f, i);
      var all := sent + more;
      var accepts := i.Arrived? && i.item == Command(DO, OPT_NAWS);
      if accepts {
        assert all[|sent|] == Command(WILL, OPT_NAWS);
      }
      forall k | 0 <= k < |all| && IsReport(all[k])
        ensures Offered(all, k)
      {
        if k < |sent| {
          OfferedLater(sent, more, k, k);
        } else if !accepts {
          assert f.naws;
          OfferedLater(sent, more, |sent|, k);
        }
      }
      if g.naws && !accepts {
        OfferedLater(sent, more, |sent|, |all|);
      }
    }
  }
  // An item that reports a window of that size, as sixteen bits hold it.
  ghost predicate Tells(i: Item, cols: int, rows: int) {
    && i.Sub? && |i.payload| == 5 && i.payload[0] == 31
    && U16(i.payload, 1) == cols % 65536 && U16(i.payload, 3) == rows % 65536
  }

  lemma SizeTells(cols: int, rows: int)
    ensures Tells(Sub([OPT_NAWS] + SizeBytes(cols, rows)), cols, rows)
  {
    var s := [OPT_NAWS] + SizeBytes(cols, rows);
    assert s[1..] == SizeBytes(cols, rows);
    assert cols % 65536 == cols / 256 % 256 * 256 + cols % 256;
    assert rows % 65536 == rows / 256 % 256 * 256 + rows % 256;
  }

  // Where reports are agreed on, a resized window is reported once, with the
  // size it was given; where they are not, it is not reported.
  lemma ResizeTells(p: Parser, e: Endpoint, cols: int, rows: int)
    requires p.state.Data?
    ensures var found := FeedAll(p, WireAll(React(e, Resized(cols, rows)).1)).1;
            if e.naws then |found| == 1 && Tells(found[0], cols, rows) else found == []
  {
    SizeTells(cols, rows);
    StreamTransparent(p, React(e, Resized(cols, rows)).1);
  }

  // Asked for reports, the client offers them and reports the size it has.
  lemma OfferTells(p: Parser, e: Endpoint)
    requires p.state.Data?
    ensures var found := FeedAll(p, WireAll(Handle(e, Command(253, 31)).1)).1;
            |found| == 2 && found[0] == Command(251, 31) && Tells(found[1], e.cols, e.rows)
  {
    SizeTells(e.cols, e.rows);
    StreamTransparent(p, Handle(e, Command(253, 31)).1);
  }

  // The size the window was given last.
  ghost function SizeNow(cols: int, rows: int, inputs: seq<Input>): (int, int) {
    if |inputs| == 0 then (cols, rows)
    else
      var last := inputs[|inputs| - 1];
      if last.Resized? then (last.cols, last.rows) else SizeNow(cols, rows, inputs[..|inputs| - 1])
  }

  lemma {:induction false} SizeKept(naws: bool, cols: int, rows: int, inputs: seq<Input>)
    ensures var e := ReactAll(Endpoint(naws, cols, rows), inputs).0;
            (e.cols, e.rows) == SizeNow(cols, rows, inputs)
  {
    if |inputs| > 0 {
      SizeKept(naws, cols, rows, inputs[..|inputs| - 1]);
    }
  }

  // Over any run, each report that an input causes holds the size last given.
  lemma ReportsAreCurrent(naws: bool, cols: int, rows: int, inputs: seq<Input>)
    requires |inputs| > 0
    ensures var before := ReactAll(Endpoint(naws, cols, rows), inputs[..|inputs| - 1]).1;
            var sent := ReactAll(Endpoint(naws, cols, rows), inputs).1;
            var (c, r) := SizeNow(cols, rows, inputs);
            && |before| <= |sent| && sent[..|before|] == before
            && forall k :: |before| <= k < |sent| && IsReport(sent[k]) ==> Tells(sent[k], c, r)
  {
    SizeKept(naws, cols, rows, inputs);
    var e := ReactAll(Endpoint(naws, cols, rows), inputs).0;
    SizeTells(e.cols, e.rows);
  }

  // ---- The answers, byte for byte

  lemma CommandArrives(p: Parser, c: byte, o: byte)
    requires p.state.Data? && 251 <= c <= 254
    ensures FeedAll(p, [255, c, o]).1 == [Command(c, o)]
  {
    CommandParses(p, c, o);
  }

  // Echoing and going ahead unasked are welcome, terminal type and window size
  // are to be had, nothing else is; a refusal is not answered.
  lemma Answers(p: Parser, e: Endpoint, o: byte)
    requires p.state.Data?
    ensures var will := FeedAll(p, [255, 251, o]).1;
            |will| == 1 && Handle(e, will[0]).0 == e
            && WireAll(Handle(e, will[0]).1) == [255, if o == 1 || o == 3 then 253 else 254, o]
    ensures var wont := FeedAll(p, [255, 252, o]).1;
            && |wont| == 1 && Handle(e, wont[0]).1 == []
            && Handle(e, wont[0]).0 == if o == 31 then e.(naws := false) else e
    ensures var do := FeedAll(p, [255, 253, o]).1;
            |do| == 1 && Handle(e, do[0]).0 == (if o == 31 then e.(naws := true) else e)
            && (o != 31 ==> WireAll(Handle(e, do[0]).1) == [255, if o == 24 then 251 else 252, o])
    ensures var dont := FeedAll(p, [255, 254, o]).1;
            |dont| == 1 && Handle(e, dont[0]) == (e, [])
  {
    CommandArrives(p, 251, o);
    CommandArrives(p, 252, o);
    CommandArrives(p, 253, o);
    CommandArrives(p, 254, o);
    forall c | 251 <= c <= 254
      ensures WireAll([Command(c, o)]) == [255, c, o]
    {
      WireOne(Command(c, o));
    }
  }

  // Commands of no option - to do nothing, to go ahead, and the like - are
  // passed over; a subnegotiation with one in it is given up.
  lemma PassesOver(p: Parser, c: byte, payload: bytes)
    requires p.state.Data? && c < 250
    ensures FeedAll(p, [255, c]) == (p, [])
    ensures c != 240 ==>
              var (q, found) := FeedAll(p, [255, 250] + Escape(payload) + [255, c]);
              q.state.Data? && found == []
  {
    FeedTwo(p, 255, c);
    Nothing([]);
    FeedTwo(p, 255, 250);
    var q := FeedAll(p, [255, 250]).0;
    PayloadTransparent(q, payload);
    FeedSplits(p, [255, 250], Escape(payload));
    FeedSplits(p, [255, 250] + Escape(payload), [255, c]);
    FeedTwo(q.(sub := q.sub + payload), 255, c);
  }

  // Asked for its type, the terminal calls itself xterm-256color. Nothing else
  // that is put to it so is answered.
  lemma SaysItsType(p: Parser, e: Endpoint, more: bytes)
    requires p.state.Data? && forall i :: 0 <= i < |more| ==> more[i] != 255
    ensures var asked := FeedAll(p, [255, 250, 24, 1] + more + [255, 240]).1;
            |asked| == 1 && Handle(e, asked[0]).0 == e
            && WireAll(Handle(e, asked[0]).1)
               == [255, 250, 24, 0, 120, 116, 101, 114, 109, 45, 50, 53, 54, 99, 111, 108, 111, 114, 255, 240]
    ensures forall q :: Handle(e, Sub(q)).1 != [] ==> |q| >= 2 && q[0] == 24 && q[1] == 1
  {
    hide FeedAll, Escape, WireAll;
    PlainEscape([1] + more);
    assert [255, 250, 24, 1] + more + [255, 240] == SubBytes(24, [1] + more);
    SubParses(p, 24, [1] + more);
    TypeBytes();
  }

  lemma TypeBytes()
    ensures WireAll([Sub([OPT_TTYPE, 0] + TERMINAL)])
            == [255, 250, 24, 0, 120, 116, 101, 114, 109, 45, 50, 53, 54, 99, 111, 108, 111, 114, 255, 240]
  {
    hide FeedAll, Escape, WireAll;
    var reply: bytes := [0] + TERMINAL;
    PlainEscape(reply);
    WireOne(Sub([OPT_TTYPE, 0] + TERMINAL));
    assert ([OPT_TTYPE, 0] + TERMINAL)[1..] == reply;
  }

  lemma {:induction false} PlainEscape(data: bytes)
    requires forall i :: 0 <= i < |data| ==> data[i] != 255
    ensures Escape(data) == data
  {
    if |data| > 0 {
      PlainEscape(data[1..]);
    }
  }
}
