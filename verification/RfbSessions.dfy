// Whole sessions: a greeting and then any messages in any order, read in any
// pieces - what is on the screen at the end, and what was said on the way.
module RfbSessions {
  import opened Bytes
  import opened Images
  import opened Rfb
  import opened RfbRuns
  import opened RfbSafety
  import opened RfbRectangles
  import opened RfbSent
  import opened RfbUpdates
  import opened RfbGreeting

  // ---- Messages

  datatype Message =
    | Update(xs: seq<Sent>, form: Form)
    | Colours(first: nat, entries: bytes)
    | Ring
    | Cut(text: bytes)

  // A server can send this to a client with such an image and such streams.
  ghost predicate Fits(env: Env, work: Image, streams: Streams, m: Message) {
    match m
    case Update(xs, form) => work.Ok() && AllSendable(env, work, streams, xs) && Framed(form, xs)
    case Colours(first, entries) => first < 0x1_0000 && |entries| % 6 == 0 && |entries| / 6 < 0x1_0000
    case Ring => true
    case Cut(text) => |text| <= 0x10_0000
  }

  ghost function MessageBytes(env: Env, work: Image, streams: Streams, m: Message): bytes
    requires Fits(env, work, streams, m)
  {
    match m
    case Update(xs, form) => UpdateOf(env, work, streams, xs, form)
    case Colours(first, entries) => [1, 0] + Wire16(first) + Wire16(|entries| / 6) + entries
    case Ring => [2]
    case Cut(text) => [3, 0, 0, 0] + WireLength(|text|) + text
  }

  // What one message makes of the client.
  ghost predicate Turn(env: Env, s: Session, m: Message, t: Session)
    requires s.screen.Ok() && Fits(env, s.screen.work, s.streams, m)
  {
    match m
    case Update(xs, _) => Displayed(env, s, [], xs, t) && t.link == s.link
    case Colours(_, _) => t == s
    case Ring => t == s.(events := s.events + [Bell])
    case Cut(text) => t == s.(events := s.events + [Clipboard(text)])
  }

  lemma QuietTurn(env: Env, s: Session, m: Message) returns (t: Session)
    requires Between(s) && Fits(env, s.screen.work, s.streams, m) && !m.Update?
    ensures Step(env, s, MessageBytes(env, s.screen.work, s.streams, m))
            == Result(true, |MessageBytes(env, s.screen.work, s.streams, m)|, t)
    ensures Between(t) && Turn(env, s, m, t)
  {
    hide Agree, Boxed, StepRect, FinishUpdate, Displayed, UpdateOf, AllSendable, Framed;
    var b := MessageBytes(env, s.screen.work, s.streams, m);
    match m
    case Colours(first, entries) =>
      t := s;
      assert b[4..6] == Wire16(|entries| / 6);
      Read16(b, 4, |entries| / 6);
    case Ring =>
      t := s.(events := s.events + [Bell]);
      SameScreen(s, t);
    case Cut(text) =>
      t := s.(events := s.events + [Clipboard(text)]);
      SameScreen(s, t);
      assert U32(b, 4) == U32(WireLength(|text|), 0) by {
        assert b[4..8] == WireLength(|text|);
        assert U32(b, 4) == U32(b[4..8], 0);
      }
      assert b[8..8 + |text|] == text;
  }

  lemma SameScreen(s: Session, t: Session)
    requires Between(s) && t == s.(events := t.events)
    ensures Between(t)
  {
  }

  // The link is what it was once the client runs.
  lemma {:induction false} LinkStays(env: Env, s: Session, b: bytes)
    requires Wf(s) && s.stage.Running?
    ensures Run(env, s, b).0.link == s.link
    decreases |b|
  {
    hide Rfb.Step;
    StepSound(env, s, b);
    StepLink(env, s, b);
    var r := Step(env, s, b);
    if r.ok && r.s.stage.Running? {
      LinkStays(env, r.s, b[r.used..]);
    }
  }

  lemma StepLink(env: Env, s: Session, b: bytes)
    requires Wf(s) && s.stage.Running?
    ensures var r := Step(env, s, b); r.s.link == s.link && (r.s.stage.Running? || r.s.stage.Idle?)
  {
    if s.batch.left > 0 {
      if s.inRect {
        BodyLink(env, s, b);
      } else if |b| >= 12 {
        var t := s.(inRect := true, cur := Rfb.Header(b));
        if Acceptable(t.cur, s.screen.work) {
          BodyLink(env, t, b[12..]);
        }
      }
    }
  }

  lemma BodyLink(env: Env, s: Session, b: bytes)
    requires Open(s) && Begun(s) && s.inRect
    ensures var t := Body(env, s, b).s; t.link == s.link && (t.stage.Running? || t.stage.Idle?)
  {
    hide RawBody, CopyBody, HextileBody, TightBody, ZrleBody;
    if s.cur.enc != ENC_LAST_RECT && s.cur.enc != ENC_DESKTOP_SIZE {
      var t, why := BodyShape(env, s, b);
    }
  }

  lemma UpdateTurn(env: Env, s: Session, m: Message, rest: bytes) returns (t: Session)
    requires Between(s) && Fits(env, s.screen.work, s.streams, m) && m.Update?
    ensures Between(t) && Turn(env, s, m, t)
    ensures Run(env, s, MessageBytes(env, s.screen.work, s.streams, m) + rest) == Run(env, t, rest)
  {
    hide Agree, Boxed, Displayed, AllSendable, UpdateOf, Rfb.Step, Run, Going;
    var b := UpdateOf(env, s.screen.work, s.streams, m.xs, m.form);
    BetweenIsWf(s);
    t := UpdateRuns(env, s, m.xs, m.form);
    UpdatedIsBetween(env, s, m.xs, t);
    RunSplits(env, s, b, rest);
    LinkStays(env, s, b);
    assert [] + rest == rest;
  }

  lemma BetweenIsWf(s: Session)
    requires Between(s)
    ensures Wf(s) && s.stage.Running?
  {
  }

  lemma OneTurn(env: Env, s: Session, m: Message, rest: bytes) returns (t: Session)
    requires Between(s) && Fits(env, s.screen.work, s.streams, m)
    ensures Between(t) && Turn(env, s, m, t)
    ensures Run(env, s, MessageBytes(env, s.screen.work, s.streams, m) + rest) == Run(env, t, rest)
  {
    hide Agree, Boxed, Fits, MessageBytes, Turn, Rfb.Step, Run, Going, Wf;
    BetweenIsWf(s);
    if m.Update? {
      t := UpdateTurn(env, s, m, rest);
    } else {
      t := QuietTurn(env, s, m);
      Goes(env, s, MessageBytes(env, s.screen.work, s.streams, m), rest);
    }
  }

  lemma UpdatedIsBetween(env: Env, s: Session, xs: seq<Sent>, t: Session)
    requires s.screen.Ok() && AllSendable(env, s.screen.work, s.streams, xs) && Displayed(env, s, [], xs, t)
    ensures Between(t)
  {
  }

  // ---- A conversation

  ghost function ImageAfter(env: Env, work: Image, streams: Streams, m: Message): (o: Image)
    requires work.Ok() && Fits(env, work, streams, m)
    ensures o.Ok()
  {
    if m.Update? then Shown(env, work, streams, m.xs) else work
  }

  ghost function StreamsNext(env: Env, work: Image, streams: Streams, m: Message): Streams
    requires Fits(env, work, streams, m)
  {
    if m.Update? then StreamsEnd(env, work, streams, m.xs) else streams
  }

  ghost predicate AllFit(env: Env, work: Image, streams: Streams, ms: seq<Message>)
    decreases |ms|
  {
    |ms| > 0 ==>
      && work.Ok() && Fits(env, work, streams, ms[0])
      && AllFit(env, ImageAfter(env, work, streams, ms[0]), StreamsNext(env, work, streams, ms[0]), ms[1..])
  }

  ghost function TalkBytes(env: Env, work: Image, streams: Streams, ms: seq<Message>): bytes
    requires AllFit(env, work, streams, ms)
    decreases |ms|
  {
    if |ms| == 0 then []
    else
      MessageBytes(env, work, streams, ms[0])
      + TalkBytes(env, ImageAfter(env, work, streams, ms[0]), StreamsNext(env, work, streams, ms[0]), ms[1..])
  }

  // The picture all the updates make, one after the other.
  ghost function Picture(env: Env, work: Image, streams: Streams, ms: seq<Message>): (o: Image)
    requires work.Ok() && AllFit(env, work, streams, ms)
    ensures o.Ok()
    decreases |ms|
  {
    if |ms| == 0 then work
    else Picture(env, ImageAfter(env, work, streams, ms[0]), StreamsNext(env, work, streams, ms[0]), ms[1..])
  }

  // The client after each message, the first being where it stood.
  ghost predicate Turns(env: Env, ss: seq<Session>, ms: seq<Message>) {
    && |ss| == |ms| + 1
    && (forall i :: 0 <= i < |ss| ==> Between(ss[i]))
    && forall i :: 0 <= i < |ms| ==>
         Fits(env, ss[i].screen.work, ss[i].streams, ms[i]) && Turn(env, ss[i], ms[i], ss[i + 1])
  }

  ghost function UpdatesIn(ms: seq<Message>): nat {
    if |ms| == 0 then 0 else (if ms[0].Update? then 1 else 0) + UpdatesIn(ms[1..])
  }

  lemma TurnShows(env: Env, s: Session, m: Message, t: Session)
    requires Between(s) && s.screen.fb == s.screen.work && Fits(env, s.screen.work, s.streams, m) && Turn(env, s, m, t)
    ensures t.screen.work == ImageAfter(env, s.screen.work, s.streams, m) && t.screen.fb == t.screen.work
    ensures t.streams == StreamsNext(env, s.screen.work, s.streams, m) && t.link == s.link
    ensures t.batch.updates == s.batch.updates + if m.Update? then 1 else 0
  {
    hide Agree, Boxed, AllSendable, Shown, StreamsEnd, Reports;
  }

  lemma {:induction false} TalkRuns(env: Env, s: Session, ms: seq<Message>) returns (ss: seq<Session>)
    requires Between(s) && s.screen.fb == s.screen.work && AllFit(env, s.screen.work, s.streams, ms)
    ensures Turns(env, ss, ms) && ss[0] == s
    ensures var t := ss[|ms|];
            && Run(env, s, TalkBytes(env, s.screen.work, s.streams, ms)) == (t, [])
            && t.screen.work == Picture(env, s.screen.work, s.streams, ms) && t.screen.fb == t.screen.work
            && t.link == s.link && t.batch.updates == s.batch.updates + UpdatesIn(ms)
    decreases |ms|
  {
    hide Agree, Boxed, Fits, MessageBytes, ImageAfter, StreamsNext, Turn, Going, Wf, Rfb.Step, Run;
    BetweenIsWf(s);
    if |ms| == 0 {
      ss := [s];
      NothingMore(env, s);
    } else {
      var work, streams := s.screen.work, s.streams;
      var next := StreamsNext(env, work, streams, ms[0]);
      var others := TalkBytes(env, ImageAfter(env, work, streams, ms[0]), next, ms[1..]);
      var u := OneTurn(env, s, ms[0], others);
      TurnShows(env, s, ms[0], u);
      var rest := TalkRuns(env, u, ms[1..]);
      ss := [s] + rest;
      assert forall i :: 1 <= i < |ss| ==> ss[i] == rest[i - 1];
      assert forall i :: 1 <= i < |ms| ==> ms[i] == ms[1..][i - 1];
    }
  }

  // Any messages in any order, in any reads: each has its effect, one after the
  // other, the displayed image is the picture the updates make, and no byte is
  // left.
  lemma TalkArrives(env: Env, s: Session, ms: seq<Message>, chunks: seq<bytes>) returns (ss: seq<Session>)
    requires Between(s) && s.screen.fb == s.screen.work && AllFit(env, s.screen.work, s.streams, ms)
    requires Flat(chunks) == TalkBytes(env, s.screen.work, s.streams, ms) && |chunks| > 0
    ensures Turns(env, ss, ms) && ss[0] == s
    ensures var (t, rest) := RunAll(env, s, [], chunks);
            && rest == [] && t == ss[|ms|]
            && t.screen.fb == Picture(env, s.screen.work, s.streams, ms) && t.screen.fb == t.screen.work
            && t.batch.updates == s.batch.updates + UpdatesIn(ms)
  {
    hide Agree, Boxed, AllFit, TalkBytes, Picture, Turns, UpdatesIn, Going, Wf, Rfb.Step, Run;
    BetweenIsWf(s);
    ss := TalkRuns(env, s, ms);
    ChunkIndependence(env, s, [], chunks);
    assert [] + Flat(chunks) == Flat(chunks);
  }

  // A whole session with a new client: let in, it shows the desktop, under its
  // name, that the updates make out of a black one.
  lemma SessionArrives(
    env: Env, password: bytes, g: Host, w: nat, h: nat, format: bytes, name: bytes, ms: seq<Message>,
    chunks: seq<bytes>)
    requires CanOpen(env, Fresh(password), g)
    requires 0 < w < 0x1_0000 && 0 < h < 0x1_0000 && |format| == 16 && |name| <= 0x10_0000
    requires AllFit(env, Blank(w, h), Fresh(password).streams, ms)
    requires Flat(chunks) == Welcome(g, w, h, format, name)
               + TalkBytes(env, Blank(w, h), Fresh(password).streams, ms)
    ensures var (t, rest) := RunAll(env, Fresh(password), [], chunks);
            && rest == [] && t.stage.Running? && t.link.name == name && t.batch.updates == UpdatesIn(ms)
            && t.screen.fb == Picture(env, Blank(w, h), Fresh(password).streams, ms)
            && Requests(t.events) == UpdatesIn(ms) + 1 && AsksFit(t.events)
  {
    hide Agree, Boxed, AllFit, TalkBytes, Picture, Turns, UpdatesIn, CanOpen, Welcome, Said, Requests, AsksFit, Going,
      Rfb.Step, Run;
    var s := Fresh(password);
    WasVersion(env, s, g);
    GreetsFirst(g, w, h, format, name);
    var greeting, talk := Welcome(g, w, h, format, name), TalkBytes(env, Blank(w, h), s.streams, ms);
    AtOnce(env, s, chunks);
    var u := WelcomeRuns(env, s, g, w, h, format, name);
    SameImage(u.screen.work, Blank(w, h));
    RunSplits(env, s, greeting, talk);
    assert [] + talk == talk;
    var ss := TalkRuns(env, u, ms);
    EndOfTurns(env, ss, ms);
    ReachableIsSafe(env, password, Flat(chunks));
  }

  lemma GreetsFirst(g: Host, w: nat, h: nat, format: bytes, name: bytes)
    requires Sayable(g.offer) && w < 0x1_0000 && h < 0x1_0000 && |format| == 16 && |name| <= 0x10_0000
    ensures |Welcome(g, w, h, format, name)| > 0
  {
  }

  lemma EndOfTurns(env: Env, ss: seq<Session>, ms: seq<Message>)
    requires Turns(env, ss, ms)
    ensures |ss| == |ms| + 1 && ss[|ms|].stage.Running?
  {
  }

  // Whatever a client has been through, between two updates it is as the
  // results above take it to be.
  lemma ReachableIsBetween(env: Env, password: bytes, stream: bytes)
    ensures var s := Run(env, Fresh(password), stream).0;
            s.stage.Running? && s.batch.left == 0 ==> Between(s) && s.screen.fb == s.screen.work
  {
    ReachableIsSafe(env, password, stream);
    var s := Run(env, Fresh(password), stream).0;
    if s.stage.Running? && s.batch.left == 0 {
      forall x, y | s.screen.fb.Bounds(x, y)
        ensures s.screen.fb.At(x, y) == s.screen.work.At(x, y)
      {
        assert !s.screen.dirty.Has(x, y);
      }
      SameImage(s.screen.fb, s.screen.work);
    }
  }

  // Messages there are none of, and a text too long to be true.
  lemma NotAMessage(env: Env, s: Session, b: bytes)
    requires Between(s) && |b| > 0
    ensures b[0] > 3 ==> Step(env, s, b) == Result(false, 0, Fail(s, UnknownMessage(b[0])))
    ensures b[0] == 3 && |b| >= 8 && U32(b, 4) > 0x10_0000 ==>
              Step(env, s, b) == Result(false, 0, Fail(s, BadClipboard))
  {
  }
}
