// What every step of the RFB client keeps: the displayed and the working
// image agree wherever no change is pending, and the books of rectangles,
// updates and requests balance.
module RfbSafety {
  import opened Bytes
  import opened Images
  import opened Rfb
  import opened RfbRuns
  import Hextile
  import Tight
  import Zrle

  // ---- What a body does

  ghost predicate SameOutside(a: Image, b: Image, r: Rect)
    requires a.Ok() && b.Ok() && SameSize(a, b)
  {
    forall x, y :: a.Bounds(x, y) && !r.Has(x, y) ==> a.At(x, y) == b.At(x, y)
  }

  // `t` is `s` with more of its rectangle decoded.
  ghost predicate Partway(s: Session, t: Session) {
    && s.screen.Ok() && t.screen.Ok()
    && t.stage == s.stage && t.failedAlready == s.failedAlready && t.link == s.link
    && t.inRect == s.inRect && t.batch == s.batch && t.events == s.events
    && t.cur.rect == s.cur.rect && t.cur.enc == s.cur.enc
    && t.screen.fb == s.screen.fb && t.screen.dirty == s.screen.dirty
    && SameSize(s.screen.work, t.screen.work) && SameOutside(s.screen.work, t.screen.work, s.cur.rect)
  }

  ghost function MarkDirty(s: Session): Session { s.(screen := s.screen.(dirty := s.screen.dirty.United(s.cur.rect))) }

  // A step in a drawing rectangle completes it, breaks it off, or waits.
  ghost predicate Shape(s: Session, r: Result, t: Session, why: Reason) {
    && Partway(s, t)
    && if r.ok then s.batch.left > 0 && r.s == EndRect(MarkDirty(t)) else r.s == t || r.s == Fail(t, why)
  }

  lemma DrewShape(s: Session, m: Session, work: Image, used: nat) returns (t: Session)
    requires Open(s) && Partway(s, m) && work.Ok() && SameSize(work, s.screen.work)
            && SameOutside(s.screen.work, work, s.cur.rect)
    ensures Shape(s, Drew(m, work, used), t, BadZrle)
  {
    t := m.(screen := m.screen.(work := work));
  }

  lemma TightShape(env: Env, s: Session, op: Tight.Op, used: nat) returns (t: Session, why: Reason)
    requires Open(s) && Begun(s) && Tight.GoodOp(op, s.cur.rect.w, s.cur.rect.h)
    ensures Shape(s, ApplyTight(env, s, op, used), t, why)
  {
    t, why := s, BadJpeg;
    var r, work := s.cur.rect, s.screen.work;
    match op
    case Fill(c) => t := DrewShape(s, s, Hextile.Fill(work, r, c), used);
    case Picture(data) =>
      var j := env.jpeg(data);
      if j.Some? && j.value.w == r.w && j.value.h == r.h {
        t := DrewShape(s, s, Paint(work, r, JpegPixels(j.value, r.Area())), used);
      }
    case Basic(i, f, Plain(d)) => t := DrewShape(s, s, Paint(work, r, Tight.Pixels(f, r.w, r.h, d)), used);
    case Basic(i, f, Zipped(z)) =>
      var call := Inflation(z, Tight.RowSize(f, r.w) * r.h);
      var fed := WithTight(s, Feed(s.streams.tight, i, call));
      var d := Inflate(env, HistoryOf(s.streams.tight[i]), call);
      if d.Some? {
        t := DrewShape(s, fed, Paint(work, r, Tight.Pixels(f, r.w, r.h, d.value)), used);
      } else {
        t, why := fed, Corrupt;
      }
  }

  lemma ZrleInside(s: Session, d: bytes)
    requires Begun(s) && s.cur.enc == ENC_ZRLE
    ensures SameOutside(s.screen.work, Zrle.DecodeRect(s.screen.work, s.cur.rect, d).1, s.cur.rect)
  {
    var work := Zrle.DecodeRect(s.screen.work, s.cur.rect, d).1;
    forall x, y | s.screen.work.Bounds(x, y) && !s.cur.rect.Has(x, y)
      ensures work.At(x, y) == s.screen.work.At(x, y)
    {
      Zrle.DecodeStaysInside(s.screen.work, s.cur.rect, 0, 0, d, x, y);
    }
  }

  lemma ZrleShape(env: Env, s: Session, b: bytes) returns (t: Session, why: Reason)
    requires Open(s) && Begun(s) && s.cur.enc == ENC_ZRLE
    ensures Shape(s, ZrleBody(env, s, b), t, why)
  {
    t, why := s, OversizedZrle;
    if |b| >= 4 && U32(b, 0) <= MAX_ZRLE && |b| >= 4 + U32(b, 0) {
      var call := Inflation(b[4..4 + U32(b, 0)], -1);
      var hist := HistoryOf(s.streams.zrle);
      t, why := s.(streams := s.streams.(zrle := Some(hist + [call]))), Corrupt;
      var d := Inflate(env, hist, call);
      if d.Some? {
        var (good, work) := Zrle.DecodeRect(s.screen.work, s.cur.rect, d.value);
        ZrleInside(s, d.value);
        why := BadZrle;
        if good {
          t := DrewShape(s, t, work, 4 + U32(b, 0));
        } else {
          t := t.(screen := s.screen.(work := work));
        }
      }
    }
  }

  lemma HextileShape(s: Session, b: bytes) returns (t: Session, why: Reason)
    requires Open(s) && Begun(s) && s.cur.enc == ENC_HEXTILE
    ensures Shape(s, HextileBody(s, b), t, why)
  {
    var l := Hextile.RunLoop(s.cur.rect, ProgressOf(s), b);
    forall x, y | s.screen.work.Bounds(x, y) && !s.cur.rect.Has(x, y)
      ensures l.p.img.At(x, y) == s.screen.work.At(x, y)
    {
      Hextile.LoopStaysInside(s.cur.rect, ProgressOf(s), b, x, y);
    }
    t, why := WithProgress(s, l.p), BadSubrect;
  }

  lemma BodyShape(env: Env, s: Session, b: bytes) returns (t: Session, why: Reason)
    requires Open(s) && Begun(s) && s.cur.enc != ENC_LAST_RECT && s.cur.enc != ENC_DESKTOP_SIZE
    ensures Shape(s, Body(env, s, b), t, why)
  {
    t, why := s, UnsupportedEncoding(s.cur.enc);
    var r, work := s.cur.rect, s.screen.work;
    if s.cur.enc == ENC_RAW {
      if |b| >= r.Area() * 4 {
        t := DrewShape(s, s, Paint(work, r, Hextile.WirePixels(b, r.Area())), r.Area() * 4);
      }
    } else if s.cur.enc == ENC_COPY_RECT {
      if |b| >= 4 {
        var source := Rect(U16(b, 0), U16(b, 2), r.w, r.h);
        if source.Null() || !work.Covers(source) {
          why := BadCopy;
        } else {
          t := DrewShape(s, s, Paint(work, r, Read(work, source)), 4);
        }
      }
    } else if s.cur.enc == ENC_HEXTILE {
      t, why := HextileShape(s, b);
    } else if s.cur.enc == ENC_TIGHT {
      if |b| > 0 {
        t := WithTight(s, TightResets(s.streams.tight, b[0]));
        var p := Tight.Parse(b, r.w, r.h);
        if p.BadKind? {
          why := BadTightKind;
        } else if p.BadFilter? {
          why := BadTightFilter;
        } else if p.Ready? {
          var u, w := TightShape(env, t, p.op, p.used);
          t, why := u, w;
        }
      }
    } else if s.cur.enc == ENC_ZRLE {
      t, why := ZrleShape(env, s, b);
    }
  }

  // ---- Double buffering

  // Wherever the two images differ, a change is pending: it is marked dirty,
  // or it lies in the rectangle being decoded.
  ghost predicate Agree(s: Session)
    requires s.screen.Ok()
  {
    forall x, y :: s.screen.fb.Bounds(x, y) && s.screen.fb.At(x, y) != s.screen.work.At(x, y)
      ==> s.screen.dirty.Has(x, y) || (s.inRect && Drawing(s.cur.enc) && s.cur.rect.Has(x, y))
  }

  lemma UnitedCovers(a: Rect, b: Rect, x: int, y: int)
    ensures a.Has(x, y) || b.Has(x, y) ==> a.United(b).Has(x, y)
  {
  }

  // Publishing a dirty box that covers every difference makes the images equal.
  lemma PublishEqualizes(sc: Screen)
    requires sc.Ok()
    requires forall x, y :: sc.fb.Bounds(x, y) && sc.fb.At(x, y) != sc.work.At(x, y) ==> sc.dirty.Has(x, y)
    ensures Publish(sc).fb == sc.work
  {
    var d := sc.dirty.Clipped(sc.work.w, sc.work.h);
    var o := Publish(sc).fb;
    forall x, y | o.Bounds(x, y)
      ensures o.At(x, y) == sc.work.At(x, y)
    {
      assert sc.fb.Bounds(x, y) && (sc.dirty.Has(x, y) <==> d.Has(x, y));
      if d.w > 0 && d.h > 0 {
        OverlayAt(sc.fb, d, sc.work, x, y);
      }
    }
    SameImage(o, sc.work);
  }

  // The images agree after a completed rectangle, and are equal everywhere
  // after a completed update.
  lemma EndRectAgrees(s: Session)
    requires Open(s)
    requires forall x, y :: s.screen.fb.Bounds(x, y) && s.screen.fb.At(x, y) != s.screen.work.At(x, y)
               ==> s.screen.dirty.Has(x, y)
    ensures var e := EndRect(s);
            && e.screen.Ok() && Agree(e)
            && (e.batch.updates > s.batch.updates ==>
                  e.screen.fb == e.screen.work && e.screen.dirty == EMPTY && !e.inRect)
            && (e.batch.updates == s.batch.updates ==> e.screen.fb == s.screen.fb)
  {
    PublishEqualizes(s.screen);
  }

  lemma MarkedCovers(s: Session, t: Session)
    requires Open(s) && s.inRect && Agree(s) && Partway(s, t)
    ensures var m := MarkDirty(t).screen;
            forall x, y :: m.fb.Bounds(x, y) && m.fb.At(x, y) != m.work.At(x, y) ==> m.dirty.Has(x, y)
  {
    var m := MarkDirty(t).screen;
    forall x, y | m.fb.Bounds(x, y) && m.fb.At(x, y) != m.work.At(x, y)
      ensures m.dirty.Has(x, y)
    {
      assert s.screen.fb.Bounds(x, y) && s.screen.work.Bounds(x, y);
      UnitedCovers(s.screen.dirty, s.cur.rect, x, y);
    }
  }

  // How a step may touch the displayed image.
  ghost predicate ImagesKept(s: Session, t: Session) {
    && s.screen.Ok() && t.screen.Ok() && Agree(t)
    && t.batch.updates >= s.batch.updates
    && (t.batch.updates > s.batch.updates ==> t.screen.fb == t.screen.work && t.screen.dirty == EMPTY && !t.inRect)
    && (t.screen.fb != s.screen.fb ==>
          || t.batch.updates > s.batch.updates
          || (s.stage.ServerInit? && t.stage.Running? && t.screen.fb == Blank(t.screen.fb.w, t.screen.fb.h))
          || (t.cur.enc == ENC_DESKTOP_SIZE
              && t.events == s.events + [Resized(t.cur.rect.w, t.cur.rect.h)]
              && t.screen.fb == Blank(t.cur.rect.w, t.cur.rect.h)))
  }

  lemma BodyAgrees(env: Env, s: Session, b: bytes)
    requires Open(s) && Begun(s) && s.inRect && Agree(s)
    ensures ImagesKept(s, Body(env, s, b).s)
  {
    var r := Body(env, s, b);
    if s.cur.enc == ENC_LAST_RECT {
      EndRectAgrees(s);
    } else if s.cur.enc == ENC_DESKTOP_SIZE {
      var w, h := s.cur.rect.w, s.cur.rect.h;
      if 0 < w <= MAX_DIMENSION && 0 < h <= MAX_DIMENSION {
        EndRectAgrees(Resizing(s, w, h));
      }
    } else {
      var t, why := BodyShape(env, s, b);
      if r.ok {
        MarkedCovers(s, t);
        EndRectAgrees(MarkDirty(t));
      } else if Drawing(s.cur.enc) {
        PartwayAgrees(s, t);
      }
    }
  }

  lemma PartwayAgrees(s: Session, t: Session)
    requires Open(s) && s.inRect && Drawing(s.cur.enc) && Agree(s) && Partway(s, t)
    ensures Agree(t)
  {
    forall x, y | t.screen.fb.Bounds(x, y) && t.screen.fb.At(x, y) != t.screen.work.At(x, y)
      ensures t.screen.dirty.Has(x, y) || t.cur.rect.Has(x, y)
    {
      assert s.screen.fb.Bounds(x, y) && s.screen.work.Bounds(x, y);
    }
  }

  lemma StepRectAgrees(env: Env, s: Session, b: bytes)
    requires Wf(s) && s.stage.Running? && s.batch.left > 0 && Agree(s)
    ensures ImagesKept(s, StepRect(env, s, b).s)
  {
    if s.inRect {
      BodyAgrees(env, s, b);
    } else if |b| >= 12 {
      var t := s.(inRect := true, cur := Header(b));
      if Acceptable(t.cur, s.screen.work) {
        BodyAgrees(env, t, b[12..]);
      }
    }
  }

  lemma StepMessageAgrees(s: Session, b: bytes)
    requires Wf(s) && s.stage.Running? && s.batch.left == 0 && Agree(s)
    ensures ImagesKept(s, StepMessage(s, b).s)
  {
    if |b| >= 4 && b[0] == 0 && U16(b, 2) == 0 {
      PublishEqualizes(s.screen);
    }
  }

  // Double-buffer agreement, one step: pending changes stay marked; a finished
  // update leaves the images equal; the displayed image changes only then, or
  // when a framebuffer is allocated.
  lemma StepAgrees(env: Env, s: Session, b: bytes)
    requires Wf(s) && Agree(s)
    ensures ImagesKept(s, Step(env, s, b).s)
  {
    match s.stage
    case Running =>
      if s.batch.left > 0 {
        StepRectAgrees(env, s, b);
      } else {
        StepMessageAgrees(s, b);
      }
    case _ =>
  }

  // ---- Books

  ghost function Requests(es: seq<Event>): nat {
    if |es| == 0 then 0 else Requests(es[..|es| - 1]) + if es[|es| - 1].SentRequest? then 1 else 0
  }

  lemma {:induction false} RequestsAdd(a: seq<Event>, b: seq<Event>)
    ensures Requests(a + b) == Requests(a) + Requests(b)
    decreases |b|
  {
    if |b| == 0 {
      assert a + b == a;
    } else {
      RequestsAdd(a, b[..|b| - 1]);
      assert (a + b)[..|a + b| - 1] == a + b[..|b| - 1];
    }
  }

  // Every finished update asks for the next one, and nothing else does after
  // the first request.
  ghost predicate Booked(s: Session) {
    && (s.stage.Running? ==> Requests(s.events) == s.batch.updates + 1)
    && (!s.stage.Running? && !s.stage.Idle? ==> Requests(s.events) == 0)
  }

  lemma RequestsQuiet(a: seq<Event>, e: Event)
    requires !e.SentRequest?
    ensures Requests(a + [e]) == Requests(a)
  {
    RequestsAdd(a, [e]);
    assert Requests([e]) == 0 by {
      assert [e][..0] == [];
    }
  }

  lemma OneRequest(sc: Screen, incremental: bool)
    requires sc.Visible()
    ensures Requests(Request(sc, incremental)) == 1
  {
    assert Request(sc, incremental)[..0] == [];
  }

  lemma FinishBooks(s: Session)
    requires s.screen.Ok() && s.screen.Visible()
    ensures Requests(FinishUpdate(s).events) == Requests(s.events) + 1
  {
    var news, ask := Announce(s.screen), Request(s.screen, !s.batch.resized);
    RequestsAdd(s.events + news, ask);
    RequestsAdd(s.events, news);
    OneRequest(s.screen, !s.batch.resized);
    assert news[..0] == [];
  }

  lemma EndRectBooks(s: Session)
    requires Open(s)
    ensures Requests(EndRect(s).events) - Requests(s.events) == EndRect(s).batch.updates - s.batch.updates
  {
    var (batch, last) := CountRect(s.batch, s.cur.enc);
    if last {
      FinishBooks(s.(inRect := false, batch := batch));
    }
  }

  // What completing a rectangle does to the books.
  ghost predicate Tallied(s: Session, t: Session) {
    var b, c := s.batch, t.batch;
    if b.lastRect then
      && (c.updates == b.updates + 1 <==> c.rects == b.rects + 1 && t.cur.enc == ENC_LAST_RECT)
      && (c.updates == b.updates || c.updates == b.updates + 1)
      && b.rects <= c.rects <= b.rects + 1
      && (c.updates == b.updates ==> c.lastRect)
    else
      && !c.lastRect
      && c.rects + c.left == b.rects + b.left
      && c.updates == b.updates + if c.left == 0 then 1 else 0
  }

  lemma EndRectTallies(s: Session)
    requires Open(s)
    ensures Tallied(s, EndRect(s)) && EndRect(s).stage.Running?
  {
  }

  lemma BodyBooks(env: Env, s: Session, b: bytes)
    requires Open(s) && Begun(s) && s.inRect
    ensures var t := Body(env, s, b).s;
            if !t.stage.Running? then t.stage.Idle?
            else Tallied(s, t) && Requests(t.events) - Requests(s.events) == t.batch.updates - s.batch.updates
  {
    hide RawBody, CopyBody, HextileBody, TightBody, ZrleBody, EndRect, Requests;
    var r := Body(env, s, b);
    if s.cur.enc == ENC_LAST_RECT {
      EndRectTallies(s);
      EndRectBooks(s);
    } else if s.cur.enc == ENC_DESKTOP_SIZE {
      var w, h := s.cur.rect.w, s.cur.rect.h;
      if 0 < w <= MAX_DIMENSION && 0 < h <= MAX_DIMENSION {
        RequestsQuiet(s.events, Resized(w, h));
        EndRectTallies(Resizing(s, w, h));
        EndRectBooks(Resizing(s, w, h));
      }
    } else {
      var t, why := BodyShape(env, s, b);
      if r.ok {
        EndRectTallies(MarkDirty(t));
        EndRectBooks(MarkDirty(t));
      }
    }
  }

  // Update accounting, one step inside an update: announced rectangles are
  // conserved, and the update is finished exactly when none is left - or, when
  // 65535 were announced, exactly by a LastRect.
  lemma RectanglesBalance(env: Env, s: Session, b: bytes)
    requires Wf(s) && s.stage.Running? && s.batch.left > 0
    ensures var t := Step(env, s, b).s;
            if !t.stage.Running? then t.stage.Idle?
            else Tallied(s, t) && Requests(t.events) - Requests(s.events) == t.batch.updates - s.batch.updates
  {
    hide Body, Requests;
    if s.inRect {
      BodyBooks(env, s, b);
    } else if |b| >= 12 {
      var t := s.(inRect := true, cur := Header(b));
      if Acceptable(t.cur, s.screen.work) {
        BodyBooks(env, t, b[12..]);
      }
    }
  }

  lemma StepMessageBooks(s: Session, b: bytes)
    requires Wf(s) && s.stage.Running? && s.batch.left == 0 && Booked(s)
    ensures Booked(StepMessage(s, b).s)
  {
    if |b| >= 4 && b[0] == 0 && U16(b, 2) == 0 {
      FinishBooks(s.(batch := BatchOf(s.batch, 0)));
    } else if |b| >= 1 && b[0] == 2 {
      RequestsQuiet(s.events, Bell);
    } else if |b| >= 8 && b[0] == 3 && U32(b, 4) <= MAX_STRING && |b| >= 8 + U32(b, 4) {
      RequestsQuiet(s.events, Clipboard(b[8..8 + U32(b, 4)]));
    }
  }

  lemma HandshakeBooks(env: Env, s: Session, b: bytes)
    requires Wf(s) && !s.stage.Running? && !s.stage.Idle? && Booked(s)
    ensures Booked(Step(env, s, b).s)
  {
    hide Requests;
    var t := Step(env, s, b).s;
    if s.stage.ServerInit? {
      if t.stage.Running? {
        var ask := Request(t.screen, false);
        RequestsQuiet(s.events, SentSetup);
        RequestsAdd(s.events + [SentSetup], ask);
        RequestsQuiet(s.events + [SentSetup] + ask, Ready);
        OneRequest(t.screen, false);
      }
    } else if !t.stage.Idle? {
      assert Requests(t.events) == 0 by {
        forall e: Event, es: seq<Event> | !e.SentRequest?
          ensures Requests(es + [e]) == Requests(es)
        {
          RequestsQuiet(es, e);
        }
      }
    }
  }

  lemma StepBooks(env: Env, s: Session, b: bytes)
    requires Wf(s) && Booked(s)
    ensures Booked(Step(env, s, b).s)
  {
    if s.stage.Running? {
      if s.batch.left > 0 {
        RectanglesBalance(env, s, b);
      } else {
        StepMessageBooks(s, b);
      }
    } else if !s.stage.Idle? {
      HandshakeBooks(env, s, b);
    }
  }

  // ---- What is asked for

  // A new size has been announced since the last request.
  ghost predicate ResizedSince(es: seq<Event>) {
    |es| > 0
    && var e := es[|es| - 1];
       e.Resized? || (!e.SentRequest? && ResizedSince(es[..|es| - 1]))
  }

  // The screen's size, by what was announced and asked for last.
  ghost function SizeSaid(es: seq<Event>): (nat, nat) {
    if |es| == 0 then (0, 0)
    else match es[|es| - 1]
      case Resized(w, h) => (w, h)
      case SentRequest(_, w, h) => (w, h)
      case _ => SizeSaid(es[..|es| - 1])
  }

  // The first request is for everything. Each later one is for the screen as
  // it is, and incremental unless that is a new one since the last request.
  ghost predicate AsksFit(es: seq<Event>) {
    |es| > 0 ==>
      var e, before := es[|es| - 1], es[..|es| - 1];
      && AsksFit(before)
      && (e.SentRequest? ==>
            if Requests(before) == 0 then !e.incremental
            else (e.incremental <==> !ResizedSince(before)) && (e.w, e.h) == SizeSaid(before))
  }

  lemma OneMoreEvent(es: seq<Event>, e: Event)
    ensures ResizedSince(es + [e]) <==> e.Resized? || (!e.SentRequest? && ResizedSince(es))
    ensures SizeSaid(es + [e]) ==
            if e.Resized? || e.SentRequest? then (e.w, e.h) else SizeSaid(es)
    ensures AsksFit(es + [e]) <==>
            AsksFit(es)
            && (e.SentRequest? ==>
                  if Requests(es) == 0 then !e.incremental
                  else (e.incremental <==> !ResizedSince(es)) && (e.w, e.h) == SizeSaid(es))
  {
    assert (es + [e])[..|es|] == es;
  }

  // The books on sizes: what the client has noted is what it has announced, and
  // between updates there is nothing left to publish.
  ghost predicate Noted(s: Session) {
    && AsksFit(s.events)
    && (s.stage.Running? ==>
          && (s.batch.resized <==> ResizedSince(s.events))
          && SizeSaid(s.events) == (s.screen.work.w, s.screen.work.h)
          && (s.batch.left == 0 ==> s.screen.dirty == EMPTY && !s.batch.resized))
    && (!s.stage.Running? && !s.stage.Idle? ==> !ResizedSince(s.events))
  }

  lemma FinishNotes(s: Session)
    requires s.screen.Ok() && s.screen.Visible() && s.stage.Running? && Requests(s.events) > 0 && AsksFit(s.events)
    requires (s.batch.resized <==> ResizedSince(s.events)) && SizeSaid(s.events) == (s.screen.work.w, s.screen.work.h)
    ensures Noted(FinishUpdate(s))
    ensures var es := FinishUpdate(s).events;
            var n := |es| - 1;
            && n >= |s.events| && es[..|s.events|] == s.events
            && es[n] == SentRequest(!ResizedSince(es[..n]), s.screen.work.w, s.screen.work.h)
  {
    var d := s.screen.dirty.Clipped(s.screen.work.w, s.screen.work.h);
    var mid := s.events + Announce(s.screen);
    assert mid == s.events || mid == s.events + [Changed(d)];
    OneMoreEvent(s.events, Changed(d));
    RequestsQuiet(s.events, Changed(d));
    var ask := SentRequest(!s.batch.resized, s.screen.work.w, s.screen.work.h);
    OneMoreEvent(mid, ask);
    var es := FinishUpdate(s).events;
    assert es == mid + [ask] && es[..|es| - 1] == mid;
  }

  // A finished update's last event is its one request.
  ghost predicate AsksLast(s: Session, t: Session) {
    t.batch.updates > s.batch.updates ==>
      var n := |t.events| - 1;
      && n >= |s.events| && t.events[..|s.events|] == s.events
      && t.events[n] == SentRequest(!ResizedSince(t.events[..n]), t.screen.work.w, t.screen.work.h)
  }

  lemma EndRectNotes(s: Session)
    requires Open(s) && Requests(s.events) > 0 && AsksFit(s.events)
    requires (s.batch.resized <==> ResizedSince(s.events)) && SizeSaid(s.events) == (s.screen.work.w, s.screen.work.h)
    ensures Noted(EndRect(s)) && AsksLast(s, EndRect(s))
  {
    var (batch, last) := CountRect(s.batch, s.cur.enc);
    if last {
      FinishNotes(s.(inRect := false, batch := batch));
    }
  }

  lemma FailNotes(s: Session, why: Reason)
    requires AsksFit(s.events) && !s.failedAlready
    ensures Noted(Fail(s, why))
  {
    OneMoreEvent(s.events, Failure(why));
    OneMoreEvent(s.events + [Failure(why)], Closed);
    assert s.events + [Failure(why), Closed] == s.events + [Failure(why)] + [Closed];
  }

  lemma BodyNotes(env: Env, s: Session, b: bytes)
    requires Open(s) && Begun(s) && s.inRect && Noted(s) && Booked(s)
    ensures Noted(Body(env, s, b).s) && AsksLast(s, Body(env, s, b).s)
  {
    hide RawBody, CopyBody, HextileBody, TightBody, ZrleBody, EndRect, Requests, AsksFit, ResizedSince, SizeSaid, Fail;
    var r := Body(env, s, b);
    if s.cur.enc == ENC_LAST_RECT {
      EndRectNotes(s);
    } else if s.cur.enc == ENC_DESKTOP_SIZE {
      var w, h := s.cur.rect.w, s.cur.rect.h;
      if 0 < w <= MAX_DIMENSION && 0 < h <= MAX_DIMENSION {
        OneMoreEvent(s.events, Resized(w, h));
        RequestsQuiet(s.events, Resized(w, h));
        EndRectNotes(Resizing(s, w, h));
        Prefix(s.events, [Resized(w, h)], r.s.events);
      } else {
        FailNotes(s, BadDesktopSize);
        FailKeepsBatch(s, BadDesktopSize);
      }
    } else {
      var t, why := BodyShape(env, s, b);
      FailNotes(t, why);
      FailKeepsBatch(t, why);
      if r.ok {
        EndRectNotes(MarkDirty(t));
      }
    }
  }

  lemma Prefix(a: seq<Event>, b: seq<Event>, es: seq<Event>)
    ensures |es| >= |a + b| && es[..|a + b|] == a + b ==> |es| >= |a| && es[..|a|] == a
  {
    if |es| >= |a + b| && es[..|a + b|] == a + b {
      assert es[..|a|] == es[..|a + b|][..|a|];
    }
  }

  lemma FailKeepsBatch(s: Session, why: Reason)
    ensures Fail(s, why).batch == s.batch
  {
  }

  lemma StepRectNotes(env: Env, s: Session, b: bytes)
    requires Wf(s) && s.stage.Running? && s.batch.left > 0 && Noted(s) && Booked(s)
    ensures Noted(StepRect(env, s, b).s) && AsksLast(s, StepRect(env, s, b).s)
  {
    hide Body, Requests, AsksFit, ResizedSince, SizeSaid, Fail;
    if s.inRect {
      BodyNotes(env, s, b);
    } else if |b| >= 12 {
      var t := s.(inRect := true, cur := Header(b));
      if Acceptable(t.cur, s.screen.work) {
        BodyNotes(env, t, b[12..]);
      } else {
        FailNotes(t, OutsideScreen);
        FailKeepsBatch(t, OutsideScreen);
      }
    }
  }

  lemma StepMessageNotes(s: Session, b: bytes)
    requires Wf(s) && s.stage.Running? && s.batch.left == 0 && Noted(s) && Booked(s)
    ensures Noted(StepMessage(s, b).s) && AsksLast(s, StepMessage(s, b).s)
  {
    hide Requests, AsksFit, ResizedSince, SizeSaid;
    if |b| >= 4 && b[0] == 0 && U16(b, 2) == 0 {
      FinishNotes(s.(batch := BatchOf(s.batch, 0)));
    } else if |b| >= 1 && b[0] == 2 {
      OneMoreEvent(s.events, Bell);
    } else if |b| >= 8 && b[0] == 3 {
      FailNotes(s, BadClipboard);
      if U32(b, 4) <= MAX_STRING && |b| >= 8 + U32(b, 4) {
        OneMoreEvent(s.events, Clipboard(b[8..8 + U32(b, 4)]));
      }
    } else if |b| >= 1 && b[0] > 3 {
      FailNotes(s, UnknownMessage(b[0]));
    }
  }

  lemma OpenedNotes(s: Session, w: nat, h: nat)
    requires AsksFit(s.events) && !ResizedSince(s.events) && Requests(s.events) == 0 && w > 0 && h > 0
    requires s.batch == NO_BATCH && s.screen.dirty == EMPTY
    ensures Noted(Opened(s, w, h))
  {
    var first := s.events + [SentSetup];
    var ask := SentRequest(false, w, h);
    OneMoreEvent(s.events, SentSetup);
    RequestsQuiet(s.events, SentSetup);
    OneMoreEvent(first, ask);
    OneMoreEvent(first + [ask], Ready);
  }

  lemma HandshakeNotes(env: Env, s: Session, b: bytes)
    requires Wf(s) && !s.stage.Running? && !s.stage.Idle? && Noted(s) && Booked(s)
    ensures Noted(Step(env, s, b).s)
  {
    hide Requests, AsksFit, ResizedSince, SizeSaid, Opened, U16;
    forall t: Session, why: Reason | AsksFit(t.events) && !t.failedAlready
      ensures Noted(Fail(t, why))
    {
      FailNotes(t, why);
    }
    forall es: seq<Event>, e: Event | !e.Resized? && !e.SentRequest?
      ensures ResizedSince(es + [e]) <==> ResizedSince(es)
      ensures AsksFit(es + [e]) <==> AsksFit(es)
    {
      OneMoreEvent(es, e);
    }
    if s.stage.ServerInit? && |b| >= 24 && |b| >= 24 + U32(b, 20) && U16(b, 0) > 0 && U16(b, 2) > 0 {
      OpenedNotes(s.(link := s.link.(name := b[24..24 + U32(b, 20)])), U16(b, 0), U16(b, 2));
    }
  }

  // What the client has noted stays true, and a step that finishes an update
  // ends by asking for the next: incrementally, unless a new size has come
  // since the last request, and always for the whole of the screen.
  lemma StepNotes(env: Env, s: Session, b: bytes)
    requires Wf(s) && Noted(s) && Booked(s)
    ensures Noted(Step(env, s, b).s)
    ensures s.stage.Running? ==> AsksLast(s, Step(env, s, b).s)
  {
    if s.stage.Running? {
      if s.batch.left > 0 {
        StepRectNotes(env, s, b);
      } else {
        StepMessageNotes(s, b);
      }
    } else if !s.stage.Idle? {
      HandshakeNotes(env, s, b);
    }
  }

  // ---- Runs

  lemma {:induction false} RunKeeps(env: Env, s: Session, b: bytes)
    requires Wf(s) && Agree(s) && Booked(s) && Noted(s)
    ensures var t := Run(env, s, b).0; Agree(t) && Booked(t) && Noted(t)
    decreases |b|
  {
    if !s.stage.Idle? {
      StepSound(env, s, b);
      StepAgrees(env, s, b);
      StepBooks(env, s, b);
      StepNotes(env, s, b);
      var r := Step(env, s, b);
      if r.ok {
        RunKeeps(env, r.s, b[r.used..]);
      }
    }
  }

  // In every state a fresh client can reach, whatever the server sends: the
  // images differ only where a change is pending, all drawing is in bounds
  // (the state is well formed), once running, update requests sent equal
  // updates finished plus one, and every one of them was for what it had to be.
  lemma ReachableIsSafe(env: Env, password: bytes, stream: bytes)
    ensures var s := Run(env, Fresh(password), stream).0;
            && Wf(s) && Agree(s) && (s.stage.Running? ==> Requests(s.events) == s.batch.updates + 1)
            && AsksFit(s.events) && Noted(s)
  {
    RunKeeps(env, Fresh(password), stream);
  }

  // Consecutive states of a client that is served, each step with whatever
  // bytes have arrived by then.
  ghost predicate Trace(env: Env, ss: seq<Session>, bs: seq<bytes>) {
    && |ss| == |bs| + 1
    && (forall i :: 0 <= i < |ss| ==> Wf(ss[i]) && ss[i].stage.Running?)
    && (forall i :: 0 <= i < |bs| ==> ss[i + 1] == Step(env, ss[i], bs[i]).s)
  }

  // An update announced with n rectangles is still open after fewer of them
  // and finished by exactly the n-th, however the data arrives.
  lemma {:induction false} UpdateTakesItsRectangles(env: Env, ss: seq<Session>, bs: seq<bytes>, n: nat)
    requires Trace(env, ss, bs) && n > 0
    requires ss[0].batch.left == n && !ss[0].batch.lastRect
    requires forall i :: 0 <= i < |bs| ==> ss[i].batch.updates == ss[0].batch.updates
    ensures var first, last := ss[0].batch, ss[|bs|].batch;
            && last.rects - first.rects == n - last.left
            && (last.updates > first.updates <==> last.rects - first.rects == n)
            && !last.lastRect
    decreases |bs|
  {
    if |bs| > 0 {
      var k := |bs| - 1;
      UpdateTakesItsRectangles(env, ss[..k + 1], bs[..k], n);
      assert ss[..k + 1][k] == ss[k] && ss[k].batch.updates == ss[0].batch.updates;
      assert ss[k + 1] == Step(env, ss[k], bs[k]).s;
      RectanglesBalance(env, ss[k], bs[k]);
    }
  }

  // An update announced with 65535 rectangles is finished by its first
  // LastRect and by nothing before it.
  lemma {:induction false} OpenEndedUpdate(env: Env, ss: seq<Session>, bs: seq<bytes>)
    requires Trace(env, ss, bs) && ss[0].batch.lastRect
    requires forall i :: 0 <= i < |bs| ==> ss[i].batch.updates == ss[0].batch.updates
    ensures forall i :: 0 <= i < |bs| ==> ss[i].batch.lastRect
    ensures |bs| > 0 ==>
              var s, t := ss[|bs| - 1], ss[|bs|];
              t.batch.updates > s.batch.updates <==> t.batch.rects == s.batch.rects + 1 && t.cur.enc == ENC_LAST_RECT
    decreases |bs|
  {
    if |bs| > 0 {
      var k := |bs| - 1;
      OpenEndedUpdate(env, ss[..k + 1], bs[..k]);
      if k > 0 {
        assert ss[k - 1].batch.lastRect && ss[k] == Step(env, ss[k - 1], bs[k - 1]).s by {
          assert ss[..k + 1][k - 1].batch.lastRect;
        }
        RectanglesBalance(env, ss[k - 1], bs[k - 1]);
      }
      RectanglesBalance(env, ss[k], bs[k]);
      forall i | 0 <= i < |bs|
        ensures ss[i].batch.lastRect
      {
        assert i < k ==> ss[..k + 1][i].batch.lastRect;
      }
    }
  }
}
