// Whole framebuffer updates: what a server sends for a list of rectangles, in
// any encodings and cut into any reads, is what the client then displays, and
// what it says of it.
module RfbUpdates {
  import opened Bytes
  import opened Images
  import opened Rfb
  import opened RfbRuns
  import opened RfbSafety
  import opened RfbSent
  import Tight

  // ---- A list of rectangles

  ghost predicate AllSendable(env: Env, work: Image, streams: Streams, xs: seq<Sent>)
    decreases |xs|
  {
    |xs| > 0 ==>
      && Sendable(env, work, streams, xs[0])
      && AllSendable(env, After(work, xs[0]), StreamsAfter(env, work, streams, xs[0]), xs[1..])
  }

  ghost function WireOf(env: Env, work: Image, streams: Streams, xs: seq<Sent>): bytes
    requires AllSendable(env, work, streams, xs)
    decreases |xs|
  {
    if |xs| == 0 then []
    else
      RectOf(env, work, streams, xs[0])
      + WireOf(env, After(work, xs[0]), StreamsAfter(env, work, streams, xs[0]), xs[1..])
  }

  predicate AnyResize(xs: seq<Sent>) { exists i :: 0 <= i < |xs| && xs[i].Resize? }

  // The image with all of them in it, in their order.
  ghost function Shown(env: Env, work: Image, streams: Streams, xs: seq<Sent>): (o: Image)
    requires work.Ok() && AllSendable(env, work, streams, xs)
    ensures o.Ok()
    decreases |xs|
  {
    if |xs| == 0 then work
    else Shown(env, After(work, xs[0]), StreamsAfter(env, work, streams, xs[0]), xs[1..])
  }

  ghost function StreamsEnd(env: Env, work: Image, streams: Streams, xs: seq<Sent>): Streams
    requires AllSendable(env, work, streams, xs)
    decreases |xs|
  {
    if |xs| == 0 then streams
    else StreamsEnd(env, After(work, xs[0]), StreamsAfter(env, work, streams, xs[0]), xs[1..])
  }

  // The new sizes announced on the way.
  ghost function Sizes(xs: seq<Sent>): seq<Event> {
    if |xs| == 0 then []
    else (if xs[0].Resize? then [Resized(xs[0].r.w, xs[0].r.h)] else []) + Sizes(xs[1..])
  }

  predicate Inside(a: Rect, b: Rect) { b.x <= a.x && b.y <= a.y && a.x + a.w <= b.x + b.w && a.y + a.h <= b.y + b.h }

  ghost predicate Holds(d: Rect, xs: seq<Sent>) { forall i :: 0 <= i < |xs| ==> Inside(xs[i].r, d) }

  // The smallest rectangle with all of them in it.
  ghost predicate IsHull(d: Rect, xs: seq<Sent>) { Holds(d, xs) && forall e :: Holds(e, xs) ==> Inside(d, e) }

  // What has been drawn is marked as changed: all of a new screen.
  ghost predicate Boxed(sc: Screen, done: seq<Sent>) {
    if AnyResize(done) then
      sc.dirty.x == 0 && sc.dirty.y == 0 && sc.dirty.w >= sc.work.w && sc.dirty.h >= sc.work.h
    else if |done| == 0 then sc.dirty == EMPTY
    else
      && IsHull(sc.dirty, done)
      && forall i :: 0 <= i < |done| ==> sc.work.Covers(done[i].r) && done[i].r.w > 0 && done[i].r.h > 0
  }

  // In the middle of an update of which so much has been drawn: so many
  // rectangles are to come, or as many as it takes.
  ghost predicate Going(s: Session, done: seq<Sent>, open: bool, n: int) {
    && Wf(s) && s.stage.Running? && !s.inRect && Agree(s)
    && s.batch.lastRect == open && s.batch.left == (if open then 1 else n)
    && Boxed(s.screen, done) && (s.batch.resized <==> AnyResize(done))
  }

  // Between two updates.
  ghost predicate Between(s: Session) { Going(s, [], false, 0) }

  lemma RectArrives(env: Env, s: Session, x: Sent)
    requires Wf(s) && s.stage.Running? && !s.inRect && s.batch.left > 0 && Sendable(env, s.screen.work, s.streams, x)
    ensures var b := RectOf(env, s.screen.work, s.streams, x);
            var t := s.(inRect := true, cur := Rfb.Header(b));
            t.cur.enc == Number(x) && Arrived(env, t, x, Step(env, s, b), |b|)
  {
    hide Coded, BodyOf, HeaderOf, Rfb.Body, Rfb.Header, Ended, Tight.Legal;
    var h, body := HeaderOf(x), BodyOf(env, s.screen.work, s.streams, x);
    var b := h + body;
    HeaderReads(x, body);
    HeaderExtends(env, s, b, []);
    assert b + [] == b && b[12..] == body;
    var t := s.(inRect := true, cur := Rfb.Header(b));
    BodyArrives(env, t, x);
  }

  lemma HullGrows(d: Rect, done: seq<Sent>, x: Sent)
    requires IsHull(d, done) && !d.Null() && !x.r.Null()
    ensures IsHull(d.United(x.r), done + [x])
  {
    var u, all := d.United(x.r), done + [x];
    assert forall i :: 0 <= i < |done| ==> all[i] == done[i];
    forall e | Holds(e, all)
      ensures Inside(u, e)
    {
      assert Holds(e, done) by {
        forall i | 0 <= i < |done|
          ensures Inside(done[i].r, e)
        {
          assert Inside(all[i].r, e);
        }
      }
      assert Inside(all[|done|].r, e);
    }
  }
  lemma ResizeAdds(a: seq<Sent>, b: seq<Sent>)
    ensures AnyResize(a + b) <==> AnyResize(a) || AnyResize(b)
  {
    var c := a + b;
    if i :| 0 <= i < |a| && a[i].Resize? {
      assert c[i].Resize?;
    } else if i :| 0 <= i < |b| && b[i].Resize? {
      assert c[|a| + i].Resize?;
    } else if i :| 0 <= i < |c| && c[i].Resize? {
      assert if i < |a| then a[i].Resize? else b[i - |a|].Resize?;
    }
  }

  lemma ResizeOne(x: Sent)
    ensures AnyResize([x]) <==> x.Resize?
  {
    assert [x][0] == x;
  }

  // One rectangle more is one more in the box.
  lemma BoxGrows(sc: Screen, done: seq<Sent>, x: Sent)
    requires sc.Ok() && sc.Visible() && Drawable(sc.work, x) && Boxed(sc, done)
    ensures var box := if x.Resize? then Rect(0, 0, x.r.w, x.r.h) else x.r;
            Boxed(sc.(work := After(sc.work, x), dirty := sc.dirty.United(box)), done + [x])
  {
    hide After;
    ResizeAdds(done, [x]);
    ResizeOne(x);
    if !x.Resize? && !AnyResize(done) {
      if |done| == 0 {
        assert done + [x] == [x];
        assert forall e :: Holds(e, [x]) ==> Inside([x][0].r, e);
      } else {
        assert Inside(done[0].r, sc.dirty);
        HullGrows(sc.dirty, done, x);
      }
    }
  }

  // What finishing an update announces: what has changed, if anything, and the
  // next request - for everything, if the screen is a new one.
  ghost predicate Closes(es: seq<Event>, all: seq<Sent>, w: nat, h: nat) {
    if |all| == 0 then es == [SentRequest(true, w, h)]
    else
      && |es| == 2 && es[0].Changed? && es[1] == SentRequest(!AnyResize(all), w, h)
      && if AnyResize(all) then es[0].dirty == Rect(0, 0, w, h) else IsHull(es[0].dirty, all)
  }

  // The events of an update's last rectangles, and of its end.
  ghost predicate Reports(was: seq<Event>, now: seq<Event>, xs: seq<Sent>, all: seq<Sent>, w: nat, h: nat) {
    var said := was + Sizes(xs);
    |said| <= |now| && now[..|said|] == said && Closes(now[|said|..], all, w, h)
  }

  lemma FinishReports(m: Session, all: seq<Sent>)
    requires m.screen.Ok() && m.screen.Visible() && Boxed(m.screen, all) && (m.batch.resized <==> AnyResize(all))
    ensures Reports(m.events, FinishUpdate(m).events, [], all, m.screen.work.w, m.screen.work.h)
  {
    var W, H, d := m.screen.work.w, m.screen.work.h, m.screen.dirty;
    var c := d.Clipped(W, H);
    if |all| > 0 && !AnyResize(all) {
      assert Inside(all[0].r, d);
      assert Holds(Rect(0, 0, W, H), all);
      assert Inside(d, Rect(0, 0, W, H));
      assert c == d;
    }
    var news := FinishUpdate(m).events;
    assert m.events + Sizes([]) == m.events;
    assert news == m.events + (Announce(m.screen) + Request(m.screen, !m.batch.resized));
    assert news[|m.events|..] == Announce(m.screen) + Request(m.screen, !m.batch.resized);
  }

  // Ended(), spelt out: the update goes on ...
  lemma EndedGoesOn(env: Env, t: Session, x: Sent, done: seq<Sent>)
    requires Open(t) && Sendable(env, t.screen.work, t.streams, x) && t.cur.enc == Number(x)
    requires t.batch.lastRect || t.batch.left > 1
    requires Boxed(t.screen, done) && (t.batch.resized <==> AnyResize(done))
    ensures var e := Ended(env, t, x);
            && e.stage.Running? && !e.inRect && e.screen.work == After(t.screen.work, x)
            && e.streams == StreamsAfter(env, t.screen.work, t.streams, x)
            && e.batch.lastRect == t.batch.lastRect
            && e.batch.left == (if t.batch.lastRect then 1 else t.batch.left - 1)
            && e.batch.updates == t.batch.updates
            && e.events == t.events + Sizes([x])
            && Boxed(e.screen, done + [x]) && (e.batch.resized <==> AnyResize(done + [x]))
  {
    hide Boxed, StreamsAfter, Coded, Tight.Legal;
    if x.Resize? {
      ResizeKeepsStreams(env, t.screen.work, t.streams, x);
    }
    BoxGrows(t.screen, done, x);
    ResizeAdds(done, [x]);
    ResizeOne(x);
    assert [x][1..] == [];
    assert t.events + [] == t.events;
    BoxOf(Ended(env, t, x).screen, t.screen.(work := After(t.screen.work, x),
      dirty := t.screen.dirty.United(if x.Resize? then Rect(0, 0, x.r.w, x.r.h) else x.r)), done + [x]);
  }

  lemma ResizeKeepsStreams(env: Env, work: Image, streams: Streams, x: Sent)
    requires Sendable(env, work, streams, x) && x.Resize?
    ensures StreamsAfter(env, work, streams, x) == streams
  {
  }

  // The displayed image has no part in the box.
  lemma BoxOf(a: Screen, b: Screen, done: seq<Sent>)
    requires a.work == b.work && a.dirty == b.dirty && Boxed(b, done)
    ensures Boxed(a, done)
  {
  }

  // ... or is finished.
  lemma EndedFinishes(env: Env, t: Session, x: Sent, done: seq<Sent>)
    requires Open(t) && Sendable(env, t.screen.work, t.streams, x) && t.cur.enc == Number(x)
    requires !t.batch.lastRect && t.batch.left == 1
    requires Boxed(t.screen, done) && (t.batch.resized <==> AnyResize(done))
    ensures var e := Ended(env, t, x);
            && e.stage.Running? && !e.inRect && e.screen.work == After(t.screen.work, x)
            && e.streams == StreamsAfter(env, t.screen.work, t.streams, x)
            && !e.batch.lastRect && e.batch.left == 0 && e.batch.updates == t.batch.updates + 1
            && Boxed(e.screen, []) && !e.batch.resized
            && Reports(t.events, e.events, [x], done + [x], e.screen.work.w, e.screen.work.h)
  {
    hide Boxed, StreamsAfter, Coded, Tight.Legal, Reports, Publish, Announce, Request;
    if x.Resize? {
      ResizeKeepsStreams(env, t.screen.work, t.streams, x);
    }
    BoxGrows(t.screen, done, x);
    ResizeAdds(done, [x]);
    ResizeOne(x);
    var box := if x.Resize? then Rect(0, 0, x.r.w, x.r.h) else x.r;
    var m := if x.Resize? then Resizing(t, x.r.w, x.r.h)
             else t.(screen := Drawn(t.screen, After(t.screen.work, x), x.r),
                     streams := StreamsAfter(env, t.screen.work, t.streams, x));
    var n := m.(inRect := false, batch := CountRect(m.batch, m.cur.enc).0);
    BoxOf(n.screen, t.screen.(work := After(t.screen.work, x), dirty := t.screen.dirty.United(box)), done + [x]);
    FinishReports(n, done + [x]);
    assert [x][1..] == [];
    SaidSizes(t.events, n.events, Ended(env, t, x).events, [x], done + [x], n.screen.work.w, n.screen.work.h);
    Emptied(Ended(env, t, x).screen);
  }

  lemma Emptied(sc: Screen)
    requires sc.dirty == EMPTY
    ensures Boxed(sc, [])
  {
  }

  lemma SaidSizes(was: seq<Event>, mid: seq<Event>, now: seq<Event>, xs: seq<Sent>, all: seq<Sent>, w: nat, h: nat)
    requires mid == was + Sizes(xs) && Reports(mid, now, [], all, w, h)
    ensures Reports(was, now, xs, all, w, h)
  {
    assert mid + Sizes([]) == mid;
  }

  // The client after a rectangle that is not the last: whatever follows, it has
  // been drawn, and the next is awaited.
  lemma StepsOver(env: Env, s: Session, done: seq<Sent>, open: bool, n: int, x: Sent, rest: bytes)
    returns (t: Session)
    requires Going(s, done, open, n) && (open || n > 1) && Sendable(env, s.screen.work, s.streams, x)
    ensures Going(t, done + [x], open, n - 1)
    ensures Run(env, s, RectOf(env, s.screen.work, s.streams, x) + rest) == Run(env, t, rest)
    ensures t.screen.work == After(s.screen.work, x) && t.streams == StreamsAfter(env, s.screen.work, s.streams, x)
    ensures t.batch.updates == s.batch.updates && t.events == s.events + Sizes([x])
  {
    hide Coded, RectOf, Rfb.Step, After, StreamsAfter, Agree, Tight.Legal, Boxed, Ended;
    t := Stepped(env, s, x, rest);
    var u := Headed(s, RectOf(env, s.screen.work, s.streams, x));
    EndedGoesOn(env, u, x, done);
    BoxOf(t.screen, Ended(env, u, x).screen, done + [x]);
  }

  // The header read.
  ghost function Headed(s: Session, b: bytes): Session
    requires |b| >= 12
  {
    s.(inRect := true, cur := Rfb.Header(b))
  }

  // A step over a rectangle, whatever follows it.
  lemma Stepped(env: Env, s: Session, x: Sent, rest: bytes) returns (t: Session)
    requires Wf(s) && s.stage.Running? && !s.inRect && s.batch.left > 0 && Agree(s)
    requires Sendable(env, s.screen.work, s.streams, x)
    ensures Wf(t) && Agree(t)
    ensures t.batch.updates > s.batch.updates ==> t.screen.fb == t.screen.work
    ensures var b := RectOf(env, s.screen.work, s.streams, x);
            |b| >= 12 && Headed(s, b).cur.enc == Number(x) && t.(cur := Headed(s, b).cur) == Ended(env, Headed(s, b), x)
    ensures Run(env, s, RectOf(env, s.screen.work, s.streams, x) + rest) == Run(env, t, rest)
  {
    hide Coded, Rfb.Step, After, StreamsAfter, Agree, Tight.Legal, Ended;
    var b := RectOf(env, s.screen.work, s.streams, x);
    RectArrives(env, s, x);
    StepExtends(env, s, b, rest);
    StepSound(env, s, b);
    StepAgrees(env, s, b);
    t := Step(env, s, b).s;
    assert (b + rest)[|b|..] == rest;
  }

  // The last one of a counted update.
  lemma LastOver(env: Env, s: Session, done: seq<Sent>, x: Sent) returns (t: Session)
    requires Going(s, done, false, 1) && Sendable(env, s.screen.work, s.streams, x)
    ensures Run(env, s, RectOf(env, s.screen.work, s.streams, x)) == (t, []) && Between(t)
    ensures t.screen.work == After(s.screen.work, x) && t.screen.fb == t.screen.work
    ensures t.streams == StreamsAfter(env, s.screen.work, s.streams, x) && t.batch.updates == s.batch.updates + 1
    ensures Reports(s.events, t.events, [x], done + [x], t.screen.work.w, t.screen.work.h)
  {
    hide Coded, RectOf, Rfb.Step, After, StreamsAfter, Agree, Tight.Legal, Boxed, Ended, Reports;
    var b := RectOf(env, s.screen.work, s.streams, x);
    t := Stepped(env, s, x, []);
    var u := s.(inRect := true, cur := Rfb.Header(b));
    EndedFinishes(env, u, x, done);
    BoxOf(t.screen, Ended(env, u, x).screen, []);
    assert b + [] == b;
    NothingMore(env, t);
  }

  lemma NothingMore(env: Env, t: Session)
    requires Between(t)
    ensures Run(env, t, []) == (t, [])
  {
  }

  // The rectangle that ends an update of as many as it takes; where it is said
  // to be does not matter.
  ghost predicate IsLastRect(b: bytes) { |b| == 12 && b[8..] == [255, 255, 255, 32] }

  lemma LastRectEnds(env: Env, s: Session, done: seq<Sent>, b: bytes) returns (t: Session)
    requires Going(s, done, true, 0) && IsLastRect(b)
    ensures Run(env, s, b) == (t, []) && Between(t)
    ensures t.screen.work == s.screen.work && t.screen.fb == t.screen.work
    ensures t.streams == s.streams && t.batch.updates == s.batch.updates + 1
    ensures Reports(s.events, t.events, [], done, t.screen.work.w, t.screen.work.h)
  {
    hide Agree, Boxed, Reports, Publish, Announce, Request;
    assert b[8] == b[8..][0] && b[9] == b[8..][1] && b[10] == b[8..][2] && b[11] == b[8..][3];
    var u := s.(inRect := true, cur := Rfb.Header(b));
    var n := u.(inRect := false, batch := CountRect(u.batch, u.cur.enc).0);
    assert u.cur.enc == ENC_LAST_RECT;
    FinishReports(n, done);
    StepSound(env, s, b);
    StepAgrees(env, s, b);
    t := FinishUpdate(n);
    assert Step(env, s, b) == Result(true, 12, t);
    Emptied(t.screen);
    NothingMore(env, t);
    assert b[12..] == [];
  }
  // How many there are is said at the start, or comes out at the end.
  datatype Form = Counted | AsManyAsItTakes(last: bytes)

  ghost predicate Framed(form: Form, xs: seq<Sent>) {
    if form.Counted? then |xs| < 0xFFFF else IsLastRect(form.last)
  }

  function TailOf(form: Form): bytes { if form.Counted? then [] else form.last }

  // What a client that has been sent all of an update has made of it.
  ghost predicate Displayed(env: Env, s: Session, done: seq<Sent>, xs: seq<Sent>, t: Session)
    requires s.screen.Ok() && AllSendable(env, s.screen.work, s.streams, xs)
  {
    && Between(t) && t.batch.updates == s.batch.updates + 1
    && t.screen.work == Shown(env, s.screen.work, s.streams, xs) && t.screen.fb == t.screen.work
    && t.streams == StreamsEnd(env, s.screen.work, s.streams, xs)
    && Reports(s.events, t.events, xs, done + xs, t.screen.work.w, t.screen.work.h)
  }

  lemma {:induction false} AllArrive(env: Env, s: Session, done: seq<Sent>, form: Form, xs: seq<Sent>)
    returns (t: Session)
    requires Going(s, done, form.AsManyAsItTakes?, |xs|) && AllSendable(env, s.screen.work, s.streams, xs)
    requires if form.Counted? then |xs| > 0 else IsLastRect(form.last)
    ensures Run(env, s, WireOf(env, s.screen.work, s.streams, xs) + TailOf(form)) == (t, [])
    ensures Displayed(env, s, done, xs, t)
    decreases |xs|
  {
    hide Coded, RectOf, Rfb.Step, After, StreamsAfter, Agree, Tight.Legal, Boxed, Reports, Closes, IsLastRect;
    if |xs| == 0 {
      t := LastRectEnds(env, s, done, form.last);
      assert xs == [] && [] + form.last == form.last && done + xs == done;
    } else {
      var x := xs[0];
      var first := RectOf(env, s.screen.work, s.streams, x);
      var others := WireOf(env, After(s.screen.work, x), StreamsAfter(env, s.screen.work, s.streams, x), xs[1..]);
      assert done + xs == done + [x] + xs[1..];
      if |xs| == 1 && form.Counted? {
        t := LastOver(env, s, done, x);
        ShownOne(env, s.screen.work, s.streams, xs);
        assert xs == [x] && others == [] && first + others + [] == first;
      } else {
        var u := StepsOver(env, s, done, form.AsManyAsItTakes?, |xs|, x, others + TailOf(form));
        assert first + others + TailOf(form) == first + (others + TailOf(form));
        t := AllArrive(env, u, done + [x], form, xs[1..]);
        SizesFirst(xs);
        SaidMore(s.events, u.events, t.events, xs, done + xs, t.screen.work.w, t.screen.work.h);
      }
    }
  }

  lemma ShownOne(env: Env, work: Image, streams: Streams, xs: seq<Sent>)
    requires work.Ok() && AllSendable(env, work, streams, xs) && |xs| == 1
    ensures Shown(env, work, streams, xs) == After(work, xs[0])
    ensures StreamsEnd(env, work, streams, xs) == StreamsAfter(env, work, streams, xs[0])
  {
    hide After, StreamsAfter, Coded;
  }

  lemma SizesFirst(xs: seq<Sent>)
    requires |xs| > 0
    ensures Sizes(xs) == Sizes(xs[..1]) + Sizes(xs[1..]) && xs[..1] == [xs[0]]
  {
    assert xs[..1][1..] == [];
  }

  lemma SaidMore(was: seq<Event>, mid: seq<Event>, now: seq<Event>, xs: seq<Sent>, all: seq<Sent>, w: nat, h: nat)
    requires |xs| > 0 && mid == was + Sizes([xs[0]]) && Reports(mid, now, xs[1..], all, w, h)
    ensures Reports(was, now, xs, all, w, h)
  {
    SizesFirst(xs);
    assert mid + Sizes(xs[1..]) == was + Sizes(xs);
  }

  // ---- A whole update

  ghost function UpdateOf(env: Env, work: Image, streams: Streams, xs: seq<Sent>, form: Form): bytes
    requires AllSendable(env, work, streams, xs) && Framed(form, xs)
  {
    [0, 0] + (if form.Counted? then Wire16(|xs|) else [255, 255]) + WireOf(env, work, streams, xs) + TailOf(form)
  }

  // An update of any rectangles: both images show all of them, what is said of
  // it is their hull and the next request, and nothing is left over.
  lemma UpdateRuns(env: Env, s: Session, xs: seq<Sent>, form: Form) returns (t: Session)
    requires Between(s) && AllSendable(env, s.screen.work, s.streams, xs) && Framed(form, xs)
    ensures Run(env, s, UpdateOf(env, s.screen.work, s.streams, xs, form)) == (t, [])
    ensures Displayed(env, s, [], xs, t)
  {
    hide AllSendable, WireOf, Shown, StreamsEnd, Agree, Boxed, Reports;
    var wire := WireOf(env, s.screen.work, s.streams, xs);
    var count := if form.Counted? then Wire16(|xs|) else [255, 255];
    var b := UpdateOf(env, s.screen.work, s.streams, xs, form);
    var n := if form.Counted? then |xs| else 0xFFFF;
    assert b[2..4] == count == Wire16(n);
    Read16(b, 2, n);
    var u := s.(batch := BatchOf(s.batch, n));
    assert b[4..] == wire + TailOf(form);
    if n == 0 {
      assert wire == [] by {
        NothingSent(env, s.screen.work, s.streams, xs);
      }
      t := NoRectangles(env, s, b);
    } else {
      assert Step(env, s, b) == Result(true, 4, u);
      Begins(s, u);
      t := AllArrive(env, u, [], form, xs);
    }
  }

  lemma Begins(s: Session, u: Session)
    requires Between(s) && u == s.(batch := u.batch)
    ensures Agree(u) && Boxed(u.screen, [])
  {
  }

  lemma NothingSent(env: Env, work: Image, streams: Streams, xs: seq<Sent>)
    requires AllSendable(env, work, streams, xs) && |xs| == 0
    ensures WireOf(env, work, streams, xs) == []
  {
  }

  // An update of no rectangles changes nothing and asks for the next one.
  lemma NoRectangles(env: Env, s: Session, b: bytes) returns (t: Session)
    requires Between(s) && |b| == 4 && b[0] == 0 && U16(b, 2) == 0
    ensures Run(env, s, b) == (t, [])
    ensures Displayed(env, s, [], [], t)
  {
    hide Agree, Reports, Publish, Announce, Request;
    var u := s.(batch := BatchOf(s.batch, 0));
    FinishReports(u, []);
    StepSound(env, s, b);
    StepAgrees(env, s, b);
    t := FinishUpdate(u);
    assert Step(env, s, b) == Result(true, 4, t);
    Emptied(t.screen);
    NothingMore(env, t);
    assert b[4..] == [];
    var none: seq<Sent> := [];
    assert none + none == none;
  }
  // An update of any rectangles, read in any pieces, is displayed as a whole:
  // both images show all of them, one update more is finished, its changes and
  // the next request are reported, and nothing is left over.
  lemma UpdateArrives(env: Env, s: Session, xs: seq<Sent>, form: Form, chunks: seq<bytes>)
    requires Between(s) && AllSendable(env, s.screen.work, s.streams, xs) && Framed(form, xs)
    requires Flat(chunks) == UpdateOf(env, s.screen.work, s.streams, xs, form)
    ensures var work, streams := s.screen.work, s.streams;
            var (t, rest) := RunAll(env, s, [], chunks);
            && rest == [] && Between(t) && t.batch.updates == s.batch.updates + 1
            && t.screen.work == Shown(env, work, streams, xs) && t.screen.fb == t.screen.work
            && t.streams == StreamsEnd(env, work, streams, xs)
            && Reports(s.events, t.events, xs, xs, t.screen.work.w, t.screen.work.h)
  {
    hide AllSendable, Shown, StreamsEnd, Agree, Boxed, Reports, WireOf;
    assert |chunks| > 0;
    ChunkIndependence(env, s, [], chunks);
    assert [] + Flat(chunks) == Flat(chunks);
    var t := UpdateRuns(env, s, xs, form);
    assert [] + xs == xs;
  }

  // ---- What it shows

  // Rectangles that were cut out of one picture - or are copied from where
  // another has shown the same part of it already.
  ghost predicate FromPicture(env: Env, work: Image, streams: Streams, xs: seq<Sent>, want: Image)
    requires AllSendable(env, work, streams, xs) && want.Ok()
    decreases |xs|
  {
    |xs| > 0 ==>
      && !xs[0].Resize? && want.Covers(xs[0].r) && PixelsOf(work, xs[0]) == Read(want, xs[0].r)
      && FromPicture(env, After(work, xs[0]), StreamsAfter(env, work, streams, xs[0]), xs[1..], want)
  }

  ghost predicate InAny(xs: seq<Sent>, x: int, y: int) { exists i :: 0 <= i < |xs| && xs[i].r.Has(x, y) }

  // The picture wherever there was a rectangle, and elsewhere what was there.
  lemma {:induction false} ShowsPicture(
    env: Env, work: Image, streams: Streams, xs: seq<Sent>, want: Image, x: int, y: int)
    requires work.Ok() && AllSendable(env, work, streams, xs) && want.Ok() && SameSize(work, want)
    requires FromPicture(env, work, streams, xs, want) && work.Bounds(x, y)
    ensures SameSize(Shown(env, work, streams, xs), want)
    ensures Shown(env, work, streams, xs).At(x, y) == if InAny(xs, x, y) then want.At(x, y) else work.At(x, y)
    decreases |xs|
  {
    hide Coded, StreamsAfter, Paint, Read, Tight.Legal, PixelsOf;
    if |xs| > 0 {
      var next := After(work, xs[0]);
      InFirstOrRest(xs, x, y);
      OneShows(work, xs[0], want, x, y);
      ShowsPicture(env, next, StreamsAfter(env, work, streams, xs[0]), xs[1..], want, x, y);
    }
  }

  lemma InFirstOrRest(xs: seq<Sent>, x: int, y: int)
    requires |xs| > 0
    ensures InAny(xs, x, y) <==> xs[0].r.Has(x, y) || InAny(xs[1..], x, y)
  {
    if i :| 0 <= i < |xs[1..]| && xs[1..][i].r.Has(x, y) {
      assert xs[i + 1].r.Has(x, y);
    }
    if i :| 0 <= i < |xs| && xs[i].r.Has(x, y) {
      assert i > 0 ==> xs[1..][i - 1].r.Has(x, y);
    }
  }

  lemma OneShows(work: Image, s: Sent, want: Image, x: int, y: int)
    requires Drawable(work, s) && !s.Resize? && want.Ok() && SameSize(work, want) && work.Bounds(x, y)
    requires want.Covers(s.r) && PixelsOf(work, s) == Read(want, s.r)
    ensures After(work, s).Bounds(x, y)
    ensures After(work, s).At(x, y) == if s.r.Has(x, y) then want.At(x, y) else work.At(x, y)
  {
    hide PixelsOf;
  }

  // An update whose rectangles are cut out of a picture, and cover it, displays
  // that picture, however it was coded and whatever the reads.
  lemma PictureIsDisplayed(env: Env, s: Session, xs: seq<Sent>, form: Form, want: Image, chunks: seq<bytes>)
    requires Between(s) && AllSendable(env, s.screen.work, s.streams, xs) && Framed(form, xs)
    requires Flat(chunks) == UpdateOf(env, s.screen.work, s.streams, xs, form)
    requires want.Ok() && SameSize(s.screen.work, want) && FromPicture(env, s.screen.work, s.streams, xs, want)
    requires forall x, y :: want.Bounds(x, y) ==> InAny(xs, x, y)
    ensures RunAll(env, s, [], chunks).0.screen.fb == want
  {
    hide AllSendable, UpdateOf, FromPicture, Shown, InAny, Agree, Framed, Reports, Boxed, StreamsEnd;
    var work, streams := s.screen.work, s.streams;
    UpdateArrives(env, s, xs, form, chunks);
    var o := Shown(env, work, streams, xs);
    assert want.Bounds(0, 0);
    ShowsPicture(env, work, streams, xs, want, 0, 0);
    forall x, y | o.Bounds(x, y)
      ensures o.At(x, y) == want.At(x, y)
    {
      assert work.Bounds(x, y) && want.Bounds(x, y);
      ShowsPicture(env, work, streams, xs, want, x, y);
    }
    SameImage(o, want);
  }

  // Every picture can be displayed: as one raw rectangle, for one.
  lemma EveryPictureCanBe(env: Env, s: Session, want: Image)
    requires Between(s) && want.Ok() && SameSize(s.screen.work, want) && want.w < 0x1_0000 && want.h < 0x1_0000
    ensures exists xs: seq<Sent> ::
              && |xs| < 0xFFFF && AllSendable(env, s.screen.work, s.streams, xs)
              && FromPicture(env, s.screen.work, s.streams, xs, want)
              && forall x, y :: want.Bounds(x, y) ==> InAny(xs, x, y)
  {
    hide AllSendable, FromPicture, InAny, Read, Agree, Boxed;
    var all := Rect(0, 0, want.w, want.h);
    var xs := [Raw(all, Read(want, all))];
    OneRaw(env, s.screen.work, s.streams, want, xs);
    assert |xs| < 0xFFFF;
  }

  lemma OneRaw(env: Env, work: Image, streams: Streams, want: Image, xs: seq<Sent>)
    requires want.Ok() && 0 < want.w < 0x1_0000 && 0 < want.h < 0x1_0000 && work.Ok() && SameSize(work, want)
    requires xs == [Raw(Rect(0, 0, want.w, want.h), Read(want, Rect(0, 0, want.w, want.h)))]
    ensures AllSendable(env, work, streams, xs) && FromPicture(env, work, streams, xs, want)
    ensures forall x, y :: want.Bounds(x, y) ==> InAny(xs, x, y)
  {
    hide Read, Paint;
    assert Sendable(env, work, streams, xs[0]);
    assert xs[1..] == [];
    forall x, y | want.Bounds(x, y)
      ensures InAny(xs, x, y)
    {
      assert xs[0].r.Has(x, y);
    }
  }

  // ---- Tight streams over a run

  // The compressed chunk a rectangle sends on a stream, if it does.
  ghost function ChunkOn(x: Sent, i: nat): History
    requires x.Filtered? ==> Tight.Legal(x.c, x.r.w, x.r.h)
  {
    if x.Filtered? && x.stream == i && |Tight.Filtered(x.c, x.r.w, x.r.h)| >= 12 then
      [Inflation(x.z, |Tight.Filtered(x.c, x.r.w, x.r.h)|)]
    else []
  }

  ghost predicate AllLegal(xs: seq<Sent>) {
    forall k :: 0 <= k < |xs| ==> xs[k].Filtered? ==> Tight.Legal(xs[k].c, xs[k].r.w, xs[k].r.h)
  }

  // All the chunks of some rectangles on a stream, in wire order.
  ghost function ChunksOn(xs: seq<Sent>, i: nat): History
    requires AllLegal(xs)
  {
    if |xs| == 0 then [] else ChunkOn(xs[0], i) + ChunksOn(xs[1..], i)
  }

  lemma {:induction false} SendableIsLegal(env: Env, work: Image, streams: Streams, xs: seq<Sent>)
    requires AllSendable(env, work, streams, xs)
    ensures AllLegal(xs)
    decreases |xs|
  {
    hide Coded, After, StreamsAfter, Tight.Legal;
    if |xs| > 0 {
      SendableIsLegal(env, After(work, xs[0]), StreamsAfter(env, work, streams, xs[0]), xs[1..]);
      assert forall k :: 1 <= k < |xs| ==> xs[k] == xs[1..][k - 1];
    }
  }

  lemma OneOnStream(env: Env, work: Image, streams: Streams, x: Sent, i: nat)
    requires Sendable(env, work, streams, x) && i < 4
    ensures HistoryOf(StreamsAfter(env, work, streams, x).tight[i]) ==
            (if Resets(x, i) then [] else HistoryOf(streams.tight[i])) + ChunkOn(x, i)
  {
    hide Tight.Filtered, Tight.Legal, Paint, Inflate;
    var h := if Resets(x, i) then [] else HistoryOf(streams.tight[i]);
    assert h + [] == h;
    assert OnTight(x) ==> HistoryOf(AfterResets(streams.tight, x)[i]) == h;
  }

  // Nothing is fed to a stream twice, left out or moved: without a reset its
  // history grows by the rectangles' chunks, in wire order.
  lemma {:induction false} StreamGrows(env: Env, work: Image, streams: Streams, xs: seq<Sent>, i: nat)
    requires AllSendable(env, work, streams, xs) && i < 4 && forall k :: 0 <= k < |xs| ==> !Resets(xs[k], i)
    ensures AllLegal(xs)
    ensures HistoryOf(StreamsEnd(env, work, streams, xs).tight[i]) == HistoryOf(streams.tight[i]) + ChunksOn(xs, i)
    decreases |xs|
  {
    hide Coded, After, StreamsAfter, Tight.Legal, Tight.Filtered, ChunkOn, Resets;
    SendableIsLegal(env, work, streams, xs);
    var h := HistoryOf(streams.tight[i]);
    if |xs| == 0 {
      assert h + [] == h;
    } else {
      var next := StreamsAfter(env, work, streams, xs[0]);
      OneOnStream(env, work, streams, xs[0], i);
      StreamGrows(env, After(work, xs[0]), next, xs[1..], i);
      assert h + ChunkOn(xs[0], i) + ChunksOn(xs[1..], i) == h + (ChunkOn(xs[0], i) + ChunksOn(xs[1..], i));
    }
  }

  // With one, it is the chunks since the last, that rectangle's own included.
  lemma {:induction false} StreamSinceReset(env: Env, work: Image, streams: Streams, xs: seq<Sent>, i: nat, last: nat)
    requires AllSendable(env, work, streams, xs) && i < 4 && last < |xs| && Resets(xs[last], i)
    requires forall k :: last < k < |xs| ==> !Resets(xs[k], i)
    ensures AllLegal(xs[last..])
    ensures HistoryOf(StreamsEnd(env, work, streams, xs).tight[i]) == ChunksOn(xs[last..], i)
    decreases |xs|
  {
    hide Coded, After, StreamsAfter, Tight.Legal, Tight.Filtered, ChunkOn, Resets;
    var next := StreamsAfter(env, work, streams, xs[0]);
    if last == 0 {
      OneOnStream(env, work, streams, xs[0], i);
      StreamGrows(env, After(work, xs[0]), next, xs[1..], i);
      SendableIsLegal(env, work, streams, xs);
      assert xs[0..] == xs;
      assert [] + ChunkOn(xs[0], i) == ChunkOn(xs[0], i);
    } else {
      StreamSinceReset(env, After(work, xs[0]), next, xs[1..], i, last - 1);
      assert xs[1..][last - 1..] == xs[last..];
    }
  }
}
