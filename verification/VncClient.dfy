// The VNC client as the object it is: fields the steps update in place, two
// framebuffers of pixels, and a buffer with a read cursor. Every step method is
// tied to the step function of module Rfb, about which the safety and round
// trip results are proved.
module VncClients {
  import opened Bytes
  import opened Images
  import opened Rfb
  import opened RfbRuns
  import Packing
  import Hextile
  import Tight
  import Tiles
  import Zrle

  // What a pixel array shows.
  ghost function Pic(a: array2<Pixel>): (o: Image)
    reads a
    ensures o.Ok() && o.w == a.Length1 && o.h == a.Length0
    ensures forall x, y {:trigger o.At(x, y)} :: o.Bounds(x, y) ==> o.At(x, y) == a[y, x]
  {
    Image(a.Length1, a.Length0,
          seq(a.Length0, y requires 0 <= y < a.Length0 reads a =>
            seq(a.Length1, x requires 0 <= x < a.Length1 reads a => a[y, x])))
  }

  class VncClient {
    const env: Env

    var buf: bytes
    var pos: nat
    var stage: Stage
    var failedAlready: bool
    var link: Link

    var fb: array2<Pixel>
    var work: array2<Pixel>
    var dirty: Rect
    var streams: Streams

    var batch: Batch
    var inRect: bool
    var cur: Current

    var events: seq<Event>

    // What the two pixel arrays show.
    ghost var shown: Image
    ghost var drawn: Image

    ghost function View(): Session
      reads this
    {
      Session(stage, failedAlready, link, Screen(shown, drawn, dirty), streams, batch, inRect, cur, events)
    }

    // The bytes received and not yet used.
    ghost function Waiting(): bytes
      reads this
      requires pos <= |buf|
    {
      buf[pos..]
    }

    ghost predicate Valid()
      reads this, fb, work
    {
      Sane() && Wf(View())
    }

    ghost predicate Sane()
      reads this, fb, work
    {
      pos <= |buf| && Painted() && SameSize(shown, drawn)
    }

    ghost predicate Painted()
      reads this, fb, work
    {
      fb != work && Pic(fb) == shown && Pic(work) == drawn
    }

    // ---- Pixels

    method SetPixel(x: nat, y: nat, c: Pixel)
      requires Painted() && y < work.Length0 && x < work.Length1
      modifies work, this`drawn
      ensures Painted() && drawn == With(old(drawn), x, y, c)
    {
      work[y, x] := c;
      drawn := With(drawn, x, y, c);
      SameImage(Pic(work), drawn);
    }

    // The next pixel of a rectangle that has been drawn on `img` as far as `p`.
    method WritePixel(r: Rect, x: nat, y: nat, c: Pixel, ghost img: Image, ghost p: seq<Pixel>)
      requires Painted() && r.Within(work.Length1, work.Length0) && r.Has(x, y) && |p| == r.Index(x, y)
      requires img.Ok() && drawn == Paint(img, r, p)
      modifies work, this`drawn
      ensures Painted() && drawn == Paint(img, r, p + [c])
    {
      SetPixel(x, y, c);
      PaintNext(img, r, p, x, y, c);
    }

    // One scan line, the lines above it having been drawn on `img`.
    method PaintRow(r: Rect, row: nat, line: seq<Pixel>, ghost img: Image, ghost above: seq<Pixel>)
      requires Painted() && r.Within(work.Length1, work.Length0) && row < r.h
      requires |line| == r.w && |above| == row * r.w
      requires img.Ok() && drawn == Paint(img, r, above)
      modifies work, this`drawn
      ensures Painted() && drawn == Paint(img, r, above + line)
    {
      assert above + line[..0] == above;
      for col := 0 to r.w
        invariant Painted() && drawn == Paint(img, r, above + line[..col])
      {
        IndexAt(r, row, |above|, col);
        WritePixel(r, r.x + col, r.y + row, line[col], img, above + line[..col]);
        Grow(above, line, col);
      }
      assert line[..r.w] == line;
    }

    // The loop every decoder shares: a scan line at a time, left to right.
    method PaintRows(r: Rect, p: seq<Pixel>)
      requires Painted() && r.Within(work.Length1, work.Length0) && |p| == r.Area()
      modifies work, this`drawn
      ensures Painted() && drawn == Paint(old(drawn), r, p)
    {
      ghost var img := drawn;
      PaintNone(img, r);
      var left := p;
      ghost var above: seq<Pixel> := [];
      for row := 0 to r.h
        invariant |above| == row * r.w && above + left == p
        invariant Painted() && drawn == Paint(img, r, above)
      {
        LastRow(row, r.w, r.h);
        PaintRow(r, row, left[..r.w], img, above);
        above, left := above + left[..r.w], left[r.w..];
      }
      assert left == [] && above == p;
    }

    method FillRect(r: Rect, c: Pixel)
      requires Painted() && r.Within(work.Length1, work.Length0)
      modifies work, this`drawn
      ensures Painted() && drawn == Hextile.Fill(old(drawn), r, c)
    {
      PaintRows(r, Repeat(c, r.Area()));
    }

    // ---- Plumbing

    constructor (env: Env, password: bytes)
      ensures Valid() && this.env == env && fresh(fb) && fresh(work)
      ensures buf == [] && View() == Fresh(password)
    {
      this.env := env;
      buf, pos := [], 0;
      stage, failedAlready, link := Version, false, Link(3, 8, password, []);
      fb := new Pixel[0, 0];
      work := new Pixel[0, 0];
      dirty, streams := EMPTY, Streams([None, None, None, None], None);
      batch, inRect, cur := NO_BATCH, false, Current(EMPTY, 0, 0, 0, Hextile.START);
      events := [];
      shown, drawn := Blank(0, 0), Blank(0, 0);
      new;
      SameImage(Pic(fb), shown);
      SameImage(Pic(work), drawn);
    }

    // The state is what a step function says, reached from cursor `start`.
    ghost predicate Follows(r: Result, ok: bool, start: nat)
      reads this
    {
      ok == r.ok && View() == r.s && pos == start + r.used
    }

    method Emit(e: Event)
      modifies this`events
      ensures events == old(events) + [e]
    {
      events := events + [e];
    }

    method Fail(why: Reason)
      modifies this`failedAlready, this`stage, this`events
      ensures View() == Rfb.Fail(old(View()), why)
    {
      if failedAlready {
        return;
      }
      failedAlready := true;
      stage := Idle;
      events := events + [Failure(why), Closed];
    }

    // ---- Handshake

    method StepVersion() returns (ok: bool)
      requires Sane() && stage == Version
      modifies this
      ensures Follows(Rfb.StepVersion(env, old(View()), old(Waiting())), ok, old(pos))
      ensures buf == old(buf) && fb == old(fb) && work == old(work)
    {
      var b := buf[pos..];
      if |b| < 12 {
        return false;
      }
      if b[..4] != ['R' as int, 'F' as int, 'B' as int, ' ' as int] {
        Fail(NotVnc);
        return false;
      }
      var major, theirs := env.number(b[4..7]), env.number(b[8..11]);
      pos := pos + 12;
      var minor := 3;
      if major > 3 || (major == 3 && theirs >= 8) {
        minor := 8;
      } else if major == 3 && theirs == 7 {
        minor := 7;
      }
      minor := Min(minor, link.maxMinor);
      link := link.(minor := minor);
      Emit(SentVersion(minor));
      stage := SecurityTypes;
      return true;
    }

    method SendClientInit()
      modifies this`events, this`stage
      ensures View() == Rfb.SendClientInit(old(View()))
    {
      Emit(SentClientInit);
      stage := ServerInit;
    }

    method BeginSecurity(t: byte)
      modifies this`events, this`stage, this`failedAlready
      ensures View() == Rfb.BeginSecurity(old(View()), t)
    {
      if t == 1 {
        if link.minor >= 8 {
          stage := SecurityResult;
        } else {
          SendClientInit();
        }
      } else if t == 2 {
        stage := AuthChallenge;
      } else {
        Fail(UnsupportedType(t));
      }
    }

    static method ScanTypes(types: bytes) returns (hasNone: bool, hasVncAuth: bool)
      ensures (hasNone <==> 1 in types) && (hasVncAuth <==> 2 in types)
    {
      hasNone, hasVncAuth := false, false;
      for i := 0 to |types|
        invariant hasNone <==> 1 in types[..i]
        invariant hasVncAuth <==> 2 in types[..i]
      {
        hasNone := hasNone || types[i] == 1;
        hasVncAuth := hasVncAuth || types[i] == 2;
      }
    }

    method StepSecurityTypes() returns (ok: bool)
      requires Sane() && stage == SecurityTypes
      modifies this
      ensures Follows(Rfb.StepSecurityTypes(old(View()), old(Waiting())), ok, old(pos))
      ensures buf == old(buf) && fb == old(fb) && work == old(work)
    {
      hide Rfb.BeginSecurity, Rfb.Fail, U32, Pic;
      var b := buf[pos..];
      if link.minor == 3 {
        if |b| < 4 {
          return false;
        }
        var t := U32(b, 0);
        pos := pos + 4;
        if t == 0 {
          stage := SecurityReason;
          return true;
        }
        BeginSecurity(t % 256);
        return true;
      }
      if |b| == 0 {
        return false;
      }
      var count: int := b[0];
      if count == 0 {
        pos := pos + 1;
        stage := SecurityReason;
        return true;
      }
      if |b| < 1 + count {
        return false;
      }
      var hasNone, hasVncAuth := ScanTypes(b[1..1 + count]);
      pos := pos + 1 + count;
      if !hasNone && !hasVncAuth {
        Fail(NoKnownType);
        return false;
      }
      var chosen := if hasNone then 1 else 2;
      Emit(SentType(chosen));
      BeginSecurity(chosen);
      return true;
    }

    method StepAuthChallenge() returns (ok: bool)
      requires Sane() && stage == AuthChallenge
      modifies this
      ensures Follows(Rfb.StepAuthChallenge(env, old(View()), old(Waiting())), ok, old(pos))
      ensures buf == old(buf) && fb == old(fb) && work == old(work)
    {
      var b := buf[pos..];
      if |b| < 16 {
        return false;
      }
      var challenge := b[..16];
      pos := pos + 16;
      if link.password == [] {
        match env.ask {
          case NoProvider =>
          case Cancelled =>
            Fail(UserCancelled);
            return false;
          case Entered(entered) =>
            link := link.(password := entered);
        }
      }
      Emit(SentResponse(env.respond(challenge, link.password)));
      stage := SecurityResult;
      return true;
    }

    method StepSecurityResult() returns (ok: bool)
      requires Sane() && stage == SecurityResult
      modifies this
      ensures Follows(Rfb.StepSecurityResult(old(View()), old(Waiting())), ok, old(pos))
      ensures buf == old(buf) && fb == old(fb) && work == old(work)
    {
      var b := buf[pos..];
      if |b| < 4 {
        return false;
      }
      var result := U32(b, 0);
      pos := pos + 4;
      if result == 0 {
        SendClientInit();
        return true;
      }
      if link.minor >= 8 {
        stage := SecurityReason;
        return true;
      }
      Fail(WrongPassword);
      return false;
    }

    method StepSecurityReason() returns (ok: bool)
      requires Sane() && stage == SecurityReason
      modifies this
      ensures Follows(Rfb.StepSecurityReason(old(View()), old(Waiting())), ok, old(pos))
      ensures buf == old(buf) && fb == old(fb) && work == old(work)
    {
      var b := buf[pos..];
      if |b| < 4 {
        return false;
      }
      var length := U32(b, 0);
      if length > MAX_STRING {
        Fail(Refused);
        return false;
      }
      if |b| < 4 + length {
        return false;
      }
      var reason := b[4..4 + length];
      pos := pos + 4 + length;
      Fail(if reason == [] then WrongPassword else Told(reason));
      return false;
    }

    method AllocFramebuffer(w: nat, h: nat)
      modifies this`fb, this`work, this`shown, this`drawn
      ensures fresh(fb) && fresh(work) && Painted()
      ensures shown == Blank(w, h) && drawn == Blank(w, h)
    {
      work := new Pixel[h, w]((y, x) => BLACK);
      fb := new Pixel[h, w]((y, x) => BLACK);
      shown, drawn := Blank(w, h), Blank(w, h);
      SameImage(Pic(work), drawn);
      SameImage(Pic(fb), shown);
    }

    method RequestUpdate(incremental: bool)
      modifies this`events
      requires Painted()
      ensures events == old(events) + Request(View().screen, incremental)
    {
      if work.Length0 > 0 && work.Length1 > 0 {
        Emit(SentRequest(incremental, work.Length1, work.Length0));
      }
    }

    method StepServerInit() returns (ok: bool)
      requires Sane() && stage == ServerInit
      modifies this
      ensures Follows(Rfb.StepServerInit(old(View()), old(Waiting())), ok, old(pos))
      ensures buf == old(buf)
      ensures (fb == old(fb) && work == old(work)) || (fresh(fb) && fresh(work))
      ensures Painted()
    {
      hide Rfb.Opened, Rfb.Fail, U16, U32;
      var b := buf[pos..];
      if |b| < 24 {
        return false;
      }
      var length := U32(b, 20);
      if length > MAX_STRING {
        Fail(BadName);
        return false;
      }
      if |b| < 24 + length {
        return false;
      }
      var w, h := U16(b, 0), U16(b, 2);
      link := link.(name := b[24..24 + length]);
      pos := pos + 24 + length;
      if w == 0 || h == 0 {
        Fail(EmptyDesktop);
        return false;
      }
      Open(w, h);
      return true;
    }

    method Open(w: nat, h: nat)
      modifies this`fb, this`work, this`shown, this`drawn, this`events, this`stage
      ensures fresh(fb) && fresh(work) && Painted()
      ensures View() == Opened(old(View()), w, h)
    {
      AllocFramebuffer(w, h);
      Emit(SentSetup);
      stage := Running;
      RequestUpdate(false);
      Emit(Ready);
    }

    // ---- Updates

    method CopyPixel(x: nat, y: nat)
      requires Painted() && SameSize(shown, drawn) && drawn.Bounds(x, y)
      modifies fb, this`shown
      ensures Painted() && shown == With(old(shown), x, y, drawn.At(x, y))
    {
      assert Pic(work).At(x, y) == work[y, x];
      fb[y, x] := work[y, x];
      shown := With(shown, x, y, drawn.At(x, y));
      SameImage(Pic(fb), shown);
    }

    // The dirty part of the working buffer, copied to the displayed one.
    method CopyDirty(d: Rect)
      requires Painted() && SameSize(shown, drawn) && drawn.Covers(d)
      modifies fb, this`shown
      ensures Painted() && shown == Overlay(old(shown), d, drawn)
    {
      hide Pic, Taken;
      ghost var before := shown;
      TakenNone(shown, drawn, d);
      for row := 0 to d.h
        invariant Painted() && SameSize(shown, before) && Taken(shown, before, drawn, d, row, 0)
      {
        for col := 0 to d.w
          invariant Painted() && SameSize(shown, before) && Taken(shown, before, drawn, d, row, col)
        {
          TakenNext(shown, before, drawn, d, row, col);
          CopyPixel(d.x + col, d.y + row);
        }
        TakenRow(shown, before, drawn, d, row);
      }
      TakenAll(shown, before, drawn, d);
    }

    method ShowDirty()
      requires Painted() && SameSize(shown, drawn)
      modifies fb, this`shown, this`dirty, this`events
      ensures Painted() && Screen(shown, drawn, dirty) == Publish(old(View().screen))
      ensures events == old(events) + Announce(old(View().screen))
    {
      var d := dirty.Clipped(work.Length1, work.Length0);
      dirty := EMPTY;
      if d.w > 0 && d.h > 0 {
        CopyDirty(d);
        Emit(Changed(d));
      }
    }

    method FinishUpdate()
      requires Painted() && SameSize(shown, drawn)
      modifies fb, this`shown, this`dirty, this`batch, this`events
      ensures Painted() && View() == Rfb.FinishUpdate(old(View()))
    {
      ShowDirty();
      RequestUpdate(!batch.resized);
      batch := batch.(updates := batch.updates + 1, resized := false);
    }

    method EndRect()
      requires Painted() && SameSize(shown, drawn) && batch.left > 0
      modifies fb, this`shown, this`dirty, this`batch, this`events, this`inRect
      ensures Painted() && View() == Rfb.EndRect(old(View()))
    {
      batch := batch.(rects := batch.rects + 1);
      inRect := false;
      if batch.lastRect {
        if cur.enc == ENC_LAST_RECT {
          batch := batch.(lastRect := false, left := 0);
          FinishUpdate();
        }
      } else {
        batch := batch.(left := batch.left - 1);
        if batch.left == 0 {
          FinishUpdate();
        }
      }
    }

    method AddDirty(r: Rect)
      modifies this`dirty
      ensures dirty == old(dirty).United(r)
    {
      dirty := dirty.United(r);
    }

    // The rectangle's pixels are in the working buffer.
    method RectDrawn(used: nat)
      requires Painted() && SameSize(shown, drawn) && batch.left > 0
      modifies fb, this`shown, this`dirty, this`batch, this`events, this`inRect, this`pos
      ensures Painted() && Follows(Drew(old(View()), drawn, used), true, old(pos))
    {
      AddDirty(cur.rect);
      pos := pos + used;
      EndRect();
    }

    // ---- Rectangles

    method RawRect() returns (ok: bool)
      requires Sane() && Begun(View()) && cur.enc == ENC_RAW
      modifies this, fb, work
      ensures Painted() && Follows(RawBody(old(View()), old(Waiting())), ok, old(pos))
      ensures buf == old(buf) && fb == old(fb) && work == old(work)
    {
      var b := buf[pos..];
      var n := cur.rect.Area();
      if |b| < n * 4 {
        return false;
      }
      PaintRows(cur.rect, Hextile.WirePixels(b, n));
      RectDrawn(n * 4);
      return true;
    }

    // QImage::copy(): the pixels of a part of the working buffer.
    method Snapshot(r: Rect) returns (p: seq<Pixel>)
      requires Painted() && drawn.Covers(r)
      ensures p == Read(drawn, r)
    {
      p := seq(r.Area(), k requires 0 <= k < r.Area() reads this, work =>
        RowColumn(k, r.w, r.h);
        if r.y + k / r.w < work.Length0 && r.x + k % r.w < work.Length1 then work[r.y + k / r.w, r.x + k % r.w]
          else BLACK);
      forall k | 0 <= k < r.Area()
        ensures p[k] == Read(drawn, r)[k]
      {
        RowColumn(k, r.w, r.h);
        var x, y := r.x + k % r.w, r.y + k / r.w;
        assert drawn.Bounds(x, y) && drawn.At(x, y) == work[y, x];
        assert r.Has(x, y) && r.Index(x, y) == k;
      }
    }

    // Through a snapshot, so that what is read has not been drawn over.
    method CopyArea(source: Rect, r: Rect)
      requires Painted() && drawn.Covers(source) && drawn.Covers(r) && source.w == r.w && source.h == r.h
      modifies work, this`drawn
      ensures Painted() && drawn == Paint(old(drawn), r, Read(old(drawn), source))
    {
      var copy := Snapshot(source);
      PaintRows(r, copy);
    }

    method CopyRect() returns (ok: bool)
      requires Sane() && Begun(View()) && cur.enc == ENC_COPY_RECT
      modifies this, fb, work
      ensures Painted() && Follows(CopyBody(old(View()), old(Waiting())), ok, old(pos))
      ensures buf == old(buf) && fb == old(fb) && work == old(work)
    {
      hide Rfb.EndRect, Rfb.Fail, Paint, Read, Pic, U16;
      var b := buf[pos..];
      if |b| < 4 {
        return false;
      }
      var source := Rect(U16(b, 0), U16(b, 2), cur.rect.w, cur.rect.h);
      if source.Null() || !source.Within(work.Length1, work.Length0) {
        pos := pos + 4;
        Fail(BadCopy);
        return false;
      }
      CopyArea(source, cur.rect);
      RectDrawn(4);
      return true;
    }

    method DesktopSizeRect() returns (ok: bool)
      requires Sane() && Begun(View()) && cur.enc == ENC_DESKTOP_SIZE
      modifies this, fb, work
      ensures Painted() && Follows(DesktopSizeBody(old(View())), ok, old(pos))
      ensures buf == old(buf) && ((fb == old(fb) && work == old(work)) || (fresh(fb) && fresh(work)))
    {
      hide Rfb.EndRect, Resizing;
      var w, h := cur.rect.w, cur.rect.h;
      if w == 0 || h == 0 || w > MAX_DIMENSION || h > MAX_DIMENSION {
        Fail(BadDesktopSize);
        return false;
      }
      ghost var s := View();
      Resize(w, h);
      ResizingOpen(s, w, h);
      EndRect();
      return true;
    }

    method Resize(w: nat, h: nat)
      modifies this`fb, this`work, this`shown, this`drawn, this`dirty, this`events, this`batch
      ensures fresh(fb) && fresh(work) && Painted() && SameSize(shown, drawn)
      ensures View() == Resizing(old(View()), w, h)
    {
      AllocFramebuffer(w, h);
      AddDirty(Rect(0, 0, w, h));
      Emit(Event.Resized(w, h));
      batch := batch.(resized := true);
    }

    // ---- Hextile

    method DrawSubrects(t: Rect, coloured: bool, fg: Pixel, n: nat, b: bytes) returns (ok: bool)
      requires Painted() && drawn.Covers(t) && |b| == Hextile.SubrectsSize(n, coloured)
      modifies work, this`drawn
      ensures Painted() && (ok, drawn) == Hextile.DrawSubrects(old(drawn), t, coloured, fg, n, b)
    {
      ghost var want := Hextile.DrawSubrects(drawn, t, coloured, fg, n, b);
      var rest := b;
      for i := 0 to n
        invariant Painted() && SameSize(drawn, old(drawn)) && |rest| == Hextile.SubrectsSize(n - i, coloured)
        invariant Hextile.DrawSubrects(drawn, t, coloured, fg, n - i, rest) == want
      {
        var s := Hextile.SubrectAt(coloured, fg, rest);
        if !s.box.Within(t.w, t.h) {
          return false;
        }
        FillRect(s.box.Moved(t.x, t.y), s.colour);
        rest := rest[Hextile.SubrectSize(coloured)..];
      }
      return true;
    }

    method DrawTile(t: Rect, carry: Hextile.Carry, coloured: bool, n: nat, subrects: bytes) returns (ok: bool)
      requires Painted() && drawn.Covers(t) && |subrects| == Hextile.SubrectsSize(n, coloured)
      modifies work, this`drawn, this`cur
      ensures Painted() && cur == old(cur).(carry := carry)
      ensures (ok, drawn) == Hextile.DrawSubrects(Hextile.Fill(old(drawn), t, carry.bg), t, coloured, carry.fg, n,
              subrects)
    {
      cur := cur.(carry := carry);
      FillRect(t, carry.bg);
      ok := DrawSubrects(t, coloured, carry.fg, n, subrects);
    }

    // One tile: drawn and consumed, or left for when there is more data.
    method StepHextileTile(t: Rect) returns (ok: bool)
      requires Sane() && Begun(View()) && cur.enc == ENC_HEXTILE && cur.tileY < cur.rect.h && t == CurrentTile(View())
      modifies work, this`drawn, this`cur, this`pos, this`failedAlready, this`stage, this`events
      ensures Painted()
      ensures var s := old(View());
              match Hextile.DecodeTile(old(drawn), t, s.cur.carry, old(Waiting()))
              case NeedMore => !ok && View() == s && pos == old(pos)
              case Broken(c, img) => !ok && pos == old(pos) && View() == Rfb.Fail(Tiled(s, c, img), BadSubrect)
              case Took(c, img, used) => ok && pos == old(pos) + used && View() == Tiled(s, c, img)
    {
      hide Hextile.DrawSubrects, Hextile.Parse, Pic, Paint;
      match Hextile.Parse(buf[pos..], t.Area(), cur.carry) {
        case Short =>
          return false;
        case RawTile(px, used) =>
          PaintRows(t, px);
          pos := pos + used;
          return true;
        case Drawn(carry, coloured, n, subrects, used) =>
          // From here on the tile is drawn, whole.
          ok := DrawTile(t, carry, coloured, n, subrects);
          if ok {
            pos := pos + used;
          } else {
            Fail(BadSubrect);
          }
      }
    }

    method AdvanceCursor()
      modifies this`cur
      ensures View() == Advanced(old(View()))
    {
      cur := cur.(tileX := cur.tileX + 16);
      if cur.tileX >= cur.rect.w {
        cur := cur.(tileX := 0, tileY := cur.tileY + 16);
      }
    }

    // The tile under the cursor, and on to the next.
    method NextTile(ghost s: Session, ghost b: bytes, ghost used: nat) returns (more: bool)
      requires Sane() && s.screen.Ok() && Resuming(s, b, View(), used) && Waiting() == b[used..]
      requires Begun(View()) && cur.enc == ENC_HEXTILE && cur.tileY < cur.rect.h
      modifies work, this`drawn, this`cur, this`pos, this`failedAlready, this`stage, this`events
      ensures Painted() && pos >= old(pos)
      ensures more ==> Sane() && Resuming(s, b, View(), used + pos - old(pos)) && pos > old(pos)
      ensures more ==> Begun(View()) && cur.enc == ENC_HEXTILE
      ensures !more ==> HextileBody(s, b) == Result(false, used + pos - old(pos), View())
    {
      hide Hextile.RunLoop, Hextile.DecodeTile, Resuming, HextileBody;
      ghost var v := View();
      LoopStops(s, b, v, used);
      TileTaken(s, b, v, used);
      var t := Tiles.TileAt(cur.rect.w, cur.rect.h, Hextile.SIDE, cur.tileX, cur.tileY).Moved(cur.rect.x, cur.rect.y);
      more := StepHextileTile(t);
      if more {
        AdvanceCursor();
      }
    }

    method HextileRect() returns (ok: bool)
      requires Sane() && Begun(View()) && cur.enc == ENC_HEXTILE
      modifies this, fb, work
      ensures Painted() && Follows(HextileBody(old(View()), old(Waiting())), ok, old(pos))
      ensures buf == old(buf) && fb == old(fb) && work == old(work)
    {
      hide Hextile.RunLoop, Resuming, HextileBody, Drew;
      ghost var s, b, start := View(), buf[pos..], pos;
      LoopStarts(s, b);
      while cur.tileY < cur.rect.h
        invariant Sane() && buf == old(buf) && fb == old(fb) && work == old(work) && start <= pos
        invariant Resuming(s, b, View(), pos - start) && Begun(View()) && cur.enc == ENC_HEXTILE
        decreases |buf| - pos
      {
        assert buf[pos..] == b[pos - start..];
        var more := NextTile(s, b, pos - start);
        if !more {
          return false;
        }
      }
      LoopEnds(s, b, View(), pos - start);
      RectDrawn(0);
      return true;
    }

    // ---- Tight

    method ResetStreams(control: byte)
      modifies this`streams
      ensures streams == old(streams).(tight := TightResets(old(streams.tight), control))
    {
      var tight := streams.tight;
      for i := 0 to 4
        invariant forall k :: 0 <= k < 4
                    ==> tight[k] == if k < i && Bit(control, ResetMask(k)) then Some([]) else old(streams.tight)[k]
      {
        if Bit(control, ResetMask(i)) {
          tight := tight[i := Some([])];
        }
      }
      assert tight == TightResets(streams.tight, control);
      streams := streams.(tight := tight);
    }

    // One component, predicted from its left, upper and upper-left neighbours.
    static method UndoComponent(residual: byte, k: nat, inner: bool, prev: array<int>, line: array<int>,
        ghost done: bytes, ghost cur: bytes)
      requires prev.Length == line.Length && prev != line && k < line.Length && inner == (k >= 3)
      requires LineAbove(prev[..], done, line.Length) && |cur| == k && Begins(line, cur)
      modifies line
      ensures Begins(line, cur + [(residual as int + Tight.Predicted(done + cur, line.Length)) % 256])
    {
      hide Tight.Predicted;
      var left := if inner then line[k - 3] else 0;
      var above := prev[k];
      var aboveLeft := if inner then prev[k - 3] else 0;
      var predicted := Tight.Clamp(left + above - aboveLeft);
      PredictedAt(prev[..], done, cur, line.Length);
      line[k] := (residual as int + predicted) % 256;
    }

    // One line of a gradient-filtered picture: `prev` is the line above it,
    // all zero for the first.
    static method UndoLine(d: bytes, start: nat, w: nat, prev: array<int>, line: array<int>, ghost done: bytes)
      requires w > 0 && prev.Length == line.Length == w * 3 && prev != line
      requires |done| == start && start + line.Length <= |d| && LineAbove(prev[..], done, line.Length)
      modifies line
      ensures Tight.IsBytes(line[..])
              && Tight.Ungradient(d, line.Length, done) == Tight.Ungradient(d, line.Length, done + line[..])
    {
      hide Tight.Ungradient, Tight.Predicted, LineAbove;
      ghost var all := Tight.Ungradient(d, line.Length, done);
      ghost var cur: bytes := [];
      assert done + cur == done;
      for x := 0 to w
        invariant |cur| == x * 3 && Begins(line, cur)
        invariant Tight.Ungradient(d, line.Length, done + cur) == all
      {
        for c := 0 to 3
          invariant |cur| == x * 3 + c && Begins(line, cur)
          invariant Tight.Ungradient(d, line.Length, done + cur) == all
        {
          var k := x * 3 + c;
          ghost var v: byte := (d[start + k] as int + Tight.Predicted(done + cur, line.Length)) % 256;
          UngradientStep(d, line.Length, done, cur, v);
          UndoComponent(d[start + k], k, x > 0, prev, line, done, cur);
          cur := cur + [v];
        }
      }
      assert line[..] == cur;
    }

    // Two line buffers, swapped after every line.
    static method UndoGradient(d: bytes, w: nat, h: nat) returns (o: bytes)
      requires w > 0 && |d| == w * 3 * h
      ensures o == Tight.Ungradient(d, w * 3, [])
    {
      hide LineAbove;
      var stride := w * 3;
      var previous, current := new int[stride](_ => 0), new int[stride](_ => 0);
      o := [];
      FirstLine(previous[..], stride);
      for y := 0 to h
        invariant previous.Length == current.Length == stride && previous != current && fresh(previous)
                  && fresh(current)
        invariant |o| == y * stride <= |d| && LineAbove(previous[..], o, stride)
        invariant Tight.Ungradient(d, stride, o) == Tight.Ungradient(d, stride, [])
      {
        NextLine(y, stride, h);
        UndoLine(d, |o|, w, previous, current, o);
        LineDone(current[..], o, stride);
        o := o + current[..];
        previous, current := current, previous;
      }
    }

    method TightPixels(f: Tight.Filter, d: bytes, w: nat, h: nat) returns (p: seq<Pixel>)
      requires |d| == Tight.RowSize(f, w) * h && (f.Indexed? ==> |f.pal| > 0)
      ensures p == Tight.Pixels(f, w, h, d)
    {
      Tight.ThreeBytes(w, h);
      match f
      case Copy => p := Tight.PixelsOf(d, w * h);
      case Indexed(pal) => p := Packing.UnpackRows(Tight.IndexBits(pal), w, h, pal, d);
      case Gradient =>
        if w == 0 {
          p := Tight.PixelsOf(d, w * h);
        } else {
          var o := UndoGradient(d, w, h);
          p := Tight.PixelsOf(o, w * h);
        }
    }

    method DrawTight(f: Tight.Filter, d: bytes, used: nat)
      requires Sane() && Begun(View()) && cur.enc == ENC_TIGHT
      requires |d| == Tight.RowSize(f, cur.rect.w) * cur.rect.h && (f.Indexed? ==> |f.pal| > 0)
      modifies this, fb, work
      ensures Painted() && buf == old(buf) && fb == old(fb) && work == old(work)
      ensures Follows(Drew(old(View()),
              Paint(old(drawn), old(cur.rect), Tight.Pixels(f, old(cur.rect.w), old(cur.rect.h), d)), used), true,
              old(pos))
    {
      hide Rfb.EndRect, Tight.Pixels, Paint, Tight.RowSize;
      var p := TightPixels(f, d, cur.rect.w, cur.rect.h);
      PaintRows(cur.rect, p);
      RectDrawn(used);
    }

    method ApplyTight(op: Tight.Op, used: nat) returns (ok: bool)
      requires Sane() && Begun(View()) && cur.enc == ENC_TIGHT && Tight.GoodOp(op, cur.rect.w, cur.rect.h)
      modifies this, fb, work
      ensures Painted() && buf == old(buf) && fb == old(fb) && work == old(work)
      ensures Follows(Rfb.ApplyTight(env, old(View()), op, used), ok, old(pos))
    {
      hide Rfb.EndRect, Rfb.Fail, Rfb.Feed, Tight.Pixels, Paint, Tight.RowSize, Pic, Inflate;
      match op
      case Fill(c) =>
        FillRect(cur.rect, c);
        RectDrawn(used);
        return true;
      case Picture(data) =>
        var j := env.jpeg(data);
        if j.None? || j.value.w != cur.rect.w || j.value.h != cur.rect.h {
          Fail(BadJpeg);
          return false;
        }
        PaintRows(cur.rect, JpegPixels(j.value, cur.rect.Area()));
        RectDrawn(used);
        return true;
      case Basic(i, f, Plain(d)) =>
        DrawTight(f, d, used);
        return true;
      case Basic(i, f, Zipped(z)) =>
        ok := ApplyZipped(i, f, z, used);
    }

    // Compressed pixels go through their stream, whatever comes of it.
    method ApplyZipped(i: nat, f: Tight.Filter, z: bytes, used: nat) returns (ok: bool)
      requires Sane() && Begun(View()) && cur.enc == ENC_TIGHT
      requires Tight.GoodOp(Tight.Basic(i, f, Tight.Zipped(z)), cur.rect.w, cur.rect.h)
      modifies this, fb, work
      ensures Painted() && buf == old(buf) && fb == old(fb) && work == old(work)
      ensures Follows(Rfb.ApplyTight(env, old(View()), Tight.Basic(i, f, Tight.Zipped(z)), used), ok, old(pos))
    {
      hide Rfb.EndRect, Rfb.Fail, Rfb.Feed, Tight.Pixels, Paint, Tight.RowSize, Pic, Inflate;
      var call := Inflation(z, Tight.RowSize(f, cur.rect.w) * cur.rect.h);
      var out := Inflate(env, HistoryOf(streams.tight[i]), call);
      streams := streams.(tight := Feed(streams.tight, i, call));
      if out.None? {
        Fail(Corrupt);
        return false;
      }
      DrawTight(f, out.value, used);
      return true;
    }

    method TightRect() returns (ok: bool)
      requires Sane() && Begun(View()) && cur.enc == ENC_TIGHT
      modifies this, fb, work
      ensures Painted() && Follows(TightBody(env, old(View()), old(Waiting())), ok, old(pos))
      ensures buf == old(buf) && fb == old(fb) && work == old(work)
    {
      hide Rfb.ApplyTight, Tight.Parse;
      var b := buf[pos..];
      if |b| < 1 {
        return false;
      }
      // Asking for the resets again on a retried attempt is harmless.
      ResetStreams(b[0]);
      match Tight.Parse(b, cur.rect.w, cur.rect.h)
      case Short =>
        return false;
      case BadKind =>
        Fail(BadTightKind);
        return false;
      case BadFilter =>
        Fail(BadTightFilter);
        return false;
      case Ready(op, used) =>
        ok := ApplyTight(op, used);
    }

    // ---- ZRLE

    static method ReadRunLength(d: bytes) returns (r: Option<(nat, nat)>)
      ensures r == Zrle.RunLength(d)
    {
      var sum, k := 0, 0;
      while true
        invariant k <= |d|
        invariant Zrle.RunLength(d) ==
                  match Zrle.RunLength(d[k..])
                  case None => None
                  case Some((n, used)) => Some((sum + n, k + used))
        decreases |d| - k
      {
        if k == |d| {
          return None;
        }
        var b: int := d[k];
        sum, k := sum + b, k + 1;
        if b != 255 {
          return Some((sum, k));
        }
      }
    }

    // A colour, or a palette index with a flag for a single pixel, then a length.
    static method ReadRun(pal: seq<Pixel>, d: bytes) returns (r: Option<Zrle.Run>)
      ensures r == Zrle.NextRun(pal, d)
    {
      var colour, head;
      if |pal| == 0 {
        if |d| < 3 {
          return None;
        }
        colour, head := Zrle.CPixel(d, 0), 3;
      } else {
        if |d| < 1 {
          return None;
        }
        var index: int := d[0];
        colour, head := pal[index % 128 % |pal|], 1;
        if index < 128 {
          return Some(Zrle.Run(colour, 1, 1));
        }
      }
      var run := ReadRunLength(d[head..]);
      match run {
        case None =>
          return None;
        case Some((n, used)) =>
          return Some(Zrle.Run(colour, 1 + n, head + used));
      }
    }

    // `n` pixels of one colour from position `at` on, in reading order.
    method PaintRun(t: Rect, x0: nat, y0: nat, c: Pixel, n: nat, ghost img: Image,
        ghost p: seq<Pixel>)
      returns (x: nat, y: nat)
      requires Painted() && drawn.Covers(t) && SpotIs(t, x0, y0, |p|) && |p| + n <= t.Area()
      requires img.Ok() && drawn == Paint(img, t, p)
      modifies work, this`drawn
      ensures Painted() && drawn == Paint(img, t, p + Repeat(c, n)) && SpotIs(t, x, y, |p| + n)
    {
      hide Paint, Pic;
      x, y := x0, y0;
      assert p + Repeat(c, 0) == p;
      for i := 0 to n
        invariant Painted() && SpotIs(t, x, y, |p| + i)
        invariant drawn == Paint(img, t, p + Repeat(c, i))
      {
        SpotInside(t, x, y, |p| + i);
        WritePixel(t, t.x + x, t.y + y, c, img, p + Repeat(c, i));
        assert p + Repeat(c, i) + [c] == p + Repeat(c, i + 1);
        x := x + 1;
        if x == t.w {
          x, y := 0, y + 1;
        }
      }
    }

    method ZrleRuns(t: Rect, pal: seq<Pixel>, d: bytes) returns (ok: bool, used: nat)
      requires Painted() && drawn.Covers(t)
      modifies work, this`drawn
      ensures Painted() && drawn == Paint(old(drawn), t, Zrle.Runs(pal, d, t.Area()).px)
      ensures ok == Zrle.Runs(pal, d, t.Area()).ok && (ok ==> used == Zrle.Runs(pal, d, t.Area()).used)
    {
      hide Paint, Pic, Zrle.NextRun;
      ghost var img, p: seq<Pixel> := drawn, [];
      PaintNone(img, t);
      var x, y, done := 0, 0, 0;
      used := 0;
      assert d[0..] == d;
      while done < t.Area()
        invariant Painted() && |p| == done <= t.Area() && used <= |d| && SpotIs(t, x, y, done)
        invariant drawn == Paint(img, t, p)
        invariant RunsFrom(pal, d, t.Area(), p, used)
        decreases t.Area() - done
      {
        RunsNext(pal, d, t.Area(), p, used);
        var r := ReadRun(pal, d[used..]);
        if r.None? || done + r.value.n > t.Area() {
          ok := false;
          return;
        }
        x, y := PaintRun(t, x, y, r.value.colour, r.value.n, img, p);
        p, done, used := p + Repeat(r.value.colour, r.value.n), done + r.value.n, used + r.value.used;
      }
      RunsDone(pal, d, t.Area(), p, used);
      ok := true;
    }

    method ZrleTile(t: Rect, d: bytes) returns (ok: bool, used: nat)
      requires Painted() && drawn.Covers(t)
      modifies work, this`drawn
      ensures var z := Zrle.DecodeTile(d, t.w, t.h);
              Painted() && drawn == Paint(old(drawn), t, z.px) && ok == z.ok && (ok ==> used == z.used)
    {
      hide Paint, Pic, Zrle.Runs, Zrle.DecodeFlat;
      PaintNone(drawn, t);
      used := 0;
      if |d| < 1 {
        return false, 0;
      }
      var size := d[0] as int % 128;
      var start := 1 + 3 * Zrle.Entries(size);
      if |d| < start {
        return false, 0;
      }
      var pal := Zrle.Palette(d[1..], size);
      if d[0] >= 128 {
        var n: nat;
        ok, n := ZrleRuns(t, pal, d[start..]);
        return ok, start + n;
      }
      var flat := Zrle.DecodeFlat(pal, d[start..], t.w, t.h);
      if !flat.ok {
        FlatFails(pal, d[start..], t.w, t.h);
        return false, 0;
      }
      PaintRows(t, flat.px);
      return true, start + flat.used;
    }

    // The tiles of a rectangle, row by row.
    method ZrleTiles(r: Rect, d: bytes) returns (ok: bool)
      requires Painted() && drawn.Covers(r)
      modifies work, this`drawn
      ensures Painted() && (ok, drawn) == Zrle.DecodeRect(old(drawn), r, d)
    {
      hide Zrle.DecodeTile, Paint, Pic;
      ghost var img := drawn;
      var rest := d;
      var tx, ty := 0, 0;
      while ty < r.h && r.w > 0
        invariant Painted() && drawn.Covers(r) && (r.w > 0 ==> Tiles.Cursor(r.w, r.h, Zrle.SIDE, tx, ty))
        invariant Zrle.DecodeFrom(drawn, r, tx, ty, rest) == Zrle.DecodeRect(img, r, d)
        decreases r.h - ty, r.w - tx
      {
        var t := Tiles.TileAt(r.w, r.h, Zrle.SIDE, tx, ty).Moved(r.x, r.y);
        var good, used := ZrleTile(t, rest);
        if !good {
          return false;
        }
        rest := rest[used..];
        if tx + 64 >= r.w {
          tx, ty := 0, ty + 64;
        } else {
          tx := tx + 64;
        }
      }
      return true;
    }

    method ZrleRect() returns (ok: bool)
      requires Sane() && Begun(View()) && cur.enc == ENC_ZRLE
      modifies this, fb, work
      ensures Painted() && Follows(ZrleBody(env, old(View()), old(Waiting())), ok, old(pos))
      ensures buf == old(buf) && fb == old(fb) && work == old(work)
    {
      hide Rfb.EndRect, Rfb.Fail, Zrle.DecodeRect, Pic, Inflate, U32;
      var b := buf[pos..];
      if |b| < 4 {
        return false;
      }
      var length := U32(b, 0);
      if length > MAX_ZRLE {
        Fail(OversizedZrle);
        return false;
      }
      if |b| < 4 + length {
        return false;
      }
      var hist, call := HistoryOf(streams.zrle), Inflation(b[4..4 + length], -1);
      var out := Inflate(env, hist, call);
      streams := streams.(zrle := Some(hist + [call]));
      if out.None? {
        Fail(Corrupt);
        return false;
      }
      var good := ZrleTiles(cur.rect, out.value);
      if good {
        RectDrawn(4 + length);
      } else {
        pos := pos + 4 + length;
        Fail(BadZrle);
      }
      return good;
    }

    // ---- The state machine

    // The body of a rectangle whose header has been read.
    method StepBody() returns (ok: bool)
      requires Sane() && Begun(View())
      modifies this, fb, work
      ensures Painted() && Follows(Body(env, old(View()), old(Waiting())), ok, old(pos))
      ensures buf == old(buf) && ((fb == old(fb) && work == old(work)) || (fresh(fb) && fresh(work)))
    {
      hide RawBody, CopyBody, HextileBody, TightBody, ZrleBody, DesktopSizeBody, Rfb.EndRect, Pic;
      if cur.enc == ENC_RAW {
        ok := RawRect();
      } else if cur.enc == ENC_COPY_RECT {
        ok := CopyRect();
      } else if cur.enc == ENC_HEXTILE {
        ok := HextileRect();
      } else if cur.enc == ENC_TIGHT {
        ok := TightRect();
      } else if cur.enc == ENC_ZRLE {
        ok := ZrleRect();
      } else if cur.enc == ENC_LAST_RECT {
        EndRect();
        ok := true;
      } else if cur.enc == ENC_DESKTOP_SIZE {
        ok := DesktopSizeRect();
      } else {
        Fail(UnsupportedEncoding(cur.enc));
        ok := false;
      }
    }

    method ReadHeader()
      requires pos + 12 <= |buf|
      modifies this`cur, this`pos, this`inRect
      ensures pos == old(pos) + 12 && View() == old(View()).(inRect := true, cur := Header(old(Waiting())))
    {
      var b := buf[pos..];
      cur := Current(Rect(U16(b, 0), U16(b, 2), U16(b, 4), U16(b, 6)), S32(U32(b, 8)), 0, 0, Hextile.START);
      pos := pos + 12;
      inRect := true;
    }

    method StepRect() returns (ok: bool)
      requires Valid() && stage == Running && batch.left > 0
      modifies this, fb, work
      ensures Painted() && Follows(Rfb.StepRect(env, old(View()), old(Waiting())), ok, old(pos))
      ensures buf == old(buf) && ((fb == old(fb) && work == old(work)) || (fresh(fb) && fresh(work)))
    {
      hide Body, Pic;
      if !inRect {
        if |buf| - pos < 12 {
          return false;
        }
        ReadHeader();
        if cur.enc != ENC_DESKTOP_SIZE && cur.enc != ENC_LAST_RECT
           && (cur.rect.Null() || !cur.rect.Within(work.Length1, work.Length0)) {
          Fail(OutsideScreen);
          return false;
        }
        assert buf[pos..] == old(buf[pos..])[12..];
      }
      ok := StepBody();
    }

    method BeginUpdate(n: nat)
      requires Painted() && SameSize(shown, drawn)
      modifies fb, this`shown, this`dirty, this`batch, this`events
      ensures var t := old(View()).(batch := BatchOf(old(batch), n));
              Painted() && View() == if t.batch.left == 0 then Rfb.FinishUpdate(t) else t
    {
      batch := batch.(left := n, lastRect := n == 0xFFFF);
      if batch.lastRect {
        batch := batch.(left := 1);
      }
      if batch.left == 0 {
        FinishUpdate();
      }
    }

    method StepMessage() returns (ok: bool)
      requires Sane()
      modifies this, fb
      ensures Painted() && Follows(Rfb.StepMessage(old(View()), old(Waiting())), ok, old(pos))
      ensures buf == old(buf) && fb == old(fb) && work == old(work)
    {
      hide Rfb.FinishUpdate, Pic;
      var b := buf[pos..];
      if |b| == 0 {
        return false;
      }
      match b[0] {
        case 0 =>
          if |b| < 4 {
            return false;
          }
          pos := pos + 4;
          BeginUpdate(U16(b, 2));
          return true;
        case 1 =>
          if |b| < 6 || |b| < 6 + 6 * U16(b, 4) {
            return false;
          }
          pos := pos + 6 + 6 * U16(b, 4);
          return true;
        case 2 =>
          pos := pos + 1;
          Emit(Bell);
          return true;
        case 3 =>
          if |b| < 8 {
            return false;
          }
          var length := U32(b, 4);
          if length > MAX_STRING {
            Fail(BadClipboard);
            return false;
          }
          if |b| < 8 + length {
            return false;
          }
          pos := pos + 8 + length;
          Emit(Clipboard(b[8..8 + length]));
          return true;
        case other =>
          Fail(UnknownMessage(other));
          return false;
      }
    }

    // Consumes what it can for the current stage; false means it needs more
    // data, or has failed.
    method Step() returns (ok: bool)
      requires Valid()
      modifies this, fb, work
      ensures Valid() && Follows(Rfb.Step(env, old(View()), old(Waiting())), ok, old(pos))
      ensures buf == old(buf) && (ok ==> pos > old(pos))
      ensures (fb == old(fb) && work == old(work)) || (fresh(fb) && fresh(work))
    {
      StepSound(env, View(), buf[pos..]);
      hide Rfb.StepVersion, Rfb.StepSecurityTypes, Rfb.StepAuthChallenge, Rfb.StepSecurityResult,
        Rfb.StepSecurityReason, Rfb.StepServerInit, Rfb.StepRect, Rfb.StepMessage, Pic, Wf;
      match stage {
        case Idle => ok := false;
        case Version => ok := StepVersion();
        case SecurityTypes => ok := StepSecurityTypes();
        case AuthChallenge => ok := StepAuthChallenge();
        case SecurityResult => ok := StepSecurityResult();
        case SecurityReason => ok := StepSecurityReason();
        case ServerInit => ok := StepServerInit();
        case Running =>
          if inRect || batch.left > 0 {
            ok := StepRect();
          } else {
            ok := StepMessage();
          }
      }
    }

    // A read from the socket: everything it completes is decoded, and what it
    // leaves unfinished waits for the next one.
    method OnReadyRead(chunk: bytes)
      requires Valid()
      modifies this, fb, work
      ensures Valid() && (View(), Waiting()) == Run(env, old(View()), old(Waiting()) + chunk)
      ensures (fb == old(fb) && work == old(work)) || (fresh(fb) && fresh(work))
    {
      hide Rfb.Step, Pic;
      buf := buf + chunk;
      ghost var end := Run(env, View(), buf[pos..]);
      assert old(buf[pos..]) + chunk == buf[pos..];
      var more := true;
      while stage != Idle && more
        invariant Valid() && ((fb == old(fb) && work == old(work)) || (fresh(fb) && fresh(work)))
        invariant if more then Run(env, View(), buf[pos..]) == end else (View(), buf[pos..]) == end
        decreases |buf| - pos, more
      {
        ghost var start, waiting := pos, buf[pos..];
        more := Step();
        assert buf[pos..] == waiting[pos - start..];
      }
      if pos > 0 {
        buf, pos := buf[pos..], 0;
      }
      assert buf[pos..] == end.1;
    }
  }

  // Pixel `k` of a tile in reading order is the one at (x, y).
  ghost predicate SpotIs(t: Rect, x: nat, y: nat, k: nat) {
    k == y * t.w + x && (k < t.Area() ==> x < t.w)
  }

  lemma SpotInside(t: Rect, x: nat, y: nat, k: nat)
    requires SpotIs(t, x, y, k) && k < t.Area()
    ensures t.Has(t.x + x, t.y + y) && t.Index(t.x + x, t.y + y) == k
  {
    RowColumn(k, t.w, t.h);
    DivMod(x, y, t.w);
  }

  // What is left to decode after `p`, reached `used` bytes in.
  ghost predicate RunsFrom(pal: seq<Pixel>, d: bytes, total: nat, p: seq<Pixel>, used: nat) {
    && used <= |d| && |p| <= total
    && var t, rest := Zrle.Runs(pal, d, total), Zrle.Runs(pal, d[used..], total - |p|);
       t.ok == rest.ok && t.px == p + rest.px && (t.ok ==> t.used == used + rest.used)
  }

  lemma RunsNext(pal: seq<Pixel>, d: bytes, total: nat, p: seq<Pixel>, used: nat)
    requires RunsFrom(pal, d, total, p, used) && |p| < total
    ensures match Zrle.NextRun(pal, d[used..])
            case None => Zrle.Runs(pal, d, total).px == p && !Zrle.Runs(pal, d, total).ok
            case Some(r) =>
              if |p| + r.n > total then Zrle.Runs(pal, d, total).px == p && !Zrle.Runs(pal, d, total).ok
              else RunsFrom(pal, d, total, p + Repeat(r.colour, r.n), used + r.used)
  {
    hide Zrle.NextRun, Zrle.Runs;
    var r := Zrle.NextRun(pal, d[used..]);
    Zrle.RunsStep(pal, d[used..], total - |p|);
    if r.Some? && |p| + r.value.n <= total {
      assert d[used..][r.value.used..] == d[used + r.value.used..];
      Grow3(p, Repeat(r.value.colour, r.value.n), Zrle.Runs(pal, d[used + r.value.used..], total - |p| - r.value.n).px);
    }
  }

  lemma Grow3(a: seq<Pixel>, b: seq<Pixel>, c: seq<Pixel>)
    ensures a + (b + c) == a + b + c
  {
  }

  lemma RunsDone(pal: seq<Pixel>, d: bytes, total: nat, p: seq<Pixel>, used: nat)
    requires RunsFrom(pal, d, total, p, used) && |p| == total
    ensures Zrle.Runs(pal, d, total) == Zrle.Tile(true, p, used)
  {
  }

  lemma FlatFails(pal: seq<Pixel>, d: bytes, tw: nat, th: nat)
    requires !Zrle.DecodeFlat(pal, d, tw, th).ok
    ensures Zrle.DecodeFlat(pal, d, tw, th).px == []
  {
  }

  ghost function Tiled(s: Session, c: Hextile.Carry, img: Image): Session {
    s.(cur := s.cur.(carry := c), screen := s.screen.(work := img))
  }

  // The client at `v` is where the loop started at `s` on `b` is after `used` bytes.
  ghost predicate Resuming(s: Session, b: bytes, v: Session, used: nat)
    requires s.screen.Ok() && v.screen.Ok()
  {
    && used <= |b| && Begun(s) && Begun(v) && s.cur.enc == ENC_HEXTILE
    && v == WithProgress(s, ProgressOf(v))
    && Hextile.RunLoop(s.cur.rect, ProgressOf(s), b)
       == (var l := Hextile.RunLoop(s.cur.rect, ProgressOf(v), b[used..]); Hextile.Loop(l.status, l.p, used + l.used))
  }

  lemma ResizingOpen(s: Session, w: nat, h: nat)
    requires s.batch.left > 0
    ensures Resizing(s, w, h).batch.left > 0 && Resizing(s, w, h).screen.Ok()
  {
  }

  ghost function CurrentTile(v: Session): Rect
    requires Begun(v) && v.cur.enc == ENC_HEXTILE && v.cur.tileY < v.cur.rect.h
  {
    Tiles.TileAt(v.cur.rect.w, v.cur.rect.h, Hextile.SIDE, v.cur.tileX, v.cur.tileY).Moved(v.cur.rect.x, v.cur.rect.y)
  }

  lemma LoopStops(s: Session, b: bytes, v: Session, used: nat)
    requires s.screen.Ok() && v.screen.Ok() && Resuming(s, b, v, used) && v.cur.tileY < v.cur.rect.h
    ensures match Hextile.DecodeTile(v.screen.work, CurrentTile(v), v.cur.carry, b[used..])
            case NeedMore => HextileBody(s, b) == Result(false, used, v)
            case Broken(c, img) => HextileBody(s, b) == Stop(Tiled(v, c, img), used, BadSubrect)
            case Took(_, _, _) => true
  {
  }

  ghost function Advanced(v: Session): Session {
    v.(cur := v.cur.(tileX := Tiles.NextX(v.cur.rect.w, Hextile.SIDE, v.cur.tileX),
                     tileY := Tiles.NextY(v.cur.rect.w, Hextile.SIDE, v.cur.tileX, v.cur.tileY)))
  }

  lemma TileTaken(s: Session, b: bytes, v: Session, used: nat)
    requires s.screen.Ok() && v.screen.Ok() && Resuming(s, b, v, used) && v.cur.tileY < v.cur.rect.h
    ensures match Hextile.DecodeTile(v.screen.work, CurrentTile(v), v.cur.carry, b[used..])
            case Took(c, img, n) =>
              var next := Advanced(Tiled(v, c, img));
              Begun(next) && next.cur.enc == ENC_HEXTILE && Resuming(s, b, next, used + n)
            case _ => true
  {
    hide Hextile.DecodeTile;
    var o := Hextile.DecodeTile(v.screen.work, CurrentTile(v), v.cur.carry, b[used..]);
    if o.Took? {
      assert b[used..][o.used..] == b[used + o.used..];
      assert ProgressOf(Advanced(Tiled(v, o.c, o.img)))
             == Hextile.Progress(Tiles.NextX(v.cur.rect.w, 16, v.cur.tileX),
               Tiles.NextY(v.cur.rect.w, 16, v.cur.tileX, v.cur.tileY), o.c, o.img);
    }
  }

  lemma LoopStarts(s: Session, b: bytes)
    requires Begun(s) && s.cur.enc == ENC_HEXTILE
    ensures Resuming(s, b, s, 0)
  {
    assert b[0..] == b;
  }

  lemma LoopEnds(s: Session, b: bytes, v: Session, used: nat)
    requires s.screen.Ok() && v.screen.Ok() && Resuming(s, b, v, used) && v.cur.tileY >= v.cur.rect.h
    ensures v.batch.left > 0 && HextileBody(s, b) == Later(Drew(v, v.screen.work, 0), used)
  {
  }

  // `p` is the line above the next one of a picture that is done up to `done`.
  ghost predicate LineAbove(p: seq<int>, done: bytes, stride: nat) {
    && stride > 0 && |p| == stride && |done| % stride == 0
    && (if |done| == 0 then forall k :: 0 <= k < stride ==> p[k] == 0
        else |done| >= stride && p == done[|done| - stride..])
  }

  // What the line buffers predict is what the picture as a whole predicts.
  lemma PredictedAt(p: seq<int>, done: bytes, cur: bytes, stride: nat)
    requires LineAbove(p, done, stride) && |cur| < stride
    ensures var k := |cur|;
            Tight.Predicted(done + cur, stride)
            == Tight.Clamp((if k >= 3 then cur[k - 3] as int else 0) + p[k] - (if k >= 3 then p[k - 3] else 0))
  {
    var k, before := |cur|, done + cur;
    RemainderOf(|done|, k, stride);
    if |done| > 0 {
      assert before[|before| - stride] == done[|done| - stride + k];
      assert k >= 3 ==> before[|before| - stride - 3] == done[|done| - stride + k - 3];
    }
    assert k >= 3 ==> before[|before| - 3] == cur[k - 3];
  }

  lemma RemainderOf(a: nat, k: nat, n: nat)
    requires n > 0 && a % n == 0 && k < n
    ensures (a + k) % n == k
  {
    DivMod(k, a / n, n);
  }

  ghost predicate Begins(line: array<int>, cur: bytes)
    reads line
  {
    |cur| <= line.Length && forall k :: 0 <= k < |cur| ==> line[k] == cur[k]
  }

  lemma FirstLine(p: seq<int>, stride: nat)
    requires stride > 0 && |p| == stride && forall k :: 0 <= k < stride ==> p[k] == 0
    ensures LineAbove(p, [], stride)
  {
  }

  lemma LineDone(line: bytes, done: bytes, stride: nat)
    requires stride > 0 && |line| == stride && |done| % stride == 0
    ensures LineAbove(line, done + line, stride)
  {
    var o := done + line;
    assert o[|o| - stride..] == line;
    assert |o| % stride == 0 by {
      DivMod(0, |done| / stride + 1, stride);
    }
  }

  lemma UngradientStep(d: bytes, stride: nat, done: bytes, cur: bytes, v: byte)
    requires stride > 0 && |done + cur| < |d|
    requires v == (d[|done + cur|] as int + Tight.Predicted(done + cur, stride)) % 256
    ensures Tight.Ungradient(d, stride, done + cur) == Tight.Ungradient(d, stride, done + (cur + [v]))
  {
    hide Tight.Ungradient, Tight.Predicted;
    Tight.UngradientOne(d, stride, done + cur);
    assert done + cur + [v] == done + (cur + [v]);
  }

  lemma NextLine(y: nat, stride: nat, h: nat)
    requires y < h && stride > 0
    ensures (y + 1) * stride == y * stride + stride <= stride * h && y * stride % stride == 0
  {
    LastRow(y, stride, h);
    DivMod(0, y, stride);
  }

  // `want` on the rows of `d` above `row` and the first `col` pixels of that
  // one, `img` elsewhere.
  ghost predicate Taken(o: Image, img: Image, want: Image, d: Rect, row: int, col: int)
    requires o.Ok() && img.Ok() && want.Ok() && SameSize(o, img) && SameSize(img, want)
  {
    forall x, y {:trigger o.At(x, y)} :: o.Bounds(x, y) ==>
      o.At(x, y) ==
      if d.Has(x, y) && (y < d.y + row || (y == d.y + row && x < d.x + col)) then want.At(x, y) else img.At(x, y)
  }

  lemma TakenNone(img: Image, want: Image, d: Rect)
    requires img.Ok() && want.Ok() && SameSize(img, want)
    ensures Taken(img, img, want, d, 0, 0)
  {
  }

  lemma TakenRow(o: Image, img: Image, want: Image, d: Rect, row: nat)
    requires o.Ok() && img.Ok() && want.Ok() && SameSize(o, img) && SameSize(img, want)
    requires Taken(o, img, want, d, row, d.w)
    ensures Taken(o, img, want, d, row + 1, 0)
  {
  }

  lemma TakenNext(o: Image, img: Image, want: Image, d: Rect, row: nat, col: nat)
    requires o.Ok() && img.Ok() && want.Ok() && SameSize(o, img) && SameSize(img, want)
    requires want.Covers(d) && row < d.h && col < d.w && Taken(o, img, want, d, row, col)
    ensures Taken(With(o, d.x + col, d.y + row, want.At(d.x + col, d.y + row)), img, want, d, row, col + 1)
  {
    var n := With(o, d.x + col, d.y + row, want.At(d.x + col, d.y + row));
    forall x, y | n.Bounds(x, y)
      ensures n.At(x, y) ==
              if d.Has(x, y) && (y < d.y + row || (y == d.y + row && x < d.x + col + 1)) then want.At(x, y)
              else img.At(x, y)
    {
      assert o.Bounds(x, y);
      var q := o.At(x, y);
    }
  }

  lemma TakenAll(o: Image, img: Image, want: Image, d: Rect)
    requires o.Ok() && img.Ok() && want.Ok() && SameSize(o, img) && SameSize(img, want)
    requires want.Covers(d) && Taken(o, img, want, d, d.h, 0)
    ensures o == Overlay(img, d, want)
  {
    var q := Overlay(img, d, want);
    forall x, y | o.Bounds(x, y)
      ensures o.At(x, y) == q.At(x, y)
    {
      assert img.Bounds(x, y);
      OverlayAt(img, d, want, x, y);
    }
    SameImage(o, q);
  }

  lemma IndexAt(r: Rect, row: nat, start: nat, col: nat)
    requires row < r.h && col < r.w && start == row * r.w
    ensures r.Has(r.x + col, r.y + row) && r.Index(r.x + col, r.y + row) == start + col
  {
  }

  lemma Grow(a: seq<Pixel>, b: seq<Pixel>, k: nat)
    requires k < |b|
    ensures a + b[..k] + [b[k]] == a + b[..k + 1]
  {
  }

  lemma LastRow(row: nat, w: nat, h: nat)
    requires row < h
    ensures row * w + w <= w * h
  {
    assert (row + 1) * w <= h * w;
  }
}
