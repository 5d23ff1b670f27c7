// Runs of the RFB client: the read loop makes progress and ends, and how the
// network cuts the stream into reads makes no difference.
module RfbRuns {
  import opened Bytes
  import opened Images
  import opened Rfb
  import Hextile
  import Tight
  import Zrle

  // ---- Every step keeps the state well formed and makes progress

  // A state in the middle of an update.
  ghost predicate Open(s: Session) {
    && s.screen.Ok() && s.screen.Visible() && s.stage.Running? && !s.failedAlready
    && s.batch.left > 0 && (s.batch.lastRect ==> s.batch.left == 1)
  }

  lemma EndRectKeeps(s: Session)
    requires Open(s)
    ensures Wf(EndRect(s)) && EndRect(s).stage.Running? && !EndRect(s).inRect
  {
  }

  lemma DrewKeeps(s: Session, work: Image, used: nat)
    requires Open(s) && work.Ok() && SameSize(work, s.screen.work)
    ensures Wf(Drew(s, work, used).s) && Drew(s, work, used).s.stage.Running?
  {
    EndRectKeeps(s.(screen := Drawn(s.screen, work, s.cur.rect)));
  }

  lemma StopKeeps(s: Session, used: nat, why: Reason)
    requires s.screen.Ok() && !s.failedAlready
    ensures Wf(Stop(s, used, why).s) && Stop(s, used, why).s.stage.Idle?
  {
  }

  ghost predicate Sound(r: Result, b: bytes) { Wf(r.s) && r.used <= |b| }

  lemma ApplyTightSound(env: Env, s: Session, op: Tight.Op, used: nat)
    requires Open(s) && Begun(s) && Tight.GoodOp(op, s.cur.rect.w, s.cur.rect.h)
    ensures var r := ApplyTight(env, s, op, used);
            Wf(r.s) && (if r.ok then r.used == used else r.used == 0 && r.s.stage.Idle?)
  {
    match op
    case Fill(c) => DrewKeeps(s, Hextile.Fill(s.screen.work, s.cur.rect, c), used);
    case Picture(data) =>
      StopKeeps(s, 0, BadJpeg);
      var j := env.jpeg(data);
      if j.Some? && j.value.w == s.cur.rect.w && j.value.h == s.cur.rect.h {
        DrewKeeps(s, Paint(s.screen.work, s.cur.rect, JpegPixels(j.value, s.cur.rect.Area())), used);
      }
    case Basic(i, f, Plain(d)) => DrewKeeps(s,
      Paint(s.screen.work, s.cur.rect, Tight.Pixels(f, s.cur.rect.w, s.cur.rect.h, d)), used);
    case Basic(i, f, Zipped(z)) =>
      var call := Inflation(z, Tight.RowSize(f, s.cur.rect.w) * s.cur.rect.h);
      var fed := WithTight(s, Feed(s.streams.tight, i, call));
      StopKeeps(fed, 0, Corrupt);
      var d := Inflate(env, HistoryOf(s.streams.tight[i]), call);
      if d.Some? {
        DrewKeeps(fed, Paint(s.screen.work, s.cur.rect, Tight.Pixels(f, s.cur.rect.w, s.cur.rect.h, d.value)), used);
      }
  }

  // Nothing of a rectangle is decoded before it is all here, so a body that
  // waits has used nothing - except Hextile, which keeps whole tiles.
  lemma TightSound(env: Env, s: Session, b: bytes)
    requires Open(s) && Begun(s) && s.inRect && s.cur.enc == ENC_TIGHT
    ensures var r := TightBody(env, s, b);
            Sound(r, b) && (r.ok ==> r.used > 0)
              && (!r.ok && !r.s.stage.Idle? ==> r.used == 0 && r.s == WithTight(s, r.s.streams.tight))
  {
    if |b| > 0 {
      var t := WithTight(s, TightResets(s.streams.tight, b[0]));
      StopKeeps(t, 0, BadTightKind);
      StopKeeps(t, 0, BadTightFilter);
      var p := Tight.Parse(b, s.cur.rect.w, s.cur.rect.h);
      if p.Ready? {
        ApplyTightSound(env, t, p.op, p.used);
      }
    }
  }

  lemma ZrleSound(env: Env, s: Session, b: bytes)
    requires Open(s) && Begun(s) && s.inRect && s.cur.enc == ENC_ZRLE
    ensures Sound(ZrleBody(env, s, b), b)
    ensures ZrleBody(env, s, b).ok ==> ZrleBody(env, s, b).used > 0
  {
    if |b| >= 4 && U32(b, 0) <= MAX_ZRLE && |b| >= 4 + U32(b, 0) {
      var length := U32(b, 0);
      var call := Inflation(b[4..4 + length], -1);
      var fed := s.(streams := s.streams.(zrle := Some(HistoryOf(s.streams.zrle) + [call])));
      var d := Inflate(env, HistoryOf(s.streams.zrle), call);
      if d.Some? {
        var (good, work) := Zrle.DecodeRect(s.screen.work, s.cur.rect, d.value);
        DrewKeeps(fed, work, 4 + length);
        StopKeeps(fed.(screen := s.screen.(work := work)), 4 + length, BadZrle);
      } else {
        StopKeeps(fed, 0, Corrupt);
      }
    }
  }

  lemma HextileSound(s: Session, b: bytes)
    requires Open(s) && Begun(s) && s.inRect && s.cur.enc == ENC_HEXTILE
    ensures Sound(HextileBody(s, b), b)
    ensures s.cur.tileY < s.cur.rect.h && HextileBody(s, b).ok ==> HextileBody(s, b).used > 0
  {
    var l := Hextile.RunLoop(s.cur.rect, ProgressOf(s), b);
    var reached := WithProgress(s, l.p);
    DrewKeeps(reached, l.p.img, l.used);
    StopKeeps(reached, l.used, BadSubrect);
  }

  lemma DesktopSizeSound(s: Session)
    requires Open(s) && Begun(s) && s.inRect
    ensures Wf(DesktopSizeBody(s).s) && DesktopSizeBody(s).used == 0
  {
    StopKeeps(s, 0, BadDesktopSize);
    var w, h := s.cur.rect.w, s.cur.rect.h;
    if w > 0 && h > 0 {
      EndRectKeeps(Resizing(s, w, h));
    }
  }

  lemma BodySound(env: Env, s: Session, b: bytes)
    requires Open(s) && Begun(s) && s.inRect
    ensures Sound(Body(env, s, b), b)
    ensures Pending(s.cur, s.screen.work) && Body(env, s, b).ok ==> Body(env, s, b).used > 0
  {
    if s.cur.enc == ENC_RAW {
      if |b| >= s.cur.rect.Area() * 4 {
        DrewKeeps(s, Paint(s.screen.work, s.cur.rect, Hextile.WirePixels(b, s.cur.rect.Area())), s.cur.rect.Area() * 4);
      }
    } else if s.cur.enc == ENC_COPY_RECT {
      if |b| >= 4 {
        var source := Rect(U16(b, 0), U16(b, 2), s.cur.rect.w, s.cur.rect.h);
        StopKeeps(s, 4, BadCopy);
        if s.screen.work.Covers(source) {
          DrewKeeps(s, Paint(s.screen.work, s.cur.rect, Read(s.screen.work, source)), 4);
        }
      }
    } else if s.cur.enc == ENC_HEXTILE {
      HextileSound(s, b);
    } else if s.cur.enc == ENC_TIGHT {
      TightSound(env, s, b);
    } else if s.cur.enc == ENC_ZRLE {
      ZrleSound(env, s, b);
    } else if s.cur.enc == ENC_LAST_RECT {
      EndRectKeeps(s);
    } else if s.cur.enc == ENC_DESKTOP_SIZE {
      DesktopSizeSound(s);
    } else {
      StopKeeps(s, 0, UnsupportedEncoding(s.cur.enc));
    }
  }

  lemma StepRectSound(env: Env, s: Session, b: bytes)
    requires Wf(s) && s.stage.Running? && s.batch.left > 0
    ensures Sound(StepRect(env, s, b), b)
    ensures StepRect(env, s, b).ok ==> StepRect(env, s, b).used > 0
  {
    if s.inRect {
      BodySound(env, s, b);
    } else if |b| >= 12 {
      var t := s.(inRect := true, cur := Header(b));
      if Acceptable(t.cur, s.screen.work) {
        BodySound(env, t, b[12..]);
      } else {
        StopKeeps(t, 12, OutsideScreen);
      }
    }
  }

  lemma StepMessageSound(s: Session, b: bytes)
    requires Wf(s) && s.stage.Running? && !s.inRect && s.batch.left == 0
    ensures Sound(StepMessage(s, b), b)
    ensures StepMessage(s, b).ok ==> StepMessage(s, b).used > 0
  {
  }

  // The read loop: a step that asks to be called again has used something.
  lemma StepSound(env: Env, s: Session, b: bytes)
    requires Wf(s)
    ensures Sound(Step(env, s, b), b)
    ensures Step(env, s, b).ok ==> Step(env, s, b).used > 0
  {
    match s.stage
    case Running =>
      if s.batch.left > 0 {
        StepRectSound(env, s, b);
      } else {
        StepMessageSound(s, b);
      }
    case _ =>
  }

  // ---- Cutting the stream differently changes nothing

  lemma HextileExtends(s: Session, b: bytes, e: bytes)
    requires Open(s) && Begun(s) && s.inRect && s.cur.enc == ENC_HEXTILE
    ensures var r := HextileBody(s, b);
            r.used <= |b| &&
            if r.ok || r.s.stage.Idle? then HextileBody(s, b + e) == r
            else Open(r.s) && Begun(r.s) && r.s.inRect && r.s.cur.enc == ENC_HEXTILE
                 && HextileBody(s, b + e) == Later(HextileBody(r.s, b[r.used..] + e), r.used)
  {
    hide Hextile.RunLoop, EndRect;
    Hextile.LoopResumes(s.cur.rect, ProgressOf(s), b, e);
    var l := Hextile.RunLoop(s.cur.rect, ProgressOf(s), b);
    var reached := WithProgress(s, l.p);
    if l.status.Stalled? {
      assert ProgressOf(reached) == l.p;
      var l' := Hextile.RunLoop(s.cur.rect, l.p, b[l.used..] + e);
      assert WithProgress(reached, l'.p) == WithProgress(s, l'.p);
    } else if l.status.Finished? {
      DrewKeeps(reached, l.p.img, l.used);
    }
  }

  // Asking for the same resets again changes nothing.
  lemma ResetsTwice(tight: Tights, control: byte)
    ensures TightResets(TightResets(tight, control), control) == TightResets(tight, control)
  {
  }

  lemma TightExtends(env: Env, s: Session, b: bytes, e: bytes)
    requires Open(s) && Begun(s) && s.inRect && s.cur.enc == ENC_TIGHT
    ensures var r := TightBody(env, s, b);
            if r.ok || r.s.stage.Idle? then TightBody(env, s, b + e) == r
            else r.used == 0 && Open(r.s) && Begun(r.s) && r.s.inRect && r.s.cur.enc == ENC_TIGHT
                 && TightBody(env, s, b + e) == TightBody(env, r.s, b + e)
  {
    if |b| > 0 {
      var t := WithTight(s, TightResets(s.streams.tight, b[0]));
      assert (b + e)[0] == b[0];
      var p := Tight.Parse(b, s.cur.rect.w, s.cur.rect.h);
      if p.Short? {
        ResetsTwice(s.streams.tight, b[0]);
        assert WithTight(t, t.streams.tight) == t;
      } else {
        Tight.ParseExtends(b, e, s.cur.rect.w, s.cur.rect.h);
        if p.Ready? {
          ApplyTightSound(env, t, p.op, p.used);
        }
      }
    }
  }

  lemma ZrleExtends(env: Env, s: Session, b: bytes, e: bytes)
    requires Open(s) && Begun(s) && s.inRect && s.cur.enc == ENC_ZRLE
    ensures var r := ZrleBody(env, s, b);
            if r.ok || r.s.stage.Idle? then ZrleBody(env, s, b + e) == r else r == Wait(s)
  {
    hide Zrle.DecodeRect, EndRect, Inflate;
    if |b| >= 4 {
      var length := U32(b, 0);
      assert U32(b + e, 0) == length;
      if length <= MAX_ZRLE && |b| >= 4 + length {
        assert (b + e)[4..4 + length] == b[4..4 + length];
      }
    }
  }

  lemma RawExtends(s: Session, b: bytes, e: bytes)
    requires Open(s) && Begun(s)
    requires s.cur.enc == ENC_RAW
    ensures var r := RawBody(s, b); if r.ok then RawBody(s, b + e) == r else r == Wait(s)
  {
    var n := s.cur.rect.Area();
    if |b| >= n * 4 {
      assert Hextile.WirePixels(b + e, n) == Hextile.WirePixels(b, n);
    }
  }

  lemma CopyExtends(s: Session, b: bytes, e: bytes)
    requires Open(s) && Begun(s) && s.cur.enc == ENC_COPY_RECT
    ensures var r := CopyBody(s, b); if r.ok || r.s.stage.Idle? then CopyBody(s, b + e) == r else r == Wait(s)
  {
    if |b| >= 4 {
      assert U16(b + e, 0) == U16(b, 0) && U16(b + e, 2) == U16(b, 2);
    }
  }

  lemma BodyExtends(env: Env, s: Session, b: bytes, e: bytes)
    requires Open(s) && Begun(s) && s.inRect
    ensures var r := Body(env, s, b);
            r.used <= |b| &&
            if r.ok || r.s.stage.Idle? then Body(env, s, b + e) == r
            else
              && Open(r.s) && Begun(r.s) && r.s.inRect
              && Body(env, s, b + e) == Later(Body(env, r.s, b[r.used..] + e), r.used)
  {
    BodySound(env, s, b);
    assert b[0..] == b;
    if s.cur.enc == ENC_RAW {
      RawExtends(s, b, e);
    } else if s.cur.enc == ENC_COPY_RECT {
      CopyExtends(s, b, e);
    } else if s.cur.enc == ENC_HEXTILE {
      HextileExtends(s, b, e);
    } else if s.cur.enc == ENC_TIGHT {
      TightExtends(env, s, b, e);
    } else if s.cur.enc == ENC_ZRLE {
      ZrleExtends(env, s, b, e);
    } else if s.cur.enc == ENC_LAST_RECT {
      EndRectKeeps(s);
    } else if s.cur.enc == ENC_DESKTOP_SIZE {
      DesktopSizeSound(s);
    }
  }

  lemma HeaderExtends(env: Env, s: Session, b: bytes, e: bytes)
    requires Wf(s) && s.stage.Running? && s.batch.left > 0 && !s.inRect && |b| >= 12
    ensures var t := s.(inRect := true, cur := Header(b));
            Header(b + e) == Header(b)
            && (Acceptable(t.cur, s.screen.work) ==>
                  Open(t) && Begun(t) && StepRect(env, s, b) == Later(Body(env, t, b[12..]), 12)
                  && StepRect(env, s, b + e) == Later(Body(env, t, b[12..] + e), 12))
  {
    var d := b + e;
    assert U16(d, 0) == U16(b, 0) && U16(d, 2) == U16(b, 2) && U16(d, 4) == U16(b, 4) && U16(d, 6) == U16(b, 6)
      && U32(d, 8) == U32(b, 8);
    assert d[12..] == b[12..] + e;
  }

  lemma StepRectExtends(env: Env, s: Session, b: bytes, e: bytes)
    requires Wf(s) && s.stage.Running? && s.batch.left > 0
    ensures var r := StepRect(env, s, b);
            r.used <= |b| && Wf(r.s) &&
            if r.ok || r.s.stage.Idle? then StepRect(env, s, b + e) == r
            else r.s.stage.Running? && r.s.batch.left > 0
                 && StepRect(env, s, b + e) == Later(StepRect(env, r.s, b[r.used..] + e), r.used)
  {
    StepRectSound(env, s, b);
    if s.inRect {
      BodyExtends(env, s, b, e);
    } else if |b| < 12 {
      assert b[0..] == b;
    } else {
      var t := s.(inRect := true, cur := Header(b));
      HeaderExtends(env, s, b, e);
      if Acceptable(t.cur, s.screen.work) {
        BodyExtends(env, t, b[12..], e);
        var r := Body(env, t, b[12..]);
        assert b[12..][r.used..] == b[12 + r.used..];
      }
    }
  }

  lemma StepMessageExtends(s: Session, b: bytes, e: bytes)
    requires Wf(s) && s.stage.Running? && !s.inRect && s.batch.left == 0
    ensures var r := StepMessage(s, b);
            if r.ok || r.s.stage.Idle? then StepMessage(s, b + e) == r else r == Wait(s)
  {
    var d := b + e;
    if |b| > 0 {
      assert d[0] == b[0];
      assert |b| >= 4 ==> U16(d, 2) == U16(b, 2);
      assert |b| >= 6 ==> U16(d, 4) == U16(b, 4);
      if |b| >= 8 {
        assert U32(d, 4) == U32(b, 4);
        var length := U32(b, 4);
        assert |b| >= 8 + length ==> d[8..8 + length] == b[8..8 + length];
      }
    }
  }

  lemma SecurityTypesExtends(s: Session, b: bytes, e: bytes)
    requires !s.failedAlready && !s.stage.Idle?
    ensures var r := StepSecurityTypes(s, b);
            if r.ok || r.s.stage.Idle? then StepSecurityTypes(s, b + e) == r else r == Wait(s)
  {
    if s.link.minor != 3 && |b| > 0 {
      var count: int := b[0];
      assert |b| >= 1 + count ==> (b + e)[1..1 + count] == b[1..1 + count];
    } else if |b| >= 4 {
      assert U32(b + e, 0) == U32(b, 0);
    }
  }

  lemma ServerInitExtends(s: Session, b: bytes, e: bytes)
    requires !s.failedAlready && !s.stage.Idle?
    ensures var r := StepServerInit(s, b);
            if r.ok || r.s.stage.Idle? then StepServerInit(s, b + e) == r else r == Wait(s)
  {
    hide Opened;
    if |b| >= 24 {
      assert U32(b + e, 20) == U32(b, 20) && U16(b + e, 0) == U16(b, 0) && U16(b + e, 2) == U16(b, 2);
      assert |b| >= 24 + U32(b, 20) ==> (b + e)[24..24 + U32(b, 20)] == b[24..24 + U32(b, 20)];
    }
  }

  lemma SecurityReasonExtends(s: Session, b: bytes, e: bytes)
    requires !s.failedAlready && !s.stage.Idle?
    ensures var r := StepSecurityReason(s, b);
            if r.ok || r.s.stage.Idle? then StepSecurityReason(s, b + e) == r else r == Wait(s)
  {
    if |b| >= 4 {
      assert U32(b + e, 0) == U32(b, 0);
      assert |b| >= 4 + U32(b, 0) ==> (b + e)[4..4 + U32(b, 0)] == b[4..4 + U32(b, 0)];
    }
  }

  lemma HandshakeExtends(env: Env, s: Session, b: bytes, e: bytes)
    requires Wf(s) && !s.stage.Running? && !s.stage.Idle?
    ensures var r := Step(env, s, b);
            if r.ok || r.s.stage.Idle? then Step(env, s, b + e) == r else r == Wait(s)
  {
    hide StepSecurityTypes, StepSecurityReason, StepServerInit;
    var d := b + e;
    match s.stage
    case Version =>
      if |b| >= 12 {
        assert d[..4] == b[..4] && d[4..7] == b[4..7] && d[8..11] == b[8..11];
      }
    case SecurityTypes => SecurityTypesExtends(s, b, e);
    case AuthChallenge =>
      if |b| >= 16 {
        assert d[..16] == b[..16];
      }
    case SecurityResult =>
      if |b| >= 4 {
        assert U32(d, 0) == U32(b, 0);
      }
    case SecurityReason => SecurityReasonExtends(s, b, e);
    case ServerInit => ServerInitExtends(s, b, e);
  }

  // A step that goes on or fails is not affected by what arrives later; one
  // that waits leaves a state from which all the data leads to the same end.
  lemma StepExtends(env: Env, s: Session, b: bytes, e: bytes)
    requires Wf(s) && !s.stage.Idle?
    ensures var r := Step(env, s, b);
            r.used <= |b| && Wf(r.s) &&
            if r.ok || r.s.stage.Idle? then Step(env, s, b + e) == r
            else Step(env, s, b + e) == Later(Step(env, r.s, b[r.used..] + e), r.used)
  {
    StepSound(env, s, b);
    assert b[0..] == b;
    if !s.stage.Running? {
      HandshakeExtends(env, s, b, e);
    } else if s.batch.left > 0 {
      StepRectExtends(env, s, b, e);
    } else {
      StepMessageExtends(s, b, e);
    }
  }

  // onReadyRead()'s loop: step until one asks for more data or the client
  // closes. What is left of the buffer stays for the next read.
  ghost function Run(env: Env, s: Session, b: bytes): (o: (Session, bytes))
    requires Wf(s)
    ensures Wf(o.0)
    decreases |b|
  {
    if s.stage.Idle? then (s, b)
    else
      StepSound(env, s, b);
      var r := Step(env, s, b);
      if r.ok then Run(env, r.s, b[r.used..]) else (r.s, b[r.used..])
  }

  // Two reads are as good as one.
  lemma {:induction false} RunSplits(env: Env, s: Session, b: bytes, e: bytes)
    requires Wf(s)
    ensures var (s1, rest) := Run(env, s, b);
            Run(env, s, b + e) == Run(env, s1, rest + e)
    decreases |b|
  {
    hide Step, Wf;
    if !s.stage.Idle? {
      StepSound(env, s, b);
      StepExtends(env, s, b, e);
      var r := Step(env, s, b);
      var rest := b[r.used..];
      assert (b + e)[r.used..] == rest + e;
      if r.ok {
        RunSplits(env, r.s, rest, e);
      } else if !r.s.stage.Idle? {
        StepSound(env, r.s, rest + e);
        var again := Step(env, r.s, rest + e);
        assert (b + e)[r.used + again.used..] == (rest + e)[again.used..];
      }
    }
  }

  // The client after a series of reads, and its buffer.
  ghost function RunAll(env: Env, s: Session, b: bytes, chunks: seq<bytes>): (o: (Session, bytes))
    requires Wf(s)
    ensures Wf(o.0)
    decreases |chunks|
  {
    if |chunks| == 0 then (s, b)
    else
      var (s1, rest) := Run(env, s, b + chunks[0]);
      RunAll(env, s1, rest, chunks[1..])
  }

  lemma FlatFirst(b: bytes, chunks: seq<bytes>)
    requires |chunks| > 0
    ensures b + Flat(chunks) == b + chunks[0] + Flat(chunks[1..])
  {
  }

  // Chunk independence: however the network cuts a stream into reads, the
  // client ends in the same state, images, stream histories and output
  // included, with the same bytes waiting, as if it had arrived at once.
  lemma {:induction false} ChunkIndependence(env: Env, s: Session, b: bytes, chunks: seq<bytes>)
    requires Wf(s) && |chunks| > 0
    ensures RunAll(env, s, b, chunks) == Run(env, s, b + Flat(chunks))
    decreases |chunks|
  {
    var first := Run(env, s, b + chunks[0]);
    RunSplits(env, s, b + chunks[0], Flat(chunks[1..]));
    FlatFirst(b, chunks);
    if |chunks| > 1 {
      ChunkIndependence(env, first.0, first.1, chunks[1..]);
    } else {
      assert b + chunks[0] + [] == b + chunks[0];
    }
  }
}
