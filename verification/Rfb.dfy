// The RFB client as a function of its state and the bytes waiting
// (VncClient::step and the step* stages): one step either needs more bytes,
// or uses some and changes the state, or fails and closes.
module Rfb {
  import opened Bytes
  import opened Images
  import Hextile
  import Tight
  import Zrle

  const MAX_DIMENSION := 16384
  const MAX_STRING := 0x10_0000
  const MAX_ZRLE := 0x400_0000

  const ENC_RAW := 0
  const ENC_COPY_RECT := 1
  const ENC_HEXTILE := 5
  const ENC_TIGHT := 7
  const ENC_ZRLE := 16
  const ENC_LAST_RECT := -224
  const ENC_DESKTOP_SIZE := -223

  // ---- The world outside

  // One call of inflate(): the input, and how much must come out (-1: whatever does).
  datatype Inflation = Inflation(data: bytes, expected: int)

  // A zlib stream's state: everything inflated on it since it was reset.
  type History = seq<Inflation>

  datatype Jpeg = Jpeg(w: nat, h: nat, pixel: nat -> Pixel)

  // The first pixels of a decoded picture, in reading order.
  function JpegPixels(j: Jpeg, n: nat): (p: seq<Pixel>)
    ensures |p| == n && forall k :: 0 <= k < n ==> p[k] == j.pixel(k)
  {
    seq(n, k requires 0 <= k < n => j.pixel(k))
  }

  datatype Answer = NoProvider | Cancelled | Entered(password: bytes)

  // What the client asks of libraries and of the user.
  datatype Env = Env(
    inflate: (History, Inflation) -> Option<bytes>,
    jpeg: bytes -> Option<Jpeg>,
    number: bytes -> int,
    respond: (bytes, bytes) -> bytes,
    ask: Answer)

  function Inflate(env: Env, hist: History, i: Inflation): (r: Option<bytes>)
    ensures r.Some? && i.expected >= 0 ==> |r.value| == i.expected
  {
    match env.inflate(hist, i)
    case None => None
    case Some(out) => if i.expected >= 0 && |out| != i.expected then None else Some(out)
  }

  // ---- State

  datatype Stage =
    | Idle | Version | SecurityTypes | AuthChallenge | SecurityResult | SecurityReason | ServerInit | Running

  datatype Reason =
    | NotVnc | UnsupportedType(t: byte) | NoKnownType | UserCancelled | WrongPassword | Refused | Told(text: bytes)
    | BadName | EmptyDesktop | BadClipboard | UnknownMessage(t: byte) | OutsideScreen | BadCopy | BadDesktopSize
    | UnsupportedEncoding(enc: int) | BadJpeg | BadTightKind | BadTightFilter
    | Corrupt | OversizedZrle | BadZrle | BadSubrect

  // Messages written to the socket and signals emitted, in order.
  datatype Event =
    | SentVersion(minor: nat) | SentType(t: byte) | SentResponse(r: bytes) | SentClientInit | SentSetup
    | SentRequest(incremental: bool, w: nat, h: nat)
    | Ready | Changed(dirty: Rect) | Resized(w: nat, h: nat) | Clipboard(text: bytes) | Bell
    | Failure(why: Reason) | Closed

  // What the handshake settles.
  datatype Link = Link(minor: nat, maxMinor: nat, password: bytes, name: bytes)

  // What is displayed, what updates are decoded into, and where they may differ.
  datatype Screen = Screen(fb: Image, work: Image, dirty: Rect) {
    ghost predicate Ok() { fb.Ok() && work.Ok() && SameSize(fb, work) }
    ghost predicate Visible() { work.w > 0 && work.h > 0 }
  }

  type Tights = t: seq<Option<History>> | |t| == 4 witness [None, None, None, None]

  datatype Streams = Streams(tight: Tights, zrle: Option<History>)

  // The framebuffer update in progress, and how many are behind it.
  datatype Batch = Batch(left: nat, lastRect: bool, resized: bool, updates: nat, rects: nat)

  // The rectangle being decoded.
  datatype Current = Current(rect: Rect, enc: int, tileX: nat, tileY: nat, carry: Hextile.Carry)

  datatype Session = Session(
    stage: Stage, failedAlready: bool, link: Link, screen: Screen, streams: Streams,
    batch: Batch, inRect: bool, cur: Current, events: seq<Event>)

  const NO_BATCH := Batch(0, false, false, 0, 0)

  ghost function Fresh(password: bytes): (s: Session)
    ensures Wf(s)
  {
    Session(Version, false, Link(3, 8, password, []), Screen(Blank(0, 0), Blank(0, 0), EMPTY),
            Streams([None, None, None, None], None), NO_BATCH, false, Current(EMPTY, 0, 0, 0, Hextile.START), [])
  }

  // Encodings that draw pixels and may have to wait for data.
  predicate Drawing(enc: int) {
    enc == ENC_RAW || enc == ENC_COPY_RECT || enc == ENC_HEXTILE || enc == ENC_TIGHT || enc == ENC_ZRLE
  }

  // A rectangle that has been begun can be taken up again: it lies on the
  // screen, and something of it is still to come.
  ghost predicate Pending(c: Current, work: Image) {
    && Drawing(c.enc)
    && work.Covers(c.rect)
    && (c.enc == ENC_RAW ==> c.rect.Area() > 0)
    && (c.enc == ENC_HEXTILE ==> c.tileY < c.rect.h && c.tileX <= c.rect.w)
  }

  ghost predicate Wf(s: Session) {
    && s.screen.Ok()
    && (s.failedAlready ==> s.stage.Idle?)
    && (s.stage.Running? ==>
          && s.screen.Visible()
          && (s.batch.lastRect ==> s.batch.left == 1)
          && (s.inRect ==> s.batch.left > 0 && Pending(s.cur, s.screen.work)))
    && (!s.stage.Running? && !s.stage.Idle? ==> !s.inRect && s.batch == NO_BATCH && s.screen.dirty == EMPTY)
  }

  // What one step did: whether it asks to be called again, how much it used,
  // and the state it left.
  datatype Result = Result(ok: bool, used: nat, s: Session)

  ghost function Wait(s: Session): Result { Result(false, 0, s) }

  ghost function Stop(s: Session, used: nat, why: Reason): Result { Result(false, used, Fail(s, why)) }

  ghost function Emit(s: Session, e: Event): Session { s.(events := s.events + [e]) }

  // fail(): only the first failure closes and is reported.
  ghost function Fail(s: Session, why: Reason): Session {
    if s.failedAlready then s
    else s.(failedAlready := true, stage := Idle, events := s.events + [Failure(why), Closed])
  }

  // ---- Handshake

  ghost function StepVersion(env: Env, s: Session, b: bytes): Result {
    if |b| < 12 then Wait(s)
    else if b[..4] != ['R' as int, 'F' as int, 'B' as int, ' ' as int] then Stop(s, 0, NotVnc)
    else
      var major, minor := env.number(b[4..7]), env.number(b[8..11]);
      var newest := if major > 3 || (major == 3 && minor >= 8) then 8 else if major == 3 && minor == 7 then 7 else 3;
      var agreed := Min(newest, s.link.maxMinor);
      Result(true, 12, Emit(s.(link := s.link.(minor := agreed), stage := SecurityTypes), SentVersion(agreed)))
  }

  ghost function SendClientInit(s: Session): Session { Emit(s.(stage := ServerInit), SentClientInit) }

  ghost function BeginSecurity(s: Session, t: byte): Session {
    if t == 1 then (if s.link.minor >= 8 then s.(stage := SecurityResult) else SendClientInit(s))
    else if t == 2 then s.(stage := AuthChallenge)
    else Fail(s, UnsupportedType(t))
  }

  ghost function StepSecurityTypes(s: Session, b: bytes): Result {
    if s.link.minor == 3 then
      if |b| < 4 then Wait(s)
      else if U32(b, 0) == 0 then Result(true, 4, s.(stage := SecurityReason))
      else Result(true, 4, BeginSecurity(s, U32(b, 0) % 256))
    else if |b| == 0 then Wait(s)
    else
      var count: int := b[0];
      if count == 0 then Result(true, 1, s.(stage := SecurityReason))
      else if |b| < 1 + count then Wait(s)
      else
        var types := b[1..1 + count];
        if 1 !in types && 2 !in types then Stop(s, 1 + count, NoKnownType)
        else
          var chosen := if 1 in types then 1 else 2;
          Result(true, 1 + count, BeginSecurity(Emit(s, SentType(chosen)), chosen))
  }

  ghost function StepAuthChallenge(env: Env, s: Session, b: bytes): Result {
    if |b| < 16 then Wait(s)
    else if s.link.password == [] && env.ask.Cancelled? then Stop(s, 16, UserCancelled)
    else
      var password := if s.link.password == [] && env.ask.Entered? then env.ask.password else s.link.password;
      Result(true, 16, Emit(s.(link := s.link.(password := password), stage := SecurityResult),
        SentResponse(env.respond(b[..16], password))))
  }

  ghost function StepSecurityResult(s: Session, b: bytes): Result {
    if |b| < 4 then Wait(s)
    else if U32(b, 0) == 0 then Result(true, 4, SendClientInit(s))
    else if s.link.minor >= 8 then Result(true, 4, s.(stage := SecurityReason))
    else Stop(s, 4, WrongPassword)
  }

  ghost function StepSecurityReason(s: Session, b: bytes): Result {
    if |b| < 4 then Wait(s)
    else
      var length := U32(b, 0);
      if length > MAX_STRING then Stop(s, 0, Refused)
      else if |b| < 4 + length then Wait(s)
      else Stop(s, 4 + length, if length == 0 then WrongPassword else Told(b[4..4 + length]))
  }

  ghost function AllocFramebuffer(sc: Screen, w: nat, h: nat): Screen { sc.(fb := Blank(w, h), work := Blank(w, h)) }

  // requestUpdate(): nothing is asked for before there is a framebuffer.
  ghost function Request(sc: Screen, incremental: bool): seq<Event> {
    if sc.Visible() then [SentRequest(incremental, sc.work.w, sc.work.h)] else []
  }

  ghost function StepServerInit(s: Session, b: bytes): Result {
    if |b| < 24 then Wait(s)
    else
      var length := U32(b, 20);
      if length > MAX_STRING then Stop(s, 0, BadName)
      else if |b| < 24 + length then Wait(s)
      else
        var named := s.(link := s.link.(name := b[24..24 + length]));
        var w, h := U16(b, 0), U16(b, 2);
        if w == 0 || h == 0 then Stop(named, 24 + length, EmptyDesktop)
        else Result(true, 24 + length, Opened(named, w, h))
  }

  // The first framebuffer, and the first update request.
  ghost function Opened(s: Session, w: nat, h: nat): Session {
    var screen := AllocFramebuffer(s.screen, w, h);
    s.(stage := Running, screen := screen, events := s.events + [SentSetup] + Request(screen, false) + [Ready])
  }

  // ---- Updates

  // The only place where the displayed image takes over decoded pixels.
  ghost function Publish(sc: Screen): (o: Screen)
    requires sc.Ok()
    ensures o.Ok() && o.work == sc.work && o.dirty == EMPTY
  {
    var d := sc.dirty.Clipped(sc.work.w, sc.work.h);
    Screen(if d.w > 0 && d.h > 0 then Overlay(sc.fb, d, sc.work) else sc.fb, sc.work, EMPTY)
  }

  ghost function Announce(sc: Screen): seq<Event> {
    var d := sc.dirty.Clipped(sc.work.w, sc.work.h);
    if d.w > 0 && d.h > 0 then [Changed(d)] else []
  }

  ghost function FinishUpdate(s: Session): Session
    requires s.screen.Ok()
  {
    s.(screen := Publish(s.screen),
       batch := s.batch.(updates := s.batch.updates + 1, resized := false),
       events := s.events + Announce(s.screen) + Request(s.screen, !s.batch.resized))
  }

  // The update's books once a rectangle is complete; its last one finishes it.
  ghost function CountRect(b: Batch, enc: int): (o: (Batch, bool))
    requires b.left > 0
  {
    var c := b.(rects := b.rects + 1);
    if b.lastRect then
      if enc == ENC_LAST_RECT then (c.(lastRect := false, left := 0), true) else (c, false)
    else (c.(left := b.left - 1), b.left == 1)
  }

  ghost function EndRect(s: Session): Session
    requires s.screen.Ok() && s.batch.left > 0
  {
    var (batch, last) := CountRect(s.batch, s.cur.enc);
    var e := s.(inRect := false, batch := batch);
    if last then FinishUpdate(e) else e
  }

  // A rectangle whose header has been read. Its body may start at once.
  ghost predicate Begun(s: Session) {
    && s.screen.Ok()
    && s.batch.left > 0
    && (s.cur.enc != ENC_DESKTOP_SIZE && s.cur.enc != ENC_LAST_RECT ==> s.screen.work.Covers(s.cur.rect))
    && (s.cur.enc == ENC_HEXTILE ==> Hextile.AtTile(s.cur.rect, s.cur.tileX, s.cur.tileY))
  }

  ghost function Drawn(sc: Screen, work: Image, r: Rect): Screen { sc.(work := work, dirty := sc.dirty.United(r)) }

  ghost function Drew(s: Session, work: Image, used: nat): Result
    requires s.screen.Ok() && s.batch.left > 0 && work.Ok() && SameSize(work, s.screen.work)
  {
    Result(true, used, EndRect(s.(screen := Drawn(s.screen, work, s.cur.rect))))
  }

  ghost function RawBody(s: Session, b: bytes): Result
    requires Begun(s)
  {
    var n := s.cur.rect.Area();
    if |b| < n * 4 then Wait(s)
    else Drew(s, Paint(s.screen.work, s.cur.rect, Hextile.WirePixels(b, n)), n * 4)
  }

  ghost function CopyBody(s: Session, b: bytes): Result
    requires Begun(s)
  {
    if |b| < 4 then Wait(s)
    else
      var source := Rect(U16(b, 0), U16(b, 2), s.cur.rect.w, s.cur.rect.h);
      if source.Null() || !s.screen.work.Covers(source) then Stop(s, 4, BadCopy)
      else Drew(s, Paint(s.screen.work, s.cur.rect, Read(s.screen.work, source)), 4)
  }

  ghost function ProgressOf(s: Session): Hextile.Progress {
    Hextile.Progress(s.cur.tileX, s.cur.tileY, s.cur.carry, s.screen.work)
  }

  ghost function WithProgress(s: Session, p: Hextile.Progress): Session {
    s.(cur := s.cur.(tileX := p.tx, tileY := p.ty, carry := p.carry), screen := s.screen.(work := p.img))
  }

  ghost function HextileBody(s: Session, b: bytes): Result
    requires Begun(s) && Hextile.AtTile(s.cur.rect, s.cur.tileX, s.cur.tileY)
  {
    var l := Hextile.RunLoop(s.cur.rect, ProgressOf(s), b);
    var reached := WithProgress(s, l.p);
    match l.status
    case Stalled => Result(false, l.used, reached)
    case Failed => Stop(reached, l.used, BadSubrect)
    case Finished => Drew(reached, l.p.img, l.used)
  }

  function ResetMask(i: nat): nat
    requires i < 4
  {
    if i == 0 then 1 else if i == 1 then 2 else if i == 2 then 4 else 8
  }

  // The streams after the resets a control byte asks for.
  ghost function TightResets(tight: Tights, control: byte): Tights {
    seq(4, i requires 0 <= i < 4 => if Bit(control, ResetMask(i)) then Some([]) else tight[i])
  }

  function HistoryOf(stream: Option<History>): History { if stream.Some? then stream.value else [] }

  function Feed(tight: Tights, i: nat, call: Inflation): Tights
    requires i < 4
  {
    tight[i := Some(HistoryOf(tight[i]) + [call])]
  }

  ghost function WithTight(s: Session, tight: Tights): Session { s.(streams := s.streams.(tight := tight)) }

  ghost function ApplyTight(env: Env, s: Session, op: Tight.Op, used: nat): Result
    requires Begun(s) && Tight.GoodOp(op, s.cur.rect.w, s.cur.rect.h)
  {
    var r, work := s.cur.rect, s.screen.work;
    match op
    case Fill(c) => Drew(s, Hextile.Fill(work, r, c), used)
    case Picture(data) =>
      (match env.jpeg(data)
       case Some(j) =>
         if j.w != r.w || j.h != r.h then Stop(s, 0, BadJpeg)
         else Drew(s, Paint(work, r, JpegPixels(j, r.Area())), used)
       case None => Stop(s, 0, BadJpeg))
    case Basic(i, f, Plain(d)) => Drew(s, Paint(work, r, Tight.Pixels(f, r.w, r.h, d)), used)
    case Basic(i, f, Zipped(z)) =>
      var call := Inflation(z, Tight.RowSize(f, r.w) * r.h);
      var fed := WithTight(s, Feed(s.streams.tight, i, call));
      match Inflate(env, HistoryOf(s.streams.tight[i]), call)
      case None => Stop(fed, 0, Corrupt)
      case Some(d) => Drew(fed, Paint(work, r, Tight.Pixels(f, r.w, r.h, d)), used)
  }

  ghost function TightBody(env: Env, s: Session, b: bytes): Result
    requires Begun(s)
  {
    if |b| < 1 then Wait(s)
    else
      var t := WithTight(s, TightResets(s.streams.tight, b[0]));
      match Tight.Parse(b, s.cur.rect.w, s.cur.rect.h)
      case Short => Wait(t)
      case BadKind => Stop(t, 0, BadTightKind)
      case BadFilter => Stop(t, 0, BadTightFilter)
      case Ready(op, used) => ApplyTight(env, t, op, used)
  }

  ghost function ZrleBody(env: Env, s: Session, b: bytes): Result
    requires Begun(s) && s.screen.work.Covers(s.cur.rect)
  {
    if |b| < 4 then Wait(s)
    else
      var length := U32(b, 0);
      if length > MAX_ZRLE then Stop(s, 0, OversizedZrle)
      else if |b| < 4 + length then Wait(s)
      else
        var call := Inflation(b[4..4 + length], -1);
        var hist := HistoryOf(s.streams.zrle);
        var fed := s.(streams := s.streams.(zrle := Some(hist + [call])));
        match Inflate(env, hist, call)
        case None => Stop(fed, 0, Corrupt)
        case Some(d) =>
          var (good, work) := Zrle.DecodeRect(s.screen.work, s.cur.rect, d);
          if good then Drew(fed, work, 4 + length)
          else Stop(fed.(screen := s.screen.(work := work)), 4 + length, BadZrle)
  }

  ghost function Resizing(s: Session, w: nat, h: nat): Session {
    s.(screen := AllocFramebuffer(s.screen, w, h).(dirty := s.screen.dirty.United(Rect(0, 0, w, h))),
       batch := s.batch.(resized := true), events := s.events + [Resized(w, h)])
  }

  ghost function DesktopSizeBody(s: Session): Result
    requires Begun(s)
  {
    var w, h := s.cur.rect.w, s.cur.rect.h;
    if w == 0 || h == 0 || w > MAX_DIMENSION || h > MAX_DIMENSION then Stop(s, 0, BadDesktopSize)
    else Result(true, 0, EndRect(Resizing(s, w, h)))
  }

  ghost function Body(env: Env, s: Session, b: bytes): (r: Result)
    requires Begun(s)
  {
    var enc := s.cur.enc;
    if enc == ENC_RAW then RawBody(s, b)
    else if enc == ENC_COPY_RECT then CopyBody(s, b)
    else if enc == ENC_HEXTILE then HextileBody(s, b)
    else if enc == ENC_TIGHT then TightBody(env, s, b)
    else if enc == ENC_ZRLE then ZrleBody(env, s, b)
    else if enc == ENC_LAST_RECT then Result(true, 0, EndRect(s))
    else if enc == ENC_DESKTOP_SIZE then DesktopSizeBody(s)
    else Stop(s, 0, UnsupportedEncoding(enc))
  }

  // A rectangle header, and the decoder's fresh start on it.
  ghost function Header(b: bytes): Current
    requires |b| >= 12
  {
    Current(Rect(U16(b, 0), U16(b, 2), U16(b, 4), U16(b, 6)), S32(U32(b, 8)), 0, 0, Hextile.START)
  }

  // QRect(QPoint(0, 0), size).contains(rect): a null rectangle is contained nowhere.
  ghost predicate OnScreen(work: Image, r: Rect) { !r.Null() && work.Covers(r) }

  ghost predicate Acceptable(c: Current, work: Image) {
    c.enc == ENC_DESKTOP_SIZE || c.enc == ENC_LAST_RECT || OnScreen(work, c.rect)
  }

  ghost function Later(r: Result, n: nat): Result { r.(used := n + r.used) }

  ghost function StepRect(env: Env, s: Session, b: bytes): Result
    requires Wf(s) && s.stage.Running? && s.batch.left > 0
  {
    if s.inRect then Body(env, s, b)
    else if |b| < 12 then Wait(s)
    else
      var t := s.(inRect := true, cur := Header(b));
      if !Acceptable(t.cur, s.screen.work) then Stop(t, 12, OutsideScreen)
      else Later(Body(env, t, b[12..]), 12)
  }

  ghost function BatchOf(b: Batch, n: nat): Batch {
    if n == 0xFFFF then b.(left := 1, lastRect := true) else b.(left := n, lastRect := false)
  }

  ghost function StepMessage(s: Session, b: bytes): Result
    requires s.screen.Ok()
  {
    if |b| == 0 then Wait(s)
    else if b[0] == 0 then
      if |b| < 4 then Wait(s)
      else
        var t := s.(batch := BatchOf(s.batch, U16(b, 2)));
        Result(true, 4, if t.batch.left == 0 then FinishUpdate(t) else t)
    else if b[0] == 1 then
      if |b| < 6 || |b| < 6 + 6 * U16(b, 4) then Wait(s) else Result(true, 6 + 6 * U16(b, 4), s)
    else if b[0] == 2 then Result(true, 1, Emit(s, Bell))
    else if b[0] == 3 then
      if |b| < 8 then Wait(s)
      else
        var length := U32(b, 4);
        if length > MAX_STRING then Stop(s, 0, BadClipboard)
        else if |b| < 8 + length then Wait(s)
        else Result(true, 8 + length, Emit(s, Clipboard(b[8..8 + length])))
    else Stop(s, 0, UnknownMessage(b[0]))
  }

  ghost function Step(env: Env, s: Session, b: bytes): Result
    requires Wf(s)
  {
    match s.stage
    case Idle => Wait(s)
    case Version => StepVersion(env, s, b)
    case SecurityTypes => StepSecurityTypes(s, b)
    case AuthChallenge => StepAuthChallenge(env, s, b)
    case SecurityResult => StepSecurityResult(s, b)
    case SecurityReason => StepSecurityReason(s, b)
    case ServerInit => StepServerInit(s, b)
    case Running => if s.inRect || s.batch.left > 0 then StepRect(env, s, b) else StepMessage(s, b)
  }
}
