// The greeting as a whole: what the client has sent, and what has become of
// it, once a server has said all it has to say - accepting, refusing or
// turning the client away, in each version of the protocol and in any reads.
module RfbGreeting {
  import opened Bytes
  import opened Images
  import opened Rfb
  import opened RfbRuns
  import opened RfbRectangles
  import opened RfbSent
  import opened RfbUpdates

  // ---- What a server says

  // "RFB mmm.nnn" and a line feed.
  function Hello(major: bytes, minor: bytes): bytes { [82, 70, 66, 32] + major + [46] + minor + [10] }

  // The newest version, of those there are, that both ends know.
  ghost predicate Speaks(env: Env, s: Session, major: bytes, minor: bytes, v: nat) {
    && |major| == 3 && |minor| == 3
    && var (m, n) := (env.number(major), env.number(minor));
       var theirs := if m < 3 || (m == 3 && n < 7) then 3 else if m == 3 && n == 7 then 7 else 8;
       v <= theirs && v <= s.link.maxMinor && (v == theirs || v == s.link.maxMinor)
  }

  // The security types offered: a list of them, or, in version 3.3, the one
  // there is to be.
  datatype Offer = Listed(types: bytes) | Dictated(word: nat)

  ghost predicate Sayable(o: Offer) { if o.Listed? then |o.types| < 256 else o.word < 0x1_0000_0000 }

  ghost predicate Offered(o: Offer, v: nat) { Sayable(o) && (o.Dictated? <==> v == 3) }

  ghost function OfferBytes(o: Offer): bytes
    requires Sayable(o)
  {
    if o.Listed? then [|o.types|] + o.types else WireLength(o.word)
  }

  // None is preferred to a password. A type dictated counts modulo 256.
  function Choice(o: Offer): (t: byte)
    ensures t <= 2
  {
    match o
    case Listed(types) => if 1 in types then 1 else if 2 in types then 2 else 0
    case Dictated(word) => if word % 256 == 1 || word % 256 == 2 then word % 256 else 0
  }

  // The password that is used, if the user does not give up.
  function Password(env: Env, s: Session): bytes {
    if s.link.password == [] && env.ask.Entered? then env.ask.password else s.link.password
  }

  predicate GivesUp(env: Env, s: Session) { s.link.password == [] && env.ask.Cancelled? }


  // What a server says first: its version, of which `v` comes, its offer, and
  // its challenge, should it be a password.
  datatype Host = Host(major: bytes, minor: bytes, v: nat, offer: Offer, challenge: bytes)

  // Up to where a result is expected, or can be done without.
  ghost function Opening(g: Host): bytes
    requires Sayable(g.offer)
  {
    Hello(g.major, g.minor) + OfferBytes(g.offer) + if Choice(g.offer) == 2 then g.challenge else []
  }

  ghost predicate CanOpen(env: Env, s: Session, g: Host) {
    && Wf(s) && s.stage.Version? && Speaks(env, s, g.major, g.minor, g.v)
    && Offered(g.offer, g.v) && Choice(g.offer) != 0
    && (Choice(g.offer) == 2 ==> |g.challenge| == 16 && !GivesUp(env, s))
  }

  // Whether a result is sent: always in 3.8, before that only after a password.
  predicate ResultDue(g: Host) { g.v >= 8 || Choice(g.offer) == 2 }

  // What the client has said by then.
  function Said(env: Env, s: Session, g: Host): seq<Event> {
    [SentVersion(g.v)] + (if g.offer.Listed? then [SentType(Choice(g.offer))] else [])
    + if Choice(g.offer) == 2 then [SentResponse(env.respond(g.challenge, Password(env, s)))] else []
  }

  ghost function DesktopBytes(w: nat, h: nat, format: bytes, name: bytes): bytes
    requires w < 0x1_0000 && h < 0x1_0000 && |format| == 16 && |name| < 0x1_0000_0000
  {
    Wire16(w) + Wire16(h) + format + WireLength(|name|) + name
  }

  ghost function ReasonBytes(reason: bytes): bytes
    requires |reason| <= 0x10_0000
  {
    WireLength(|reason|) + reason
  }

  function Complaint(reason: bytes): Reason { if reason == [] then WrongPassword else Told(reason) }

  // ---- One piece at a time

  // A step that needs just these bytes, whatever follows them.
  lemma Goes(env: Env, s: Session, piece: bytes, rest: bytes)
    requires Wf(s) && !s.stage.Idle? && Step(env, s, piece).ok && Step(env, s, piece).used == |piece|
    ensures Wf(Step(env, s, piece).s)
    ensures Run(env, s, piece + rest) == Run(env, Step(env, s, piece).s, rest)
  {
    StepSound(env, s, piece);
    StepExtends(env, s, piece, rest);
    assert (piece + rest)[|piece|..] == rest;
  }

  // One with which the client is finished.
  lemma Ends(env: Env, s: Session, piece: bytes)
    requires Wf(s) && !s.stage.Idle? && Step(env, s, piece).s.stage.Idle? && Step(env, s, piece).used == |piece|
    ensures Run(env, s, piece) == (Step(env, s, piece).s, [])
  {
    StepSound(env, s, piece);
    assert piece[|piece|..] == [];
  }

  ghost function Greeted(s: Session, v: nat): Session {
    s.(link := s.link.(minor := v), stage := SecurityTypes, events := s.events + [SentVersion(v)])
  }

  lemma VersionStep(env: Env, s: Session, major: bytes, minor: bytes, v: nat)
    requires Wf(s) && s.stage.Version? && Speaks(env, s, major, minor, v)
    ensures Step(env, s, Hello(major, minor)) == Result(true, 12, Greeted(s, v))
  {
    var b := Hello(major, minor);
    assert b[..4] == [82, 70, 66, 32];
    assert b[4..7] == major && b[8..11] == minor;
  }

  // After the offer: the challenge, the result or the desktop is next.
  ghost function Chosen(s: Session, v: nat, o: Offer): Session {
    s.(stage := if Choice(o) == 2 then AuthChallenge else if v >= 8 then SecurityResult else ServerInit,
       events := s.events + (if o.Listed? then [SentType(Choice(o))] else [])
         + if v >= 8 || Choice(o) == 2 then [] else [SentClientInit])
  }

  lemma OfferStep(env: Env, s: Session, v: nat, o: Offer)
    requires Wf(s) && s.stage.SecurityTypes? && s.link.minor == v && Offered(o, v) && Choice(o) != 0
    ensures Step(env, s, OfferBytes(o)) == Result(true, |OfferBytes(o)|, Chosen(s, v, o))
  {
    var b := OfferBytes(o);
    if o.Listed? {
      assert b[1..1 + |o.types|] == o.types && |o.types| > 0;
    }
    assert Chosen(s, v, o).events + [] == Chosen(s, v, o).events;
    assert s.events + [] == s.events;
  }

  lemma ChallengeStep(env: Env, s: Session, challenge: bytes)
    requires Wf(s) && s.stage.AuthChallenge? && |challenge| == 16 && !GivesUp(env, s)
    ensures Step(env, s, challenge) ==
            Result(true, 16, s.(link := s.link.(password := Password(env, s)), stage := SecurityResult,
              events := s.events + [SentResponse(env.respond(challenge, Password(env, s)))]))
  {
    assert challenge[..16] == challenge;
  }

  // Where the opening leaves the client.
  ghost function OpenedTo(env: Env, s: Session, g: Host): Session {
    s.(stage := if ResultDue(g) then SecurityResult else ServerInit,
       link := s.link.(minor := g.v, password := if Choice(g.offer) == 2 then Password(env, s) else s.link.password),
       events := s.events + Said(env, s, g) + if ResultDue(g) then [] else [SentClientInit])
  }

  lemma OpeningRuns(env: Env, s: Session, g: Host, rest: bytes)
    requires CanOpen(env, s, g)
    ensures Wf(OpenedTo(env, s, g))
    ensures Run(env, s, Opening(g) + rest)
            == Run(env, OpenedTo(env, s, g), rest)
  {
    hide Step;
    var hello, offer := Hello(g.major, g.minor), OfferBytes(g.offer);
    var last := if Choice(g.offer) == 2 then g.challenge else [];
    assert Opening(g) + rest == hello + (offer + (last + rest));
    VersionStep(env, s, g.major, g.minor, g.v);
    Goes(env, s, hello, offer + (last + rest));
    var t := Greeted(s, g.v);
    OfferStep(env, t, g.v, g.offer);
    Goes(env, t, offer, last + rest);
    var u := Chosen(t, g.v, g.offer);
    if Choice(g.offer) == 2 {
      ChallengeStep(env, u, g.challenge);
      Goes(env, u, g.challenge, rest);
    } else {
      assert last + rest == rest;
    }
    var w := OpenedTo(env, s, g);
    var answer := SentResponse(env.respond(g.challenge, Password(env, s)));
    assert w.events == if Choice(g.offer) == 2 then u.events + [answer] else u.events;
  }

  // ---- Accepted

  lemma ResultStep(env: Env, s: Session)
    requires Wf(s) && s.stage.SecurityResult?
    ensures Step(env, s, [0, 0, 0, 0])
            == Result(true, 4, s.(stage := ServerInit, events := s.events + [SentClientInit]))
  {
    hide StepSecurityResult, StepRect, StepMessage, StepVersion, StepServerInit, StepSecurityTypes, Wf;
    ZeroAccepts(s);
  }

  lemma ZeroAccepts(s: Session)
    ensures StepSecurityResult(s, [0, 0, 0, 0])
            == Result(true, 4, s.(stage := ServerInit, events := s.events + [SentClientInit]))
  {
    var b: bytes := [0, 0, 0, 0];
    assert U32(b, 0) == 0;
  }

  ghost function Started(s: Session, w: nat, h: nat, name: bytes): Session {
    s.(stage := Running, link := s.link.(name := name),
       screen := s.screen.(fb := Blank(w, h), work := Blank(w, h)),
       events := s.events + [SentSetup, SentRequest(false, w, h), Rfb.Ready])
  }

  lemma DesktopReads(w: nat, h: nat, format: bytes, name: bytes)
    requires w < 0x1_0000 && h < 0x1_0000 && |format| == 16 && |name| <= 0x10_0000
    ensures var b := DesktopBytes(w, h, format, name);
            |b| == 24 + |name| && U16(b, 0) == w && U16(b, 2) == h && U32(b, 20) == |name| && b[24..] == name
  {
    var b := DesktopBytes(w, h, format, name);
    assert b[0..2] == Wire16(w) && b[2..4] == Wire16(h) && b[20..24] == WireLength(|name|);
    Read16(b, 0, w);
    Read16(b, 2, h);
    assert U32(b, 20) == U32(b[20..24], 0);
  }

  lemma DesktopStep(env: Env, s: Session, w: nat, h: nat, format: bytes, name: bytes)
    requires Wf(s) && s.stage.ServerInit? && 0 < w < 0x1_0000 && 0 < h < 0x1_0000
    requires |format| == 16 && |name| <= 0x10_0000
    ensures var b := DesktopBytes(w, h, format, name);
            Step(env, s, b) == Result(true, |b|, Started(s, w, h, name))
  {
    hide StepServerInit, StepRect, StepMessage, StepVersion, StepSecurityTypes, StepSecurityReason, StepAuthChallenge,
      Wf, DesktopBytes, Started;
    DesktopOpens(s, w, h, format, name);
  }

  lemma DesktopOpens(s: Session, w: nat, h: nat, format: bytes, name: bytes)
    requires 0 < w < 0x1_0000 && 0 < h < 0x1_0000 && |format| == 16 && |name| <= 0x10_0000
    ensures var b := DesktopBytes(w, h, format, name);
            StepServerInit(s, b) == Result(true, |b|, Started(s, w, h, name))
  {
    hide DesktopBytes;
    DesktopReads(w, h, format, name);
    var b := DesktopBytes(w, h, format, name);
    assert b[24..24 + |name|] == b[24..];
    var asked := s.events + [SentSetup] + [SentRequest(false, w, h)] + [Rfb.Ready];
    assert asked == s.events + [SentSetup, SentRequest(false, w, h), Rfb.Ready];
  }

  // All a server says to a client it lets in.
  ghost function Welcome(
    g: Host, w: nat, h: nat, format: bytes, name: bytes): bytes
    requires Sayable(g.offer)
    requires w < 0x1_0000 && h < 0x1_0000 && |format| == 16 && |name| < 0x1_0000_0000
  {
    Opening(g) + (if ResultDue(g) then [0, 0, 0, 0] else [])
    + DesktopBytes(w, h, format, name)
  }

  // A client that is let in awaits the desktop.
  lemma LetIn(env: Env, s: Session, g: Host, rest: bytes) returns (x: Session)
    requires CanOpen(env, s, g) && Sayable(g.offer)
    ensures Wf(x) && x.stage.ServerInit? && x == s.(stage := ServerInit, link := x.link, events := x.events)
    ensures x.events == s.events + Said(env, s, g) + [SentClientInit] && x.link.minor == g.v
    ensures Run(env, s, Opening(g) + (if ResultDue(g) then [0, 0, 0, 0] else []) + rest) == Run(env, x, rest)
  {
    hide Step, CanOpen, Said, Opening;
    WasVersion(env, s, g);
    var word := if ResultDue(g) then [0, 0, 0, 0] else [];
    assert Opening(g) + word + rest == Opening(g) + (word + rest);
    OpeningRuns(env, s, g, word + rest);
    var u := OpenedTo(env, s, g);
    assert s.events + Said(env, s, g) + [] == s.events + Said(env, s, g);
    x := u.(stage := ServerInit, events := s.events + Said(env, s, g) + [SentClientInit]);
    if ResultDue(g) {
      ResultStep(env, u);
      Goes(env, u, word, rest);
    } else {
      assert word + rest == rest;
    }
  }

  lemma WelcomeRuns(
    env: Env, s: Session, g: Host, w: nat, h: nat,
    format: bytes, name: bytes) returns (t: Session)
    requires CanOpen(env, s, g)
    requires 0 < w < 0x1_0000 && 0 < h < 0x1_0000 && |format| == 16 && |name| <= 0x10_0000
    ensures Run(env, s, Welcome(g, w, h, format, name)) == (t, [])
    ensures Between(t) && t.link.name == name && t.link.minor == g.v && t.batch == NO_BATCH && t.streams == s.streams
    ensures t.screen.fb == t.screen.work && (t.screen.work.w, t.screen.work.h) == (w, h)
    ensures forall x, y :: t.screen.work.Bounds(x, y) ==> t.screen.work.At(x, y) == Rgb(0, 0, 0)
    ensures t.events == s.events + Said(env, s, g)
              + [SentClientInit, SentSetup, SentRequest(false, w, h), Rfb.Ready]
  {
    hide Step, CanOpen, Said, DesktopBytes, Opening;
    WasVersion(env, s, g);
    var desktop := DesktopBytes(w, h, format, name);
    var x := LetIn(env, s, g, desktop);
    DesktopStep(env, x, w, h, format, name);
    Goes(env, x, desktop, []);
    assert desktop + [] == desktop;
    t := Started(x, w, h, name);
    Blanked(t, w, h);
    NothingMore(env, t);
  }

  lemma WasVersion(env: Env, s: Session, g: Host)
    requires CanOpen(env, s, g)
    ensures Wf(s) && s.stage.Version? && Sayable(g.offer)
  {
  }

  lemma Blanked(t: Session, w: nat, h: nat)
    requires Wf(t) && t.stage.Running? && t.batch == NO_BATCH && t.screen.dirty == EMPTY
    requires t.screen.fb == t.screen.work == Blank(w, h)
    ensures Between(t)
  {
  }

  // A server that lets the client in: the desktop opens, black, under its
  // name, and its picture has been asked for.
  lemma Admitted(
    env: Env, s: Session, g: Host, w: nat, h: nat,
    format: bytes, name: bytes, chunks: seq<bytes>)
    requires CanOpen(env, s, g)
    requires 0 < w < 0x1_0000 && 0 < h < 0x1_0000 && |format| == 16 && |name| <= 0x10_0000
    requires Flat(chunks) == Welcome(g, w, h, format, name)
    ensures var (t, rest) := RunAll(env, s, [], chunks);
            && rest == [] && t.stage.Running? && t.link.name == name && t.link.minor == g.v
            && t.screen.fb == t.screen.work && (t.screen.work.w, t.screen.work.h) == (w, h)
            && (forall x, y :: t.screen.work.Bounds(x, y) ==> t.screen.work.At(x, y) == Rgb(0, 0, 0))
            && t.events == s.events + Said(env, s, g)
                 + [SentClientInit, SentSetup, SentRequest(false, w, h), Rfb.Ready]
  {
    hide Said, CanOpen, DesktopBytes;
    WasVersion(env, s, g);
    assert |chunks| > 0;
    ChunkIndependence(env, s, [], chunks);
    assert [] + Flat(chunks) == Flat(chunks);
    var t := WelcomeRuns(env, s, g, w, h, format, name);
  }

  // ---- Refused

  lemma ReasonStep(env: Env, s: Session, reason: bytes)
    requires Wf(s) && s.stage.SecurityReason? && |reason| <= 0x10_0000
    ensures var b := ReasonBytes(reason);
            Step(env, s, b) == Result(false, |b|, Fail(s, Complaint(reason)))
  {
    hide StepSecurityReason, StepRect, StepMessage, StepVersion, StepServerInit, StepSecurityTypes, StepAuthChallenge,
      Wf, ReasonBytes;
    ReasonReads(s, reason);
  }

  lemma ReasonReads(s: Session, reason: bytes)
    requires |reason| <= 0x10_0000
    ensures var b := ReasonBytes(reason);
            StepSecurityReason(s, b) == Result(false, |b|, Fail(s, Complaint(reason)))
  {
    hide Fail;
    var b := ReasonBytes(reason);
    assert U32(b, 0) == U32(WireLength(|reason|), 0);
    assert b[4..4 + |reason|] == reason;
  }

  // What is left when a client has given up.
  ghost predicate Over(s: Session, said: seq<Event>, why: Reason, t: Session) {
    && t.stage.Idle? && t.failedAlready && t.screen == s.screen
    && t.events == s.events + said + [Failure(why), Closed]
  }

  // A server that refuses a login is not sent a ClientInit; in 3.8 it says why.
  lemma Denied(
    env: Env, s: Session, g: Host, word: nat, reason: bytes,
    chunks: seq<bytes>)
    requires CanOpen(env, s, g) && ResultDue(g)
    requires 0 < word < 0x1_0000_0000 && |reason| <= 0x10_0000
    requires Flat(chunks) == Opening(g) + WireLength(word)
               + if g.v >= 8 then ReasonBytes(reason) else []
    ensures var (t, rest) := RunAll(env, s, [], chunks);
            && rest == []
            && Over(s, Said(env, s, g), if g.v >= 8 then Complaint(reason) else WrongPassword, t)
  {
    hide Step, CanOpen, Said, Opening, ReasonBytes;
    WasVersion(env, s, g);
    var b, why := WireLength(word), if g.v >= 8 then ReasonBytes(reason) else [];
    assert Opening(g) + b + why == Opening(g) + (b + why);
    OpeningRuns(env, s, g, b + why);
    var u := OpenedTo(env, s, g);
    RefusalStep(env, u, word);
    if g.v >= 8 {
      Goes(env, u, b, why);
      ReasonStep(env, u.(stage := SecurityReason), reason);
      Ends(env, u.(stage := SecurityReason), why);
    } else {
      assert b + why == b;
      Ends(env, u, b);
    }
    assert s.events + Said(env, s, g) + [] == s.events + Said(env, s, g);
    AtOnce(env, s, chunks);
  }

  lemma RefusalStep(env: Env, s: Session, word: nat)
    requires Wf(s) && s.stage.SecurityResult? && 0 < word < 0x1_0000_0000
    ensures Step(env, s, WireLength(word)) ==
            if s.link.minor >= 8 then Result(true, 4, s.(stage := SecurityReason))
            else Result(false, 4, Fail(s, WrongPassword))
  {
  }

  lemma AtOnce(env: Env, s: Session, chunks: seq<bytes>)
    requires Wf(s) && Flat(chunks) != []
    ensures RunAll(env, s, [], chunks) == Run(env, s, Flat(chunks))
  {
    ChunkIndependence(env, s, [], chunks);
    assert [] + Flat(chunks) == Flat(chunks);
  }

  // ---- Turned away

  // A server that offers nothing says why.
  lemma TurnedAway(
    env: Env, s: Session, major: bytes, minor: bytes, v: nat, reason: bytes, chunks: seq<bytes>)
    requires Wf(s) && s.stage.Version? && Speaks(env, s, major, minor, v) && |reason| <= 0x10_0000
    requires Flat(chunks) == Hello(major, minor) + (if v == 3 then [0, 0, 0, 0] else [0]) + ReasonBytes(reason)
    ensures var (t, rest) := RunAll(env, s, [], chunks);
            rest == [] && Over(s, [SentVersion(v)], Complaint(reason), t)
  {
    hide ReasonBytes;
    var none, why := if v == 3 then [0, 0, 0, 0] else [0], ReasonBytes(reason);
    assert Hello(major, minor) + none + why == Hello(major, minor) + (none + why);
    VersionStep(env, s, major, minor, v);
    Goes(env, s, Hello(major, minor), none + why);
    var u := Greeted(s, v);
    assert Step(env, u, none) == Result(true, |none|, u.(stage := SecurityReason));
    Goes(env, u, none, why);
    ReasonStep(env, u.(stage := SecurityReason), reason);
    Ends(env, u.(stage := SecurityReason), why);
    AtOnce(env, s, chunks);
  }

  // An offer with nothing the client knows.
  lemma NothingUsable(
    env: Env, s: Session, major: bytes, minor: bytes, v: nat, o: Offer, chunks: seq<bytes>)
    requires Wf(s) && s.stage.Version? && Speaks(env, s, major, minor, v) && Offered(o, v) && Choice(o) == 0
    requires if o.Listed? then o.types != [] else o.word != 0
    requires Flat(chunks) == Hello(major, minor) + OfferBytes(o)
    ensures var (t, rest) := RunAll(env, s, [], chunks);
            rest == []
            && Over(s, [SentVersion(v)], if o.Listed? then NoKnownType else UnsupportedType(o.word % 256), t)
  {
    var offer := OfferBytes(o);
    VersionStep(env, s, major, minor, v);
    Goes(env, s, Hello(major, minor), offer);
    var u := Greeted(s, v);
    if o.Listed? {
      assert offer[1..1 + |o.types|] == o.types;
    }
    Ends(env, u, offer);
    AtOnce(env, s, chunks);
  }
  // ---- Given up

  // A challenge for which the user gives no password.
  lemma Cancels(env: Env, s: Session, g: Host, chunks: seq<bytes>)
    requires Wf(s) && s.stage.Version? && Speaks(env, s, g.major, g.minor, g.v)
    requires Offered(g.offer, g.v) && Choice(g.offer) == 2 && |g.challenge| == 16 && GivesUp(env, s)
    requires Flat(chunks) == Opening(g)
    ensures var (t, rest) := RunAll(env, s, [], chunks);
            && rest == []
            && Over(s, [SentVersion(g.v)] + (if g.offer.Listed? then [SentType(2)] else []), UserCancelled, t)
  {
    hide Step;
    var hello, offer := Hello(g.major, g.minor), OfferBytes(g.offer);
    assert Opening(g) == hello + (offer + g.challenge);
    VersionStep(env, s, g.major, g.minor, g.v);
    Goes(env, s, hello, offer + g.challenge);
    var t := Greeted(s, g.v);
    OfferStep(env, t, g.v, g.offer);
    Goes(env, t, offer, g.challenge);
    var u := Chosen(t, g.v, g.offer);
    CancelStep(env, u, g.challenge);
    Ends(env, u, g.challenge);
    AtOnce(env, s, chunks);
  }

  lemma CancelStep(env: Env, s: Session, challenge: bytes)
    requires Wf(s) && s.stage.AuthChallenge? && |challenge| == 16 && GivesUp(env, s)
    ensures Step(env, s, challenge) == Result(false, 16, Fail(s, UserCancelled))
  {
  }

  // A desktop without an extent is not opened.
  lemma NoDesktop(
    env: Env, s: Session, g: Host, w: nat, h: nat, format: bytes, name: bytes, chunks: seq<bytes>)
    requires CanOpen(env, s, g) && (w == 0 || h == 0)
    requires w < 0x1_0000 && h < 0x1_0000 && |format| == 16 && |name| <= 0x10_0000
    requires Flat(chunks) == Welcome(g, w, h, format, name)
    ensures var (t, rest) := RunAll(env, s, [], chunks);
            rest == [] && Over(s, Said(env, s, g) + [SentClientInit], EmptyDesktop, t)
  {
    hide Step, CanOpen, Said, DesktopBytes, Opening;
    WasVersion(env, s, g);
    var desktop := DesktopBytes(w, h, format, name);
    var x := LetIn(env, s, g, desktop);
    assert Welcome(g, w, h, format, name) == Opening(g) + (if ResultDue(g) then [0, 0, 0, 0] else []) + desktop;
    DesktopReads(w, h, format, name);
    EmptyStep(env, x, desktop);
    Ends(env, x, desktop);
    AtOnce(env, s, chunks);
    assert s.events + Said(env, s, g) + [SentClientInit] == s.events + (Said(env, s, g) + [SentClientInit]);
  }

  lemma EmptyStep(env: Env, s: Session, b: bytes)
    requires Wf(s) && s.stage.ServerInit? && |b| >= 24 && |b| == 24 + U32(b, 20) && U32(b, 20) <= 0x10_0000
    requires U16(b, 0) == 0 || U16(b, 2) == 0
    ensures var named := s.(link := s.link.(name := b[24..]));
            Step(env, s, b) == Result(false, |b|, Fail(named, EmptyDesktop))
  {
    assert b[24..24 + U32(b, 20)] == b[24..];
  }

  // What is not RFB, and texts too long to be true: the client stops there.
  lemma StopsAt(env: Env, s: Session, b: bytes)
    requires Wf(s)
    ensures s.stage.Version? && |b| >= 12 && b[..4] != [82, 70, 66, 32] ==>
              Step(env, s, b) == Result(false, 0, Fail(s, NotVnc))
    ensures s.stage.SecurityReason? && |b| >= 4 && U32(b, 0) > 0x10_0000 ==>
              Step(env, s, b) == Result(false, 0, Fail(s, Refused))
    ensures s.stage.ServerInit? && |b| >= 24 && U32(b, 20) > 0x10_0000 ==>
              Step(env, s, b) == Result(false, 0, Fail(s, BadName))
  {
  }
}
