// The bridge between X clients' channels and the local display (X11Forwarder):
// two queues a connection, and a setup request to rewrite before the first byte
// goes through.
module X11Forwarders {
  import opened Bytes
  import opened X11

  // What reading a channel gives: bytes, nothing yet, nothing with or without an
  // end of file, or an error.
  datatype Read = Data(b: bytes) | Again | Nothing(eof: bool) | Failed

  // What writing to a channel gives; at most what was offered is accepted.
  datatype Write = Accepted(n: nat) | Blocked | Broken

  // The local display's socket: open or closed, how much of what is offered it
  // takes (none on an error), and what it has to say.
  datatype Local = Local(closed: bool, isOpen: bool, takes: nat, says: bytes)

  // The bytes a run of reads brings, up to the first that brings none.
  ghost function Arrived(got: seq<Read>): bytes {
    if |got| == 0 || !got[0].Data? then [] else got[0].b + Arrived(got[1..])
  }

  // Whether the reads end with the channel's end or an error.
  ghost predicate Ends(got: seq<Read>) {
    |got| > 0 && if got[0].Data? then Ends(got[1..]) else got[0].Failed? || (got[0].Nothing? && got[0].eof)
  }

  // How many of `n` waiting bytes a run of writes takes, and whether it breaks off.
  ghost function Took(writes: seq<Write>, n: nat): nat {
    if |writes| == 0 || n == 0 || !writes[0].Accepted? then 0
    else
      var w := Min(writes[0].n, n);
      w + Took(writes[1..], n - w)
  }

  ghost predicate Breaks(writes: seq<Write>, n: nat) {
    |writes| > 0 && n > 0 && (writes[0].Broken?
      || (writes[0].Accepted? && Breaks(writes[1..], n - Min(writes[0].n, n))))
  }

  // What is offered is taken as far as the writes go before one is refused.
  ghost function Room(writes: seq<Write>): nat {
    if |writes| == 0 || !writes[0].Accepted? then 0 else writes[0].n + Room(writes[1..])
  }

  ghost predicate StopsAt(writes: seq<Write>, k: nat) {
    k < |writes| && !writes[k].Accepted? && forall i :: 0 <= i < k ==> writes[i].Accepted?
  }

  lemma {:induction false} TookIs(writes: seq<Write>, n: nat)
    ensures Took(writes, n) == Min(Room(writes), n)
  {
    if |writes| > 0 && n > 0 && writes[0].Accepted? {
      TookIs(writes[1..], n - Min(writes[0].n, n));
    }
  }

  // And the channel is broken if and only if it still has bytes to take at a
  // write that breaks.
  lemma {:induction false} BreaksIff(writes: seq<Write>, n: nat)
    ensures Breaks(writes, n) <==> Room(writes) < n && exists k: nat :: StopsAt(writes, k) && writes[k].Broken?
  {
    if |writes| > 0 && writes[0].Accepted? {
      var rest := writes[1..];
      if n > 0 {
        BreaksIff(rest, n - Min(writes[0].n, n));
      }
      if k: nat :| StopsAt(rest, k) && rest[k].Broken? {
        assert forall i :: 1 <= i < k + 1 ==> writes[i] == rest[i - 1];
        assert StopsAt(writes, k + 1) && writes[k + 1].Broken?;
      }
      if k: nat :| StopsAt(writes, k) && writes[k].Broken? {
        assert k > 0;
        assert forall i :: 0 <= i < k - 1 ==> rest[i] == writes[i + 1];
        assert StopsAt(rest, k - 1) && rest[k - 1].Broken?;
      }
    } else if |writes| > 0 {
      assert StopsAt(writes, 0);
      assert forall k: nat :: StopsAt(writes, k) ==> k == 0;
    }
  }

  ghost predicate EndsAt(got: seq<Read>, k: nat) {
    k < |got| && (got[k] == Failed || got[k] == Nothing(true)) && forall i :: 0 <= i < k ==> got[i].Data?
  }

  // Reading ends a connection if and only if the first read without data is an
  // error, or finds nothing at the channel's end.
  lemma {:induction false} EndsIff(got: seq<Read>)
    ensures Ends(got) <==> exists k: nat :: EndsAt(got, k)
  {
    if |got| > 0 && got[0].Data? {
      var rest := got[1..];
      EndsIff(rest);
      if k: nat :| EndsAt(rest, k) {
        assert forall i :: 1 <= i < k + 1 ==> got[i] == rest[i - 1];
        assert EndsAt(got, k + 1);
      }
      if k: nat :| EndsAt(got, k) {
        assert k > 0;
        assert forall i :: 0 <= i < k - 1 ==> rest[i] == got[i + 1];
        assert EndsAt(rest, k - 1);
      }
    } else if |got| > 0 {
      assert EndsAt(got, 0) <==> Ends(got);
      assert forall k: nat :: EndsAt(got, k) ==> k == 0;
    }
  }

  // What the system does for a connection in one turn.
  datatype Turn = Turn(got: seq<Read>, local: Local, writes: seq<Write>)

  // All that a connection has read and written, and what still waits for the channel.
  datatype Histories = Histories(fromChannel: bytes, toChannel: bytes, fromLocal: bytes, written: bytes,
      toRemote: bytes)

  class Connection {
    var open: bool          // the channel and the socket are still there
    var setup: bytes
    var setupDone: bool
    var toRemote: bytes
    var toLocal: bytes
    // All that has been read from and written to each side.
    ghost var fromChannel: bytes
    ghost var toChannel: bytes
    ghost var fromLocal: bytes
    ghost var written: bytes

    constructor ()
      ensures open && setup == [] && !setupDone && toRemote == [] && toLocal == []
      ensures fromChannel == [] && toChannel == [] && fromLocal == [] && written == []
    {
      open, setup, setupDone, toRemote, toLocal := true, [], false, [], [];
      fromChannel, toChannel, fromLocal, written := [], [], [], [];
    }

    // The display has been given the rewriting of what the client sent, as far
    // as it took it, and nothing before that is known; the client has been
    // given what the display said, as far as it took it.
    ghost predicate Valid(c: Cookies)
      reads this
      requires Known(c)
    {
      && (match Rewrite(fromChannel, c)
          case Rewritten(out) => setupDone && written + toLocal == out
          case _ => !setupDone && setup == fromChannel && written == [] && toLocal == [])
      && toChannel + toRemote == fromLocal
    }

    ghost function Now(): Histories
      reads this
    {
      Histories(fromChannel, toChannel, fromLocal, written, toRemote)
    }
  }

  ghost predicate Begins(a: bytes, b: bytes) { |a| <= |b| && b[..|a|] == a }

  // The connections that are still open.
  function Alive(cs: seq<Connection>): seq<Connection>
    reads cs
  {
    if |cs| == 0 then [] else (if cs[0].open then [cs[0]] else []) + Alive(cs[1..])
  }

  ghost function AllNow(cs: seq<Connection>): (r: seq<Histories>)
    reads cs
    ensures |r| == |cs| && forall k :: 0 <= k < |cs| ==> r[k] == cs[k].Now()
  {
    if |cs| == 0 then [] else [cs[0].Now()] + AllNow(cs[1..])
  }

  class X11Forwarder {
    const cookies: Cookies
    var connections: seq<Connection>

    ghost predicate Valid()
      reads this, connections
    {
      && Known(cookies)
      && (forall i, j :: 0 <= i < j < |connections| ==> connections[i] != connections[j])
      && (forall c <- connections :: c.open && c.Valid(cookies) && !Rewrite(c.fromChannel, cookies).Refuse?)
    }

    constructor (cookies: Cookies)
      requires Known(cookies)
      ensures Valid() && this.cookies == cookies && connections == []
    {
      this.cookies, connections := cookies, [];
    }

    method Adopt() returns (c: Connection)
      requires Valid()
      modifies this`connections
      ensures Valid() && fresh(c) && connections == old(connections) + [c]
      ensures c.Now() == Histories([], [], [], [], []) && c.setup == [] && c.toLocal == []
    {
      c := new Connection();
      connections := connections + [c];
    }

    // The setup bytes so far: wait for more, refuse, or rewrite them and let
    // all else through.
    method ProcessSetup(c: Connection) returns (ok: bool)
      requires Known(cookies) && !c.setupDone && c.toLocal == []
      modifies c`setup, c`setupDone, c`toLocal
      ensures match Rewrite(old(c.setup), cookies)
              case Wait => ok && !c.setupDone && c.setup == old(c.setup) && c.toLocal == []
              case Refuse => !ok && !c.setupDone && c.setup == old(c.setup) && c.toLocal == []
              case Rewritten(out) => ok && c.setupDone && c.setup == [] && c.toLocal == out
    {
      hide WithU16, ReadU16, Pad4;
      if |c.setup| < 12 {
        return true;
      }
      var little := c.setup[0] == LITTLE;
      if !little && c.setup[0] != BIG {
        return false;
      }
      var nameLen, dataLen := ReadU16(c.setup, 6, little), ReadU16(c.setup, 8, little);
      var total := 12 + Pad4(nameLen) + Pad4(dataLen);
      if |c.setup| < total {
        return true;
      }
      var data := c.setup[12 + Pad4(nameLen)..][..dataLen];
      if data != cookies.fake {
        return false;
      }
      var out := c.setup[..12];
      if cookies.own == [] {
        out := WithU16(out, 6, 0, little);
        out := WithU16(out, 8, 0, little);
      } else {
        out := WithU16(out, 6, |AUTH_PROTO|, little);
        out := WithU16(out, 8, |cookies.own|, little);
        out := out + Padded(AUTH_PROTO);
        out := out + Padded(cookies.own);
      }
      out := out + c.setup[total..];
      c.toLocal := c.toLocal + out;
      c.setup := [];
      c.setupDone := true;
      return true;
    }

    // Remote to local, until the channel has no more or refuses.
    method ReadChannel(c: Connection, got: seq<Read>) returns (dead: bool)
      requires Known(cookies) && c.Valid(cookies) && !Rewrite(c.fromChannel, cookies).Refuse?
      modifies c`setup, c`setupDone, c`toLocal, c`fromChannel
      ensures c.Valid(cookies)
      ensures Begins(c.fromChannel, old(c.fromChannel) + Arrived(got))
      ensures dead <==> Rewrite(c.fromChannel, cookies).Refuse? || Ends(got)
      ensures !Rewrite(c.fromChannel, cookies).Refuse? ==> c.fromChannel == old(c.fromChannel) + Arrived(got)
    {
      hide Rewrite, Known;
      dead := false;
      var i := 0;
      while i < |got| && !dead && got[i].Data?
        invariant 0 <= i <= |got|
        invariant c.Valid(cookies)
        invariant Begins(c.fromChannel, old(c.fromChannel) + Arrived(got))
        invariant !dead ==> c.fromChannel + Arrived(got[i..]) == old(c.fromChannel) + Arrived(got)
        invariant dead == Rewrite(c.fromChannel, cookies).Refuse?
        invariant Ends(got[i..]) == Ends(got)
      {
        assert got[i..][1..] == got[i + 1..];
        var b := got[i].b;
        ghost var before := c.fromChannel;
        RewriteExtends(before, b, cookies);
        assert Arrived(got[i..]) == b + Arrived(got[i + 1..]);
        assert before + b + Arrived(got[i + 1..]) == before + (b + Arrived(got[i + 1..]));
        c.fromChannel := c.fromChannel + b;
        if c.setupDone {
          assert c.written + (c.toLocal + b) == c.written + c.toLocal + b;
          c.toLocal := c.toLocal + b;
        } else {
          c.setup := c.setup + b;
          var ok := ProcessSetup(c);
          assert c.written + c.toLocal == c.toLocal;
          dead := !ok;
        }
        i := i + 1;
      }
      if !dead && i < |got| {
        dead := got[i].Failed? || (got[i].Nothing? && got[i].eof);
      }
    }

    // Both ways through the local socket.
    method ServeLocal(c: Connection, local: Local)
      requires Known(cookies) && c.Valid(cookies)
      modifies c`toLocal, c`written, c`toRemote, c`fromLocal
      ensures c.Valid(cookies)
      ensures c.fromLocal == old(c.fromLocal) + local.says
      ensures |c.written| == |old(c.written)| + Min(local.takes, |old(c.toLocal)|)
    {
      hide Rewrite, Known;
      if c.toLocal != [] {
        var w := Min(local.takes, |c.toLocal|);
        assert c.written + c.toLocal == c.written + c.toLocal[..w] + c.toLocal[w..];
        c.written := c.written + c.toLocal[..w];
        c.toLocal := c.toLocal[w..];
      }
      assert c.toChannel + (c.toRemote + local.says) == c.toChannel + c.toRemote + local.says;
      c.toRemote := c.toRemote + local.says;
      c.fromLocal := c.fromLocal + local.says;
    }

    // Local to remote, while the channel accepts.
    method WriteChannel(c: Connection, writes: seq<Write>) returns (dead: bool)
      requires Known(cookies) && c.Valid(cookies)
      modifies c`toRemote, c`toChannel
      ensures c.Valid(cookies) && Begins(old(c.toChannel), c.toChannel)
      ensures |c.toChannel| == |old(c.toChannel)| + Took(writes, |old(c.toRemote)|)
      ensures dead <==> Breaks(writes, |old(c.toRemote)|)
    {
      hide Rewrite, Known;
      dead := false;
      var i := 0;
      while i < |writes| && !dead && c.toRemote != [] && !writes[i].Blocked?
        invariant 0 <= i <= |writes|
        invariant c.Valid(cookies) && Begins(old(c.toChannel), c.toChannel)
        invariant |c.toChannel| + (if dead then 0 else Took(writes[i..], |c.toRemote|))
                  == |old(c.toChannel)| + Took(writes, |old(c.toRemote)|)
        invariant Breaks(writes, |old(c.toRemote)|) == (dead || Breaks(writes[i..], |c.toRemote|))
      {
        assert writes[i..][1..] == writes[i + 1..];
        match writes[i] {
          case Accepted(n) =>
            var w := Min(n, |c.toRemote|);
            assert c.toChannel + c.toRemote == c.toChannel + c.toRemote[..w] + c.toRemote[w..];
            c.toChannel := c.toChannel + c.toRemote[..w];
            c.toRemote := c.toRemote[w..];
          case _ =>
            dead := true;
        }
        i := i + 1;
      }
    }

    // A connection still to have its turn, and one that has had it: a client
    // that is refused is cut off before the display has heard a byte from it,
    // and each side has been given just what it took.
    ghost predicate Ready(c: Connection, h: Histories)
      reads c
      requires Known(cookies)
    {
      c.open && c.Valid(cookies) && !Rewrite(c.fromChannel, cookies).Refuse? && c.Now() == h
    }

    ghost predicate Served(c: Connection, h: Histories, turn: Turn)
      reads c
      requires Known(cookies)
    {
      var refused := Rewrite(c.fromChannel, cookies).Refuse?;
      var ended := refused || Ends(turn.got);
      var serves := !ended && !turn.local.closed && turn.local.isOpen;
      var waiting := |h.toRemote| + if serves then |turn.local.says| else 0;
      && c.Valid(cookies)
      && (if refused then !c.open && c.written == [] else c.fromChannel == h.fromChannel + Arrived(turn.got))
      && Begins(c.fromChannel, h.fromChannel + Arrived(turn.got)) && Begins(h.toChannel, c.toChannel)
      && c.fromLocal == h.fromLocal + (if serves then turn.local.says else [])
      && |c.written| == |h.written|
         + (if serves then Min(turn.local.takes, |c.written + c.toLocal| - |h.written|) else 0)
      && |c.toChannel| == |h.toChannel| + (if ended then 0 else Took(turn.writes, waiting))
      && (c.open <==> !ended && !Breaks(turn.writes, waiting) && !(turn.local.closed && c.toRemote == []))
    }

    method PumpOne(c: Connection, turn: Turn)
      requires Known(cookies) && Ready(c, c.Now())
      modifies c
      ensures Served(c, old(c.Now()), turn)
    {
      hide Rewrite, Known, Arrived, Ends, Took, Breaks;
      var local := turn.local;
      var dead := ReadChannel(c, turn.got);
      if !dead && !local.closed && local.isOpen {
        ServeLocal(c, local);
      }
      if !dead {
        dead := WriteChannel(c, turn.writes);
      }
      if local.closed && c.toRemote == [] {
        dead := true;
      }
      if dead {
        c.open := false;
      }
    }

    ghost predicate Distinct(cs: seq<Connection>) { forall i, j :: 0 <= i < j < |cs| ==> cs[i] != cs[j] }

    lemma Remaining(cs: seq<Connection>, was: seq<Histories>, turns: seq<Turn>)
      requires Known(cookies) && Distinct(cs) && |cs| == |was| == |turns|
      requires forall j :: 0 <= j < |cs| ==> Served(cs[j], was[j], turns[j])
      ensures Distinct(Alive(cs))
      ensures forall c <- Alive(cs) :: c.open && c.Valid(cookies) && !Rewrite(c.fromChannel, cookies).Refuse?
    {
      hide Rewrite, Known, Alive, Arrived;
      AliveFacts(cs);
      forall c <- Alive(cs)
        ensures c.open && c.Valid(cookies) && !Rewrite(c.fromChannel, cookies).Refuse?
      {
        assert c in cs;
        assert exists j :: 0 <= j < |cs| && cs[j] == c;
        var j :| 0 <= j < |cs| && cs[j] == c;
        assert Served(cs[j], was[j], turns[j]);
      }
    }

    // A turn of every connection; those that ended leave the list, the others
    // stay in order.
    method Pump(turns: seq<Turn>)
      requires Valid() && |turns| == |connections|
      modifies this`connections, connections
      ensures Valid()
      ensures connections == Alive(old(connections))
      ensures forall k :: 0 <= k < |old(connections)|
                ==> Served(old(connections)[k], old(connections[k].Now()), turns[k])
    {
      ghost var all, was := connections, AllNow(connections);
      assert Distinct(all);
      assert forall j :: 0 <= j < |all| ==> Ready(all[j], was[j]);
      PumpAll(all, was, turns);
      Remaining(all, was, turns);
    }

    method PumpAll(ghost all: seq<Connection>, ghost was: seq<Histories>, turns: seq<Turn>)
      requires Known(cookies) && Distinct(all) && |turns| == |all| == |was| && connections == all
      requires forall j :: 0 <= j < |all| ==> Ready(all[j], was[j])
      modifies this`connections, all
      ensures connections == Alive(all)
      ensures forall j :: 0 <= j < |all| ==> Served(all[j], was[j], turns[j])
    {
      hide Rewrite, Known, Arrived, Ready, Served, Alive, Begins, Connection.Now, Connection.Valid;
      assert Alive(all[..0]) == [] by {
        EmptyAlive();
      }
      var i, k := 0, 0;
      while i < |connections|
        invariant i <= |connections| && i <= k <= |all|
        invariant connections[..i] == Alive(all[..k]) && connections[i..] == all[k..]
        invariant forall j :: 0 <= j < k ==> Served(all[j], was[j], turns[j])
        invariant forall j :: k <= j < |all| ==> Ready(all[j], was[j])
        decreases |connections| - i
      {
        var c := connections[i];
        assert c == connections[i..][0] == all[k];
        ReadyNow(c, was[k]);
        PumpOne(c, turns[k]);
        assert c !in all[..k];
        AliveLast(all[..k], c);
        assert all[..k + 1] == all[..k] + [c];
        ghost var head, tail := connections[..i], connections[i + 1..];
        assert tail == connections[i..][1..] == all[k..][1..] == all[k + 1..];
        if !c.open {
          connections := connections[..i] + connections[i + 1..];
          assert connections[..i] == head && connections[i..] == tail;
        } else {
          i := i + 1;
          assert connections[..i] == head + [c] && connections[i..] == tail;
        }
        k := k + 1;
      }
      assert all[..k] == all;
    }

    lemma ReadyNow(c: Connection, h: Histories)
      requires Known(cookies) && Ready(c, h)
      ensures c.Now() == h
    {
    }

    lemma EmptyAlive()
      ensures Alive([]) == []
    {
    }
  }

  // Those alive are distinct connections of the list, and open.
  lemma {:induction false} AliveFacts(cs: seq<Connection>)
    requires forall i, j :: 0 <= i < j < |cs| ==> cs[i] != cs[j]
    ensures var a := Alive(cs);
            && (forall c <- a :: c in cs && c.open)
            && (forall i, j :: 0 <= i < j < |a| ==> a[i] != a[j])
  {
    if |cs| > 0 {
      assert forall i, j :: 0 <= i < j < |cs[1..]| ==> cs[1..][i] != cs[1..][j];
      AliveFacts(cs[1..]);
      assert forall c <- cs[1..] :: c != cs[0];
    }
  }

  lemma {:induction false} AliveLast(cs: seq<Connection>, c: Connection)
    ensures Alive(cs + [c]) == Alive(cs) + if c.open then [c] else []
  {
    if |cs| == 0 {
      assert cs + [c] == [c] && [c][1..] == [];
    } else {
      AliveLast(cs[1..], c);
      assert (cs + [c])[0] == cs[0] && (cs + [c])[1..] == cs[1..] + [c];
    }
  }
}
