// The SFTP dock's sessions (SftpDock): one in use, up to six kept for panes the
// user may come back to, the rest closed.
module SftpPool {
  import opened Bytes
  import opened SftpKeys

  datatype Parked = Parked(session: nat, home: string)

  // `created` lists the keys sessions were made for, `released` the sessions
  // closed, both in order.
  datatype Pool = Pool(
    session: Option<nat>, settings: Option<Settings>, root: string, parked: map<string, Parked>,
    created: seq<string>, released: seq<nat>)

  const MAX_PARKED := 6

  // ---- Ownership

  ghost predicate IsParked(p: Pool, id: nat) { exists k <- p.parked :: p.parked[k].session == id }

  // In how many places a session is: in use, kept, or among those closed.
  ghost function Places(p: Pool, id: nat): nat {
    (if p.session == Some(id) then 1 else 0) + (if IsParked(p, id) then 1 else 0) + multiset(p.released)[id]
  }

  // Every session made is in one place; those kept are under their own keys.
  ghost predicate Owned(p: Pool) {
    && |p.parked| <= 6
    && (p.session.Some? ==>
          && p.settings.Some? && p.session.value < |p.created|
          && p.created[p.session.value] == Key(p.settings.value))
    && (forall k <- p.parked ::
          && p.parked[k].session < |p.created| && p.created[p.parked[k].session] == k
          && p.parked[k].home != "")
    && (forall id: nat :: Places(p, id) == if id < |p.created| then 1 else 0)
  }

  // Between two events: a connection has a session, and its key is not kept.
  ghost predicate Sound(p: Pool) {
    && Owned(p)
    && (p.settings.Some? <==> p.session.Some?)
    && (p.settings.Some? ==> Key(p.settings.value) !in p.parked)
  }

  // ---- The operations

  // Only a session that got connected is worth keeping.
  predicate WorthKeeping(p: Pool) { p.session.Some? && p.settings.Some? && p.root != "" }

  function Drop(p: Pool, k: string): Pool
    requires k in p.parked
  {
    p.(parked := p.parked - {k}, released := p.released + [p.parked[k].session])
  }

  function Teardown(p: Pool): Pool {
    if p.session.Some? then p.(session := None, released := p.released + [p.session.value]) else p
  }

  // Before a session is kept, whatever was under its key is closed.
  function Replacing(p: Pool): (r: Pool)
    ensures WorthKeeping(p) && Key(p.settings.value) !in p.parked ==> r == p
  {
    if WorthKeeping(p) && Key(p.settings.value) in p.parked then
      var k := Key(p.settings.value);
      if p.parked[k].session != p.session.value then Drop(p, k) else p.(parked := p.parked - {k})
    else p
  }

  predicate Evicts(p: Pool) { WorthKeeping(p) && |Replacing(p).parked| >= MAX_PARKED }

  // `first` is the one that goes when the pool is full.
  function Park(p: Pool, first: string): Pool
    requires Evicts(p) ==> first in Replacing(p).parked
  {
    if WorthKeeping(p) then
      var q := if Evicts(p) then Drop(Replacing(p), first) else Replacing(p);
      q.(session := None, parked := q.parked[Key(p.settings.value) := Parked(p.session.value, p.root)])
    else Teardown(p)
  }

  // To another connection, or none: back to its kept session, or a new login.
  function Enter(p: Pool, settings: Option<Settings>): Pool {
    var q := p.(settings := settings, root := "");
    if settings.None? then q
    else
      var k := Key(settings.value);
      if k in q.parked then q.(session := Some(q.parked[k].session), root := q.parked[k].home, parked := q.parked - {k})
      else q.(session := Some(|q.created|), created := q.created + [k])
  }

  function Switch(p: Pool, settings: Option<Settings>, first: string): Pool
    requires Evicts(p) ==> first in Replacing(p).parked
  {
    if settings == p.settings then p else Enter(Park(p, first), settings)
  }

  // ---- What the operations keep

  lemma DropOwned(p: Pool, k: string)
    requires Owned(p) && k in p.parked
    ensures Owned(Drop(p, k)) && |Drop(p, k).parked| == |p.parked| - 1
  {
    var q := Drop(p, k);
    assert q.parked.Keys == p.parked.Keys - {k};
    assert |q.parked| == |q.parked.Keys| && |p.parked| == |p.parked.Keys|;
    var s := p.parked[k].session;
    forall id: nat
      ensures Places(q, id) == Places(p, id)
    {
      assert multiset(q.released)[id] == multiset(p.released)[id] + if id == s then 1 else 0;
      if id == s {
        assert !IsParked(q, id);
      } else if IsParked(p, id) {
        var j :| j in p.parked && p.parked[j].session == id;
        assert j in q.parked && q.parked[j].session == id;
      }
    }
  }

  lemma TeardownOwned(p: Pool)
    requires Owned(p)
    ensures Owned(Teardown(p)) && Teardown(p).session.None?
  {
    var q := Teardown(p);
    forall id: nat
      ensures Places(q, id) == Places(p, id)
    {
      assert IsParked(q, id) == IsParked(p, id);
    }
  }

  lemma KeepOwned(p: Pool, k: string)
    requires Owned(p) && WorthKeeping(p) && k == Key(p.settings.value) && k !in p.parked && |p.parked| < MAX_PARKED
    ensures Owned(p.(session := None, parked := p.parked[k := Parked(p.session.value, p.root)]))
  {
    hide Key;
    var q := p.(session := None, parked := p.parked[k := Parked(p.session.value, p.root)]);
    assert q.parked.Keys == p.parked.Keys + {k};
    assert |q.parked| == |q.parked.Keys| && |p.parked| == |p.parked.Keys|;
    var s := p.session.value;
    assert Places(p, s) == 1;
    forall id: nat
      ensures Places(q, id) == Places(p, id)
    {
      if id == s {
        assert q.parked[k].session == id;
      } else if IsParked(p, id) {
        var j :| j in p.parked && p.parked[j].session == id;
        assert q.parked[j].session == id;
      }
    }
  }

  lemma ParkOwned(p: Pool, first: string)
    requires Sound(p) && (Evicts(p) ==> first in Replacing(p).parked)
    ensures var q := Park(p, first);
            && Owned(q) && q.session.None? && q.created == p.created && q.settings == p.settings
  {
    if WorthKeeping(p) {
      var k := Key(p.settings.value);
      if Evicts(p) {
        DropOwned(p, first);
        KeepOwned(Drop(p, first), k);
      } else {
        KeepOwned(p, k);
      }
    } else {
      TeardownOwned(p);
    }
  }

  lemma EnterSound(p: Pool, settings: Option<Settings>)
    requires Owned(p) && p.session.None?
    ensures Sound(Enter(p, settings))
  {
    if settings.Some? {
      if Key(settings.value) in p.parked {
        TakenBack(p, settings.value);
      } else {
        Made(p, settings.value);
      }
    } else {
      var q := Enter(p, settings);
      forall id: nat
        ensures Places(q, id) == Places(p, id)
      {
        assert IsParked(q, id) == IsParked(p, id);
      }
    }
  }

  lemma TakenBack(p: Pool, settings: Settings)
    requires Owned(p) && p.session.None? && Key(settings) in p.parked
    ensures Sound(Enter(p, Some(settings)))
  {
    hide Key;
    var q, k := Enter(p, Some(settings)), Key(settings);
    assert q.parked.Keys == p.parked.Keys - {k};
    assert |q.parked| == |q.parked.Keys| && |p.parked| == |p.parked.Keys|;
    var s := p.parked[k].session;
    forall id: nat
      ensures Places(q, id) == Places(p, id)
    {
      if id == s {
        assert IsParked(p, id) && !IsParked(q, id);
      } else if IsParked(p, id) {
        var j :| j in p.parked && p.parked[j].session == id;
        assert j in q.parked && q.parked[j].session == id;
      }
    }
  }

  lemma Made(p: Pool, settings: Settings)
    requires Owned(p) && p.session.None? && Key(settings) !in p.parked
    ensures Sound(Enter(p, Some(settings)))
  {
    hide Key;
    var q, s := Enter(p, Some(settings)), |p.created|;
    assert Places(p, s) == 0;
    forall id: nat
      ensures Places(q, id) == Places(p, id) + if id == s then 1 else 0
    {
      assert IsParked(q, id) == IsParked(p, id);
    }
  }

  // Whatever the pane, every session stays in one place.
  lemma SwitchSound(p: Pool, settings: Option<Settings>, first: string)
    requires Sound(p) && (Evicts(p) ==> first in Replacing(p).parked)
    ensures Sound(Switch(p, settings, first))
    ensures settings == p.settings ==> Switch(p, settings, first) == p
  {
    hide Sound, Owned, Enter, Park;
    if settings != p.settings {
      ParkOwned(p, first);
      EnterSound(Park(p, first), settings);
    } else {
    }
  }

  // ---- When coming back needs no login

  // Coming back to a connection whose session is kept makes no session exactly
  // when keeping the present one does not push that very session out.
  lemma BackWithoutLoginIff(p: Pool, settings: Settings, first: string)
    requires Sound(p) && (Evicts(p) ==> first in Replacing(p).parked)
    requires Key(settings) in p.parked
    ensures var q := Switch(p, Some(settings), first);
            if Evicts(p) && first == Key(settings) then
              q.created == p.created + [Key(settings)] && p.parked[first].session in q.released
            else
              && q.created == p.created && q.session == Some(p.parked[Key(settings)].session)
              && q.root == p.parked[Key(settings)].home
  {
    hide Key;
    var s := p.parked[Key(settings)].session;
    if Evicts(p) && first == Key(settings) {
      assert (p.released + [s])[|p.released|] == s;
    }
  }

  // A pane after another, each to a host port of its own and each connected.
  function Visit(n: nat): Settings { Settings("user", "host", n) }

  ghost function Kept(n: nat): map<string, Parked> {
    if n == 0 then map[] else Kept(n - 1)[Key(Visit(n - 1)) := Parked(n - 1, "/")]
  }

  ghost function Visits(n: nat): Pool {
    Pool(Some(n), Some(Visit(n)), "/", Kept(n), seq(n + 1, i requires 0 <= i <= n => Key(Visit(i))), [])
  }

  lemma VisitsDiffer(m: nat, n: nat)
    ensures m != n ==> Key(Visit(m)) != Key(Visit(n))
  {
    if Key(Visit(m)) == Key(Visit(n)) {
      KeyTells(Visit(m), Visit(n));
    }
  }

  lemma {:induction false} KeptIs(n: nat, m: nat)
    requires m >= n
    ensures Key(Visit(m)) !in Kept(n) && |Kept(n)| == n
  {
    hide Key;
    if n > 0 {
      KeptIs(n - 1, m);
      KeptIs(n - 1, n - 1);
      VisitsDiffer(m, n - 1);
      assert Kept(n).Keys == Kept(n - 1).Keys + {Key(Visit(n - 1))};
      assert |Kept(n)| == |Kept(n).Keys| && |Kept(n - 1)| == |Kept(n - 1).Keys|;
    }
  }

  // One visit leads to the next, and no session is lost on the way.
  lemma {:induction false} VisitsSound(n: nat)
    requires n <= 6
    ensures Sound(Visits(n))
    ensures n > 0 ==> !Evicts(Visits(n - 1)) && Visits(n) == Switch(Visits(n - 1), Some(Visit(n)), "").(root := "/")
  {
    hide Key, Sound, Switch, Evicts;
    if n == 0 {
      var none := Pool(None, None, "", map[], [], []);
      NoneSound(none);
      VisitsStart();
      SwitchSound(none, Some(Visit(0)), "");
      Connects(Switch(none, Some(Visit(0)), ""), "/");
    } else {
      VisitsSound(n - 1);
      VisitsStep(n - 1);
      SwitchSound(Visits(n - 1), Some(Visit(n)), "");
      Connects(Switch(Visits(n - 1), Some(Visit(n)), ""), "/");
    }
  }

  lemma VisitsStart()
    ensures var none := Pool(None, None, "", map[], [], []);
            !Evicts(none) && Visits(0) == Switch(none, Some(Visit(0)), "").(root := "/")
  {
    hide Key;
    assert Visits(0).created == [] + [Key(Visit(0))];
  }

  lemma VisitsStep(n: nat)
    requires n < 6
    ensures !Evicts(Visits(n)) && Visits(n + 1) == Switch(Visits(n), Some(Visit(n + 1)), "").(root := "/")
  {
    hide Key;
    KeptIs(n, n);
    KeptIs(n + 1, n + 1);
    assert Visits(n + 1).created == Visits(n).created + [Key(Visit(n + 1))];
  }

  lemma NoneSound(none: Pool)
    requires none == Pool(None, None, "", map[], [], [])
    ensures Sound(none)
  {
  }

  // Where the session is does not depend on having got its home folder.
  lemma Connects(p: Pool, home: string)
    requires Sound(p)
    ensures Sound(p.(root := home))
  {
    var q := p.(root := home);
    forall id: nat
      ensures Places(q, id) == Places(p, id)
    {
      assert IsParked(q, id) == IsParked(p, id);
    }
  }

  // After seven panes the pool is full, and going back to the first of them
  // can cost a login: its session may be the one that makes room.
  lemma FullPoolCanLose()
    ensures var p, back := Visits(6), Visit(0);
            && Sound(p) && Key(back) in p.parked && Evicts(p) && Key(back) in Replacing(p).parked
            && Switch(p, Some(back), Key(back)).created == p.created + [Key(back)]
  {
    hide Key, Sound, Kept;
    var p := Visits(6);
    VisitsSound(6);
    KeptIs(6, 6);
    FirstIsKept();
    BackWithoutLoginIff(p, Visit(0), Key(Visit(0)));
  }

  lemma FirstIsKept()
    ensures Key(Visit(0)) in Kept(6)
  {
    hide Key;
    assert Key(Visit(0)) in Kept(1);
    assert forall k :: k in Kept(1) ==> k in Kept(2);
    assert forall k :: k in Kept(2) ==> k in Kept(3);
    assert forall k :: k in Kept(3) ==> k in Kept(4);
    assert forall k :: k in Kept(4) ==> k in Kept(5);
  }

  // ---- Leaving a connection

  // Leaving a connection that got connected keeps its session with its home
  // folder - unless it is taken back at once, under the same key - and closes
  // at most one other, when six are kept; leaving any other closes its session
  // alone. What else was kept stays kept, but for the session that is wanted.
  lemma LeavingKeeps(p: Pool, settings: Option<Settings>, first: string)
    requires Sound(p) && settings != p.settings && p.session.Some? && (Evicts(p) ==> first in Replacing(p).parked)
    ensures var q, key := Switch(p, settings, first), Key(p.settings.value);
            var wanted := if settings.Some? then {Key(settings.value)} else {};
            if p.root == "" then
              && q.released == p.released + [p.session.value] && q.parked == p.parked - wanted
            else
              && q.parked == p.parked[key := Parked(p.session.value, p.root)]
                 - (if |p.parked| == 6 then {first} else {}) - wanted
              && (|p.parked| == 6 ==> first in p.parked)
              && q.released == p.released + (if |p.parked| == 6 then [p.parked[first].session] else [])
    ensures Switch(p, settings, first).session.None? || |Switch(p, settings, first).created| > |p.created|
            ==> Switch(p, settings, first).root == ""
  {
    hide Key, Park, Evicts, Sound;
    ParkingKeeps(p, first);
    EnterTakes(Park(p, first), settings);
  }

  lemma ParkingKeeps(p: Pool, first: string)
    requires Sound(p) && p.session.Some? && (Evicts(p) ==> first in Replacing(p).parked)
    ensures var q, key := Park(p, first), Key(p.settings.value);
            if p.root == "" then
              q.released == p.released + [p.session.value] && q.parked == p.parked
            else
              && (|p.parked| == 6 ==> first in p.parked)
              && q.parked == p.parked[key := Parked(p.session.value, p.root)]
                 - (if |p.parked| == 6 then {first} else {})
              && q.released == p.released + if |p.parked| == 6 then [p.parked[first].session] else []
    ensures Park(p, first).session.None? && Park(p, first).created == p.created
  {
    hide Key;
    assert p.released + [] == p.released;
  }

  lemma EnterTakes(p: Pool, settings: Option<Settings>)
    ensures var q := Enter(p, settings);
            q.released == p.released && q.parked == p.parked - if settings.Some? then {Key(settings.value)} else {}
    ensures Enter(p, settings).root != "" ==> Enter(p, settings).created == p.created
    ensures settings.None? ==> Enter(p, settings).root == "" && Enter(p, settings).session == p.session
    ensures settings.Some? ==> Enter(p, settings).session.Some?
  {
    hide Key;
  }

  // ---- Two connections under one key

  // Going from one connection to another of the same key hands over the first
  // one's session: none is made for the second.
  lemma SharedKeySharesSession(p: Pool, other: Settings, first: string)
    requires Sound(p) && WorthKeeping(p) && (Evicts(p) ==> first in Replacing(p).parked)
    requires other != p.settings.value && Key(other) == Key(p.settings.value)
    ensures var q := Switch(p, Some(other), first);
            q.session == p.session && q.settings == Some(other) && q.root == p.root && q.created == p.created
  {
    hide Key;
  }

  // And so it comes to pass: after logging in as user `a@b` at host `c`, the
  // pane of user `a` at host `b@c` is shown the files of the former.
  lemma ClashHandsOver()
    ensures var none := Pool(None, None, "", map[], [], []);
            var s, t := Settings("a@b", "c", 22), Settings("a", "b@c", 22);
            && !Evicts(none)
            && var p := Switch(none, Some(s), "").(root := "/home/a@b");
               && Sound(p) && !Evicts(p) && p.session == Some(0) && p.created == [Key(s)]
               && s != t && Switch(p, Some(t), "").session == Some(0) && Switch(p, Some(t), "").created == [Key(s)]
  {
    hide Key, Sound;
    var none := Pool(None, None, "", map[], [], []);
    var s, t := Settings("a@b", "c", 22), Settings("a", "b@c", 22);
    KeysCanClash();
    NoneSound(none);
    SwitchSound(none, Some(s), "");
    Connects(Switch(none, Some(s), ""), "/home/a@b");
    SharedKeySharesSession(Switch(none, Some(s), "").(root := "/home/a@b"), t, "");
  }

  // So a switch between two different connections always ends in a session of
  // its own if the second one's key is its own.
  lemma OwnKeyOwnSession(p: Pool, other: Settings, first: string)
    requires Sound(p) && WorthKeeping(p) && (Evicts(p) ==> first in Replacing(p).parked)
    requires other != p.settings.value && Clean(other)
    ensures Switch(p, Some(other), first).session != p.session
  {
    hide Key;
    KeyIsOwnIff(other);
    assert Key(other) != Key(p.settings.value);
    assert Places(p, p.session.value) == 1;
  }
}
