// The dock that browses the files of the focused SSH pane (SftpDock), as far as
// its sessions go.
module SftpDocks {
  import opened Bytes
  import opened SftpKeys
  import opened SftpPool

  class SftpDock {
    var session: Option<nat>
    var settings: Option<Settings>
    var root: string                  // the model's root path, empty until connected
    var parked: map<string, Parked>
    var made: nat                     // sessions made so far
    ghost var created: seq<string>
    ghost var released: seq<nat>

    ghost function View(): Pool
      reads this
    {
      Pool(session, settings, root, parked, created, released)
    }

    ghost predicate Valid()
      reads this
    {
      Sound(View()) && made == |created|
    }

    constructor ()
      ensures Valid() && made == 0 && session.None? && parked == map[]
    {
      session, settings, root, parked, made := None, None, "", map[], 0;
      created, released := [], [];
      new;
      NoneSound(View());
    }

    method TeardownSession()
      modifies this`session, this`released
      ensures View() == Teardown(old(View()))
    {
      if session.Some? {
        released := released + [session.value];
        session := None;
      }
    }

    // Closes a kept session and forgets it.
    method CloseParked(k: string)
      requires k in parked
      modifies this`parked, this`released
      ensures View() == Drop(old(View()), k)
    {
      released := released + [parked[k].session];
      parked := parked - {k};
    }

    // Keeps the present session for later, in place of some other when there
    // are six; closes it if it never got connected.
    method ParkSession() returns (ghost first: string)
      modifies this`session, this`parked, this`released
      ensures Evicts(old(View())) ==> first in Replacing(old(View())).parked
      ensures View() == Park(old(View()), first)
    {
      hide Key;
      first := "";
      if session.Some? && settings.Some? && root != "" {
        var key := Key(settings.value);
        if key in parked {
          if parked[key].session != session.value {
            CloseParked(key);
          } else {
            parked := parked - {key};
          }
        }
        if |parked| >= MAX_PARKED {
          assert |parked.Keys| == |parked|;
          var k :| k in parked;
          first := k;
          CloseParked(k);
        }
        parked := parked[key := Parked(session.value, root)];
        session := None;
        return;
      }
      TeardownSession();
    }

    // The focused pane's connection, if it has one. The session of the one
    // before is kept, and its own is taken back, or made if there is none.
    method SetActiveConnection(s: Option<Settings>) returns (ghost first: string)
      requires Valid()
      modifies this
      ensures Valid() && settings == s
      ensures Evicts(old(View())) ==> first in Replacing(old(View())).parked
      ensures View() == Switch(old(View()), s, first)
    {
      hide Key, Sound, Evicts, Replacing, Park;
      if s == settings {
        SameConnection(View());
        first := AnyOf(View());
        return;
      }
      ghost var before := View();
      first := ParkSession();
      SwitchSound(before, s, first);
      ParkOwned(before, first);
      settings := s;
      root := "";
      if settings.None? {
        return;
      }
      var key := Key(settings.value);
      if key in parked {
        var kept := parked[key];
        parked := parked - {key};
        session := Some(kept.session);
        OnConnected(kept.home);
        return;
      }
      session := Some(made);
      made := made + 1;
      created := created + [key];
    }

    lemma SameConnection(p: Pool)
      ensures Evicts(p) ==> |Replacing(p).parked| > 0
    {
    }

    ghost method AnyOf(p: Pool) returns (first: string)
      requires Evicts(p) ==> |Replacing(p).parked| > 0
      ensures Evicts(p) ==> first in Replacing(p).parked
    {
      first := "";
      if Evicts(p) {
        assert |Replacing(p).parked.Keys| > 0;
        first :| first in Replacing(p).parked;
      }
    }

    // The session in use has got its home folder.
    method OnConnected(home: string)
      modifies this`root
      ensures View() == old(View()).(root := home)
      ensures old(Valid()) ==> Valid()
    {
      if Valid() {
        Connects(View(), home);
      }
      root := home;
    }

    // Kept sessions of connections no pane has any more are closed; no other
    // session is touched.
    method KeepOnly(inUse: seq<Settings>)
      requires Valid()
      modifies this`parked, this`released
      ensures Valid()
      ensures parked == map k | k in old(parked) && (exists s <- inUse :: Key(s) == k) :: old(parked)[k]
    {
      hide Key, Owned;
      var keys: set<string> := set s <- inUse :: Key(s);
      assert forall k :: k in keys <==> exists s <- inUse :: Key(s) == k;
      var todo := parked.Keys;
      ghost var was := parked;
      while todo != {}
        invariant Valid() && todo <= parked.Keys && parked.Keys <= was.Keys
        invariant forall k <- parked :: parked[k] == was[k]
        invariant forall k <- was :: k in todo || (k in parked <==> k in keys)
        decreases |todo|
      {
        var k :| k in todo;
        if k !in keys {
          DropOwned(View(), k);
          CloseParked(k);
        }
        todo := todo - {k};
      }
    }

    // A kept session that drops is forgotten.
    method ParkedDisconnected(id: nat)
      requires Valid()
      modifies this`parked, this`released
      ensures Valid() && !IsParked(View(), id)
      ensures forall k :: k in parked <==> k in old(parked) && old(parked)[k].session != id
      ensures forall k <- parked :: parked[k] == old(parked)[k]
    {
      hide Key;
      if k :| k in parked && parked[k].session == id {
        DropOwned(View(), k);
        CloseParked(k);
      }
    }

    // The end of the dock: each session that was ever made has been closed, once.
    method Destroy()
      requires Valid()
      modifies this`session, this`parked, this`released
      ensures session.None? && parked == map[]
      ensures forall id: nat :: multiset(released)[id] == if id < |created| then 1 else 0
    {
      hide Key, Owned, Places;
      TeardownOwned(View());
      TeardownSession();
      while parked != map[]
        invariant Owned(View()) && session.None?
        decreases |parked|
      {
        assert parked.Keys != {};
        var k :| k in parked;
        DropOwned(View(), k);
        CloseParked(k);
      }
      AllReleased(View());
    }

    lemma AllReleased(p: Pool)
      requires Owned(p) && p.session.None? && p.parked == map[]
      ensures forall id: nat :: multiset(p.released)[id] == if id < |p.created| then 1 else 0
    {
      forall id: nat
        ensures multiset(p.released)[id] == if id < |p.created| then 1 else 0
      {
        assert Places(p, id) == multiset(p.released)[id];
      }
    }
  }
}
