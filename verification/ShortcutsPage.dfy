// The page on which the user changes shortcuts (ShortcutsPage) and the manager
// it works on (ShortcutManager); the answers to its questions are parameters.
module ShortcutsPages {
  import opened Bytes
  import opened Shortcuts

  class ShortcutManager {
    var overrides: map<string, Keys>
    var custom: seq<Custom>

    function View(): Bindings
      reads this
    {
      Bindings(overrides, custom)
    }

    ghost predicate Valid()
      reads this
    {
      Sound(View())
    }

    constructor ()
      ensures Valid() && View() == Bindings(map[], [])
    {
      overrides, custom := map[], [];
      new;
      DefaultsAreSound();
    }

    // sequence()
    method Sequence(id: string) returns (s: Keys)
      ensures s == KeyOf(View(), id)
    {
      hide Table, IsCustom, CommandOf;
      if IsCustom(id) {
        for i := 0 to |custom|
          invariant CustomKey(custom[i..], id) == CustomKey(custom, id)
        {
          assert custom[i..][1..] == custom[i + 1..];
          if custom[i].id == id {
            return custom[i].key;
          }
        }
        return [];
      }
      if id in overrides {
        return overrides[id];
      }
      var c := CommandOf(id);
      return if c.Some? then c.value.key else [];
    }

    method SetSequence(id: string, requested: Keys)
      requires Stored(View())
      modifies this
      ensures View() == With(old(View()), id, requested) && Stored(View())
    {
      hide Table, IsCustom, CommandOf;
      StoredAfter(View(), id, requested);
      var s := FirstChord(requested);
      if IsCustom(id) {
        SetCustom(id, s);
        return;
      }
      var c := CommandOf(id);
      var now := Sequence(id);
      if c.None? || now == s {
        if c.Some? {
          if s == c.value.key {
            assert overrides - {id} == overrides;
          } else {
            assert overrides[id := s] == overrides;
          }
        }
        return;
      }
      if s == c.value.key {
        overrides := overrides - {id};
      } else {
        overrides := overrides[id := s];
      }
    }

    method SetCustom(id: string, s: Keys)
      modifies this`custom
      ensures custom == WithKey(old(custom), id, s)
    {
      hide WithKey;
      WithKeyAt(custom, id, s);
      ghost var was, target := custom, WithKey(custom, id, s);
      for i := 0 to |custom|
        invariant |custom| == |was| == |target|
        invariant forall j :: 0 <= j < i ==> custom[j] == target[j]
        invariant forall j :: i <= j < |was| ==> custom[j] == was[j]
      {
        if custom[i].id == id && custom[i].key != s {
          custom := custom[i := custom[i].(key := s)];
        }
      }
    }

    method ResetAllToDefaults()
      modifies this`overrides
      ensures overrides == map[]
    {
      if overrides == map[] {
        return;
      }
      overrides := map[];
    }

    method AddCustom(c: Custom)
      modifies this`custom
      ensures custom == old(custom) + [c.(key := FirstChord(c.key))]
    {
      custom := custom + [c.(key := FirstChord(c.key))];
    }

    method UpdateCustom(c: Custom)
      modifies this`custom
      ensures custom == Replaced(old(custom), c.(key := FirstChord(c.key)))
    {
      hide Replaced;
      var d := c.(key := FirstChord(c.key));
      for i := 0 to |custom|
        invariant custom == old(custom)
        invariant forall k :: 0 <= k < i ==> custom[k].id != d.id
      {
        if custom[i].id == c.id {
          FirstReplaced(custom, i, d);
          custom := custom[i := d];
          return;
        }
      }
      FirstReplaced(custom, |custom|, d);
    }

    method RemoveCustom(id: string)
      modifies this`custom
      ensures custom == Removed(old(custom), id)
    {
      hide Removed;
      for i := 0 to |custom|
        invariant custom == old(custom)
        invariant forall k :: 0 <= k < i ==> custom[k].id != id
      {
        if custom[i].id == id {
          FirstRemoved(custom, i, id);
          custom := custom[..i] + custom[i + 1..];
          return;
        }
      }
      FirstRemoved(custom, |custom|, id);
    }

    // The first of that name changes, if there is one.
    lemma {:induction false} FirstReplaced(cs: seq<Custom>, i: nat, d: Custom)
      requires i <= |cs| && (forall k :: 0 <= k < i ==> cs[k].id != d.id) && (i < |cs| ==> cs[i].id == d.id)
      ensures Replaced(cs, d) == if i < |cs| then cs[i := d] else cs
      decreases |cs|
    {
      if i > 0 {
        FirstReplaced(cs[1..], i - 1, d);
        assert cs == [cs[0]] + cs[1..];
      }
    }

    lemma {:induction false} FirstRemoved(cs: seq<Custom>, i: nat, id: string)
      requires i <= |cs| && (forall k :: 0 <= k < i ==> cs[k].id != id) && (i < |cs| ==> cs[i].id == id)
      ensures Removed(cs, id) == if i < |cs| then cs[..i] + cs[i + 1..] else cs
      decreases |cs|
    {
      if i > 0 {
        FirstRemoved(cs[1..], i - 1, id);
        assert cs == [cs[0]] + cs[1..];
      } else if |cs| > 0 {
        assert cs[..0] + cs[1..] == cs[1..];
      }
    }

    // Whoever has the key among the commands it could collide with.
    method ConflictingCommand(id: string, s: Keys) returns (r: Option<string>)
      requires Stored(View())
      ensures Conflict(View(), id, s, r)
    {
      hide Table, IsCustom, CommandOf, KeyOf, FindIn;
      if s == [] {
        return None;
      }
      TableFacts();
      var scope := ScopeOf(id);
      var table := Table();
      for i := 0 to |table|
        invariant forall c <- table[..i] :: c.id != id && c.scope == scope ==> KeyOf(View(), c.id) != s
      {
        var c := table[i];
        assert c in Table();
        assert table[..i + 1] == table[..i] + [c];
        var key := Sequence(c.id);
        if c.id != id && c.scope == scope && key == s {
          return Some(c.id);
        }
      }
      assert table[..|table|] == table;
      if scope == MainWindow {
        for i := 0 to |custom|
          invariant forall c <- custom[..i] :: c.id != id ==> c.key != s
        {
          var c := custom[i];
          assert c in custom && custom[..i + 1] == custom[..i] + [c];
          CustomHas(i);
          if c.id != id && c.key == s {
            return Some(c.id);
          }
        }
        assert custom[..|custom|] == custom;
      }
      NoneHas(id, s);
      return None;
    }

    lemma CustomHas(i: nat)
      requires Stored(View()) && i < |custom|
      ensures var x := custom[i].id; Known(View(), x) && KeyOf(View(), x) == custom[i].key && ScopeOf(x) == MainWindow
    {
      assert custom[i] in custom;
      KeyAt(custom, i);
      CustomScope(custom[i].id);
    }

    lemma NoneHas(id: string, s: Keys)
      requires Stored(View())
      requires forall c <- Table() :: c.id != id && c.scope == ScopeOf(id) ==> KeyOf(View(), c.id) != s
      requires ScopeOf(id) == MainWindow ==> forall c <- custom :: c.id != id ==> c.key != s
      ensures forall y :: Rival(View(), id, y) ==> KeyOf(View(), y) != s
    {
      hide Table, IsCustom, FindIn;
      forall y | Rival(View(), id, y)
        ensures KeyOf(View(), y) != s
      {
        if IsCustom(y) {
          CustomScope(y);
          CustomKeyFrom(custom, y);
        } else {
          assert CommandOf(y).value in Table();
        }
      }
    }
  }

  // What the user filled in for a custom shortcut.
  datatype Form = Form(name: string, key: Keys, text: string, appendEnter: bool)

  function FormOf(id: string, f: Form): Custom { Custom(id, f.name, f.key, f.text, f.appendEnter) }

  class ShortcutsPage {
    const manager: ShortcutManager

    constructor (manager: ShortcutManager)
      ensures this.manager == manager
    {
      this.manager := manager;
    }

    // Gives a command a key, taking it from whoever has it if the user agrees:
    // then the command has the first chord of that key and the other has none;
    // every other key stays, and all do if the answer is no. Keys stay unique
    // exactly when what was checked for is what is kept.
    method Assign(id: string, s: Keys, yes: bool) returns (ok: bool)
      requires manager.Valid()
      modifies manager
      ensures ok <==> IsAcceptable(s) && (yes || !Taken(old(manager.View()), id, s))
      ensures Asked(old(manager.View()), manager.View(), id, s, yes) && Stored(manager.View())
      ensures manager.Valid() <==> !ok || Checked(old(manager.View()), id, s)
      ensures Texts(manager.custom) == Texts(old(manager.custom))
      ensures forall x :: Known(manager.View(), x) <==> Known(old(manager.View()), x)
      ensures !yes ==> forall x :: x != id ==> KeyOf(manager.View(), x) == KeyOf(old(manager.View()), x)
    {
      hide Table, IsCustom, CommandOf, KeyOf, Known, With, Stored, Unique, ScopeOf, IsAcceptable, Checked;
      if !IsAcceptable(s) {
        return false;
      }
      ghost var b := manager.View();
      var other := manager.ConflictingCommand(id, s);
      TakenIff(b, id, s, other);
      if other.Some? {
        if !yes {
          return false;
        }
        manager.SetSequence(other.value, []);
      }
      ghost var freed := manager.View();
      AssignKeepsUniqueIff(b, id, s, other);
      manager.SetSequence(id, s);
      Assigned(b, freed, id, s, other);
      return true;
    }

    lemma Assigned(b: Bindings, freed: Bindings, id: string, s: Keys, other: Option<string>)
      requires Sound(b) && Conflict(b, id, s, other)
      requires freed == if other.Some? then With(b, other.value, []) else b
      ensures var after := With(freed, id, s);
              && (forall x :: Known(after, x) <==> Known(b, x))
              && Given(b, after, id, s)
              && Texts(after.custom) == Texts(b.custom)
    {
      hide Table, IsCustom, CommandOf, KeyOf, Known, With, ScopeOf;
      var after := With(freed, id, s);
      TextsStay(freed, id, s);
      TextsStay(b, if other.Some? then other.value else "", []);
      forall x
        ensures Known(after, x) <==> Known(b, x)
        ensures KeyOf(after, x) == if x == id && Known(b, id) then FirstChord(s)
                                   else if other.Some? && x == other.value then [] else KeyOf(b, x)
      {
        KeyAfter(freed, id, s, x);
        KeyAfter(b, if other.Some? then other.value else "", [], x);
        KeyAfter(b, if other.Some? then other.value else "", [], id);
      }
      if other.Some? {
        var o := other.value;
        forall x | x != id && x != o && Rival(b, id, x)
          ensures KeyOf(b, x) != s
        {
          assert Rival(b, o, x);
        }
      }
    }

    method ChangeSelected(id: string, captured: Option<Keys>, yes: bool)
      requires manager.Valid()
      modifies manager
      ensures manager.Valid()
      ensures if captured.None? then manager.View() == old(manager.View())
              else Asked(old(manager.View()), manager.View(), id, FirstChord(captured.value), yes)
    {
      if captured.Some? {
        var _ := Assign(id, FirstChord(captured.value), yes);
      }
    }

    method ClearSelected(id: string)
      requires manager.Valid()
      modifies manager
      ensures manager.Valid() && KeyOf(manager.View(), id) == []
      ensures forall x :: x != id ==> KeyOf(manager.View(), x) == KeyOf(old(manager.View()), x)
    {
      hide Table, IsCustom, CommandOf, With, Stored;
      ghost var b := manager.View();
      AssignKeepsUnique(b, id, [], None);
      manager.SetSequence(id, []);
      forall x
        ensures KeyOf(manager.View(), x) == if x == id && Known(b, id) then [] else KeyOf(b, x)
      {
        KeyAfter(b, id, [], x);
      }
      UnknownHasNone(b, id);
    }

    lemma UnknownHasNone(b: Bindings, id: string)
      requires Stored(b)
      ensures !Known(b, id) ==> KeyOf(b, id) == []
    {
      hide Table, IsCustom, FindIn;
      if !Known(b, id) && IsCustom(id) {
        NoCustom(b.custom, id);
      }
    }

    lemma {:induction false} NoCustom(cs: seq<Custom>, id: string)
      requires !HasCustom(cs, id)
      ensures CustomKey(cs, id) == []
    {
      if |cs| > 0 {
        HasFirst(cs, id);
        NoCustom(cs[1..], id);
      }
    }

    method ResetSelected(id: string, yes: bool)
      requires manager.Valid()
      modifies manager
      ensures manager.Valid()
      ensures if CommandOf(id).None? then manager.View() == old(manager.View())
              else Asked(old(manager.View()), manager.View(), id, CommandOf(id).value.key, yes)
    {
      hide Row;
      var c := CommandOf(id);
      if c.Some? {
        TableFacts();
        DefaultIsSingle(c.value);
        var _ := Assign(id, c.value.key, yes);
      }
    }

    lemma DefaultIsSingle(c: Command)
      requires c in Table()
      ensures |c.key| <= 1
    {
      hide Row;
    }

    // Every command of the table gets its default back; custom shortcuts on one
    // of those keys lose it, the others keep theirs.
    method ResetAll(yes: bool)
      requires manager.Valid()
      modifies manager
      ensures manager.Valid()
      ensures manager.View() == if yes then Bindings(map[], Cleared(old(manager.custom))) else old(manager.View())
    {
      hide Table, IsCustom, CommandOf, IsDefault, Distinct, Unique;
      if !yes {
        return;
      }
      ghost var b := manager.View();
      ResetKeeps(b);
      manager.ResetAllToDefaults();
      var shown := manager.custom;
      for i := 0 to |shown|
        invariant manager.View() == Bindings(map[], Cleared(shown)[..i] + shown[i..])
      {
        ClearIfTaken(b, shown[i], i);
      }
      assert Cleared(shown)[..|shown|] + shown[|shown|..] == Cleared(shown);
    }

    // Part of the way through, what is stored is still in order.
    lemma StoredPartly(cs: seq<Custom>, i: nat)
      requires i <= |cs| && Distinct(cs) && forall c <- cs :: IsCustom(c.id) && |c.key| <= 1
      ensures Stored(Bindings(map[], Cleared(cs)[..i] + cs[i..]))
    {
      hide IsCustom, IsDefault;
      var w := Cleared(cs)[..i] + cs[i..];
      forall k | 0 <= k < |w|
        ensures w[k].id == cs[k].id && IsCustom(w[k].id) && |w[k].key| <= 1
      {
        assert cs[k] in cs;
      }
    }

    // Whether a custom shortcut's key is someone's: only a default can be.
    lemma Collides(b: Bindings, i: nat, r: Option<string>)
      requires Sound(b) && i < |b.custom|
      requires var w := Cleared(b.custom)[..i] + b.custom[i..];
               Conflict(Bindings(map[], w), b.custom[i].id, b.custom[i].key, r)
      ensures r.Some? <==> IsDefault(b.custom[i].key)
    {
      hide Row, IsCustom;
      var cs, id, s := b.custom, b.custom[i].id, b.custom[i].key;
      var now := Bindings(map[], Cleared(cs)[..i] + cs[i..]);
      assert cs[i] in cs;
      CustomScope(id);
      StoredPartly(cs, i);
      DefaultsRival(now, id);
      if r.Some? {
        if IsCustom(r.value) {
          OtherCustom(b, i, r.value);
        }
      }
    }

    // A custom shortcut's rivals are the main window's commands, each with its default.
    lemma DefaultsRival(b: Bindings, id: string)
      requires b.overrides == map[] && IsCustom(id)
      ensures forall c <- Table() :: c.scope == MainWindow ==> Rival(b, id, c.id) && KeyOf(b, c.id) == c.key
    {
      hide Row, IsCustom;
      TableFacts();
      CustomScope(id);
    }

    // No other custom shortcut has the key.
    lemma OtherCustom(b: Bindings, i: nat, y: string)
      requires Sound(b) && i < |b.custom| && IsCustom(y) && y != b.custom[i].id && b.custom[i].key != []
      requires HasCustom(Cleared(b.custom)[..i] + b.custom[i..], y)
      ensures CustomKey(Cleared(b.custom)[..i] + b.custom[i..], y) != b.custom[i].key
    {
      hide Row, Table, IsCustom, IsDefault, CommandOf, ScopeOf, HasCustom, CustomKey, Cleared;
      var id := b.custom[i].id;
      KeyAt(b.custom, i);
      assert b.custom[i] in b.custom;
      PartKey(b.custom, i, y);
      CustomScope(id);
      CustomScope(y);
      assert Known(b, id) && Rival(b, id, y);
    }

    lemma PartKey(cs: seq<Custom>, i: nat, y: string)
      requires i <= |cs| && Distinct(cs) && (forall c <- cs :: IsCustom(c.id) && |c.key| <= 1)
      requires HasCustom(Cleared(cs)[..i] + cs[i..], y)
      ensures var w := Cleared(cs)[..i] + cs[i..];
              HasCustom(cs, y) && (CustomKey(w, y) == [] || CustomKey(w, y) == CustomKey(cs, y))
    {
      hide IsCustom, IsDefault, CustomKey, Distinct;
      var w := Cleared(cs)[..i] + cs[i..];
      StoredPartly(cs, i);
      var j :| 0 <= j < |w| && w[j].id == y;
      KeyAt(w, j);
      KeyAt(cs, j);
    }

    // One custom shortcut further on.
    lemma NextCleared(cs: seq<Custom>, i: nat)
      requires i < |cs| && Distinct(cs) && forall c <- cs :: IsCustom(c.id)
      ensures var now := Bindings(map[], Cleared(cs)[..i] + cs[i..]);
              var next := Bindings(map[], Cleared(cs)[..i + 1] + cs[i + 1..]);
              next == if IsDefault(cs[i].key) then With(now, cs[i].id, []) else now
    {
      hide IsCustom, IsDefault, CommandOf;
      var w, id := Cleared(cs)[..i] + cs[i..], cs[i].id;
      WithKeyAt(w, id, []);
      assert forall j :: 0 <= j < |cs| && j != i ==> cs[j].id != id;
      assert cs[i] in cs;
    }

    method ClearIfTaken(ghost b: Bindings, c: Custom, ghost i: nat)
      requires Sound(b) && i < |b.custom| && b.custom[i] == c
      requires manager.View() == Bindings(map[], Cleared(b.custom)[..i] + b.custom[i..])
      modifies manager
      ensures manager.View() == Bindings(map[], Cleared(b.custom)[..i + 1] + b.custom[i + 1..])
    {
      hide Table, IsCustom, CommandOf, IsDefault, Cleared, With, Distinct;
      StoredPartly(b.custom, i);
      NextCleared(b.custom, i);
      var other := manager.ConflictingCommand(c.id, c.key);
      Collides(b, i, other);
      if other.Some? {
        manager.SetSequence(c.id, []);
      }
    }

    // A new custom shortcut comes without a key and claims the one wanted; if
    // it cannot have it, it goes again.
    method AddCustom(newId: string, form: Option<Form>, yes: bool)
      requires manager.Valid() && IsCustom(newId) && !HasCustom(manager.custom, newId)
      requires form.Some? ==> |form.value.key| == 1 && IsAcceptable(form.value.key)
      modifies manager
      ensures manager.Valid()
      ensures form.None? ==> manager.View() == old(manager.View())
      ensures form.Some? && yes ==> Known(manager.View(), newId)
      ensures Known(manager.View(), newId) ==>
                && form.Some? && KeyOf(manager.View(), newId) == form.value.key
                && Given(old(manager.View()), manager.View(), newId, form.value.key)
                && Texts(manager.custom) == Texts(old(manager.custom))
                   + [Custom(newId, form.value.name, [], form.value.text, form.value.appendEnter)]
      ensures !Known(manager.View(), newId) ==> manager.View() == old(manager.View())
    {
      hide Table, IsCustom, CommandOf, IsAcceptable, Unique;
      if form.None? {
        return;
      }
      var f := form.value;
      var c := Custom(newId, f.name, [], f.text, f.appendEnter);
      AddKeeps(manager.View(), c);
      AddedDoes(manager.custom, c, newId);
      manager.AddCustom(c);
      ghost var added := manager.View();
      var ok := Assign(newId, f.key, yes);
      GivenAdded(old(manager.View()), c, manager.View(), f.key);
      if !ok {
        RemoveKeeps(added, newId);
        RemovedAdded(old(manager.custom), c);
        manager.RemoveCustom(newId);
      }
    }

    // A key given to a shortcut just added, from what was there before it.
    lemma GivenAdded(b: Bindings, c: Custom, after: Bindings, s: Keys)
      requires !HasCustom(b.custom, c.id) && IsCustom(c.id) && c.key == []
      ensures var added := b.(custom := b.custom + [c]);
              && Texts(added.custom) == Texts(b.custom) + [c]
              && (Given(added, after, c.id, s) ==> Given(b, after, c.id, s) && KeyOf(after, c.id) == FirstChord(s))
    {
      hide IsCustom, CommandOf, ScopeOf;
      var added := b.(custom := b.custom + [c]);
      forall x
        ensures Known(added, x) <==> Known(b, x) || x == c.id
        ensures x != c.id ==> KeyOf(added, x) == KeyOf(b, x)
      {
        AddedDoes(b.custom, c, x);
      }
    }

    lemma {:induction false} RemovedAdded(cs: seq<Custom>, c: Custom)
      requires !HasCustom(cs, c.id)
      ensures Removed(cs + [c], c.id) == cs
      decreases |cs|
    {
      if |cs| > 0 {
        HasFirst(cs, c.id);
        RemovedAdded(cs[1..], c);
        assert (cs + [c])[1..] == cs[1..] + [c];
      }
    }

    // A key that is free or may be taken is given; else all keys stay.
    ghost predicate KeyChanged(before: Bindings, after: Bindings, id: string, s: Keys, yes: bool) {
      if yes || !Taken(before, id, s) then Given(before, after, id, s)
      else forall x :: KeyOf(after, x) == KeyOf(before, x)
    }

    // A change of a custom shortcut: its text at once, its key as any other's.
    method EditSelectedCustom(id: string, form: Option<Form>, yes: bool)
      requires manager.Valid()
      requires form.Some? ==> |form.value.key| == 1 && IsAcceptable(form.value.key)
      modifies manager
      ensures manager.Valid()
      ensures form.None? ==> manager.View() == old(manager.View())
      ensures !HasCustom(old(manager.custom), id) ==> manager.View() == old(manager.View())
      ensures form.Some? && HasCustom(old(manager.custom), id) ==>
                && Texts(manager.custom) == Texts(Replaced(old(manager.custom), FormOf(id, form.value)))
                && KeyChanged(old(manager.View()), manager.View(), id, form.value.key, yes)
    {
      hide Table, IsCustom, CommandOf, IsAcceptable, Unique, Distinct, KeyOf, Given, Texts;
      for i := 0 to |manager.custom|
        invariant manager.View() == old(manager.View())
        invariant forall c <- manager.custom[..i] :: c.id != id
      {
        assert manager.custom[..i + 1] == manager.custom[..i] + [manager.custom[i]];
        if manager.custom[i].id == id {
          if form.Some? {
            ChangeCustom(i, id, form.value, yes);
          }
          return;
        }
      }
      assert manager.custom[..|manager.custom|] == manager.custom;
    }

    method ChangeCustom(i: nat, id: string, f: Form, yes: bool)
      requires manager.Valid() && i < |manager.custom| && manager.custom[i].id == id
      requires |f.key| == 1 && IsAcceptable(f.key)
      modifies manager
      ensures manager.Valid()
      ensures Texts(manager.custom) == Texts(Replaced(old(manager.custom), FormOf(id, f)))
      ensures KeyChanged(old(manager.View()), manager.View(), id, f.key, yes)
    {
      hide Table, IsCustom, CommandOf, IsAcceptable, Unique, Distinct, KeyOf, Given, Known, Texts, Replaced,
        HasCustom, With, Taken;
      ghost var b := manager.View();
      var before := manager.custom[i].key;
      var c := Custom(id, f.name, before, f.text, f.appendEnter);
      ReplacedFacts(b, i, c, f);
      manager.UpdateCustom(c);
      ghost var r := manager.View();
      GivenReplaced(b, c, r, f.key);
      if f.key != before {
        var ok := Assign(id, f.key, yes);
        if ok {
          GivenReplaced(b, c, manager.View(), f.key);
        } else {
          SameKey(r, id, before);
          manager.SetSequence(id, before);
        }
      }
    }

    // The text of a custom shortcut changed, and nothing else.
    lemma ReplacedFacts(b: Bindings, i: nat, c: Custom, f: Form)
      requires Sound(b) && i < |b.custom| && b.custom[i].id == c.id
      requires c == FormOf(c.id, f).(key := b.custom[i].key)
      ensures IsCustom(c.id) && |c.key| <= 1 && CustomKey(b.custom, c.id) == c.key && FirstChord(c.key) == c.key
      ensures var r := b.(custom := Replaced(b.custom, c));
              && Sound(r) && HasCustom(r.custom, c.id) && CustomKey(r.custom, c.id) == c.key
              && (forall x :: KeyOf(r, x) == KeyOf(b, x))
              && Texts(r.custom) == Texts(Replaced(b.custom, FormOf(c.id, f)))
              && (f.key == c.key ==> Given(b, r, c.id, f.key))
    {
      hide Table, CommandOf, IsCustom, Texts;
      assert b.custom[i] in b.custom;
      KeyAt(b.custom, i);
      ReplaceKeeps(b, c);
      ReplacedDoes(b.custom, c, c.id);
      TextsReplaced(b.custom, c, FormOf(c.id, f));
      assert Known(b, c.id) && KeyOf(b, c.id) == c.key;
    }

    lemma {:induction false} TextsReplaced(cs: seq<Custom>, c: Custom, d: Custom)
      requires c.(key := []) == d.(key := [])
      ensures Texts(Replaced(cs, c)) == Texts(Replaced(cs, d))
    {
      hide Texts;
      if |cs| > 0 {
        if cs[0].id == c.id {
          TextsCons(c, cs[1..]);
          TextsCons(d, cs[1..]);
        } else {
          TextsReplaced(cs[1..], c, d);
          TextsCons(cs[0], Replaced(cs[1..], c));
          TextsCons(cs[0], Replaced(cs[1..], d));
        }
      }
    }

    lemma TextsCons(c: Custom, cs: seq<Custom>)
      ensures Texts([c] + cs) == [c.(key := [])] + Texts(cs)
    {
    }

    // A key given after a change of text, from what was there before it.
    lemma GivenReplaced(b: Bindings, c: Custom, after: Bindings, s: Keys)
      requires Sound(b) && IsCustom(c.id) && c.key == CustomKey(b.custom, c.id) && |c.key| <= 1
      ensures Given(b.(custom := Replaced(b.custom, c)), after, c.id, s) ==> Given(b, after, c.id, s)
      ensures Taken(b.(custom := Replaced(b.custom, c)), c.id, s) <==> Taken(b, c.id, s)
    {
      hide Table, CommandOf, IsCustom, ScopeOf;
      var r := b.(custom := Replaced(b.custom, c));
      ReplaceKeeps(b, c);
      forall x
        ensures Known(r, x) <==> Known(b, x)
      {
        ReplacedDoes(b.custom, c, x);
      }
    }

    // Setting the key a command has changes nothing.
    lemma SameKey(b: Bindings, id: string, s: Keys)
      requires Stored(b) && HasCustom(b.custom, id) && IsCustom(id) && CustomKey(b.custom, id) == s && |s| <= 1
      ensures With(b, id, s) == b
    {
      hide IsCustom, CommandOf;
      WithKeyAt(b.custom, id, s);
      forall i | 0 <= i < |b.custom| && b.custom[i].id == id
        ensures b.custom[i].key == s
      {
        KeyAt(b.custom, i);
      }
    }

    method DeleteSelectedCustom(id: string, yes: bool)
      requires manager.Valid()
      modifies manager
      ensures manager.Valid()
      ensures if IsCustom(id) && yes then !Known(manager.View(), id) else manager.View() == old(manager.View())
      ensures forall x :: x != id ==> KeyOf(manager.View(), x) == KeyOf(old(manager.View()), x)
    {
      hide Table, IsCustom, CommandOf, Unique;
      if !IsCustom(id) || !yes {
        return;
      }
      RemoveKeeps(manager.View(), id);
      manager.RemoveCustom(id);
    }
  }
}
