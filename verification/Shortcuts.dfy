// The keys of commands (ShortcutManager): a table of defaults, the user's changes
// on top of it, and custom shortcuts.
module Shortcuts {
  import opened Bytes

  datatype Key = Letter(c: char) | F(n: nat) | Other(code: nat)

  datatype Chord = Chord(ctrl: bool, shift: bool, alt: bool, meta: bool, key: Key)

  // A key sequence; empty for none.
  type Keys = seq<Chord>

  datatype Scope = MainWindow | FileEditor

  datatype Command = Command(id: string, key: Keys, scope: Scope)

  datatype Custom = Custom(id: string, name: string, key: Keys, text: string, appendEnter: bool)

  datatype Bindings = Bindings(overrides: map<string, Keys>, custom: seq<Custom>)

  function Ctrl(k: Key): Chord { Chord(true, false, false, false, k) }

  function CtrlShift(k: Key): Chord { Chord(true, true, false, false, k) }

  function Shift(k: Key): Chord { Chord(false, true, false, false, k) }

  function Plain(k: Key): Chord { Chord(false, false, false, false, k) }

  const ROWS := 22

  function Row(i: nat): (c: Command)
    requires i < ROWS
    ensures |c.key| <= 1
  {
    match i
    case 0 => Command("connection.newLocal", [Ctrl(Letter('T'))], MainWindow)
    case 1 => Command("connection.newSerial", [], MainWindow)
    case 2 => Command("connection.newTelnet", [], MainWindow)
    case 3 => Command("connection.newSsh", [], MainWindow)
    case 4 => Command("connection.newVnc", [], MainWindow)
    case 5 => Command("connection.newRdp", [], MainWindow)
    case 6 => Command("connection.newLoopback", [], MainWindow)
    case 7 => Command("connection.closeTab", [Ctrl(Letter('W'))], MainWindow)
    case 8 => Command("pane.splitRight", [CtrlShift(Letter('R'))], MainWindow)
    case 9 => Command("pane.splitDown", [CtrlShift(Letter('D'))], MainWindow)
    case 10 => Command("pane.close", [CtrlShift(Letter('W'))], MainWindow)
    case 11 => Command("terminal.find", [CtrlShift(Letter('F'))], MainWindow)
    case 12 => Command("terminal.copy", [CtrlShift(Letter('C'))], MainWindow)
    case 13 => Command("terminal.paste", [CtrlShift(Letter('V'))], MainWindow)
    case 14 => Command("terminal.clearBuffer", [], MainWindow)
    case 15 => Command("terminal.clearScreen", [], MainWindow)
    case 16 => Command("terminal.log", [], MainWindow)
    case 17 => Command("editor.save", [Ctrl(Letter('S'))], FileEditor)
    case 18 => Command("editor.close", [Ctrl(Letter('W'))], FileEditor)
    case 19 => Command("editor.find", [Ctrl(Letter('F'))], FileEditor)
    case 20 => Command("editor.findNext", [Plain(F(3))], FileEditor)
    case _ => Command("editor.findPrevious", [Shift(F(3))], FileEditor)
  }

  function Table(): seq<Command> { seq(ROWS, i requires 0 <= i < ROWS => Row(i)) }

  function FirstChord(s: Keys): (r: Keys)
    ensures |r| <= 1 && (|s| <= 1 ==> r == s)
  {
    if |s| == 0 then [] else [s[0]]
  }

  predicate IsCustom(id: string) { |id| >= 7 && id[..7] == "custom." }

  // A bare or shifted letter would stop the user typing.
  predicate IsAcceptable(s: Keys) {
    |s| == 0 || s[0].ctrl || s[0].alt || s[0].meta || (s[0].key.F? && 1 <= s[0].key.n <= 35)
  }

  function FindIn(t: seq<Command>, id: string): (r: Option<Command>)
    ensures r.Some? ==> r.value in t && r.value.id == id
    ensures r.None? ==> forall c <- t :: c.id != id
  {
    if |t| == 0 then None else if t[0].id == id then Some(t[0]) else FindIn(t[1..], id)
  }

  function CommandOf(id: string): (r: Option<Command>)
    ensures r.Some? ==> r.value in Table() && r.value.id == id
  {
    FindIn(Table(), id)
  }

  function CustomKey(cs: seq<Custom>, id: string): Keys {
    if |cs| == 0 then [] else if cs[0].id == id then cs[0].key else CustomKey(cs[1..], id)
  }

  // The key in effect.
  function KeyOf(b: Bindings, id: string): Keys {
    if IsCustom(id) then CustomKey(b.custom, id)
    else if id in b.overrides then b.overrides[id]
    else if CommandOf(id).Some? then CommandOf(id).value.key
    else []
  }

  function ScopeOf(id: string): Scope { if CommandOf(id).Some? then CommandOf(id).value.scope else MainWindow }

  ghost predicate HasCustom(cs: seq<Custom>, id: string) { exists c <- cs :: c.id == id }

  ghost predicate Known(b: Bindings, id: string) {
    if IsCustom(id) then HasCustom(b.custom, id) else CommandOf(id).Some?
  }

  // The commands a key of `id` could collide with.
  ghost predicate Rival(b: Bindings, id: string, x: string) { Known(b, x) && x != id && ScopeOf(x) == ScopeOf(id) }

  // No key has two commands in one scope.
  ghost predicate Unique(b: Bindings) {
    forall x, y :: Known(b, x) && Rival(b, x, y) && KeyOf(b, x) != [] ==> KeyOf(b, y) != KeyOf(b, x)
  }

  ghost predicate Distinct(cs: seq<Custom>) { forall i, j :: 0 <= i < j < |cs| ==> cs[i].id != cs[j].id }

  // What is stored: single chords, for custom shortcuts one of each, for
  // commands of the table only what differs from the default.
  ghost predicate Stored(b: Bindings) {
    && Distinct(b.custom)
    && (forall c <- b.custom :: IsCustom(c.id) && |c.key| <= 1)
    && (forall id <- b.overrides :: |b.overrides[id]| <= 1 && CommandOf(id).Some?
          && CommandOf(id).value.key != b.overrides[id])
  }

  ghost predicate Sound(b: Bindings) { Stored(b) && Unique(b) }

  // ---- The table

  // Tells the table's names apart.
  function Tag(s: string): int
    requires |s| > 0
  {
    |s| * 1000000 + s[0] as int * 1000 + s[|s| - 1] as int
  }

  ghost function RowTagged(tag: int): int {
    match tag
    case 19099108 => 0
    case 20099108 => 1
    case 20099116 => 2
    case 17099104 => 3
    case 17099099 => 4
    case 17099112 => 5
    case 22099107 => 6
    case 19099098 => 7
    case 15112116 => 8
    case 14112110 => 9
    case 10112101 => 10
    case 13116100 => 11
    case 13116121 => 12
    case 14116101 => 13
    case 20116114 => 14
    case 20116110 => 15
    case 12116103 => 16
    case 11101101 => 17
    case 12101101 => 18
    case 11101100 => 19
    case 15101116 => 20
    case 19101115 => 21
    case _ => -1
  }

  ghost function TagAt(i: nat): int {
    match i
    case 0 => 19099108
    case 1 => 20099108
    case 2 => 20099116
    case 3 => 17099104
    case 4 => 17099099
    case 5 => 17099112
    case 6 => 22099107
    case 7 => 19099098
    case 8 => 15112116
    case 9 => 14112110
    case 10 => 10112101
    case 11 => 13116100
    case 12 => 13116121
    case 13 => 14116101
    case 14 => 20116114
    case 15 => 20116110
    case 16 => 12116103
    case 17 => 11101101
    case 18 => 12101101
    case 19 => 11101100
    case 20 => 15101116
    case 21 => 19101115
    case _ => -1
  }

  // The row a key belongs to.
  ghost function Holder(scope: Scope, c: Chord): int {
    if scope == MainWindow && c == Ctrl(Letter('T')) then 0
    else if scope == MainWindow && c == Ctrl(Letter('W')) then 7
    else if scope == MainWindow && c == CtrlShift(Letter('R')) then 8
    else if scope == MainWindow && c == CtrlShift(Letter('D')) then 9
    else if scope == MainWindow && c == CtrlShift(Letter('W')) then 10
    else if scope == MainWindow && c == CtrlShift(Letter('F')) then 11
    else if scope == MainWindow && c == CtrlShift(Letter('C')) then 12
    else if scope == MainWindow && c == CtrlShift(Letter('V')) then 13
    else if scope == FileEditor && c == Ctrl(Letter('S')) then 17
    else if scope == FileEditor && c == Ctrl(Letter('W')) then 18
    else if scope == FileEditor && c == Ctrl(Letter('F')) then 19
    else if scope == FileEditor && c == Plain(F(3)) then 20
    else if scope == FileEditor && c == Shift(F(3)) then 21
    else -1
  }

  lemma RowNames(i: nat)
    requires i < ROWS
    ensures var c := Row(i); |c.id| > 1 && c.id[1] != 'u' && RowTagged(Tag(c.id)) == i
  {
    hide Tag, RowTagged, TagAt;
    var id := Row(i).id;
    assert |id| > 1 && id[1] != 'u';
    TagOf(i);
    TagOfRow(i);
  }

  lemma TagOf(i: nat)
    requires i < ROWS
    ensures Tag(Row(i).id) == TagAt(i)
  {
    hide Tag, TagAt, Row;
    if i < 11 {
      TagOfFirst(i);
    } else {
      TagOfLast(i);
    }
  }

  lemma TagOfFirst(i: nat)
    requires i < 11
    ensures Tag(Row(i).id) == TagAt(i)
  {
  }

  lemma TagOfLast(i: nat)
    requires 11 <= i < ROWS
    ensures Tag(Row(i).id) == TagAt(i)
  {
  }

  lemma TagOfRow(i: nat)
    requires i < ROWS
    ensures RowTagged(TagAt(i)) == i
  {
  }

  lemma RowKeys(i: nat)
    requires i < ROWS
    ensures var c := Row(i); c.key != [] ==> Holder(c.scope, c.key[0]) == i
  {
  }

  lemma TableFacts()
    ensures forall c <- Table() :: !IsCustom(c.id) && CommandOf(c.id) == Some(c)
    ensures forall c, d :: c in Table() && d in Table() && c.id != d.id && c.scope == d.scope && c.key != []
              ==> d.key != c.key
  {
    hide Row, RowTagged, Tag, Holder;
    var t := Table();
    assert "custom."[1] == 'u';
    forall i | 0 <= i < ROWS
      ensures |t[i].id| > 1 && RowTagged(Tag(t[i].id)) == i && !IsCustom(t[i].id)
      ensures t[i].key != [] ==> Holder(t[i].scope, t[i].key[0]) == i
    {
      RowNames(i);
      RowKeys(i);
      assert t[i].id[..2][1] == t[i].id[1];
    }
    forall c <- t
      ensures CommandOf(c.id) == Some(c)
    {
    }
  }

  // Each default key is that of its one holder, and the first seventeen
  // commands are the main window's.
  lemma DefaultKeys(scope: Scope, c: Chord, i: nat)
    requires i < ROWS
    ensures Row(i).scope == if i < 17 then MainWindow else FileEditor
    ensures Row(i).scope == scope && Row(i).key == [c] <==> Holder(scope, c) == i
  {
    hide Holder;
    if Row(i).key != [] {
      RowKeys(i);
    }
    if Holder(scope, c) == i {
      HeldKey(scope, c);
    }
  }

  lemma HeldKey(scope: Scope, c: Chord)
    requires Holder(scope, c) >= 0
    ensures var i := Holder(scope, c); i < ROWS && Row(i).scope == scope && Row(i).key == [c]
  {
  }

  // With Ctrl, Alt or Meta any key will do; without, only a function key, from
  // F1 to F35, will, whether shifted or not.
  lemma AcceptableIff(shift: bool, k: Key, ctrl: bool, alt: bool, meta: bool)
    ensures var s := [Chord(ctrl, shift, alt, meta, k)];
            IsAcceptable(s) <==> (exists n: nat :: 0 < n < 36 && k == F(n)) || ctrl || alt || meta
    ensures IsAcceptable([])
    ensures forall s: Keys :: s != [] ==> (IsAcceptable(s) <==> IsAcceptable([s[0]]))
  {
    if k.F? {
      assert 0 < k.n < 36 ==> k == F(k.n);
    }
  }

  // A default can always be asked for.
  lemma DefaultsAcceptable()
    ensures forall c <- Table() :: IsAcceptable(c.key)
  {
    forall c <- Table()
      ensures IsAcceptable(c.key)
    {
      var i :| 0 <= i < ROWS && Row(i) == c;
    }
  }

  // ---- Changing a key

  function WithKey(cs: seq<Custom>, id: string, s: Keys): seq<Custom> {
    if |cs| == 0 then [] else [if cs[0].id == id then cs[0].(key := s) else cs[0]] + WithKey(cs[1..], id, s)
  }

  // A key that is the default again is not stored.
  function With(b: Bindings, id: string, requested: Keys): Bindings {
    var s := FirstChord(requested);
    if IsCustom(id) then b.(custom := WithKey(b.custom, id, s))
    else match CommandOf(id)
      case None => b
      case Some(c) => b.(overrides := if s == c.key then b.overrides - {id} else b.overrides[id := s])
  }

  lemma HasFirst(cs: seq<Custom>, x: string)
    requires |cs| > 0
    ensures HasCustom(cs, x) <==> cs[0].id == x || HasCustom(cs[1..], x)
  {
    if HasCustom(cs, x) && cs[0].id != x {
      var c :| c in cs && c.id == x;
      assert c in cs[1..];
    }
  }

  lemma {:induction false} WithKeyDoes(cs: seq<Custom>, id: string, s: Keys, x: string)
    ensures var w := WithKey(cs, id, s);
            && (HasCustom(w, x) <==> HasCustom(cs, x))
            && CustomKey(w, x) == if x == id && HasCustom(cs, x) then s else CustomKey(cs, x)
  {
    if |cs| > 0 {
      var w := WithKey(cs, id, s);
      WithKeyDoes(cs[1..], id, s, x);
      HasFirst(cs, x);
      HasFirst(w, x);
      assert w[1..] == WithKey(cs[1..], id, s);
    }
  }

  lemma {:induction false} WithKeyAt(cs: seq<Custom>, id: string, s: Keys)
    ensures var w := WithKey(cs, id, s);
            |w| == |cs| && forall i :: 0 <= i < |cs| ==> w[i] == if cs[i].id == id then cs[i].(key := s) else cs[i]
  {
    if |cs| > 0 {
      WithKeyAt(cs[1..], id, s);
    }
  }

  // The command's key is the first chord asked for; every other key stays.
  lemma KeyAfter(b: Bindings, id: string, s: Keys, x: string)
    ensures Known(With(b, id, s), x) <==> Known(b, x)
    ensures KeyOf(With(b, id, s), x) ==
            if x == id && Known(b, id) then (if s == [] then [] else [s[0]]) else KeyOf(b, x)
  {
    hide CommandOf, IsCustom, WithKey, CustomKey, HasCustom;
    WithKeyDoes(b.custom, id, FirstChord(s), x);
  }

  lemma StoredAfter(b: Bindings, id: string, s: Keys)
    requires Stored(b)
    ensures Stored(With(b, id, s))
  {
    hide CommandOf, IsCustom;
    WithKeyAt(b.custom, id, FirstChord(s));
  }

  // What the custom shortcuts type, whatever their keys.
  ghost function Texts(cs: seq<Custom>): (r: seq<Custom>)
    ensures |r| == |cs|
  {
    seq(|cs|, i requires 0 <= i < |cs| => cs[i].(key := []))
  }

  lemma TextsStay(b: Bindings, id: string, s: Keys)
    ensures Texts(With(b, id, s).custom) == Texts(b.custom)
  {
    hide IsCustom, CommandOf;
    WithKeyAt(b.custom, id, FirstChord(s));
  }

  // The command is given the key: whoever had it has none, all others keep theirs.
  ghost predicate Given(before: Bindings, after: Bindings, id: string, s: Keys) {
    && (Known(before, id) ==> KeyOf(after, id) == FirstChord(s))
    && forall x {:trigger KeyOf(after, x)} :: x != id ==>
         KeyOf(after, x) == if s != [] && Rival(before, id, x) && KeyOf(before, x) == s then [] else KeyOf(before, x)
  }

  // ---- Finding who has a key

  ghost predicate Conflict(b: Bindings, id: string, s: Keys, r: Option<string>) {
    match r
    case None => s == [] || forall y :: Rival(b, id, y) ==> KeyOf(b, y) != s
    case Some(o) => s != [] && Rival(b, id, o) && KeyOf(b, o) == s
  }

  // Someone else has the key.
  ghost predicate Taken(b: Bindings, id: string, s: Keys) { s != [] && exists y :: Rival(b, id, y) && KeyOf(b, y) == s }

  // Asked for, a key that is acceptable is given if it is free or may be taken;
  // else nothing changes.
  ghost predicate Asked(before: Bindings, after: Bindings, id: string, s: Keys, yes: bool) {
    if IsAcceptable(s) && (yes || !Taken(before, id, s)) then
      Given(before, after, id, s) && Texts(after.custom) == Texts(before.custom)
    else after == before
  }

  lemma TakenIff(b: Bindings, id: string, s: Keys, r: Option<string>)
    requires Conflict(b, id, s, r)
    ensures Taken(b, id, s) <==> r.Some?
  {
    hide Known, KeyOf, ScopeOf;
  }

  // Giving a command a key leaves no key with two commands exactly when no one
  // has its first chord, the part that is kept.
  lemma GivingKeepsUniqueIff(b: Bindings, id: string, s: Keys)
    requires Unique(b) && Known(b, id)
    ensures Unique(With(b, id, s)) <==> !Taken(b, id, FirstChord(s))
  {
    hide With, Known, KeyOf, ScopeOf;
    var after := With(b, id, s);
    KeyAfter(b, id, s, id);
    if y :| s != [] && Rival(b, id, y) && KeyOf(b, y) == FirstChord(s) {
      KeyAfter(b, id, s, y);
      assert Rival(after, id, y);
    } else {
      FreeKeepsUnique(b, id, s);
    }
  }

  lemma FreeKeepsUnique(b: Bindings, id: string, s: Keys)
    requires Unique(b) && !Taken(b, id, FirstChord(s))
    ensures Unique(With(b, id, s))
  {
    hide With, Known, KeyOf, ScopeOf;
    var after := With(b, id, s);
    forall x, y | Known(after, x) && Rival(after, x, y) && KeyOf(after, x) != []
      ensures KeyOf(after, y) != KeyOf(after, x)
    {
      KeyAfter(b, id, s, x);
      KeyAfter(b, id, s, y);
      assert Known(b, x) && Rival(b, x, y) && Rival(b, y, x);
    }
  }

  // The first chord is checked for, or all there is.
  ghost predicate Checked(b: Bindings, id: string, s: Keys) {
    |s| <= 1 || !Known(b, id) || !Taken(b, id, FirstChord(s))
  }

  // Taking a key from whoever has the whole of it and then giving it keeps keys
  // unique exactly when it is one chord, or its first chord was free.
  lemma AssignKeepsUniqueIff(b: Bindings, id: string, s: Keys, r: Option<string>)
    requires Sound(b) && Conflict(b, id, s, r)
    ensures Unique(With(if r.Some? then With(b, r.value, []) else b, id, s)) <==> Checked(b, id, s)
  {
    hide With, Known, KeyOf, ScopeOf, Stored;
    if |s| <= 1 {
      AssignKeepsUnique(b, id, s, r);
    } else {
      if r.Some? {
        SingleChords(b, r.value);
        assert false;
      }
      if Known(b, id) {
        GivingKeepsUniqueIff(b, id, s);
      } else {
        UnknownStays(b, id, s);
      }
    }
  }

  lemma UnknownStays(b: Bindings, id: string, s: Keys)
    requires Unique(b) && !Known(b, id)
    ensures Unique(With(b, id, s))
  {
    hide With, KeyOf, ScopeOf, Known;
    var after := With(b, id, s);
    forall x, y | Known(after, x) && Rival(after, x, y) && KeyOf(after, x) != []
      ensures KeyOf(after, y) != KeyOf(after, x)
    {
      KeyAfter(b, id, s, x);
      KeyAfter(b, id, s, y);
      assert Rival(b, x, y);
    }
  }

  // Taking a key from its holder first, then giving it, gives it one holder.
  lemma AssignKeepsUnique(b: Bindings, id: string, s: Keys, r: Option<string>)
    requires Unique(b) && |s| <= 1 && Conflict(b, id, s, r)
    ensures Unique(With(if r.Some? then With(b, r.value, []) else b, id, s))
  {
    hide With, Known, KeyOf, ScopeOf, FirstChord;
    var freed := if r.Some? then With(b, r.value, []) else b;
    var after := With(freed, id, s);
    assert FirstChord(s) == s && FirstChord([]) == [];
    forall x, y | Known(after, x) && Rival(after, x, y) && KeyOf(after, x) != []
      ensures KeyOf(after, y) != KeyOf(after, x)
    {
      KeyAfter(freed, id, s, x);
      KeyAfter(freed, id, s, y);
      if r.Some? {
        KeyAfter(b, r.value, [], x);
        KeyAfter(b, r.value, [], y);
        KeyAfter(b, r.value, [], id);
      }
      assert Known(b, x) && Rival(b, x, y) && Rival(b, y, x);
    }
  }

  // Two chords slip past the search for their holder: no one has the whole of
  // them, but the first is kept.
  lemma TwoChordsCollide()
    ensures var b, s := Bindings(map[], []), [CtrlShift(Letter('D')), Ctrl(Letter('X'))];
            && Unique(b) && Conflict(b, "pane.splitRight", s, None)
            && !Unique(With(b, "pane.splitRight", s))
  {
    hide Row, Table, CommandOf, IsCustom, ScopeOf, With;
    var b, s := Bindings(map[], []), [CtrlShift(Letter('D')), Ctrl(Letter('X'))];
    DefaultsAreSound();
    SplitRows();
    var x, y := "pane.splitRight", "pane.splitDown";
    var after := With(b, x, s);
    KeyAfter(b, x, s, x);
    KeyAfter(b, x, s, y);
    assert Rival(after, x, y);
    forall z | Rival(b, x, z)
      ensures KeyOf(b, z) != s
    {
      SingleChords(b, z);
    }
  }

  lemma SplitRows()
    ensures var x, y := "pane.splitRight", "pane.splitDown";
            && x != y && ScopeOf(x) == ScopeOf(y) && !IsCustom(x) && !IsCustom(y)
            && CommandOf(x).Some? && CommandOf(y) == Some(Command(y, [CtrlShift(Letter('D'))], MainWindow))
  {
    hide Row, Table, CommandOf, IsCustom;
    RowFound(8);
    RowFound(9);
    RowsEightAndNine();
    assert |"pane.splitRight"| != |"pane.splitDown"|;
  }

  lemma RowsEightAndNine()
    ensures Row(8) == Command("pane.splitRight", [CtrlShift(Letter('R'))], MainWindow)
    ensures Row(9) == Command("pane.splitDown", [CtrlShift(Letter('D'))], MainWindow)
  {
  }

  lemma RowFound(i: nat)
    requires i < ROWS
    ensures CommandOf(Row(i).id) == Some(Row(i)) && !IsCustom(Row(i).id)
  {
    hide Row;
    TableFacts();
    assert Table()[i] in Table();
  }

  lemma SingleChords(b: Bindings, x: string)
    requires Stored(b) && Known(b, x)
    ensures |KeyOf(b, x)| <= 1
  {
    hide Row;
    if IsCustom(x) {
      CustomKeyFrom(b.custom, x);
    }
  }

  lemma {:induction false} CustomKeyFrom(cs: seq<Custom>, x: string)
    requires HasCustom(cs, x)
    ensures exists c <- cs :: c.id == x && c.key == CustomKey(cs, x)
  {
    HasFirst(cs, x);
    if cs[0].id != x {
      CustomKeyFrom(cs[1..], x);
      var c :| c in cs[1..] && c.id == x && c.key == CustomKey(cs[1..], x);
      assert c in cs;
    }
  }

  // ---- Defaults

  lemma DefaultsAreSound()
    ensures Sound(Bindings(map[], []))
  {
    hide Row;
    TableFacts();
  }

  // ---- Custom shortcuts and resets

  // Fewer keys have no more collisions.
  lemma UniqueKept(b: Bindings, after: Bindings)
    requires Unique(b)
    requires forall x {:trigger Known(after, x)} {:trigger KeyOf(after, x)} ::
               Known(after, x) && KeyOf(after, x) != [] ==> Known(b, x) && KeyOf(after, x) == KeyOf(b, x)
    ensures Unique(after)
  {
    hide Known, KeyOf, ScopeOf;
    forall x, y | Known(after, x) && Rival(after, x, y) && KeyOf(after, x) != []
      ensures KeyOf(after, y) != KeyOf(after, x)
    {
      assert KeyOf(after, y) == KeyOf(after, x) ==> Rival(b, x, y);
    }
  }

  function Replaced(cs: seq<Custom>, c: Custom): seq<Custom> {
    if |cs| == 0 then [] else if cs[0].id == c.id then [c] + cs[1..] else [cs[0]] + Replaced(cs[1..], c)
  }

  function Removed(cs: seq<Custom>, id: string): seq<Custom> {
    if |cs| == 0 then [] else if cs[0].id == id then cs[1..] else [cs[0]] + Removed(cs[1..], id)
  }

  lemma DistinctRest(cs: seq<Custom>)
    requires Distinct(cs) && |cs| > 0
    ensures Distinct(cs[1..]) && !HasCustom(cs[1..], cs[0].id)
  {
    forall c <- cs[1..]
      ensures c.id != cs[0].id
    {
      var i :| 0 <= i < |cs[1..]| && cs[1..][i] == c;
      assert cs[i + 1] == c;
    }
  }

  lemma DistinctCons(c: Custom, cs: seq<Custom>)
    requires Distinct(cs) && !HasCustom(cs, c.id)
    ensures Distinct([c] + cs)
  {
    assert forall k :: 0 <= k < |cs| ==> cs[k] in cs && cs[k].id != c.id;
  }

  lemma {:induction false} ReplacedDoes(cs: seq<Custom>, c: Custom, x: string)
    requires Distinct(cs)
    ensures var w := Replaced(cs, c);
            && Distinct(w) && (HasCustom(w, x) <==> HasCustom(cs, x))
            && CustomKey(w, x) == if x == c.id && HasCustom(cs, x) then c.key else CustomKey(cs, x)
    ensures forall d :: d in Replaced(cs, c) ==> d in cs || (d == c && HasCustom(cs, c.id))
    decreases |cs|
  {
    if |cs| > 0 {
      DistinctRest(cs);
      HasFirst(cs, x);
      HasFirst(cs, c.id);
      HasFirst(Replaced(cs, c), x);
      if cs[0].id == c.id {
        DistinctCons(c, cs[1..]);
      } else {
        ReplacedDoes(cs[1..], c, x);
        ReplacedDoes(cs[1..], c, cs[0].id);
        DistinctCons(cs[0], Replaced(cs[1..], c));
        assert Replaced(cs, c)[1..] == Replaced(cs[1..], c);
      }
    }
  }

  lemma {:induction false} RemovedDoes(cs: seq<Custom>, id: string, x: string)
    requires Distinct(cs)
    ensures var w := Removed(cs, id);
            && Distinct(w) && (HasCustom(w, x) <==> HasCustom(cs, x) && x != id)
            && (x != id ==> CustomKey(w, x) == CustomKey(cs, x))
    ensures forall d :: d in Removed(cs, id) ==> d in cs
    decreases |cs|
  {
    if |cs| > 0 {
      DistinctRest(cs);
      HasFirst(cs, x);
      if cs[0].id != id {
        HasFirst(Removed(cs, id), x);
        RemovedDoes(cs[1..], id, x);
        RemovedDoes(cs[1..], id, cs[0].id);
        DistinctCons(cs[0], Removed(cs[1..], id));
        assert Removed(cs, id)[1..] == Removed(cs[1..], id);
      }
    }
  }

  lemma {:induction false} AddedDoes(cs: seq<Custom>, c: Custom, x: string)
    requires !HasCustom(cs, c.id)
    ensures HasCustom(cs + [c], x) <==> HasCustom(cs, x) || x == c.id
    ensures CustomKey(cs + [c], x) == if x == c.id then c.key else CustomKey(cs, x)
    decreases |cs|
  {
    HasFirst(cs + [c], x);
    if |cs| > 0 {
      HasFirst(cs, x);
      HasFirst(cs, c.id);
      AddedDoes(cs[1..], c, x);
      assert (cs + [c])[1..] == cs[1..] + [c];
    } else {
      assert (cs + [c])[1..] == [];
    }
  }

  // A custom shortcut with no key, another text for one with the same key, one
  // gone: none of these brings a collision.
  lemma AddKeeps(b: Bindings, c: Custom)
    requires Sound(b) && IsCustom(c.id) && !HasCustom(b.custom, c.id) && c.key == []
    ensures Sound(b.(custom := b.custom + [c]))
  {
    hide CommandOf, IsCustom;
    var after := b.(custom := b.custom + [c]);
    forall x
      ensures HasCustom(after.custom, x) <==> HasCustom(b.custom, x) || x == c.id
      ensures CustomKey(after.custom, x) == if x == c.id then c.key else CustomKey(b.custom, x)
    {
      AddedDoes(b.custom, c, x);
    }
    assert forall k :: 0 <= k < |b.custom| ==> b.custom[k] in b.custom;
    UniqueKept(b, after);
  }

  lemma ReplaceKeeps(b: Bindings, c: Custom)
    requires Sound(b) && IsCustom(c.id) && c.key == CustomKey(b.custom, c.id) && |c.key| <= 1
    ensures Sound(b.(custom := Replaced(b.custom, c)))
    ensures forall x :: KeyOf(b.(custom := Replaced(b.custom, c)), x) == KeyOf(b, x)
  {
    hide CommandOf, IsCustom;
    var after := b.(custom := Replaced(b.custom, c));
    forall x
      ensures HasCustom(after.custom, x) <==> HasCustom(b.custom, x)
      ensures CustomKey(after.custom, x) == CustomKey(b.custom, x)
    {
      ReplacedDoes(b.custom, c, x);
    }
    ReplacedDoes(b.custom, c, c.id);
    UniqueKept(b, after);
  }

  lemma RemoveKeeps(b: Bindings, id: string)
    requires Sound(b) && IsCustom(id)
    ensures var after := b.(custom := Removed(b.custom, id));
            && Sound(after) && !Known(after, id)
            && forall x :: x != id ==> KeyOf(after, x) == KeyOf(b, x)
  {
    hide CommandOf, IsCustom;
    var after := b.(custom := Removed(b.custom, id));
    forall x
      ensures HasCustom(after.custom, x) <==> HasCustom(b.custom, x) && x != id
      ensures x != id ==> CustomKey(after.custom, x) == CustomKey(b.custom, x)
    {
      RemovedDoes(b.custom, id, x);
    }
    RemovedDoes(b.custom, id, id);
    UniqueKept(b, after);
  }

  // A key that is a main-window default.
  ghost predicate IsDefault(s: Keys) { s != [] && exists c <- Table() :: c.scope == MainWindow && c.key == s }

  // Custom shortcuts after a reset: those on a default lose their key.
  ghost function Cleared(cs: seq<Custom>): (r: seq<Custom>)
    ensures |r| == |cs|
  {
    seq(|cs|, i requires 0 <= i < |cs| => if IsDefault(cs[i].key) then cs[i].(key := []) else cs[i])
  }

  lemma {:induction false} KeyAt(cs: seq<Custom>, i: nat)
    requires Distinct(cs) && i < |cs|
    ensures CustomKey(cs, cs[i].id) == cs[i].key && HasCustom(cs, cs[i].id)
    decreases |cs|
  {
    assert cs[i] in cs;
    if i > 0 {
      DistinctRest(cs);
      KeyAt(cs[1..], i - 1);
    }
  }

  lemma ResetKeeps(b: Bindings)
    requires Sound(b)
    ensures Sound(Bindings(map[], Cleared(b.custom)))
  {
    hide Row, CommandOf, IsCustom, IsDefault;
    var cs, after := b.custom, Bindings(map[], Cleared(b.custom));
    var w := after.custom;
    assert Distinct(w) && forall k :: 0 <= k < |w| ==> IsCustom(w[k].id) && w[k].id == cs[k].id by {
      assert forall k :: 0 <= k < |cs| ==> cs[k] in cs;
    }
    forall x, y | Known(after, x) && Rival(after, x, y) && KeyOf(after, x) != []
      ensures KeyOf(after, y) != KeyOf(after, x)
    {
      if IsCustom(x) && IsCustom(y) {
        TwoCustoms(b, x, y);
      } else if IsCustom(x) {
        CustomVersusDefault(b, x, y);
      } else if IsCustom(y) {
        CustomVersusDefault(b, y, x);
      } else {
        TableFacts();
      }
    }
  }

  lemma ClearedKey(cs: seq<Custom>, x: string)
    requires Distinct(cs) && Distinct(Cleared(cs)) && HasCustom(Cleared(cs), x)
    ensures HasCustom(cs, x)
    ensures var k := CustomKey(cs, x); CustomKey(Cleared(cs), x) == if IsDefault(k) then [] else k
  {
    hide IsDefault;
    var w := Cleared(cs);
    var i :| 0 <= i < |w| && w[i].id == x;
    KeyAt(w, i);
    KeyAt(cs, i);
  }

  lemma TwoCustoms(b: Bindings, x: string, y: string)
    requires Sound(b) && IsCustom(x) && IsCustom(y) && x != y
    requires HasCustom(Cleared(b.custom), x) && HasCustom(Cleared(b.custom), y) && Distinct(Cleared(b.custom))
    ensures var w := Cleared(b.custom); CustomKey(w, x) != [] ==> CustomKey(w, y) != CustomKey(w, x)
  {
    hide Row, Table, CommandOf, IsCustom, IsDefault, ScopeOf, Cleared, CustomKey, HasCustom;
    ClearedKey(b.custom, x);
    ClearedKey(b.custom, y);
    CustomScope(x);
    CustomScope(y);
    assert Known(b, x) && Rival(b, x, y);
  }

  lemma CustomScope(x: string)
    requires IsCustom(x)
    ensures CommandOf(x).None? && ScopeOf(x) == MainWindow
  {
    hide Row;
    TableFacts();
  }

  lemma CustomVersusDefault(b: Bindings, x: string, y: string)
    requires Sound(b) && IsCustom(x) && !IsCustom(y) && CommandOf(y).Some? && ScopeOf(y) == ScopeOf(x)
    requires HasCustom(Cleared(b.custom), x) && Distinct(Cleared(b.custom))
    ensures var w := Cleared(b.custom); CustomKey(w, x) != [] ==> CommandOf(y).value.key != CustomKey(w, x)
  {
    hide Row, CommandOf, Cleared, CustomKey, HasCustom;
    ClearedKey(b.custom, x);
    CustomScope(x);
  }
}
