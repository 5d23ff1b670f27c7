// The tree of remote files (SftpModel): nodes that point to their parent and
// their children, and what makes full paths tell them apart.
module SftpTree {
  import opened Bytes

  // A node; parent and children are the identities of other nodes.
  datatype Node = Node(
    name: string, path: string, isDirectory: bool, size: nat, modified: nat,
    parent: Option<nat>, children: seq<nat>, loaded: bool, loading: bool)

  datatype Entry = Entry(name: string, isDirectory: bool, size: nat, modified: nat)

  datatype Tree = Tree(nodes: map<nat, Node>, root: nat)

  function JoinPath(dir: string, name: string): (r: string)
    ensures |r| >= |dir| + |name|
  {
    if |dir| > 0 && dir[|dir| - 1] == '/' then dir + name else dir + "/" + name
  }

  ghost predicate GoodName(s: string) { |s| > 0 && '/' !in s }

  // ---- The shape

  ghost predicate Linked(t: Tree, n: nat)
    requires n in t.nodes
  {
    var x := t.nodes[n];
    if n == t.root then x.parent.None?
    else
      && x.parent.Some? && x.parent.value in t.nodes && x.parent.value < n
      && n in t.nodes[x.parent.value].children
      && GoodName(x.name) && x.path == JoinPath(t.nodes[x.parent.value].path, x.name)
  }

  ghost predicate Child(t: Tree, n: nat, c: nat) { c in t.nodes && c != t.root && t.nodes[c].parent == Some(n) }

  ghost function NameOf(t: Tree, n: nat): string { if n in t.nodes then t.nodes[n].name else "" }

  ghost predicate NamesApart(t: Tree, kids: seq<nat>) {
    forall i, j :: 0 <= i < j < |kids| ==> NameOf(t, kids[i]) != NameOf(t, kids[j])
  }

  ghost predicate Children(t: Tree, n: nat)
    requires n in t.nodes
  {
    (forall c <- t.nodes[n].children :: Child(t, n, c)) && NamesApart(t, t.nodes[n].children)
  }

  lemma NamesStay(t: Tree, u: Tree, kids: seq<nat>)
    requires NamesApart(t, kids) && forall c <- kids :: NameOf(u, c) == NameOf(t, c)
    ensures NamesApart(u, kids)
  {
    hide NameOf;
  }

  lemma NamesOfSome(t: Tree, kids: seq<nat>, some: seq<nat>)
    requires NamesApart(t, kids) && (forall c <- some :: c in kids) && forall i, j :: 0 <= i < j < |some|
                                                                         ==> some[i] != some[j]
    ensures NamesApart(t, some)
  {
    hide NameOf;
    forall i, j | 0 <= i < j < |some|
      ensures NameOf(t, some[i]) != NameOf(t, some[j])
    {
      assert some[i] in some && some[j] in some;
      assert some[i] in kids && some[j] in kids;
      var k :| 0 <= k < |kids| && kids[k] == some[i];
      var l :| 0 <= l < |kids| && kids[l] == some[j];
    }
  }

  lemma NamesWithOne(t: Tree, kids: seq<nat>, id: nat)
    requires NamesApart(t, kids) && forall c <- kids :: NameOf(t, c) != NameOf(t, id)
    ensures NamesApart(t, kids + [id])
  {
    hide NameOf;
  }

  // Parents and children point to each other, children come after their
  // parents, siblings have names of their own.
  ghost predicate Shaped(t: Tree) { t.root in t.nodes && forall n <- t.nodes :: Linked(t, n) && Children(t, n) }

  // The index from paths to nodes is that of the tree: every node is found
  // under its path, and nothing else is found.
  ghost predicate Indexed(t: Tree, byPath: map<string, nat>) {
    && (forall n <- t.nodes :: t.nodes[n].path in byPath && byPath[t.nodes[n].path] == n)
    && (forall k <- byPath :: byPath[k] in t.nodes && t.nodes[byPath[k]].path == k)
  }

  ghost predicate PathsDiffer(t: Tree) {
    forall m, n :: m in t.nodes && n in t.nodes && t.nodes[m].path == t.nodes[n].path ==> m == n
  }

  // ---- Full paths

  lemma LastSlash(a: string, m: string, b: string, n: string)
    requires GoodName(m) && GoodName(n) && a + "/" + m == b + "/" + n
    ensures a == b && m == n
  {
    TailIs(a, m);
    TailIs(b, n);
    var s := a + "/" + m;
    assert a == s[..|s| - |m| - 1] && b == s[..|s| - |n| - 1];
  }

  // What follows the last slash.
  function Tail(s: string): string {
    if |s| == 0 || s[|s| - 1] == '/' then "" else Tail(s[..|s| - 1]) + [s[|s| - 1]]
  }

  lemma {:induction false} TailIs(a: string, m: string)
    requires '/' !in m
    ensures Tail(a + "/" + m) == m
    decreases |m|
  {
    var s := a + "/" + m;
    if |m| > 0 {
      TailIs(a, m[..|m| - 1]);
      assert s[..|s| - 1] == a + "/" + m[..|m| - 1];
    }
  }

  predicate EndsInSlash(s: string) { |s| > 0 && s[|s| - 1] == '/' }

  // Joined paths differ unless folder and name agree - or one folder's path
  // is the other's with a slash behind it.
  lemma JoinTells(a: string, m: string, b: string, n: string)
    requires GoodName(m) && GoodName(n) && JoinPath(a, m) == JoinPath(b, n)
    ensures m == n
    ensures EndsInSlash(a) == EndsInSlash(b) ==> a == b
    ensures EndsInSlash(a) && !EndsInSlash(b) ==> a == b + "/"
    ensures EndsInSlash(b) && !EndsInSlash(a) ==> b == a + "/"
  {
    var x := if EndsInSlash(a) then a[..|a| - 1] else a;
    var y := if EndsInSlash(b) then b[..|b| - 1] else b;
    assert JoinPath(a, m) == x + "/" + m && JoinPath(b, n) == y + "/" + n;
    LastSlash(x, m, y, n);
  }

  // A rooted path: no slash is followed by another.
  ghost predicate Rooted(path: string) {
    |path| > 0 && path[0] == '/' && forall i :: 0 <= i < |path| - 1 ==> path[i] != '/' || path[i + 1] != '/'
  }

  // What joining makes of a folder's path: a path below it, with the name behind
  // its last slash and no empty part.
  lemma JoinsAPath(dir: string, name: string)
    requires GoodName(name)
    ensures Tail(JoinPath(dir, name)) == name
    ensures |JoinPath(dir, name)| > |dir| && JoinPath(dir, name)[..|dir|] == dir
    ensures Rooted(dir) ==> Rooted(JoinPath(dir, name))
  {
    TailIs(if EndsInSlash(dir) then dir[..|dir| - 1] else dir, name);
    assert EndsInSlash(dir) ==> dir == dir[..|dir| - 1] + "/";
    assert JoinPath(dir, name) == (if EndsInSlash(dir) then dir[..|dir| - 1] else dir) + "/" + name;
  }


  // Under a root with such a path, every node has one.
  lemma {:induction false} AllRooted(t: Tree, n: nat)
    requires Shaped(t) && n in t.nodes && Rooted(t.nodes[t.root].path)
    ensures Rooted(t.nodes[n].path)
    decreases n
  {
    hide Rooted, JoinPath;
    assert Linked(t, n);
    if n != t.root {
      AllRooted(t, t.nodes[n].parent.value);
      JoinsAPath(t.nodes[t.nodes[n].parent.value].path, t.nodes[n].name);
    }
  }


  lemma {:induction false} LongerThanRoot(t: Tree, n: nat)
    requires Shaped(t) && n in t.nodes
    ensures n != t.root ==> |t.nodes[n].path| > |t.nodes[t.root].path| && !EndsInSlash(t.nodes[n].path)
    decreases n
  {
    hide JoinPath, Children, GoodName;
    assert Linked(t, n);
    if n != t.root {
      LongerThanRoot(t, t.nodes[n].parent.value);
      JoinEnds(t.nodes[t.nodes[n].parent.value].path, t.nodes[n].name);
    }
  }

  lemma JoinEnds(dir: string, name: string)
    requires GoodName(name)
    ensures |JoinPath(dir, name)| > |dir| && !EndsInSlash(JoinPath(dir, name))
  {
    var path := JoinPath(dir, name);
    assert path[|path| - 1] == name[|name| - 1];
    assert name[|name| - 1] in name;
  }

  // Two nodes' folders are one if their paths under them agree.
  lemma SameFolder(t: Tree, p: nat, m: string, q: nat, n: string)
    requires Shaped(t) && PathsDiffer(t) && p in t.nodes && q in t.nodes && GoodName(m) && GoodName(n)
    requires JoinPath(t.nodes[p].path, m) == JoinPath(t.nodes[q].path, n)
    ensures p == q && m == n
  {
    JoinTells(t.nodes[p].path, m, t.nodes[q].path, n);
    LongerThanRoot(t, p);
    LongerThanRoot(t, q);
  }

  // Full paths are unique.
  lemma {:induction false} PathTells(t: Tree, m: nat, n: nat)
    requires Shaped(t) && m in t.nodes && n in t.nodes && t.nodes[m].path == t.nodes[n].path
    ensures m == n
    decreases m
  {
    LongerThanRoot(t, m);
    LongerThanRoot(t, n);
    assert Linked(t, m) && Linked(t, n);
    if m != t.root && n != t.root {
      var p, q := t.nodes[m].parent.value, t.nodes[n].parent.value;
      JoinTells(t.nodes[p].path, t.nodes[m].name, t.nodes[q].path, t.nodes[n].name);
      LongerThanRoot(t, p);
      LongerThanRoot(t, q);
      PathTells(t, p, q);
      SameName(t, p, m, n);
    }
  }

  lemma SameName(t: Tree, p: nat, m: nat, n: nat)
    requires Shaped(t) && p in t.nodes && m in t.nodes[p].children && n in t.nodes[p].children
    requires m in t.nodes && n in t.nodes && t.nodes[m].name == t.nodes[n].name
    ensures m == n
  {
    hide Linked;
    var kids := t.nodes[p].children;
    assert Children(t, p);
    var i :| 0 <= i < |kids| && kids[i] == m;
    var j :| 0 <= j < |kids| && kids[j] == n;
  }

  lemma AllPathsDiffer(t: Tree)
    requires Shaped(t)
    ensures PathsDiffer(t)
  {
    forall m, n | m in t.nodes && n in t.nodes && t.nodes[m].path == t.nodes[n].path
      ensures m == n
    {
      PathTells(t, m, n);
    }
  }

  // A shaped tree has one index.
  lemma IndexIsOne(t: Tree, a: map<string, nat>, b: map<string, nat>)
    requires Indexed(t, a) && Indexed(t, b)
    ensures a == b
  {
    forall k
      ensures k in a <==> k in b
      ensures k in a && k in b ==> a[k] == b[k]
    {
      if k in a {
        assert t.nodes[a[k]].path == k;
      }
      if k in b {
        assert t.nodes[b[k]].path == k;
      }
    }
  }

  // ---- A new child

  ghost predicate NewName(t: Tree, n: nat, name: string)
    requires n in t.nodes
  {
    GoodName(name) && forall c <- t.nodes[n].children :: c in t.nodes ==> t.nodes[c].name != name
  }

  function NewNode(t: Tree, n: nat, e: Entry): Node
    requires n in t.nodes
  {
    Node(e.name, JoinPath(t.nodes[n].path, e.name), e.isDirectory, e.size, e.modified, Some(n), [], false, false)
  }

  function WithChild(t: Tree, n: nat, id: nat, e: Entry): Tree
    requires n in t.nodes
  {
    t.(nodes := t.nodes[n := t.nodes[n].(children := t.nodes[n].children + [id])][id := NewNode(t, n, e)])
  }

  lemma NewPath(t: Tree, byPath: map<string, nat>, n: nat, e: Entry)
    requires Shaped(t) && Indexed(t, byPath) && n in t.nodes && NewName(t, n, e.name)
    ensures JoinPath(t.nodes[n].path, e.name) !in byPath
  {
    var path := JoinPath(t.nodes[n].path, e.name);
    if path in byPath {
      var m := byPath[path];
      AllPathsDiffer(t);
      LongerThanRoot(t, m);
      LongerThanRoot(t, n);
      assert Linked(t, m);
      if m != t.root {
        SameFolder(t, n, e.name, t.nodes[m].parent.value, t.nodes[m].name);
        assert false;
      }
      assert false;
    }
  }

  lemma WithChildKeeps(t: Tree, byPath: map<string, nat>, n: nat, id: nat, e: Entry)
    requires Shaped(t) && Indexed(t, byPath) && n in t.nodes && NewName(t, n, e.name)
    requires forall m <- t.nodes :: m < id
    ensures var u := WithChild(t, n, id, e); Shaped(u) && Indexed(u, byPath[NewNode(t, n, e).path := id])
  {
    hide NewName, Linked, Children, WithChild, Indexed;
    var u := WithChild(t, n, id, e);
    NewPath(t, byPath, n, e);
    WithChildDoes(t, n, id, e);
    forall m <- u.nodes
      ensures Linked(u, m) && Children(u, m)
    {
      WithChildAt(t, n, id, e, m);
    }
    WithChildIndexed(t, byPath, n, id, e);
  }

  lemma WithChildAt(t: Tree, n: nat, id: nat, e: Entry, m: nat)
    requires Shaped(t) && n in t.nodes && NewName(t, n, e.name) && (forall m <- t.nodes :: m < id)
    requires m in WithChild(t, n, id, e).nodes
    ensures Linked(WithChild(t, n, id, e), m) && Children(WithChild(t, n, id, e), m)
  {
    if m == id {
      NewLinked(t, n, id, e);
    } else {
      hide Linked, Children, NewName;
      OtherLinked(t, n, id, e, m);
      if m == n {
        ParentChildren(t, n, id, e);
      } else {
        OtherChildren(t, n, id, e, m);
      }
    }
  }

  lemma NewLinked(t: Tree, n: nat, id: nat, e: Entry)
    requires Shaped(t) && n in t.nodes && NewName(t, n, e.name) && (forall m <- t.nodes :: m < id)
    ensures Linked(WithChild(t, n, id, e), id) && Children(WithChild(t, n, id, e), id)
  {
    hide NewName;
    var u := WithChild(t, n, id, e);
    assert e.name == u.nodes[id].name && id in u.nodes[n].children;
    GoodNew(t, n, e.name);
  }

  lemma WithChildIndexed(t: Tree, byPath: map<string, nat>, n: nat, id: nat, e: Entry)
    requires Indexed(t, byPath) && n in t.nodes && id !in t.nodes && NewNode(t, n, e).path !in byPath
    ensures Indexed(WithChild(t, n, id, e), byPath[NewNode(t, n, e).path := id])
  {
  }

  lemma GoodNew(t: Tree, n: nat, name: string)
    requires n in t.nodes && NewName(t, n, name)
    ensures GoodName(name)
  {
  }

  lemma OtherLinked(t: Tree, n: nat, id: nat, e: Entry, m: nat)
    requires Shaped(t) && n in t.nodes && id !in t.nodes && m in t.nodes
    ensures Linked(WithChild(t, n, id, e), m)
  {
    assert Linked(t, m);
  }

  lemma OtherChildren(t: Tree, n: nat, id: nat, e: Entry, m: nat)
    requires Shaped(t) && n in t.nodes && id !in t.nodes && m in t.nodes && m != n
    ensures Children(WithChild(t, n, id, e), m)
  {
    hide Linked, NamesApart;
    assert Children(t, m);
    assert forall c <- t.nodes[m].children :: Child(t, m, c);
    NamesStay(t, WithChild(t, n, id, e), t.nodes[m].children);
  }

  lemma ParentChildren(t: Tree, n: nat, id: nat, e: Entry)
    requires Shaped(t) && n in t.nodes && id !in t.nodes && NewName(t, n, e.name)
    ensures Children(WithChild(t, n, id, e), n)
  {
    var u := WithChild(t, n, id, e);
    var kids := t.nodes[n].children;
    assert Children(t, n);
    assert forall c <- kids :: Child(t, n, c);
    NamesStay(t, u, kids);
    NamesWithOne(u, kids, id);
  }

  // A second child of one name would share its path with the first, and no
  // index could find both: paths tell nodes apart exactly while names do.
  lemma IndexableIff(t: Tree, byPath: map<string, nat>, n: nat, id: nat, e: Entry)
    requires Shaped(t) && Indexed(t, byPath) && n in t.nodes && GoodName(e.name)
    requires forall m <- t.nodes :: m < id
    ensures (exists b :: Indexed(WithChild(t, n, id, e), b)) <==> NewName(t, n, e.name)
  {
    hide Shaped, Indexed, NewName, WithChild;
    if NewName(t, n, e.name) {
      WithChildKeeps(t, byPath, n, id, e);
    } else {
      Clash(t, n, id, e);
    }
  }

  lemma Clash(t: Tree, n: nat, id: nat, e: Entry)
    requires Shaped(t) && n in t.nodes && GoodName(e.name) && !NewName(t, n, e.name) && id !in t.nodes
    ensures forall b :: !Indexed(WithChild(t, n, id, e), b)
  {
    var u := WithChild(t, n, id, e);
    assert Children(t, n);
    var c :| c in t.nodes[n].children && c in t.nodes && t.nodes[c].name == e.name;
    assert Child(t, n, c) && Linked(t, c);
    assert u.nodes[c].path == u.nodes[id].path && c != id;
  }

  // Whatever the name, the index remains that of the tree exactly when no node
  // has the new one's path.
  lemma IndexedIff(t: Tree, byPath: map<string, nat>, n: nat, id: nat, e: Entry)
    requires Indexed(t, byPath) && n in t.nodes && id !in t.nodes
    ensures var path := NewNode(t, n, e).path;
            Indexed(WithChild(t, n, id, e), byPath[path := id]) <==> path !in byPath
  {
    var path, u := NewNode(t, n, e).path, WithChild(t, n, id, e);
    if path in byPath {
      var m := byPath[path];
      assert m in u.nodes && u.nodes[m].path == path && m != id;
    } else {
      WithChildIndexed(t, byPath, n, id, e);
    }
  }

  // A name given twice: the second node takes the first one's place in the index.
  lemma SecondOfAName()
    ensures var folder := Node("/r", "/r", true, 0, 0, None, [1], true, false);
            var file := Node("a", "/r/a", false, 0, 0, Some(0), [], false, false);
            var t, byPath, e := Tree(map[0 := folder, 1 := file], 0), map["/r" := 0, "/r/a" := 1],
              Entry("a", true, 0, 0);
            && Shaped(t) && Indexed(t, byPath) && NewNode(t, 0, e).path == "/r/a"
            && !Indexed(WithChild(t, 0, 2, e), byPath["/r/a" := 2])
  {
    var folder := Node("/r", "/r", true, 0, 0, None, [1], true, false);
    var file := Node("a", "/r/a", false, 0, 0, Some(0), [], false, false);
    var t, byPath, e := Tree(map[0 := folder, 1 := file], 0), map["/r" := 0, "/r/a" := 1], Entry("a", true, 0, 0);
    assert JoinPath("/r", "a") == "/r/a";
    assert "/r"[1] == 'r' && |"/r"| != |"/r/a"|;
    assert folder.children[0] == 1;
    IndexedIff(t, byPath, 0, 2, e);
  }

  // Tree and index keep their shape too exactly when the name is new and a name
  // at all.
  lemma InStepIff(t: Tree, byPath: map<string, nat>, n: nat, id: nat, e: Entry)
    requires Shaped(t) && Indexed(t, byPath) && n in t.nodes
    requires forall m <- t.nodes :: m < id
    ensures var u := WithChild(t, n, id, e);
            Shaped(u) && Indexed(u, byPath[NewNode(t, n, e).path := id]) <==> NewName(t, n, e.name)
  {
    hide Shaped, Indexed, NewName, WithChild;
    if NewName(t, n, e.name) {
      WithChildKeeps(t, byPath, n, id, e);
    } else if GoodName(e.name) {
      Clash(t, n, id, e);
    } else {
      BadName(t, n, id, e);
    }
  }

  lemma BadName(t: Tree, n: nat, id: nat, e: Entry)
    requires Shaped(t) && n in t.nodes && id !in t.nodes && !GoodName(e.name)
    ensures !Shaped(WithChild(t, n, id, e))
  {
    var u := WithChild(t, n, id, e);
    assert id in u.nodes && u.nodes[id].name == e.name && !Linked(u, id);
  }

  // ---- Children gone, with all below them

  // Whether a node is `c` or somewhere below it.
  predicate Under(t: Tree, m: nat, c: nat)
    decreases m
  {
    m == c || (m in t.nodes && t.nodes[m].parent.Some? && t.nodes[m].parent.value < m
      && Under(t, t.nodes[m].parent.value, c))
  }

  predicate UnderAny(t: Tree, m: nat, gone: seq<nat>) { exists c <- gone :: Under(t, m, c) }

  // `n` left with some of its children.
  function Pruned(t: Tree, n: nat, gone: seq<nat>, left: seq<nat>): Tree
    requires n in t.nodes
  {
    t.(nodes := map m | m in t.nodes && !UnderAny(t, m, gone) :: if m == n then t.nodes[m].(children := left)
      else t.nodes[m])
  }

  ghost predicate Splits(kids: seq<nat>, gone: seq<nat>, left: seq<nat>) {
    && (forall c :: c in kids <==> c in gone || c in left)
    && (forall c :: c in gone ==> c !in left)
    && (forall i, j :: 0 <= i < j < |left| ==> left[i] != left[j])
  }

  lemma {:induction false} UnderIsLater(t: Tree, m: nat, c: nat)
    requires Under(t, m, c)
    ensures m >= c
    decreases m
  {
    if m != c {
      UnderIsLater(t, t.nodes[m].parent.value, c);
    }
  }

  lemma PrunedKeeps(t: Tree, n: nat, gone: seq<nat>, left: seq<nat>)
    requires Shaped(t) && n in t.nodes && Splits(t.nodes[n].children, gone, left)
    ensures n in Pruned(t, n, gone, left).nodes && Shaped(Pruned(t, n, gone, left))
  {
    var u := Pruned(t, n, gone, left);
    Survivors(t, n, gone);
    forall m <- u.nodes
      ensures Linked(u, m) && Children(u, m)
    {
      assert Linked(t, m) && Children(t, m);
      if m != t.root {
        var p := t.nodes[m].parent.value;
        assert p in u.nodes;
        if p == n {
          assert m !in gone;
        }
      }
      KidsSurvive(t, n, gone, left, m);
    }
  }

  // The node itself, the root and the parents of survivors survive.
  lemma Survivors(t: Tree, n: nat, gone: seq<nat>)
    requires Shaped(t) && n in t.nodes && forall c <- gone :: c in t.nodes[n].children
    ensures !UnderAny(t, n, gone) && !UnderAny(t, t.root, gone)
    ensures forall m :: m in t.nodes && m != t.root && !UnderAny(t, m, gone)
              ==> !UnderAny(t, t.nodes[m].parent.value, gone) && m !in gone
  {
    forall c <- gone
      ensures !Under(t, n, c) && !Under(t, t.root, c)
    {
      assert Children(t, n) && Child(t, n, c) && Linked(t, c);
      if Under(t, n, c) {
        UnderIsLater(t, n, c);
      }
      assert Linked(t, t.root);
    }
    forall m | m in t.nodes && m != t.root && !UnderAny(t, m, gone)
      ensures !UnderAny(t, t.nodes[m].parent.value, gone) && m !in gone
    {
      assert Linked(t, m);
      assert forall c <- gone :: !Under(t, m, c);
    }
  }

  lemma KidsSurvive(t: Tree, n: nat, gone: seq<nat>, left: seq<nat>, m: nat)
    requires Shaped(t) && n in t.nodes && Splits(t.nodes[n].children, gone, left)
    requires m in Pruned(t, n, gone, left).nodes
    ensures Children(Pruned(t, n, gone, left), m)
  {
    hide Linked, NamesApart, NameOf;
    var u := Pruned(t, n, gone, left);
    var kids := u.nodes[m].children;
    assert Children(t, m);
    forall c <- kids
      ensures Child(u, m, c)
    {
      ChildSurvives(t, n, gone, left, m, c);
    }
    if m == n {
      NamesOfSome(t, t.nodes[m].children, left);
    }
    assert forall c <- kids :: NameOf(u, c) == NameOf(t, c) by {
      SameNames(t, n, gone, left, kids);
    }
    NamesStay(t, u, kids);
  }

  lemma SameNames(t: Tree, n: nat, gone: seq<nat>, left: seq<nat>, kids: seq<nat>)
    requires n in t.nodes && forall c <- kids :: c in Pruned(t, n, gone, left).nodes
    ensures forall c <- kids :: NameOf(Pruned(t, n, gone, left), c) == NameOf(t, c)
  {
  }

  lemma ChildSurvives(t: Tree, n: nat, gone: seq<nat>, left: seq<nat>, m: nat, c: nat)
    requires Shaped(t) && n in t.nodes && Splits(t.nodes[n].children, gone, left)
    requires m in Pruned(t, n, gone, left).nodes && c in Pruned(t, n, gone, left).nodes[m].children
    ensures Child(Pruned(t, n, gone, left), m, c)
  {
    hide NamesApart;
    assert Children(t, m) && Children(t, n);
    assert c in t.nodes[m].children && Child(t, m, c);
    assert Linked(t, c);
    forall d <- gone
      ensures !Under(t, c, d)
    {
      assert Child(t, n, d) && !Under(t, m, d);
    }
  }

  // The index without those nodes.
  ghost function Unindexed(t: Tree, byPath: map<string, nat>, gone: seq<nat>): map<string, nat> {
    map k | k in byPath && !UnderAny(t, byPath[k], gone) :: byPath[k]
  }

  lemma UnindexedFits(t: Tree, byPath: map<string, nat>, n: nat, gone: seq<nat>, left: seq<nat>)
    requires Indexed(t, byPath) && n in t.nodes
    ensures Indexed(Pruned(t, n, gone, left), Unindexed(t, byPath, gone))
  {
  }

  // Below a node is what is below its children.
  lemma {:induction false} UnderChild(t: Tree, m: nat, c: nat)
    requires Shaped(t) && m in t.nodes && c in t.nodes && Under(t, m, c) && m != c
    ensures UnderAny(t, m, t.nodes[c].children)
    decreases m
  {
    assert Linked(t, m);
    var p := t.nodes[m].parent.value;
    if p == c {
      assert Under(t, m, m);
    } else {
      UnderChild(t, p, c);
      var d :| d in t.nodes[c].children && Under(t, p, d);
      assert Under(t, m, d);
    }
  }

  lemma {:induction false} ChildUnder(t: Tree, m: nat, d: nat, c: nat)
    requires Shaped(t) && c in t.nodes && d in t.nodes[c].children && Under(t, m, d)
    ensures Under(t, m, c)
    decreases m
  {
    assert Children(t, c) && Child(t, c, d) && Linked(t, d);
    if m == d {
      assert Under(t, c, c);
    } else {
      ChildUnder(t, t.nodes[m].parent.value, d, c);
    }
  }

  // ---- A folder listed again

  // Names the server can send for one folder.
  ghost predicate Listing(es: seq<Entry>) {
    && (forall i :: 0 <= i < |es| ==> GoodName(es[i].name))
    && (forall i, j :: 0 <= i < j < |es| ==> es[i].name != es[j].name)
  }

  // One child after another.
  ghost function Fill(t: Tree, n: nat, first: nat, es: seq<Entry>): (r: Tree)
    requires n in t.nodes
    ensures n in r.nodes && r.root == t.root
  {
    if |es| == 0 then t
    else
      var k := |es| - 1;
      WithChild(Fill(t, n, first, es[..k]), n, first + k, es[k])
  }

  // The index after them: of two with one path the later is found.
  ghost function FillPaths(byPath: map<string, nat>, dir: string, first: nat, es: seq<Entry>): map<string, nat> {
    if |es| == 0 then byPath
    else
      var k := |es| - 1;
      FillPaths(byPath, dir, first, es[..k])[JoinPath(dir, es[k].name) := first + k]
  }

  // Paths that no node has, each once.
  ghost predicate FreshPaths(held: map<string, nat>, dir: string, es: seq<Entry>) {
    && (forall i :: 0 <= i < |es| ==> JoinPath(dir, es[i].name) !in held)
    && (forall i, j :: 0 <= i < j < |es| ==> JoinPath(dir, es[i].name) != JoinPath(dir, es[j].name))
  }

  lemma {:induction false} PathsFilled(held: map<string, nat>, dir: string, first: nat, es: seq<Entry>, p: string)
    ensures p in FillPaths(held, dir, first, es)
            <==> p in held || exists i :: 0 <= i < |es| && p == JoinPath(dir, es[i].name)
    decreases |es|
  {
    hide JoinPath;
    if |es| > 0 {
      var k := |es| - 1;
      PathsFilled(held, dir, first, es[..k], p);
      if i :| 0 <= i < |es| && p == JoinPath(dir, es[i].name) {
        assert i < k ==> es[..k][i] == es[i];
      }
      if i :| 0 <= i < k && p == JoinPath(dir, es[..k][i].name) {
        assert es[i] == es[..k][i];
      }
    }
  }

  // Whatever is listed, the index remains that of the tree exactly when all
  // paths are new and differ.
  lemma FilledIndexedIff(t: Tree, held: map<string, nat>, n: nat, first: nat, es: seq<Entry>)
    requires n in t.nodes && t.nodes[n].children == [] && (forall m <- t.nodes :: m < first) && Indexed(t, held)
    ensures Indexed(Fill(t, n, first, es), FillPaths(held, t.nodes[n].path, first, es))
            <==> FreshPaths(held, t.nodes[n].path, es)
  {
    hide Fill, FillPaths, Indexed, JoinPath, Filled;
    if FreshPaths(held, t.nodes[n].path, es) {
      FreshIsIndexed(t, held, n, first, es);
    } else {
      FillDoes(t, n, first, es);
      NotFresh(t, held, n, first, es, Fill(t, n, first, es), FillPaths(held, t.nodes[n].path, first, es));
    }
  }

  lemma {:induction false} FreshIsIndexed(t: Tree, held: map<string, nat>, n: nat, first: nat, es: seq<Entry>)
    requires n in t.nodes && t.nodes[n].children == [] && (forall m <- t.nodes :: m < first) && Indexed(t, held)
    requires FreshPaths(held, t.nodes[n].path, es)
    ensures Indexed(Fill(t, n, first, es), FillPaths(held, t.nodes[n].path, first, es))
    decreases |es|
  {
    hide Indexed, JoinPath, WithChild;
    if |es| > 0 {
      var k, dir := |es| - 1, t.nodes[n].path;
      var before := es[..k];
      FreshBefore(held, dir, es);
      FreshIsIndexed(t, held, n, first, before);
      var r := Fill(t, n, first, before);
      FillDoes(t, n, first, before);
      PathsFilled(held, dir, first, before, JoinPath(dir, es[k].name));
      assert forall i :: 0 <= i < k ==> before[i] == es[i];
      IndexedIff(r, FillPaths(held, dir, first, before), n, first + k, es[k]);
    }
  }

  lemma FreshBefore(held: map<string, nat>, dir: string, es: seq<Entry>)
    requires FreshPaths(held, dir, es) && |es| > 0
    ensures FreshPaths(held, dir, es[..|es| - 1])
  {
    hide JoinPath;
    assert forall i :: 0 <= i < |es| - 1 ==> es[..|es| - 1][i] == es[i];
  }

  lemma NotFresh(t: Tree, held: map<string, nat>, n: nat, first: nat, es: seq<Entry>, r: Tree, b: map<string, nat>)
    requires n in t.nodes && (forall m <- t.nodes :: m < first) && Indexed(t, held)
    requires Filled(t, n, first, es, r) && !FreshPaths(held, t.nodes[n].path, es)
    ensures !Indexed(r, b)
  {
    hide JoinPath;
    var dir := t.nodes[n].path;
    if i :| 0 <= i < |es| && JoinPath(dir, es[i].name) in held {
      var m := held[JoinPath(dir, es[i].name)];
      OnePath(r, b, m, first + i);
    } else {
      var i, j :| 0 <= i < j < |es| && JoinPath(dir, es[i].name) == JoinPath(dir, es[j].name);
      assert first + i in r.nodes && first + j in r.nodes;
      OnePath(r, b, first + i, first + j);
    }
  }

  lemma OnePath(t: Tree, byPath: map<string, nat>, m: nat, n: nat)
    requires m in t.nodes && n in t.nodes && m != n && t.nodes[m].path == t.nodes[n].path
    ensures !Indexed(t, byPath)
  {
  }

  lemma FlagsIndexed(t: Tree, n: nat, x: Node, byPath: map<string, nat>)
    requires n in t.nodes && x.path == t.nodes[n].path
    ensures Indexed(t.(nodes := t.nodes[n := x]), byPath) <==> Indexed(t, byPath)
  {
    var u := t.(nodes := t.nodes[n := x]);
    assert forall m :: (m in u.nodes <==> m in t.nodes) && (m in t.nodes ==> u.nodes[m].path == t.nodes[m].path);
  }

  ghost function Listed(t: Tree, n: nat, first: nat, es: seq<Entry>): Tree
    requires n in t.nodes && n in Pruned(t, n, t.nodes[n].children, []).nodes
  {
    var r := Fill(Pruned(t, n, t.nodes[n].children, []), n, first, es);
    r.(nodes := r.nodes[n := r.nodes[n].(loaded := true, loading := false)])
  }

  function Numbers(first: nat, k: nat): (r: seq<nat>)
    ensures |r| == k && forall i :: 0 <= i < k ==> r[i] == first + i
  {
    seq(k, i requires 0 <= i < k => first + i)
  }

  // The children added, each from its entry, and nothing else.
  ghost predicate Filled(t: Tree, n: nat, first: nat, es: seq<Entry>, r: Tree)
    requires n in t.nodes
  {
    && n in r.nodes
    && (forall m {:trigger m in r.nodes} :: m in r.nodes <==> m in t.nodes || first <= m < first + |es|)
    && r.nodes[n] == t.nodes[n].(children := Numbers(first, |es|))
    && (forall i :: 0 <= i < |es| ==> r.nodes[first + i] == NewNode(t, n, es[i]))
    && (forall m <- t.nodes :: m != n ==> r.nodes[m] == t.nodes[m])
  }

  lemma {:induction false} FillDoes(t: Tree, n: nat, first: nat, es: seq<Entry>)
    requires n in t.nodes && t.nodes[n].children == [] && forall m <- t.nodes :: m < first
    ensures Filled(t, n, first, es, Fill(t, n, first, es))
    decreases |es|
  {
    hide Numbers, WithChild, Filled;
    if |es| == 0 {
      NoneFilled(t, n, first);
    } else {
      var k := |es| - 1;
      FillDoes(t, n, first, es[..k]);
      FilledMore(t, n, first, es[..k], es[k], Fill(t, n, first, es[..k]));
      assert es[..k] + [es[k]] == es;
    }
  }

  lemma NoneFilled(t: Tree, n: nat, first: nat)
    requires n in t.nodes && t.nodes[n].children == []
    ensures Filled(t, n, first, [], t)
  {
    assert Numbers(first, 0) == [];
  }

  lemma FilledMore(t: Tree, n: nat, first: nat, es: seq<Entry>, e: Entry, r: Tree)
    requires n in t.nodes && (forall m <- t.nodes :: m < first) && Filled(t, n, first, es, r)
    ensures Filled(t, n, first, es + [e], WithChild(r, n, first + |es|, e))
  {
    hide Numbers, WithChild;
    var k := |es|;
    assert Numbers(first, k) + [first + k] == Numbers(first, k + 1);
    WithChildDoes(r, n, first + k, e);
  }

  lemma WithChildDoes(t: Tree, n: nat, id: nat, e: Entry)
    requires n in t.nodes && id !in t.nodes
    ensures var r := WithChild(t, n, id, e);
            && r.root == t.root && r.nodes.Keys == t.nodes.Keys + {id}
            && r.nodes[n] == t.nodes[n].(children := t.nodes[n].children + [id])
            && r.nodes[id] == NewNode(t, n, e)
            && forall m <- t.nodes :: m != n ==> r.nodes[m] == t.nodes[m]
  {
  }

  lemma FreshName(t: Tree, n: nat, first: nat, es: seq<Entry>, i: nat)
    requires n in t.nodes && (forall m <- t.nodes :: m < first) && t.nodes[n].children == [] && Listing(es) && i < |es|
    ensures NewName(Fill(t, n, first, es[..i]), n, es[i].name)
  {
    hide Fill, Numbers;
    FillDoes(t, n, first, es[..i]);
    var r := Fill(t, n, first, es[..i]);
    forall c <- r.nodes[n].children
      ensures c in r.nodes && r.nodes[c].name != es[i].name
    {
      var j :| 0 <= j < |r.nodes[n].children| && r.nodes[n].children[j] == c;
      assert c == first + j;
      assert r.nodes[first + j] == NewNode(t, n, es[..i][j]);
    }
  }

  // After a listing a folder holds the entries listed, in order, and nothing of
  // what it held; nothing outside it has changed.
  lemma ListingShows(t: Tree, n: nat, first: nat, es: seq<Entry>)
    requires Shaped(t) && n in t.nodes && forall m <- t.nodes :: m < first
    ensures n in Pruned(t, n, t.nodes[n].children, []).nodes
    ensures Shows(t, n, es, Listed(t, n, first, es))
    ensures Listed(t, n, first, es).nodes[n].loaded && !Listed(t, n, first, es).nodes[n].loading
    ensures forall m :: m in t.nodes && m != n && Under(t, m, n) ==> m !in Listed(t, n, first, es).nodes
    ensures forall m :: m in t.nodes && m != n && !Under(t, m, n) ==>
              m in Listed(t, n, first, es).nodes && Listed(t, n, first, es).nodes[m] == t.nodes[m]
  {
    hide Fill, Numbers, Shaped, Pruned, Under, WithChild, Filled, Shows;
    var u := Pruned(t, n, t.nodes[n].children, []);
    PrunedAll(t, n);
    FillDoes(u, n, first, es);
    FilledShows(u, n, first, es, Fill(u, n, first, es));
    PathStays(t, u, n, es, Listed(t, n, first, es));
  }

  // The folder's children are the entries, in order.
  ghost predicate Shows(t: Tree, n: nat, es: seq<Entry>, r: Tree)
    requires n in t.nodes
  {
    && n in r.nodes && |r.nodes[n].children| == |es| && r.nodes[n].path == t.nodes[n].path
    && forall i :: 0 <= i < |es| ==>
         var c := r.nodes[n].children[i];
         c in r.nodes && IsEntry(r.nodes[c], es[i], n, t.nodes[n].path)
  }

  // A child as a listing describes it, not listed itself.
  ghost predicate IsEntry(x: Node, e: Entry, n: nat, dir: string) {
    && x.name == e.name && x.isDirectory == e.isDirectory && x.size == e.size && x.modified == e.modified
    && x.path == JoinPath(dir, e.name) && x.parent == Some(n) && x.children == [] && !x.loaded && !x.loading
  }

  lemma PathStays(t: Tree, u: Tree, n: nat, es: seq<Entry>, r: Tree)
    requires n in t.nodes && n in u.nodes && u.nodes[n].path == t.nodes[n].path && Shows(u, n, es, r)
    ensures Shows(t, n, es, r)
  {
  }

  lemma FilledShows(t: Tree, n: nat, first: nat, es: seq<Entry>, r: Tree)
    requires n in t.nodes && (forall m <- t.nodes :: m < first) && Filled(t, n, first, es, r)
    ensures var s := r.(nodes := r.nodes[n := r.nodes[n].(loaded := true, loading := false)]);
            && Shows(t, n, es, s)
            && (forall m :: m in s.nodes <==> m in t.nodes || first <= m < first + |es|)
            && forall m :: m in t.nodes && m != n ==> s.nodes[m] == t.nodes[m]
  {
    var s := r.(nodes := r.nodes[n := r.nodes[n].(loaded := true, loading := false)]);
    forall i | 0 <= i < |es|
      ensures s.nodes[n].children[i] == first + i && first + i in s.nodes && s.nodes[first + i] == NewNode(t, n, es[i])
    {
    }
  }

  // A listing leaves a tree in shape only if its names are names, each once.
  lemma ShapedIsListing(t: Tree, n: nat, first: nat, es: seq<Entry>)
    requires Shaped(t) && n in t.nodes && (forall m <- t.nodes :: m < first)
    requires n in Pruned(t, n, t.nodes[n].children, []).nodes && Shaped(Listed(t, n, first, es))
    ensures Listing(es)
  {
    hide Listed, Pruned, NameOf;
    ListingShows(t, n, first, es);
    var r := Listed(t, n, first, es);
    var kids := r.nodes[n].children;
    assert Children(r, n);
    forall i | 0 <= i < |es|
      ensures kids[i] in r.nodes && kids[i] != r.root && r.nodes[kids[i]].name == es[i].name && GoodName(es[i].name)
    {
      assert kids[i] in kids && Child(r, n, kids[i]) && Linked(r, kids[i]);
    }
    forall i, j | 0 <= i < j < |es|
      ensures es[i].name != es[j].name
    {
      assert NameOf(r, kids[i]) != NameOf(r, kids[j]);
      NameIs(r, kids[i]);
      NameIs(r, kids[j]);
    }
  }

  lemma NameIs(t: Tree, n: nat)
    requires n in t.nodes
    ensures NameOf(t, n) == t.nodes[n].name
  {
  }

  // With all its children gone, a node is left, and all that is not below it.
  lemma PrunedAll(t: Tree, n: nat)
    requires Shaped(t) && n in t.nodes
    ensures var u := Pruned(t, n, t.nodes[n].children, []);
            && (forall m {:trigger m in u.nodes} :: m in u.nodes <==> m in t.nodes && (m == n || !Under(t, m, n)))
            && u.nodes[n] == t.nodes[n].(children := [])
            && forall m <- u.nodes :: m != n ==> u.nodes[m] == t.nodes[m]
  {
    hide Linked;
    var kids := t.nodes[n].children;
    assert Children(t, n);
    Survivors(t, n, kids);
    forall m | m in t.nodes && m != n
      ensures Under(t, m, n) <==> UnderAny(t, m, kids)
    {
      if Under(t, m, n) {
        UnderChild(t, m, n);
      }
      if d :| d in kids && Under(t, m, d) {
        ChildUnder(t, m, d, n);
      }
    }
  }

  // ---- Model indices

  datatype Index = Invalid | At(row: nat, column: nat, node: nat)

  const COLUMN_COUNT := 4

  function RowOf(kids: seq<nat>, n: nat): (r: Option<nat>)
    ensures r.Some? ==> r.value < |kids| && kids[r.value] == n
    ensures r.None? ==> n !in kids
  {
    if |kids| == 0 then None
    else if kids[0] == n then Some(0)
    else
      var r := RowOf(kids[1..], n);
      if r.Some? then Some(r.value + 1) else None
  }

  function NodeFor(t: Tree, i: Index): nat { if i.Invalid? then t.root else i.node }

  // indexForNode()
  function IndexFor(t: Tree, n: nat): Index {
    if n !in t.nodes || n == t.root || t.nodes[n].parent.None? || t.nodes[n].parent.value !in t.nodes then Invalid
    else
      match RowOf(t.nodes[t.nodes[n].parent.value].children, n)
      case None => Invalid
      case Some(row) => At(row, 0, n)
  }

  function RowCount(t: Tree, parent: Index): nat {
    if parent.At? && parent.column > 0 then 0
    else if NodeFor(t, parent) in t.nodes then |t.nodes[NodeFor(t, parent)].children|
    else 0
  }

  // index()
  function IndexAt(t: Tree, row: int, column: int, parent: Index): Index {
    if 0 <= row < RowCount(t, parent) && 0 <= column < COLUMN_COUNT then
      At(row, column, t.nodes[NodeFor(t, parent)].children[row])
    else Invalid
  }

  // parent()
  function ParentIndex(t: Tree, i: Index): Index {
    if i.Invalid? || i.node !in t.nodes || t.nodes[i.node].parent.None? then Invalid
    else IndexFor(t, t.nodes[i.node].parent.value)
  }

  // Whatever is at a row under an index has that index as its parent.
  lemma ParentOfIndex(t: Tree, n: nat, row: int, column: int)
    requires Shaped(t) && n in t.nodes
    requires 0 <= row < |t.nodes[n].children| && 0 <= column < 4
    ensures var i := IndexAt(t, row, column, IndexFor(t, n));
            i.At? && i.row == row && i.column == column && ParentIndex(t, i) == IndexFor(t, n)
  {
    var c := t.nodes[n].children[row];
    assert Children(t, n) && Child(t, n, c) && Linked(t, n);
    NodeOfIndex(t, n);
  }

  lemma NodeOfIndex(t: Tree, n: nat)
    requires Shaped(t) && n in t.nodes
    ensures NodeFor(t, IndexFor(t, n)) == n && (n != t.root ==> IndexFor(t, n).At?)
            && (n == t.root ==> IndexFor(t, n).Invalid?)
  {
    assert Linked(t, n);
  }

  // Every node is at its row under its parent's index.
  lemma IndexOfParent(t: Tree, n: nat)
    requires Shaped(t) && n in t.nodes && n != t.root
    ensures var i := IndexFor(t, n); i.At? && i.node == n && IndexAt(t, i.row, i.column, ParentIndex(t, i)) == i
  {
    assert Linked(t, n);
    NodeOfIndex(t, n);
    NodeOfIndex(t, t.nodes[n].parent.value);
  }

  // Only an index in the first column, and the root, have rows; each has four
  // columns, and there is nothing else.
  lemma NothingElse(t: Tree, row: int, column: int, parent: Index)
    requires NodeFor(t, parent) in t.nodes
    ensures IndexAt(t, row, column, parent).At? <==>
            && 0 <= column < 4 && (parent.At? ==> parent.column == 0)
            && 0 <= row < |t.nodes[NodeFor(t, parent)].children|
  {
  }
}
