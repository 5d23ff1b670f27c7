// The model behind the file list (SftpModel): a tree filled in folder by folder
// and a hash from paths to its nodes, kept up with every change.
module SftpModels {
  import opened Bytes
  import opened SftpTree

  class SftpModel {
    var nodes: map<nat, Node>       // the nodes that are alive
    var root: nat
    var byPath: map<string, nat>
    var made: nat                   // nodes made so far

    function View(): Tree
      reads this
    {
      Tree(nodes, root)
    }

    ghost predicate Valid()
      reads this
    {
      Shaped(View()) && Indexed(View(), byPath) && forall n <- nodes :: n < made
    }

    constructor ()
      ensures Valid() && root in nodes && nodes[root].path == "" && |nodes| == 1
    {
      nodes := map[0 := Node("", "", true, 0, 0, None, [], true, false)];
      root, made := 0, 1;
      byPath := map["" := 0];
    }

    // Another tree altogether: just its root, not listed yet.
    method SetRoot(path: string)
      modifies this
      ensures Valid() && old(made) == root && nodes == map[root := Node(path, path, true, 0, 0, None, [], false, false)]
      ensures byPath == map[path := root]
    {
      var node := Node(path, path, true, 0, 0, None, [], false, false);
      root, made := made, made + 1;
      nodes := map[root := node];
      byPath := map[path := root];
    }

    method MarkLoading(path: string, loading: bool)
      requires Valid()
      modifies this`nodes
      ensures Valid()
      ensures nodes ==
              if path in byPath then old(nodes)[byPath[path] := old(nodes)[byPath[path]].(loading := loading)]
              else old(nodes)
    {
      if path in byPath {
        var n := byPath[path];
        SameLinks(View(), n, nodes[n].(loading := loading), byPath);
        nodes := nodes[n := nodes[n].(loading := loading)];
      }
    }

    // Flags do not matter to the shape, nor to the index.
    ghost predicate SamePlace(x: Node, y: Node) {
      x.name == y.name && x.path == y.path && x.parent == y.parent && x.children == y.children
    }

    lemma SameLinks(t: Tree, n: nat, x: Node, byPath: map<string, nat>)
      requires Shaped(t) && Indexed(t, byPath) && n in t.nodes && SamePlace(x, t.nodes[n])
      ensures Shaped(t.(nodes := t.nodes[n := x])) && Indexed(t.(nodes := t.nodes[n := x]), byPath)
    {
      hide Linked, Children;
      var u := t.(nodes := t.nodes[n := x]);
      forall m <- u.nodes
        ensures Linked(u, m) && Children(u, m)
      {
        StillLinked(t, n, x, m);
        StillChildren(t, n, x, m);
      }
    }

    lemma StillLinked(t: Tree, n: nat, x: Node, m: nat)
      requires Shaped(t) && n in t.nodes && m in t.nodes && SamePlace(x, t.nodes[n])
      ensures Linked(t.(nodes := t.nodes[n := x]), m)
    {
      hide Children;
      assert Linked(t, m);
    }

    lemma StillChildren(t: Tree, n: nat, x: Node, m: nat)
      requires Shaped(t) && n in t.nodes && m in t.nodes && SamePlace(x, t.nodes[n])
      ensures Children(t.(nodes := t.nodes[n := x]), m)
    {
      hide Linked, NamesApart;
      var u := t.(nodes := t.nodes[n := x]);
      assert Children(t, m);
      assert forall c <- t.nodes[m].children :: Child(t, m, c);
      NamesStay(t, u, t.nodes[m].children);
    }

    // Forgets the paths of a node and of all below it.
    method RemoveFromCache(n: nat)
      requires Shaped(View()) && PathsDiffer(View()) && n in nodes && (forall m <- nodes :: m < made)
      requires forall k <- byPath :: byPath[k] in nodes && nodes[byPath[k]].path == k
      modifies this`byPath
      ensures byPath == Unindexed(View(), old(byPath), [n])
      decreases made - n
    {
      hide Linked, NamesApart;
      ghost var t, was := View(), byPath;
      var kids := nodes[n].children;
      assert Children(t, n) && forall c <- kids :: Child(t, n, c);
      byPath := byPath - {nodes[n].path};
      Without(t, was, n);
      assert byPath == NotAbove(t, was, n, kids[..0]);
      for i := 0 to |kids|
        invariant byPath == NotAbove(t, was, n, kids[..i])
      {
        assert kids[i] in kids && Child(t, n, kids[i]);
        ghost var now := byPath;
        LaterThanParent(t, n, kids[i]);
        RemoveFromCache(kids[i]);
        assert kids[..i + 1] == kids[..i] + [kids[i]];
        OneMore(t, was, n, kids[..i], kids[i]);
      }
      assert kids[..|kids|] == kids;
      AllBelow(t, was, n);
    }

    // What is left when the node and some of its children are forgotten.
    ghost function NotAbove(t: Tree, byPath: map<string, nat>, n: nat, done: seq<nat>): map<string, nat> {
      map k | k in byPath && byPath[k] != n && !UnderAny(t, byPath[k], done) :: byPath[k]
    }

    lemma LaterThanParent(t: Tree, n: nat, c: nat)
      requires Shaped(t) && n in t.nodes && Child(t, n, c)
      ensures n < c
    {
      assert Linked(t, c);
    }

    lemma Without(t: Tree, byPath: map<string, nat>, n: nat)
      requires PathsDiffer(t) && n in t.nodes && forall k <- byPath :: byPath[k] in t.nodes
                                                   && t.nodes[byPath[k]].path == k
      ensures byPath - {t.nodes[n].path} == NotAbove(t, byPath, n, [])
    {
    }

    lemma OneMore(t: Tree, byPath: map<string, nat>, n: nat, done: seq<nat>, c: nat)
      ensures Unindexed(t, NotAbove(t, byPath, n, done), [c]) == NotAbove(t, byPath, n, done + [c])
    {
      forall m
        ensures UnderAny(t, m, done + [c]) <==> UnderAny(t, m, done) || UnderAny(t, m, [c])
      {
        if UnderAny(t, m, done) {
          var d :| d in done && Under(t, m, d);
          assert d in done + [c];
        }
        assert c in done + [c] && c in [c];
      }
    }

    lemma AllBelow(t: Tree, byPath: map<string, nat>, n: nat)
      requires Shaped(t) && n in t.nodes && forall k <- byPath :: byPath[k] in t.nodes
      ensures NotAbove(t, byPath, n, t.nodes[n].children) == Unindexed(t, byPath, [n])
    {
      forall m | m in t.nodes
        ensures UnderAny(t, m, [n]) <==> m == n || UnderAny(t, m, t.nodes[n].children)
      {
        assert n in [n];
        if Under(t, m, n) && m != n {
          UnderChild(t, m, n);
        }
        if d :| d in t.nodes[n].children && Under(t, m, d) {
          ChildUnder(t, m, d, n);
        }
      }
    }

    method ForgetAll(gone: seq<nat>)
      requires Shaped(View()) && PathsDiffer(View()) && (forall m <- nodes :: m < made)
      requires forall i :: 0 <= i < |gone| ==> gone[i] in nodes
      requires forall k <- byPath :: byPath[k] in nodes && nodes[byPath[k]].path == k
      modifies this`byPath
      ensures byPath == Unindexed(View(), old(byPath), gone)
    {
      hide Shaped, PathsDiffer, UnderAny;
      ghost var t, was := View(), byPath;
      NoneGone(t, was);
      for i := 0 to |gone|
        invariant byPath == Unindexed(t, was, gone[..i])
      {
        RemoveFromCache(gone[i]);
        assert gone[..i + 1] == gone[..i] + [gone[i]];
        OneMoreGone(t, was, gone[..i], gone[i]);
      }
      assert gone[..|gone|] == gone;
    }

    lemma NoneGone(t: Tree, byPath: map<string, nat>)
      ensures Unindexed(t, byPath, []) == byPath
    {
    }

    // Children of a node, and all below them, out of the cache and gone; the
    // rest stay.
    method RemoveChildren(n: nat, gone: seq<nat>, left: seq<nat>)
      requires Valid() && n in nodes && Splits(nodes[n].children, gone, left)
      modifies this`nodes, this`byPath
      ensures Valid() && View() == Pruned(old(View()), n, gone, left)
              && byPath == Unindexed(old(View()), old(byPath), gone)
    {
      hide Shaped, Indexed, UnderAny;
      ghost var t, was := View(), byPath;
      AllPathsDiffer(t);
      GoneAreThere(t, n, gone);
      FoundUnder(t, byPath);
      ForgetAll(gone);
      PrunedKeeps(t, n, gone, left);
      UnindexedFits(t, was, n, gone, left);
      nodes := Pruned(View(), n, gone, left).nodes; // deleted with all below them
    }

    lemma FoundUnder(t: Tree, byPath: map<string, nat>)
      requires Indexed(t, byPath)
      ensures forall k <- byPath :: byPath[k] in t.nodes && t.nodes[byPath[k]].path == k
    {
    }

    lemma GoneAreThere(t: Tree, n: nat, gone: seq<nat>)
      requires Shaped(t) && n in t.nodes && forall c <- gone :: c in t.nodes[n].children
      ensures forall i :: 0 <= i < |gone| ==> gone[i] in t.nodes
    {
      assert Children(t, n);
      forall i | 0 <= i < |gone|
        ensures gone[i] in t.nodes
      {
        assert gone[i] in gone;
        assert Child(t, n, gone[i]);
      }
    }

    lemma OneMoreGone(t: Tree, byPath: map<string, nat>, done: seq<nat>, c: nat)
      ensures Unindexed(t, Unindexed(t, byPath, done), [c]) == Unindexed(t, byPath, done + [c])
    {
      forall m
        ensures UnderAny(t, m, done + [c]) <==> UnderAny(t, m, done) || UnderAny(t, m, [c])
      {
        if UnderAny(t, m, done) {
          var d :| d in done && Under(t, m, d);
          assert d in done + [c];
        }
        assert c in done + [c] && c in [c];
      }
    }

    // The index remains that of the tree exactly when no node has the path; both
    // keep their shape exactly when the name is new to the folder.
    method AddChild(n: nat, e: Entry)
      requires n in nodes && forall m <- nodes :: m < made
      modifies this`nodes, this`byPath, this`made
      ensures View() == WithChild(old(View()), n, old(made), e) && made == old(made) + 1
      ensures byPath == old(byPath)[JoinPath(old(nodes)[n].path, e.name) := old(made)]
      ensures forall m <- nodes :: m < made
      ensures old(Valid()) ==> (Valid() <==> old(NewName(View(), n, e.name)))
      ensures old(Indexed(View(), byPath)) ==>
                (Indexed(View(), byPath) <==> JoinPath(old(nodes)[n].path, e.name) !in old(byPath))
    {
      hide Shaped, Indexed, NewName;
      var child := Node(e.name, JoinPath(nodes[n].path, e.name), e.isDirectory, e.size, e.modified, Some(n), [],
        false, false);
      if Valid() {
        InStepIff(View(), byPath, n, made, e);
      }
      if Indexed(View(), byPath) {
        IndexedIff(View(), byPath, n, made, e);
      }
      nodes := nodes[n := nodes[n].(children := nodes[n].children + [made])][made := child];
      byPath := byPath[child.path := made];
      made := made + 1;
    }

    // What the server says is in a folder replaces what was known of it; a path
    // the model does not hold is ignored. The index remains that of the tree
    // exactly when the paths are new and differ; both keep their shape exactly
    // when the names listed are names, each once.
    method ApplyDirectoryListing(path: string, entries: seq<Entry>)
      requires Valid()
      modifies this`nodes, this`byPath, this`made
      ensures root == old(root)
      ensures path !in old(byPath) ==> nodes == old(nodes) && byPath == old(byPath) && Valid()
      ensures path in old(byPath) ==>
                var n := old(byPath)[path];
                && n in old(nodes) && n in Pruned(old(View()), n, old(nodes)[n].children, []).nodes
                && View() == Listed(old(View()), n, old(made), entries)
                && byPath == FillPaths(Unindexed(old(View()), old(byPath), old(nodes)[n].children), path, old(made),
                   entries)
                && (Indexed(View(), byPath) <==>
                      FreshPaths(Unindexed(old(View()), old(byPath), old(nodes)[n].children), path, entries))
                && (Valid() <==> Listing(entries))
    {
      hide Shaped, Indexed, Pruned, WithChild, NewName, Listing, Unindexed;
      if path !in byPath {
        return;
      }
      var n := byPath[path];
      ghost var before := View();
      FoundUnder(View(), byPath);
      AllGo(View(), n);
      RemoveChildren(n, nodes[n].children, []);
      ghost var emptied, left := View(), byPath;
      var first := made;
      assert entries[..0] == [];
      for i := 0 to |entries|
        invariant n in nodes && nodes[n].path == path && (forall m <- nodes :: m < made)
        invariant root == emptied.root && made == first + i
        invariant View() == Fill(emptied, n, first, entries[..i])
                  && byPath == FillPaths(left, path, first, entries[..i])
        invariant Listing(entries) ==> Valid()
      {
        if Listing(entries) {
          FreshName(emptied, n, first, entries, i);
        }
        PathStaysWith(View(), n, made, entries[i]);
        AddChild(n, entries[i]);
        assert entries[..i + 1][..i] == entries[..i];
      }
      assert entries[..|entries|] == entries;
      if Listing(entries) {
        SameLinks(View(), n, nodes[n].(loaded := true, loading := false), byPath);
      }
      FilledIndexedIff(emptied, left, n, first, entries);
      FlagsIndexed(View(), n, nodes[n].(loaded := true, loading := false), byPath);
      nodes := nodes[n := nodes[n].(loaded := true, loading := false)];
      assert View() == Listed(before, n, first, entries);
      if Shaped(View()) {
        ShapedIsListing(before, n, first, entries);
      }
    }

    lemma PathStaysWith(t: Tree, n: nat, id: nat, e: Entry)
      requires n in t.nodes && id !in t.nodes
      ensures var u := WithChild(t, n, id, e); n in u.nodes && u.nodes[n].path == t.nodes[n].path
    {
    }

    lemma AllGo(t: Tree, n: nat)
      requires Shaped(t) && n in t.nodes
      ensures Splits(t.nodes[n].children, t.nodes[n].children, [])
      ensures var u := Pruned(t, n, t.nodes[n].children, []);
              n in u.nodes && u.nodes[n] == t.nodes[n].(children := []) && forall m <- u.nodes :: m in t.nodes
    {
      Survivors(t, n, t.nodes[n].children);
    }

    // A file or folder that is gone, with all below it; the root stays.
    method RemoveEntry(path: string)
      requires Valid()
      modifies this`nodes, this`byPath
      ensures Valid()
      ensures if path in old(byPath) && old(byPath)[path] != root then
                var n := old(byPath)[path];
                var p := old(nodes)[n].parent.value;
                var row := RowOf(old(nodes)[p].children, n).value;
                View() == Pruned(old(View()), p, [n], old(nodes)[p].children[..row] + old(nodes)[p].children[row + 1..])
              else View() == old(View()) && byPath == old(byPath)
    {
      hide Shaped, Indexed, Pruned;
      if path !in byPath {
        return;
      }
      FoundUnder(View(), byPath);
      var n := byPath[path];
      Placed(View(), n);
      if nodes[n].parent.None? {
        return;
      }
      var p := nodes[n].parent.value;
      var row := RowOf(nodes[p].children, n);
      if row.None? {
        return;
      }
      var left := nodes[p].children[..row.value] + nodes[p].children[row.value + 1..];
      OneGoes(View(), p, row.value);
      RemoveChildren(p, [n], left);
    }

    lemma Placed(t: Tree, n: nat)
      requires Shaped(t) && n in t.nodes
      ensures t.nodes[n].parent.None? <==> n == t.root
      ensures n != t.root ==> t.nodes[n].parent.value in t.nodes && n in t.nodes[t.nodes[n].parent.value].children
    {
      assert Linked(t, n);
    }

    lemma OneGoes(t: Tree, p: nat, row: nat)
      requires Shaped(t) && p in t.nodes && row < |t.nodes[p].children|
      ensures var kids := t.nodes[p].children; Splits(kids, [kids[row]], kids[..row] + kids[row + 1..])
    {
      hide Linked;
      var kids := t.nodes[p].children;
      assert Children(t, p);
      assert forall i, j :: 0 <= i < j < |kids| ==> kids[i] != kids[j];
      forall c
        ensures c in kids <==> c == kids[row] || c in kids[..row] + kids[row + 1..]
      {
        if c in kids {
          var i :| 0 <= i < |kids| && kids[i] == c;
        }
      }
    }

    // A folder just made, shown before the next listing - if its parent is
    // listed at all. The index remains that of the tree exactly when no node has
    // the path; both keep their shape exactly when the name is new.
    method AddPlaceholderDirectory(parentPath: string, name: string)
      requires Valid()
      modifies this`nodes, this`byPath, this`made
      ensures parentPath in old(byPath) ==> old(byPath)[parentPath] in old(nodes)
      ensures if parentPath in old(byPath) && old(nodes)[old(byPath)[parentPath]].loaded then
                && View() == WithChild(old(View()), old(byPath)[parentPath], old(made), Entry(name, true, 0, 0))
                && byPath == old(byPath)[JoinPath(parentPath, name) := old(made)]
                && (Indexed(View(), byPath) <==> JoinPath(parentPath, name) !in old(byPath))
                && (Valid() <==> old(NewName(View(), byPath[parentPath], name)))
              else View() == old(View()) && byPath == old(byPath) && Valid()
    {
      hide Shaped, Indexed, NewName;
      FoundUnder(View(), byPath);
      if parentPath !in byPath || !nodes[byPath[parentPath]].loaded {
        return;
      }
      AddChild(byPath[parentPath], Entry(name, true, 0, 0));
    }

    // ---- Queries

    // indexForPath()
    method IndexForPath(path: string) returns (i: Index)
      requires Valid()
      ensures i.At? <==> exists n <- nodes :: n != root && nodes[n].path == path
      ensures i.At? ==> i.node in nodes && nodes[i.node].path == path && i == IndexFor(View(), i.node)
    {
      hide Shaped;
      if path !in byPath {
        return Invalid;
      }
      NodeOfIndex(View(), byPath[path]);
      return IndexFor(View(), byPath[path]);
    }

    // pathForIndex()
    method PathForIndex(i: Index) returns (path: string)
      requires Valid() && NodeFor(View(), i) in nodes
      ensures path in byPath && byPath[path] == NodeFor(View(), i)
    {
      return nodes[NodeFor(View(), i)].path;
    }
  }
}
