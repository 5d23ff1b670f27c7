// What splitting, cancelling, moving, swapping and closing panes do to the
// tree (MainWindow), each built from splices, and the guarantees about them.
module PaneOps {
  import opened Bytes
  import opened Panes

  // Every widget of the window is there once.
  ghost predicate Distinct(ps: seq<Pane>) { forall y :: Count(ps, y) <= 1 }

  // ---- Taking a pane out

  // collapseSplitterIfSingle(): a splitter left with one widget gives its place to it.
  function Collapse(ps: seq<Pane>, s: nat): seq<Pane> {
    match Find(ps, s)
    case Some(p) => if p.Splitter? && |p.kids| == 1 then Splice(ps, s, p.kids) else ps
    case None => ps
  }

  // A pane leaves the splitter it sits in.
  function TakeOut(ps: seq<Pane>, x: nat, s: nat): seq<Pane> { Collapse(Splice(ps, x, []), s) }

  lemma DistinctInside(ps: seq<Pane>)
    requires Distinct(ps) && |ps| > 0
    ensures Distinct(ps[1..]) && (ps[0].Splitter? ==> Distinct(ps[0].kids))
    ensures forall y {:trigger Count(ps[1..], y)} :: Count(ps[1..], y) > 0
              ==> ps[0].id != y && (ps[0].Splitter? ==> Count(ps[0].kids, y) == 0)
  {
    forall y
      ensures Count(ps[1..], y) <= 1 && (ps[0].Splitter? ==> Count(ps[0].kids, y) <= 1)
      ensures Count(ps[1..], y) > 0 ==> ps[0].id != y && (ps[0].Splitter? ==> Count(ps[0].kids, y) == 0)
    {
      assert Count(ps, y) <= 1;
    }
  }

  lemma {:induction false} AmongCounted(ps: seq<Pane>, x: nat)
    requires Among(ps, x)
    ensures Count(ps, x) > 0
    decreases |ps|
  {
    AmongFirst(ps, x);
    if ps[0].id != x {
      AmongCounted(ps[1..], x);
    }
  }

  // A parent is in the forest, and so is its child.
  lemma {:induction false} ParentThere(ps: seq<Pane>, x: nat)
    requires ParentOf(ps, x).Some?
    ensures Count(ps, ParentOf(ps, x).value.id) > 0 && Count(ps, x) > 0
    decreases ps
  {
    if ps[0].Splitter? && Among(ps[0].kids, x) {
      AmongCounted(ps[0].kids, x);
    } else if ps[0].Splitter? && ParentOf(ps[0].kids, x).Some? {
      ParentThere(ps[0].kids, x);
    } else {
      ParentThere(ps[1..], x);
    }
  }

  lemma {:induction false} FullIsFullBut(ps: seq<Pane>, s: nat)
    requires Full(ps)
    ensures FullBut(ps, s)
    decreases ps
  {
    if |ps| > 0 {
      FullIsFullBut(ps[1..], s);
      if ps[0].Splitter? {
        FullIsFullBut(ps[0].kids, s);
      }
    }
  }

  lemma {:induction false} DropFull(ps: seq<Pane>, x: nat)
    requires Full(ps) && Among(ps, x) && Count(ps, x) == 1
    ensures Full(Splice(ps, x, []))
    decreases |ps|
  {
    AmongFirst(ps, x);
    if ps[0].id == x {
      SpliceAbsent(ps[1..], x, []);
      assert [] + ps[1..] == ps[1..];
    } else {
      AmongCounted(ps[1..], x);
      DropFull(ps[1..], x);
      if ps[0].Splitter? {
        SpliceAbsent(ps[0].kids, x, []);
      }
      FullOne(ps[0]);
      FullAdds([ps[0]], Splice(ps[1..], x, []));
    }
  }

  lemma FullButOne(p: Pane, rest: seq<Pane>, s: nat)
    ensures FullBut([p] + rest, s) <==>
            (p.Splitter? ==> |p.kids| >= (if p.id == s then 1 else 2) && FullBut(p.kids, s)) && FullBut(rest, s)
  {
    assert ([p] + rest)[1..] == rest;
  }

  lemma FindFirst(p: Pane, rest: seq<Pane>, s: nat)
    ensures Find([p] + rest, s) ==
            if p.id == s then Some(p)
            else if p.Splitter? && Find(p.kids, s).Some? then Find(p.kids, s)
            else Find(rest, s)
  {
    assert ([p] + rest)[1..] == rest;
  }

  // What taking a pane out leaves of its splitter and of all others.
  lemma {:induction false} DetachLeaves(ps: seq<Pane>, x: nat)
    requires Distinct(ps) && Full(ps) && ParentOf(ps, x).Some?
    ensures var s := ParentOf(ps, x).value;
            && FullBut(Splice(ps, x, []), s.id)
            && Find(Splice(ps, x, []), s.id) == Some(Splitter(s.id, s.o, Splice(s.kids, x, [])))
            && |Splice(s.kids, x, [])| == |s.kids| - 1 >= 1
    decreases ps
  {
    var s := ParentOf(ps, x).value;
    ParentThere(ps, x);
    DistinctInside(ps);
    var rest := Splice(ps[1..], x, []);
    if ps[0].Splitter? && Among(ps[0].kids, x) {
      AmongCounted(ps[0].kids, x);
      SpliceLength(ps[0].kids, x, []);
      DropFull(ps[0].kids, x);
      FullIsFullBut(Splice(ps[0].kids, x, []), s.id);
      SpliceAbsent(ps[1..], x, []);
      FullIsFullBut(ps[1..], s.id);
      var changed := Splitter(ps[0].id, ps[0].o, Splice(ps[0].kids, x, []));
      FullButOne(changed, rest, s.id);
      FindFirst(changed, rest, s.id);
    } else if ps[0].Splitter? && ParentOf(ps[0].kids, x).Some? {
      ParentThere(ps[0].kids, x);
      DetachLeaves(ps[0].kids, x);
      SpliceLength(ps[0].kids, x, []);
      SpliceAbsent(ps[1..], x, []);
      FullIsFullBut(ps[1..], s.id);
      var changed := Splitter(ps[0].id, ps[0].o, Splice(ps[0].kids, x, []));
      FullButOne(changed, rest, s.id);
      FindFirst(changed, rest, s.id);
    } else {
      ParentThere(ps[1..], x);
      DetachLeaves(ps[1..], x);
      if ps[0].Splitter? {
        SpliceAbsent(ps[0].kids, x, []);
        FoundIffCounted(ps[0].kids, s.id);
        FullIsFullBut(ps[0].kids, s.id);
      }
      FullButOne(ps[0], rest, s.id);
      FindFirst(ps[0], rest, s.id);
    }
  }

  lemma {:induction false} FoundFull(ps: seq<Pane>, s: nat)
    requires FullBut(ps, s) && Count(ps, s) <= 1 && Find(ps, s).Some? && Find(ps, s).value.Splitter?
    ensures Full(Find(ps, s).value.kids)
    decreases ps
  {
    FoundIffCounted(ps, s);
    if ps[0].id == s {
      FullOthers(ps[0].kids, s);
    } else if ps[0].Splitter? && Find(ps[0].kids, s).Some? {
      FoundIffCounted(ps[0].kids, s);
      FoundFull(ps[0].kids, s);
    } else {
      FoundIffCounted(ps[1..], s);
      FoundFull(ps[1..], s);
    }
  }

  // Taking a pane out keeps every splitter at two widgets or more, and moves
  // no other pane.
  lemma TakeOutKeeps(ps: seq<Pane>, x: nat)
    requires Distinct(ps) && Full(ps) && Find(ps, x).Some? && ParentOf(ps, x).Some?
    ensures var o := TakeOut(ps, x, ParentOf(ps, x).value.id);
            && Full(o) && Distinct(o)
            && (forall y :: Count(o, y) <= Count(ps, y) - Count([Find(ps, x).value], y))
            && (forall y :: Count(o, y) == Count(ps, y) - Count([Find(ps, x).value], y)
                  || y == ParentOf(ps, x).value.id)
            && Leaves(o) == Before(ps, x) + After(ps, x)
  {
    var s := ParentOf(ps, x).value;
    var n := Find(ps, x).value;
    FoundIffCounted(ps, x);
    var cut := Splice(ps, x, []);
    var o := TakeOut(ps, x, s.id);
    DetachLeaves(ps, x);
    forall y
      ensures Count(cut, y) == Count(ps, y) - Count([n], y) <= 1
    {
      SpliceCount(ps, x, [], y);
    }
    FoundIffCounted(cut, s.id);
    SpliceLeaves(ps, x, []);
    assert Before(ps, x) + Leaves([]) + After(ps, x) == Before(ps, x) + After(ps, x);
    var p := Find(cut, s.id).value;
    if |p.kids| == 1 {
      FoundFull(cut, s.id);
      CollapseFull(cut, s.id, p.kids);
      SpliceLeaves(cut, s.id, p.kids);
      LeavesOne(p);
      forall y
        ensures Count(o, y) == Count(cut, y) - if y == s.id then 1 else 0
      {
        SpliceCount(cut, s.id, p.kids, y);
        CountOne(p, y);
      }
    } else {
      FullAfterAll(cut, s.id, p);
    }
  }

  // ---- Putting a pane beside another

  function Pair(source: Pane, target: Pane, after: bool): seq<Pane> {
    if after then [target, source] else [source, target]
  }

  // Joins the target's splitter when it runs the right way, else makes a new one.
  function Join(ps: seq<Pane>, source: Pane, target: Pane, o: Orientation, after: bool, newId: nat): seq<Pane> {
    var parent := ParentOf(ps, target.id);
    if parent.Some? && parent.value.o == o then Splice(ps, target.id, Pair(source, target, after))
    else Splice(ps, target.id, [Splitter(newId, o, Pair(source, target, after))])
  }

  // Two widgets side by side in one splitter of that orientation - which is
  // then the lowest splitter they have in common.
  ghost predicate Neighbours(ps: seq<Pane>, a: Pane, b: Pane, o: Orientation)
    decreases ps
  {
    |ps| > 0 &&
    ((ps[0].Splitter? && ((ps[0].o == o && Next(ps[0].kids, a, b)) || Neighbours(ps[0].kids, a, b, o)))
      || Neighbours(ps[1..], a, b, o))
  }

  ghost predicate Next(ps: seq<Pane>, a: Pane, b: Pane) {
    exists i :: 0 <= i && i + 1 < |ps| && ps[i] == a && ps[i + 1] == b
  }

  lemma {:induction false} NeighboursAdd(p: seq<Pane>, q: seq<Pane>, a: Pane, b: Pane, o: Orientation)
    ensures Neighbours(p + q, a, b, o) <==> Neighbours(p, a, b, o) || Neighbours(q, a, b, o)
    decreases |p|
  {
    if |p| == 0 {
      assert p + q == q;
    } else {
      NeighboursAdd(p[1..], q, a, b, o);
      assert (p + q)[1..] == p[1..] + q && (p + q)[0] == p[0];
    }
  }

  lemma NeighboursOne(p: Pane, a: Pane, b: Pane, o: Orientation)
    ensures Neighbours([p], a, b, o)
            <==> p.Splitter? && ((p.o == o && Next(p.kids, a, b)) || Neighbours(p.kids, a, b, o))
  {
    assert [p][1..] == [];
  }

  lemma {:induction false} SpliceShows(ps: seq<Pane>, x: nat, w: seq<Pane>, a: Pane, b: Pane, o: Orientation)
    requires Count(ps, x) == 1 && Neighbours(w, a, b, o)
    ensures Neighbours(Splice(ps, x, w), a, b, o)
    decreases ps
  {
    var rest := Splice(ps[1..], x, w);
    if ps[0].id == x {
      NeighboursAdd(w, rest, a, b, o);
    } else if ps[0].Splitter? && Count(ps[0].kids, x) == 1 {
      SpliceShows(ps[0].kids, x, w, a, b, o);
      var changed := Splitter(ps[0].id, ps[0].o, Splice(ps[0].kids, x, w));
      NeighboursOne(changed, a, b, o);
      NeighboursAdd([changed], rest, a, b, o);
    } else {
      SpliceShows(ps[1..], x, w, a, b, o);
      if ps[0].Splitter? {
        SpliceAbsent(ps[0].kids, x, w);
      }
      NeighboursAdd([ps[0]], rest, a, b, o);
    }
  }

  lemma {:induction false} SpliceNext(ps: seq<Pane>, x: nat, a: Pane, b: Pane)
    requires Among(ps, x) && Count(ps, x) == 1
    ensures Next(Splice(ps, x, [a, b]), a, b)
    decreases |ps|
  {
    AmongFirst(ps, x);
    var all, rest := Splice(ps, x, [a, b]), Splice(ps[1..], x, [a, b]);
    if ps[0].id == x {
      assert all[0] == a && all[1] == b;
    } else {
      AmongCounted(ps[1..], x);
      SpliceNext(ps[1..], x, a, b);
      var i :| 0 <= i && i + 1 < |rest| && rest[i] == a && rest[i + 1] == b;
      assert all[i + 1] == a && all[i + 2] == b;
    }
  }

  lemma {:induction false} SpliceJoins(ps: seq<Pane>, x: nat, a: Pane, b: Pane)
    requires Distinct(ps) && ParentOf(ps, x).Some?
    ensures Neighbours(Splice(ps, x, [a, b]), a, b, ParentOf(ps, x).value.o)
    decreases ps
  {
    ParentThere(ps, x);
    DistinctInside(ps);
    var o, rest := ParentOf(ps, x).value.o, Splice(ps[1..], x, [a, b]);
    if ps[0].Splitter? && (Among(ps[0].kids, x) || ParentOf(ps[0].kids, x).Some?) {
      if Among(ps[0].kids, x) {
        AmongCounted(ps[0].kids, x);
        SpliceNext(ps[0].kids, x, a, b);
      } else {
        ParentThere(ps[0].kids, x);
        SpliceJoins(ps[0].kids, x, a, b);
      }
      var changed := Splitter(ps[0].id, ps[0].o, Splice(ps[0].kids, x, [a, b]));
      NeighboursOne(changed, a, b, o);
      NeighboursAdd([changed], rest, a, b, o);
    } else {
      ParentThere(ps[1..], x);
      SpliceJoins(ps[1..], x, a, b);
      if ps[0].Splitter? {
        SpliceAbsent(ps[0].kids, x, [a, b]);
      }
      NeighboursAdd([ps[0]], rest, a, b, o);
    }
  }

  // The leaf order that joining makes.
  ghost function Beside(l: seq<Pane>, target: Pane, source: Pane, after: bool): seq<Pane> {
    if |l| == 0 then []
    else (if l[0] == target then Pair(source, target, after) else [l[0]]) + Beside(l[1..], target, source, after)
  }

  ghost function Without(l: seq<Pane>, x: Pane): seq<Pane> {
    if |l| == 0 then [] else (if l[0] == x then [] else [l[0]]) + Without(l[1..], x)
  }

  lemma {:induction false} WithoutSplits(a: seq<Pane>, b: seq<Pane>, x: Pane)
    requires x !in a && x !in b
    ensures Without(a + [x] + b, x) == a + b
    decreases |a|
  {
    if |a| == 0 {
      WithoutNone(b, x);
      assert (a + [x] + b)[1..] == b && a + b == b;
    } else {
      WithoutSplits(a[1..], b, x);
      assert (a + [x] + b)[1..] == a[1..] + [x] + b && (a + [x] + b)[0] == a[0];
      assert a + b == [a[0]] + (a[1..] + b);
    }
  }

  lemma {:induction false} WithoutNone(l: seq<Pane>, x: Pane)
    requires x !in l
    ensures Without(l, x) == l
  {
    if |l| > 0 {
      WithoutNone(l[1..], x);
      assert l == [l[0]] + l[1..];
    }
  }

  lemma {:induction false} BesideNone(l: seq<Pane>, target: Pane, source: Pane, after: bool)
    requires target !in l
    ensures Beside(l, target, source, after) == l
  {
    if |l| > 0 {
      BesideNone(l[1..], target, source, after);
      assert l == [l[0]] + l[1..];
    }
  }

  lemma BesideCons(p: Pane, l: seq<Pane>, target: Pane, source: Pane, after: bool)
    ensures Beside([p] + l, target, source, after) ==
            (if p == target then Pair(source, target, after) else [p]) + Beside(l, target, source, after)
  {
    assert ([p] + l)[1..] == l;
  }

  lemma {:induction false} BesideAdds(a: seq<Pane>, b: seq<Pane>, target: Pane, source: Pane, after: bool)
    ensures Beside(a + b, target, source, after) == Beside(a, target, source, after) + Beside(b, target, source, after)
    decreases |a|
  {
    if |a| == 0 {
      assert a + b == b;
    } else {
      hide Beside, Pair;
      BesideAdds(a[1..], b, target, source, after);
      BesideCons(a[0], a[1..] + b, target, source, after);
      BesideCons(a[0], a[1..], target, source, after);
      assert a + b == [a[0]] + (a[1..] + b) && a == [a[0]] + a[1..];
    }
  }

  lemma BesideSplits(a: seq<Pane>, b: seq<Pane>, target: Pane, source: Pane, after: bool)
    requires target !in a && target !in b
    ensures Beside(a + [target] + b, target, source, after) == a + Pair(source, target, after) + b
  {
    hide Pair;
    BesideAdds(a + [target], b, target, source, after);
    BesideAdds(a, [target], target, source, after);
    BesideNone(a, target, source, after);
    BesideNone(b, target, source, after);
    assert [target][1..] == [];
    assert Beside([target], target, source, after) == Pair(source, target, after);
  }

  // A leaf is among the leaves at most as often as its widget is in the forest.
  lemma {:induction false} LeafCounted(ps: seq<Pane>, p: Pane)
    requires !p.Splitter?
    ensures multiset(Leaves(ps))[p] <= Count(ps, p.id)
    decreases ps
  {
    if |ps| > 0 {
      LeafCounted(ps[1..], p);
      var first := if ps[0].Splitter? then Leaves(ps[0].kids) else [ps[0]];
      if ps[0].Splitter? {
        LeafCounted(ps[0].kids, p);
      }
      assert multiset(first + Leaves(ps[1..])) == multiset(first) + multiset(Leaves(ps[1..]));
    }
  }

  lemma LeafOnce(ps: seq<Pane>, p: Pane)
    requires Distinct(ps) && !p.Splitter? && Find(ps, p.id) == Some(p)
    ensures Leaves(ps) == Before(ps, p.id) + [p] + After(ps, p.id)
    ensures p !in Before(ps, p.id) && p !in After(ps, p.id)
  {
    FoundIffCounted(ps, p.id);
    SpliceLeaves(ps, p.id, []);
    LeavesOne(p);
    LeafCounted(ps, p);
    var a, b := Before(ps, p.id), After(ps, p.id);
    assert multiset(a + [p] + b) == multiset(a) + multiset{p} + multiset(b);
  }

  lemma TakeOutLeaf(ps: seq<Pane>, p: Pane)
    requires Distinct(ps) && Full(ps) && !p.Splitter? && Find(ps, p.id) == Some(p) && ParentOf(ps, p.id).Some?
    ensures Leaves(TakeOut(ps, p.id, ParentOf(ps, p.id).value.id)) == Without(Leaves(ps), p)
  {
    TakeOutKeeps(ps, p.id);
    LeafOnce(ps, p);
    WithoutSplits(Before(ps, p.id), After(ps, p.id), p);
  }

  lemma PairCounts(source: Pane, target: Pane, after: bool, y: nat)
    ensures Count(Pair(source, target, after), y) == Count([source], y) + Count([target], y)
  {
    assert [target, source] == [target] + [source] && [source, target] == [source] + [target];
    CountAdds([target], [source], y);
    CountAdds([source], [target], y);
  }

  lemma PairFacts(source: Pane, target: Pane, after: bool)
    requires source.View? && target.View?
    ensures Leaves(Pair(source, target, after)) == Pair(source, target, after) && Full(Pair(source, target, after))
  {
    var p := Pair(source, target, after);
    assert p == [p[0]] + [p[1]];
    LeavesCons(p[0], [p[1]]);
    LeavesOne(p[0]);
    LeavesOne(p[1]);
    FullAdds([p[0]], [p[1]]);
    FullOne(p[0]);
    FullOne(p[1]);
  }

  // Putting a pane that is not there beside one that is.
  lemma JoinKeeps(ps: seq<Pane>, source: Pane, target: Pane, o: Orientation, after: bool, newId: nat)
    requires Distinct(ps) && Full(ps) && source.View? && target.View?
    requires Find(ps, target.id) == Some(target) && Count(ps, source.id) == 0 && Count(ps, newId) == 0
            && newId != source.id
    ensures var j := Join(ps, source, target, o, after, newId);
            && Full(j) && Distinct(j)
            && (forall y :: Count(j, y) <= Count(ps, y) + (if y == source.id || y == newId then 1 else 0))
            && Leaves(j) == Beside(Leaves(ps), target, source, after)
            && Neighbours(j, Pair(source, target, after)[0], Pair(source, target, after)[1], o)
  {
    var pair := Pair(source, target, after);
    var parent := ParentOf(ps, target.id);
    var inside := parent.Some? && parent.value.o == o;
    var w := if inside then pair else [Splitter(newId, o, pair)];
    var j := Join(ps, source, target, o, after, newId);
    FoundIffCounted(ps, target.id);
    PairFacts(source, target, after);
    LeavesOne(Splitter(newId, o, pair));
    FullOne(Splitter(newId, o, pair));
    SpliceFull(ps, target.id, w);
    forall y
      ensures Count(j, y) <= Count(ps, y) + (if y == source.id || y == newId then 1 else 0) && Count(j, y) <= 1
    {
      SpliceCount(ps, target.id, w, y);
      PairCounts(source, target, after, y);
      CountOne(source, y);
      CountOne(target, y);
      CountOne(Splitter(newId, o, pair), y);
    }
    SpliceLeaves(ps, target.id, w);
    LeafOnce(ps, target);
    BesideSplits(Before(ps, target.id), After(ps, target.id), target, source, after);
    if inside {
      SpliceJoins(ps, target.id, pair[0], pair[1]);
      assert pair == [pair[0], pair[1]];
    } else {
      NeighboursOne(Splitter(newId, o, pair), pair[0], pair[1], o);
      assert pair[0 + 1] == pair[1];
      SpliceShows(ps, target.id, w, pair[0], pair[1], o);
    }
  }
}
