// The operations on the tree of panes (MainWindow::movePane, splitActivePane,
// finishSplitWithResult, closePane) and what each does to the leaves, the
// splitters and the other tabs.
module PaneMoves {
  import opened Bytes
  import opened Panes
  import opened PaneOps

  datatype Zone = Left | Right | Top | Bottom | Swap

  // ---- The operations

  function ZoneOrientation(z: Zone): Orientation { if z.Left? || z.Right? then Horizontal else Vertical }

  predicate ZoneAfter(z: Zone) { z.Right? || z.Bottom? }

  // Three replacements, by way of a widget of no other use.
  function SwapPanes(ps: seq<Pane>, a: Pane, b: Pane, hole: nat): seq<Pane> {
    Splice(Splice(Splice(ps, a.id, [Picker(hole, hole, hole)]), b.id, [a]), hole, [b])
  }

  // What the target's parent is depends on what the removal has left of the tree.
  function EdgeMove(ps: seq<Pane>, source: Pane, target: Pane, z: Zone, newId: nat): seq<Pane>
    requires ParentOf(ps, source.id).Some?
  {
    Join(TakeOut(ps, source.id, ParentOf(ps, source.id).value.id), source, target, ZoneOrientation(z), ZoneAfter(z),
      newId)
  }

  function Split(ps: seq<Pane>, existing: Pane, o: Orientation, sid: nat, pid: nat): seq<Pane> {
    Splice(ps, existing.id, [Splitter(sid, o, [existing, Picker(pid, sid, existing.id)])])
  }

  // The picker's cancel handler.
  function Cancel(ps: seq<Pane>, picker: Pane): seq<Pane>
    requires picker.Picker?
  {
    TakeOut(ps, picker.id, picker.home)
  }

  function Finish(ps: seq<Pane>, picker: Pane, newId: nat): seq<Pane> { Splice(ps, picker.id, [View(newId)]) }

  // ---- Leaves

  lemma {:induction false} LeafFound(ps: seq<Pane>, p: Pane)
    requires Distinct(ps) && p in Leaves(ps)
    ensures Find(ps, p.id) == Some(p) && !p.Splitter?
    decreases ps
  {
    DistinctInside(ps);
    FoundIffCounted(ps[1..], p.id);
    if ps[0].Splitter? && p in Leaves(ps[0].kids) {
      LeafFound(ps[0].kids, p);
      FoundIffCounted(ps[0].kids, p.id);
      assert Count(ps, p.id) <= 1;
    } else if !ps[0].Splitter? && ps[0] == p {
    } else {
      assert p in Leaves(ps[1..]);
      LeafFound(ps[1..], p);
      if ps[0].Splitter? {
        FoundIffCounted(ps[0].kids, p.id);
      }
    }
  }

  lemma {:induction false} WithoutKeeps(l: seq<Pane>, x: Pane, y: Pane)
    requires y in l && y != x
    ensures y in Without(l, x)
  {
    if l[0] != y {
      WithoutKeeps(l[1..], x, y);
    }
  }

  // A pane dropped on another's left or top edge comes just before it, one
  // dropped on its right or bottom edge just after it; the others keep their order.
  ghost predicate Lands(others: seq<Pane>, now: seq<Pane>, source: Pane, target: Pane, z: Zone) {
    exists i :: 0 <= i < |others| && others[i] == target
                && now == others[..i] + (if z.Right? || z.Bottom? then [target, source] else [source, target])
                     + others[i + 1..]
  }

  // And the two are neighbours in a splitter that runs from left to right for
  // the edges at the sides, else from top to bottom.
  ghost predicate SideBySide(ps: seq<Pane>, source: Pane, target: Pane, z: Zone) {
    match z
    case Left => Neighbours(ps, source, target, Horizontal)
    case Right => Neighbours(ps, target, source, Horizontal)
    case Top => Neighbours(ps, source, target, Vertical)
    case Bottom => Neighbours(ps, target, source, Vertical)
    case Swap => true
  }

  lemma BesideLands(others: seq<Pane>, a: seq<Pane>, b: seq<Pane>, source: Pane, target: Pane, z: Zone)
    requires others == a + [target] + b && target !in a && target !in b
    ensures Lands(others, Beside(others, target, source, ZoneAfter(z)), source, target, z)
  {
    BesideSplits(a, b, target, source, ZoneAfter(z));
    assert others[|a|] == target && others[..|a|] == a && others[|a| + 1..] == b;
  }

  // Moving a pane to another's edge takes it out of the order of leaves and
  // puts it back at that side of the target, in a splitter that runs the way
  // the edge asks; no splitter is left with fewer than two widgets.
  lemma EdgeMoveOrders(ps: seq<Pane>, source: Pane, target: Pane, z: Zone, newId: nat)
    requires Distinct(ps) && Full(ps) && source.View? && target.View? && source != target
    requires Find(ps, source.id) == Some(source) && Find(ps, target.id) == Some(target)
    requires ParentOf(ps, source.id).Some? && Count(ps, newId) == 0
    ensures var m := EdgeMove(ps, source, target, z, newId);
            && Full(m) && Distinct(m)
            && (forall y :: Count(m, y) <= Count(ps, y) + (if y == newId then 1 else 0))
            && (forall y :: Count(m, y) <= Count(TakeOut(ps, source.id, ParentOf(ps, source.id).value.id), y)
                  + (if y == newId || y == source.id then 1 else 0))
            && Leaves(m) == Beside(Without(Leaves(ps), source), target, source, ZoneAfter(z))
            && Lands(Without(Leaves(ps), source), Leaves(m), source, target, z)
            && SideBySide(m, source, target, z)
  {
    hide Neighbours, Leaves, Full, Count;
    var s := ParentOf(ps, source.id).value;
    var cut := TakeOut(ps, source.id, s.id);
    TakeOutKeeps(ps, source.id);
    TakeOutLeaf(ps, source);
    LeafOnce(ps, target);
    WithoutKeeps(Leaves(ps), source, target);
    LeafFound(cut, target);
    FoundIffCounted(ps, source.id);
    assert Count([source], source.id) == 1 by {
      CountOne(source, source.id);
    }
    assert Count(cut, source.id) == 0;
    FoundIffCounted(ps, newId);
    assert Count(cut, newId) == 0;
    JoinKeeps(cut, source, target, ZoneOrientation(z), ZoneAfter(z), newId);
    LeafOnce(cut, target);
    BesideLands(Leaves(cut), Before(cut, target.id), After(cut, target.id), source, target, z);
    var m := EdgeMove(ps, source, target, z, newId);
    forall y
      ensures Count(m, y) <= Count(ps, y) + (if y == newId then 1 else 0)
    {
      CountOne(source, y);
    }
  }

  // It joins the target's splitter if that runs the way the edge asks once the
  // pane has been taken out; only else is there a new splitter, of the two.
  lemma NestsIff(ps: seq<Pane>, source: Pane, target: Pane, z: Zone, newId: nat)
    requires Distinct(ps) && Full(ps) && source.View? && target.View? && source != target
    requires Find(ps, source.id) == Some(source) && Find(ps, target.id) == Some(target)
    requires ParentOf(ps, source.id).Some? && Count(ps, newId) == 0
    ensures var parent := ParentOf(TakeOut(ps, source.id, ParentOf(ps, source.id).value.id), target.id);
            Count(EdgeMove(ps, source, target, z, newId), newId) == 0
            <==> parent.Some? && parent.value.o == if z.Left? || z.Right? then Horizontal else Vertical
  {
    hide Leaves, Full, Splice;
    var cut := TakeOut(ps, source.id, ParentOf(ps, source.id).value.id);
    TakeOutKeeps(ps, source.id);
    TakeOutLeaf(ps, source);
    LeafOnce(ps, target);
    WithoutKeeps(Leaves(ps), source, target);
    LeafFound(cut, target);
    FoundIffCounted(cut, target.id);
    FoundIffCounted(ps, newId);
    FoundIffCounted(ps, source.id);
    FoundIffCounted(ps, target.id);
    var pair := Pair(source, target, ZoneAfter(z));
    SpliceCount(cut, target.id, pair, newId);
    SpliceCount(cut, target.id, [Splitter(newId, ZoneOrientation(z), pair)], newId);
    PairCounts(source, target, ZoneAfter(z), newId);
    CountOne(source, newId);
    CountOne(target, newId);
    CountOne(Splitter(newId, ZoneOrientation(z), pair), newId);
  }

  // ---- Swapping

  // The same tree, with two leaves changed for each other.
  ghost function Swapped(ps: seq<Pane>, a: Pane, b: Pane): seq<Pane>
    decreases ps
  {
    if |ps| == 0 then []
    else
      [if ps[0] == a then b
       else if ps[0] == b then a
       else if ps[0].Splitter? then Splitter(ps[0].id, ps[0].o, Swapped(ps[0].kids, a, b))
       else ps[0]]
      + Swapped(ps[1..], a, b)
  }

  // Whatever has a leaf's identity is that leaf.
  ghost predicate Only(ps: seq<Pane>, a: Pane)
    decreases ps
  {
    |ps| > 0 ==> (ps[0].id == a.id ==> ps[0] == a) && (ps[0].Splitter? ==> Only(ps[0].kids, a)) && Only(ps[1..], a)
  }

  lemma {:induction false} AbsentIsOnly(ps: seq<Pane>, a: Pane)
    requires Count(ps, a.id) == 0
    ensures Only(ps, a)
    decreases ps
  {
    if |ps| > 0 {
      AbsentIsOnly(ps[1..], a);
      if ps[0].Splitter? {
        AbsentIsOnly(ps[0].kids, a);
      }
    }
  }

  lemma {:induction false} FoundIsOnly(ps: seq<Pane>, a: Pane)
    requires Count(ps, a.id) == 1 && Find(ps, a.id) == Some(a) && !a.Splitter?
    ensures Only(ps, a)
    decreases ps
  {
    FoundIffCounted(ps[1..], a.id);
    if ps[0].Splitter? {
      FoundIffCounted(ps[0].kids, a.id);
    }
    if ps[0].id == a.id {
      AbsentIsOnly(ps[1..], a);
    } else if ps[0].Splitter? && Count(ps[0].kids, a.id) == 1 {
      FoundIsOnly(ps[0].kids, a);
      AbsentIsOnly(ps[1..], a);
    } else {
      if ps[0].Splitter? {
        AbsentIsOnly(ps[0].kids, a);
      }
      FoundIsOnly(ps[1..], a);
    }
  }

  // The three replacements swap the two panes and touch nothing else.
  lemma {:induction false} SwapIsSwapped(ps: seq<Pane>, a: Pane, b: Pane, hole: nat)
    requires a.View? && b.View? && a.id != b.id && hole != a.id && hole != b.id
    requires Only(ps, a) && Only(ps, b) && Count(ps, hole) == 0
    ensures SwapPanes(ps, a, b, hole) == Swapped(ps, a, b)
    decreases ps
  {
    if |ps| > 0 {
      SwapIsSwapped(ps[1..], a, b, hole);
      var h := Picker(hole, hole, hole);
      var p0 := ps[0];
      var r1 := Splice(ps[1..], a.id, [h]);
      var r2 := Splice(r1, b.id, [a]);
      var p1 := if p0.id == a.id then h
                else if p0.Splitter? then Splitter(p0.id, p0.o, Splice(p0.kids, a.id, [h]))
                else p0;
      var p2 := if p1.id == b.id then a
                else if p1.Splitter? then Splitter(p1.id, p1.o, Splice(p1.kids, b.id, [a]))
                else p1;
      SpliceAdds([p1], r1, b.id, [a]);
      SpliceOne(p1, b.id, [a]);
      SpliceAdds([p2], r2, hole, [b]);
      SpliceOne(p2, hole, [b]);
      if p0.Splitter? {
        SwapIsSwapped(p0.kids, a, b, hole);
      }
    }
  }

  lemma {:induction false} SwappedCount(ps: seq<Pane>, a: Pane, b: Pane, y: nat)
    requires a.View? && b.View? && a.id != b.id && Only(ps, a) && Only(ps, b)
    ensures Count(Swapped(ps, a, b), y) ==
            Count(ps, if y == a.id then b.id else if y == b.id then a.id else y)
    decreases ps
  {
    if |ps| > 0 {
      SwappedCount(ps[1..], a, b, y);
      if ps[0].Splitter? {
        SwappedCount(ps[0].kids, a, b, y);
      }
      var s := Swapped(ps, a, b);
      assert s[1..] == Swapped(ps[1..], a, b);
    }
  }

  lemma {:induction false} SwappedFull(ps: seq<Pane>, a: Pane, b: Pane)
    requires a.View? && b.View? && Full(ps)
    ensures Full(Swapped(ps, a, b)) && |Swapped(ps, a, b)| == |ps|
    decreases ps
  {
    if |ps| > 0 {
      SwappedFull(ps[1..], a, b);
      if ps[0].Splitter? {
        SwappedFull(ps[0].kids, a, b);
      }
      var s := Swapped(ps, a, b);
      assert s[1..] == Swapped(ps[1..], a, b);
    }
  }

  // The order of leaves has just the two changed for each other.
  ghost function Transposed(l: seq<Pane>, a: Pane, b: Pane): seq<Pane> {
    seq(|l|, k requires 0 <= k < |l| => if l[k] == a then b else if l[k] == b then a else l[k])
  }

  lemma TransposedAdds(l: seq<Pane>, m: seq<Pane>, a: Pane, b: Pane)
    ensures Transposed(l + m, a, b) == Transposed(l, a, b) + Transposed(m, a, b)
  {
  }

  lemma {:induction false} SwappedLeaves(ps: seq<Pane>, a: Pane, b: Pane)
    requires a.View? && b.View?
    ensures Leaves(Swapped(ps, a, b)) == Transposed(Leaves(ps), a, b)
    decreases ps
  {
    if |ps| > 0 {
      SwappedLeaves(ps[1..], a, b);
      if ps[0].Splitter? {
        SwappedLeaves(ps[0].kids, a, b);
      }
      var s := Swapped(ps, a, b);
      var first, changed := Leaves([ps[0]]), Leaves([s[0]]);
      LeavesOne(ps[0]);
      LeavesOne(s[0]);
      assert changed == Transposed(first, a, b);
      LeavesCons(ps[0], ps[1..]);
      LeavesCons(s[0], Swapped(ps[1..], a, b));
      TransposedAdds(first, Leaves(ps[1..]), a, b);
      assert ps == [ps[0]] + ps[1..] && s == [s[0]] + Swapped(ps[1..], a, b);
    }
  }

  lemma SwapTransposes(ps: seq<Pane>, a: Pane, b: Pane, hole: nat)
    requires Distinct(ps) && Full(ps) && a.View? && b.View? && a != b
    requires Find(ps, a.id) == Some(a) && Find(ps, b.id) == Some(b) && Count(ps, hole) == 0
    ensures var m := SwapPanes(ps, a, b, hole);
            && m == Swapped(ps, a, b)
            && Full(m) && Distinct(m) && |m| == |ps|
            && (forall y :: Count(m, y) <= Count(ps, y))
            && Leaves(m) == Transposed(Leaves(ps), a, b)
  {
    hide Leaves, Full, Swapped, Splice;
    FoundIffCounted(ps, a.id);
    FoundIffCounted(ps, b.id);
    FoundIsOnly(ps, a);
    FoundIsOnly(ps, b);
    SwapIsSwapped(ps, a, b, hole);
    SwappedFull(ps, a, b);
    SwappedLeaves(ps, a, b);
    forall y
      ensures Count(Swapped(ps, a, b), y) <= 1 && Count(Swapped(ps, a, b), y) <= Count(ps, y)
    {
      SwappedCount(ps, a, b, y);
    }
  }

  // ---- Splitting, finishing and cancelling

  lemma {:induction false} FindSpliced(ps: seq<Pane>, x: nat, w: seq<Pane>, y: nat)
    requires Count(ps, x) == 1 && Count(ps, y) == 0
    ensures Find(Splice(ps, x, w), y) == Find(w, y)
    decreases ps
  {
    var rest := Splice(ps[1..], x, w);
    FoundIffCounted(ps[1..], y);
    if ps[0].id == x {
      SpliceAbsent(ps[1..], x, w);
      FindAdds(w, ps[1..], y);
    } else if ps[0].Splitter? && Count(ps[0].kids, x) == 1 {
      FindSpliced(ps[0].kids, x, w, y);
      SpliceAbsent(ps[1..], x, w);
      FindFirst(Splitter(ps[0].id, ps[0].o, Splice(ps[0].kids, x, w)), rest, y);
    } else {
      if ps[0].Splitter? {
        SpliceAbsent(ps[0].kids, x, w);
        FoundIffCounted(ps[0].kids, y);
      }
      FindSpliced(ps[1..], x, w, y);
      FindFirst(ps[0], rest, y);
    }
  }

  lemma {:induction false} FindAdds(a: seq<Pane>, b: seq<Pane>, y: nat)
    ensures Find(a + b, y) == if Find(a, y).Some? then Find(a, y) else Find(b, y)
    decreases |a|
  {
    if |a| == 0 {
      assert a + b == b;
    } else {
      FindAdds(a[1..], b, y);
      assert (a + b)[1..] == a[1..] + b && (a + b)[0] == a[0];
    }
  }

  lemma Two(a: Pane, b: Pane)
    ensures [a, b] == [a] + [b] && [a, b][1..] == [b] && [b][1..] == []
  {
  }

  // Splitting keeps every leaf where it was and adds the picker just after
  // the pane that was split.
  lemma SplitKeeps(ps: seq<Pane>, existing: Pane, o: Orientation, sid: nat, pid: nat)
    requires Distinct(ps) && Full(ps) && existing.View? && Find(ps, existing.id) == Some(existing)
    requires Count(ps, sid) == 0 && Count(ps, pid) == 0 && sid != pid
    ensures var m := Split(ps, existing, o, sid, pid);
            && Full(m) && Distinct(m)
            && (forall y :: Count(m, y) == Count(ps, y) + (if y == sid || y == pid then 1 else 0))
            && Leaves(m) == Beside(Leaves(ps), existing, Picker(pid, sid, existing.id), true)
            && Neighbours(m, existing, Picker(pid, sid, existing.id), o)
            && Find(m, sid) == Some(Splitter(sid, o, [existing, Picker(pid, sid, existing.id)]))
  {
    var picker := Picker(pid, sid, existing.id);
    var kids := [existing, picker];
    var w := [Splitter(sid, o, kids)];
    var m := Split(ps, existing, o, sid, pid);
    FoundIffCounted(ps, existing.id);
    Two(existing, picker);
    assert Full(kids);
    FullOne(w[0]);
    SpliceFull(ps, existing.id, w);
    forall y
      ensures Count(m, y) == Count(ps, y) + (if y == sid || y == pid then 1 else 0) <= 1
    {
      SpliceCount(ps, existing.id, w, y);
      CountAdds([existing], [picker], y);
      CountOne(existing, y);
      CountOne(picker, y);
      CountOne(w[0], y);
    }
    SpliceLeaves(ps, existing.id, w);
    LeafOnce(ps, existing);
    BesideSplits(Before(ps, existing.id), After(ps, existing.id), existing, picker, true);
    LeavesOne(w[0]);
    LeavesCons(existing, [picker]);
    LeavesOne(existing);
    LeavesOne(picker);
    NeighboursOne(w[0], existing, picker, o);
    assert kids[0 + 1] == picker;
    SpliceShows(ps, existing.id, w, existing, picker, o);
    FindSpliced(ps, existing.id, w, sid);
  }

  // A split that is cancelled leaves the very tree it found.
  lemma CancelUndoesSplit(ps: seq<Pane>, existing: Pane, o: Orientation, sid: nat, pid: nat)
    requires Distinct(ps) && existing.View? && Find(ps, existing.id) == Some(existing)
    requires Count(ps, sid) == 0 && Count(ps, pid) == 0 && sid != pid
    ensures Cancel(Split(ps, existing, o, sid, pid), Picker(pid, sid, existing.id)) == ps
  {
    hide Splice;
    FoundIffCounted(ps, existing.id);
    FoundIffCounted(ps, sid);
    FoundIffCounted(ps, pid);
    var x, picker := existing.id, Picker(pid, sid, existing.id);
    var kids := [existing, picker];
    SpliceInner(ps, x, [Splitter(sid, o, kids)], pid, []);
    SpliceOne(Splitter(sid, o, kids), pid, []);
    Two(existing, picker);
    SpliceAdds([existing], [picker], pid, []);
    SpliceOne(existing, pid, []);
    SpliceOne(picker, pid, []);
    assert [existing] + [] == [existing];
    var alone := Splitter(sid, o, [existing]);
    assert Splice(Split(ps, existing, o, sid, pid), pid, []) == Splice(ps, x, [alone]);
    FindSpliced(ps, x, [alone], sid);
    SpliceInner(ps, x, [alone], sid, [existing]);
    SpliceOne(alone, sid, [existing]);
    SpliceSelf(ps, x, existing);
  }

  // Cancelling takes the picker out and nothing else.
  lemma CancelKeeps(ps: seq<Pane>, picker: Pane)
    requires Distinct(ps) && Full(ps) && picker.Picker? && Find(ps, picker.id) == Some(picker)
    requires ParentOf(ps, picker.id).Some? && ParentOf(ps, picker.id).value.id == picker.home
    ensures var m := Cancel(ps, picker);
            && Full(m) && Distinct(m)
            && (forall y :: Count(m, y) <= Count(ps, y))
            && Leaves(m) == Without(Leaves(ps), picker)
  {
    TakeOutKeeps(ps, picker.id);
    TakeOutLeaf(ps, picker);
  }

  // The new terminal takes the picker's place, and nothing else moves.
  lemma FinishKeeps(ps: seq<Pane>, picker: Pane, newId: nat)
    requires Distinct(ps) && Full(ps) && picker.Picker? && Find(ps, picker.id) == Some(picker) && Count(ps, newId) == 0
    ensures var m := Finish(ps, picker, newId);
            && Full(m) && Distinct(m)
            && (forall y ::
                  Count(m, y) == Count(ps, y) + (if y == newId then 1 else 0) - if y == picker.id then 1 else 0)
            && Leaves(ps) == Before(ps, picker.id) + [picker] + After(ps, picker.id)
            && Leaves(m) == Before(ps, picker.id) + [View(newId)] + After(ps, picker.id)
  {
    FoundIffCounted(ps, picker.id);
    FoundIffCounted(ps, newId);
    FullOne(View(newId));
    SpliceFull(ps, picker.id, [View(newId)]);
    var m := Finish(ps, picker, newId);
    forall y
      ensures Count(m, y) == Count(ps, y) + (if y == newId then 1 else 0) - (if y == picker.id then 1 else 0) <= 1
    {
      SpliceCount(ps, picker.id, [View(newId)], y);
      CountOne(View(newId), y);
      CountOne(picker, y);
    }
    SpliceLeaves(ps, picker.id, [View(newId)]);
    LeavesOne(picker);
    LeavesOne(View(newId));
  }

  // Taking a widget out of a splitter deletes that splitter exactly when it
  // held just two; a picker that was the other one is then left with handlers
  // that name a splitter which is gone.
  lemma SplitterSurvivesIff(ps: seq<Pane>, x: nat)
    requires Distinct(ps) && Full(ps) && ParentOf(ps, x).Some? && Find(ps, x).Some?
    ensures var s := ParentOf(ps, x).value;
            Count(TakeOut(ps, x, s.id), s.id) == 1 <==> |s.kids| > 2
  {
    var s := ParentOf(ps, x).value;
    var cut := Splice(ps, x, []);
    DetachLeaves(ps, x);
    FoundIffCounted(ps, x);
    FoundIffCounted(cut, s.id);
    SpliceCount(ps, x, [], s.id);
    var p := Find(cut, s.id).value;
    if |p.kids| == 1 {
      SpliceCount(cut, s.id, p.kids, s.id);
      CountOne(p, s.id);
    }
  }
}
