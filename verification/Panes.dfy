// The tree of panes behind the tabs (MainWindow): each tab page is a pane or a
// splitter of panes, and every operation on it is a splice - a widget replaced,
// in its parent's list, by some other widgets.
module Panes {
  import opened Bytes

  datatype Orientation = Horizontal | Vertical

  // A terminal, a picker for a pane still being set up (its handlers captured
  // the splitter made for it and the pane that was split), or a splitter. Every
  // widget has an identity.
  datatype Pane =
    | View(id: nat)
    | Picker(id: nat, home: nat, beside: nat)
    | Splitter(id: nat, o: Orientation, kids: seq<Pane>)

  // ---- Looking

  // How many widgets of a forest have this identity.
  ghost function Count(ps: seq<Pane>, x: nat): nat
    decreases ps
  {
    if |ps| == 0 then 0
    else (if ps[0].id == x then 1 else 0) + (if ps[0].Splitter? then Count(ps[0].kids, x) else 0) + Count(ps[1..], x)
  }

  // collectViews(), pickers included: the leaves from left to right.
  function Leaves(ps: seq<Pane>): seq<Pane>
    decreases ps
  {
    if |ps| == 0 then []
    else (if ps[0].Splitter? then Leaves(ps[0].kids) else [ps[0]]) + Leaves(ps[1..])
  }

  // The widget with this identity.
  function Find(ps: seq<Pane>, x: nat): (r: Option<Pane>)
    ensures r.Some? ==> r.value.id == x
    decreases ps
  {
    if |ps| == 0 then None
    else if ps[0].id == x then Some(ps[0])
    else
      var inside := if ps[0].Splitter? then Find(ps[0].kids, x) else None;
      if inside.Some? then inside else Find(ps[1..], x)
  }

  predicate Among(ps: seq<Pane>, x: nat) { exists i :: 0 <= i < |ps| && ps[i].id == x }

  // parentWidget(): the splitter a widget sits in, if any.
  function ParentOf(ps: seq<Pane>, x: nat): (r: Option<Pane>)
    ensures r.Some? ==> r.value.Splitter? && Among(r.value.kids, x)
    decreases ps
  {
    if |ps| == 0 then None
    else
      var inside :=
        if !ps[0].Splitter? then None
        else if Among(ps[0].kids, x) then Some(ps[0])
        else ParentOf(ps[0].kids, x);
      if inside.Some? then inside else ParentOf(ps[1..], x)
  }

  // ---- The one change

  // `w` in the place of the widget `x`.
  function Splice(ps: seq<Pane>, x: nat, w: seq<Pane>): seq<Pane>
    decreases ps
  {
    if |ps| == 0 then []
    else
      (if ps[0].id == x then w
       else if ps[0].Splitter? then [Splitter(ps[0].id, ps[0].o, Splice(ps[0].kids, x, w))]
       else [ps[0]])
      + Splice(ps[1..], x, w)
  }

  // ---- What a splice does

  lemma {:induction false} CountAdds(a: seq<Pane>, b: seq<Pane>, x: nat)
    ensures Count(a + b, x) == Count(a, x) + Count(b, x)
    decreases |a|
  {
    if |a| == 0 {
      assert a + b == b;
    } else {
      CountAdds(a[1..], b, x);
      assert (a + b)[1..] == a[1..] + b && (a + b)[0] == a[0];
    }
  }

  lemma {:induction false} LeavesAdds(a: seq<Pane>, b: seq<Pane>)
    ensures Leaves(a + b) == Leaves(a) + Leaves(b)
    decreases |a|
  {
    if |a| == 0 {
      assert a + b == b;
    } else {
      LeavesAdds(a[1..], b);
      assert (a + b)[1..] == a[1..] + b && (a + b)[0] == a[0];
    }
  }

  lemma {:induction false} SpliceAdds(a: seq<Pane>, b: seq<Pane>, x: nat, w: seq<Pane>)
    ensures Splice(a + b, x, w) == Splice(a, x, w) + Splice(b, x, w)
    decreases |a|
  {
    if |a| == 0 {
      assert a + b == b;
    } else {
      SpliceAdds(a[1..], b, x, w);
      assert (a + b)[1..] == a[1..] + b && (a + b)[0] == a[0];
    }
  }

  lemma {:induction false} FoundIffCounted(ps: seq<Pane>, x: nat)
    ensures Find(ps, x).Some? <==> Count(ps, x) > 0
    decreases ps
  {
    if |ps| > 0 {
      FoundIffCounted(ps[1..], x);
      if ps[0].Splitter? {
        FoundIffCounted(ps[0].kids, x);
      }
    }
  }

  // Splicing for a widget that is not there changes nothing.
  lemma {:induction false} SpliceAbsent(ps: seq<Pane>, x: nat, w: seq<Pane>)
    requires Count(ps, x) == 0
    ensures Splice(ps, x, w) == ps
    decreases ps
  {
    if |ps| > 0 {
      SpliceAbsent(ps[1..], x, w);
      if ps[0].Splitter? {
        SpliceAbsent(ps[0].kids, x, w);
      }
      assert ps == [ps[0]] + ps[1..];
    }
  }

  // Replacing a widget by itself changes nothing.
  lemma {:induction false} SpliceSelf(ps: seq<Pane>, x: nat, w: Pane)
    requires Count(ps, x) <= 1 && Find(ps, x) == Some(w)
    ensures Splice(ps, x, [w]) == ps
    decreases ps
  {
    FoundIffCounted(ps[1..], x);
    if ps[0].id == x {
      SpliceAbsent(ps[1..], x, [w]);
    } else if ps[0].Splitter? {
      FoundIffCounted(ps[0].kids, x);
      if Count(ps[0].kids, x) == 0 {
        SpliceAbsent(ps[0].kids, x, [w]);
        SpliceSelf(ps[1..], x, w);
      } else {
        SpliceSelf(ps[0].kids, x, w);
        SpliceAbsent(ps[1..], x, [w]);
      }
    } else {
      SpliceSelf(ps[1..], x, w);
    }
    assert ps == [ps[0]] + ps[1..];
  }

  // The widgets of the new part replace those of the old one.
  lemma {:induction false} SpliceCount(ps: seq<Pane>, x: nat, w: seq<Pane>, y: nat)
    requires Count(ps, x) == 1
    ensures Find(ps, x).Some?
    ensures Count(Splice(ps, x, w), y) == Count(ps, y) - Count([Find(ps, x).value], y) + Count(w, y)
    ensures Count([Find(ps, x).value], y) <= Count(ps, y)
    decreases ps
  {
    FoundIffCounted(ps, x);
    CountOne(ps[0], y);
    if ps[0].id == x {
      SpliceAbsent(ps[1..], x, w);
      CountAdds(w, ps[1..], y);
    } else {
      var rest := Splice(ps[1..], x, w);
      if ps[0].Splitter? && Count(ps[0].kids, x) == 1 {
        FoundIffCounted(ps[0].kids, x);
        SpliceCount(ps[0].kids, x, w, y);
        SpliceAbsent(ps[1..], x, w);
        var changed := Splitter(ps[0].id, ps[0].o, Splice(ps[0].kids, x, w));
        CountAdds([changed], rest, y);
        CountOne(changed, y);
      } else {
        if ps[0].Splitter? {
          SpliceAbsent(ps[0].kids, x, w);
          FoundIffCounted(ps[0].kids, x);
        }
        SpliceCount(ps[1..], x, w, y);
        CountAdds([ps[0]], rest, y);
      }
    }
  }

  lemma CountOne(p: Pane, y: nat)
    ensures Count([p], y) == (if p.id == y then 1 else 0) + (if p.Splitter? then Count(p.kids, y) else 0)
  {
    assert [p][1..] == [];
  }

  lemma LeavesOne(p: Pane)
    ensures Leaves([p]) == if p.Splitter? then Leaves(p.kids) else [p]
  {
    assert [p][1..] == [];
  }

  // The leaves left of a widget, and those right of it.
  ghost function Before(ps: seq<Pane>, x: nat): seq<Pane>
    decreases ps
  {
    if |ps| == 0 || ps[0].id == x then []
    else if ps[0].Splitter? && Count(ps[0].kids, x) > 0 then Before(ps[0].kids, x)
    else Leaves([ps[0]]) + Before(ps[1..], x)
  }

  ghost function After(ps: seq<Pane>, x: nat): seq<Pane>
    decreases ps
  {
    if |ps| == 0 then []
    else if ps[0].id == x then Leaves(ps[1..])
    else if ps[0].Splitter? && Count(ps[0].kids, x) > 0 then After(ps[0].kids, x) + Leaves(ps[1..])
    else After(ps[1..], x)
  }

  lemma Regroup(a: seq<Pane>, b: seq<Pane>, c: seq<Pane>, d: seq<Pane>)
    ensures a + b + c + d == a + b + (c + d) && a + (b + c + d) == a + b + c + d
  {
  }

  lemma LeavesCons(p: Pane, ps: seq<Pane>)
    ensures Leaves([p] + ps) == Leaves([p]) + Leaves(ps)
  {
    LeavesAdds([p], ps);
  }

  // The leaves of the new part take the place of those of the old one; all
  // others stay, in their order.
  lemma {:induction false} SpliceLeaves(ps: seq<Pane>, x: nat, w: seq<Pane>)
    requires Count(ps, x) == 1
    ensures Find(ps, x).Some?
    ensures Leaves(ps) == Before(ps, x) + Leaves([Find(ps, x).value]) + After(ps, x)
    ensures Leaves(Splice(ps, x, w)) == Before(ps, x) + Leaves(w) + After(ps, x)
    decreases ps
  {
    hide Leaves;
    FoundIffCounted(ps, x);
    assert ps == [ps[0]] + ps[1..];
    LeavesCons(ps[0], ps[1..]);
    if ps[0].id == x {
      SpliceAbsent(ps[1..], x, w);
      LeavesAdds(w, ps[1..]);
    } else if ps[0].Splitter? && Count(ps[0].kids, x) == 1 {
      FoundIffCounted(ps[0].kids, x);
      SpliceLeaves(ps[0].kids, x, w);
      SpliceAbsent(ps[1..], x, w);
      var changed := Splitter(ps[0].id, ps[0].o, Splice(ps[0].kids, x, w));
      LeavesCons(changed, ps[1..]);
      LeavesOne(ps[0]);
      LeavesOne(changed);
      var before, after := Before(ps[0].kids, x), After(ps[0].kids, x);
      Regroup(before, Leaves([Find(ps, x).value]), after, Leaves(ps[1..]));
      Regroup(before, Leaves(w), after, Leaves(ps[1..]));
    } else {
      if ps[0].Splitter? {
        SpliceAbsent(ps[0].kids, x, w);
        FoundIffCounted(ps[0].kids, x);
      }
      SpliceLeaves(ps[1..], x, w);
      LeavesCons(ps[0], Splice(ps[1..], x, w));
      var before, after := Before(ps[1..], x), After(ps[1..], x);
      Regroup(Leaves([ps[0]]), before, Leaves([Find(ps, x).value]), after);
      Regroup(Leaves([ps[0]]), before, Leaves(w), after);
    }
  }

  // A splice inside what an earlier splice put there.
  lemma {:induction false} SpliceInner(ps: seq<Pane>, x: nat, w: seq<Pane>, y: nat, v: seq<Pane>)
    requires Count(ps, y) == (if x == y then Count(ps, x) else 0)
    ensures Splice(Splice(ps, x, w), y, v) == Splice(ps, x, Splice(w, y, v))
    decreases ps
  {
    if |ps| > 0 {
      SpliceInner(ps[1..], x, w, y, v);
      if ps[0].id == x {
        SpliceAdds(w, Splice(ps[1..], x, w), y, v);
      } else {
        if ps[0].Splitter? {
          SpliceInner(ps[0].kids, x, w, y, v);
          var changed := Splitter(ps[0].id, ps[0].o, Splice(ps[0].kids, x, w));
          SpliceAdds([changed], Splice(ps[1..], x, w), y, v);
          SpliceOne(changed, y, v);
        } else {
          SpliceAdds([ps[0]], Splice(ps[1..], x, w), y, v);
          SpliceOne(ps[0], y, v);
        }
      }
    }
  }

  lemma SpliceOne(p: Pane, y: nat, v: seq<Pane>)
    ensures Splice([p], y, v) ==
            if p.id == y then v
            else if p.Splitter? then [Splitter(p.id, p.o, Splice(p.kids, y, v))]
            else [p]
  {
    assert [p][1..] == [];
    assert v + [] == v;
  }

  // ---- Shape

  // Every splitter holds at least two widgets.
  ghost predicate Full(ps: seq<Pane>)
    decreases ps
  {
    |ps| > 0 ==> (ps[0].Splitter? ==> |ps[0].kids| >= 2 && Full(ps[0].kids)) && Full(ps[1..])
  }

  // ... but for the splitter `s`, which holds at least one.
  ghost predicate FullBut(ps: seq<Pane>, s: nat)
    decreases ps
  {
    |ps| > 0 ==>
      (ps[0].Splitter? ==> |ps[0].kids| >= (if ps[0].id == s then 1 else 2) && FullBut(ps[0].kids, s))
        && FullBut(ps[1..], s)
  }

  lemma {:induction false} FullAdds(a: seq<Pane>, b: seq<Pane>)
    ensures Full(a + b) <==> Full(a) && Full(b)
    decreases |a|
  {
    if |a| == 0 {
      assert a + b == b;
    } else {
      FullAdds(a[1..], b);
      assert (a + b)[1..] == a[1..] + b && (a + b)[0] == a[0];
    }
  }

  lemma {:induction false} FullOthers(ps: seq<Pane>, s: nat)
    requires FullBut(ps, s) && Count(ps, s) == 0
    ensures Full(ps)
    decreases ps
  {
    if |ps| > 0 {
      FullOthers(ps[1..], s);
      if ps[0].Splitter? {
        FullOthers(ps[0].kids, s);
      }
    }
  }

  lemma FullOne(p: Pane)
    ensures Full([p]) <==> (p.Splitter? ==> |p.kids| >= 2 && Full(p.kids))
  {
    assert [p][1..] == [];
  }

  lemma {:induction false} SpliceLength(ps: seq<Pane>, x: nat, w: seq<Pane>)
    requires Count(ps, x) == 1
    ensures |Splice(ps, x, w)| == |ps| + if Among(ps, x) then |w| - 1 else 0
    decreases |ps|
  {
    assert Among(ps, x) <==> ps[0].id == x || Among(ps[1..], x) by {
      AmongFirst(ps, x);
    }
    if ps[0].id == x {
      SpliceAbsent(ps[1..], x, w);
    } else {
      NotAmongAbsent(ps[1..], x);
      if Count(ps[1..], x) == 1 {
        SpliceLength(ps[1..], x, w);
      } else {
        SpliceAbsent(ps[1..], x, w);
      }
    }
  }

  lemma AmongFirst(ps: seq<Pane>, x: nat)
    requires |ps| > 0
    ensures Among(ps, x) <==> ps[0].id == x || Among(ps[1..], x)
  {
    if Among(ps[1..], x) {
      var i :| 0 <= i < |ps[1..]| && ps[1..][i].id == x;
      assert ps[i + 1].id == x;
    }
    if Among(ps, x) && ps[0].id != x {
      var i :| 0 <= i < |ps| && ps[i].id == x;
      assert ps[1..][i - 1].id == x;
    }
  }

  lemma {:induction false} NotAmongAbsent(ps: seq<Pane>, x: nat)
    ensures Count(ps, x) == 0 ==> !Among(ps, x)
    decreases |ps|
  {
    if |ps| > 0 {
      AmongFirst(ps, x);
      NotAmongAbsent(ps[1..], x);
    }
  }

  // Putting something in a widget's place keeps every splitter full.
  lemma {:induction false} SpliceFull(ps: seq<Pane>, x: nat, w: seq<Pane>)
    requires Full(ps) && Full(w) && |w| >= 1 && Count(ps, x) <= 1
    ensures Full(Splice(ps, x, w))
    decreases ps
  {
    if |ps| > 0 {
      SpliceFull(ps[1..], x, w);
      var rest := Splice(ps[1..], x, w);
      if ps[0].id == x {
        FullAdds(w, rest);
      } else if ps[0].Splitter? {
        SpliceFull(ps[0].kids, x, w);
        if Count(ps[0].kids, x) == 1 {
          SpliceLength(ps[0].kids, x, w);
        } else {
          SpliceAbsent(ps[0].kids, x, w);
        }
        var changed := Splitter(ps[0].id, ps[0].o, Splice(ps[0].kids, x, w));
        FullOne(changed);
        FullAdds([changed], rest);
      } else {
        FullOne(ps[0]);
        FullAdds([ps[0]], rest);
      }
    }
  }

  // Collapsing the one splitter that may be short makes all of them full.
  lemma {:induction false} CollapseFull(ps: seq<Pane>, s: nat, w: seq<Pane>)
    requires FullBut(ps, s) && Full(w) && |w| >= 1 && Count(ps, s) == 1
    ensures Full(Splice(ps, s, w))
    decreases ps
  {
    var rest := Splice(ps[1..], s, w);
    if ps[0].id == s {
      FullOthers(ps[1..], s);
      SpliceAbsent(ps[1..], s, w);
      FullAdds(w, ps[1..]);
    } else {
      if Count(ps[1..], s) == 1 {
        CollapseFull(ps[1..], s, w);
      } else {
        FullOthers(ps[1..], s);
        SpliceAbsent(ps[1..], s, w);
      }
      if ps[0].Splitter? {
        if Count(ps[0].kids, s) == 1 {
          CollapseFull(ps[0].kids, s, w);
          SpliceLength(ps[0].kids, s, w);
        } else {
          FullOthers(ps[0].kids, s);
          SpliceAbsent(ps[0].kids, s, w);
        }
        var changed := Splitter(ps[0].id, ps[0].o, Splice(ps[0].kids, s, w));
        FullOne(changed);
        FullAdds([changed], rest);
      } else {
        FullOne(ps[0]);
        FullAdds([ps[0]], rest);
      }
    }
  }

  // A short splitter that turns out to hold two widgets is full after all.
  lemma {:induction false} FullAfterAll(ps: seq<Pane>, s: nat, p: Pane)
    requires FullBut(ps, s) && Count(ps, s) == 1 && Find(ps, s) == Some(p) && p.Splitter? && |p.kids| >= 2
    ensures Full(ps)
    decreases ps
  {
    FoundIffCounted(ps[1..], s);
    if ps[0].id == s {
      FullOthers(ps[1..], s);
      FullOthers(ps[0].kids, s);
    } else if ps[0].Splitter? && Count(ps[0].kids, s) == 1 {
      FoundIffCounted(ps[0].kids, s);
      FullAfterAll(ps[0].kids, s, p);
      FullOthers(ps[1..], s);
    } else {
      if ps[0].Splitter? {
        FoundIffCounted(ps[0].kids, s);
        FullOthers(ps[0].kids, s);
      }
      FullAfterAll(ps[1..], s, p);
    }
  }
}
