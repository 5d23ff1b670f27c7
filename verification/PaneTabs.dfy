// What the pane operations mean for the tabs: each stays inside one tab page,
// and every picker that can still be answered sits in the splitter made for it.
module PaneTabs {
  import opened Bytes
  import opened Panes
  import opened PaneOps
  import opened PaneMoves

  // ---- One tab

  // tabRootOf(): the tab page a widget is in.
  function TabRootOf(ps: seq<Pane>, x: nat): (t: Option<nat>)
    ensures t.Some? ==> t.value < |ps| && Find([ps[t.value]], x).Some?
  {
    if |ps| == 0 then None
    else if Find([ps[0]], x).Some? then Some(0)
    else
      var t := TabRootOf(ps[1..], x);
      if t.Some? then Some(t.value + 1) else None
  }

  lemma {:induction false} RootIsFound(ps: seq<Pane>, x: nat)
    ensures TabRootOf(ps, x).Some? <==> Count(ps, x) > 0
    decreases |ps|
  {
    if |ps| > 0 {
      RootIsFound(ps[1..], x);
      FoundIffCounted([ps[0]], x);
      CountAdds([ps[0]], ps[1..], x);
      assert [ps[0]] + ps[1..] == ps;
    }
  }

  // Two forests that differ in one tab page at most.
  ghost predicate OnlyTab(before: seq<Pane>, after: seq<Pane>, t: nat) {
    |after| == |before| && t < |before| && forall k :: 0 <= k < |before| && k != t ==> after[k] == before[k]
  }

  lemma OnlyTabIs(before: seq<Pane>, after: seq<Pane>, t: nat, page: seq<Pane>)
    requires t < |before| && |page| == 1 && after == before[..t] + page + before[t + 1..]
    ensures OnlyTab(before, after, t) && [after[t]] == page
  {
  }

  // The pages around a tab hold none of its widgets.
  lemma {:induction false} Apart(ps: seq<Pane>, t: nat, x: nat)
    requires t < |ps|
    ensures Count(ps, x) == Count(ps[..t], x) + Count([ps[t]], x) + Count(ps[t + 1..], x)
  {
    CountAdds(ps[..t], [ps[t]], x);
    CountAdds(ps[..t] + [ps[t]], ps[t + 1..], x);
    assert ps[..t] + [ps[t]] + ps[t + 1..] == ps;
  }

  lemma SpliceBetween(a: seq<Pane>, page: seq<Pane>, b: seq<Pane>, x: nat, w: seq<Pane>)
    requires Count(a, x) == 0 && Count(b, x) == 0
    ensures Splice(a + page + b, x, w) == a + Splice(page, x, w) + b
  {
    SpliceAdds(a + page, b, x, w);
    SpliceAdds(a, page, x, w);
    SpliceAbsent(a, x, w);
    SpliceAbsent(b, x, w);
  }

  lemma FindBetween(a: seq<Pane>, page: seq<Pane>, b: seq<Pane>, x: nat)
    requires Count(a, x) == 0 && Count(b, x) == 0
    ensures Find(a + page + b, x) == Find(page, x)
  {
    FindAdds(a + page, b, x);
    FindAdds(a, page, x);
    FoundIffCounted(a, x);
    FoundIffCounted(b, x);
  }

  lemma {:induction false} ParentAdds(a: seq<Pane>, b: seq<Pane>, x: nat)
    ensures ParentOf(a + b, x) == if ParentOf(a, x).Some? then ParentOf(a, x) else ParentOf(b, x)
    decreases |a|
  {
    if |a| == 0 {
      assert a + b == b;
    } else {
      ParentAdds(a[1..], b, x);
      assert (a + b)[1..] == a[1..] + b && (a + b)[0] == a[0];
    }
  }

  lemma NoParent(ps: seq<Pane>, x: nat)
    requires Count(ps, x) == 0
    ensures ParentOf(ps, x).None?
  {
    if ParentOf(ps, x).Some? {
      ParentThere(ps, x);
    }
  }

  lemma ParentBetween(a: seq<Pane>, page: seq<Pane>, b: seq<Pane>, x: nat)
    requires Count(a, x) == 0 && Count(b, x) == 0
    ensures ParentOf(a + page + b, x) == ParentOf(page, x)
  {
    ParentAdds(a + page, b, x);
    ParentAdds(a, page, x);
    NoParent(a, x);
    NoParent(b, x);
  }

  lemma TakeOutBetween(a: seq<Pane>, page: seq<Pane>, b: seq<Pane>, x: nat, s: nat)
    requires Count(a, x) == 0 && Count(b, x) == 0 && Count(a, s) == 0 && Count(b, s) == 0
    ensures TakeOut(a + page + b, x, s) == a + TakeOut(page, x, s) + b
  {
    SpliceBetween(a, page, b, x, []);
    var cut := Splice(page, x, []);
    FindBetween(a, cut, b, s);
    if Find(cut, s).Some? && Find(cut, s).value.Splitter? {
      SpliceBetween(a, cut, b, s, Find(cut, s).value.kids);
    }
  }

  lemma JoinBetween(a: seq<Pane>, page: seq<Pane>, b: seq<Pane>, source: Pane, target: Pane, o: Orientation,
      after: bool, newId: nat)
    requires Count(a, target.id) == 0 && Count(b, target.id) == 0
    ensures Join(a + page + b, source, target, o, after, newId) == a + Join(page, source, target, o, after, newId) + b
  {
    ParentBetween(a, page, b, target.id);
    SpliceBetween(a, page, b, target.id, Pair(source, target, after));
    SpliceBetween(a, page, b, target.id, [Splitter(newId, o, Pair(source, target, after))]);
  }

  // ---- A tab page stays one page

  lemma {:induction false} TopOrParent(ps: seq<Pane>, x: nat)
    requires Count(ps, x) == 1
    ensures ParentOf(ps, x).Some? <==> !Among(ps, x)
    decreases ps
  {
    AmongFirst(ps, x);
    if ps[0].id == x {
      NoParent(ps[1..], x);
      if ps[0].Splitter? {
        NotAmongAbsent(ps[0].kids, x);
        NoParent(ps[0].kids, x);
      }
    } else if ps[0].Splitter? && Count(ps[0].kids, x) == 1 {
      TopOrParent(ps[0].kids, x);
      NotAmongAbsent(ps[1..], x);
      NoParent(ps[1..], x);
    } else {
      TopOrParent(ps[1..], x);
      if ps[0].Splitter? {
        NotAmongAbsent(ps[0].kids, x);
        NoParent(ps[0].kids, x);
      }
    }
  }

  lemma PageAfterTakeOut(page: seq<Pane>, x: nat)
    requires |page| == 1 && Distinct(page) && Full(page) && ParentOf(page, x).Some?
    ensures |TakeOut(page, x, ParentOf(page, x).value.id)| == 1
  {
    var s := ParentOf(page, x).value.id;
    ParentThere(page, x);
    assert Count(page, x) == 1;
    TopOrParent(page, x);
    SpliceLength(page, x, []);
    var cut := Splice(page, x, []);
    DetachLeaves(page, x);
    FoundIffCounted(cut, s);
    FoundIffCounted(page, x);
    SpliceCount(page, x, [], s);
    assert Count(page, s) <= 1;
    SpliceLength(cut, s, Find(cut, s).value.kids);
  }

  lemma PageAfterJoin(page: seq<Pane>, source: Pane, target: Pane, o: Orientation, after: bool, newId: nat)
    requires |page| == 1 && Count(page, target.id) == 1
    ensures |Join(page, source, target, o, after, newId)| == 1
  {
    TopOrParent(page, target.id);
    SpliceLength(page, target.id, Pair(source, target, after));
    SpliceLength(page, target.id, [Splitter(newId, o, Pair(source, target, after))]);
  }

  lemma PageOf(ps: seq<Pane>, t: nat)
    requires t < |ps| && Distinct(ps) && Full(ps)
    ensures Distinct([ps[t]]) && Full([ps[t]])
    ensures ps == ps[..t] + [ps[t]] + ps[t + 1..]
    ensures forall x {:trigger Count(ps, x)} :: Count([ps[t]], x) > 0
              ==> Count(ps[..t], x) == 0 && Count(ps[t + 1..], x) == 0
  {
    hide Count, Full;
    PageFull(ps, t);
    forall x
      ensures Count([ps[t]], x) <= 1
      ensures Count([ps[t]], x) > 0 ==> Count(ps[..t], x) == 0 && Count(ps[t + 1..], x) == 0
    {
      PageCounts(ps, t, x);
    }
  }

  lemma PageCounts(ps: seq<Pane>, t: nat, x: nat)
    requires t < |ps| && Distinct(ps)
    ensures Count([ps[t]], x) <= 1
    ensures Count([ps[t]], x) > 0 ==> Count(ps[..t], x) == 0 && Count(ps[t + 1..], x) == 0
  {
    hide Count;
    Apart(ps, t, x);
    assert Count(ps, x) <= 1;
  }

  lemma PageFull(ps: seq<Pane>, t: nat)
    requires t < |ps| && Full(ps)
    ensures Full([ps[t]]) && ps == ps[..t] + [ps[t]] + ps[t + 1..]
  {
    hide Full;
    assert ps[..t] + [ps[t]] + ps[t + 1..] == ps;
    FullAdds(ps[..t], [ps[t]]);
    FullAdds(ps[..t] + [ps[t]], ps[t + 1..]);
  }

  // Taking out a pane that shares its page with others changes that page alone,
  // and as if it were the only one.
  lemma TakeOutInTab(ps: seq<Pane>, t: nat, x: nat)
    requires Distinct(ps) && Full(ps) && t < |ps| && Count([ps[t]], x) > 0
    ensures ParentOf(ps, x) == ParentOf([ps[t]], x)
    ensures ParentOf(ps, x).Some? ==>
              var m := TakeOut(ps, x, ParentOf(ps, x).value.id);
              OnlyTab(ps, m, t) && [m[t]] == TakeOut([ps[t]], x, ParentOf([ps[t]], x).value.id)
  {
    var a, page, b := ps[..t], [ps[t]], ps[t + 1..];
    PageOf(ps, t);
    assert Count(ps, x) <= 1;
    ParentBetween(a, page, b, x);
    if ParentOf(ps, x).Some? {
      var s := ParentOf(page, x).value.id;
      ParentThere(page, x);
      assert Count(ps, s) <= 1;
      TakeOutBetween(a, page, b, x, s);
      PageAfterTakeOut(page, x);
      OnlyTabIs(ps, TakeOut(ps, x, s), t, TakeOut(page, x, s));
    }
  }

  lemma MoveInTab(ps: seq<Pane>, t: nat, source: Pane, target: Pane, z: Zone, newId: nat)
    requires Distinct(ps) && Full(ps) && t < |ps| && source.View? && target.View? && source != target
    requires Find([ps[t]], source.id) == Some(source) && Find([ps[t]], target.id) == Some(target)
    requires ParentOf(ps, source.id).Some? && Count(ps, newId) == 0
    ensures ParentOf(ps, source.id) == ParentOf([ps[t]], source.id)
    ensures var m := EdgeMove(ps, source, target, z, newId);
            OnlyTab(ps, m, t) && [m[t]] == EdgeMove([ps[t]], source, target, z, newId)
  {
    var a, page, b := ps[..t], [ps[t]], ps[t + 1..];
    PageOf(ps, t);
    FoundIffCounted(page, source.id);
    FoundIffCounted(page, target.id);
    assert Count(ps, source.id) <= 1 && Count(ps, target.id) <= 1;
    ParentBetween(a, page, b, source.id);
    var s := ParentOf(page, source.id).value.id;
    ParentThere(page, source.id);
    assert Count(ps, s) <= 1;
    TakeOutBetween(a, page, b, source.id, s);
    PageAfterTakeOut(page, source.id);
    var cut := TakeOut(page, source.id, s);
    JoinBetween(a, cut, b, source, target, ZoneOrientation(z), ZoneAfter(z), newId);
    TakeOutLeaf(page, source);
    TakeOutKeeps(page, source.id);
    LeafOnce(page, target);
    WithoutKeeps(Leaves(page), source, target);
    LeafFound(cut, target);
    FoundIffCounted(cut, target.id);
    assert Count(cut, target.id) == 1;
    PageAfterJoin(cut, source, target, ZoneOrientation(z), ZoneAfter(z), newId);
    OnlyTabIs(ps, EdgeMove(ps, source, target, z, newId), t, EdgeMove(page, source, target, z, newId));
  }

  lemma SpliceInTab(ps: seq<Pane>, t: nat, x: nat, w: Pane)
    requires Distinct(ps) && Full(ps) && t < |ps| && Count([ps[t]], x) > 0
    ensures var m := Splice(ps, x, [w]); OnlyTab(ps, m, t) && [m[t]] == Splice([ps[t]], x, [w])
  {
    PageOf(ps, t);
    assert Count(ps, x) <= 1;
    SpliceBetween(ps[..t], [ps[t]], ps[t + 1..], x, [w]);
    SpliceLength([ps[t]], x, [w]);
    OnlyTabIs(ps, Splice(ps, x, [w]), t, Splice([ps[t]], x, [w]));
  }

  // ---- Terminals in a tab

  // The terminals among some leaves; collectViews() of a page gives those of its leaves.
  function ViewsIn(l: seq<Pane>): (r: seq<Pane>)
    ensures forall k :: 0 <= k < |r| ==> r[k] in l && r[k].View?
  {
    if |l| == 0 then [] else (if l[0].View? then [l[0]] else []) + ViewsIn(l[1..])
  }

  function CollectViews(page: Pane): seq<Pane> { ViewsIn(Leaves([page])) }

  lemma ViewsCons(p: Pane, l: seq<Pane>)
    ensures ViewsIn([p] + l) == (if p.View? then [p] else []) + ViewsIn(l)
  {
    assert ([p] + l)[1..] == l;
  }

  lemma Chain(a: seq<Pane>, b: seq<Pane>, c: seq<Pane>)
    ensures a + b + c == a + (b + c)
  {
  }

  lemma {:induction false} ViewsAdd(a: seq<Pane>, b: seq<Pane>)
    ensures ViewsIn(a + b) == ViewsIn(a) + ViewsIn(b)
  {
    if |a| == 0 {
      assert a + b == b;
    } else {
      hide ViewsIn;
      var p, rest := a[0], a[1..];
      assert a == [p] + rest;
      Chain([p], rest, b);
      ViewsAdd(rest, b);
      ViewsCons(p, rest + b);
      ViewsCons(p, rest);
      Chain(if p.View? then [p] else [], ViewsIn(rest), ViewsIn(b));
    }
  }

  lemma {:induction false} ViewShows(l: seq<Pane>, v: Pane)
    requires v in l && v.View?
    ensures v in ViewsIn(l)
  {
    if l[0] != v {
      ViewShows(l[1..], v);
    }
  }

  // The first of them is the leftmost: only pickers come before it.
  lemma {:induction false} FirstView(l: seq<Pane>)
    requires |ViewsIn(l)| > 0
    ensures exists i :: 0 <= i < |l| && l[i] == ViewsIn(l)[0] && forall j :: 0 <= j < i ==> !l[j].View?
  {
    if l[0].View? {
      assert l[0] == ViewsIn(l)[0];
    } else {
      FirstView(l[1..]);
      var i :| 0 <= i < |l[1..]| && l[1..][i] == ViewsIn(l[1..])[0] && forall j :: 0 <= j < i ==> !l[1..][j].View?;
      assert l[i + 1] == ViewsIn(l)[0];
      assert forall j :: 1 <= j < i + 1 ==> l[j] == l[1..][j - 1];
    }
  }

  // No page is left without a terminal.
  ghost predicate Peopled(ps: seq<Pane>) { forall k :: 0 <= k < |ps| ==> |CollectViews(ps[k])| > 0 }

  // A page with several terminals keeps one when one is taken out; a page keeps
  // all when a picker is.
  lemma StillPeopled(page: Pane, p: Pane)
    requires Distinct([page]) && Full([page]) && !p.Splitter? && Find([page], p.id) == Some(p)
            && ParentOf([page], p.id).Some?
    requires |CollectViews(page)| > (if p.View? then 1 else 0)
    ensures |ViewsIn(Leaves(TakeOut([page], p.id, ParentOf([page], p.id).value.id)))| > 0
  {
    TakeOutLeaf([page], p);
    LeafOnce([page], p);
    var a, b := Before([page], p.id), After([page], p.id);
    WithoutSplits(a, b, p);
    ViewsAdd(a + [p], b);
    ViewsAdd(a, [p]);
    ViewsAdd(a, b);
    assert [p][1..] == [];
  }

  lemma {:induction false} BesideShows(l: seq<Pane>, target: Pane, source: Pane, after: bool)
    requires target in l
    ensures target in Beside(l, target, source, after) && source in Beside(l, target, source, after)
  {
    if l[0] == target {
      assert target in Pair(source, target, after) && source in Pair(source, target, after) by {
        assert Pair(source, target, after)[0] in Pair(source, target, after);
        assert Pair(source, target, after)[1] in Pair(source, target, after);
      }
    } else {
      BesideShows(l[1..], target, source, after);
    }
  }

  // ---- Pickers

  // Each picker sits in the splitter made for it, unless that one is gone.
  ghost predicate Homes(ps: seq<Pane>, parent: Option<nat>, live: iset<nat>)
    decreases ps
  {
    |ps| > 0 ==>
      && (ps[0].Picker? ==> ps[0].home in live ==> parent == Some(ps[0].home))
      && (ps[0].Splitter? ==> Homes(ps[0].kids, Some(ps[0].id), live))
      && Homes(ps[1..], parent, live)
  }

  ghost function Live(ps: seq<Pane>): iset<nat> { iset y: nat | Count(ps, y) > 0 }

  lemma {:induction false} HomesFewer(ps: seq<Pane>, parent: Option<nat>, live: iset<nat>, fewer: iset<nat>)
    requires Homes(ps, parent, live) && fewer <= live
    ensures Homes(ps, parent, fewer)
    decreases ps
  {
    if |ps| > 0 {
      HomesFewer(ps[1..], parent, live, fewer);
      if ps[0].Splitter? {
        HomesFewer(ps[0].kids, Some(ps[0].id), live, fewer);
      }
    }
  }

  lemma {:induction false} HomesAnywhere(ps: seq<Pane>, parent: Option<nat>, live: iset<nat>)
    requires Homes(ps, None, live)
    ensures Homes(ps, parent, live)
    decreases |ps|
  {
    if |ps| > 0 {
      HomesAnywhere(ps[1..], parent, live);
    }
  }

  lemma {:induction false} HomesAdd(a: seq<Pane>, b: seq<Pane>, parent: Option<nat>, live: iset<nat>)
    ensures Homes(a + b, parent, live) <==> Homes(a, parent, live) && Homes(b, parent, live)
    decreases |a|
  {
    if |a| == 0 {
      assert a + b == b;
    } else {
      HomesAdd(a[1..], b, parent, live);
      assert (a + b)[1..] == a[1..] + b && (a + b)[0] == a[0];
    }
  }

  lemma HomesOne(p: Pane, parent: Option<nat>, live: iset<nat>)
    ensures Homes([p], parent, live) <==>
            (p.Picker? ==> p.home in live ==> parent == Some(p.home))
              && (p.Splitter? ==> Homes(p.kids, Some(p.id), live))
  {
    assert [p][1..] == [];
  }

  lemma {:induction false} HomesSplice(ps: seq<Pane>, parent: Option<nat>, live: iset<nat>, x: nat, w: seq<Pane>)
    requires Homes(ps, parent, live) && Homes(w, None, live)
    ensures Homes(Splice(ps, x, w), parent, live)
    decreases ps
  {
    if |ps| > 0 {
      var rest := Splice(ps[1..], x, w);
      HomesSplice(ps[1..], parent, live, x, w);
      if ps[0].id == x {
        HomesAnywhere(w, parent, live);
        HomesAdd(w, rest, parent, live);
      } else if ps[0].Splitter? {
        HomesSplice(ps[0].kids, Some(ps[0].id), live, x, w);
        var changed := Splitter(ps[0].id, ps[0].o, Splice(ps[0].kids, x, w));
        HomesOne(changed, parent, live);
        HomesAdd([changed], rest, parent, live);
      } else {
        HomesOne(ps[0], parent, live);
        HomesAdd([ps[0]], rest, parent, live);
      }
    }
  }

  lemma {:induction false} HomesFound(ps: seq<Pane>, parent: Option<nat>, live: iset<nat>, s: nat)
    requires Homes(ps, parent, live) && Find(ps, s).Some? && Find(ps, s).value.Splitter?
    ensures Homes(Find(ps, s).value.kids, Some(s), live)
    decreases ps
  {
    if ps[0].id == s {
    } else if ps[0].Splitter? && Find(ps[0].kids, s).Some? {
      HomesFound(ps[0].kids, Some(ps[0].id), live, s);
    } else {
      HomesFound(ps[1..], parent, live, s);
    }
  }

  // The widgets of a splitter that is gone may sit anywhere.
  lemma {:induction false} HomesOrphaned(ps: seq<Pane>, s: nat, live: iset<nat>)
    requires Homes(ps, Some(s), live) && s !in live
    ensures Homes(ps, None, live)
    decreases |ps|
  {
    if |ps| > 0 {
      HomesOrphaned(ps[1..], s, live);
    }
  }

  lemma HomesTakeOut(ps: seq<Pane>, x: nat, live: iset<nat>, fewer: iset<nat>)
    requires Distinct(ps) && Full(ps) && Find(ps, x).Some? && ParentOf(ps, x).Some? && Homes(ps, None, live)
            && fewer <= live
    requires ParentOf(ps, x).value.id in fewer
            ==> Count(TakeOut(ps, x, ParentOf(ps, x).value.id), ParentOf(ps, x).value.id) > 0
    ensures Homes(TakeOut(ps, x, ParentOf(ps, x).value.id), None, fewer)
  {
    var s := ParentOf(ps, x).value.id;
    var cut, m := Splice(ps, x, []), TakeOut(ps, x, s);
    HomesSplice(ps, None, live, x, []);
    HomesFewer(cut, None, live, fewer);
    DetachLeaves(ps, x);
    var p := Find(cut, s).value;
    if |p.kids| == 1 {
      HomesFound(cut, None, fewer, s);
      SplitterSurvivesIff(ps, x);
      TakeOutKeeps(ps, x);
      assert Count(m, s) <= 1;
      HomesOrphaned(p.kids, s, fewer);
      HomesSplice(cut, None, fewer, s, p.kids);
    }
  }

  // A picker whose splitter is still there sits in it.
  lemma {:induction false} AtHome(ps: seq<Pane>, parent: Option<nat>, live: iset<nat>, p: Pane)
    requires Homes(ps, parent, live) && p.Picker? && p.home in live && Find(ps, p.id) == Some(p) && Count(ps, p.id) == 1
    ensures if Among(ps, p.id) then parent == Some(p.home)
            else ParentOf(ps, p.id).Some? && ParentOf(ps, p.id).value.id == p.home
    decreases ps
  {
    AmongFirst(ps, p.id);
    FoundIffCounted(ps[1..], p.id);
    if ps[0].id == p.id {
    } else if ps[0].Splitter? && Count(ps[0].kids, p.id) == 1 {
      FoundIffCounted(ps[0].kids, p.id);
      NotAmongAbsent(ps[1..], p.id);
      AtHome(ps[0].kids, Some(ps[0].id), live, p);
    } else {
      if ps[0].Splitter? {
        FoundIffCounted(ps[0].kids, p.id);
        NotAmongAbsent(ps[0].kids, p.id);
        NoParent(ps[0].kids, p.id);
      }
      AtHome(ps[1..], parent, live, p);
    }
  }

  // Every widget there, and every splitter a picker names, was made before `next`.
  ghost predicate Made(ps: seq<Pane>, next: nat)
    decreases ps
  {
    |ps| > 0 ==>
      ps[0].id < next && (ps[0].Picker? ==> ps[0].home < next) && (ps[0].Splitter? ==> Made(ps[0].kids, next))
        && Made(ps[1..], next)
  }

  lemma {:induction false} MadeBounds(ps: seq<Pane>, next: nat, y: nat)
    requires Made(ps, next) && y >= next
    ensures Count(ps, y) == 0
    decreases ps
  {
    if |ps| > 0 {
      MadeBounds(ps[1..], next, y);
      if ps[0].Splitter? {
        MadeBounds(ps[0].kids, next, y);
      }
    }
  }

  lemma {:induction false} MadeLater(ps: seq<Pane>, next: nat, later: nat)
    requires Made(ps, next) && next <= later
    ensures Made(ps, later)
    decreases ps
  {
    if |ps| > 0 {
      MadeLater(ps[1..], next, later);
      if ps[0].Splitter? {
        MadeLater(ps[0].kids, next, later);
      }
    }
  }

  lemma {:induction false} MadeAdds(a: seq<Pane>, b: seq<Pane>, next: nat)
    ensures Made(a + b, next) <==> Made(a, next) && Made(b, next)
    decreases |a|
  {
    if |a| == 0 {
      assert a + b == b;
    } else {
      MadeAdds(a[1..], b, next);
      assert (a + b)[1..] == a[1..] + b && (a + b)[0] == a[0];
    }
  }

  lemma MadeOne(p: Pane, next: nat)
    ensures Made([p], next) <==>
            p.id < next && (p.Picker? ==> p.home < next) && (p.Splitter? ==> Made(p.kids, next))
  {
    assert [p][1..] == [];
  }

  lemma {:induction false} MadeSplice(ps: seq<Pane>, next: nat, x: nat, w: seq<Pane>)
    requires Made(ps, next) && Made(w, next)
    ensures Made(Splice(ps, x, w), next)
    decreases ps
  {
    if |ps| > 0 {
      var rest := Splice(ps[1..], x, w);
      MadeSplice(ps[1..], next, x, w);
      if ps[0].id == x {
        MadeAdds(w, rest, next);
      } else if ps[0].Splitter? {
        MadeSplice(ps[0].kids, next, x, w);
        var changed := Splitter(ps[0].id, ps[0].o, Splice(ps[0].kids, x, w));
        MadeOne(changed, next);
        MadeAdds([changed], rest, next);
      } else {
        MadeOne(ps[0], next);
        MadeAdds([ps[0]], rest, next);
      }
    }
  }

  lemma {:induction false} MadeFound(ps: seq<Pane>, next: nat, x: nat)
    requires Made(ps, next) && Find(ps, x).Some?
    ensures Made([Find(ps, x).value], next)
    decreases ps
  {
    if ps[0].id == x {
      MadeOne(ps[0], next);
    } else if ps[0].Splitter? && Find(ps[0].kids, x).Some? {
      MadeFound(ps[0].kids, next, x);
    } else {
      MadeFound(ps[1..], next, x);
    }
  }

  lemma MadeTakeOut(ps: seq<Pane>, next: nat, x: nat, s: nat)
    requires Made(ps, next)
    ensures Made(TakeOut(ps, x, s), next)
  {
    var cut := Splice(ps, x, []);
    MadeSplice(ps, next, x, []);
    if Find(cut, s).Some? && Find(cut, s).value.Splitter? {
      MadeFound(cut, next, s);
      MadeOne(Find(cut, s).value, next);
      MadeSplice(cut, next, s, Find(cut, s).value.kids);
    }
  }

  // No picker names a widget that is still to be made.
  lemma {:induction false} HomesWider(ps: seq<Pane>, parent: Option<nat>, live: iset<nat>, wider: iset<nat>, next: nat)
    requires Homes(ps, parent, live) && Made(ps, next) && forall y :: y in wider ==> y in live || y >= next
    ensures Homes(ps, parent, wider)
    decreases ps
  {
    if |ps| > 0 {
      HomesWider(ps[1..], parent, live, wider, next);
      if ps[0].Splitter? {
        HomesWider(ps[0].kids, Some(ps[0].id), live, wider, next);
      }
    }
  }
}
