// What holds of the window's tabs after any number of pane operations: every
// splitter holds at least two widgets, every widget is there once, no page is
// without a terminal, and a picker that can still be answered sits in the
// splitter made for it.
module PaneSafety {
  import opened Bytes
  import opened Panes
  import opened PaneOps
  import opened PaneMoves
  import opened PaneTabs

  ghost predicate Sound(ps: seq<Pane>, next: nat) {
    Distinct(ps) && Full(ps) && Made(ps, next) && Homes(ps, None, Live(ps)) && Peopled(ps)
  }

  lemma OnlyThatPage(before: seq<Pane>, after: seq<Pane>, t: nat)
    requires Peopled(before) && OnlyTab(before, after, t) && |CollectViews(after[t])| > 0
    ensures Peopled(after)
  {
  }

  lemma InPage(ps: seq<Pane>, t: nat, p: Pane)
    requires Distinct(ps) && Full(ps) && t < |ps| && Count([ps[t]], p.id) > 0 && Find(ps, p.id) == Some(p)
    ensures Find([ps[t]], p.id) == Some(p) && ParentOf([ps[t]], p.id) == ParentOf(ps, p.id)
    ensures Distinct([ps[t]]) && Full([ps[t]])
  {
    PageOf(ps, t);
    assert Count(ps, p.id) <= 1;
    FindBetween(ps[..t], [ps[t]], ps[t + 1..], p.id);
    ParentBetween(ps[..t], [ps[t]], ps[t + 1..], p.id);
  }

  // A page that is a whole tab is that tab.
  lemma Alone(page: Pane, x: nat)
    requires Find([page], x).Some? && ParentOf([page], x).None? && Distinct([page])
    ensures page.id == x
  {
    FoundIffCounted([page], x);
    assert Count([page], x) <= 1;
    TopOrParent([page], x);
  }

  // Nothing is there but what was, and what has just been made.
  ghost predicate Comes(ps: seq<Pane>, m: seq<Pane>, next: nat) {
    forall y :: y in Live(m) ==> y in Live(ps) || y >= next
  }

  lemma Grown(ps: seq<Pane>, next: nat, p: Pane, t: nat, q: Pane, later: nat)
    requires Sound(ps, next) && Find(ps, p.id) == Some(p) && t < |ps| && Count([ps[t]], p.id) > 0 && next <= later
    requires Made([q], later) && Comes(ps, Splice(ps, p.id, [q]), next) && Homes([q], None, Live(Splice(ps, p.id, [q])))
    ensures var m := Splice(ps, p.id, [q]);
            Made(m, later) && OnlyTab(ps, m, t) && [m[t]] == Splice([ps[t]], p.id, [q]) && Homes(m, None, Live(m))
  {
    var m := Splice(ps, p.id, [q]);
    SpliceInTab(ps, t, p.id, q);
    MadeLater(ps, next, later);
    MadeSplice(ps, later, p.id, [q]);
    HomesWider(ps, None, Live(ps), Live(m), next);
    HomesSplice(ps, None, Live(m), p.id, [q]);
  }

  lemma SplitSound(ps: seq<Pane>, next: nat, existing: Pane, o: Orientation)
    requires Sound(ps, next) && existing.View? && Find(ps, existing.id) == Some(existing)
    ensures TabRootOf(ps, existing.id).Some?
    ensures var m := Split(ps, existing, o, next, next + 1);
            Sound(m, next + 2) && OnlyTab(ps, m, TabRootOf(ps, existing.id).value)
  {
    hide Homes, Made, Leaves, Splice;
    var sid, pid := next, next + 1;
    var picker := Picker(pid, sid, existing.id);
    var q := Splitter(sid, o, [existing, picker]);
    var m := Split(ps, existing, o, sid, pid);
    MadeBounds(ps, next, sid);
    MadeBounds(ps, next, pid);
    SplitKeeps(ps, existing, o, sid, pid);
    FoundIffCounted(ps, existing.id);
    RootIsFound(ps, existing.id);
    var t := TabRootOf(ps, existing.id).value;
    FoundIffCounted([ps[t]], existing.id);
    MadeFound(ps, next, existing.id);
    MadeOne(existing, next);
    QuestionMade(existing, picker, o, sid, next + 2);
    QuestionHomes(existing, picker, o, sid, Live(m));
    Grown(ps, next, existing, t, q, next + 2);
    InPage(ps, t, existing);
    SplitPage(ps, t, existing, o, sid, pid);
    OnlyThatPage(ps, m, t);
  }

  lemma QuestionMade(existing: Pane, picker: Pane, o: Orientation, sid: nat, later: nat)
    requires existing.View? && picker.Picker? && existing.id < later && picker.id < later && picker.home < later
            && sid < later
    ensures Made([Splitter(sid, o, [existing, picker])], later)
  {
    Two(existing, picker);
    MadeOne(picker, later);
    MadeOne(Splitter(sid, o, [existing, picker]), later);
  }

  lemma QuestionHomes(existing: Pane, picker: Pane, o: Orientation, sid: nat, live: iset<nat>)
    requires existing.View? && picker.Picker? && picker.home == sid
    ensures Homes([Splitter(sid, o, [existing, picker])], None, live)
  {
    Two(existing, picker);
    HomesOne(picker, Some(sid), live);
    HomesOne(Splitter(sid, o, [existing, picker]), None, live);
  }

  lemma SplitPage(ps: seq<Pane>, t: nat, existing: Pane, o: Orientation, sid: nat, pid: nat)
    requires t < |ps| && Distinct([ps[t]]) && Full([ps[t]]) && existing.View?
            && Find([ps[t]], existing.id) == Some(existing)
    ensures |ViewsIn(Leaves(Split([ps[t]], existing, o, sid, pid)))| > 0
  {
    var page := [ps[t]];
    var q := Splitter(sid, o, [existing, Picker(pid, sid, existing.id)]);
    FoundIffCounted(page, existing.id);
    SpliceLeaves(page, existing.id, [q]);
    LeavesOne(q);
    Two(existing, Picker(pid, sid, existing.id));
    assert existing in Leaves([q]) by {
      LeavesCons(existing, [Picker(pid, sid, existing.id)]);
      LeavesOne(existing);
    }
    ViewShows(Leaves(Split(page, existing, o, sid, pid)), existing);
  }

  lemma FinishSound(ps: seq<Pane>, next: nat, picker: Pane)
    requires Sound(ps, next) && picker.Picker? && Find(ps, picker.id) == Some(picker)
    ensures TabRootOf(ps, picker.id).Some?
    ensures var m := Finish(ps, picker, next);
            Sound(m, next + 1) && OnlyTab(ps, m, TabRootOf(ps, picker.id).value)
  {
    hide Splice, Leaves;
    var m := Finish(ps, picker, next);
    var v := View(next);
    MadeBounds(ps, next, next);
    FinishKeeps(ps, picker, next);
    FoundIffCounted(ps, picker.id);
    RootIsFound(ps, picker.id);
    var t := TabRootOf(ps, picker.id).value;
    FoundIffCounted([ps[t]], picker.id);
    HomesOne(v, None, Live(m));
    MadeOne(v, next + 1);
    Grown(ps, next, picker, t, v, next + 1);
    InPage(ps, t, picker);
    SpliceLeaves([ps[t]], picker.id, [v]);
    LeavesOne(v);
    ViewShows(Leaves([m[t]]), v);
    OnlyThatPage(ps, m, t);
  }

  // Taking out a picker, or a terminal that is not its page's last.
  lemma TakeOutSound(ps: seq<Pane>, next: nat, p: Pane)
    requires Sound(ps, next) && !p.Splitter? && Find(ps, p.id) == Some(p) && ParentOf(ps, p.id).Some?
    requires TabRootOf(ps, p.id).Some? && |CollectViews(ps[TabRootOf(ps, p.id).value])| > (if p.View? then 1 else 0)
    ensures var m := TakeOut(ps, p.id, ParentOf(ps, p.id).value.id);
            Sound(m, next) && OnlyTab(ps, m, TabRootOf(ps, p.id).value)
  {
    hide Splice, Leaves;
    var t := TabRootOf(ps, p.id).value;
    var s := ParentOf(ps, p.id).value.id;
    var m := TakeOut(ps, p.id, s);
    FoundIffCounted([ps[t]], p.id);
    FoundIffCounted(ps, p.id);
    InPage(ps, t, p);
    TakeOutInTab(ps, t, p.id);
    TakeOutKeeps(ps, p.id);
    MadeTakeOut(ps, next, p.id, s);
    HomesTakeOut(ps, p.id, Live(ps), Live(m));
    StillPeopled(ps[t], p);
    OnlyThatPage(ps, m, t);
  }

  // A picker that can still be answered sits in its splitter, so cancelling it
  // takes it out of there.
  lemma CancelSound(ps: seq<Pane>, next: nat, picker: Pane)
    requires Sound(ps, next) && picker.Picker? && Find(ps, picker.id) == Some(picker) && Count(ps, picker.home) > 0
    ensures ParentOf(ps, picker.id).Some? && ParentOf(ps, picker.id).value.id == picker.home
    ensures TabRootOf(ps, picker.id).Some?
    ensures Sound(Cancel(ps, picker), next) && OnlyTab(ps, Cancel(ps, picker), TabRootOf(ps, picker.id).value)
  {
    FoundIffCounted(ps, picker.id);
    RootIsFound(ps, picker.id);
    assert Count(ps, picker.id) <= 1;
    AtHome(ps, None, Live(ps), picker);
    TakeOutSound(ps, next, picker);
  }

  // The page alone changes, and in it the order of leaves as asked.
  lemma MovePage(ps: seq<Pane>, next: nat, source: Pane, target: Pane, z: Zone, t: nat)
    requires Sound(ps, next) && source.View? && target.View? && source != target && t < |ps|
    requires Find(ps, source.id) == Some(source) && Find(ps, target.id) == Some(target)
    requires Count([ps[t]], source.id) > 0 && Count([ps[t]], target.id) > 0 && ParentOf(ps, source.id).Some?
    ensures var m := EdgeMove(ps, source, target, z, next);
            && Peopled(m) && OnlyTab(ps, m, t)
            && Leaves([m[t]]) == Beside(Without(Leaves([ps[t]]), source), target, source, ZoneAfter(z))
            && Lands(Without(Leaves([ps[t]]), source), Leaves([m[t]]), source, target, z)
  {
    hide Splice, Leaves, Homes, Made, Join, Neighbours, Lands;
    MadeBounds(ps, next, next);
    InPage(ps, t, source);
    InPage(ps, t, target);
    MoveInTab(ps, t, source, target, z, next);
    assert Count([ps[t]], next) == 0 by {
      Apart(ps, t, next);
    }
    EdgeMoveOrders([ps[t]], source, target, z, next);
    LeafOnce([ps[t]], target);
    TargetStays(Leaves([ps[t]]), source, target, ZoneAfter(z));
    var m := EdgeMove(ps, source, target, z, next);
    ViewShows(Leaves([m[t]]), target);
    OnlyThatPage(ps, m, t);
  }

  lemma MoveSound(ps: seq<Pane>, next: nat, source: Pane, target: Pane, z: Zone)
    requires Sound(ps, next) && source.View? && target.View? && source != target
    requires Find(ps, source.id) == Some(source) && Find(ps, target.id) == Some(target) && ParentOf(ps, source.id).Some?
    ensures var m := EdgeMove(ps, source, target, z, next);
            Distinct(m) && Full(m) && Made(m, next + 1) && Homes(m, None, Live(m))
  {
    hide Splice, Leaves, Homes, Made, Neighbours, Full, Beside, Without;
    var s := ParentOf(ps, source.id).value.id;
    var cut, m := TakeOut(ps, source.id, s), EdgeMove(ps, source, target, z, next);
    MadeBounds(ps, next, next);
    EdgeMoveOrders(ps, source, target, z, next);
    HomesWider(ps, None, Live(ps), Live(ps) + Live(m), next);
    MadeTakeOut(ps, next, source.id, s);
    ParentThere(ps, source.id);
    MadeFound(ps, next, source.id);
    MadeOne(source, next);
    MadeFound(ps, next, target.id);
    MadeOne(target, next);
    if s in Live(m) {
      if s >= next {
        MadeBounds(ps, next, s);
      }
      assert s != source.id by {
        DetachLeaves(ps, source.id);
        SpliceCount(ps, source.id, [], source.id);
        CountOne(source, source.id);
        FoundIffCounted(Splice(ps, source.id, []), s);
      }
    }
    HomesTakeOut(ps, source.id, Live(ps) + Live(m), Live(m));
    JoinMade(cut, next, source, target, ZoneOrientation(z), ZoneAfter(z), Live(m));
  }

  lemma TargetStays(l: seq<Pane>, source: Pane, target: Pane, after: bool)
    requires target in l && source != target
    ensures target in Beside(Without(l, source), target, source, after)
  {
    WithoutKeeps(l, source, target);
    BesideShows(Without(l, source), target, source, after);
  }

  lemma JoinMade(cut: seq<Pane>, next: nat, source: Pane, target: Pane, o: Orientation, after: bool, live: iset<nat>)
    requires Made(cut, next) && Homes(cut, None, live) && source.View? && target.View? && source.id < next
            && target.id < next
    ensures var m := Join(cut, source, target, o, after, next);
            Made(m, next + 1) && Homes(m, None, live)
  {
    var pair := Pair(source, target, after);
    var q := Splitter(next, o, pair);
    assert pair[1..] == [pair[1]] && pair[1..][1..] == [];
    MadeLater(cut, next, next + 1);
    MadeSplice(cut, next + 1, target.id, pair);
    MadeOne(q, next + 1);
    MadeSplice(cut, next + 1, target.id, [q]);
    HomesSplice(cut, None, live, target.id, pair);
    assert Homes(pair, Some(next), live);
    HomesOne(q, None, live);
    HomesSplice(cut, None, live, target.id, [q]);
  }

  // ---- Swapping

  lemma {:induction false} SwappedAt(ps: seq<Pane>, a: Pane, b: Pane, k: nat)
    requires k < |ps|
    ensures |Swapped(ps, a, b)| == |ps| && Swapped([ps[k]], a, b) == [Swapped(ps, a, b)[k]]
    decreases |ps|
  {
    assert [ps[k]][1..] == [];
    if |ps| > 1 {
      SwappedAt(ps[1..], a, b, if k > 0 then k - 1 else 0);
    }
  }

  lemma {:induction false} SwappedNone(ps: seq<Pane>, a: Pane, b: Pane)
    requires Count(ps, a.id) == 0 && Count(ps, b.id) == 0
    ensures Swapped(ps, a, b) == ps
    decreases ps
  {
    if |ps| > 0 {
      SwappedNone(ps[1..], a, b);
      if ps[0].Splitter? {
        SwappedNone(ps[0].kids, a, b);
      }
    }
  }

  lemma {:induction false} AbsentApart(ps: seq<Pane>, t: nat, k: nat, x: nat)
    requires Distinct(ps) && t < |ps| && k < |ps| && t != k && Count([ps[t]], x) > 0
    ensures Count([ps[k]], x) == 0
  {
    Apart(ps, t, x);
    assert Count(ps, x) <= 1;
    if k < t {
      Apart(ps[..t], k, x);
    } else {
      Apart(ps[t + 1..], k - t - 1, x);
    }
  }

  lemma SwapPage(ps: seq<Pane>, a: Pane, b: Pane, t: nat)
    requires Distinct(ps) && Peopled(ps) && a.View? && b.View? && t < |ps|
    requires Count([ps[t]], a.id) > 0 && Count([ps[t]], b.id) > 0 && Find([ps[t]], a.id) == Some(a)
    requires Distinct([ps[t]])
    ensures var m := Swapped(ps, a, b);
            && Peopled(m) && OnlyTab(ps, m, t)
            && Leaves([m[t]]) == Transposed(Leaves([ps[t]]), a, b)
  {
    hide Leaves, Swapped;
    var m := Swapped(ps, a, b);
    SwappedAt(ps, a, b, t);
    forall k | 0 <= k < |ps| && k != t
      ensures m[k] == ps[k]
    {
      SwappedAt(ps, a, b, k);
      AbsentApart(ps, t, k, a.id);
      AbsentApart(ps, t, k, b.id);
      SwappedNone([ps[k]], a, b);
    }
    SwappedLeaves([ps[t]], a, b);
    LeafOnce([ps[t]], a);
    var l := Leaves([ps[t]]);
    var i := |Before([ps[t]], a.id)|;
    assert l[i] == a;
    assert Transposed(l, a, b)[i] == b;
    ViewShows(Leaves([m[t]]), b);
    OnlyThatPage(ps, m, t);
  }

  lemma SwapSound(ps: seq<Pane>, next: nat, a: Pane, b: Pane, t: nat)
    requires Sound(ps, next) && a.View? && b.View? && a != b && t < |ps|
    requires Find(ps, a.id) == Some(a) && Find(ps, b.id) == Some(b)
    requires Count([ps[t]], a.id) > 0 && Count([ps[t]], b.id) > 0
    ensures var m := SwapPanes(ps, a, b, next);
            && m == Swapped(ps, a, b)
            && Sound(m, next + 1) && OnlyTab(ps, m, t)
            && Leaves([m[t]]) == Transposed(Leaves([ps[t]]), a, b)
  {
    hide Splice, Leaves, Swapped, Transposed;
    MadeBounds(ps, next, next);
    SwapTransposes(ps, a, b, next);
    InPage(ps, t, a);
    SwapPage(ps, a, b, t);
    MadeFound(ps, next, a.id);
    MadeFound(ps, next, b.id);
    MadeOne(a, next);
    MadeOne(b, next);
    SwapMade(ps, next, a, b);
    HomesFewer(SwapPanes(ps, a, b, next), None, Live(ps), Live(SwapPanes(ps, a, b, next)));
  }

  lemma SwapMade(ps: seq<Pane>, next: nat, a: Pane, b: Pane)
    requires Made(ps, next) && Homes(ps, None, Live(ps)) && a.View? && b.View? && a.id < next && b.id < next
    ensures Made(SwapPanes(ps, a, b, next), next + 1) && Homes(SwapPanes(ps, a, b, next), None, Live(ps))
  {
    var hole := Picker(next, next, next);
    MadeBounds(ps, next, next);
    MadeLater(ps, next, next + 1);
    MadeOne(hole, next + 1);
    MadeOne(a, next + 1);
    MadeOne(b, next + 1);
    HomesOne(hole, None, Live(ps));
    HomesOne(a, None, Live(ps));
    HomesOne(b, None, Live(ps));
    var m1 := Splice(ps, a.id, [hole]);
    var m2 := Splice(m1, b.id, [a]);
    MadeSplice(ps, next + 1, a.id, [hole]);
    MadeSplice(m1, next + 1, b.id, [a]);
    MadeSplice(m2, next + 1, next, [b]);
    HomesSplice(ps, None, Live(ps), a.id, [hole]);
    HomesSplice(m1, None, Live(ps), b.id, [a]);
    HomesSplice(m2, None, Live(ps), next, [b]);
  }

  // ---- Whole pages

  lemma AddSound(ps: seq<Pane>, next: nat)
    requires Sound(ps, next)
    ensures Sound(ps + [View(next)], next + 1)
  {
    var m := ps + [View(next)];
    MadeBounds(ps, next, next);
    MadeLater(ps, next, next + 1);
    MadeAdds(ps, [View(next)], next + 1);
    MadeOne(View(next), next + 1);
    FullAdds(ps, [View(next)]);
    FullOne(View(next));
    forall y
      ensures Count(m, y) == Count(ps, y) + (if y == next then 1 else 0) <= 1
    {
      CountAdds(ps, [View(next)], y);
      CountOne(View(next), y);
      MadeBounds(ps, next, next);
    }
    HomesWider(ps, None, Live(ps), Live(m), next);
    HomesAdd(ps, [View(next)], None, Live(m));
    HomesOne(View(next), None, Live(m));
    LeavesOne(View(next));
    ViewShows(Leaves([View(next)]), View(next));
  }

  lemma CloseSound(ps: seq<Pane>, next: nat, t: nat)
    requires Sound(ps, next) && t < |ps|
    ensures Sound(ps[..t] + ps[t + 1..], next)
    ensures forall y :: Count(ps[..t] + ps[t + 1..], y) == Count(ps, y) - Count([ps[t]], y)
  {
    var m := ps[..t] + ps[t + 1..];
    PageOf(ps, t);
    FullAdds(ps[..t] + [ps[t]], ps[t + 1..]);
    FullAdds(ps[..t], [ps[t]]);
    FullAdds(ps[..t], ps[t + 1..]);
    MadeAdds(ps[..t] + [ps[t]], ps[t + 1..], next);
    MadeAdds(ps[..t], [ps[t]], next);
    MadeAdds(ps[..t], ps[t + 1..], next);
    HomesAdd(ps[..t] + [ps[t]], ps[t + 1..], None, Live(ps));
    HomesAdd(ps[..t], [ps[t]], None, Live(ps));
    HomesAdd(ps[..t], ps[t + 1..], None, Live(ps));
    forall y
      ensures Count(m, y) == Count(ps, y) - Count([ps[t]], y)
    {
      Apart(ps, t, y);
      CountAdds(ps[..t], ps[t + 1..], y);
    }
    HomesFewer(m, None, Live(ps), Live(m));
  }

  // ---- Pickers left behind

  // A terminal that leaves its splitter takes a picker's splitter away exactly
  // when the two were alone in it; the picker itself stays.
  lemma HomeStaysIff(ps: seq<Pane>, picker: Pane, x: Pane)
    requires Distinct(ps) && Full(ps) && picker.Picker? && Find(ps, picker.id) == Some(picker)
    requires ParentOf(ps, picker.id).Some? && ParentOf(ps, picker.id).value.id == picker.home
    requires x.View? && Find(ps, x.id) == Some(x) && ParentOf(ps, x.id).Some?
    ensures var s := ParentOf(ps, x.id).value;
            var m := TakeOut(ps, x.id, s.id);
            && Find(m, picker.id) == Some(picker)
            && (Find(m, picker.home).Some? <==> s.id != picker.home || |s.kids| > 2)
  {
    hide Splice, Leaves, Full, TakeOut, Without;
    var s := ParentOf(ps, x.id).value;
    var m := TakeOut(ps, x.id, s.id);
    TakeOutKeeps(ps, x.id);
    TakeOutLeaf(ps, x);
    LeafOnce(ps, picker);
    WithoutKeeps(Leaves(ps), x, picker);
    LeafFound(m, picker);
    SplitterSurvivesIff(ps, x.id);
    ParentThere(ps, picker.id);
    FoundIffCounted(m, picker.home);
    CountOne(x, picker.home);
    HomeIsSplitter(ps, picker);
    assert Count(ps, picker.home) <= 1 && Count(m, picker.home) <= 1;
  }

  // A splitter is no terminal.
  lemma HomeIsSplitter(ps: seq<Pane>, picker: Pane)
    requires Distinct(ps) && Full(ps) && ParentOf(ps, picker.id).Some?
    ensures Find(ps, ParentOf(ps, picker.id).value.id).Some?
            && Find(ps, ParentOf(ps, picker.id).value.id).value.Splitter?
  {
    ParentFound(ps, picker.id);
  }

  lemma {:induction false} ParentFound(ps: seq<Pane>, x: nat)
    requires Distinct(ps) && ParentOf(ps, x).Some?
    ensures Find(ps, ParentOf(ps, x).value.id) == Some(ParentOf(ps, x).value)
    decreases ps
  {
    DistinctInside(ps);
    ParentThere(ps, x);
    var s := ParentOf(ps, x).value;
    if ps[0].Splitter? && Among(ps[0].kids, x) {
    } else if ps[0].Splitter? && ParentOf(ps[0].kids, x).Some? {
      ParentThere(ps[0].kids, x);
      ParentFound(ps[0].kids, x);
      assert Count(ps, s.id) <= 1;
    } else {
      ParentThere(ps[1..], x);
      ParentFound(ps[1..], x);
      assert Count(ps, s.id) <= 1;
      if ps[0].Splitter? {
        FoundIffCounted(ps[0].kids, s.id);
      }
    }
  }

  // The same for a terminal that moves: where it goes makes no difference.
  lemma HomeStaysAfterMoveIff(ps: seq<Pane>, picker: Pane, source: Pane, target: Pane, z: Zone, newId: nat)
    requires Distinct(ps) && Full(ps) && picker.Picker? && Find(ps, picker.id) == Some(picker)
    requires ParentOf(ps, picker.id).Some? && ParentOf(ps, picker.id).value.id == picker.home
    requires source.View? && target.View? && source != target && ParentOf(ps, source.id).Some?
    requires Find(ps, source.id) == Some(source) && Find(ps, target.id) == Some(target) && Count(ps, newId) == 0
    ensures var s := ParentOf(ps, source.id).value;
            var m := EdgeMove(ps, source, target, z, newId);
            && Find(m, picker.id) == Some(picker)
            && (Find(m, picker.home).Some? <==> s.id != picker.home || |s.kids| > 2)
  {
    hide Splice, Leaves, Full, TakeOut, Without, Beside, Neighbours, Join;
    var s := ParentOf(ps, source.id).value;
    var cut := TakeOut(ps, source.id, s.id);
    var m := EdgeMove(ps, source, target, z, newId);
    HomeStaysIff(ps, picker, source);
    EdgeMoveOrders(ps, source, target, z, newId);
    TakeOutLeaf(ps, source);
    TakeOutKeeps(ps, source.id);
    LeafOnce(ps, target);
    LeafOnce(ps, picker);
    WithoutKeeps(Leaves(ps), source, target);
    WithoutKeeps(Leaves(ps), source, picker);
    LeafFound(cut, target);
    BesideKeeps(Without(Leaves(ps), source), target, source, ZoneAfter(z), picker);
    LeafFound(m, picker);
    HomeIsSplitter(ps, picker);
    FoundIffCounted(ps, newId);
    FoundIffCounted(cut, picker.home);
    FoundIffCounted(m, picker.home);
    JoinCounts(cut, source, target, ZoneOrientation(z), ZoneAfter(z), newId, picker.home);
  }

  lemma {:induction false} BesideKeeps(l: seq<Pane>, target: Pane, source: Pane, after: bool, p: Pane)
    requires p in l && p != target
    ensures p in Beside(l, target, source, after)
  {
    if l[0] != p {
      BesideKeeps(l[1..], target, source, after, p);
    }
  }

  // Joining brings and takes no other widget.
  lemma JoinCounts(ps: seq<Pane>, source: Pane, target: Pane, o: Orientation, after: bool, newId: nat, y: nat)
    requires Distinct(ps) && source.View? && target.View? && Find(ps, target.id) == Some(target)
    requires y != source.id && y != newId
    ensures Count(Join(ps, source, target, o, after, newId), y) == Count(ps, y)
  {
    var pair := Pair(source, target, after);
    FoundIffCounted(ps, target.id);
    assert Count(ps, target.id) <= 1;
    SpliceCount(ps, target.id, pair, y);
    SpliceCount(ps, target.id, [Splitter(newId, o, pair)], y);
    PairCounts(source, target, after, y);
    CountOne(source, y);
    CountOne(target, y);
    CountOne(Splitter(newId, o, pair), y);
  }

  // Each widget of a splitter has that splitter for a parent.
  lemma {:induction false} ParentOfKid(ps: seq<Pane>, s: Pane, x: nat)
    requires Distinct(ps) && s.Splitter? && Find(ps, s.id) == Some(s) && Among(s.kids, x)
    ensures ParentOf(ps, x) == Some(s)
    decreases ps
  {
    DistinctInside(ps);
    FoundIffCounted(ps[1..], s.id);
    if ps[0].id == s.id {
    } else if ps[0].Splitter? && Find(ps[0].kids, s.id).Some? {
      FoundIffCounted(ps[0].kids, s.id);
      ParentOfKid(ps[0].kids, s, x);
      OneParent(ps[0].kids, s, x);
    } else {
      ParentOfKid(ps[1..], s, x);
      ParentThere(ps[1..], x);
      assert Count(ps, x) <= 1;
      if ps[0].Splitter? {
        NotAmongAbsent(ps[0].kids, x);
        NoParent(ps[0].kids, x);
      }
    }
  }

  lemma OneParent(ps: seq<Pane>, s: Pane, x: nat)
    requires Distinct(ps) && ParentOf(ps, x) == Some(s)
    ensures !Among(ps, x)
  {
    ParentThere(ps, x);
    assert Count(ps, x) <= 1;
    TopOrParent(ps, x);
  }
}
