// The window's tabs (MainWindow): one method per operation on panes.
module MainWindows {
  import opened Bytes
  import opened Panes
  import opened PaneOps
  import opened PaneMoves
  import opened PaneTabs
  import opened PaneSafety

  class MainWindow {
    var tabs: seq<Pane>         // the pages of m_tabs
    var active: Option<nat>     // m_activeView
    var nextId: nat             // widgets made so far

    ghost predicate Valid()
      reads this
    {
      && Sound(tabs, nextId)
      && (active.Some? ==> Find(tabs, active.value) == Some(View(active.value)))
    }

    ghost predicate Has(p: Pane)
      reads this
    {
      Find(tabs, p.id) == Some(p)
    }

    constructor ()
      ensures Valid() && tabs == []
    {
      tabs, active, nextId := [], None, 0;
    }

    method AddTerminalTab() returns (view: Pane)
      requires Valid()
      modifies this
      ensures Valid() && view.View? && Find(old(tabs), view.id).None?
      ensures tabs == old(tabs) + [view] && active == Some(view.id)
    {
      view := View(nextId);
      AddSound(tabs, nextId);
      MadeBounds(tabs, nextId, nextId);
      FoundIffCounted(tabs, nextId);
      FindAdds(tabs, [view], nextId);
      tabs, active, nextId := tabs + [view], Some(nextId), nextId + 1;
    }

    // onFocusChanged(): the pane last focused.
    method Focus(view: Pane)
      requires Valid() && view.View? && Has(view)
      modifies this`active
      ensures Valid() && active == Some(view.id)
    {
      active := Some(view.id);
    }

    function CurrentActiveView(current: Option<nat>): (v: Option<nat>)
      requires current.Some? ==> current.value < |tabs|
      reads this
      ensures active.Some? ==> v == active
      ensures v.None? ==> active.None? && (current.Some? ==> |CollectViews(tabs[current.value])| == 0)
    {
      if active.Some? then active
      else if current.Some? && |CollectViews(tabs[current.value])| > 0 then
        Some(CollectViews(tabs[current.value])[0].id)
      else None
    }

    lemma ActiveIsThere(current: Option<nat>)
      requires Valid() && (current.Some? ==> current.value < |tabs|)
      ensures var v := CurrentActiveView(current); v.Some? ==> Has(View(v.value))
    {
      if active.None? && current.Some? && |CollectViews(tabs[current.value])| > 0 {
        ShownIsThere(tabs, current.value, CollectViews(tabs[current.value])[0]);
      }
    }

    // onCurrentTabChanged(): the first terminal of the page shown gets the focus.
    method OnCurrentTabChanged(index: nat)
      requires Valid() && index < |tabs|
      modifies this`active
      ensures Valid()
      ensures |CollectViews(tabs[index])| > 0 && active == Some(CollectViews(tabs[index])[0].id)
    {
      var views := CollectViews(tabs[index]);
      if |views| > 0 {
        ShownIsThere(tabs, index, views[0]);
        Focus(views[0]);
      }
    }

    // Splits the active pane: a picker for the new one appears just after it,
    // in a splitter of its own. Does nothing without a pane.
    method SplitActivePane(o: Orientation, current: Option<nat>) returns (picker: Option<Pane>)
      requires Valid() && (current.Some? ==> current.value < |tabs|)
      modifies this
      ensures Valid()
      ensures active == old(CurrentActiveView(current)) && picker.Some? == active.Some?
      ensures picker.None? ==> tabs == old(tabs)
      ensures picker.Some? ==>
                var existing, p := View(active.value), picker.value;
                && p.Picker? && Has(p) && ParentOf(tabs, p.id) == Some(Splitter(p.home, o, [existing, p]))
                && Leaves(tabs) == Beside(Leaves(old(tabs)), existing, p, true)
                && OnlyTabOf(old(tabs), tabs, existing.id)
                && Cancel(tabs, p) == old(tabs)
    {
      hide Sound, Find, TabRootOf, ParentOf, Leaves, CollectViews, Beside, OnlyTab, Split, Cancel;
      ActiveIsThere(current);
      active := CurrentActiveView(current);
      match active
      case None =>
        picker := None;
      case Some(id) =>
        var existing, p := View(id), Picker(nextId + 1, nextId, id);
        SplitDoes(tabs, nextId, existing, o);
        tabs, nextId := Split(tabs, existing, o, nextId, nextId + 1), nextId + 2;
        picker := Some(p);
    }

    // What the picker's handlers captured still exists: the splitter for all of
    // them, and the pane that was split for those that use it. Where it does
    // not, the program's handler uses a deleted widget.
    predicate Reaches(picker: Pane, beside: bool)
      reads this
    {
      picker.Picker? && Find(tabs, picker.home).Some?
        && (beside ==> Find(tabs, picker.beside) == Some(View(picker.beside)))
    }

    // The picker has an answer: the new terminal takes its place. To duplicate
    // the pane that was split needs that pane.
    method FinishSplit(picker: Pane, duplicate: bool) returns (view: Option<Pane>)
      requires Valid() && picker.Picker? && Has(picker)
      modifies this
      ensures Valid()
      ensures view.Some? <==> old(Reaches(picker, duplicate))
      ensures view.None? ==> tabs == old(tabs) && active == old(active)
      ensures view.Some? ==>
                && view.value.View? && Find(old(tabs), view.value.id).None? && active == Some(view.value.id)
                && (exists before, after ::
                      && Leaves(old(tabs)) == before + [picker] + after
                      && Leaves(tabs) == before + [view.value] + after)
                && OnlyTabOf(old(tabs), tabs, picker.id) && tabs == Finish(old(tabs), picker, view.value.id)
    {
      if !Reaches(picker, duplicate) {
        return None;
      }
      var v := View(nextId);
      MadeBounds(tabs, nextId, nextId);
      FoundIffCounted(tabs, nextId);
      FinishSound(tabs, nextId, picker);
      FinishKeeps(tabs, picker, nextId);
      ghost var before, after := Before(tabs, picker.id), After(tabs, picker.id);
      tabs, active, nextId := Finish(tabs, picker, nextId), Some(nextId), nextId + 1;
      assert Leaves(tabs) == before + [v] + after;
      assert v in Leaves(tabs);
      LeafFound(tabs, v);
      return Some(v);
    }

    // The picker is dismissed, and the pane that was split has the focus.
    method CancelSplit(picker: Pane) returns (done: bool)
      requires Valid() && picker.Picker? && Has(picker)
      modifies this`tabs, this`active
      ensures Valid()
      ensures done <==> old(Reaches(picker, true))
      ensures !done ==> tabs == old(tabs) && active == old(active)
      ensures done ==>
                && Leaves(tabs) == Without(Leaves(old(tabs)), picker)
                && OnlyTabOf(old(tabs), tabs, picker.id)
                && tabs == Cancel(old(tabs), picker)
                && active == Some(picker.beside)
    {
      if !Reaches(picker, true) {
        return false;
      }
      FoundIffCounted(tabs, picker.home);
      CancelSound(tabs, nextId, picker);
      CancelKeeps(tabs, picker);
      ActiveStays(tabs, Cancel(tabs, picker), picker);
      tabs, active := Cancel(tabs, picker), Some(picker.beside);
      return true;
    }

    lemma ActiveStays(before: seq<Pane>, after: seq<Pane>, p: Pane)
      requires Distinct(before) && Distinct(after) && Leaves(after) == Without(Leaves(before), p)
      ensures forall v: Pane {:trigger Find(after, v.id)} :: v.View? && v != p && Find(before, v.id) == Some(v)
                ==> Find(after, v.id) == Some(v)
    {
      forall v: Pane | v.View? && v != p && Find(before, v.id) == Some(v)
        ensures Find(after, v.id) == Some(v)
      {
        LeafOnce(before, v);
        WithoutKeeps(Leaves(before), p, v);
        LeafFound(after, v);
      }
    }

    // Drops a pane on another: on its middle to swap the two, on an edge to
    // put it there. Panes move only within their own page.
    method MovePane(source: Pane, target: Pane, zone: Zone)
      requires Valid() && source.View? && target.View? && Has(source) && Has(target)
      modifies this
      ensures Valid()
      ensures var refused := source == target
                             || ParentOf(old(tabs), source.id).None? || ParentOf(old(tabs), target.id).None?
                             || TabRootOf(old(tabs), source.id) != TabRootOf(old(tabs), target.id);
              if refused then tabs == old(tabs) && active == old(active)
              else
                && active == Some(source.id)
                && if zone.Swap? then SwappedIn(old(tabs), tabs, source, target)
                   else
                     && MovedIn(old(tabs), tabs, source, target, zone)
                     && tabs == EdgeMove(old(tabs), source, target, zone, old(nextId))
    {
      hide Sound, Find, TabRootOf, ParentOf, Leaves, Swapped, Neighbours, Splice, OnlyTab, Without, Beside;
      var root := TabRootOf(tabs, source.id);
      if source == target || ParentOf(tabs, source.id).None? || ParentOf(tabs, target.id).None?
        || root != TabRootOf(tabs, target.id) {
        return;
      }
      if zone.Swap? {
        SwapDoes(tabs, nextId, source, target);
        tabs := SwapPanes(tabs, source, target, nextId);
      } else {
        EdgeDoes(tabs, nextId, source, target, zone);
        tabs := EdgeMove(tabs, source, target, zone, nextId);
      }
      active, nextId := Some(source.id), nextId + 1;
    }

    predicate LastOnPage(view: Pane)
      reads this
    {
      var t := TabRootOf(tabs, view.id);
      t.Some? && |CollectViews(tabs[t.value])| == 1
    }

    // Closes a terminal; the last one of a page takes the page with it, pickers
    // and all. `shown` is the page the tab bar shows then, `next` the terminal,
    // if any, to which the focus falls as the closed one's widget goes.
    method ClosePane(view: Pane, shown: Option<nat>, next: Option<Pane>)
      requires Valid() && view.View? && Has(view)
      requires shown.Some? ==> shown.value < |tabs| - if LastOnPage(view) then 1 else 0
      requires next.Some? ==> next.value.View? && Has(next.value) && next.value != view
      modifies this
      ensures Valid()
      ensures TabRootOf(old(tabs), view.id).Some?
      ensures var t := TabRootOf(old(tabs), view.id).value;
              var parent := ParentOf(old(tabs), view.id);
              if old(LastOnPage(view)) then Closed(old(tabs), old(active), tabs, active, t, shown)
              else
                && OnlyTab(old(tabs), tabs, t) && Leaves(tabs) == Without(Leaves(old(tabs)), view)
                && parent.Some? && tabs == TakeOut(old(tabs), view.id, parent.value.id)
                && if parent.value.id == old(tabs)[t].id && |parent.value.kids| == 2 then Shows(tabs, t, active)
                   else if shown.Some? && tabs[shown.value].View? then active == Some(tabs[shown.value].id)
                   else active == if next.Some? then Some(next.value.id) else None
    {
      FoundIffCounted(tabs, view.id);
      RootIsFound(tabs, view.id);
      var t := TabRootOf(tabs, view.id).value;
      FoundIffCounted([tabs[t]], view.id);
      InPage(tabs, t, view);
      var parent := ParentOf(tabs, view.id);
      AloneOnPage(tabs[t], view);
      if |CollectViews(tabs[t])| == 1 || parent.None? {
        CloseTab(t, shown);
      } else {
        TakeOutSound(tabs, nextId, view);
        TakeOutLeaf(tabs, view);
        ActiveStays(tabs, TakeOut(tabs, view.id, parent.value.id), view);
        var collapses := parent.value.id == tabs[t].id && |parent.value.kids| == 2;
        active := if next.Some? then Some(next.value.id) else None;
        tabs := TakeOut(tabs, view.id, parent.value.id);
        if collapses {
          OnCurrentTabChanged(t); // the page is taken out of the tab bar and put back
        } else if shown.Some? && tabs[shown.value].View? {
          PageIsThere(tabs, shown.value);
          Focus(tabs[shown.value]);
        }
      }
    }

    // A page that is not a splitter holds one terminal.
    lemma AloneOnPage(page: Pane, view: Pane)
      requires view.View? && Find([page], view.id) == Some(view) && Distinct([page])
      ensures ParentOf([page], view.id).None? ==> |CollectViews(page)| == 1
      ensures |CollectViews(page)| >= 1
    {
      if ParentOf([page], view.id).None? {
        Alone(page, view.id);
      }
      LeavesOne(page);
      LeafOnce([page], view);
      ViewShows(Leaves([page]), view);
      assert [page][1..] == [];
    }

    // Closes a page with all that is in it; no other page changes. If the tab
    // bar turns to another page, `shown`, that one's first terminal gets the focus.
    method CloseTab(index: int, shown: Option<nat>)
      requires Valid()
      requires shown.Some? ==> shown.value < |tabs| - 1
      modifies this
      ensures Valid()
      ensures nextId == old(nextId)
      ensures if 0 <= index < |old(tabs)| then Closed(old(tabs), old(active), tabs, active, index, shown)
              else tabs == old(tabs) && active == old(active)
    {
      if index < 0 || index >= |tabs| {
        return;
      }
      CloseSound(tabs, nextId, index);
      PageOf(tabs, index);
      if active.Some? {
        ghost var v := View(active.value);
        FindAdds(tabs[..index] + [tabs[index]], tabs[index + 1..], v.id);
        FindAdds(tabs[..index], [tabs[index]], v.id);
        FindAdds(tabs[..index], tabs[index + 1..], v.id);
        if Find([tabs[index]], v.id) == Some(v) {
          LeafOnce([tabs[index]], v);
          ViewShows(Leaves([tabs[index]]), v);
        }
      }
      if active.Some? && View(active.value) in CollectViews(tabs[index]) {
        active := None;
      }
      tabs := tabs[..index] + tabs[index + 1..];
      if shown.Some? {
        OnCurrentTabChanged(shown.value);
      }
    }
  }

  // The first terminal of a page is the active one.
  ghost predicate Shows(ps: seq<Pane>, t: nat, active: Option<nat>) {
    t < |ps| && |CollectViews(ps[t])| > 0 && active == Some(CollectViews(ps[t])[0].id)
  }

  // And that is the leftmost: only pickers come before it.
  lemma ShowsFirst(ps: seq<Pane>, t: nat, active: Option<nat>)
    requires Shows(ps, t, active)
    ensures exists i :: 0 <= i < |Leaves([ps[t]])| && Leaves([ps[t]])[i] == View(active.value)
                        && forall j :: 0 <= j < i ==> !Leaves([ps[t]])[j].View?
  {
    hide Leaves;
    FirstView(Leaves([ps[t]]));
  }

  // One page is gone, and the active pane is the first of the page shown
  // instead, or else the one it was unless that is gone too.
  ghost predicate Closed(
    before: seq<Pane>, active: Option<nat>, after: seq<Pane>, later: Option<nat>, t: nat, shown: Option<nat>)
  {
    && t < |before| && after == before[..t] + before[t + 1..]
    && if shown.Some? then Shows(after, shown.value, later)
       else later == if active.Some? && View(active.value) in CollectViews(before[t]) then None else active
  }

  // A terminal of a page is found in the window.
  lemma ShownIsThere(ps: seq<Pane>, t: nat, v: Pane)
    requires Distinct(ps) && Full(ps) && t < |ps| && v in CollectViews(ps[t])
    ensures v.View? && Find(ps, v.id) == Some(v)
  {
    PageOf(ps, t);
    LeafFound([ps[t]], v);
    FoundIffCounted([ps[t]], v.id);
    assert Count(ps, v.id) <= 1;
    FindBetween(ps[..t], [ps[t]], ps[t + 1..], v.id);
  }

  lemma PageIsThere(ps: seq<Pane>, t: nat)
    requires Distinct(ps) && Full(ps) && t < |ps| && ps[t].View?
    ensures Find(ps, ps[t].id) == Some(ps[t])
  {
    LeavesOne(ps[t]);
    ViewShows([ps[t]], ps[t]);
    ShownIsThere(ps, t, ps[t]);
  }

  // One page changes, and in it the two panes change places.
  ghost predicate SwappedIn(before: seq<Pane>, after: seq<Pane>, source: Pane, target: Pane) {
    && after == Swapped(before, source, target)
    && OnlyTabOf(before, after, source.id)
    && var t := TabRootOf(before, source.id).value;
       Leaves([after[t]]) == Transposed(Leaves([before[t]]), source, target)
  }

  // One page changes, and in it the source goes to that side of the target, as
  // its neighbour in a splitter that runs that way.
  ghost predicate MovedIn(before: seq<Pane>, after: seq<Pane>, source: Pane, target: Pane, zone: Zone) {
    && OnlyTabOf(before, after, source.id)
    && var t := TabRootOf(before, source.id).value;
       && Lands(Without(Leaves([before[t]]), source), Leaves([after[t]]), source, target, zone)
       && SideBySide(after, source, target, zone)
  }

  ghost predicate OnlyTabOf(before: seq<Pane>, after: seq<Pane>, x: nat) {
    var t := TabRootOf(before, x);
    t.Some? && OnlyTab(before, after, t.value)
  }

  lemma SwapDoes(ps: seq<Pane>, next: nat, source: Pane, target: Pane)
    requires Sound(ps, next) && source.View? && target.View? && source != target
    requires Find(ps, source.id) == Some(source) && Find(ps, target.id) == Some(target)
    requires TabRootOf(ps, source.id) == TabRootOf(ps, target.id)
    ensures var m := SwapPanes(ps, source, target, next);
            Sound(m, next + 1) && Find(m, source.id) == Some(source) && SwappedIn(ps, m, source, target)
  {
    hide Splice, Swapped, Leaves;
    FoundIffCounted(ps, source.id);
    RootIsFound(ps, source.id);
    var t := TabRootOf(ps, source.id).value;
    FoundIffCounted([ps[t]], source.id);
    FoundIffCounted([ps[t]], target.id);
    SwapSound(ps, next, source, target, t);
    MadeBounds(ps, next, next);
    SwapTransposes(ps, source, target, next);
    SourceStays(ps, source, target);
    LeafFound(Swapped(ps, source, target), source);
  }

  lemma EdgeDoes(ps: seq<Pane>, next: nat, source: Pane, target: Pane, zone: Zone)
    requires Sound(ps, next) && source.View? && target.View? && source != target
    requires Find(ps, source.id) == Some(source) && Find(ps, target.id) == Some(target) && ParentOf(ps, source.id).Some?
    requires TabRootOf(ps, source.id) == TabRootOf(ps, target.id)
    ensures var m := EdgeMove(ps, source, target, zone, next);
            Sound(m, next + 1) && Find(m, source.id) == Some(source) && MovedIn(ps, m, source, target, zone)
  {
    hide Splice, Leaves, Join, TakeOut, Beside, Without, Neighbours, Homes, Made, Lands, SideBySide;
    FoundIffCounted(ps, source.id);
    RootIsFound(ps, source.id);
    var t := TabRootOf(ps, source.id).value;
    FoundIffCounted([ps[t]], source.id);
    FoundIffCounted([ps[t]], target.id);
    MadeBounds(ps, next, next);
    EdgeMoveOrders(ps, source, target, zone, next);
    MovePage(ps, next, source, target, zone, t);
    MoveSound(ps, next, source, target, zone);
    LeafOnce(ps, target);
    WithoutKeeps(Leaves(ps), source, target);
    BesideShows(Without(Leaves(ps), source), target, source, ZoneAfter(zone));
    LeafFound(EdgeMove(ps, source, target, zone, next), source);
  }

  lemma SplitDoes(ps: seq<Pane>, next: nat, existing: Pane, o: Orientation)
    requires Sound(ps, next) && existing.View? && Find(ps, existing.id) == Some(existing)
    ensures var m, p := Split(ps, existing, o, next, next + 1), Picker(next + 1, next, existing.id);
            && Sound(m, next + 2) && OnlyTabOf(ps, m, existing.id)
            && Leaves(m) == Beside(Leaves(ps), existing, p, true)
            && Find(m, p.id) == Some(p) && Find(m, existing.id) == Some(existing)
            && ParentOf(m, p.id) == Some(Splitter(next, o, [existing, p]))
            && Cancel(m, p) == ps
  {
    hide Splice, Leaves, TakeOut, Beside, Homes, Made, Neighbours;
    var m, p := Split(ps, existing, o, next, next + 1), Picker(next + 1, next, existing.id);
    MadeBounds(ps, next, next);
    MadeBounds(ps, next, next + 1);
    FoundIffCounted(ps, existing.id);
    SplitSound(ps, next, existing, o);
    SplitKeeps(ps, existing, o, next, next + 1);
    CancelUndoesSplit(ps, existing, o, next, next + 1);
    SplitFinds(ps, existing, o, next, next + 1);
    LeafOnce(ps, existing);
    BesideShows(Leaves(ps), existing, p, true);
    LeafFound(m, existing);
  }

  lemma SourceStays(ps: seq<Pane>, a: Pane, b: Pane)
    requires Distinct(ps) && a.View? && b.View? && a != b && Find(ps, a.id) == Some(a) && Find(ps, b.id) == Some(b)
    ensures a in Transposed(Leaves(ps), a, b)
  {
    LeafOnce(ps, b);
    var i := |Before(ps, b.id)|;
    assert Leaves(ps)[i] == b;
    assert Transposed(Leaves(ps), a, b)[i] == a;
  }

  lemma {:induction false} ParentSpliced(ps: seq<Pane>, x: nat, q: Pane, y: nat)
    requires Count(ps, x) == 1 && Count(ps, y) == 0 && q.Splitter? && Among(q.kids, y) && q.id != y
    ensures ParentOf(Splice(ps, x, [q]), y) == Some(q)
    decreases ps
  {
    var rest := Splice(ps[1..], x, [q]);
    NoParent(ps[1..], y);
    if ps[0].id == x {
      ParentAdds([q], rest, y);
      assert [q][0].id == q.id;
    } else if ps[0].Splitter? && Count(ps[0].kids, x) == 1 {
      var changed := Splitter(ps[0].id, ps[0].o, Splice(ps[0].kids, x, [q]));
      NotAmongSpliced(ps[0].kids, x, q, y);
      ParentSpliced(ps[0].kids, x, q, y);
      ParentAdds([changed], rest, y);
      assert [changed][0] == changed;
    } else {
      if ps[0].Splitter? {
        SpliceAbsent(ps[0].kids, x, [q]);
      }
      NoParent([ps[0]], y) by {
        CountOne(ps[0], y);
      }
      ParentSpliced(ps[1..], x, q, y);
      ParentAdds([ps[0]], rest, y);
    }
  }

  lemma {:induction false} NotAmongSpliced(ps: seq<Pane>, x: nat, q: Pane, y: nat)
    requires Count(ps, y) == 0 && q.id != y
    ensures !Among(Splice(ps, x, [q]), y)
    decreases |ps|
  {
    if |ps| > 0 {
      NotAmongSpliced(ps[1..], x, q, y);
      var m := Splice(ps, x, [q]);
      AmongFirst(m, y);
      assert m[1..] == Splice(ps[1..], x, [q]);
    }
  }

  lemma SplitFinds(ps: seq<Pane>, existing: Pane, o: Orientation, sid: nat, pid: nat)
    requires existing.View? && Count(ps, existing.id) == 1 && Count(ps, sid) == 0 && Count(ps, pid) == 0 && sid != pid
            && existing.id != pid
    ensures var p := Picker(pid, sid, existing.id);
            && Find(Split(ps, existing, o, sid, pid), pid) == Some(p)
            && ParentOf(Split(ps, existing, o, sid, pid), pid) == Some(Splitter(sid, o, [existing, p]))
  {
    var q := Splitter(sid, o, [existing, Picker(pid, sid, existing.id)]);
    assert q.kids[1].id == pid;
    Two(existing, Picker(pid, sid, existing.id));
    FindFirst(existing, [Picker(pid, sid, existing.id)], pid);
    FindFirst(Picker(pid, sid, existing.id), [], pid);
    FindFirst(q, [], pid);
    FindSpliced(ps, existing.id, [q], pid);
    ParentSpliced(ps, existing.id, q, pid);
  }

  // A run that leaves a picker behind: a page is split and the split answered,
  // its first terminal is split again and dragged below the other before the
  // new picker is. The splitter the picker's handlers use is gone by then.
  lemma PickerLeftBehind()
    ensures var first, second, picker := View(0), View(3), Picker(5, 4, 0);
            var two := Finish(Split([first], first, Horizontal, 1, 2), Picker(2, 1, 0), 3);
            var asking := Split(two, first, Vertical, 4, 5);
            && Sound([first], 1) && Sound(two, 4) && Sound(asking, 6)
            && Find(asking, 5) == Some(picker) && ParentOf(asking, 5) == Some(Splitter(4, Vertical, [first, picker]))
            && ParentOf(asking, 0).Some?
            && var moved := EdgeMove(asking, first, second, Bottom, 6);
               Sound(moved, 7) && Find(moved, 5) == Some(picker) && Find(moved, picker.home).None?
  {
    hide Splice, Homes, Made, Full, Leaves, EdgeMove, TabRootOf, Sound, Count, Beside, Find, ParentOf, Split, Finish;
    var first, second, picker := View(0), View(3), Picker(5, 4, 0);
    OneTerminal();
    TwoTerminals();
    var two := Finish(Split([first], first, Horizontal, 1, 2), Picker(2, 1, 0), 3);
    SplitDoes(two, 4, first, Vertical);
    var asking := Split(two, first, Vertical, 4, 5);
    SoundMeans(asking, 6);
    var s := Splitter(4, Vertical, [first, picker]);
    ParentFound(asking, 5);
    assert s.kids[0].id == 0;
    ParentOfKid(asking, s, 0);
    SecondStays(two, asking, first, second, picker);
    OneRoot(asking, first, second);
    EdgeDoes(asking, 6, first, second, Bottom);
    MadeBounds(asking, 6, 6);
    HomeStaysAfterMoveIff(asking, picker, first, second, Bottom, 6);
  }

  lemma SoundMeans(ps: seq<Pane>, next: nat)
    requires Sound(ps, next)
    ensures Distinct(ps) && Full(ps) && Made(ps, next)
  {
  }

  lemma OneTerminal()
    ensures Sound([View(0)], 1) && Find([View(0)], 0) == Some(View(0))
  {
    NothingSound();
    AddSound([], 0);
    assert [] + [View(0)] == [View(0)];
    FindFirst(View(0), [], 0);
  }

  lemma HalfOpen()
    ensures var half := Split([View(0)], View(0), Horizontal, 1, 2);
            && Sound(half, 3) && |half| == 1 && View(0) in Leaves(half) && Find(half, 2) == Some(Picker(2, 1, 0))
  {
    hide Splice, Homes, Made, Full, Leaves, Sound, Count, Beside, Find, ParentOf, TabRootOf;
    var first := View(0);
    OneTerminal();
    SplitDoes([first], 1, first, Horizontal);
    SoundMeans(Split([first], first, Horizontal, 1, 2), 3);
    LeafOnce(Split([first], first, Horizontal, 1, 2), first);
  }

  lemma TwoTerminals()
    ensures var half := Split([View(0)], View(0), Horizontal, 1, 2);
            var two := Finish(half, Picker(2, 1, 0), 3);
            && Sound(two, 4) && |two| == 1
            && Find(two, 0) == Some(View(0)) && View(3) in Leaves(two)
  {
    hide Splice, Homes, Made, Full, Leaves, Sound, Count, Beside, Find, ParentOf, TabRootOf, Split;
    var half, p := Split([View(0)], View(0), Horizontal, 1, 2), Picker(2, 1, 0);
    HalfOpen();
    SoundMeans(half, 3);
    MadeBounds(half, 3, 3);
    FinishSound(half, 3, p);
    FinishKeeps(half, p, 3);
    var two := Finish(half, p, 3);
    SoundMeans(two, 4);
    assert View(0) in Leaves(two);
    LeafFound(two, View(0));
  }

  lemma NothingSound()
    ensures Sound([], 0)
  {
  }

  lemma SecondStays(two: seq<Pane>, asking: seq<Pane>, first: Pane, second: Pane, picker: Pane)
    requires Distinct(asking) && second in Leaves(two) && first != second
            && Leaves(asking) == Beside(Leaves(two), first, picker, true)
    ensures Find(asking, second.id) == Some(second)
  {
    BesideKeeps(Leaves(two), first, picker, true, second);
    LeafFound(asking, second);
  }

  lemma OneRoot(ps: seq<Pane>, a: Pane, b: Pane)
    requires |ps| == 1 && Find(ps, a.id) == Some(a) && Find(ps, b.id) == Some(b)
    ensures TabRootOf(ps, a.id) == TabRootOf(ps, b.id)
  {
    assert [ps[0]] == ps;
  }
}
