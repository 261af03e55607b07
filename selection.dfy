/**
 * The selection tracker of the scroll widget, as pure definitions: which child
 * is nearest the centre, how the current selection moves on, and which
 * notifications a change of selection raises, in order.
 */
module Selection {
  import opened Wrappers
  import opened Numeric

  /** Opaque identity of a child object of the content container. */
  type ItemId = nat

  /** A child of the content container: its identity and its horizontal position. */
  datatype Child = Child(id: ItemId, x: real)

  /** One notification raised by the tracker. */
  datatype Notice =
    | ScrollSelect(item: ItemId)      // the select hook of the newly selected item
    | ScrollDeselect(item: ItemId)    // the deselect hook of the previously selected item
    | SetFocus(focus: Option<ItemId>) // the event system's focused object is set
    | SelectedChange(prev: Option<ItemId>, current: Option<ItemId>)

  /** Distance of a child from the centre. */
  function Dist(centre: real, c: Child): real {
    Abs(centre - c.x)
  }

  /**
   * k is the nearest child to the centre, and no earlier child is as near:
   * the lowest-index minimiser of the distance.
   */
  ghost predicate IsNearestChild(children: seq<Child>, centre: real, k: int) {
    0 <= k < |children| &&
    (forall j :: 0 <= j < |children| ==> Dist(centre, children[k]) <= Dist(centre, children[j])) &&
    (forall j :: 0 <= j < k ==> Dist(centre, children[k]) < Dist(centre, children[j]))
  }

  /** At most one child is the lowest-index nearest one. */
  lemma NearestChildUnique(children: seq<Child>, centre: real, k1: int, k2: int)
    requires IsNearestChild(children, centre, k1) && IsNearestChild(children, centre, k2)
    ensures k1 == k2
  {
    assert Dist(centre, children[k1]) <= Dist(centre, children[k2]);
    assert Dist(centre, children[k2]) <= Dist(centre, children[k1]);
  }

  /**
   * The index of the child the scan keeps: none for no children, otherwise the
   * lowest-index child nearest the centre.
   */
  function Nearest(children: seq<Child>, centre: real): (r: Option<nat>)
    ensures r.None? <==> |children| == 0
    ensures r.Some? ==> IsNearestChild(children, centre, r.value)
  {
    if |children| == 0 then None
    else
      var prefix := children[..|children| - 1];
      var p := Nearest(prefix, centre);
      if p.None? then Some(0)
      else if Dist(centre, children[|children| - 1]) < Dist(centre, children[p.value]) then Some(|children| - 1)
      else p
  }

  /**
   * The selection after one scan: the nearest child's identity, or the old
   * selection when there are no children.
   */
  function Reselect(current: Option<ItemId>, children: seq<Child>, centre: real): (r: Option<ItemId>)
    ensures |children| == 0 ==> r == current
    ensures |children| > 0 ==> exists k :: IsNearestChild(children, centre, k) && r == Some(children[k].id)
    ensures current.Some? ==> r.Some?
  {
    match Nearest(children, centre)
    case None => current
    case Some(k) => Some(children[k].id)
  }

  /**
   * The notifications raised when the selection goes from prev to current:
   * select on the new item (if it has a select hook), deselect on the old
   * item (if it has a deselect hook), focus on the new item, then the
   * selection-changed event; nothing at all when the selection is unchanged.
   */
  function Notifications(prev: Option<ItemId>, current: Option<ItemId>,
                         selectHooks: set<ItemId>, deselectHooks: set<ItemId>): (evs: seq<Notice>)
    ensures evs == [] <==> prev == current
    ensures prev != current ==>
      |evs| == 2 + (if current.Some? && current.value in selectHooks then 1 else 0)
                 + (if prev.Some? && prev.value in deselectHooks then 1 else 0) &&
      evs[|evs| - 2] == SetFocus(current) && evs[|evs| - 1] == SelectedChange(prev, current)
    ensures forall k: ItemId :: ScrollSelect(k) in evs <==> prev != current && current == Some(k) && k in selectHooks
    ensures forall k: ItemId :: ScrollDeselect(k) in evs <==> prev != current && prev == Some(k) && k in deselectHooks
    ensures forall i, j :: 0 <= i < |evs| && 0 <= j < |evs| && evs[i].ScrollDeselect? && evs[j].ScrollSelect? ==> j < i
    ensures forall i :: 0 <= i < |evs| && evs[i].SetFocus? ==> i == |evs| - 2
    ensures forall i :: 0 <= i < |evs| && evs[i].SelectedChange? ==> i == |evs| - 1
  {
    if prev == current then []
    else
      (if current.Some? && current.value in selectHooks then [ScrollSelect(current.value)] else []) +
      (if prev.Some? && prev.value in deselectHooks then [ScrollDeselect(prev.value)] else []) +
      [SetFocus(current), SelectedChange(prev, current)]
  }

  /** One frame of input to the tracker: the children in scan order and the centre. */
  datatype Frame = Frame(children: seq<Child>, centre: real)

  /** The selection after the tracker has run once per frame, in order. */
  function Track(current: Option<ItemId>, frames: seq<Frame>): (r: Option<ItemId>)
    ensures (forall i :: 0 <= i < |frames| ==> |frames[i].children| == 0) ==> r == current
    ensures r == current || exists i, k :: 0 <= i < |frames| && 0 <= k < |frames[i].children| && r == Some(frames[i].children[k].id)
    decreases |frames|
  {
    if |frames| == 0 then current
    else Track(Reselect(current, frames[0].children, frames[0].centre), frames[1..])
  }

  /** Once something is selected, no sequence of frames clears the selection. */
  lemma {:induction false} SelectionNeverCleared(current: Option<ItemId>, frames: seq<Frame>)
    requires current.Some?
    ensures Track(current, frames).Some?
    decreases |frames|
  {
    if |frames| > 0 {
      SelectionNeverCleared(Reselect(current, frames[0].children, frames[0].centre), frames[1..]);
    }
  }

  /** When the last frame has children, the selection afterwards is a nearest child of that frame. */
  lemma {:induction false} TrackFollowsLastFrame(current: Option<ItemId>, frames: seq<Frame>)
    requires |frames| > 0 && |frames[|frames| - 1].children| > 0
    ensures var last := frames[|frames| - 1];
      exists k :: IsNearestChild(last.children, last.centre, k) && Track(current, frames) == Some(last.children[k].id)
    decreases |frames|
  {
    if |frames| > 1 {
      TrackFollowsLastFrame(Reselect(current, frames[0].children, frames[0].centre), frames[1..]);
      assert frames[1..][|frames[1..]| - 1] == frames[|frames| - 1];
    } else {
      assert frames[1..] == [];
      assert Track(current, frames) == Reselect(current, frames[0].children, frames[0].centre);
    }
  }

  /** Items at x = 0, 50, 120 with the centre at 60: the item at 50 is chosen. */
  lemma NearestExample()
    ensures Nearest([Child(7, 0.0), Child(8, 50.0), Child(9, 120.0)], 60.0) == Some(1)
  {
    var cs := [Child(7, 0.0), Child(8, 50.0), Child(9, 120.0)];
    assert IsNearestChild(cs, 60.0, 1);
    NearestChildUnique(cs, 60.0, 1, Nearest(cs, 60.0).value);
  }

  /** Two children equally far from the centre: the earlier one is chosen. */
  lemma NearestTieExample()
    ensures Nearest([Child(1, 40.0), Child(2, 80.0)], 60.0) == Some(0)
  {
    var cs := [Child(1, 40.0), Child(2, 80.0)];
    assert IsNearestChild(cs, 60.0, 0);
    NearestChildUnique(cs, 60.0, 0, Nearest(cs, 60.0).value);
  }
}
