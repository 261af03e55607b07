/**
 * The scroll widget itself: a class holding the selection pair and the snap
 * session, whose methods are the per-frame selection update, the drag-end
 * restart of the snap session, and one frame of the running session.
 * The host's scene graph, event system and coroutine scheduler are replaced
 * by parameters (the children and centres of this frame, the sets of items
 * that carry select/deselect hooks, the frame's dt and scroll speed) and by
 * the notices and host effects the methods return.
 */
module ScrollRectWidget {
  import opened Wrappers
  import opened Numeric
  import opened Selection
  import opened Snapping

  class ScrollRectExtra {
    /** The horizontal speed at or below which a waiting session starts to animate. */
    var minSpeedToSnap: real
    /** The duration of the snap animation. */
    var snapSpeed: real

    var currentSelected: Option<ItemId>
    var prevSelected: Option<ItemId>
    /** The snap session: at most one exists, since this is its only home. */
    var snapRoutine: Session

    ghost predicate Valid()
      reads this
    {
      SessionOk(snapRoutine)
    }

    constructor ()
      ensures Valid()
      ensures minSpeedToSnap == 100.0 && snapSpeed == 0.1
      ensures currentSelected == None && prevSelected == None && snapRoutine == Idle
    {
      minSpeedToSnap := 100.0;
      snapSpeed := 0.1;
      currentSelected := None;
      prevSelected := None;
      snapRoutine := Idle;
    }

    /**
     * The per-frame selection update: remember the current selection as the
     * previous one, scan the children for the one nearest the centre, select
     * it, and raise the notifications when the selection changed.
     */
    method UpdateSelected(children: seq<Child>, centre: real, selectHooks: set<ItemId>, deselectHooks: set<ItemId>)
      returns (notices: seq<Notice>)
      modifies this`currentSelected, this`prevSelected
      ensures prevSelected == old(currentSelected)
      ensures currentSelected == Reselect(old(currentSelected), children, centre)
      ensures |children| > 0 ==> exists k :: IsNearestChild(children, centre, k) && currentSelected == Some(children[k].id)
      ensures |children| == 0 ==> currentSelected == prevSelected && notices == []
      ensures old(currentSelected).Some? ==> currentSelected.Some?
      ensures notices == Notifications(prevSelected, currentSelected, selectHooks, deselectHooks)
      ensures SetFocus(None) !in notices
    {
      prevSelected := currentSelected;
      var closest: Option<nat> := None;
      for i := 0 to |children|
        invariant closest == Nearest(children[..i], centre)
      {
        assert children[..i + 1][..i] == children[..i];
        if closest.None? {
          closest := Some(i);
        } else if Dist(centre, children[i]) < Dist(centre, children[closest.value]) {
          closest := Some(i);
        }
      }
      assert children[..|children|] == children;
      if closest.Some? {
        currentSelected := Some(children[closest.value].id);
      }

      notices := [];
      if currentSelected != prevSelected {
        if currentSelected.Some? && currentSelected.value in selectHooks {
          notices := notices + [ScrollSelect(currentSelected.value)];
        }
        if prevSelected.Some? && prevSelected.value in deselectHooks {
          notices := notices + [ScrollDeselect(prevSelected.value)];
        }
        notices := notices + [SetFocus(currentSelected), SelectedChange(prevSelected, currentSelected)];
      }
    }

    /**
     * What drag end does: stop any running snap session and start a new one,
     * which waits for the scroll to slow down.
     */
    method MagnetScroll()
      modifies this`snapRoutine
      ensures Valid()
      ensures snapRoutine == Waiting
    {
      if snapRoutine != Idle {
        snapRoutine := Idle;
      }
      snapRoutine := Waiting;
    }

    /** One pass of the animation loop of a running session. */
    method AnimationStep(dt: real) returns (effects: seq<HostEffect>)
      requires snapRoutine.Animating? && 0.0 <= snapRoutine.timer && dt >= 0.0
      modifies this`snapRoutine
      ensures (snapRoutine, effects) == Animate(old(snapRoutine), dt)
    {
      if snapRoutine.timer < snapRoutine.duration {
        effects := [MoveContent(Lerp(snapRoutine.start, snapRoutine.target, snapRoutine.timer / snapRoutine.duration))];
        snapRoutine := snapRoutine.(timer := snapRoutine.timer + dt);
      } else {
        effects := [];
        snapRoutine := Idle;
      }
    }

    /**
     * One frame of the snap session. velocityX is the scroll's horizontal
     * speed this frame, contentX the content's x-position, viewCentreX the
     * viewport centre and itemX the x-position of each item, all in world
     * space. A waiting session that finds the speed low enough stops the
     * scroll, fixes start and target from the current selection and runs the
     * first pass of the animation loop in the same frame.
     */
    method Tick(dt: real, velocityX: real, contentX: real, viewCentreX: real, itemX: ItemId -> real)
      returns (effects: seq<HostEffect>)
      requires Valid() && dt >= 0.0
      modifies this`snapRoutine
      ensures Valid()
      ensures (snapRoutine, effects) ==
        SnapTick(old(snapRoutine), dt, velocityX, minSpeedToSnap, snapSpeed, contentX,
                 if currentSelected.Some? then Some(viewCentreX - itemX(currentSelected.value)) else None)
    {
      match snapRoutine
      case Idle =>
        effects := [];
      case Waiting =>
        if Abs(velocityX) > minSpeedToSnap {
          effects := [];
        } else if currentSelected.None? {
          effects := [StopMovement, NullReference];
          snapRoutine := Idle;
        } else {
          var difference := viewCentreX - itemX(currentSelected.value);
          var start := contentX;
          var target := contentX + difference;
          snapRoutine := Animating(start, target, 0.0, snapSpeed);
          var step := AnimationStep(dt);
          effects := [StopMovement] + step;
        }
      case Animating(_, _, _, _) =>
        effects := AnimationStep(dt);
    }
  }
}
