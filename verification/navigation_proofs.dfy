/**
 Properties of the navigator over whole runs: the reachable-state invariant
 is established by start-up and kept by every handler, an accepted move
 completes after its two matching notifications, a held lock shuts out every
 input, directional inputs only ever move to a neighbouring panel, and a
 handful of usage scenarios end where a user would expect.
 */
module NavigationProofs {
  import opened PanelState
  import opened TransitionEngine
  import opened InputAdapters

  /** Starting a move from a consistent state gives a consistent state. */
  lemma FadeToPanelPreservesInv(s: Nav, target: int)
    requires Inv(s)
    ensures Inv(FadeToPanel(s, target))
  {
  }

  lemma AttemptDirectionMovePreservesInv(s: Nav, direction: int)
    requires Inv(s)
    ensures Inv(AttemptDirectionMove(s, direction))
  {
  }

  lemma TransitionEndPreservesInv(s: Nav, target: Node, prop: string)
    requires Inv(s)
    ensures Inv(OnTransitionEnd(s, target, prop))
  {
  }

  /** Every handler keeps the invariant. */
  lemma StepPreservesInv(s: Nav, e: Event)
    requires Inv(s)
    ensures Inv(Step(s, e).next)
  {
  }

  lemma {:induction false} RunPreservesInv(s: Nav, events: seq<Event>)
    requires Inv(s)
    ensures Inv(Run(s, events))
    decreases |events|
  {
    if |events| > 0 {
      StepPreservesInv(s, events[0]);
      RunPreservesInv(Step(s, events[0]).next, events[1..]);
    }
  }

  /**
   In every state reachable from start-up, exactly one panel is active and
   it is the panel at the cursor, exactly the cursor's nav entry is
   highlighted, and the lock is held exactly while a transition is in flight.
   */
  lemma ReachableStatesConsistent(panelCount: nat, navCount: nat, events: seq<Event>)
    requires panelCount >= 1
    ensures Init(panelCount, navCount).Some?
    ensures var s := Run(Init(panelCount, navCount).value, events);
      && s.panelCount == panelCount
      && 0 <= s.current < panelCount
      && |s.active| == 1
      && (forall i :: i in s.active <==> i == s.current)
      && |s.navActive| == navCount
      && (forall i :: 0 <= i < |s.navActive| ==> (s.navActive[i] <==> i == s.current))
      && (s.locked <==> !s.phase.Idle?)
  {
    var s0 := Init(panelCount, navCount).value;
    RunPreservesInv(s0, events);
  }

  /**
   An accepted move to `target` completes after the outgoing panel's and
   then the incoming panel's opacity notifications: the cursor is at
   `target`, it is the only active panel, its nav entry alone is
   highlighted, and the lock is free again. Halfway, the lock is still held.
   */
  lemma MoveCompletes(s: Nav, target: int)
    requires Inv(s) && !s.locked
    requires 0 <= target < s.panelCount && target != s.current
    ensures var s1 := FadeToPanel(s, target);
      var s2 := OnTransitionEnd(s1, PanelNode(s.current), "opacity");
      var s3 := OnTransitionEnd(s2, PanelNode(target), "opacity");
      && s1.locked && s1.current == s.current && s1.transitioning == {s.current}
      && s2.locked && s2.current == target && s2.active == {target}
      && !s3.locked && s3.phase.Idle?
      && s3.current == target
      && s3.active == {target}
      && s3.transitioning == {}
      && (forall i :: 0 <= i < |s3.navActive| ==> (s3.navActive[i] <==> i == target))
  {
  }

  /**
   While a transition is in flight, no wheel, touch, key or click event
   changes the navigation state; such requests are dropped, not queued.
   */
  lemma LockedInputsIgnored(s: Nav, e: Event)
    requires Inv(s) && s.locked && !e.TransitionEnd?
    ensures SameNavigation(Step(s, e).next, s)
  {
  }

  /**
   Wheel, touch and keyboard input never skips a panel: a move they start
   goes to a neighbour of the cursor, and the cursor itself does not move.
   */
  lemma DirectionalMovesAdjacent(s: Nav, e: Event)
    requires Inv(s) && !e.NavClick? && !e.TransitionEnd?
    ensures var r := Step(s, e).next;
      && r.current == s.current
      && (r.phase == s.phase
          || (s.phase.Idle? && r.phase.FadingOut? && r.phase.from == s.current
              && (r.phase.to == s.current + 1 || r.phase.to == s.current - 1)))
  {
  }

  /** A forward request on the last panel and a backward one on the first are dropped. */
  lemma ClampedMovesDropped(s: Nav)
    requires Inv(s)
    ensures s.current == s.panelCount - 1 ==> AttemptDirectionMove(s, 1) == s
    ensures s.current == 0 ==> AttemptDirectionMove(s, -1) == s
  {
  }

  // Usage scenarios, on five panels and five nav entries.

  /** A downward wheel from panel 0, then both fade notifications: panel 1 is shown. */
  lemma WheelDownScenario(now: int)
    requires now >= WheelCooldown
    ensures var s0 := Init(5, 5).value;
      var s := Run(s0, [Wheel(now, 120),
                        TransitionEnd(PanelNode(0), "opacity"),
                        TransitionEnd(PanelNode(1), "opacity")]);
      && s.current == 1 && s.active == {1} && !s.locked
      && s.navActive == [false, true, false, false, false]
  {
    var e1, e2, e3 := Wheel(now, 120), TransitionEnd(PanelNode(0), "opacity"), TransitionEnd(PanelNode(1), "opacity");
    var s0 := Init(5, 5).value;
    var s1 := Step(s0, e1).next;
    assert s1.phase == FadingOut(0, 1);
    var s2 := Step(s1, e2).next;
    assert s2.current == 1 && s2.active == {1};
    var s3 := Step(s2, e3).next;
    assert s3.navActive == [false, true, false, false, false];
    assert Run(s2, [e3]) == Run(s3, []) == s3;
    assert [e2, e3][1..] == [e3];
    assert Run(s1, [e2, e3]) == Run(s2, [e3]);
    assert [e1, e2, e3][1..] == [e2, e3];
    assert Run(s0, [e1, e2, e3]) == Run(s1, [e2, e3]);
  }

  /** A second wheel event within the cooldown window is ignored entirely. */
  lemma WheelCooldownScenario(s: Nav, t1: int, t2: int, d1: int, d2: int)
    requires Inv(s) && t1 - s.lastWheelTime >= WheelCooldown && t1 <= t2 < t1 + WheelCooldown
    ensures var r1 := WheelEvent(s, t1, d1);
      WheelEvent(r1.next, t2, d2) == Handled(r1.next, true)
  {
  }

  /** A swipe up by 50 moves forward; one by 20 does nothing and is not suppressed. */
  lemma TouchScenarios(s: Nav)
    requires Inv(s) && !s.locked && s.current + 1 < s.panelCount
    ensures var r := TouchEndEvent(TouchStartEvent(s, 500).next, 450);
      r.preventDefault && r.next.phase == FadingOut(s.current, s.current + 1)
    ensures var r := TouchEndEvent(TouchStartEvent(s, 500).next, 480);
      !r.preventDefault && r.next == s.(touchStartY := None)
  {
  }

  /** "ArrowDown" on the last panel is suppressed but moves nothing. */
  lemma KeyAtLastPanelScenario(s: Nav)
    requires Inv(s) && !s.locked && s.current == s.panelCount - 1
    ensures KeyEvent(s, "ArrowDown") == Handled(s, true)
  {
  }

  /** A click on nav entry 2 during a transition is suppressed and ignored. */
  lemma NavClickWhileLockedScenario(s: Nav)
    requires Inv(s) && s.locked
    ensures NavClickEvent(s, Some(2)) == Handled(s, true)
  {
  }
}
