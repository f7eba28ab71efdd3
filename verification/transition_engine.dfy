/**
 The transition engine: the admission check of `fadeToPanel`, the two
 `transitionend` handlers that complete a move, and the directional move
 resolver shared by the wheel, touch and keyboard adapters.
 */
module TransitionEngine {
  import opened PanelState

  /** The guards of `fadeToPanel`, all of which must pass for a move to start. */
  predicate Admits(s: Nav, target: int) {
    && s.panelCount > 0
    && target != s.current
    && 0 <= target < s.panelCount
    && !s.locked
  }

  /**
   `fadeToPanel`: a request that fails a guard is dropped silently. An
   accepted one takes the lock, marks only the outgoing panel as
   `transitioning` and waits for its fade-out; the cursor, the active
   markers and the nav highlight do not move yet.
   */
  function FadeToPanel(s: Nav, target: int): (r: Nav)
    ensures r == s <==> !Admits(s, target)
    ensures Admits(s, target) ==>
      && r.locked
      && r.phase == FadingOut(s.current, target)
      && r.transitioning == s.transitioning + {s.current}
      && r.current == s.current
      && r.active == s.active
      && r.navActive == s.navActive
      && r.panelCount == s.panelCount
      && r.touchStartY == s.touchStartY
      && r.lastWheelTime == s.lastWheelTime
  {
    if s.panelCount == 0 then s
    else if target == s.current then s
    else if target < 0 || target >= s.panelCount then s
    else if s.locked then s
    else
      s.(locked := true,
         phase := FadingOut(s.current, target),
         transitioning := s.transitioning + {s.current})
  }

  /**
   `handleFadeOutEnd`: only an `opacity` notification from the outgoing
   panel counts. It strips that panel's markers, moves the cursor, refreshes
   the nav highlight and starts the fade-in by activating the target; the
   lock stays held.
   */
  function FadeOutEnd(s: Nav, target: Node, prop: string): (r: Nav)
    requires s.phase.FadingOut?
    ensures target != PanelNode(s.phase.from) || prop != "opacity" ==> r == s
    ensures target == PanelNode(s.phase.from) && prop == "opacity" ==>
      && r.transitioning == s.transitioning - {s.phase.from}
      && r.active == (s.active - {s.phase.from}) + {s.phase.to}
      && r.current == s.phase.to
      && |r.navActive| == |s.navActive|
      && (forall i :: 0 <= i < |r.navActive| ==> (r.navActive[i] <==> i == s.phase.to))
      && r.phase == FadingIn(s.phase.to)
      && r.locked == s.locked
      && r.panelCount == s.panelCount
      && r.touchStartY == s.touchStartY
      && r.lastWheelTime == s.lastWheelTime
  {
    if target != PanelNode(s.phase.from) || prop != "opacity" then s
    else
      var to := s.phase.to;
      var outgoing := s.(transitioning := s.transitioning - {s.phase.from},
                         active := s.active - {s.phase.from});
      var moved := outgoing.(current := to, navActive := UpdateSideNav(outgoing.navActive, to));
      moved.(phase := FadingIn(to), active := moved.active + {to})
  }

  /** `handleFadeInEnd`: an `opacity` notification from the incoming panel releases the lock. */
  function FadeInEnd(s: Nav, target: Node, prop: string): (r: Nav)
    requires s.phase.FadingIn?
    ensures target != PanelNode(s.phase.to) || prop != "opacity" ==> r == s
    ensures target == PanelNode(s.phase.to) && prop == "opacity" ==>
      && !r.locked
      && r.phase == Idle
      && r.current == s.current
      && r.active == s.active
      && r.transitioning == s.transitioning
      && r.navActive == s.navActive
      && r.panelCount == s.panelCount
      && r.touchStartY == s.touchStartY
      && r.lastWheelTime == s.lastWheelTime
  {
    if target != PanelNode(s.phase.to) || prop != "opacity" then s
    else s.(locked := false, phase := Idle)
  }

  /** A `transitionend` notification, delivered to whichever listener is registered. */
  function OnTransitionEnd(s: Nav, target: Node, prop: string): (r: Nav)
    ensures s.phase.Idle? ==> r == s
    ensures prop != "opacity" ==> r == s
    ensures r.touchStartY == s.touchStartY && r.lastWheelTime == s.lastWheelTime
    ensures s.phase.FadingOut? ==> r == FadeOutEnd(s, target, prop)
    ensures s.phase.FadingIn? ==> r == FadeInEnd(s, target, prop)
    ensures s.phase.FadingOut? && target != PanelNode(s.phase.from) ==> r == s
    ensures s.phase.FadingIn? && target != PanelNode(s.phase.to) ==> r == s
  {
    match s.phase
    case Idle => s
    case FadingOut(_, _) => FadeOutEnd(s, target, prop)
    case FadingIn(_) => FadeInEnd(s, target, prop)
  }

  /**
   `attemptDirectionMove`: a positive direction asks for the next panel, a
   negative one for the previous, after clamping into range. For a valid
   cursor this is the same as asking for the unclamped neighbour: past
   either end the clamp yields the cursor itself and the same-index guard
   drops the move, just as the bounds guard would drop the neighbour.
   */
  function AttemptDirectionMove(s: Nav, direction: int): (r: Nav)
    ensures direction == 0 ==> r == s
    ensures 0 <= s.current < s.panelCount ==> r == FadeToPanel(s, s.current + Sign(direction))
  {
    if direction > 0 then FadeToPanel(s, ClampIndex(s.current + 1, s.panelCount))
    else if direction < 0 then FadeToPanel(s, ClampIndex(s.current - 1, s.panelCount))
    else s
  }
}
