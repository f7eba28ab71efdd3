/**
 Data model of the snap-panel navigator: the panel registry, the side-nav
 highlight flags, the single navigation cursor with its transition lock, and
 the per-adapter bookkeeping (pending touch, last accepted wheel time).

 The DOM is abstracted away: a panel is its 0-based position, the `active`
 and `transitioning` class markers are sets of positions, and the
 `transitionend` listener that is registered at any moment is recorded by
 the `Phase` value.
 */
module PanelState {

  datatype Option<+T> = None | Some(value: T)

  /** Minimum vertical travel for a touch gesture to count as a swipe. */
  const MinSwipeDistance: int := 40

  /** Wheel events closer than this (in milliseconds) to the last accepted one are ignored. */
  const WheelCooldown: int := 800

  /** Which `transitionend` listener is registered, if any. */
  datatype Phase =
    | Idle                               // no listener
    | FadingOut(from: int, to: int)      // fade-out listener on panel `from`, heading for `to`
    | FadingIn(to: int)                  // fade-in listener on panel `to`

  /** The element a `transitionend` notification comes from. */
  datatype Node = PanelNode(index: int) | OtherNode

  /** The whole state the script keeps between two event-handler invocations. */
  datatype Nav = Nav(
    panelCount: nat,             // panels.length, fixed after start-up
    navActive: seq<bool>,        // `active` class on each side-nav entry
    current: int,                // currentIndex
    locked: bool,                // isLocked
    phase: Phase,
    active: set<int>,            // panels carrying the `active` class
    transitioning: set<int>,     // panels carrying the `transitioning` class
    touchStartY: Option<int>,    // touchStartY, None for null
    lastWheelTime: int)

  /** Sign of an integer, as `Math.sign` computes it. */
  function Sign(x: int): (r: int)
    ensures r == 1 <==> x > 0
    ensures r == -1 <==> x < 0
    ensures r == 0 <==> x == 0
  {
    if x > 0 then 1 else if x < 0 then -1 else 0
  }

  function Abs(x: int): (r: nat)
    ensures r == x || r == -x
  {
    if x < 0 then -x else x
  }

  /** `clampIndex`: `min(max(index, 0), panelCount - 1)`; yields -1 when there are no panels. */
  function ClampIndex(index: int, panelCount: nat): (r: int)
    ensures panelCount == 0 ==> r == -1
    ensures panelCount > 0 ==> 0 <= r < panelCount
    ensures 0 <= index < panelCount ==> r == index
    ensures panelCount > 0 && index < 0 ==> r == 0
    ensures panelCount > 0 && index >= panelCount ==> r == panelCount - 1
  {
    var lower := if index > 0 then index else 0;
    if lower < panelCount - 1 then lower else panelCount - 1
  }

  /** `updateSideNav`: highlight exactly the entry at `index`; without entries nothing happens. */
  function UpdateSideNav(navActive: seq<bool>, index: int): (r: seq<bool>)
    ensures |r| == |navActive|
    ensures forall i :: 0 <= i < |r| ==> (r[i] <==> i == index)
  {
    if |navActive| == 0 then navActive
    else seq(|navActive|, i => i == index)
  }

  /**
   `init`: with no panels (or no container) it returns before touching the
   page or registering any listener, which is modelled as None. Otherwise
   panel 0 alone is active, nav entry 0 alone is highlighted and no
   transition is in flight.
   */
  function Init(panelCount: nat, navCount: nat): (r: Option<Nav>)
    ensures r.None? <==> panelCount == 0
    ensures r.Some? ==> Inv(r.value) && r.value.current == 0 && |r.value.navActive| == navCount
    ensures r.Some? ==>
      && r.value.panelCount == panelCount
      && !r.value.locked
      && r.value.phase == Idle
      && r.value.touchStartY == None
      && r.value.lastWheelTime == 0
  {
    if panelCount == 0 then None
    else
      Some(Nav(
        panelCount := panelCount,
        navActive := UpdateSideNav(seq(navCount, _ => false), 0),
        current := 0,
        locked := false,
        phase := Idle,
        active := {0},
        transitioning := {},
        touchStartY := None,
        lastWheelTime := 0))
  }

  /**
   The reachable-state invariant: the cursor is a valid panel, exactly that
   panel is active, exactly its nav entry is highlighted, the lock is held
   exactly while a transition is in flight, and only the outgoing panel of
   a fade-out carries the `transitioning` marker.
   */
  ghost predicate Inv(s: Nav) {
    && s.panelCount >= 1
    && 0 <= s.current < s.panelCount
    && s.active == {s.current}
    && (forall i :: 0 <= i < |s.navActive| ==> (s.navActive[i] <==> i == s.current))
    && (s.locked <==> !s.phase.Idle?)
    && match s.phase
       case Idle => s.transitioning == {}
       case FadingOut(from, to) =>
         && from == s.current
         && 0 <= to < s.panelCount
         && to != from
         && s.transitioning == {from}
       case FadingIn(to) => to == s.current && s.transitioning == {}
  }

  /** The navigation part of the state: everything but the adapters' own bookkeeping. */
  ghost predicate SameNavigation(a: Nav, b: Nav) {
    && a.panelCount == b.panelCount
    && a.navActive == b.navActive
    && a.current == b.current
    && a.locked == b.locked
    && a.phase == b.phase
    && a.active == b.active
    && a.transitioning == b.transitioning
  }
}
