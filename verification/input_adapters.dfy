/**
 The four input adapters (wheel, touch, keyboard, side-nav click), the
 dispatcher that routes one event to its handler, and the event loop that
 runs handlers one after another. Each handler runs to completion before the
 next event is delivered, so each is one pure step returning the next state
 and whether the event's default action was suppressed.
 */
module InputAdapters {
  import opened PanelState
  import opened TransitionEngine

  /** The next state, and whether `preventDefault` was called on the event. */
  datatype Handled = Handled(next: Nav, preventDefault: bool)

  datatype Event =
    | Wheel(now: int, deltaY: int)
    | TouchStart(y: int)
    | TouchEnd(y: int)
    | Key(key: string)
    | NavClick(index: Option<int>)      // the entry's parsed `data-index`; None for NaN
    | TransitionEnd(target: Node, prop: string)

  /**
   `wheelHandler`: with panels present the default scroll is always
   suppressed. An event inside the cooldown window changes nothing at all,
   not even the cooldown clock; any other event restarts the clock, even
   when it is then dropped because the lock is held or the delta is zero.
   */
  function WheelEvent(s: Nav, now: int, deltaY: int): (r: Handled)
    ensures s.panelCount == 0 ==> r == Handled(s, false)
    ensures s.panelCount > 0 ==> r.preventDefault
    ensures s.panelCount > 0 && now - s.lastWheelTime < WheelCooldown ==> r.next == s
    ensures s.panelCount > 0 && now - s.lastWheelTime >= WheelCooldown ==>
      && r.next.lastWheelTime == now
      && r.next.touchStartY == s.touchStartY
    ensures s.panelCount > 0 && now - s.lastWheelTime >= WheelCooldown && (s.locked || deltaY == 0) ==>
      r.next == s.(lastWheelTime := now)
    ensures s.panelCount > 0 && now - s.lastWheelTime >= WheelCooldown && !s.locked ==>
      SameNavigation(r.next, AttemptDirectionMove(s, Sign(deltaY)))
  {
    if s.panelCount == 0 then Handled(s, false)
    else if now - s.lastWheelTime < WheelCooldown then Handled(s, true)
    else
      var s1 := s.(lastWheelTime := now);
      if s1.locked then Handled(s1, true)
      else
        var direction := Sign(deltaY);
        if direction == 0 then Handled(s1, true)
        else Handled(AttemptDirectionMove(s1, direction), true)
  }

  /**
   `touchStartHandler` (a passive listener, so nothing is suppressed): while
   locked the pending gesture is discarded, otherwise its start is recorded.
   */
  function TouchStartEvent(s: Nav, y: int): (r: Handled)
    ensures !r.preventDefault
    ensures s.locked ==> r.next == s.(touchStartY := None)
    ensures !s.locked ==> r.next == s.(touchStartY := Some(y))
  {
    if s.locked then Handled(s.(touchStartY := None), false)
    else Handled(s.(touchStartY := Some(y)), false)
  }

  /**
   `touchEndHandler`: without a recorded start nothing happens. Otherwise
   the start is always cleared; a travel shorter than the swipe threshold
   is neither a move nor suppressed; a longer one is suppressed and, when
   unlocked, moves one panel in the direction of `start - end`.
   */
  function TouchEndEvent(s: Nav, y: int): (r: Handled)
    ensures s.touchStartY.None? ==> r == Handled(s, false)
    ensures s.touchStartY.Some? ==> r.next.touchStartY.None? && r.next.lastWheelTime == s.lastWheelTime
    ensures s.touchStartY.Some? ==> (r.preventDefault <==> Abs(s.touchStartY.value - y) >= MinSwipeDistance)
    ensures s.touchStartY.Some? && (Abs(s.touchStartY.value - y) < MinSwipeDistance || s.locked) ==>
      r.next == s.(touchStartY := None)
    ensures s.touchStartY.Some? && Abs(s.touchStartY.value - y) >= MinSwipeDistance && !s.locked ==>
      SameNavigation(r.next, AttemptDirectionMove(s, Sign(s.touchStartY.value - y)))
  {
    match s.touchStartY
    case None => Handled(s, false)
    case Some(start) =>
      var delta := start - y;
      var s1 := s.(touchStartY := None);
      if Abs(delta) < MinSwipeDistance then Handled(s1, false)
      else if s1.locked then Handled(s1, true)
      else Handled(AttemptDirectionMove(s1, Sign(delta)), true)
  }

  /** Keys that move forward, and keys that move backward. */
  const KeysDown: seq<string> := ["ArrowDown", "PageDown", " ", "Spacebar"]
  const KeysUp: seq<string> := ["ArrowUp", "PageUp"]

  function KeyDirection(key: string): (d: int)
    ensures d == 1 <==> key in KeysDown
    ensures d == -1 <==> key !in KeysDown && key in KeysUp
    ensures d == 0 <==> key !in KeysDown && key !in KeysUp
  {
    if key in KeysDown then 1 else if key in KeysUp then -1 else 0
  }

  /**
   `keyHandler`: keys outside the allowlist are left to the browser. An
   allowlisted key is always suppressed, even when the lock is held or the
   move is clamped away, and moves one panel when unlocked.
   */
  function KeyEvent(s: Nav, key: string): (r: Handled)
    ensures s.panelCount == 0 || (key !in KeysDown && key !in KeysUp) ==> r == Handled(s, false)
    ensures s.panelCount > 0 && (key in KeysDown || key in KeysUp) ==> r.preventDefault
    ensures s.locked ==> r.next == s
    ensures s.panelCount > 0 && key in KeysDown && !s.locked ==> r.next == AttemptDirectionMove(s, 1)
    ensures s.panelCount > 0 && key !in KeysDown && key in KeysUp && !s.locked ==>
      r.next == AttemptDirectionMove(s, -1)
  {
    if s.panelCount == 0 then Handled(s, false)
    else
      var direction := KeyDirection(key);
      if direction == 0 then Handled(s, false)
      else if s.locked then Handled(s, true)
      else Handled(AttemptDirectionMove(s, direction), true)
  }

  /**
   The click listener bound to each side-nav entry: always suppresses the
   link's default; a NaN index or a held lock makes it a no-op, otherwise it
   requests the absolute index.
   */
  function NavClickEvent(s: Nav, index: Option<int>): (r: Handled)
    ensures r.preventDefault
    ensures index.None? || s.locked ==> r.next == s
    ensures index.Some? ==> r.next == FadeToPanel(s, index.value)
  {
    match index
    case None => Handled(s, true)
    case Some(i) =>
      if s.locked then Handled(s, true)
      else Handled(FadeToPanel(s, i), true)
  }

  /**
   Routes an event to the listener `init` registered for it: wheel, touch
   and key events go to the window-level handlers, a click to the side-nav
   entry's closure, and a `transitionend` to the registered fade listener,
   which never suppresses anything.
   */
  function Step(s: Nav, e: Event): (r: Handled)
    ensures e.Wheel? ==> r == WheelEvent(s, e.now, e.deltaY)
    ensures e.TouchStart? ==> r == TouchStartEvent(s, e.y)
    ensures e.TouchEnd? ==> r == TouchEndEvent(s, e.y)
    ensures e.Key? ==> r == KeyEvent(s, e.key)
    ensures e.NavClick? ==> r == NavClickEvent(s, e.index)
    ensures e.TransitionEnd? ==> !r.preventDefault && r.next == OnTransitionEnd(s, e.target, e.prop)
  {
    match e
    case Wheel(now, deltaY) => WheelEvent(s, now, deltaY)
    case TouchStart(y) => TouchStartEvent(s, y)
    case TouchEnd(y) => TouchEndEvent(s, y)
    case Key(key) => KeyEvent(s, key)
    case NavClick(index) => NavClickEvent(s, index)
    case TransitionEnd(target, prop) => Handled(OnTransitionEnd(s, target, prop), false)
  }

  /**
   The event loop: handlers run one at a time, in arrival order. No handler
   adds or removes panels or side-nav entries.
   */
  function Run(s: Nav, events: seq<Event>): (r: Nav)
    ensures r.panelCount == s.panelCount
    ensures |r.navActive| == |s.navActive|
    decreases |events|
  {
    if |events| == 0 then s
    else Run(Step(s, events[0]).next, events[1..])
  }
}
