# Snap-panel navigation, modelled in Dafny

This project models the panel-navigation state machine of a single-page
portfolio site (`script.js`). The page is a vertical stack of full-screen
panels. One cursor (`currentIndex`) says which panel is shown. A transition
lock (`isLocked`) lets only one move run at a time. A move has two phases:

- fade-out: the outgoing panel gets the `transitioning` marker;
- fade-in: the incoming panel gets the `active` marker.

Each phase ends only on a `transitionend` notification for `opacity` from the
right panel. Four input adapters feed the same admission check in
`fadeToPanel`:

- the mouse wheel, with an 800 ms cooldown;
- touch swipes, with a 40-unit threshold;
- the keyboard, with a key allowlist;
- clicks on the side navigation, which give an absolute index.

JavaScript runs each event handler to completion. So every handler is a pure
step function from one immutable `Nav` record to the next. It also returns
whether `preventDefault` was called. The `transitionend` listener that is
currently registered is recorded as a `Phase`: `Idle`, `FadingOut(from, to)`
or `FadingIn(to)`. Panel markers are sets of panel positions. Side-nav
highlights are one flag per entry.

Modules:

- `PanelState` (`panel_state.dfy`): the data model, `clampIndex`,
  `updateSideNav`, `init`, and the reachable-state invariant `Inv`.
- `TransitionEngine` (`transition_engine.dfy`): `fadeToPanel`, its two nested
  `transitionend` handlers, and `attemptDirectionMove`.
- `InputAdapters` (`input_adapters.dfy`): the wheel, touch, key and side-nav
  click handlers, the event dispatcher `Step`, and the event loop `Run`.
- `NavigationProofs` (`navigation_proofs.dfy`): the invariant is kept by every
  step and over every run. A move completes after its two notifications. A
  held lock shuts out all input. Directional input never skips a panel. A
  few usage scenarios end on the expected panel.

## Model

| member | source | states |
|---|---|---|
| PanelState.ClampIndex | script.js:12 | With at least one panel the result is in `[0, n-1]`. An index already in range is returned unchanged. Below range gives 0, above range gives `n-1`. With no panels the result is -1. |
| PanelState.UpdateSideNav | script.js:14-19 | Afterwards exactly the entry at `index` is highlighted, and the number of entries is unchanged. |
| PanelState.Init | script.js:126-137 | No panels gives no state: nothing is touched or bound. Otherwise the start state has the given panel and nav-entry counts, the cursor at panel 0, the lock free with no listener registered, no pending touch and `lastWheelTime == 0`, and satisfies the invariant. |
| TransitionEngine.FadeToPanel | script.js:21-52 | The state is unchanged exactly when a guard fails: no panels, target equals the cursor, target out of range, or lock held. An accepted move sets the lock and adds `transitioning` to the outgoing panel only. It leaves the cursor, the `active` markers and the nav highlight unchanged. |
| TransitionEngine.FadeOutEnd | script.js:31-39 | A notification from another node or for another property changes nothing. A matching one: the outgoing panel loses `transitioning` and `active`; the cursor moves to the target; the nav entry of the target alone is highlighted; the target gains `active`; the lock stays held while fade-in is awaited. |
| TransitionEngine.FadeInEnd | script.js:40-47 | A notification from another node or for another property changes nothing. A matching one releases the lock and changes nothing else. |
| TransitionEngine.OnTransitionEnd | script.js:31-50 | Without a registered listener, or for a property other than `opacity`, nothing changes. During fade-out the notification is handled by the fade-out handler, during fade-in by the fade-in handler. A notification from any node other than the panel being listened on changes nothing. The touch and wheel bookkeeping is never affected. |
| TransitionEngine.AttemptDirectionMove | script.js:54-60 | Direction 0 does nothing. For a valid cursor, the clamped request equals a request for the unclamped neighbour `current + sign(direction)`. So a forward move from the last panel, or a backward one from the first, is dropped. |
| InputAdapters.WheelEvent | script.js:62-76 | With panels, the default is always suppressed. Inside the 800 ms cooldown nothing changes, not even `lastWheelTime`. Otherwise `lastWheelTime := now`, even when the lock is held or the delta is zero; in those two cases nothing else changes. When unlocked, the navigation moves as `attemptDirectionMove(sign(deltaY))`. With no panels nothing happens. |
| InputAdapters.TouchStartEvent | script.js:78-84 | While locked the pending start is cleared. Otherwise `y` is recorded. Nothing is suppressed. |
| InputAdapters.TouchEndEvent | script.js:86-95 | Without a recorded start nothing happens. Otherwise the start is always cleared. The default is suppressed exactly when the travel is at least 40. A shorter travel, or a held lock, changes nothing else. Otherwise the navigation moves as `attemptDirectionMove(sign(start - end))`. |
| InputAdapters.KeyDirection | script.js:99-106 | Direction 1 exactly for `ArrowDown`, `PageDown`, `' '`, `Spacebar`. Direction -1 exactly for `ArrowUp`, `PageUp`. Direction 0 for every other key. |
| InputAdapters.KeyEvent | script.js:97-111 | A key outside the allowlist, or no panels, gives no change and no suppression. An allowlisted key is always suppressed. A held lock leaves the state unchanged. Otherwise the key moves one panel forward or back through `attemptDirectionMove`. |
| InputAdapters.NavClickEvent | script.js:113-124 | The default is always suppressed. A NaN index or a held lock changes nothing. Otherwise the absolute index goes to `fadeToPanel`. |
| InputAdapters.Step | script.js:132-135 | Wheel, touch-start, touch-end and key events reach their own window handlers, and a click reaches the side-nav closure. A `transitionend` reaches the registered fade listener and is never suppressed. |
| InputAdapters.Run | script.js:2-3 | Running any sequence of handlers never changes the panel count or the number of nav entries. |
| NavigationProofs.FadeToPanelPreservesInv | script.js:21-29 | From a consistent state, any move request leaves a consistent state. |
| NavigationProofs.AttemptDirectionMovePreservesInv | script.js:54-60 | From a consistent state, any directional request leaves a consistent state. |
| NavigationProofs.TransitionEndPreservesInv | script.js:31-47 | Both fade handlers keep the invariant. During fade-out the outgoing panel is the one active panel, and after it the incoming panel is. |
| NavigationProofs.StepPreservesInv | script.js:62-121 | Every handler, for every event, keeps the reachable-state invariant. |
| NavigationProofs.RunPreservesInv | script.js:132-136 | Any sequence of handler invocations keeps the invariant. |
| NavigationProofs.ReachableStatesConsistent | script.js:126-131 | In every state reachable from `init`, the panel count is the one `init` saw and the cursor is within it. Exactly one panel is active and it is at the cursor. Exactly the cursor's nav entry is highlighted. The lock is held exactly while a transition is in flight. |
| NavigationProofs.MoveCompletes | script.js:27-47 | An accepted move, then the outgoing panel's opacity notification, then the incoming panel's, ends with the cursor at the target. The target is the one active panel and its nav entry alone is highlighted. No panel is `transitioning` and the lock is free. Between the two notifications the lock is still held. |
| NavigationProofs.LockedInputsIgnored | script.js:25 | While a transition is in flight, no wheel, touch, key or click event changes the navigation state. Requests are dropped, not queued. |
| NavigationProofs.DirectionalMovesAdjacent | script.js:54-60 | Wheel, touch and key events never move the cursor. A move they start goes from the cursor to a neighbouring panel. |
| NavigationProofs.ClampedMovesDropped | script.js:54-58 | A forward request on the last panel and a backward request on the first leave the state unchanged. |
| NavigationProofs.WheelDownScenario | script.js:62-76 | With 5 panels, a positive wheel delta followed by both fade notifications shows panel 1. Panel 1 is the one active panel, nav entry 1 alone is highlighted, and the lock is free. |
| NavigationProofs.WheelCooldownScenario | script.js:67-69 | A second wheel event less than 800 ms after an accepted one changes nothing and is suppressed. |
| NavigationProofs.TouchScenarios | script.js:86-95 | A swipe from 500 to 450 starts a forward move and is suppressed. A swipe from 500 to 480 moves nothing and is not suppressed. |
| NavigationProofs.KeyAtLastPanelScenario | script.js:97-111 | `ArrowDown` on the last panel is suppressed and changes nothing. |
| NavigationProofs.NavClickWhileLockedScenario | script.js:117-121 | A click on entry 2 during a transition is suppressed and changes nothing. |

Facts about the code worth knowing when reading the model:

- Exactly one panel is active in every reachable state, even mid-transition.
  The outgoing panel loses `active` and the incoming one gains it inside the
  same handler (script.js:35, 47).
- The wheel handler suppresses the default for every event once panels
  exist, including events inside the cooldown (script.js:64-69).
- The forward key list also includes the legacy `Spacebar` name
  (script.js:99).

## Left out

- DOM lookup, `classList` and listener registration (script.js:1-3, 132-136).
  Panels are positions, markers are sets of positions, and the registered
  `transitionend` listener is the `Phase` value.
- A missing container: `panels` is then empty (script.js:2). So the
  `!container` guards are covered by `panelCount == 0`.
- `Date.now()` is not modelled: the wheel event carries `now` as an integer.
  Wheel deltas, touch coordinates and timestamps are integers, not floats.
- `Number(item.dataset.index)` parsing is not modelled. A click carries the
  parsed index as `Option<int>`, with NaN as `None`. A fractional index such
  as `1.5` would pass the range guard and index a missing panel. That crash
  is not modelled: targets are integers.
- Multi-touch: only `touches[0]` and `changedTouches[0]` are read, and they
  are given as the event's `y`.
- Liveness: if a `transitionend` never arrives, the lock stays held forever.
  This depends on the stylesheet, and the code has no fallback timeout.
- CSS opacity timing: notifications are arbitrary input events.
- The start-up markup is assumed to carry no `transitioning` marker. `init`
  sets `active` and the nav highlights itself, but never clears
  `transitioning`.
- Handlers with no panels: `init` then registers nothing, so `Init` gives
  `None` and no run starts. The handler functions still follow their own
  guards for that case.
- The footer year (script.js:141-144): pure I/O.
