# Day/night TimeManager — a Dafny model

This project models the day/night state machine of the `TimeManager` component
of a 2D Unity game. The manager holds the current world state (Day or Night).
A toggle key starts a switch to the other state. The switch is instant when
the configured `transitionDuration` is not positive. Otherwise it is animated:
each frame advances a timer, and the manager broadcasts a normalised progress
value that always measures "how far toward Night". When the timer reaches the
duration, the target state is committed.

The component's state is an immutable `Manager` record. Every operation is a
pure function that returns the next record together with the events it
broadcast, in order. The two delegate events, `OnTransitionProgress` and
`OnTimeSwitched`, are the two constructors of `Event`. Timer arithmetic uses
exact `real`s.

Modules:
- `TimeManager` (`time_manager.dfy`): the data model, the invariant `Valid`,
  and the operations `BeginSwitch`, `TickTransition`, `ApplyState`,
  `SetState`, `CancelTransition`, `IsDay`/`IsNight`, and the per-frame `Update`.
  `Valid` says the timer is never negative. While a transition runs, it also
  says the duration is positive, the target is the opposite of the current
  state, and the timer is below the duration. So the division in the tick is
  always defined.
- `TimeManagerProperties` (`properties.dfy`): lemmas about single operations.
  They cover invariant preservation, the ignored press, instant and gradual
  toggles, completion, and monotone progress.
- `TimeManagerTrace` (`trace.dfy`): runs of many inputs. An input is either a
  frame, handled by `Update`, or a call of the public `SetState` made between
  frames. Every listener observation holds over a whole run: progress stays
  in [0, 1], each switch is announced by its boundary snap, and the current
  state is the last switch broadcast.

Behaviour as the code is written, where a reader might expect otherwise:
- There is one `transitionDuration` for both directions. No separate
  "return to day" duration exists.
- An instant toggle does broadcast a progress value. `ApplyState` always
  sends the boundary value (0 for Day, 1 for Night) before the switch event.
- The frame in which a gradual toggle starts also ticks it by that frame's
  `deltaTime`. Leaving Day, the first progress value is the elapsed fraction
  `dt / duration`. Leaving Night, it is the complement `1 - dt / duration`.
  It is the current state's boundary value only when that frame's
  `deltaTime` is 0. Once the frame reaches the duration, it is clamped to
  the target's boundary value.
- The completing tick broadcasts the boundary value twice: once as its own
  clamped progress and once as the snap in `ApplyState`. Then it sends the switch.
- A completed transition does not reset the timer. Only `BeginSwitch` and
  `CancelTransition` reset it. `SetState` resets it only when a transition
  was running.
- Heading from Night, the broadcast value is `1 - t`. It falls from 1 toward 0.

## Model

| member | source | states |
|---|---|---|
| TimeManager.Opposite | PaletteSwapManager.cs:55 | the switch target is the other of the two states |
| TimeManager.Boundary | PaletteSwapManager.cs:90 | the snap value is 0 or 1, and it is 1 exactly for Night |
| TimeManager.Init | PaletteSwapManager.cs:14-38 | start-up gives the configured starting state with no transition running, and satisfies the invariant |
| TimeManager.IsNight | PaletteSwapManager.cs:103 | holds exactly when the current state is Night |
| TimeManager.IsDay | PaletteSwapManager.cs:102 | is the complement of `IsNight` |
| TimeManager.ApplyState | PaletteSwapManager.cs:87-92 | commits the given state, changes no other field, and broadcasts exactly the boundary snap and then the single switch |
| TimeManager.BeginSwitch | PaletteSwapManager.cs:53-68 | the target is the opposite state. A non-positive duration commits it at once with snap then switch. A positive duration starts a transition with a zero timer, the same current state and no events |
| TimeManager.TickTransition | PaletteSwapManager.cs:70-85 | advances the timer by dt and broadcasts one progress value in [0, 1] first. That value is the elapsed fraction of the duration leaving Day and its complement leaving Night. Before the duration is reached nothing else changes. A negative elapsed time clamps the value to the current state's boundary value. Once the duration is reached the first value is the fully-advanced value `TowardNight(current, 1)`, the transition stops, and the target is committed with snap then switch |
| TimeManager.Clamp01 | PaletteSwapManager.cs:73 | the normalised time lies in [0, 1]. It equals its argument inside that interval, 0 below it and 1 above it |
| TimeManager.TowardNight | PaletteSwapManager.cs:77 | the broadcast value is `t` leaving Day and `1 - t` leaving Night, so it stays in [0, 1]. At `t = 0` it is the current state's boundary value, and at `t = 1` the opposite state's |
| TimeManager.CancelTransition | PaletteSwapManager.cs:105-109 | stops the transition and resets the timer, touching nothing else |
| TimeManager.SetState | PaletteSwapManager.cs:96-100 | always ends in the given state with no transition running. The timer is reset only if a transition was running. It broadcasts exactly snap then switch, with no partial progress |
| TimeManager.Update | PaletteSwapManager.cs:41-51 | one frame keeps the division in the tick safe and leaves the duration unchanged. With no press and no running transition it changes nothing and broadcasts nothing. A press from rest with a non-positive duration is exactly `BeginSwitch`. A press from rest with a positive duration begins the switch and ticks it by `dt` in the same frame, with no events before the tick's. While a transition runs, the frame is exactly `TickTransition` by `dt`, press or not |
| TimeManagerProperties.BeginSwitchKeepsValid | PaletteSwapManager.cs:53-67 | starting a switch from rest keeps the invariant |
| TimeManagerProperties.TickKeepsValid | PaletteSwapManager.cs:70-85 | a tick by a non-negative frame time keeps the invariant |
| TimeManagerProperties.CancelKeepsValid | PaletteSwapManager.cs:105-109 | cancelling keeps the invariant |
| TimeManagerProperties.SetStateKeepsValid | PaletteSwapManager.cs:96-109 | forcing a state keeps the invariant, whatever was running |
| TimeManagerProperties.UpdateKeepsValid | PaletteSwapManager.cs:41-51 | a whole frame by a non-negative frame time keeps the invariant |
| TimeManagerProperties.PressIgnoredWhileTransitioning | PaletteSwapManager.cs:46-47 | during a transition, a frame with a press equals the frame without one: same manager, same events |
| TimeManagerProperties.InstantToggle | PaletteSwapManager.cs:57-61 | with a non-positive duration, a press flips the state within the frame, leaves no transition running, and broadcasts exactly the new state's snap and then its switch |
| TimeManagerProperties.GradualToggle | PaletteSwapManager.cs:62-67 | with a positive duration, a press starts a transition toward the opposite state with the state unchanged. A shorter frame broadcasts one value: the elapsed fraction `dt / duration` leaving Day, its complement leaving Night |
| TimeManagerProperties.TickCompletionSnaps | PaletteSwapManager.cs:80-92 | the completing tick commits the opposite state and broadcasts its boundary value twice and then one switch |
| TimeManagerProperties.ToggleWithinOneFrame | PaletteSwapManager.cs:46-92 | a press with a frame at least as long as the duration completes the toggle in that frame with exactly one switch |
| TimeManagerProperties.TickMonotone | PaletteSwapManager.cs:72-78 | successive ticks of one transition, the first not reaching the duration, broadcast values that do not decrease leaving Day and do not increase leaving Night |
| TimeManagerProperties.DayNightComplementary | PaletteSwapManager.cs:102-103 | a manager is exactly one of day and night |
| TimeManagerProperties.ExampleDayToNight | PaletteSwapManager.cs:41-92 | from Day with a 1 s duration, a press with a 0.5 s frame gives [0.5] and stays Day. The next 0.5 s gives [1, 1, Night] and commits Night |
| TimeManagerProperties.ExampleNightPress | PaletteSwapManager.cs:62-77 | from Night with a 1 s duration, a press with a 0.25 s frame broadcasts [0.75] and stays Night with a transition running |
| TimeManagerTrace.StateAfterConcat | PaletteSwapManager.cs:91 | the state tracked from switch events over two traces is the state tracked over the second, starting from the first's |
| TimeManagerTrace.StateAfterLastSwitch | PaletteSwapManager.cs:91 | when a switch can only be last, the tracked state is that switch, or the start state if there is none |
| TimeManagerTrace.ConcatKeepsShape | PaletteSwapManager.cs:76-91 | concatenating two well-shaped traces gives a well-shaped trace |
| TimeManagerTrace.TickTraceShape | PaletteSwapManager.cs:70-92 | one tick of a running transition broadcasts progress values in [0, 1] and at most one switch. The switch comes last, right after its boundary snap, and the new state is that switch or the old state |
| TimeManagerTrace.UpdateTraceShape | PaletteSwapManager.cs:41-92 | one frame broadcasts progress values in [0, 1] and at most one switch. The switch comes last, right after its boundary snap, and the new state is that switch or the old state |
| TimeManagerTrace.SetStateTraceShape | PaletteSwapManager.cs:96-100 | a forced state broadcasts progress values in [0, 1] and one switch, last and right after its snap. The new state is that switch |
| TimeManagerTrace.Step | PaletteSwapManager.cs:41-51 | one input, a frame or a forced state, keeps the tick safe and broadcasts a well-shaped trace. The new state is the last switch broadcast, or the old state. A forced state always ends in that state with no transition running |
| TimeManagerTrace.StepKeepsValid | PaletteSwapManager.cs:41-109 | one input keeps the invariant, provided a frame's time is non-negative |
| TimeManagerTrace.Run | PaletteSwapManager.cs:41-51 | over any sequence of frames and forced states, every progress value is in [0, 1] and every switch follows its boundary snap |
| TimeManagerTrace.RunKeepsValid | PaletteSwapManager.cs:41-109 | non-negative frame times keep the invariant over a whole run of frames and forced states |
| TimeManagerTrace.ReachableIsValid | PaletteSwapManager.cs:38-109 | every manager reachable from start-up by frames and `SetState` calls satisfies the invariant |
| TimeManagerTrace.RunStateIsLastSwitch | PaletteSwapManager.cs:87-100 | the current state changes only through a broadcast switch. After any run of frames and `SetState` calls it is the last switch broadcast, or the initial state |

## Left out

- Singleton setup and `DontDestroyOnLoad` in `Awake`: these are engine lifecycle. Only the initial state is modelled (`Init`).
- Keyboard polling and the `Debug.Log` line: the key edge is the `pressed` input of `Update`.
- `Time.deltaTime`: it is the `dt` parameter. The invariant and monotonicity lemmas assume it is non-negative, as the engine supplies it.
- Float rounding in `+=`, `/` and `Mathf.Clamp01`: these use exact reals. `Clamp01` models the engine's clamp.
- Float division by a non-positive duration: it is excluded by `requires`. The invariant shows no reachable running transition has such a duration.
- Delegate multicast, subscriber lists and re-entrant listener calls: events are only an ordered trace.
- The key binding `toggleKey`: it is configuration with no effect on the state machine.
- PaletteSwapper.cs: material and shader parameter wiring and event subscription. It only forwards the broadcast value to the renderer.
