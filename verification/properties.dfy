/**
 Properties of the single operations of `TimeManager`: the invariant each
 one preserves, the gating of a press, and what a tick broadcasts.
 */
module TimeManagerProperties {
  import opened TimeManager

  /** Starting a switch from rest keeps the invariant. */
  lemma BeginSwitchKeepsValid(m: Manager)
    requires Valid(m) && !m.transitioning
    ensures Valid(BeginSwitch(m).next)
  {
  }

  /** A tick by a non-negative frame time keeps the invariant, whether or not it completes. */
  lemma TickKeepsValid(m: Manager, dt: real)
    requires Valid(m) && m.transitioning && dt >= 0.0
    ensures Valid(TickTransition(m, dt).next)
  {
  }

  /** Cancelling keeps the invariant. */
  lemma CancelKeepsValid(m: Manager)
    requires Valid(m)
    ensures Valid(CancelTransition(m))
  {
  }

  /** Forcing a state keeps the invariant, whatever was running. */
  lemma SetStateKeepsValid(m: Manager, s: TimeState)
    requires Valid(m)
    ensures Valid(SetState(m, s).next)
  {
  }

  /** A whole frame by a non-negative frame time keeps the invariant. */
  lemma UpdateKeepsValid(m: Manager, pressed: bool, dt: real)
    requires Valid(m) && dt >= 0.0
    ensures Valid(Update(m, pressed, dt).next)
  {
  }

  /** A press during a running transition is ignored: the frame is exactly the frame without it. */
  lemma PressIgnoredWhileTransitioning(m: Manager, dt: real)
    requires TickSafe(m) && m.transitioning
    ensures Update(m, true, dt) == Update(m, false, dt)
  {
  }

  /**
   With a non-positive duration a press flips the state within the frame,
   leaves no transition running and broadcasts exactly the boundary snap of
   the new state followed by its switch.
   */
  lemma InstantToggle(m: Manager, dt: real)
    requires !m.transitioning && m.duration <= 0.0
    ensures var o := Update(m, true, dt);
      && o.next.current == Opposite(m.current)
      && !o.next.transitioning
      && o.next.timer == m.timer
      && o.events == [Progress(Boundary(Opposite(m.current))), Switched(Opposite(m.current))]
  {
  }

  /**
   With a positive duration a press starts a transition toward the opposite
   state and ticks it in the same frame; if the frame is shorter than the
   duration the state is unchanged and one value is broadcast: the elapsed
   fraction leaving Day, its complement leaving Night.
   */
  lemma GradualToggle(m: Manager, dt: real)
    requires !m.transitioning && m.duration > 0.0
    requires 0.0 <= dt < m.duration
    ensures var o := Update(m, true, dt);
      && o.next.transitioning
      && o.next.current == m.current
      && o.next.target == Opposite(m.current)
      && o.next.timer == dt
      && |o.events| == 1 && o.events[0].Progress?
      && (if m.current == Day then o.events[0].value * m.duration == dt
          else (1.0 - o.events[0].value) * m.duration == dt)
  {
  }

  /**
   The tick that completes a transition broadcasts the boundary value of
   the target twice (its own clamped progress, then the snap) and then the
   single switch; the committed state is the opposite of the one it left.
   */
  lemma TickCompletionSnaps(m: Manager, dt: real)
    requires Valid(m) && m.transitioning && m.timer + dt >= m.duration
    ensures var o := TickTransition(m, dt);
      && o.next.current == Opposite(m.current)
      && !o.next.transitioning
      && o.events == [Progress(Boundary(Opposite(m.current))),
                      Progress(Boundary(Opposite(m.current))),
                      Switched(Opposite(m.current))]
  {
  }

  /**
   A press from rest with a positive duration and a frame at least that long
   completes the whole toggle in that frame, with exactly one switch to the
   opposite state.
   */
  lemma ToggleWithinOneFrame(m: Manager, dt: real)
    requires !m.transitioning && m.duration > 0.0 && dt >= m.duration
    ensures var o := Update(m, true, dt);
      && o.next.current == Opposite(m.current)
      && !o.next.transitioning
      && o.events == [Progress(Boundary(Opposite(m.current))),
                      Progress(Boundary(Opposite(m.current))),
                      Switched(Opposite(m.current))]
  {
  }

  /**
   Two successive ticks of one transition, the first not completing it,
   broadcast values that move toward the target: non-decreasing when leaving
   Day, non-increasing when leaving Night.
   */
  lemma TickMonotone(m: Manager, dt1: real, dt2: real)
    requires Valid(m) && m.transitioning && dt1 >= 0.0 && dt2 >= 0.0
    requires m.timer + dt1 < m.duration
    ensures var o1 := TickTransition(m, dt1);
      var o2 := TickTransition(o1.next, dt2);
      && o2.events[0].Progress?
      && (m.current == Day ==> o1.events[0].value <= o2.events[0].value)
      && (m.current == Night ==> o2.events[0].value <= o1.events[0].value)
  {
    var o1 := TickTransition(m, dt1);
    var x1 := m.timer + dt1;
    var x2 := x1 + dt2;
    assert x1 <= x2;
    DivideMonotone(x1, x2, m.duration);
  }

  lemma DivideMonotone(a: real, b: real, d: real)
    requires a <= b && d > 0.0
    ensures a / d <= b / d
  {
  }

  /** A manager is exactly one of day and night. */
  lemma DayNightComplementary(m: Manager)
    ensures IsDay(m) != IsNight(m)
  {
  }

  /**
   The worked example: from Day with a one-second duration, a press with a
   half-second frame broadcasts 0.5 and stays Day; the next half second
   broadcasts 1 twice and commits Night.
   */
  lemma ExampleDayToNight()
    ensures var m0 := Init(Day, 1.0);
      var o1 := Update(m0, true, 0.5);
      var o2 := Update(o1.next, false, 0.5);
      && o1.events == [Progress(0.5)] && o1.next.current == Day && o1.next.transitioning
      && o2.events == [Progress(1.0), Progress(1.0), Switched(Night)]
      && o2.next.current == Night && !o2.next.transitioning
  {
  }

  /**
   Leaving Night the first value is the complement of the elapsed fraction:
   from Night with a one-second duration, a press with a quarter-second
   frame broadcasts 0.75 and stays Night.
   */
  lemma ExampleNightPress()
    ensures var o := Update(Init(Night, 1.0), true, 0.25);
      && o.events == [Progress(0.75)]
      && o.next.current == Night && o.next.transitioning
  {
  }
}
