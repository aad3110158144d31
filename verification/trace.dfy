/**
 The broadcast contract of `TimeManager` over many frames.

 A run feeds one input after another, a frame to `Update` or a forced state
 to `SetState`, and concatenates the events. Listeners see every progress
 value inside [0, 1], every switch immediately after the boundary snap of
 its state, and the state a listener tracks from the switches alone is the
 manager's current state.
 */
module TimeManagerTrace {
  import opened TimeManager

  /**
   One input to the manager: a frame (the toggle edge and the frame time,
   handled by `Update`) or a call of the public `SetState` made by another
   script between frames.
   */
  datatype Input = Frame(pressed: bool, deltaTime: real) | Force(state: TimeState)

  /** Every broadcast progress value lies in the unit interval. */
  predicate ProgressInRange(e: seq<Event>)
  {
    forall i :: 0 <= i < |e| && e[i].Progress? ==> 0.0 <= e[i].value <= 1.0
  }

  /** Every switch comes straight after the boundary snap of the state it commits. */
  predicate SwitchAnnounced(e: seq<Event>)
  {
    forall i :: 0 <= i < |e| && e[i].Switched? ==> 0 < i && e[i - 1] == Progress(Boundary(e[i].state))
  }

  /** A switch, if there is one, is the last event. */
  predicate SwitchOnlyLast(e: seq<Event>)
  {
    forall i :: 0 <= i < |e| && e[i].Switched? ==> i == |e| - 1
  }

  /** The state a listener holds after seeing `e`, starting from `s`: the last switch, if any. */
  function StateAfter(e: seq<Event>, s: TimeState): TimeState
    decreases |e|
  {
    if |e| == 0 then s
    else StateAfter(e[1..], if e[0].Switched? then e[0].state else s)
  }

  predicate NonNegativeFrames(inputs: seq<Input>)
  {
    forall i :: 0 <= i < |inputs| && inputs[i].Frame? ==> inputs[i].deltaTime >= 0.0
  }

  lemma {:induction false} StateAfterConcat(a: seq<Event>, b: seq<Event>, s: TimeState)
    ensures StateAfter(a + b, s) == StateAfter(b, StateAfter(a, s))
    decreases |a|
  {
    if |a| > 0 {
      assert (a + b)[1..] == a[1..] + b;
      StateAfterConcat(a[1..], b, if a[0].Switched? then a[0].state else s);
    } else {
      assert a + b == b;
    }
  }

  /** When a switch can only be the last event, the tracked state is that switch or the start. */
  lemma {:induction false} StateAfterLastSwitch(e: seq<Event>, s: TimeState)
    requires SwitchOnlyLast(e)
    ensures StateAfter(e, s) == (if |e| > 0 && e[|e| - 1].Switched? then e[|e| - 1].state else s)
    decreases |e|
  {
    if |e| > 0 {
      var s' := if e[0].Switched? then e[0].state else s;
      if |e| == 1 {
        assert e[1..] == [];
      } else {
        assert !e[0].Switched?;
        assert SwitchOnlyLast(e[1..]) by {
          forall i | 0 <= i < |e[1..]| && e[1..][i].Switched?
            ensures i == |e[1..]| - 1
          {
            assert e[i + 1].Switched?;
          }
        }
        StateAfterLastSwitch(e[1..], s');
        assert e[1..][|e[1..]| - 1] == e[|e| - 1];
      }
    }
  }

  lemma ConcatKeepsShape(a: seq<Event>, b: seq<Event>)
    requires ProgressInRange(a) && SwitchAnnounced(a)
    requires ProgressInRange(b) && SwitchAnnounced(b)
    ensures ProgressInRange(a + b) && SwitchAnnounced(a + b)
  {
  }

  /**
   The events of one tick: all progress values in [0, 1], at most one
   switch and only as the last event, announced by its boundary snap, and
   the new state is what a listener tracking the switches would hold.
   */
  lemma TickTraceShape(m: Manager, dt: real)
    requires m.duration > 0.0
    ensures var o := TickTransition(m, dt);
      && ProgressInRange(o.events)
      && SwitchAnnounced(o.events)
      && SwitchOnlyLast(o.events)
      && o.next.current == StateAfter(o.events, m.current)
  {
    var o := TickTransition(m, dt);
    if m.timer + dt >= m.duration {
      assert o.events == [o.events[0]] + o.events[1..];
    }
    StateAfterLastSwitch(o.events, m.current);
  }

  /**
   The events of one frame: all progress values in [0, 1], at most one
   switch and only as the last event, announced by its boundary snap, and
   the manager's new state is exactly what a listener tracking the switches
   would hold.
   */
  lemma UpdateTraceShape(m: Manager, pressed: bool, dt: real)
    requires TickSafe(m)
    ensures var o := Update(m, pressed, dt);
      && ProgressInRange(o.events)
      && SwitchAnnounced(o.events)
      && SwitchOnlyLast(o.events)
      && o.next.current == StateAfter(o.events, m.current)
  {
    var o := Update(m, pressed, dt);
    if m.transitioning {
      TickTraceShape(m, dt);
    } else if pressed && m.duration > 0.0 {
      var begun := BeginSwitch(m).next;
      TickTraceShape(begun, dt);
    } else {
      StateAfterLastSwitch(o.events, m.current);
    }
  }

  /** A forced state broadcasts a well-shaped trace whose only switch is the forced state. */
  lemma SetStateTraceShape(m: Manager, st: TimeState)
    ensures var o := SetState(m, st);
      && ProgressInRange(o.events)
      && SwitchAnnounced(o.events)
      && SwitchOnlyLast(o.events)
      && o.next.current == StateAfter(o.events, m.current)
  {
    StateAfterLastSwitch(SetState(m, st).events, m.current);
  }

  /** The reaction to one input: a frame goes to `Update`, a forced state to `SetState`. */
  function Step(m: Manager, input: Input): (o: Outcome)
    requires TickSafe(m)
    ensures TickSafe(o.next) && o.next.duration == m.duration
    ensures ProgressInRange(o.events) && SwitchAnnounced(o.events)
    ensures o.next.current == StateAfter(o.events, m.current)
    ensures input.Force? ==> o.next.current == input.state && !o.next.transitioning
  {
    match input
    case Frame(pressed, dt) =>
      UpdateTraceShape(m, pressed, dt);
      Update(m, pressed, dt)
    case Force(st) =>
      SetStateTraceShape(m, st);
      SetState(m, st)
  }

  /**
   The manager and broadcast after feeding `inputs` one by one. The trace
   keeps the per-input shape: progress in range and every switch announced.
   */
  function Run(m: Manager, inputs: seq<Input>): (o: Outcome)
    requires TickSafe(m)
    ensures TickSafe(o.next) && o.next.duration == m.duration
    ensures ProgressInRange(o.events) && SwitchAnnounced(o.events)
    decreases |inputs|
  {
    if |inputs| == 0 then Outcome(m, [])
    else
      var step := Step(m, inputs[0]);
      var rest := Run(step.next, inputs[1..]);
      ConcatKeepsShape(step.events, rest.events);
      Outcome(rest.next, step.events + rest.events)
  }

  /** One input keeps the invariant, provided a frame's time is non-negative. */
  lemma StepKeepsValid(m: Manager, input: Input)
    requires Valid(m)
    requires input.Frame? ==> input.deltaTime >= 0.0
    ensures Valid(Step(m, input).next)
  {
  }

  /** Non-negative frame times keep the invariant over a whole run, forced states included. */
  lemma {:induction false} RunKeepsValid(m: Manager, inputs: seq<Input>)
    requires Valid(m) && NonNegativeFrames(inputs)
    ensures Valid(Run(m, inputs).next)
    decreases |inputs|
  {
    if |inputs| > 0 {
      StepKeepsValid(m, inputs[0]);
      var step := Step(m, inputs[0]);
      assert NonNegativeFrames(inputs[1..]) by {
        forall i | 0 <= i < |inputs[1..]| && inputs[1..][i].Frame?
          ensures inputs[1..][i].deltaTime >= 0.0
        {
          assert inputs[1..][i] == inputs[i + 1];
        }
      }
      RunKeepsValid(step.next, inputs[1..]);
    }
  }

  /**
   Every manager reachable from start-up by frames with non-negative times
   and forced states satisfies the invariant.
   */
  lemma ReachableIsValid(startingState: TimeState, duration: real, inputs: seq<Input>)
    requires NonNegativeFrames(inputs)
    ensures Valid(Run(Init(startingState, duration), inputs).next)
  {
    RunKeepsValid(Init(startingState, duration), inputs);
  }

  /**
   The state changes only by a broadcast switch: after any run of frames and
   forced states, the current state is the last switch broadcast, or the
   initial state if there was none.
   */
  lemma {:induction false} RunStateIsLastSwitch(m: Manager, inputs: seq<Input>)
    requires TickSafe(m)
    ensures Run(m, inputs).next.current == StateAfter(Run(m, inputs).events, m.current)
    decreases |inputs|
  {
    if |inputs| > 0 {
      var step := Step(m, inputs[0]);
      var rest := Run(step.next, inputs[1..]);
      RunStateIsLastSwitch(step.next, inputs[1..]);
      StateAfterConcat(step.events, rest.events, m.current);
    }
  }
}
