/**
 The day/night state machine of `TimeManager`.

 The manager is an immutable record and every operation is a pure function
 returning the next record together with the notifications it broadcast, in
 the order they were broadcast. The two delegate events of the component,
 the per-frame progress value and the "time switched" notification, are the
 two constructors of `Event`. Seconds are exact reals.
 */
module TimeManager {

  datatype TimeState = Day | Night

  /** One broadcast: a progress value ("how far toward Night") or a committed state. */
  datatype Event = Progress(value: real) | Switched(state: TimeState)

  /**
   The component's fields. `duration` is the configured transition length;
   no operation changes it.
   */
  datatype Manager = Manager(
    current: TimeState,
    transitioning: bool,
    timer: real,
    target: TimeState,
    duration: real)

  /** The next manager and the events broadcast on the way there. */
  datatype Outcome = Outcome(next: Manager, events: seq<Event>)

  /** The other state. */
  function Opposite(s: TimeState): (o: TimeState)
    ensures o != s
  {
    if s == Day then Night else Day
  }

  /** The clean progress value of a committed state: 0 for full day, 1 for full night. */
  function Boundary(s: TimeState): (b: real)
    ensures b == 0.0 || b == 1.0
    ensures b == 1.0 <==> s == Night
  {
    if s == Night then 1.0 else 0.0
  }

  /** Clamps a value into the unit interval, as the engine's `Clamp01` does. */
  function Clamp01(x: real): (r: real)
    ensures 0.0 <= r <= 1.0
    ensures 0.0 <= x <= 1.0 ==> r == x
    ensures x < 0.0 ==> r == 0.0
    ensures x > 1.0 ==> r == 1.0
  {
    if x < 0.0 then 0.0 else if x > 1.0 then 1.0 else x
  }

  /** What `TickTransition` needs of a manager: a running transition divides by a positive duration. */
  predicate TickSafe(m: Manager)
  {
    m.transitioning ==> m.duration > 0.0
  }

  /**
   The invariant of every reachable manager (for non-negative frame times):
   the timer is never negative, and a running transition has a positive
   duration, heads for the opposite of the current state and has not yet
   reached its end.
   */
  predicate Valid(m: Manager)
  {
    && m.timer >= 0.0
    && (m.transitioning ==>
          && m.duration > 0.0
          && m.target == Opposite(m.current)
          && m.timer < m.duration)
  }

  /** The manager after start-up: the configured starting state, no transition. */
  function Init(startingState: TimeState, duration: real): (m: Manager)
    ensures m.current == startingState && !m.transitioning
    ensures m.duration == duration
    ensures Valid(m)
  {
    Manager(startingState, false, 0.0, Day, duration)
  }

  function IsNight(m: Manager): (b: bool)
    ensures b <==> m.current == Night
  {
    m.current == Night
  }

  function IsDay(m: Manager): (b: bool)
    ensures b <==> !IsNight(m)
  {
    m.current == Day
  }

  /**
   The single point that commits a state: the new state becomes current,
   then the boundary progress of that state is broadcast, then the switch.
   Nothing else changes.
   */
  function ApplyState(m: Manager, s: TimeState): (o: Outcome)
    ensures o.next.current == s
    ensures o.next.transitioning == m.transitioning && o.next.timer == m.timer
    ensures o.next.target == m.target && o.next.duration == m.duration
    ensures |o.events| == 2
    ensures o.events[0] == Progress(Boundary(s)) && o.events[1] == Switched(s)
  {
    Outcome(m.(current := s), [Progress(Boundary(s)), Switched(s)])
  }

  /**
   Starts a toggle toward the opposite state: committed at once when the
   duration is not positive, otherwise a transition starts from a zero timer
   and the current state stays as it was.
   */
  function BeginSwitch(m: Manager): (o: Outcome)
    ensures o.next.target == Opposite(m.current)
    ensures o.next.duration == m.duration
    ensures m.duration <= 0.0 ==>
              && o.next.current == Opposite(m.current)
              && o.next.transitioning == m.transitioning
              && o.next.timer == m.timer
              && o.events == [Progress(Boundary(Opposite(m.current))), Switched(Opposite(m.current))]
    ensures m.duration > 0.0 ==>
              && o.next.current == m.current
              && o.next.transitioning
              && o.next.timer == 0.0
              && o.events == []
  {
    var target := Opposite(m.current);
    var m' := m.(target := target);
    if m.duration <= 0.0 then
      ApplyState(m', target)
    else
      Outcome(m'.(transitioning := true, timer := 0.0), [])
  }

  /** How the elapsed fraction `x / d` of a positive duration compares with the ends of the unit interval. */
  lemma FractionFacts(x: real, d: real)
    requires d > 0.0
    ensures x / d * d == x
    ensures x / d >= 1.0 <==> x >= d
    ensures x / d < 0.0 <==> x < 0.0
  {
  }

  /** The broadcast value of a normalised time `t`, measured toward Night whichever way the transition runs. */
  function TowardNight(current: TimeState, t: real): (r: real)
    ensures current == Day ==> r == t
    ensures current == Night ==> r == 1.0 - t
    ensures 0.0 <= t <= 1.0 ==> 0.0 <= r <= 1.0
    ensures t == 0.0 ==> r == Boundary(current)
    ensures t == 1.0 ==> r == Boundary(Opposite(current))
  {
    if current == Day then t else 1.0 - t
  }

  /**
   One frame of a running transition: the timer advances by `dt`, exactly
   one progress value in [0, 1] is broadcast (the elapsed fraction when
   heading from Day, its complement when heading from Night), and the
   transition completes, committing the target, exactly when the timer has
   reached the duration.
   */
  function TickTransition(m: Manager, dt: real): (o: Outcome)
    requires m.duration > 0.0
    ensures o.next.timer == m.timer + dt
    ensures o.next.target == m.target && o.next.duration == m.duration
    ensures |o.events| >= 1 && o.events[0].Progress?
    ensures 0.0 <= o.events[0].value <= 1.0
    ensures 0.0 <= m.timer + dt <= m.duration ==>
              if m.current == Day then o.events[0].value * m.duration == m.timer + dt
              else (1.0 - o.events[0].value) * m.duration == m.timer + dt
    ensures m.timer + dt < 0.0 ==> o.events[0] == Progress(Boundary(m.current))
    ensures m.timer + dt < m.duration ==>
              && o.next == m.(timer := m.timer + dt)
              && |o.events| == 1
    ensures m.timer + dt >= m.duration ==>
              && !o.next.transitioning
              && o.next.current == m.target
              && o.events[0] == Progress(TowardNight(m.current, 1.0))
              && o.events[1..] == [Progress(Boundary(m.target)), Switched(m.target)]
  {
    var timer := m.timer + dt;
    var t := Clamp01(timer / m.duration);
    var progress := Progress(TowardNight(m.current, t));
    FractionFacts(timer, m.duration);
    assert 0.0 <= timer <= m.duration ==> t * m.duration == timer;
    var ticked := m.(timer := timer);
    if t >= 1.0 then
      var applied := ApplyState(ticked.(transitioning := false), m.target);
      Outcome(applied.next, [progress] + applied.events)
    else
      Outcome(ticked, [progress])
  }

  /** Abandons a running transition without broadcasting anything. */
  function CancelTransition(m: Manager): (m': Manager)
    ensures !m'.transitioning && m'.timer == 0.0
    ensures m'.current == m.current && m'.target == m.target && m'.duration == m.duration
  {
    m.(transitioning := false, timer := 0.0)
  }

  /**
   Forces a state: a running transition is cancelled (its timer reset), then
   the state is committed, broadcasting only the boundary snap and the switch.
   */
  function SetState(m: Manager, s: TimeState): (o: Outcome)
    ensures o.next.current == s && !o.next.transitioning
    ensures o.next.timer == (if m.transitioning then 0.0 else m.timer)
    ensures o.next.target == m.target && o.next.duration == m.duration
    ensures o.events == [Progress(Boundary(s)), Switched(s)]
  {
    var m' := if m.transitioning then CancelTransition(m) else m;
    ApplyState(m', s)
  }

  /**
   One frame: a press begins a switch only when no transition is running,
   and a transition that is running after that is ticked by `dt` in the same
   frame. The events of both are broadcast in that order.
   */
  function Update(m: Manager, pressed: bool, dt: real): (o: Outcome)
    requires TickSafe(m)
    ensures TickSafe(o.next)
    ensures o.next.duration == m.duration
    ensures !pressed && !m.transitioning ==> o == Outcome(m, [])
    ensures pressed && !m.transitioning && m.duration <= 0.0 ==> o == BeginSwitch(m)
    ensures m.transitioning ==> o == TickTransition(m, dt)
    ensures pressed && !m.transitioning && m.duration > 0.0 ==>
              o == TickTransition(BeginSwitch(m).next, dt)
  {
    var begun := if pressed && !m.transitioning then BeginSwitch(m) else Outcome(m, []);
    if begun.next.transitioning then
      var ticked := TickTransition(begun.next, dt);
      Outcome(ticked.next, begun.events + ticked.events)
    else
      begun
  }
}
