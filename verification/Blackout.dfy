/**
 * The blacked-out display and its input window (device/daemon/Display.m): blocks on one serial
 * queue, some of them delayed, that turn the panel on for touch input and off again.
 */
module Blackout {
  import opened Common

  const SAFETY_WINDOW: real := 30.0
  const INPUT_TAIL: real := 0.4
  const CLOSE_MARGIN: real := 0.05
  const DIGITIZER_WAKE: real := 0.25
  const REASSERT_PULSE: real := 0.2

  /** Times in seconds on one clock; `closes` are the due times of the close blocks not yet run. */
  datatype Display = Display(blackout: bool, windowEnds: Option<real>, panelOn: bool, now: real, closes: multiset<real>)

  /**
   * One block, or the passing of time. A close block runs no earlier than it is due, but may run
   * late. `wake`, `lag` and `pulse` are how long a block really took where that matters; `current`
   * and `screenOn` are what a reassertion reads off the backlight and SpringBoard.
   */
  datatype Event =
    | Wait(d: real)
    | SetBlackout(on: bool)
    | Toggle
    | Refresh
    | PowerForInput(wake: real)
    | FinishInput(lag: real)
    | CloseFires(due: real)
    | Reassert(current: Option<int>, screenOn: bool, pulse: real)

  predicate WindowOpen(s: Display) { s.windowEnds.Some? && s.windowEnds.value > s.now }

  predicate Possible(s: Display, e: Event) {
    match e
    case Wait(d) => d >= 0.0
    case PowerForInput(wake) => wake >= DIGITIZER_WAKE
    case FinishInput(lag) => lag >= 0.0
    case CloseFires(due) => due in s.closes && due <= s.now
    case Reassert(_, _, pulse) => pulse >= REASSERT_PULSE
    case _ => true
  }

  function Step(s: Display, e: Event): Display
    requires Possible(s, e)
  {
    match e
    case Wait(d) => s.(now := s.now + d)
    case SetBlackout(on) => s.(blackout := on, panelOn := !on)
    case Toggle => s.(blackout := !s.blackout, panelOn := s.blackout)
    case Refresh => if s.blackout then s.(panelOn := false) else s
    case PowerForInput(wake) =>
      if !s.blackout then s
      else
        var ready := if WindowOpen(s) then s.now else s.now + wake;
        s.(windowEnds := Some(s.now + SAFETY_WINDOW), panelOn := s.panelOn || !WindowOpen(s), now := ready,
           closes := s.closes + multiset{ready + SAFETY_WINDOW + CLOSE_MARGIN})
    case FinishInput(lag) =>
      if !s.blackout || !WindowOpen(s) then s
      else s.(windowEnds := Some(s.now + INPUT_TAIL), now := s.now + lag,
              closes := s.closes + multiset{s.now + lag + INPUT_TAIL + CLOSE_MARGIN})
    case CloseFires(due) =>
      var fired := s.(closes := s.closes - multiset{due});
      if !s.blackout || WindowOpen(s) then fired else fired.(windowEnds := None, panelOn := false)
    case Reassert(current, screenOn, pulse) =>
      if !s.blackout || WindowOpen(s) || current == Some(0) || (current.None? && !screenOn) then s
      else s.(panelOn := false, now := s.now + pulse)
  }

  class DisplayQueue {
    var blackout: bool
    var windowEnds: Option<real>
    var panelOn: bool
    var now: real
    var closes: multiset<real>

    function State(): Display
      reads this
    {
      Display(blackout, windowEnds, panelOn, now, closes)
    }

    /** The state once the block queued by the start has applied the stored setting. */
    constructor (blackout: bool, now: real)
      ensures State() == Started(blackout, now)
    {
      this.blackout, panelOn, this.now := blackout, !blackout, now;
      windowEnds, closes := None, multiset{};
    }

    method RequestPanelPower(on: bool)
      modifies this`panelOn
      ensures panelOn == on
    {
      panelOn := on;
    }

    method Sleep(d: real)
      modifies this`now
      ensures now == old(now) + d
    {
      now := now + d;
    }

    method InputWindowOpen() returns (open: bool)
      ensures open == WindowOpen(State())
    {
      open := windowEnds.Some? && windowEnds.value > now;
    }

    method ScheduleInputWindowClose(delay: real)
      modifies this`closes
      ensures closes == old(closes) + multiset{now + delay + CLOSE_MARGIN}
    {
      closes := closes + multiset{now + delay + CLOSE_MARGIN};
    }

    method ApplyBlackout()
      modifies this`panelOn
      ensures panelOn == !blackout
    {
      RequestPanelPower(!blackout);
    }

    method ChangeBlackout(enabled: bool)
      modifies this
      ensures State() == Step(old(State()), SetBlackout(enabled))
    {
      blackout := enabled;
      ApplyBlackout();
    }

    method ToggleBlackout()
      modifies this
      ensures State() == Step(old(State()), Toggle)
    {
      blackout := !blackout;
      ApplyBlackout();
    }

    method RefreshBlackout()
      modifies this
      ensures State() == Step(old(State()), Refresh)
    {
      if blackout { ApplyBlackout(); }
    }

    method PowerPanelForInput(wake: real)
      requires wake >= DIGITIZER_WAKE
      modifies this
      ensures State() == Step(old(State()), PowerForInput(wake))
    {
      if !blackout { return; }
      var alreadyPowered := InputWindowOpen();
      windowEnds := Some(now + SAFETY_WINDOW);
      if !alreadyPowered {
        RequestPanelPower(true);
        Sleep(wake);
      }
      ScheduleInputWindowClose(SAFETY_WINDOW);
    }

    method FinishPanelInput(lag: real)
      requires lag >= 0.0
      modifies this
      ensures State() == Step(old(State()), FinishInput(lag))
    {
      var open := InputWindowOpen();
      if !blackout || !open { return; }
      windowEnds := Some(now + INPUT_TAIL);
      Sleep(lag);
      ScheduleInputWindowClose(INPUT_TAIL);
    }

    method CloseInputWindow(due: real)
      requires due in closes && due <= now
      modifies this
      ensures State() == Step(old(State()), CloseFires(due))
    {
      closes := closes - multiset{due};
      var open := InputWindowOpen();
      if !blackout || open { return; }
      windowEnds := None;
      RequestPanelPower(false);
    }

    method ReassertBlackout(current: Option<int>, screenOn: bool, pulse: real)
      requires pulse >= REASSERT_PULSE
      modifies this
      ensures State() == Step(old(State()), Reassert(current, screenOn, pulse))
    {
      if !blackout { return; }
      var open := InputWindowOpen();
      if open { return; }
      if current.Some? && current.value == 0 { return; }
      if current.None? && !screenOn { return; }
      RequestPanelPower(true);
      Sleep(pulse);
      RequestPanelPower(false);
    }
  }

  function Started(blackout: bool, now: real): Display {
    Display(blackout, None, !blackout, now, multiset{})
  }

  ghost predicate IsRun(s: Display, events: seq<Event>)
    decreases |events|
  {
    events == [] || (Possible(s, events[0]) && IsRun(Step(s, events[0]), events[1..]))
  }

  function Run(s: Display, events: seq<Event>): Display
    requires IsRun(s, events)
    decreases |events|
  {
    if events == [] then s else Run(Step(s, events[0]), events[1..])
  }

  // ---------------------------------------------------------------- back to dark

  predicate LitInBlackout(s: Display) { s.blackout && s.panelOn }

  /**
   * A panel lit during blackout has a pending close that will not find the window open, due by `limit`
   * if one is given.
   */
  ghost predicate WillGoDark(s: Display, limit: Option<real>) {
    LitInBlackout(s) ==>
      s.windowEnds.Some? && exists due ::
        due in s.closes && due >= s.windowEnds.value && (limit.Some? ==> due <= limit.value)
  }

  predicate IsInput(e: Event) { e.PowerForInput? || e.FinishInput? }

  /** An input schedules the close that will darken what it lights. */
  lemma InputKeepsPromise(s: Display, e: Event)
    requires Possible(s, e) && IsInput(e) && WillGoDark(s, None)
    ensures WillGoDark(Step(s, e), None)
  {
    var after := Step(s, e);
    if s.blackout && e.PowerForInput? {
      var ready := if WindowOpen(s) then s.now else s.now + e.wake;
      assert ready + SAFETY_WINDOW + CLOSE_MARGIN in after.closes;
    } else if s.blackout && WindowOpen(s) {
      assert s.now + e.lag + INPUT_TAIL + CLOSE_MARGIN in after.closes;
    } else {
      assert after == s;
    }
  }

  /** Any other block leaves a promised close pending, unless it darkens the panel or ends the blackout. */
  lemma OtherKeepsPromise(s: Display, e: Event, limit: Option<real>)
    requires Possible(s, e) && !IsInput(e) && WillGoDark(s, limit)
    ensures WillGoDark(Step(s, e), limit)
  {
    var after := Step(s, e);
    if LitInBlackout(after) {
      assert LitInBlackout(s) && after.windowEnds == s.windowEnds;
      var due :| due in s.closes && due >= s.windowEnds.value && (limit.Some? ==> due <= limit.value);
      assert due in after.closes;
    }
  }

  /** Every block keeps the promise, and blocks that are no input keep its time limit. */
  lemma StepKeepsPromise(s: Display, e: Event, limit: Option<real>)
    requires Possible(s, e) && WillGoDark(s, limit)
    requires IsInput(e) ==> limit.None?
    ensures WillGoDark(Step(s, e), limit)
  {
    if IsInput(e) {
      InputKeepsPromise(s, e);
    } else {
      OtherKeepsPromise(s, e, limit);
    }
  }

  lemma {:induction false} RunKeepsPromise(s: Display, events: seq<Event>, limit: Option<real>)
    requires IsRun(s, events) && WillGoDark(s, limit)
    requires forall e <- events :: IsInput(e) ==> limit.None?
    ensures WillGoDark(Run(s, events), limit)
    decreases |events|
  {
    if events == [] {
    } else {
      assert events[0] in events;
      StepKeepsPromise(s, events[0], limit);
      RunKeepsPromise(Step(s, events[0]), events[1..], limit);
    }
  }

  /**
   * Under any interleaving of inputs, toggles, refreshes, reassertions and stale closes, a panel
   * lit during blackout has a close pending that is due no earlier than the window's end; so it is
   * dark whenever no close is pending.
   */
  lemma BlackoutReturnsToDark(blackout: bool, now: real, events: seq<Event>)
    requires IsRun(Started(blackout, now), events)
    ensures var s := Run(Started(blackout, now), events);
            && WillGoDark(s, None)
            && (s.closes == multiset{} ==> !LitInBlackout(s))
  {
    RunKeepsPromise(Started(blackout, now), events, None);
  }

  /**
   * After a finish that found the window open, and with no further input, the panel is dark as
   * soon as the closes due up to 0.45 s after that finish have run, whatever else happened.
   */
  lemma DarkSoonAfterFinish(s: Display, lag: real, events: seq<Event>)
    requires lag >= 0.0 && s.blackout && WindowOpen(s)
    requires IsRun(Step(s, FinishInput(lag)), events) && forall e <- events :: !IsInput(e)
    ensures var limit := s.now + lag + INPUT_TAIL + CLOSE_MARGIN;
            var end := Run(Step(s, FinishInput(lag)), events);
            (forall due <- end.closes :: due > limit) ==> !LitInBlackout(end)
  {
    var limit := s.now + lag + INPUT_TAIL + CLOSE_MARGIN;
    var after := Step(s, FinishInput(lag));
    assert limit in after.closes;
    RunKeepsPromise(after, events, Some(limit));
  }

  /**
   * The same of an input that is never finished: with no further input after it, the panel is dark
   * as soon as the closes due up to the end of its safety window have run.
   */
  lemma DarkAfterSafetyWindow(s: Display, wake: real, events: seq<Event>)
    requires wake >= DIGITIZER_WAKE && s.blackout
    requires IsRun(Step(s, PowerForInput(wake)), events) && forall e <- events :: !IsInput(e)
    ensures var limit := (if WindowOpen(s) then s.now else s.now + wake) + SAFETY_WINDOW + CLOSE_MARGIN;
            var end := Run(Step(s, PowerForInput(wake)), events);
            (forall due <- end.closes :: due > limit) ==> !LitInBlackout(end)
  {
    var limit := (if WindowOpen(s) then s.now else s.now + wake) + SAFETY_WINDOW + CLOSE_MARGIN;
    var after := Step(s, PowerForInput(wake));
    assert limit in after.closes;
    RunKeepsPromise(after, events, Some(limit));
  }

  // ---------------------------------------------------------------- lit outside blackout

  /** The block asks for the setting `on`, whatever it was. */
  predicate Asks(s: Display, e: Event, on: bool) {
    (e.SetBlackout? && e.on == on) || (e.Toggle? && s.blackout != on)
  }

  /**
   * A request or the button combination changes the setting to what it asks for, and the panel with it;
   * nothing else changes the setting.
   */
  lemma SettingIsApplied(s: Display, e: Event, on: bool)
    requires Possible(s, e)
    ensures Asks(s, e, on) ==> Step(s, e).blackout == on && Step(s, e).panelOn == !on
    ensures !e.SetBlackout? && !e.Toggle? ==> Step(s, e).blackout == s.blackout
  {
  }

  /** What lights a dark panel: the end of blackout, and an input that finds its window closed. Nothing else does. */
  lemma LitExactlyBy(s: Display, e: Event)
    requires Possible(s, e) && !s.panelOn
    ensures Step(s, e).panelOn <==> Asks(s, e, false) || (e.PowerForInput? && s.blackout && !WindowOpen(s))
  {
  }

  /**
   * What darkens a lit panel: a request for blackout, a refresh during it, and while no window is
   * open a due close, or a reassertion that finds the backlight on or, not knowing, the screen on.
   */
  lemma DarkenedExactlyBy(s: Display, e: Event)
    requires Possible(s, e) && s.panelOn
    ensures !Step(s, e).panelOn <==>
            || Asks(s, e, true)
            || (e.Refresh? && s.blackout)
            || (e.CloseFires? && s.blackout && !WindowOpen(s))
            || (e.Reassert? && s.blackout && !WindowOpen(s)
                && (if e.current.Some? then e.current.value != 0 else e.screenOn))
  {
  }

  lemma {:induction false} RunStaysLitOutside(s: Display, events: seq<Event>)
    requires IsRun(s, events) && (!s.blackout ==> s.panelOn)
    ensures !Run(s, events).blackout ==> Run(s, events).panelOn
    decreases |events|
  {
    if events == [] {
    } else {
      RunStaysLitOutside(Step(s, events[0]), events[1..]);
    }
  }

  /** Whatever inputs, stale closes, refreshes and reassertions come, outside blackout the panel is lit. */
  lemma LitOutsideBlackout(blackout: bool, now: real, events: seq<Event>)
    requires IsRun(Started(blackout, now), events)
    ensures var s := Run(Started(blackout, now), events); !s.blackout ==> s.panelOn
  {
    RunStaysLitOutside(Started(blackout, now), events);
  }

  // ---------------------------------------------------------------- lit while the window is open

  /** Blocks that re-apply the blackout setting, and so switch the panel regardless of the window. */
  predicate Reapplies(e: Event) { e.SetBlackout? || e.Toggle? || e.Refresh? }

  /** Blackout is on and the window open before and after every block. */
  ghost predicate OpenThroughout(s: Display, events: seq<Event>)
    requires IsRun(s, events)
    decreases |events|
  {
    s.blackout && WindowOpen(s) && (events == [] || OpenThroughout(Step(s, events[0]), events[1..]))
  }

  /** One block between two states of blackout with an open window. */
  lemma StepInOpenWindow(s: Display, e: Event)
    requires Possible(s, e) && s.blackout && WindowOpen(s) && Step(s, e).blackout && WindowOpen(Step(s, e))
    ensures Step(s, e).panelOn <==> s.panelOn && !Reapplies(e)
  {
  }

  /**
   * While blackout and its window last, the panel is lit in the end exactly when it was lit at the
   * start and the setting was never re-applied: nothing else darkens it, and nothing, not even a
   * further input, lights it again.
   */
  lemma {:induction false} LitExactlyWhenNeverReapplied(s: Display, events: seq<Event>)
    requires IsRun(s, events) && OpenThroughout(s, events)
    ensures Run(s, events).panelOn <==> s.panelOn && forall e <- events :: !Reapplies(e)
    decreases |events|
  {
    if events == [] {
    } else {
      var next := Step(s, events[0]);
      StepInOpenWindow(s, events[0]);
      LitExactlyWhenNeverReapplied(next, events[1..]);
      assert events == [events[0]] + events[1..];
    }
  }

  /** Unless the setting is re-applied, stale closes and reassertions leave an open window lit. */
  lemma {:induction false} OpenWindowStaysLit(s: Display, events: seq<Event>)
    requires s.blackout && (WindowOpen(s) ==> s.panelOn)
    requires IsRun(s, events) && forall e <- events :: !Reapplies(e)
    ensures var end := Run(s, events);
            end.blackout && (WindowOpen(end) ==> end.panelOn)
    decreases |events|
  {
    if events == [] {
    } else {
      assert events[0] in events;
      OpenWindowStaysLit(Step(s, events[0]), events[1..]);
    }
  }

  /** No input comes, and the clock never goes back: the window is open exactly until its time. */
  lemma {:induction false} WindowLastsItsTime(s: Display, events: seq<Event>)
    requires IsRun(s, events) && forall e <- events :: !IsInput(e)
    requires WindowOpen(s)
    ensures var end := Run(s, events); s.now <= end.now && (WindowOpen(end) <==> end.now < s.windowEnds.value)
    decreases |events|
  {
    if events == [] {
    } else {
      var next := Step(s, events[0]);
      assert events[0] in events;
      if WindowOpen(next) {
        WindowLastsItsTime(next, events[1..]);
      } else {
        ClosedStaysClosed(next, events[1..]);
      }
    }
  }

  lemma {:induction false} ClosedStaysClosed(s: Display, events: seq<Event>)
    requires IsRun(s, events) && (forall e <- events :: !IsInput(e)) && !WindowOpen(s)
    ensures s.now <= Run(s, events).now && !WindowOpen(Run(s, events))
    decreases |events|
  {
    if events == [] {
    } else {
      assert events[0] in events;
      ClosedStaysClosed(Step(s, events[0]), events[1..]);
    }
  }

  /**
   * An input during blackout, with the invariant that an open window is lit: if no other input comes
   * and the setting is not re-applied, the panel is lit for 30 seconds from the input.
   */
  lemma InputStaysLit(s: Display, wake: real, events: seq<Event>)
    requires wake >= DIGITIZER_WAKE && s.blackout && (WindowOpen(s) ==> s.panelOn)
    requires IsRun(Step(s, PowerForInput(wake)), events)
    requires forall e <- events :: !IsInput(e) && !Reapplies(e)
    ensures var end := Run(Step(s, PowerForInput(wake)), events);
            end.now < s.now + 30.0 ==> end.blackout && end.panelOn
  {
    var after := Step(s, PowerForInput(wake));
    OpenWindowStaysLit(after, events);
    if WindowOpen(after) {
      WindowLastsItsTime(after, events);
    } else {
      ClosedStaysClosed(after, events);
    }
  }

  /** A refresh inside the window does darken it, and the next input then leaves the panel off. */
  lemma RefreshDarkensOpenWindow()
    ensures var events := [PowerForInput(0.25), Refresh, PowerForInput(0.25)];
            var s := Started(true, 0.0);
            IsRun(s, events) && WindowOpen(Run(s, events)) && !Run(s, events).panelOn
  {
  }
}
