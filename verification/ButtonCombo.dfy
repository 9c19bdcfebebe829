/** Recognising the button combinations that toggle the blackout (device/springboard/DisplayControl.m). */
module ButtonCombo {
  import opened Common

  const HOME: int := 101
  const VOLUME_UP: int := 102
  const VOLUME_DOWN: int := 103
  const COMBO_LENGTH: nat := 3
  const COMBO_GAP: real := 1.0

  datatype Press = Press(button: int, time: real)

  /** The two combinations. */
  predicate IsCombo(buttons: seq<int>) {
    && |buttons| == 3
    && ((buttons[0] == HOME && buttons[1] == HOME && buttons[2] == HOME)
        || (buttons[0] == VOLUME_UP && buttons[1] == VOLUME_DOWN && buttons[2] == VOLUME_UP))
  }

  predicate Recognised(button: int) { button == HOME || button == VOLUME_UP || button == VOLUME_DOWN }

  /** What the code remembers between presses. */
  datatype Memory = Memory(recent: seq<int>, lastPress: real)

  /** One press: the memory after it, and whether a toggle was posted. */
  function Register(m: Memory, p: Press): (Memory, bool) {
    if !Recognised(p.button) then (m, false)
    else
      var kept := if p.time - m.lastPress > COMBO_GAP then [] else m.recent;
      var recent := LastN(kept + [p.button], COMBO_LENGTH);
      if IsCombo(recent) then (Memory([], p.time), true) else (Memory(recent, p.time), false)
  }

  class Detector {
    var recentPresses: seq<int>
    var lastPress: real

    constructor ()
      ensures State() == Memory([], 0.0)
    {
      recentPresses, lastPress := [], 0.0;
    }

    function State(): Memory
      reads this
    {
      Memory(recentPresses, lastPress)
    }

    method RegisterButtonPress(button: int, now: real) returns (toggled: bool)
      modifies this
      ensures (State(), toggled) == Register(old(State()), Press(button, now))
    {
      if button != HOME && button != VOLUME_UP && button != VOLUME_DOWN { return false; }
      if now - lastPress > COMBO_GAP { recentPresses := []; }
      lastPress := now;
      recentPresses := recentPresses + [button];
      ghost var all := recentPresses;
      assert all == (if now - old(lastPress) > COMBO_GAP then [] else old(recentPresses)) + [button];
      while |recentPresses| > COMBO_LENGTH
        invariant LastN(recentPresses, COMBO_LENGTH) == LastN(all, COMBO_LENGTH)
        decreases |recentPresses|
        modifies this`recentPresses
      {
        recentPresses := recentPresses[1..];
      }
      assert recentPresses == LastN(all, COMBO_LENGTH);
      if IsCombo(recentPresses) {
        recentPresses := [];
        return true;
      }
      return false;
    }
  }

  // ---------------------------------------------------------------- the detector is its history

  const FRESH: Memory := Memory([], 0.0)

  /** The memory after the first `n` presses. */
  function After(ps: seq<Press>, n: nat): Memory
    requires n <= |ps|
  {
    if n == 0 then FRESH else Register(After(ps, n - 1), ps[n - 1]).0
  }

  /** Did the `i`-th press post a toggle? */
  predicate Toggled(ps: seq<Press>, i: nat)
    requires i < |ps|
  {
    Register(After(ps, i), ps[i]).1
  }

  predicate AllRecognised(ps: seq<Press>) {
    forall i | 0 <= i < |ps| :: Recognised(ps[i].button)
  }

  function Buttons(ps: seq<Press>, from: nat, to: nat): (buttons: seq<int>)
    requires from <= to <= |ps|
    ensures |buttons| == to - from && forall k | 0 <= k < to - from :: buttons[k] == ps[from + k].button
  {
    if from == to then [] else Buttons(ps, from, to - 1) + [ps[to - 1].button]
  }

  /** Where the current run starts: after the last toggle, and after the last gap of more than a second. */
  function RunStart(ps: seq<Press>, n: nat): (start: nat)
    requires n <= |ps|
    ensures start <= n
  {
    if n == 0 then 0
    else if Toggled(ps, n - 1) then n
    else if n >= 2 && ps[n - 1].time - ps[n - 2].time > COMBO_GAP then n - 1
    else RunStart(ps, n - 1)
  }

  /** A press on a memory that holds the end of a run. */
  lemma RegisterOnRun(m: Memory, run: seq<int>, p: Press)
    requires Recognised(p.button) && m.recent == LastN(run, COMBO_LENGTH)
    ensures var next := LastN((if p.time - m.lastPress > COMBO_GAP then [] else run) + [p.button], COMBO_LENGTH);
            Register(m, p) == if IsCombo(next) then (Memory([], p.time), true) else (Memory(next, p.time), false)
  {
    LastNAppend(run, [p.button], COMBO_LENGTH);
  }

  /** The memory is the end of the current run. */
  lemma {:induction false} MemoryIsRunEnd(ps: seq<Press>, n: nat)
    requires AllRecognised(ps) && n <= |ps|
    ensures After(ps, n).recent == LastN(Buttons(ps, RunStart(ps, n), n), COMBO_LENGTH)
    ensures n > 0 ==> After(ps, n).lastPress == ps[n - 1].time
  {
    if n == 0 {
    } else {
      MemoryIsRunEnd(ps, n - 1);
      RegisterOnRun(After(ps, n - 1), Buttons(ps, RunStart(ps, n - 1), n - 1), ps[n - 1]);
      assert n == 1 ==> Buttons(ps, RunStart(ps, 0), 0) == [];
      assert Buttons(ps, n - 1, n - 1) == [];
    }
  }

  /** Three presses that end at `i`, each within a second of the one before, matching a combination. */
  predicate CompletesCombo(ps: seq<Press>, i: nat)
    requires i < |ps|
  {
    && i >= 2
    && IsCombo([ps[i - 2].button, ps[i - 1].button, ps[i].button])
    && ps[i].time - ps[i - 1].time <= COMBO_GAP && ps[i - 1].time - ps[i - 2].time <= COMBO_GAP
  }

  /** The combination ends at `i`, and the two presses before it have not posted a toggle themselves. */
  predicate UnusedCombo(ps: seq<Press>, i: nat)
    requires i < |ps|
  {
    CompletesCombo(ps, i) && !Toggled(ps, i - 1) && !Toggled(ps, i - 2)
  }

  /** The run before press `i` reaches back two presses exactly when neither posted a toggle and no gap divides them. */
  lemma RunReachesBack(ps: seq<Press>, i: nat)
    requires 2 <= i <= |ps|
    ensures RunStart(ps, i) <= i - 2 <==>
            !Toggled(ps, i - 1) && !Toggled(ps, i - 2) && ps[i - 1].time - ps[i - 2].time <= COMBO_GAP
  {
  }

  /**
   * The detector refines its history: a press posts a toggle exactly when it and the two
   * recognised presses before it are a combination, close enough together, and neither of those
   * two already posted one; so no press serves two toggles.
   */
  lemma ToggleExactlyOnUnusedCombo(ps: seq<Press>, i: nat)
    requires AllRecognised(ps) && i < |ps|
    ensures Toggled(ps, i) <==> UnusedCombo(ps, i)
  {
    MemoryIsRunEnd(ps, i);
    var start, last, m := RunStart(ps, i), ps[i], After(ps, i);
    RegisterOnRun(m, Buttons(ps, start, i), last);
    if i >= 2 { RunReachesBack(ps, i); }
    if start <= i - 2 && last.time - m.lastPress <= COMBO_GAP {
      LastThree(ps, start, i);
    }
  }

  lemma LastThree(ps: seq<Press>, start: nat, i: nat)
    requires start + 2 <= i < |ps|
    ensures LastN(Buttons(ps, start, i) + [ps[i].button], COMBO_LENGTH) ==
            [ps[i - 2].button, ps[i - 1].button, ps[i].button]
  {
  }

  function RecognisedOnly(ps: seq<Press>): seq<Press> {
    if ps == [] then []
    else
      var before := RecognisedOnly(ps[..|ps| - 1]);
      if Recognised(ps[|ps| - 1].button) then before + [ps[|ps| - 1]] else before
  }

  /** The first presses of a longer history leave the same memory. */
  lemma {:induction false} AfterOfPrefix(ps: seq<Press>, more: seq<Press>, n: nat)
    requires n <= |ps|
    ensures After(ps + more, n) == After(ps, n)
  {
    if n == 0 {
    } else {
      AfterOfPrefix(ps, more, n - 1);
    }
  }

  /** Presses of other buttons are as if they had not happened. */
  lemma {:induction false} OthersAreIgnored(ps: seq<Press>)
    ensures AllRecognised(RecognisedOnly(ps))
    ensures After(ps, |ps|) == After(RecognisedOnly(ps), |RecognisedOnly(ps)|)
  {
    if ps == [] {
    } else {
      var before, last := ps[..|ps| - 1], ps[|ps| - 1];
      OthersAreIgnored(before);
      AfterOfPrefix(before, [last], |before|);
      AfterOfPrefix(RecognisedOnly(before), [last], |RecognisedOnly(before)|);
      assert before + [last] == ps;
    }
  }

  /** A press in any history toggles exactly as it does in the history without other buttons. */
  lemma TogglesAsInRecognisedOnly(before: seq<Press>, p: Press)
    requires Recognised(p.button)
    ensures Toggled(before + [p], |before|) <==> Toggled(RecognisedOnly(before) + [p], |RecognisedOnly(before)|)
  {
    OthersAreIgnored(before);
    AfterOfPrefix(before, [p], |before|);
    AfterOfPrefix(RecognisedOnly(before), [p], |RecognisedOnly(before)|);
  }

  /**
   * The same of every timed sequence of presses of any buttons: a press toggles exactly when it is
   * of a recognised button and, of the recognised presses so far, it and the two before it are a
   * combination, close enough together, neither of which posted one.
   */
  lemma ToggleInAnyHistory(before: seq<Press>, p: Press)
    ensures Toggled(before + [p], |before|) <==>
            Recognised(p.button) && UnusedCombo(RecognisedOnly(before) + [p], |RecognisedOnly(before)|)
  {
    if Recognised(p.button) {
      TogglesAsInRecognisedOnly(before, p);
      OthersAreIgnored(before);
      ToggleExactlyOnUnusedCombo(RecognisedOnly(before) + [p], |RecognisedOnly(before)|);
    }
  }
}
