/**
  The race-start debounce state machine, on values.

  The state is the pair of process globals `race_started` and `time_red_off`.
  A time of 0 is the "unset" sentinel for `time_red_off`, exactly as the node
  uses it, so a legitimate timestamp of 0 cannot be told apart from "unset".
  Times are seconds, as reals.
 */
module RaceStart {

  /** The sentinel meaning "no red-off time recorded". */
  const Unset: real := 0.0

  /** The debounce window, in seconds. */
  const Window: real := 1.0

  /** The two globals: whether the race has started, and the time of the
      first frame with neither colour since the last reset (or Unset). */
  datatype Snapshot = Snapshot(started: bool, redOff: real)

  /** The state at process start. */
  const Initial: Snapshot := Snapshot(false, Unset)

  /** What one frame contributes: the two detections and the time read. */
  datatype Frame = Frame(red: bool, green: bool, now: real)

  /** One update, with its rules tried in order and the first that applies
      taken. The green test of the third rule is always true when reached,
      and that rule does not look at whether a red-off time was recorded. */
  function Transition(s: Snapshot, red: bool, green: bool, now: real): (t: Snapshot)
    ensures red ==> !t.started
    ensures t.started && !s.started ==> !red && green && now - s.redOff <= Window
    ensures t.redOff != s.redOff ==> s.redOff == Unset || t.redOff == Unset
    ensures t.redOff != s.redOff && t.redOff != Unset ==> !red && !green && t.redOff == now
  {
    if red then s.(started := false)
    else if !red && !green then
      (if s.redOff == Unset then s.(redOff := now) else s)
    else if green && now - s.redOff <= Window then s.(started := true)
    else if s.redOff != Unset && now - s.redOff > Window then Snapshot(false, Unset)
    else s
  }

  function Next(s: Snapshot, f: Frame): Snapshot
  {
    Transition(s, f.red, f.green, f.now)
  }

  /** The state after a sequence of frames, processed in order. */
  function Run(s: Snapshot, frames: seq<Frame>): (r: Snapshot)
    ensures frames == [] ==> r == s
    ensures frames != [] && frames[|frames| - 1].red ==> !r.started
    decreases |frames|
  {
    if frames == [] then s
    else Next(Run(s, frames[..|frames| - 1]), frames[|frames| - 1])
  }

  /** A frame that starts the race from state `s`. */
  predicate Triggers(s: Snapshot, f: Frame)
  {
    !f.red && f.green && f.now - s.redOff <= Window
  }

  /** A frame in which neither colour is seen. */
  predicate Blank(f: Frame)
  {
    !f.red && !f.green
  }

  predicate NoRed(frames: seq<Frame>)
  {
    forall j :: 0 <= j < |frames| ==> !frames[j].red
  }

  // ---------------------------------------------------------------------
  // One step

  /** Red dominates: whatever green and the time, the race is not started,
      and the recorded red-off time is left as it was. */
  lemma RedDominates(s: Snapshot, green: bool, now: real)
    ensures Transition(s, true, green, now) == Snapshot(false, s.redOff)
  {
  }

  /** Neither colour: the started flag is kept, and the red-off time is
      recorded if none was, and kept otherwise. */
  lemma NeitherColour(s: Snapshot, now: real)
    ensures Transition(s, false, false, now).started == s.started
    ensures Transition(s, false, false, now).redOff ==
              if s.redOff == Unset then now else s.redOff
  {
  }

  /** The race becomes started exactly when red is absent, green is present
      and at most one window has passed since the recorded red-off time. */
  lemma StartsExactlyOnTrigger(s: Snapshot, red: bool, green: bool, now: real)
    ensures Transition(s, red, green, now).started && !s.started <==>
              !s.started && Triggers(s, Frame(red, green, now))
    ensures Triggers(s, Frame(red, green, now)) ==>
              Transition(s, red, green, now) == s.(started := true)
  {
  }

  /** A green frame after an expired window resets both globals. */
  lemma ExpiredWindowResets(s: Snapshot, now: real)
    requires s.redOff != Unset && now - s.redOff > Window
    ensures Transition(s, false, true, now) == Initial
  {
  }

  /** A recorded red-off time is never replaced by a different recorded one:
      it changes only from Unset or back to Unset. */
  lemma TimestampNeverOverwritten(s: Snapshot, red: bool, green: bool, now: real)
    ensures var t := Transition(s, red, green, now);
            t.redOff != s.redOff ==> s.redOff == Unset || t.redOff == Unset
  {
  }

  /** Green with no recorded red-off time, late enough after time 0: no rule
      fires and nothing changes. */
  lemma GreenWithoutRedOffIsQuiescent(s: Snapshot, now: real)
    requires s.redOff == Unset && now > Window
    ensures Transition(s, false, true, now) == s
  {
  }

  /** The sentinel's ambiguity: with no recorded red-off time, a green frame
      read at a time within one window of time 0 starts the race although red
      was never seen going off. */
  lemma GreenNearEpochStarts(s: Snapshot, now: real)
    requires s.redOff == Unset && now <= Window
    ensures Transition(s, false, true, now).started
  {
  }

  // ---------------------------------------------------------------------
  // Runs of frames

  /** Running one more frame is one more step. */
  lemma RunSnoc(s: Snapshot, frames: seq<Frame>, f: Frame)
    ensures Run(s, frames + [f]) == Next(Run(s, frames), f)
  {
    assert (frames + [f])[..|frames|] == frames;
  }

  /** The state of a run after its first `j` frames. */
  function After(s: Snapshot, frames: seq<Frame>, j: int): Snapshot
    requires 0 <= j <= |frames|
  {
    Run(s, frames[..j])
  }

  /** At the end of a run the race is started only if it was started before
      and no frame was red, or some frame triggered the start and no frame
      after it was red. */
  lemma {:induction false} StartedOnlyAfterTrigger(s: Snapshot, frames: seq<Frame>)
    ensures Run(s, frames).started ==>
              (s.started && NoRed(frames)) ||
              exists i :: 0 <= i < |frames| && Triggers(After(s, frames, i), frames[i])
                          && NoRed(frames[i + 1..])
  {
    if frames != [] && Run(s, frames).started {
      var n := |frames| - 1;
      var prefix, f := frames[..n], frames[n];
      assert frames == prefix + [f];
      var t := Run(s, prefix);
      assert !f.red;
      if Triggers(t, f) {
        assert After(s, frames, n) == t;
        assert NoRed(frames[n + 1..]);
      } else {
        assert t.started;
        StartedOnlyAfterTrigger(s, prefix);
        if s.started && NoRed(prefix) {
          assert NoRed(frames);
        } else {
          var i :| 0 <= i < |prefix| && Triggers(After(s, prefix, i), prefix[i])
                   && NoRed(prefix[i + 1..]);
          TriggerSurvives(s, prefix, f, i);
        }
      }
    }
  }

  /** A trigger with no red frame after it stays so when a frame that is not
      red is appended. */
  lemma TriggerSurvives(s: Snapshot, prefix: seq<Frame>, f: Frame, i: int)
    requires 0 <= i < |prefix| && !f.red
    requires Triggers(After(s, prefix, i), prefix[i]) && NoRed(prefix[i + 1..])
    ensures Triggers(After(s, prefix + [f], i), (prefix + [f])[i])
    ensures NoRed((prefix + [f])[i + 1..])
  {
    assert (prefix + [f])[..i] == prefix[..i];
    assert (prefix + [f])[i + 1..] == prefix[i + 1..] + [f];
  }

  /** Stamped(s, frames, i): the value recorded at the end of the run was
      written by blank frame `i`, found Unset, and kept from then on. */
  predicate Stamped(s: Snapshot, frames: seq<Frame>, i: int)
    requires 0 <= i < |frames|
  {
    && After(s, frames, i).redOff == Unset
    && Blank(frames[i])
    && (forall j :: i < j <= |frames| ==> After(s, frames, j).redOff == frames[i].now)
  }

  /** A recorded red-off time at the end of a run is either the initial one,
      kept through every frame, or the time of a blank frame that found it
      Unset, kept through every later frame: no recorded time is ever
      overwritten by another. */
  lemma {:induction false} RedOffOrigin(s: Snapshot, frames: seq<Frame>)
    ensures var v := Run(s, frames).redOff;
            v != Unset ==>
              (forall j :: 0 <= j <= |frames| ==> After(s, frames, j).redOff == v) ||
              exists i :: 0 <= i < |frames| && Stamped(s, frames, i)
  {
    var v := Run(s, frames).redOff;
    if frames == [] {
      assert frames[..0] == frames;
    } else if v != Unset {
      var n := |frames| - 1;
      var prefix, f := frames[..n], frames[n];
      PrefixStates(s, frames);
      var t := Run(s, prefix);
      if t.redOff == Unset {
        assert Stamped(s, frames, n);
      } else {
        RedOffOrigin(s, prefix);
        if forall j :: 0 <= j <= n ==> After(s, prefix, j).redOff == v {
          assert forall j :: 0 <= j <= |frames| ==> After(s, frames, j).redOff == v;
        } else {
          var i :| 0 <= i < n && Stamped(s, prefix, i);
          StampSurvives(s, frames, i);
        }
      }
    }
  }

  /** A stamp that survives to the end of a prefix survives one more frame
      that keeps the recorded time. */
  lemma StampSurvives(s: Snapshot, frames: seq<Frame>, i: int)
    requires 0 <= i < |frames| - 1
    requires Stamped(s, frames[..|frames| - 1], i)
    requires Run(s, frames).redOff == Run(s, frames[..|frames| - 1]).redOff
    ensures Stamped(s, frames, i)
  {
    var n := |frames| - 1;
    PrefixStates(s, frames);
    assert frames[..n][i] == frames[i];
    assert After(s, frames[..n], n) == Run(s, frames[..n]) by {
      assert frames[..n][..n] == frames[..n];
    }
  }

  /** The states along a non-empty run: those of its prefix without the last
      frame, followed by the state after the last frame. */
  lemma PrefixStates(s: Snapshot, frames: seq<Frame>)
    requires frames != []
    ensures forall j :: 0 <= j < |frames| ==>
              After(s, frames, j) == After(s, frames[..|frames| - 1], j)
    ensures After(s, frames, |frames|) == Run(s, frames)
    ensures Run(s, frames) == Next(Run(s, frames[..|frames| - 1]), frames[|frames| - 1])
  {
    var n := |frames| - 1;
    forall j | 0 <= j <= n
      ensures After(s, frames, j) == After(s, frames[..n], j)
    {
      assert frames[..j] == frames[..n][..j];
    }
    assert frames[..n + 1] == frames;
  }

  /** The start sequence seen by the node: red, then a blank frame at time
      `t`, another blank half a second later, then green 0.9 s after `t`. */
  lemma RedBlankGreenStarts(t: real)
    requires t != Unset
    ensures var frames := [Frame(true, false, t - 1.0), Frame(false, false, t),
                           Frame(false, false, t + 0.5), Frame(false, true, t + 0.9)];
            && After(Initial, frames, 3) == Snapshot(false, t)
            && Run(Initial, frames) == Snapshot(true, t)
  {
    var frames := [Frame(true, false, t - 1.0), Frame(false, false, t),
                   Frame(false, false, t + 0.5), Frame(false, true, t + 0.9)];
    RunSnoc(Initial, [], frames[0]);
    RunSnoc(Initial, frames[..1], frames[1]);
    assert frames[..1] + [frames[1]] == frames[..2];
    RunSnoc(Initial, frames[..2], frames[2]);
    assert frames[..2] + [frames[2]] == frames[..3];
    RunSnoc(Initial, frames[..3], frames[3]);
    assert frames[..3] + [frames[3]] == frames;
  }

  /** Green arriving 1.5 s after the recorded red-off time is too late: both
      globals are reset. */
  lemma LateGreenResets(started: bool, t: real)
    requires t != Unset
    ensures Transition(Snapshot(started, t), false, true, t + 1.5) == Initial
  {
  }
}
