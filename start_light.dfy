/**
  The start-light node's per-frame update: the two process globals and the
  part of the image callback that follows contour extraction.
 */
module StartLightNode {
  import opened Detection
  import opened RaceStart

  /** The node's mutable state: `race_started` and `time_red_off`. */
  class StartLight {
    var raceStarted: bool
    var timeRedOff: real

    /** The two globals as a value. */
    function Current(): Snapshot
      reads this
    {
      Snapshot(raceStarted, timeRedOff)
    }

    /** Both globals start cleared. */
    constructor ()
      ensures Current() == Initial
    {
      raceStarted := false;
      timeRedOff := 0.0;
    }

    /** The if/else-if chain run once per frame. */
    method Step(redLight: bool, greenLight: bool, now: real)
      modifies this
      ensures Current() == Transition(old(Current()), redLight, greenLight, now)
      ensures redLight ==> !raceStarted && timeRedOff == old(timeRedOff)
      ensures raceStarted && !old(raceStarted) ==>
                Triggers(old(Current()), Frame(redLight, greenLight, now))
    {
      if redLight {
        raceStarted := false;
      } else if !redLight && !greenLight {
        if timeRedOff == 0.0 {
          timeRedOff := now;
        }
      } else if greenLight && now - timeRedOff <= 1.0 {
        raceStarted := true;
      } else if timeRedOff != 0.0 && now - timeRedOff > 1.0 {
        raceStarted := false;
        timeRedOff := 0.0;
      }
    }

    /** One frame after contour extraction: classify the green and the red
        contours, update the globals, and return the value published for
        this frame, which is the updated `race_started`. */
    method OnFrame(redContours: seq<Contour>, greenContours: seq<Contour>, now: real)
      returns (published: bool)
      modifies this
      ensures Current() == Transition(old(Current()), AnyLight(redContours),
                                      AnyLight(greenContours), now)
      ensures published == raceStarted
    {
      var greenLight := HasLight(greenContours);
      var redLight := HasLight(redContours);
      Step(redLight, greenLight, now);
      published := raceStarted;
    }
  }
}
