/** Directional inertia of the head (`Head.update`): a neutral joystick keeps
    the snake moving along the last direction it was given. */
module Steering {

  /** A normalised joystick direction. Only whether it is zero matters to the
      model; normalising keeps a zero vector zero and a nonzero one nonzero. */
  datatype Dir = Dir(dx: int, dy: int)

  predicate IsZero(d: Dir)
  {
    d.dx == 0 && d.dy == 0
  }

  /** The direction one frame moves along: the input when it is nonzero, the
      previous direction otherwise. It is also the new previous direction. */
  function Steer(input: Dir, previous: Dir): (d: Dir)
    ensures d == input || d == previous
    ensures !IsZero(input) <==> (d == input && !IsZero(d))
    ensures IsZero(input) ==> d == previous
  {
    if IsZero(input) then previous else input
  }

  /** The previous direction after a run of frames, the first input first. */
  function SteerAll(inputs: seq<Dir>, previous: Dir): Dir
    decreases |inputs|
  {
    if |inputs| == 0 then previous else SteerAll(inputs[1..], Steer(inputs[0], previous))
  }

  /** Reference definition: the last nonzero input of the run, or the previous
      direction when every input was zero. */
  function LastNonZero(inputs: seq<Dir>, previous: Dir): Dir
    decreases |inputs|
  {
    if |inputs| == 0 then previous
    else if !IsZero(inputs[|inputs| - 1]) then inputs[|inputs| - 1]
    else LastNonZero(inputs[..|inputs| - 1], previous)
  }

  /** One more frame at the end of a run. */
  lemma {:induction false} SteerAllSnoc(inputs: seq<Dir>, x: Dir, previous: Dir)
    ensures SteerAll(inputs + [x], previous) == Steer(x, SteerAll(inputs, previous))
    decreases |inputs|
  {
    if |inputs| > 0 {
      assert (inputs + [x])[1..] == inputs[1..] + [x];
      SteerAllSnoc(inputs[1..], x, Steer(inputs[0], previous));
    }
  }

  /** Frame by frame steering remembers exactly the last nonzero input. */
  lemma {:induction false} SteerAllIsLastNonZero(inputs: seq<Dir>, previous: Dir)
    ensures SteerAll(inputs, previous) == LastNonZero(inputs, previous)
    decreases |inputs|
  {
    if |inputs| > 0 {
      var init := inputs[..|inputs| - 1];
      var last := inputs[|inputs| - 1];
      assert inputs == init + [last];
      SteerAllSnoc(init, last, previous);
      SteerAllIsLastNonZero(init, previous);
    }
  }

  /** Any number of neutral frames keeps the previous direction. */
  lemma {:induction false} NeutralRunKeepsDirection(inputs: seq<Dir>, previous: Dir)
    requires forall j :: 0 <= j < |inputs| ==> IsZero(inputs[j])
    ensures SteerAll(inputs, previous) == previous
    decreases |inputs|
  {
    if |inputs| > 0 {
      NeutralRunKeepsDirection(inputs[1..], previous);
    }
  }

  /** Once a nonzero direction has been chosen, no run of frames brings the
      snake to a standstill. */
  lemma {:induction false} NeverStops(inputs: seq<Dir>, previous: Dir)
    requires !IsZero(previous)
    ensures !IsZero(SteerAll(inputs, previous))
    decreases |inputs|
  {
    if |inputs| > 0 {
      NeverStops(inputs[1..], Steer(inputs[0], previous));
    }
  }
}
