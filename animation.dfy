/** The highlight animation of the features-matching demo: an unsigned
    counter runs 36, 34, ..., 2; each frame draws circles of radius
    `7 + counter` around the image-1 feature and around every image-2
    candidate in the tight band (`d < minDist + 0.1 * distStd`). */
module Animation {
  import opened Bands

  /** C++ `unsigned`: 32 bits, arithmetic modulo 2^32. */
  newtype U32 = x: int | 0 <= x < 0x1_0000_0000

  /** `a - b` on `unsigned`: wraps around below zero. */
  function SubU32(a: U32, b: U32): (r: U32)
    ensures b <= a ==> r as int == a as int - b as int
    ensures a < b ==> r as int == a as int - b as int + 0x1_0000_0000
  {
    ((a as int - b as int) % 0x1_0000_0000) as U32
  }

  /** The counter after k steps of `anim_loops -= 2` from the start value s. */
  function After(s: U32, k: nat): U32
  {
    if k == 0 then s else SubU32(After(s, k - 1), 2)
  }

  /** The countdown relies on an even start: from any odd value the counter
      stays odd after every step (it steps from 1 to 2^32 - 1 instead of
      reaching 0), so `anim_loops > 0` never becomes false. */
  lemma {:induction false} OddStartNeverStops(s: U32, k: nat)
    requires s as int % 2 == 1
    ensures After(s, k) as int % 2 == 1
    ensures After(s, k) > 0
  {
    if k > 0 {
      OddStartNeverStops(s, k - 1);
    }
  }

  const StartLoops: U32 := 36
  const LoopStep: U32 := 2
  const BaseRadius: nat := 7
  /** The number of frames: 36, 34, ..., 2. */
  const FrameCount: nat := 18

  /** One animation frame: the circle radius and the image-2 indices circled. */
  datatype Frame = Frame(radius: nat, circled: seq<nat>)

  /** `frames` is the whole animation for the tight band `tight`: eighteen
      frames whose radii shrink by 2 from 43 to 9, all circling `tight`. */
  ghost predicate IsAnimation(frames: seq<Frame>, tight: seq<nat>)
  {
    |frames| == FrameCount &&
    forall k :: 0 <= k < |frames| ==>
      frames[k].radius == 43 - 2 * k && frames[k].circled == tight
  }

  /** Every radius the animation draws lies in [9, 43]; a corollary of
      `IsAnimation`. */
  lemma RadiiInRange(frames: seq<Frame>, tight: seq<nat>)
    requires IsAnimation(frames, tight)
    ensures forall k :: 0 <= k < |frames| ==> 9 <= frames[k].radius <= 43
    ensures frames[0].radius == 43 && frames[FrameCount - 1].radius == 9
  {
  }

  /** Runs the animation loop: the counter starts at 36 and is decreased by 2
      while it is positive; each frame rescans the row for the tight band. */
  method Animate(distances: seq<real>, minDist: real, distStd: real)
    returns (frames: seq<Frame>)
    ensures IsAnimation(frames, IndicesBelow(distances, Threshold(minDist, distStd, TightCoeff)))
  {
    var t := Threshold(minDist, distStd, TightCoeff);
    frames := [];
    var animLoops: U32 := StartLoops;
    while animLoops > 0
      invariant animLoops as int % 2 == 0 && animLoops <= StartLoops
      invariant |frames| == (36 - animLoops as int) / 2
      invariant forall k :: 0 <= k < |frames| ==>
                  frames[k].radius == 43 - 2 * k &&
                  frames[k].circled == IndicesBelow(distances, t)
      decreases animLoops
    {
      var circled := [];
      var i2 := 0;
      while i2 < |distances|
        invariant 0 <= i2 <= |distances|
        invariant circled == IndicesBelow(distances[..i2], t)
      {
        assert distances[..i2 + 1][..i2] == distances[..i2];
        if distances[i2] < t {
          circled := circled + [i2];
        }
        i2 := i2 + 1;
      }
      assert distances[..i2] == distances;
      frames := frames + [Frame(BaseRadius + animLoops as nat, circled)];
      animLoops := SubU32(animLoops, LoopStep);
    }
  }
}
