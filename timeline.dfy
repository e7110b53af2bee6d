/** `get_time`: the simulation time of every saved frame. The frame count and the interval
    (the current time stored in the metadata of frame 1) are read from disk by the source;
    here they are parameters. */
module Timeline {

  /** `[frame * time_interval for frame in range(frames)]`. */
  function Times(frames: nat, interval: real): (times: seq<real>) {
    seq(frames, i => i as real * interval)
  }

  /** One time per frame; frame `i` is at `i * interval`, and consecutive frames are one
      interval apart. */
  lemma TimesAt(frames: nat, interval: real, i: nat)
    requires i < frames
    ensures |Times(frames, interval)| == frames
    ensures Times(frames, interval)[i] == i as real * interval
    ensures i + 1 < frames ==> Times(frames, interval)[i + 1] - Times(frames, interval)[i] == interval
  {
  }

  /** With a positive interval the time axis is strictly increasing. */
  lemma TimesStrictlyIncreasing(frames: nat, interval: real, i: nat, j: nat)
    requires interval > 0.0 && i < j < frames
    ensures Times(frames, interval)[i] < Times(frames, interval)[j]
  {
    var ts := Times(frames, interval);
    assert ts[j] - ts[i] == (j - i) as real * interval;
    PositiveProduct((j - i) as real, interval);
  }

  lemma PositiveProduct(a: real, b: real)
    requires a > 0.0 && b > 0.0
    ensures a * b > 0.0
  {
  }

  /** One more frame extends the axis without changing the earlier times. */
  lemma TimesExtend(frames: nat, interval: real)
    ensures Times(frames + 1, interval) == Times(frames, interval) + [frames as real * interval]
  {
    var longer := Times(frames + 1, interval);
    var extended := Times(frames, interval) + [frames as real * interval];
    forall k | 0 <= k < frames + 1 ensures longer[k] == extended[k] {
      if k < frames {
        assert extended[k] == Times(frames, interval)[k];
      }
    }
  }
}
