/**
 The blow detector's test on one frame of microphone data: the frame is a
 sequence of frequency-bin magnitudes, each a byte, and the user is blowing
 when their mean is strictly above 40. Over whole numbers the mean test is
 the same as comparing the sum with 40 times the bin count, so the model
 needs no floating point outside the method that mirrors the source.
 */
module Audio {

  /** One frequency-bin magnitude, as `getByteFrequencyData` fills a `Uint8Array`. */
  type Byte = x: int | 0 <= x < 256

  /** The mean magnitude a frame must exceed. */
  const Threshold: nat := 40

  /** The sum of the magnitudes, accumulated from the front as the loop does. */
  function Sum(xs: seq<Byte>): (n: nat)
    ensures n <= 255 * |xs|
    decreases |xs|
  {
    if xs == [] then 0 else Sum(xs[..|xs| - 1]) + xs[|xs| - 1]
  }

  /** The frame is loud enough to count as blowing. */
  predicate Loud(samples: seq<Byte>)
    ensures Loud(samples) ==> |samples| > 0
  {
    Sum(samples) > Threshold * |samples|
  }

  /** The mean of a nonempty frame exceeds the threshold exactly when the frame is loud. */
  lemma MeanAboveThreshold(samples: seq<Byte>)
    requires |samples| > 0
    ensures (Sum(samples) as real) / (|samples| as real) > Threshold as real <==> Loud(samples)
  {
    QuotientAbove(Sum(samples) as real, |samples| as real, Threshold as real);
    assert (Threshold as real) * (|samples| as real) == (Threshold * |samples|) as real;
  }

  /** Over the reals, a quotient by a positive number exceeds `t` exactly when the dividend exceeds `t` times it. */
  lemma QuotientAbove(s: real, n: real, t: real)
    requires n > 0.0
    ensures s / n > t <==> s > t * n
  {
    var q := s / n;
    assert q * n == s;
    assert (q - t) * n == s - t * n;
    if q > t {
      assert (q - t) * n > 0.0;
    } else {
      assert (t - q) * n >= 0.0;
    }
  }

  /**
   `isBlowing`: sums the frame in a loop and compares the mean with the
   threshold. An empty frame divides zero by zero, and the resulting NaN is
   not greater than anything.
   */
  method IsBlowing(samples: seq<Byte>) returns (blowing: bool)
    ensures blowing <==> Loud(samples)
    ensures blowing ==> |samples| > 0
  {
    var sum: nat := 0;
    var i := 0;
    while i < |samples|
      invariant 0 <= i <= |samples|
      invariant sum == Sum(samples[..i])
    {
      assert samples[..i + 1][..i] == samples[..i];
      sum := sum + samples[i];
      i := i + 1;
    }
    assert samples[..|samples|] == samples;
    if |samples| == 0 {
      blowing := false;
    } else {
      var average := (sum as real) / (|samples| as real);
      MeanAboveThreshold(samples);
      blowing := average > Threshold as real;
    }
  }

  /** A frame whose every magnitude is at most the threshold never counts as blowing. */
  lemma {:induction false} QuietFrameIsNotLoud(samples: seq<Byte>)
    requires forall i :: 0 <= i < |samples| ==> samples[i] <= Threshold
    ensures Sum(samples) <= Threshold * |samples|
    ensures !Loud(samples)
    decreases |samples|
  {
    if samples != [] {
      var front := samples[..|samples| - 1];
      assert forall i :: 0 <= i < |front| ==> front[i] == samples[i];
      QuietFrameIsNotLoud(front);
    }
  }

  /** A nonempty frame whose every magnitude is above the threshold always counts as blowing. */
  lemma {:induction false} NoisyFrameIsLoud(samples: seq<Byte>)
    requires |samples| > 0
    requires forall i :: 0 <= i < |samples| ==> samples[i] > Threshold
    ensures Loud(samples)
    decreases |samples|
  {
    var front := samples[..|samples| - 1];
    if front != [] {
      assert forall i :: 0 <= i < |front| ==> front[i] == samples[i];
      NoisyFrameIsLoud(front);
    }
  }
}
