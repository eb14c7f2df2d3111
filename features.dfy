/** The block features of `serial_audio_analyze.py` that are exact over
    integers: the peak magnitude, the derivative-based low/high energy split
    and the three-way environment classifier with its colour table. */
module Features {

  import opened Blocks

  const CALM_THRESHOLD: real := 500.0
  const NOISY_THRESHOLD: real := 5000.0
  /** Adjacent differences below this go to the low band. */
  const DERIVATIVE_THRESHOLD: int := 1000

  function Abs(x: int): nat {
    if x < 0 then -x else x
  }

  // ---------------------------------------------------------------------
  // Classifier

  datatype Environment = Calm | Normal | Noisy {

    /** The label as the script spells it. */
    function Name(): string {
      match this
      case Calm => "Calm"
      case Normal => "Normal"
      case Noisy => "Noisy"
    }
  }

  /** The rows of the decision table, in the order they are tried. */
  function Rank(e: Environment): nat {
    match e
    case Calm => 0
    case Noisy => 1
    case Normal => 2
  }

  /** The condition under which row `e` of the decision table fires. */
  predicate Fires(e: Environment, rms: real, low: real, high: real) {
    match e
    case Calm => rms < CALM_THRESHOLD || low > high * 2.0
    case Noisy => rms > NOISY_THRESHOLD || high > low * 2.0
    case Normal => true
  }

  /** First match wins: the row of the result fires, and no row tried
      before it does. */
  function Classify(rms: real, low: real, high: real): (env: Environment)
    ensures Fires(env, rms, low, high)
    ensures forall e :: Rank(e) < Rank(env) ==> !Fires(e, rms, low, high)
  {
    if rms < CALM_THRESHOLD || low > high * 2.0 then Calm
    else if rms > NOISY_THRESHOLD || high > low * 2.0 then Noisy
    else Normal
  }

  /** Calm is returned exactly when its condition holds, whether or not the
      Noisy condition holds too. */
  lemma CalmExactly(rms: real, low: real, high: real)
    ensures Classify(rms, low, high) == Calm <==> (rms < CALM_THRESHOLD || low > high * 2.0)
  {
    assert Rank(Calm) == 0;
  }

  /** Noisy is returned exactly when the Calm test fails and the Noisy test
      holds. */
  lemma NoisyExactly(rms: real, low: real, high: real)
    ensures Classify(rms, low, high) == Noisy <==>
      !(rms < CALM_THRESHOLD || low > high * 2.0) && (rms > NOISY_THRESHOLD || high > low * 2.0)
  {
    assert Rank(Calm) < Rank(Noisy);
  }

  /** Normal is returned exactly when neither test holds. */
  lemma NormalExactly(rms: real, low: real, high: real)
    ensures Classify(rms, low, high) == Normal <==>
      !(rms < CALM_THRESHOLD || low > high * 2.0) && !(rms > NOISY_THRESHOLD || high > low * 2.0)
  {
    assert Rank(Calm) < Rank(Normal) && Rank(Noisy) < Rank(Normal);
  }

  /** The tie-break scenario: quiet but high-band dominated is still Calm. */
  lemma TieBreakIsCalm(low: real)
    requires low > 0.0
    ensures Fires(Noisy, 400.0, low, 3.0 * low)
    ensures Classify(400.0, low, 3.0 * low) == Calm
  {
  }

  /** The colour table the plot indexes with the label. */
  const ENV_COLOR: map<string, string> := map["Calm" := "green", "Normal" := "blue", "Noisy" := "red"]

  /** Every label the classifier returns is a key of the colour table, so
      the lookup never fails. */
  lemma LabelHasColor(rms: real, low: real, high: real)
    ensures Classify(rms, low, high).Name() in ENV_COLOR
  {
  }

  // ---------------------------------------------------------------------
  // Peak

  /** `np.max(np.abs(samples))`; `np.max` refuses an empty block. */
  function Peak(s: seq<int>): (r: nat)
    requires |s| > 0
    ensures forall i :: 0 <= i < |s| ==> Abs(s[i]) <= r
    ensures exists j :: 0 <= j < |s| && r == Abs(s[j])
  {
    if |s| == 1 then Abs(s[0])
    else
      var m := Peak(s[1..]);
      assert forall i :: 1 <= i < |s| ==> Abs(s[i]) <= m by {
        forall i | 1 <= i < |s| ensures Abs(s[i]) <= m {
          assert s[i] == s[1..][i - 1];
        }
      }
      var j :| 0 <= j < |s| - 1 && m == Abs(s[1..][j]);
      assert s[1..][j] == s[j + 1];
      if Abs(s[0]) >= m then Abs(s[0]) else m
  }

  /** The two properties of `Peak` pin it down: any bound that is reached
      is the peak. */
  lemma PeakUnique(s: seq<int>, m: int)
    requires |s| > 0
    requires forall i :: 0 <= i < |s| ==> Abs(s[i]) <= m
    requires exists j :: 0 <= j < |s| && m == Abs(s[j])
    ensures m == Peak(s)
  {
  }

  /** An all-zero block has peak 0. */
  lemma PeakOfSilence(n: nat)
    requires n > 0
    ensures Peak(Zeros(n)) == 0
  {
  }

  // ---------------------------------------------------------------------
  // Low/high energy split

  function Sum(d: seq<int>): int {
    if d == [] then 0 else d[0] + Sum(d[1..])
  }

  /** `np.abs(np.diff(samples))`. */
  function AbsDiffs(s: seq<int>): (d: seq<int>)
    ensures |d| == if |s| == 0 then 0 else |s| - 1
    ensures forall i :: 0 <= i < |d| ==> d[i] == Abs(s[i + 1] - s[i])
  {
    if |s| < 2 then [] else [Abs(s[1] - s[0])] + AbsDiffs(s[1..])
  }

  /** `d[d < t]`: the elements below `t`, in order; with `AtLeast` it
      splits `d` (`MasksPartition`). */
  function Below(d: seq<int>, t: int): (r: seq<int>)
    ensures |r| <= |d|
    ensures forall i :: 0 <= i < |r| ==> r[i] < t
  {
    if d == [] then [] else (if d[0] < t then [d[0]] else []) + Below(d[1..], t)
  }

  /** `d[d >= t]`: the elements at or above `t`, in order. */
  function AtLeast(d: seq<int>, t: int): (r: seq<int>)
    ensures |r| <= |d|
    ensures forall i :: 0 <= i < |r| ==> r[i] >= t
  {
    if d == [] then [] else (if d[0] >= t then [d[0]] else []) + AtLeast(d[1..], t)
  }

  /** The sum of all adjacent absolute differences, accumulated from the
      end of the block. */
  function TotalVariation(s: seq<int>): nat {
    if |s| < 2 then 0
    else TotalVariation(s[..|s| - 1]) + Abs(s[|s| - 1] - s[|s| - 2])
  }

  lemma {:induction false} SumAppend(d: seq<int>, e: seq<int>)
    ensures Sum(d + e) == Sum(d) + Sum(e)
  {
    if d == [] {
      assert d + e == e;
    } else {
      assert (d + e)[1..] == d[1..] + e;
      SumAppend(d[1..], e);
    }
  }

  /** Every element goes to exactly one side ... */
  lemma {:induction false} MasksPartition(d: seq<int>, t: int)
    ensures multiset(Below(d, t)) + multiset(AtLeast(d, t)) == multiset(d)
  {
    if d != [] {
      var rest := d[1..];
      MasksPartition(rest, t);
      assert d == [d[0]] + rest;
      if d[0] < t {
        assert Below(d, t) == [d[0]] + Below(rest, t);
        assert AtLeast(d, t) == AtLeast(rest, t);
      } else {
        assert Below(d, t) == Below(rest, t);
        assert AtLeast(d, t) == [d[0]] + AtLeast(rest, t);
      }
    }
  }


  /** ... and the two sums add up to the whole. */
  lemma {:induction false} MasksSplitSum(d: seq<int>, t: int)
    ensures Sum(Below(d, t)) + Sum(AtLeast(d, t)) == Sum(d)
  {
    if d != [] {
      MasksSplitSum(d[1..], t);
      var b := if d[0] < t then [d[0]] else [];
      var a := if d[0] >= t then [d[0]] else [];
      SumAppend(b, Below(d[1..], t));
      SumAppend(a, AtLeast(d[1..], t));
    }
  }

  lemma {:induction false} MaskedNonNegative(d: seq<int>, t: int)
    requires forall i :: 0 <= i < |d| ==> d[i] >= 0
    ensures Sum(Below(d, t)) >= 0 && Sum(AtLeast(d, t)) >= 0
  {
    if d != [] {
      MaskedNonNegative(d[1..], t);
      var b := if d[0] < t then [d[0]] else [];
      var a := if d[0] >= t then [d[0]] else [];
      SumAppend(b, Below(d[1..], t));
      SumAppend(a, AtLeast(d[1..], t));
    }
  }

  /** The total variation, peeled from the front of the block instead. */
  lemma {:induction false} TotalVariationFront(s: seq<int>)
    requires |s| >= 2
    ensures TotalVariation(s) == Abs(s[1] - s[0]) + TotalVariation(s[1..])
    decreases |s|
  {
    if |s| > 2 {
      var init := s[..|s| - 1];
      var tail := s[1..];
      TotalVariationFront(init);
      assert init[1..] == tail[..|tail| - 1];
      assert init[1] == s[1] && init[0] == s[0];
      assert tail[|tail| - 1] == s[|s| - 1] && tail[|tail| - 2] == s[|s| - 2];
    }
  }

  /** Summing the differences front to back gives the total variation. */
  lemma {:induction false} DiffsSumToTotalVariation(s: seq<int>)
    ensures Sum(AbsDiffs(s)) == TotalVariation(s)
    decreases |s|
  {
    if |s| >= 2 {
      DiffsSumToTotalVariation(s[1..]);
      TotalVariationFront(s);
      var d := AbsDiffs(s);
      assert d == [Abs(s[1] - s[0])] + AbsDiffs(s[1..]);
      assert d[1..] == AbsDiffs(s[1..]);
    }
  }

  lemma {:induction false} DiffsNonNegative(s: seq<int>)
    ensures forall i :: 0 <= i < |AbsDiffs(s)| ==> AbsDiffs(s)[i] >= 0
  {
    var d := AbsDiffs(s);
    forall i | 0 <= i < |d| ensures d[i] >= 0 {
      assert d[i] == Abs(s[i + 1] - s[i]);
    }
  }

  /** The band sums as integers: both non-negative, together the total
      variation. */
  lemma BandsSplitVariation(s: seq<int>)
    ensures Sum(Below(AbsDiffs(s), DERIVATIVE_THRESHOLD)) >= 0
    ensures Sum(AtLeast(AbsDiffs(s), DERIVATIVE_THRESHOLD)) >= 0
    ensures Sum(Below(AbsDiffs(s), DERIVATIVE_THRESHOLD)) + Sum(AtLeast(AbsDiffs(s), DERIVATIVE_THRESHOLD)) == TotalVariation(s)
  {
    var diff := AbsDiffs(s);
    DiffsNonNegative(s);
    MaskedNonNegative(diff, DERIVATIVE_THRESHOLD);
    MasksSplitSum(diff, DERIVATIVE_THRESHOLD);
    DiffsSumToTotalVariation(s);
  }

  lemma DivideBoth(low: int, high: int, total: int, n: nat)
    requires n > 0 && low >= 0 && high >= 0 && low + high == total
    ensures low as real / n as real >= 0.0 && high as real / n as real >= 0.0
    ensures low as real / n as real + high as real / n as real == total as real / n as real
  {
  }

  /** `calculate_freq_distribution`: the sums of the differences below
      and at or above the threshold, each divided by the block length N
      (not by the N - 1 differences). Both bands are non-negative and
      together they are the total variation divided by N. */
  function FreqDistribution(s: seq<int>): (r: (real, real))
    requires |s| > 0
    ensures r.0 >= 0.0 && r.1 >= 0.0
    ensures r.0 + r.1 == TotalVariation(s) as real / |s| as real
  {
    var diff := AbsDiffs(s);
    var low := Sum(Below(diff, DERIVATIVE_THRESHOLD));
    var high := Sum(AtLeast(diff, DERIVATIVE_THRESHOLD));
    BandsSplitVariation(s);
    DivideBoth(low, high, TotalVariation(s), |s|);
    (low as real / |s| as real, high as real / |s| as real)
  }

  lemma {:induction false} ConstantHasNoVariation(s: seq<int>, c: int)
    requires forall i :: 0 <= i < |s| ==> s[i] == c
    ensures TotalVariation(s) == 0
    decreases |s|
  {
    if |s| >= 2 {
      ConstantHasNoVariation(s[..|s| - 1], c);
    }
  }

  /** A constant block has no energy in either band. */
  lemma ConstantBlockHasNoEnergy(s: seq<int>, c: int)
    requires |s| > 0
    requires forall i :: 0 <= i < |s| ==> s[i] == c
    ensures FreqDistribution(s) == (0.0, 0.0)
  {
    ConstantHasNoVariation(s, c);
    assert 0 as real / |s| as real == 0.0;
  }

  /** The all-zero block: peak 0, no energy, and (with its RMS of 0)
      classified Calm. */
  lemma SilenceIsCalm(n: nat)
    requires n > 0
    ensures Peak(Zeros(n)) == 0
    ensures FreqDistribution(Zeros(n)) == (0.0, 0.0)
    ensures Classify(0.0, 0.0, 0.0) == Calm
  {
    ConstantBlockHasNoEnergy(Zeros(n), 0);
  }
}
