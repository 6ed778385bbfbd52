/**
 * LSB steganalysis: lsb_analysis of stegnography.py and the irregularity
 * test applied to its percentages.
 *
 * The analysis counts the channels whose LSB is 0 and those whose LSB is 1,
 * records every LSB in channel order, and reports the two counts as
 * percentages of the total. The distribution is flagged irregular when the
 * two percentages differ by more than 5 points.
 */
module Steganalysis {
  import opened LsbPlane

  datatype Option<T> = None | Some(value: T)

  /**
   * The outcome of one analysis: the count of 0 LSBs, the count of 1 LSBs and
   * the LSBs in channel order. The percentages are derived from the counts.
   */
  datatype Report = Report(zeros: nat, ones: nat, distribution: seq<Bit>)

  /** How many entries of s equal b. */
  function Count(s: seq<Bit>, b: Bit): nat
  {
    if s == [] then 0 else Count(s[..|s| - 1], b) + (if s[|s| - 1] == b then 1 else 0)
  }

  /** Count agrees with the multiplicity of b in s. */
  lemma {:induction false} CountIsMultiplicity(s: seq<Bit>, b: Bit)
    ensures Count(s, b) == multiset(s)[b]
  {
    if s != [] {
      CountIsMultiplicity(s[..|s| - 1], b);
      assert s == s[..|s| - 1] + [s[|s| - 1]];
    }
  }

  /** Every entry is a 0 or a 1, so the two counts add up to the length. */
  lemma {:induction false} CountsPartition(s: seq<Bit>)
    ensures Count(s, 0) + Count(s, 1) == |s|
  {
    if s != [] {
      CountsPartition(s[..|s| - 1]);
    }
  }

  lemma CountAppend(s: seq<Bit>, x: Bit, b: Bit)
    ensures Count(s + [x], b) == Count(s, b) + (if x == b then 1 else 0)
  {
    assert (s + [x])[..|s|] == s;
  }

  /** Adding one entry to the counted sequence adds one to the count of its value. */
  lemma CountStep(s: seq<Bit>, x: Bit, counts: seq<nat>)
    requires counts == [Count(s, 0), Count(s, 1)]
    ensures counts[x := counts[x] + 1] == [Count(s + [x], 0), Count(s + [x], 1)]
  {
    CountAppend(s, x, 0);
    CountAppend(s, x, 1);
  }

  /**
   * What lsb_analysis returns for an image: None exactly when it holds no
   * channel, and otherwise counts that cover every channel.
   */
  function Analyze(image: seq<Byte>): (r: Option<Report>)
    ensures r.None? <==> |image| == 0
    ensures r.Some? ==> r.value.zeros + r.value.ones == |image| && r.value.distribution == Lsbs(image)
  {
    var distribution := Lsbs(image);
    CountsPartition(distribution);
    var zeros, ones := Count(distribution, 0), Count(distribution, 1);
    if zeros + ones == 0 then None else Some(Report(zeros, ones, distribution))
  }

  /**
   * The report exists exactly for a non-empty image; its counts cover all
   * channels and its distribution is the LSB of every channel in order.
   */
  lemma AnalyzeCoversAllChannels(image: seq<Byte>)
    ensures Analyze(image).None? <==> |image| == 0
    ensures Analyze(image).Some? ==>
      var r := Analyze(image).value;
      r.zeros + r.ones == |image| && |r.distribution| == |image| &&
      (forall k :: 0 <= k < |image| ==> r.distribution[k] == image[k] % 2) &&
      r.zeros == multiset(r.distribution)[0] && r.ones == multiset(r.distribution)[1]
  {
    CountsPartition(Lsbs(image));
    CountIsMultiplicity(Lsbs(image), 0);
    CountIsMultiplicity(Lsbs(image), 1);
  }

  /**
   * lsb_analysis on a w-by-h image: visit the channels row by row, column by
   * column, R, G, B, count each LSB and record it.
   */
  method LsbAnalysis(w: nat, h: nat, image: seq<Byte>) returns (r: Option<Report>)
    requires |image| == ChannelCount(w, h)
    ensures r == Analyze(image)
  {
    var lsbCount: seq<nat> := [0, 0];
    var lsbDistribution: seq<Bit> := [];
    var y := 0;
    while y < h
      invariant 0 <= y <= h
      invariant |lsbDistribution| == ChannelIndex(w, 0, y, 0) <= |image|
      invariant forall k :: 0 <= k < |lsbDistribution| ==> lsbDistribution[k] == image[k] % 2
      invariant lsbCount == [Count(lsbDistribution, 0), Count(lsbDistribution, 1)]
    {
      var x := 0;
      while x < w
        invariant 0 <= x <= w
        invariant |lsbDistribution| == ChannelIndex(w, x, y, 0) <= |image|
        invariant forall k :: 0 <= k < |lsbDistribution| ==> lsbDistribution[k] == image[k] % 2
        invariant lsbCount == [Count(lsbDistribution, 0), Count(lsbDistribution, 1)]
      {
        ChannelIndexInRange(w, h, x, y, 2);
        var channel := 0;
        while channel < 3
          invariant 0 <= channel <= 3
          invariant |lsbDistribution| == ChannelIndex(w, x, y, channel) < |image| + 1
          invariant forall k :: 0 <= k < |lsbDistribution| ==> lsbDistribution[k] == image[k] % 2
          invariant lsbCount == [Count(lsbDistribution, 0), Count(lsbDistribution, 1)]
        {
          var lsb: Bit := image[ChannelIndex(w, x, y, channel)] % 2;
          CountStep(lsbDistribution, lsb, lsbCount);
          lsbCount := lsbCount[lsb := lsbCount[lsb] + 1];
          lsbDistribution := lsbDistribution + [lsb];
          channel := channel + 1;
        }
        ChannelIndexNext(w, x, y);
        x := x + 1;
      }
      ChannelIndexNext(w, w, y);
      RowStartMonotonic(w, y + 1, h);
      y := y + 1;
    }
    assert lsbDistribution == Lsbs(image);
    var totalLsb := lsbCount[0] + lsbCount[1];
    if totalLsb == 0 {
      return None;
    }
    r := Some(Report(lsbCount[0], lsbCount[1], lsbDistribution));
  }

  // ---------------------------------------------------------------------------
  // Percentages and the irregularity test
  // ---------------------------------------------------------------------------

  function Abs(x: int): nat { if x < 0 then -x else x }

  function RealAbs(x: real): real { if x < 0.0 then -x else x }

  /** count / total * 100, as an exact rational. */
  function Percentage(count: nat, total: nat): (r: real)
    requires total > 0
    ensures r >= 0.0
    ensures count <= total ==> r <= 100.0
  {
    count as real / total as real * 100.0
  }

  /**
   * The test abs(p0 - p1) > 5 on the percentages, stated on the counts:
   * scaling both sides by total / 100 gives 100 * |zeros - ones| > 5 * total.
   * An empty or balanced report is never flagged; a one-sided one always is.
   */
  predicate IsIrregular(r: Report)
    ensures IsIrregular(r) ==> r.zeros + r.ones > 0 && r.zeros != r.ones
    ensures r.zeros + r.ones > 0 && (r.zeros == 0 || r.ones == 0) ==> IsIrregular(r)
  {
    100 * Abs(r.zeros - r.ones) > 5 * (r.zeros + r.ones)
  }

  /** The percentages of a report add up to 100. */
  lemma PercentagesSumTo100(r: Report)
    requires r.zeros + r.ones > 0
    ensures Percentage(r.zeros, r.zeros + r.ones) + Percentage(r.ones, r.zeros + r.ones) == 100.0
  {
    var t := (r.zeros + r.ones) as real;
    assert r.zeros as real / t + r.ones as real / t == (r.zeros as real + r.ones as real) / t;
  }

  /** The integer test is the percentage test of the source, exactly. */
  lemma IrregularIffPercentGap(r: Report)
    requires r.zeros + r.ones > 0
    ensures IsIrregular(r) <==>
      RealAbs(Percentage(r.zeros, r.zeros + r.ones) - Percentage(r.ones, r.zeros + r.ones)) > 5.0
  {
    var t := (r.zeros + r.ones) as real;
    var d := r.zeros as real - r.ones as real;
    PercentageGap(r.zeros, r.ones);
    RealAbsScaled(d, t);
    assert RealAbs(d) == Abs(r.zeros - r.ones) as real;
    ScaledComparison(RealAbs(d) * 100.0, t);
  }

  /** The gap between the two percentages is the gap between the counts, scaled. */
  lemma PercentageGap(zeros: nat, ones: nat)
    requires zeros + ones > 0
    ensures Percentage(zeros, zeros + ones) - Percentage(ones, zeros + ones)
      == (zeros as real - ones as real) * 100.0 / (zeros + ones) as real
  {
    var t := (zeros + ones) as real;
    assert zeros as real / t * 100.0 == zeros as real * 100.0 / t;
    assert ones as real / t * 100.0 == ones as real * 100.0 / t;
  }

  /** Scaling by 100 / t for a positive t commutes with the absolute value. */
  lemma RealAbsScaled(d: real, t: real)
    requires t > 0.0
    ensures RealAbs(d * 100.0 / t) == RealAbs(d) * 100.0 / t
  {
    if d < 0.0 {
      assert d * 100.0 / t == -((-d) * 100.0 / t);
      assert (-d) * 100.0 / t > 0.0;
    } else {
      assert d * 100.0 / t >= 0.0;
    }
  }

  /** For t > 0: g / t > 5 exactly when g > 5 * t. */
  lemma ScaledComparison(g: real, t: real)
    requires t > 0.0
    ensures g / t > 5.0 <==> g > 5.0 * t
  {
    var q := g / t;
    assert g == q * t;
    assert q * t - 5.0 * t == (q - 5.0) * t;
  }

  /** An image whose every channel is even reads as 100 % zeros and is flagged. */
  lemma AllEvenIsIrregular(image: seq<Byte>)
    requires |image| > 0
    requires forall k :: 0 <= k < |image| ==> image[k] % 2 == 0
    ensures Analyze(image).Some?
    ensures Analyze(image).value.zeros == |image| && Analyze(image).value.ones == 0
    ensures IsIrregular(Analyze(image).value)
  {
    var d := Lsbs(image);
    CountsPartition(d);
    CountIsMultiplicity(d, 1);
    assert forall k :: 0 <= k < |d| ==> d[k] != 1;
    assert 1 !in multiset(d);
  }

  /** Alternating LSB counts: ceiling and floor of half the length. */
  lemma {:induction false} AlternatingCounts(s: seq<Bit>)
    requires forall k :: 0 <= k < |s| ==> s[k] == k % 2
    ensures Count(s, 0) == (|s| + 1) / 2 && Count(s, 1) == |s| / 2
  {
    if s != [] {
      AlternatingCounts(s[..|s| - 1]);
    }
  }

  /**
   * Channels whose LSBs alternate 0, 1, 0, ... are flagged exactly when their
   * number is odd and below 20: the one extra zero is then worth more than 5
   * percentage points.
   */
  lemma AlternatingIsNormalUnlessTiny(image: seq<Byte>)
    requires |image| > 0
    requires forall k :: 0 <= k < |image| ==> image[k] % 2 == k % 2
    ensures Analyze(image).Some?
    ensures Analyze(image).value.zeros == (|image| + 1) / 2 && Analyze(image).value.ones == |image| / 2
    ensures IsIrregular(Analyze(image).value) <==> |image| % 2 == 1 && |image| < 20
  {
    AlternatingCounts(Lsbs(image));
  }
}
