/**
  The sub-daily bucketing of process_json_data, stated on values: which sample of a
  `[timestamp_ms, value]` array each calendar day of the series gets, both as the scan the
  program performs and as a declarative description of the choice, with the proof that
  the scan makes exactly that choice.
 */
module Bucketing {
  import opened CSemantics
  import opened Calendar

  /** One `[timestamp_ms, value]` pair of a response array. */
  datatype Sample = Sample(timestampMs: int, value: real)

  /** `(int64_t) timestamp_ms / 1000`: seconds, truncated toward zero. */
  function Seconds(s: Sample): (r: int)
    ensures s.timestampMs >= 0 ==> 0 <= r <= s.timestampMs
    ensures s.timestampMs < 0 ==> s.timestampMs <= r <= 0
  {
    TruncDiv(s.timestampMs, 1000)
  }

  /** The UTC midnight that starts day `day` of the series: the begin date's timestamp
      plus `day * 86400`, the product computed in uint32_t. */
  function Midnight(base: int, day: nat): (r: int)
    ensures base <= r < base + U32
  {
    base + (day * SecondsPerDay) % U32
  }

  /** The first |prefix| slots replaced by `prefix`, the rest as they were. */
  function Overlay<T>(before: seq<T>, prefix: seq<T>): (r: seq<T>)
    requires |prefix| <= |before|
    ensures |r| == |before|
    ensures forall k :: 0 <= k < |prefix| ==> r[k] == prefix[k]
    ensures forall k :: |prefix| <= k < |before| ==> r[k] == before[k]
  {
    seq(|before|, k requires 0 <= k < |before| => if k < |prefix| then prefix[k] else before[k])
  }

  function Range(n: nat): (r: seq<nat>)
    ensures |r| == n && forall k :: 0 <= k < n ==> r[k] == k
  {
    seq(n, k => k)
  }

  /** The values of the chosen samples, day by day. */
  function ValuesAt(s: seq<Sample>, picks: seq<nat>): (r: seq<real>)
    requires forall d :: 0 <= d < |picks| ==> picks[d] < |s|
    ensures |r| == |picks|
  {
    seq(|picks|, d requires 0 <= d < |picks| => s[picks[d]].value)
  }

  /** The timestamps, in seconds, of the chosen samples, day by day. */
  function SecondsAt(s: seq<Sample>, picks: seq<nat>): (r: seq<int>)
    requires forall d :: 0 <= d < |picks| ==> picks[d] < |s|
    ensures |r| == |picks|
  {
    seq(|picks|, d requires 0 <= d < |picks| => Seconds(s[picks[d]]))
  }

  /** The scan of the sub-daily branch from sample j on, with `picks` the samples chosen
      for days 0 .. |picks|-1 so far: it stops once num_entries days are filled, and
      otherwise moves to the next day at the first sample at or after that day's
      midnight, or at the last sample. */
  function PicksFrom(s: seq<Sample>, base: int, ne: nat, j: nat, picks: seq<nat>): (r: seq<nat>)
    requires 1 <= j <= |s| && 1 <= |picks| <= ne
    requires forall d :: 0 <= d < |picks| ==> picks[d] < j
    ensures 1 <= |r| <= ne
    ensures forall d :: 0 <= d < |r| ==> r[d] < |s|
    decreases |s| - j
  {
    if j == |s| || |picks| == ne then picks
    else if Qualifies(s, base, |picks|, j) then
      PicksFrom(s, base, ne, j + 1, picks + [j])
    else
      PicksFrom(s, base, ne, j + 1, picks)
  }

  /** Which sample each day gets in the sub-daily branch: day 0 the first sample. */
  function BucketPicks(s: seq<Sample>, base: int, ne: nat): seq<nat>
    requires |s| >= 1 && ne >= 1
  {
    PicksFrom(s, base, ne, 1, [0])
  }

  /** Sample i may close day d: it lies at or after that day's midnight, or it is the
      last sample. */
  predicate Qualifies(s: seq<Sample>, base: int, d: nat, i: nat)
    requires i < |s|
  {
    Seconds(s[i]) >= Midnight(base, d) || i == |s| - 1
  }

  /** Every chosen sample lies before j. */
  ghost predicate Below(picks: seq<nat>, j: nat)
  {
    forall d :: 0 <= d < |picks| ==> picks[d] < j
  }

  ghost predicate Increasing(picks: seq<nat>)
  {
    forall d :: 1 <= d < |picks| ==> picks[d - 1] < picks[d]
  }

  /** Every day after day 0 got a sample that qualifies for it. */
  ghost predicate AllQualify(s: seq<Sample>, base: int, picks: seq<nat>)
    requires Below(picks, |s|)
  {
    forall d :: 1 <= d < |picks| ==> Qualifies(s, base, d, picks[d])
  }

  /** No sample skipped between two days' samples qualifies for the later day. */
  ghost predicate GapsSkipped(s: seq<Sample>, base: int, picks: seq<nat>)
    requires Below(picks, |s|)
  {
    forall d, k :: 1 <= d < |picks| && picks[d - 1] < k < picks[d] ==> !Qualifies(s, base, d, k)
  }

  /** The intended meaning of the bucketing, stated without the scan: day 0 gets the first
      sample; each later day d gets the first sample after day d-1's whose timestamp is at
      or after midnight of day d, or else the last sample; days are filled up to
      num_entries and stop short of it only when the samples run out. */
  ghost predicate IsBucketing(s: seq<Sample>, base: int, ne: nat, picks: seq<nat>)
  {
    && 1 <= |picks| <= ne
    && picks[0] == 0
    && Below(picks, |s|)
    && Increasing(picks)
    && AllQualify(s, base, picks)
    && GapsSkipped(s, base, picks)
    && (|picks| < ne ==> picks[|picks| - 1] == |s| - 1)
  }

  /** What holds of the days chosen before sample j is scanned: the samples after the last
      chosen one and before j do not qualify for the next day. */
  ghost predicate PartialBucketing(s: seq<Sample>, base: int, ne: nat, j: nat, picks: seq<nat>)
  {
    && 1 <= j <= |s|
    && 1 <= |picks| <= ne
    && picks[0] == 0
    && Below(picks, j)
    && Below(picks, |s|)
    && Increasing(picks)
    && AllQualify(s, base, picks)
    && GapsSkipped(s, base, picks)
    && (forall k :: picks[|picks| - 1] < k < j ==> !Qualifies(s, base, |picks|, k))
  }

  /** When the scan stops, the days chosen so far have the intended meaning. */
  lemma PartialBucketingDone(s: seq<Sample>, base: int, ne: nat, j: nat, picks: seq<nat>)
    requires PartialBucketing(s, base, ne, j, picks)
    requires j == |s| || |picks| == ne
    ensures IsBucketing(s, base, ne, picks)
  {
    if |picks| < ne {
      // the last sample always qualifies, so the scanned gap cannot contain it
      assert Qualifies(s, base, |picks|, |s| - 1);
    }
  }

  /** Choosing sample j for the next day keeps the scan's invariant. */
  lemma PartialBucketingPick(s: seq<Sample>, base: int, ne: nat, j: nat, picks: seq<nat>)
    requires PartialBucketing(s, base, ne, j, picks)
    requires j < |s| && |picks| < ne
    requires Qualifies(s, base, |picks|, j)
    ensures PartialBucketing(s, base, ne, j + 1, picks + [j])
  {
    var next := picks + [j];
    var n := |picks|;
    assert Below(next, j + 1) && Below(next, |s|);
    assert Increasing(next) by {
      forall d | 1 <= d < |next|
        ensures next[d - 1] < next[d]
      {
        if d < n {
          assert next[d - 1] == picks[d - 1] && next[d] == picks[d];
        }
      }
    }
    assert AllQualify(s, base, next) by {
      forall d | 1 <= d < |next|
        ensures Qualifies(s, base, d, next[d])
      {
        if d < n {
          assert next[d] == picks[d];
        }
      }
    }
    assert GapsSkipped(s, base, next) by {
      forall d, k | 1 <= d < |next| && next[d - 1] < k < next[d]
        ensures !Qualifies(s, base, d, k)
      {
        if d < n {
          assert next[d] == picks[d] && next[d - 1] == picks[d - 1];
        }
      }
    }
  }

  /** Skipping sample j keeps the scan's invariant. */
  lemma PartialBucketingSkip(s: seq<Sample>, base: int, ne: nat, j: nat, picks: seq<nat>)
    requires PartialBucketing(s, base, ne, j, picks)
    requires j < |s| && |picks| < ne
    requires !Qualifies(s, base, |picks|, j)
    ensures PartialBucketing(s, base, ne, j + 1, picks)
  {
  }

  /** The scan achieves the intended meaning: `r` is what it returns from sample j on. */
  lemma {:induction false} PicksFromIsBucketing(s: seq<Sample>, base: int, ne: nat, j: nat, picks: seq<nat>, r: seq<nat>)
    requires PartialBucketing(s, base, ne, j, picks)
    requires r == PicksFrom(s, base, ne, j, picks)
    ensures IsBucketing(s, base, ne, r)
    decreases |s| - j
  {
    if j == |s| || |picks| == ne {
      PartialBucketingDone(s, base, ne, j, picks);
    } else if Qualifies(s, base, |picks|, j) {
      PartialBucketingPick(s, base, ne, j, picks);
      PicksFromIsBucketing(s, base, ne, j + 1, picks + [j], r);
    } else {
      PartialBucketingSkip(s, base, ne, j, picks);
      PicksFromIsBucketing(s, base, ne, j + 1, picks, r);
    }
  }

  lemma BucketPicksIsBucketing(s: seq<Sample>, base: int, ne: nat)
    requires |s| >= 1 && ne >= 1
    ensures IsBucketing(s, base, ne, BucketPicks(s, base, ne))
  {
    PicksFromIsBucketing(s, base, ne, 1, [0], BucketPicks(s, base, ne));
  }

  /** Every day but the last is given a sample before the last one. */
  lemma OnlyLastDayMayEnd(s: seq<Sample>, base: int, ne: nat, p: seq<nat>)
    requires IsBucketing(s, base, ne, p)
    ensures forall d :: 0 <= d < |p| - 1 ==> p[d] < |s| - 1
  {
    forall d | 0 <= d < |p| - 1
      ensures p[d] < |s| - 1
    {
      assert p[d] < p[d + 1];
    }
  }

  /** A sample after day d-1's that qualifies for day d is not before day d's sample. */
  lemma NextPickIsFirst(s: seq<Sample>, base: int, ne: nat, p: seq<nat>, d: nat, j: nat)
    requires IsBucketing(s, base, ne, p)
    requires 1 <= d < |p| && p[d - 1] < j < |s|
    requires Qualifies(s, base, d, j)
    ensures p[d] <= j
  {
  }

  /** The meaning fixes the choice: at most one choice of days satisfies it. */
  lemma BucketingUnique(s: seq<Sample>, base: int, ne: nat, p: seq<nat>, q: seq<nat>)
    requires IsBucketing(s, base, ne, p) && IsBucketing(s, base, ne, q)
    ensures p == q
  {
    var n := if |p| < |q| then |p| else |q|;
    var d := 1;
    while d < n
      invariant 1 <= d <= n
      invariant forall e :: 0 <= e < d ==> p[e] == q[e]
    {
      NextPickIsFirst(s, base, ne, p, d, q[d]);
      NextPickIsFirst(s, base, ne, q, d, p[d]);
      d := d + 1;
    }
    OnlyLastDayMayEnd(s, base, ne, p);
    OnlyLastDayMayEnd(s, base, ne, q);
    assert |p| == |q|;
  }

  /** A small hourly example with the series starting at timestamp 0: the first sample at
      or after each midnight is chosen, and the last sample closes the last day. */
  lemma BucketingExample()
    ensures
      var s := [Sample(0, 1.0), Sample(3600000, 2.0), Sample(86400000, 3.0),
                Sample(90000000, 4.0), Sample(170000000, 5.0)];
      BucketPicks(s, 0, 4) == [0, 2, 4]
  {
    var s := [Sample(0, 1.0), Sample(3600000, 2.0), Sample(86400000, 3.0),
              Sample(90000000, 4.0), Sample(170000000, 5.0)];
    assert Seconds(s[1]) == 3600 && Seconds(s[2]) == 86400;
    assert Seconds(s[3]) == 90000 && Seconds(s[4]) == 170000;
    assert Midnight(0, 1) == 86400 && Midnight(0, 2) == 172800;
    assert !Qualifies(s, 0, 1, 1) && Qualifies(s, 0, 1, 2);
    assert !Qualifies(s, 0, 2, 3) && Qualifies(s, 0, 2, 4);
    assert BucketPicks(s, 0, 4) == PicksFrom(s, 0, 4, 1, [0]);
    assert PicksFrom(s, 0, 4, 1, [0]) == PicksFrom(s, 0, 4, 2, [0]);
    assert PicksFrom(s, 0, 4, 2, [0]) == PicksFrom(s, 0, 4, 3, [0, 2]);
    assert PicksFrom(s, 0, 4, 3, [0, 2]) == PicksFrom(s, 0, 4, 4, [0, 2]);
    assert PicksFrom(s, 0, 4, 4, [0, 2]) == PicksFrom(s, 0, 4, 5, [0, 2, 4]);
  }

  /** Writing the sample chosen for the next day into slot |picks| of both arrays extends
      what they hold by that day. */
  lemma ChooseNext(saved: seq<real>, timestamp: seq<int>, s: seq<Sample>, picks: seq<nat>, j: nat)
    requires |picks| < |saved| && |picks| < |timestamp| && j < |s|
    requires forall d :: 0 <= d < |picks| ==> picks[d] < |s|
    ensures Overlay(saved, ValuesAt(s, picks + [j])) == Overlay(saved, ValuesAt(s, picks))[|picks| := s[j].value]
    ensures Overlay(timestamp, SecondsAt(s, picks + [j])) == Overlay(timestamp, SecondsAt(s, picks))[|picks| := Seconds(s[j])]
  {
  }
}
