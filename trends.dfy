/**
  The three analyses main.c runs over the daily series: the longest run of falling prices
  (exercise_a), the day of highest trading volume (exercise_b) and a buy/sell pair of days
  (exercise_c). Each is modelled as written, with its quirks, against a predicate that
  states exactly what it reports; beside each stands the analysis as evidently intended,
  proved against its own predicate.
 */
module Trends {
  import opened CSemantics
  import opened Calendar
  import opened Series

  /** add_days_to_date(&date_begin, &out, day): the calendar date of a day of the series. */
  method DayToDate(dateBegin: Date, day: nat) returns (date: Date)
    requires dateBegin.month <= 13 && day < U16
    ensures IsCalendarDate(date)
    ensures DayCount(date) == ShiftedDayCount(dateBegin, day)
  {
    var record := new DateRecord(dateBegin);
    var status := AddDaysToDate(Some(dateBegin), record, day);
    date := record.Value();
  }

  // ----- Exercise A: longest run of falling prices -----

  /** Prices fall strictly at every step from day a to day b. */
  ghost predicate Falling(p: seq<real>, a: nat, b: nat)
  {
    a <= b < |p| && forall k :: a <= k < b ==> p[k + 1] < p[k]
  }

  /** A falling stretch that the scan scores: the step after its last day exists and is
      not a fall. */
  ghost predicate ClosedRun(p: seq<real>, a: nat, b: nat)
  {
    Falling(p, a, b) && b + 1 < |p| && !(p[b + 1] < p[b])
  }

  /** What exercise_a reports: the earliest longest closed run, as days and first and
      last day, or 0, 0, 0 when no closed run has a fall. */
  ghost predicate IsDeclineReport(p: seq<real>, days: nat, start: nat, stop: nat)
  {
    && start <= stop && days == stop - start
    && (days == 0 ==> start == 0 && stop == 0)
    && (days > 0 ==> ClosedRun(p, start, stop))
    && (forall a: nat, b: nat :: ClosedRun(p, a, b) ==> b - a <= days)
    && (forall a: nat, b: nat :: ClosedRun(p, a, b) && b - a == days && days > 0 ==> start <= a)
  }

  /** exercise_a: one pass counting consecutive falls; a run is scored when a non-fall
      ends it, and only if strictly longer than the best so far. The first and last day
      of the best run are converted to dates. */
  method ExerciseA(data: DailySeries) returns (maxDays: nat, maxStart: nat, maxStop: nat, dateStart: Date, dateStop: Date)
    requires data.Valid() && data.dateBegin.month <= 13
    ensures IsDeclineReport(data.price[..data.numEntries], maxDays, maxStart, maxStop)
    ensures IsCalendarDate(dateStart) && DayCount(dateStart) == ShiftedDayCount(data.dateBegin, maxStart)
    ensures IsCalendarDate(dateStop) && DayCount(dateStop) == ShiftedDayCount(data.dateBegin, maxStop)
  {
    var n := data.numEntries;
    ghost var p := data.price[..n];
    var days := 0;
    maxDays, maxStart, maxStop := 0, 0, 0;
    var start := 0;
    var i := 0;
    while i < (n as int) - 1
      invariant 0 <= start <= i && (n >= 1 ==> i <= n - 1) && (n == 0 ==> i == 0)
      invariant days == i - start
      invariant n >= 1 ==> Falling(p, start, i)
      invariant forall a: nat :: 0 <= a < start ==> !Falling(p, a, start)
      invariant maxDays == maxStop - maxStart && maxStart <= maxStop
      invariant maxDays == 0 ==> maxStart == 0 && maxStop == 0
      invariant maxDays > 0 ==> ClosedRun(p, maxStart, maxStop) && maxStop < start
      invariant forall a: nat, b: nat :: ClosedRun(p, a, b) && b < start ==> b - a <= maxDays
      invariant forall a: nat, b: nat :: ClosedRun(p, a, b) && b < start && b - a == maxDays && maxDays > 0 ==> maxStart <= a
    {
      if data.price[i + 1] < data.price[i] {
        days := days + 1;
      } else {
        assert ClosedRun(p, start, i);
        if days > maxDays {
          maxDays := days;
          maxStop := i;
          maxStart := start;
        }
        FallingStartsAt(p, start, i, i + 1);
        days := 0;
        start := i + 1;
      }
      i := i + 1;
    }
    ClosedRunsEndBeforeStart(p, start, i);
    dateStart := DayToDate(data.dateBegin, maxStart);
    dateStop := DayToDate(data.dateBegin, maxStop);
  }

  /** A falling stretch that ends in the current run starts inside it. */
  lemma FallingStartsAt(p: seq<real>, start: nat, i: nat, next: nat)
    requires Falling(p, start, i) && next == i + 1 && next < |p| && !(p[next] < p[i])
    requires forall a: nat :: 0 <= a < start ==> !Falling(p, a, start)
    ensures forall a: nat :: 0 <= a < next ==> !Falling(p, a, next)
    ensures forall a: nat, b: nat :: ClosedRun(p, a, b) && b <= i ==> b < start || (b == i && start <= a)
  {
    forall a: nat | 0 <= a < next
      ensures !Falling(p, a, next)
    {
      assert !(p[next] < p[i]);
    }
    forall a: nat, b: nat | ClosedRun(p, a, b) && b <= i
      ensures b < start || (b == i && start <= a)
    {
      if start <= b {
        assert b == i;
        if a < start {
          assert Falling(p, a, start);
        }
      }
    }
  }

  /** When the scan ends, every closed run ended before the current one began. */
  lemma ClosedRunsEndBeforeStart(p: seq<real>, start: nat, i: nat)
    requires |p| >= 1 ==> Falling(p, start, i) && i == |p| - 1
    requires |p| == 0 ==> start == 0
    ensures forall a: nat, b: nat :: ClosedRun(p, a, b) ==> b < start
  {
  }

  /** The report is determined by the prices. */
  lemma DeclineReportUnique(p: seq<real>, d1: nat, s1: nat, e1: nat, d2: nat, s2: nat, e2: nat)
    requires IsDeclineReport(p, d1, s1, e1) && IsDeclineReport(p, d2, s2, e2)
    ensures d1 == d2 && s1 == s2 && e1 == e2
  {
    if d1 > 0 && d2 > 0 {
      assert d1 == d2;
      assert s1 <= s2 && s2 <= s1;
    }
  }

  /** The longest decline of this series runs from day 3 to day 8: five falling days,
      reported when the rise on day 9 ends it. */
  lemma DeclineExample()
    ensures IsDeclineReport([10.0, 9.0, 8.0, 12.0, 11.0, 10.0, 9.0, 8.0, 7.0, 9.0], 5, 3, 8)
  {
    var p := [10.0, 9.0, 8.0, 12.0, 11.0, 10.0, 9.0, 8.0, 7.0, 9.0];
    forall a: nat, b: nat | ClosedRun(p, a, b)
      ensures b - a <= 5 && (b - a == 5 ==> 3 <= a)
    {
      assert b == 2 || b == 8;
      assert !(p[3] < p[2]);
    }
  }

  /** A series that falls to its last day: the run is never ended by a non-fall, so no
      decline at all is reported. */
  lemma DeclineToTheEndIsMissed()
    ensures IsDeclineReport([3.0, 2.0, 1.0], 0, 0, 0)
    ensures Falling([3.0, 2.0, 1.0], 0, 2)
  {
    var p := [3.0, 2.0, 1.0];
    forall a: nat, b: nat
      ensures !ClosedRun(p, a, b)
    {
      if b + 1 < |p| {
        assert p[b + 1] < p[b];
      }
    }
  }

  /** The longest falling stretch, earliest first; an empty series has none. */
  ghost predicate IsLongestDecline(p: seq<real>, days: nat, start: nat, stop: nat)
  {
    && days == stop - start
    && (|p| == 0 ==> start == 0 && stop == 0)
    && (|p| >= 1 ==> Falling(p, start, stop))
    && (forall a: nat, b: nat :: Falling(p, a, b) ==> b - a <= days)
    && (forall a: nat, b: nat :: Falling(p, a, b) && b - a == days ==> start <= a)
  }

  /** exercise_a as evidently intended: the run still open on the last day is scored too. */
  method LongestDecline(p: seq<real>) returns (maxDays: nat, maxStart: nat, maxStop: nat)
    ensures IsLongestDecline(p, maxDays, maxStart, maxStop)
  {
    var days := 0;
    maxDays, maxStart, maxStop := 0, 0, 0;
    var start := 0;
    var i := 0;
    while i < |p| - 1
      invariant 0 <= start <= i && (|p| >= 1 ==> i <= |p| - 1) && (|p| == 0 ==> i == 0)
      invariant days == i - start
      invariant |p| >= 1 ==> Falling(p, start, i)
      invariant forall a: nat :: 0 <= a < start ==> !Falling(p, a, start)
      invariant maxDays == maxStop - maxStart && maxStart <= maxStop
      invariant |p| >= 1 ==> Falling(p, maxStart, maxStop)
      invariant |p| == 0 ==> maxStart == 0 && maxStop == 0
      invariant maxStop < start || (maxStart == 0 && maxStop == 0)
      invariant forall a: nat, b: nat :: Falling(p, a, b) && b < start ==> b - a <= maxDays
      invariant forall a: nat, b: nat :: Falling(p, a, b) && b < start && b - a == maxDays ==> maxStart <= a
    {
      if p[i + 1] < p[i] {
        days := days + 1;
      } else {
        if days > maxDays {
          maxDays := days;
          maxStop := i;
          maxStart := start;
        }
        FallingStaysInRun(p, start, i, i + 1);
        days := 0;
        start := i + 1;
      }
      i := i + 1;
    }
    if |p| >= 1 {
      FallingStaysInRun(p, start, i, i + 1);
      if days > maxDays {
        maxDays := days;
        maxStop := i;
        maxStart := start;
      }
    }
  }

  /** A falling stretch that reaches into the run [start, i] lies inside it, and the run
      cannot be continued past a non-fall. */
  lemma FallingStaysInRun(p: seq<real>, start: nat, i: nat, next: nat)
    requires Falling(p, start, i) && next == i + 1 && next <= |p|
    requires next < |p| ==> !(p[next] < p[i])
    requires forall a: nat :: 0 <= a < start ==> !Falling(p, a, start)
    ensures forall a: nat :: 0 <= a < next && next < |p| ==> !Falling(p, a, next)
    ensures forall a: nat, b: nat :: Falling(p, a, b) && b <= i ==> b < start || (start <= a && b - a <= i - start)
  {
    forall a: nat | 0 <= a < next && next < |p|
      ensures !Falling(p, a, next)
    {
      assert !(p[next] < p[i]);
    }
    forall a: nat, b: nat | Falling(p, a, b) && b <= i
      ensures b < start || (start <= a && b - a <= i - start)
    {
      if start <= b && a < start {
        assert Falling(p, a, start);
      }
    }
  }

  /** The falling run the scan misses is found by the corrected version. */
  lemma LongestDeclineOfFallingSeries()
    ensures IsLongestDecline([3.0, 2.0, 1.0], 2, 0, 2)
  {
  }

  // ----- Exercise B: day of highest trading volume -----

  /** What exercise_b reports: the maximum is seeded with the first day's price, not its
      volume, and only the volumes of days 0 .. n-2 are examined. The result is the first
      examined day whose volume exceeds the seed and all earlier volumes, or day 0 with
      the seed when none does. */
  ghost predicate IsSeededPeak(seed: real, v: seq<real>, day: nat, highest: real)
  {
    && highest >= seed
    && (forall k :: 0 <= k < |v| - 1 ==> v[k] <= highest)
    && ((day == 0 && highest == seed)
        || (day < |v| - 1 && v[day] == highest && highest > seed
            && forall k :: 0 <= k < day ==> v[k] < highest))
  }

  /** exercise_b: a strict-maximum scan over the volumes of all days but the last. */
  method ExerciseB(data: DailySeries) returns (day: nat, highestVolume: real, date: Date)
    requires data.Valid() && data.price.Length >= 1 && data.dateBegin.month <= 13
    ensures IsSeededPeak(data.price[0], data.volume[..data.numEntries], day, highestVolume)
    ensures IsCalendarDate(date) && DayCount(date) == ShiftedDayCount(data.dateBegin, day)
  {
    var n := data.numEntries;
    ghost var v := data.volume[..n];
    highestVolume := data.price[0];
    day := 0;
    var i := 0;
    while i < (n as int) - 1
      invariant 0 <= i && (n >= 1 ==> i <= n - 1) && (n == 0 ==> i == 0)
      invariant highestVolume >= data.price[0]
      invariant forall k :: 0 <= k < i ==> v[k] <= highestVolume
      invariant (day == 0 && highestVolume == data.price[0])
                || (day < i && v[day] == highestVolume && highestVolume > data.price[0]
                    && forall k :: 0 <= k < day ==> v[k] < highestVolume)
    {
      if data.volume[i] > highestVolume {
        day := i;
        highestVolume := data.volume[i];
      }
      i := i + 1;
    }
    date := DayToDate(data.dateBegin, day);
  }

  /** The report is determined by the seed and the volumes. */
  lemma SeededPeakUnique(seed: real, v: seq<real>, d1: nat, h1: real, d2: nat, h2: real)
    requires IsSeededPeak(seed, v, d1, h1) && IsSeededPeak(seed, v, d2, h2)
    ensures d1 == d2 && h1 == h2
  {
    if d1 < |v| - 1 && h1 > seed && d2 < |v| - 1 && h2 > seed {
      assert v[d1] <= h2 && v[d2] <= h1;
      assert !(d1 < d2) && !(d2 < d1);
    }
  }

  /** Volumes far above prices, as in the API's data: the first highest examined volume
      is found. */
  lemma SeededPeakExample()
    ensures IsSeededPeak(1.0, [5.0, 20.0, 3.0, 20.0, 1.0], 1, 20.0)
  {
  }

  /** A first-day price above every examined volume hides all of them; and the last day
      is never examined, even when its volume is the highest. */
  lemma SeededPeakMisses()
    ensures IsSeededPeak(100.0, [5.0, 20.0, 3.0], 0, 100.0)
    ensures IsSeededPeak(0.5, [1.0, 2.0], 0, 1.0)
  {
  }

  /** The first day of highest volume among all days. */
  ghost predicate IsPeak(v: seq<real>, day: nat, highest: real)
  {
    && day < |v| && v[day] == highest
    && (forall k :: 0 <= k < |v| ==> v[k] <= highest)
    && (forall k :: 0 <= k < day ==> v[k] < highest)
  }

  /** exercise_b as evidently intended: seeded with the first volume, over every day. */
  method PeakVolume(v: seq<real>) returns (day: nat, highest: real)
    requires |v| >= 1
    ensures IsPeak(v, day, highest)
  {
    highest := v[0];
    day := 0;
    var i := 1;
    while i < |v|
      invariant 1 <= i <= |v|
      invariant IsPeak(v[..i], day, highest)
    {
      if v[i] > highest {
        day := i;
        highest := v[i];
      }
      i := i + 1;
    }
    assert v[..i] == v;
  }

  lemma PeakVolumeExamples()
    ensures IsPeak([1.0, 2.0], 1, 2.0)
    ensures IsPeak([5.0, 20.0, 3.0], 1, 20.0)
  {
  }

  // ----- Exercise C: a day to buy and a day to sell -----

  /** `struct pair_t`: buy and sell price, and their day indices stored in uint8_t. */
  datatype Pair = Pair(buyPrice: real, sellPrice: real, buyDate: nat, sellDate: nat)

  /** The outcome exercise_c prints: a trade, or the no-opportunity message. */
  datatype TradeReport = Deal(pair: Pair) | NoOpportunity

  /** Day m is the first day of the highest price among days 0 .. n-1. */
  ghost predicate IsFirstMax(p: seq<real>, n: nat, m: nat)
  {
    m < n <= |p| && (forall k :: 0 <= k < n ==> p[k] <= p[m]) && (forall k :: 0 <= k < m ==> p[k] < p[m])
  }

  /** Day m is the first day of the lowest price among days 0 .. n-1. */
  ghost predicate IsFirstMin(p: seq<real>, n: nat, m: nat)
  {
    m < n <= |p| && (forall k :: 0 <= k < n ==> p[m] <= p[k]) && (forall k :: 0 <= k < m ==> p[m] < p[k])
  }

  function FirstMaxIndex(p: seq<real>, n: nat): (m: nat)
    requires 1 <= n <= |p|
    ensures IsFirstMax(p, n, m)
  {
    if n == 1 then 0
    else
      var m := FirstMaxIndex(p, n - 1);
      if p[n - 1] > p[m] then n - 1 else m
  }

  function FirstMinIndex(p: seq<real>, n: nat): (m: nat)
    requires 1 <= n <= |p|
    ensures IsFirstMin(p, n, m)
  {
    if n == 1 then 0
    else
      var m := FirstMinIndex(p, n - 1);
      if p[n - 1] < p[m] then n - 1 else m
  }

  /** There is only one first highest day. */
  lemma FirstMaxUnique(p: seq<real>, n: nat, m1: nat, m2: nat)
    requires IsFirstMax(p, n, m1) && IsFirstMax(p, n, m2)
    ensures m1 == m2
  {
    assert p[m1] <= p[m2] && p[m2] <= p[m1];
  }

  /** There is only one first lowest day. */
  lemma FirstMinUnique(p: seq<real>, n: nat, m1: nat, m2: nat)
    requires IsFirstMin(p, n, m1) && IsFirstMin(p, n, m2)
    ensures m1 == m2
  {
    assert p[m1] <= p[m2] && p[m2] <= p[m1];
  }

  /** What exercise_c reports for positive prices: sell on the first day of the highest
      price, buy on the first day of the lowest price up to then; no opportunity when no
      price exceeds the first day's. */
  function HeuristicTrade(p: seq<real>): (r: TradeReport)
    requires |p| >= 1
    ensures r.Deal? ==> r.pair.buyDate < r.pair.sellDate < |p|
  {
    var m := FirstMaxIndex(p, |p|);
    if m == 0 then NoOpportunity
    else
      var b := FirstMinIndex(p, m + 1);
      Deal(Pair(p[b], p[m], b, m))
  }

  /** The report with its day indices stored in uint8_t fields. */
  function Stored(report: TradeReport): (r: TradeReport)
    ensures r.Deal? <==> report.Deal?
    ensures r.Deal? ==> InDayRange(r.pair)
  {
    match report
    case NoOpportunity => NoOpportunity
    case Deal(t) => Deal(t.(buyDate := t.buyDate % U8, sellDate := t.sellDate % U8))
  }

  ghost predicate AllPositive(p: seq<real>)
  {
    forall k :: 0 <= k < |p| ==> p[k] > 0.0
  }

  /** The candidate pairs after days 0 .. i-1 of a positive series, with m the first
      highest day, lo the first lowest day and b the first lowest day up to m: while day 0
      is the highest, one pair buys on lo and has no sell; afterwards the first pair buys
      on b and sells on m, and a second pair is open only when a lower price came after m,
      buying on lo with no sell. */
  ghost predicate TrackerState(p: seq<real>, i: nat, m: nat, lo: nat, b: nat, pair0: Pair, pair1: Pair, numPairs: int)
  {
    && IsFirstMax(p, i, m) && IsFirstMin(p, i, lo) && IsFirstMin(p, m + 1, b)
    && (numPairs == 1 || numPairs == 2)
    && (m == 0 ==> numPairs == 1 && pair0 == Pair(p[lo], 0.0, lo % U8, 0))
    && (m > 0 ==> pair0 == Pair(p[b], p[m], b % U8, m % U8))
    && (m > 0 && numPairs == 1 ==> lo == b)
    && (numPairs == 2 ==> m > 0 && m < lo && pair1 == Pair(p[lo], 0.0, lo % U8, 0))
  }

  /** exercise_c: one pass keeping a running minimum and maximum and up to two candidate
      pairs (the two-element `pair` array of the source, held here in two variables); a
      zero sell price marks a pair without a sell day. The reported pair's days are
      converted to dates. Its outcome is stated for positive prices, where the zero marker
      cannot collide with a price. */
  method ExerciseC(data: DailySeries) returns (report: TradeReport, dateBuy: Date, dateSell: Date)
    requires data.Valid() && data.price.Length >= 1 && data.dateBegin.month <= 13
    ensures data.numEntries == 0 ==> report == NoOpportunity
    ensures data.numEntries >= 1 && AllPositive(data.price[..data.numEntries]) ==>
      report == Stored(HeuristicTrade(data.price[..data.numEntries]))
    ensures report.Deal? ==>
      && IsCalendarDate(dateBuy) && DayCount(dateBuy) == ShiftedDayCount(data.dateBegin, report.pair.buyDate)
      && IsCalendarDate(dateSell) && DayCount(dateSell) == ShiftedDayCount(data.dateBegin, report.pair.sellDate)
  {
    var range := data.numEntries;
    var price := data.price;
    ghost var p := price[..range];
    ghost var pos := range >= 1 && AllPositive(p);
    var pair0 := Pair(price[0], 0.0, 0, 0);
    var pair1 := Pair(0.0, 0.0, 0, 0);
    var numPairs := 1;
    var priceMin := price[0];
    var priceMax := price[0];
    ghost var m: nat, lo: nat, b: nat := 0, 0, 0;
    var i := 0;
    while i < range
      invariant 0 <= i <= range
      invariant numPairs == 1 || numPairs == 2
      invariant InDayRange(pair0) && InDayRange(pair1)
      invariant i == 0 ==> priceMax == price[0] && priceMin == price[0] && numPairs == 1
      invariant i == 0 ==> pair0 == Pair(price[0], 0.0, 0, 0) && m == 0 && lo == 0 && b == 0
      invariant pos && i >= 1 ==> TrackerState(p, i, m, lo, b, pair0, pair1, numPairs)
      invariant pos && i >= 1 ==> priceMax == p[m] && priceMin == p[lo]
    {
      priceMin, priceMax, pair0, pair1, numPairs, m, lo, b :=
        TrackExtremes(price[i], i, priceMin, priceMax, pair0, pair1, numPairs, p, pos, m, lo, b);
      pair0, pair1, numPairs := SettlePairs(price[i], i, pair0, pair1, numPairs, p, pos, m, lo, b);
      i := i + 1;
    }
    if pair0.sellPrice > 0.0 {
      report := Deal(pair0);
      dateBuy := DayToDate(data.dateBegin, pair0.buyDate);
      dateSell := DayToDate(data.dateBegin, pair0.sellDate);
    } else {
      report := NoOpportunity;
      dateBuy, dateSell := data.dateBegin, data.dateBegin;
    }
    if pos {
      TrackerResult(p, m, lo, b, pair0, pair1, numPairs);
    }
  }

  /** Both day indices of a pair fit their uint8_t fields. */
  predicate InDayRange(t: Pair)
  {
    t.buyDate < U8 && t.sellDate < U8
  }

  /** The first half of a day of exercise_c: a new highest price sells the first pair on
      this day (after the open second pair, if any, took its place), a new lowest price
      moves the buy day of a pair without a sell or opens a second pair. */
  method TrackExtremes(x: real, i: nat, priceMin: real, priceMax: real, pair0: Pair, pair1: Pair, numPairs: int,
                       ghost p: seq<real>, ghost pos: bool, ghost m: nat, ghost lo: nat, ghost b: nat)
    returns (newMin: real, newMax: real, newPair0: Pair, newPair1: Pair, newNumPairs: int,
             ghost m': nat, ghost lo': nat, ghost b': nat)
    requires i < |p| && x == p[i] && (pos ==> AllPositive(p))
    requires (numPairs == 1 || numPairs == 2) && InDayRange(pair0) && InDayRange(pair1)
    requires i == 0 ==> priceMax == x && priceMin == x && numPairs == 1 && pair0 == Pair(x, 0.0, 0, 0) && m == 0 && lo == 0 && b == 0
    requires pos && i >= 1 ==> TrackerState(p, i, m, lo, b, pair0, pair1, numPairs) && priceMax == p[m] && priceMin == p[lo]
    ensures (newNumPairs == 1 || newNumPairs == 2) && InDayRange(newPair0) && InDayRange(newPair1)
    ensures pos ==> TrackerState(p, i + 1, m', lo', b', newPair0, newPair1, newNumPairs)
    ensures pos ==> newMax == p[m'] && newMin == p[lo']
  {
    newMin, newMax, newPair0, newPair1, newNumPairs := priceMin, priceMax, pair0, pair1, numPairs;
    m', lo', b' := m, lo, b;
    if x > priceMax {
      newMax := x;
      if numPairs > 1 {
        newPair0 := pair1;
        newNumPairs := 1;
      }
      newPair0 := newPair0.(sellDate := i % U8, sellPrice := x);
      if pos {
        NewMaxKeepsTracker(p, i, m, lo, b, pair0, pair1, numPairs);
      }
      m', b' := i, lo;
    } else if x < priceMin {
      newMin := x;
      if pair0.sellPrice == 0.0 {
        newPair0 := pair0.(buyDate := i % U8, buyPrice := x);
      } else {
        newNumPairs := 2;
        newPair1 := Pair(x, 0.0, i % U8, 0);
      }
      if pos {
        NewMinKeepsTracker(p, i, m, lo, b, pair0, pair1, numPairs);
      }
      lo' := i;
    } else if pos {
      if i == 0 {
        TrackerStart(p, pair1);
      } else {
        QuietKeepsTracker(p, i, m, lo, b, pair0, pair1, numPairs);
      }
    }
  }

  /** The second half of a day of exercise_c: an open second pair takes a higher sell
      price, and replaces the first pair when its gain is larger. With positive prices
      this changes nothing. */
  method SettlePairs(x: real, i: nat, pair0: Pair, pair1: Pair, numPairs: int,
                     ghost p: seq<real>, ghost pos: bool, ghost m: nat, ghost lo: nat, ghost b: nat)
    returns (newPair0: Pair, newPair1: Pair, newNumPairs: int)
    requires i < |p| && (pos ==> AllPositive(p))
    requires (numPairs == 1 || numPairs == 2) && InDayRange(pair0) && InDayRange(pair1)
    requires pos ==> TrackerState(p, i + 1, m, lo, b, pair0, pair1, numPairs)
    ensures (newNumPairs == 1 || newNumPairs == 2) && InDayRange(newPair0) && InDayRange(newPair1)
    ensures pos ==> newPair0 == pair0 && newPair1 == pair1 && newNumPairs == numPairs
  {
    newPair0, newPair1, newNumPairs := pair0, pair1, numPairs;
    if pos && numPairs > 1 {
      TrackerNeverSwaps(p, i + 1, m, lo, b, pair0, pair1, numPairs);
    }
    if numPairs > 1 {
      if pair1.sellPrice < x && pair1.sellPrice > 0.0 {
        newPair1 := pair1.(sellPrice := x, sellDate := i % U8);
      }
      if (newPair1.sellPrice - newPair1.buyPrice) - (pair0.sellPrice - pair0.buyPrice) > 0.0 {
        newPair0 := newPair1;
        newNumPairs := 1;
      }
    }
  }

  /** Before day 0 is scanned: one pair buying on day 0, no sell. */
  lemma TrackerStart(p: seq<real>, pair1: Pair)
    requires |p| >= 1
    ensures TrackerState(p, 1, 0, 0, 0, Pair(p[0], 0.0, 0, 0), pair1, 1)
  {
  }

  /** A new highest price: the open second pair, if any, replaces the first, which then
      sells on this day. */
  lemma NewMaxKeepsTracker(p: seq<real>, i: nat, m: nat, lo: nat, b: nat, pair0: Pair, pair1: Pair, numPairs: int)
    requires i < |p| && TrackerState(p, i, m, lo, b, pair0, pair1, numPairs)
    requires p[i] > p[m]
    ensures var base := if numPairs > 1 then pair1 else pair0;
      TrackerState(p, i + 1, i, lo, lo, base.(sellDate := i % U8, sellPrice := p[i]), pair1, 1)
  {
  }

  /** A new lowest price: before any sell it moves the first pair's buy day, after one it
      opens a second pair. */
  lemma NewMinKeepsTracker(p: seq<real>, i: nat, m: nat, lo: nat, b: nat, pair0: Pair, pair1: Pair, numPairs: int)
    requires i < |p| && AllPositive(p) && TrackerState(p, i, m, lo, b, pair0, pair1, numPairs)
    requires !(p[i] > p[m]) && p[i] < p[lo]
    ensures pair0.sellPrice == 0.0 ==>
      TrackerState(p, i + 1, m, i, b, pair0.(buyDate := i % U8, buyPrice := p[i]), pair1, numPairs)
    ensures pair0.sellPrice != 0.0 ==>
      TrackerState(p, i + 1, m, i, b, pair0, Pair(p[i], 0.0, i % U8, 0), 2)
  {
  }

  /** A day that is neither a new highest nor a new lowest price changes nothing. */
  lemma QuietKeepsTracker(p: seq<real>, i: nat, m: nat, lo: nat, b: nat, pair0: Pair, pair1: Pair, numPairs: int)
    requires i < |p| && TrackerState(p, i, m, lo, b, pair0, pair1, numPairs)
    requires !(p[i] > p[m]) && !(p[i] < p[lo])
    ensures TrackerState(p, i + 1, m, lo, b, pair0, pair1, numPairs)
  {
  }

  /** With positive prices an open second pair has no sell, so it is never raised, and its
      negative gain never beats the first pair's: the replacement at the end of a day does
      not happen. */
  lemma TrackerNeverSwaps(p: seq<real>, i: nat, m: nat, lo: nat, b: nat, pair0: Pair, pair1: Pair, numPairs: int)
    requires AllPositive(p) && TrackerState(p, i, m, lo, b, pair0, pair1, numPairs)
    requires numPairs == 2
    ensures pair1.sellPrice == 0.0
    ensures (pair1.sellPrice - pair1.buyPrice) - (pair0.sellPrice - pair0.buyPrice) <= 0.0
  {
    assert p[b] <= p[0] <= p[m];
  }

  /** After the last day, the first pair is the heuristic's answer. */
  lemma TrackerResult(p: seq<real>, m: nat, lo: nat, b: nat, pair0: Pair, pair1: Pair, numPairs: int)
    requires |p| >= 1 && AllPositive(p) && TrackerState(p, |p|, m, lo, b, pair0, pair1, numPairs)
    ensures (if pair0.sellPrice > 0.0 then Deal(pair0) else NoOpportunity) == Stored(HeuristicTrade(p))
  {
    FirstMaxUnique(p, |p|, m, FirstMaxIndex(p, |p|));
    FirstMinUnique(p, m + 1, b, FirstMinIndex(p, m + 1));
  }

  /** A reported trade sells after it buys, and at a higher price. */
  lemma HeuristicTradeIsProfitable(p: seq<real>)
    requires |p| >= 1
    ensures HeuristicTrade(p).Deal? ==>
      var t := HeuristicTrade(p).pair;
      t.buyDate < t.sellDate < |p| && t.buyPrice == p[t.buyDate] && t.sellPrice == p[t.sellDate]
      && t.buyPrice < t.sellPrice
  {
  }

  /** No opportunity is reported exactly when no price exceeds the first day's. */
  lemma HeuristicNoOpportunity(p: seq<real>)
    requires |p| >= 1
    ensures HeuristicTrade(p) == NoOpportunity <==> forall k :: 0 <= k < |p| ==> p[k] <= p[0]
  {
  }

  /** A trade exists with a positive gain. */
  ghost predicate HasGain(p: seq<real>)
  {
    exists i, j :: 0 <= i < j < |p| && p[i] < p[j]
  }

  /** exercise_c as evidently intended: a pair of days, buy before sell, with the largest
      gain; no opportunity exactly when prices never rise. */
  method BestTrade(p: seq<real>) returns (report: TradeReport)
    ensures report == NoOpportunity <==> !HasGain(p)
    ensures report.Deal? ==>
      var t := report.pair;
      && t.buyDate < t.sellDate < |p| && t.buyPrice == p[t.buyDate] && t.sellPrice == p[t.sellDate]
      && t.buyPrice < t.sellPrice
      && forall i, j :: 0 <= i < j < |p| ==> p[j] - p[i] <= t.sellPrice - t.buyPrice
  {
    report := NoOpportunity;
    if |p| == 0 {
      return;
    }
    var minDay := 0;
    var i := 1;
    while i < |p|
      invariant 1 <= i <= |p| && minDay < i
      invariant forall k :: 0 <= k < i ==> p[minDay] <= p[k]
      invariant report == NoOpportunity ==> forall a: nat, b: nat :: 0 <= a < b < i ==> p[b] <= p[a]
      invariant report.Deal? ==>
        var t := report.pair;
        && t.buyDate < t.sellDate < i && t.buyPrice == p[t.buyDate] && t.sellPrice == p[t.sellDate]
        && t.buyPrice < t.sellPrice
        && forall a: nat, b: nat :: 0 <= a < b < i ==> p[b] - p[a] <= t.sellPrice - t.buyPrice
    {
      var bestGain := if report.Deal? then report.pair.sellPrice - report.pair.buyPrice else 0.0;
      if p[i] - p[minDay] > bestGain {
        report := Deal(Pair(p[minDay], p[i], minDay, i));
      }
      if p[i] < p[minDay] {
        minDay := i;
      }
      i := i + 1;
    }
  }

  /** Every trade the heuristic reports is a real gain, so it is never better than the
      best trade; and when the lowest price comes before the highest, it is the best. */
  lemma HeuristicAgainstBest(p: seq<real>)
    requires |p| >= 1
    ensures HeuristicTrade(p).Deal? ==> HasGain(p)
    ensures FirstMinIndex(p, |p|) < FirstMaxIndex(p, |p|) ==>
      && HeuristicTrade(p).Deal?
      && forall i, j :: 0 <= i < j < |p| ==>
           p[j] - p[i] <= HeuristicTrade(p).pair.sellPrice - HeuristicTrade(p).pair.buyPrice
  {
    var m := FirstMaxIndex(p, |p|);
    if m > 0 {
      var b := FirstMinIndex(p, m + 1);
      assert p[b] <= p[0] < p[m];
      var lo := FirstMinIndex(p, |p|);
      if lo < m {
        assert p[b] <= p[lo];
      }
    }
  }

  /** The series in which the heuristic finds nothing although buying on day 1 and selling
      on day 4 gains 5. */
  lemma HeuristicMissesGain()
    ensures HeuristicTrade([7.0, 1.0, 5.0, 3.0, 6.0, 4.0]) == NoOpportunity
    ensures HasGain([7.0, 1.0, 5.0, 3.0, 6.0, 4.0])
  {
    var p := [7.0, 1.0, 5.0, 3.0, 6.0, 4.0];
    HeuristicNoOpportunity(p);
    assert p[1] < p[4];
  }

  /** Prices that only fall offer no trade. */
  lemma FallingPricesNoTrade()
    ensures HeuristicTrade([9.0, 8.0, 7.0, 6.0]) == NoOpportunity
    ensures !HasGain([9.0, 8.0, 7.0, 6.0])
  {
    HeuristicNoOpportunity([9.0, 8.0, 7.0, 6.0]);
  }
}
