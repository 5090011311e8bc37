/**
  The daily-series builder of main.c: process_json_data turns the `[timestamp_ms, value]`
  samples of the response's "prices", "market_caps" and "total_volumes" arrays into one
  value per calendar day, in place in the arrays of the `data_t` record; and the
  classification in `main` that decides from the response size whether the samples are
  already daily.

  The parsed JSON object is given as its entries in document order (name and samples);
  the JSON parser itself is not part of this model. Prices, volumes and market caps are
  C doubles, modelled as `real`: only comparison and subtraction are applied to them.
 */
module Series {
  import opened CSemantics
  import opened Calendar
  import opened Bucketing

  /** One entry of the response object: its key and its array of samples. */
  datatype Entry = Entry(name: string, samples: seq<Sample>)

  /** The three arrays of `data_t` that a key can be routed to. */
  datatype Column = Prices | MarketCaps | TotalVolumes

  /** The abstract contents of the four arrays of `data_t`. */
  datatype Buffers = Buffers(timestamp: seq<int>, price: seq<real>, volume: seq<real>, marketCap: seq<real>)

  /** The key that names a column in the response. */
  function KeyName(col: Column): string
  {
    match col
    case Prices => "prices"
    case MarketCaps => "market_caps"
    case TotalVolumes => "total_volumes"
  }

  /** The key comparison with strcmp, in the order prices, market_caps, total_volumes:
      a key is routed to a column whose name strcmp matches; anything else ends the
      processing. */
  function ColumnOf(name: string): (r: Option<Column>)
    ensures r.Some? ==> Strcmp(name, KeyName(r.value)) == 0
  {
    if Strcmp(name, "prices") == 0 then Some(Prices)
    else if Strcmp(name, "market_caps") == 0 then Some(MarketCaps)
    else if Strcmp(name, "total_volumes") == 0 then Some(TotalVolumes)
    else None
  }

  // ----- The whole object -----

  /** The samples each day gets: positional in daily mode, bucketed otherwise. */
  function Picks(s: seq<Sample>, base: int, ne: nat, notDaily: bool): (r: seq<nat>)
    requires notDaily ==> |s| >= 1 && ne >= 1
    ensures forall d :: 0 <= d < |r| ==> r[d] < |s|
    ensures notDaily ==> |r| <= ne
    ensures !notDaily ==> |r| == |s|
  {
    if notDaily then BucketPicks(s, base, ne) else Range(|s|)
  }

  /** What the caller must guarantee of an array that gets processed: in daily mode it
      must fit the buffers (there is no bound check against num_entries); in sub-daily mode
      it must be non-empty (its first sample is read unconditionally) and at least one day
      must be allocated. */
  predicate Fits(s: seq<Sample>, width: nat, ne: nat, notDaily: bool)
  {
    |s| < U32 &&
    if notDaily then |s| >= 1 && 1 <= ne <= width else |s| <= width
  }

  /** A key is routed nowhere exactly when strcmp matches none of the three names. */
  lemma ColumnOfNone(name: string)
    ensures ColumnOf(name).None? <==> forall col: Column :: Strcmp(name, KeyName(col)) != 0
  {
    if ColumnOf(name).None? {
      forall col: Column
        ensures Strcmp(name, KeyName(col)) != 0
      {
      }
    }
  }

  /** The three keys the program looks for are told apart by strcmp. */
  lemma PricesKey()
    ensures ColumnOf("prices") == Some(Prices)
  {
  }

  lemma MarketCapsKey()
    ensures ColumnOf("market_caps") == Some(MarketCaps)
  {
  }

  lemma TotalVolumesKey()
    ensures ColumnOf("total_volumes") == Some(TotalVolumes)
  {
  }

  /** For key names without a NUL character, strcmp routes a key to a column exactly
      when it is that column's name. */
  lemma PricesOnlyByName(name: string)
    requires NoNul(name)
    ensures ColumnOf(name) == Some(Prices) <==> name == "prices"
  {
    StrcmpZeroIffEqual(name, "prices");
  }

  lemma MarketCapsOnlyByName(name: string)
    requires NoNul(name)
    ensures ColumnOf(name) == Some(MarketCaps) <==> name == "market_caps"
  {
    StrcmpZeroIffEqual(name, "market_caps");
    if name == "market_caps" {
      MarketCapsKey();
    }
  }

  lemma TotalVolumesOnlyByName(name: string)
    requires NoNul(name)
    ensures ColumnOf(name) == Some(TotalVolumes) <==> name == "total_volumes"
  {
    StrcmpZeroIffEqual(name, "total_volumes");
    if name == "total_volumes" {
      TotalVolumesKey();
    }
  }

  /** The number of leading entries whose key names a column: processing stops at the
      first other key. */
  function KnownPrefix(entries: seq<Entry>): (n: nat)
    ensures n <= |entries|
  {
    if entries == [] || ColumnOf(entries[0].name).None? then 0
    else 1 + KnownPrefix(entries[1..])
  }

  /** An entry inside the scanned range lies before the first unknown key exactly when
      its own key is known. */
  lemma {:induction false} KnownPrefixAt(entries: seq<Entry>, i: nat)
    requires i <= KnownPrefix(entries) && i < |entries|
    ensures i < KnownPrefix(entries) <==> ColumnOf(entries[i].name).Some?
    decreases i
  {
    if i > 0 {
      KnownPrefixAt(entries[1..], i - 1);
    }
  }

  /** All entries are processed exactly when every key is known. */
  lemma {:induction false} AllKnownIff(entries: seq<Entry>)
    ensures AllKnown(entries) <==> KnownPrefix(entries) == |entries|
    decreases |entries|
  {
    if KnownPrefix(entries) == |entries| {
      forall k | 0 <= k < |entries|
        ensures ColumnOf(entries[k].name).Some?
      {
        KnownPrefixAt(entries, k);
      }
    } else if entries != [] && ColumnOf(entries[0].name).Some? {
      AllKnownIff(entries[1..]);
      if AllKnown(entries) {
        assert AllKnown(entries[1..]) by {
          forall k | 0 <= k < |entries| - 1
            ensures ColumnOf(entries[1..][k].name).Some?
          {
            assert entries[1..][k] == entries[k + 1];
          }
        }
      }
    }
  }

  /** Every entry that gets processed fits. */
  predicate Processable(entries: seq<Entry>, width: nat, ne: nat, notDaily: bool)
  {
    forall k :: 0 <= k < KnownPrefix(entries) ==> Fits(entries[k].samples, width, ne, notDaily)
  }

  predicate AllKnown(entries: seq<Entry>)
  {
    forall k :: 0 <= k < |entries| ==> ColumnOf(entries[k].name).Some?
  }

  predicate Shaped(b: Buffers)
  {
    |b.timestamp| == |b.price| == |b.volume| == |b.marketCap|
  }

  /** The buffers after one array is written: its column and the shared timestamp array. */
  function Written(b: Buffers, col: Column, secs: seq<int>, vals: seq<real>): (r: Buffers)
    requires Shaped(b) && |secs| <= |b.timestamp| && |vals| <= |b.price|
    ensures Shaped(r)
  {
    var ts := Overlay(b.timestamp, secs);
    match col
    case Prices => b.(timestamp := ts, price := Overlay(b.price, vals))
    case MarketCaps => b.(timestamp := ts, marketCap := Overlay(b.marketCap, vals))
    case TotalVolumes => b.(timestamp := ts, volume := Overlay(b.volume, vals))
  }

  /** The buffers after the first n entries, all with known keys, are processed in order. */
  function Through(b: Buffers, entries: seq<Entry>, n: nat, base: int, ne: nat, notDaily: bool): (r: Buffers)
    requires Shaped(b) && n <= KnownPrefix(entries) && Processable(entries, |b.price|, ne, notDaily)
    ensures Shaped(r) && |r.price| == |b.price|
  {
    if n == 0 then b
    else
      KnownPrefixAt(entries, n - 1);
      var s := entries[n - 1].samples;
      var picks := Picks(s, base, ne, notDaily);
      Written(Through(b, entries, n - 1, base, ne, notDaily), ColumnOf(entries[n - 1].name).value,
              SecondsAt(s, picks), ValuesAt(s, picks))
  }

  /** Processing one more known entry writes its chosen samples over the buffers. */
  lemma ThroughStep(b: Buffers, entries: seq<Entry>, n: nat, base: int, ne: nat, notDaily: bool)
    requires Shaped(b) && n < KnownPrefix(entries) && Processable(entries, |b.price|, ne, notDaily)
    ensures ColumnOf(entries[n].name).Some?
    ensures Fits(entries[n].samples, |b.price|, ne, notDaily)
    ensures var s := entries[n].samples;
      var picks := Picks(s, base, ne, notDaily);
      Through(b, entries, n + 1, base, ne, notDaily) ==
        Written(Through(b, entries, n, base, ne, notDaily), ColumnOf(entries[n].name).value,
                SecondsAt(s, picks), ValuesAt(s, picks))
  {
    KnownPrefixAt(entries, n);
  }

  /** The buffers after the entries are processed in order, stopping at the first
      unknown key. */
  function AfterEntries(b: Buffers, entries: seq<Entry>, base: int, ne: nat, notDaily: bool): (r: Buffers)
    requires Shaped(b) && Processable(entries, |b.price|, ne, notDaily)
    ensures Shaped(r) && |r.price| == |b.price|
  {
    Through(b, entries, KnownPrefix(entries), base, ne, notDaily)
  }

  function LastLength(entries: seq<Entry>): nat
  {
    if entries == [] then 0 else |entries[|entries| - 1].samples|
  }

  /** The shrink at the end of process_json_data, with its C conversions:
      `day = array_length - 1` in uint32_t, compared with `num_entries - 1` converted to
      unsigned, and `num_entries = day + 1` stored back into uint16_t. */
  function ShrunkCount(ne: nat, arrayLength: nat): (r: nat)
    ensures ne < U16 ==> r < U16
    ensures 1 <= ne < U16 ==> 1 <= r <= ne
  {
    var day := (arrayLength - 1) % U32;
    if day < (ne - 1) % U32 then ((day + 1) % U32) % U16 else ne
  }

  /** For a non-empty series the shrink takes the minimum with the last array's length and
      never grows the series; an empty last array leaves it as it was. */
  lemma ShrunkCountIsMin(ne: nat, arrayLength: nat)
    requires 1 <= ne < U16 && arrayLength < U32
    ensures arrayLength >= 1 ==> ShrunkCount(ne, arrayLength) == if arrayLength < ne then arrayLength else ne
    ensures arrayLength == 0 ==> ShrunkCount(ne, arrayLength) == ne
    ensures ShrunkCount(ne, arrayLength) <= ne
  {
  }

  /** The shrunk count still fits the buffers: either the series was non-empty, or (daily
      data) the last array, which was copied 1:1, fitted them. */
  lemma ShrunkCountFits(ne: nat, arrayLength: nat, width: nat)
    requires ne <= width && ne < U16 && arrayLength < U32
    requires ne >= 1 || arrayLength <= width
    ensures ShrunkCount(ne, arrayLength) <= width && ShrunkCount(ne, arrayLength) < U16
  {
  }

  /** In sub-daily mode the shrink compares the number of samples, not the number of days
      they filled: three hourly samples of the first day, with three days requested, fill
      days 0 and 1 only, yet num_entries stays 3 and day 2 is never written. */
  lemma ShrinkCountsSamplesNotDays()
    ensures var s := [Sample(0, 1.0), Sample(3600000, 2.0), Sample(7200000, 3.0)];
      |BucketPicks(s, 0, 3)| == 2 && ShrunkCount(3, |s|) == 3 && ReceivedDays(3, s, 0, true) == 2
  {
    var s := [Sample(0, 1.0), Sample(3600000, 2.0), Sample(7200000, 3.0)];
    assert Seconds(s[1]) == 3600 && Midnight(0, 1) == 86400;
    assert !Qualifies(s, 0, 1, 1) && Qualifies(s, 0, 1, 2);
    assert BucketPicks(s, 0, 3) == PicksFrom(s, 0, 3, 1, [0]);
    assert PicksFrom(s, 0, 3, 1, [0]) == PicksFrom(s, 0, 3, 2, [0]);
    assert PicksFrom(s, 0, 3, 2, [0]) == PicksFrom(s, 0, 3, 3, [0, 2]);
  }

  /** The shrink as evidently intended: the number of days the last array filled, capped
      by num_entries, so that no day within num_entries is left unwritten by it. */
  function ReceivedDays(ne: nat, s: seq<Sample>, base: int, notDaily: bool): (r: nat)
    requires notDaily ==> |s| >= 1 && ne >= 1
    ensures r <= ne && r <= |Picks(s, base, ne, notDaily)|
    ensures r == ne || r == |Picks(s, base, ne, notDaily)|
  {
    var filled := |Picks(s, base, ne, notDaily)|;
    if filled < ne then filled else ne
  }

  /** For daily data, where each sample fills one day, the intended shrink is the one the
      program performs; for sub-daily data it is the number of days the bucketing filled. */
  lemma ReceivedDaysAgrees(ne: nat, s: seq<Sample>, base: int)
    requires 1 <= ne < U16 && 1 <= |s| < U32
    ensures ReceivedDays(ne, s, base, false) == ShrunkCount(ne, |s|)
    ensures ReceivedDays(ne, s, base, true) == |BucketPicks(s, base, ne)|
  {
    ShrunkCountIsMin(ne, |s|);
  }

  /** A later, at least as long, write of the shared timestamp array hides an earlier one. */
  lemma OverlayTwice<T>(before: seq<T>, x: seq<T>, y: seq<T>)
    requires |x| <= |y| <= |before|
    ensures Overlay(Overlay(before, x), y) == Overlay(before, y)
  {
  }

  /** The response as the API sends it, with its three keys (any names strcmp matches to
      "prices", "market_caps" and "total_volumes") in that order: each column gets the
      samples chosen from its own array, and the shared timestamp array keeps, in the days
      written last, the timestamps of the total volumes, the last key processed. */
  lemma ResponseInApiOrder(b: Buffers, pricesKey: string, capsKey: string, volumesKey: string,
                           prices: seq<Sample>, caps: seq<Sample>, volumes: seq<Sample>,
                           base: int, ne: nat, notDaily: bool)
    requires ColumnOf(pricesKey) == Some(Prices) && ColumnOf(capsKey) == Some(MarketCaps)
    requires ColumnOf(volumesKey) == Some(TotalVolumes)
    requires Shaped(b)
    requires Fits(prices, |b.price|, ne, notDaily) && Fits(caps, |b.price|, ne, notDaily)
    requires Fits(volumes, |b.price|, ne, notDaily)
    ensures
      var entries := [Entry(pricesKey, prices), Entry(capsKey, caps), Entry(volumesKey, volumes)];
      var pp := Picks(prices, base, ne, notDaily);
      var pc := Picks(caps, base, ne, notDaily);
      var pv := Picks(volumes, base, ne, notDaily);
      Processable(entries, |b.price|, ne, notDaily)
      && AfterEntries(b, entries, base, ne, notDaily) ==
        Buffers(Overlay(Overlay(Overlay(b.timestamp, SecondsAt(prices, pp)), SecondsAt(caps, pc)), SecondsAt(volumes, pv)),
                Overlay(b.price, ValuesAt(prices, pp)),
                Overlay(b.volume, ValuesAt(volumes, pv)),
                Overlay(b.marketCap, ValuesAt(caps, pc)))
  {
    var entries := [Entry(pricesKey, prices), Entry(capsKey, caps), Entry(volumesKey, volumes)];
    assert AllKnown(entries);
    AllKnownIff(entries);
    assert Processable(entries, |b.price|, ne, notDaily);
    var pp := Picks(prices, base, ne, notDaily);
    var pc := Picks(caps, base, ne, notDaily);
    var pv := Picks(volumes, base, ne, notDaily);
    var b1 := Written(b, Prices, SecondsAt(prices, pp), ValuesAt(prices, pp));
    var b2 := Written(b1, MarketCaps, SecondsAt(caps, pc), ValuesAt(caps, pc));
    assert Through(b, entries, 1, base, ne, notDaily) == b1;
    assert Through(b, entries, 2, base, ne, notDaily) == b2;
  }

  /** Daily data with fewer samples than requested days: the series is shrunk to the
      samples received (5 requested days, 3 samples give 3 days). */
  lemma InsufficientDailyData()
    ensures ShrunkCount(5, 3) == 3
    ensures ShrunkCount(5, 7) == 5
  {
  }

  // ----- The data_t record -----

  /** The `data_t` record: begin date, number of days, and the four per-day arrays
      allocated with the requested number of days. */
  class DailySeries {
    var dateBegin: Date
    var numEntries: nat
    var timestamp: array<int>
    var price: array<real>
    var volume: array<real>
    var marketCap: array<real>

    ghost predicate Valid()
      reads this
    {
      && price != volume && price != marketCap && volume != marketCap
      && timestamp.Length == price.Length == volume.Length == marketCap.Length
      && numEntries <= price.Length && numEntries < U16
    }

    ghost function Contents(): (b: Buffers)
      reads this`timestamp, this`price, this`volume, this`marketCap, timestamp, price, volume, marketCap
      ensures Valid() ==> Shaped(b) && |b.price| == price.Length
    {
      Buffers(timestamp[..], price[..], volume[..], marketCap[..])
    }

    /** The allocation in `main`: four arrays of num_entries slots. */
    constructor (dateBegin: Date, numEntries: nat)
      requires numEntries < U16
      ensures Valid()
      ensures this.dateBegin == dateBegin && this.numEntries == numEntries && price.Length == numEntries
      ensures fresh(timestamp) && fresh(price) && fresh(volume) && fresh(marketCap)
    {
      this.dateBegin := dateBegin;
      this.numEntries := numEntries;
      timestamp := new int[numEntries];
      price := new real[numEntries];
      volume := new real[numEntries];
      marketCap := new real[numEntries];
    }

    /** One known key: its array fills the column it names, and the shared timestamp
        array. */
    method FillColumn(col: Column, samples: seq<Sample>, notDailyData: bool, ghost base: int)
      requires Valid()
      requires notDailyData ==> dateBegin.month <= 13 && base == Timestamp(dateBegin)
      requires Fits(samples, price.Length, numEntries, notDailyData)
      modifies timestamp, price, volume, marketCap
      ensures Valid()
      ensures var picks := Picks(samples, base, numEntries, notDailyData);
        Contents() == Written(old(Contents()), col, SecondsAt(samples, picks), ValuesAt(samples, picks))
    {
      var saved := match col
        case Prices => price
        case MarketCaps => marketCap
        case TotalVolumes => volume;
      if notDailyData {
        FillBucketed(saved, timestamp, samples, dateBegin, numEntries);
      } else {
        FillDaily(saved, timestamp, samples);
      }
    }

    /** process_json_data: routes each entry to its column, fills it (bucketed or 1:1),
      returns 1 at the first unknown key, and otherwise shrinks num_entries to what the
      last array delivered. The object is walked with a uint8_t index, so it must have
      fewer than 256 entries. */
    method ProcessJsonData(entries: seq<Entry>, notDailyData: bool) returns (status: int)
      requires Valid()
      requires |entries| < U8
      requires notDailyData ==> dateBegin.month <= 13
      requires Processable(entries, price.Length, numEntries, notDailyData)
      modifies this`numEntries, timestamp, price, volume, marketCap
      ensures Valid()
      ensures status == 0 || status == 1
      ensures status == 0 <==> AllKnown(entries)
      ensures Contents() == AfterEntries(old(Contents()), entries,
                                         if notDailyData then Timestamp(dateBegin) else 0,
                                         old(numEntries), notDailyData)
      ensures numEntries == if status == 0 then ShrunkCount(old(numEntries), LastLength(entries)) else old(numEntries)
    {
      ghost var base := if notDailyData then Timestamp(dateBegin) else 0;
      var known, arrayLength := FillEntries(entries, notDailyData, base);
      AllKnownIff(entries);
      if known < |entries| {
        return 1;
      }
      if known > 0 {
        assert Fits(entries[known - 1].samples, price.Length, numEntries, notDailyData);
      }
      ShrinkToReceived(arrayLength);
      status := 0;
    }

    /** The tail of process_json_data: num_entries drops to the length of the last array
        when that array delivered fewer days. */
    method ShrinkToReceived(arrayLength: nat)
      requires Valid() && arrayLength < U32
      requires numEntries >= 1 || arrayLength <= price.Length
      modifies this`numEntries
      ensures Valid()
      ensures numEntries == ShrunkCount(old(numEntries), arrayLength)
    {
      ShrunkCountFits(numEntries, arrayLength, price.Length);
      var day := (arrayLength - 1) % U32;
      if day < (numEntries - 1) % U32 {
        numEntries := ((day + 1) % U32) % U16;
      }
    }

    /** One pass of the loop of process_json_data for an entry with a known key. */
    method FillEntry(entries: seq<Entry>, n: nat, col: Column, notDailyData: bool, ghost base: int, ghost start: Buffers)
      requires Valid()
      requires notDailyData ==> dateBegin.month <= 13 && base == Timestamp(dateBegin)
      requires Shaped(start) && |start.price| == price.Length
      requires n < KnownPrefix(entries) && Some(col) == ColumnOf(entries[n].name)
      requires Processable(entries, price.Length, numEntries, notDailyData)
      requires Contents() == Through(start, entries, n, base, numEntries, notDailyData)
      modifies timestamp, price, volume, marketCap
      ensures Contents() == Through(start, entries, n + 1, base, numEntries, notDailyData)
    {
      ThroughStep(start, entries, n, base, numEntries, notDailyData);
      FillColumn(col, entries[n].samples, notDailyData, base);
    }

    /** The loop of process_json_data: the entries are filled in order up to the first
        unknown key; `arrayLength` is the length of the last array filled. */
    method FillEntries(entries: seq<Entry>, notDailyData: bool, ghost base: int) returns (known: nat, arrayLength: nat)
      requires Valid()
      requires notDailyData ==> dateBegin.month <= 13 && base == Timestamp(dateBegin)
      requires Processable(entries, price.Length, numEntries, notDailyData)
      modifies timestamp, price, volume, marketCap
      ensures known == KnownPrefix(entries)
      ensures Contents() == Through(old(Contents()), entries, known, base, numEntries, notDailyData)
      ensures known == |entries| ==> arrayLength == LastLength(entries)
    {
      ghost var start := Contents();
      arrayLength := 0;
      known := 0;
      while known < |entries|
        invariant known <= KnownPrefix(entries)
        invariant Contents() == Through(start, entries, known, base, numEntries, notDailyData)
        invariant arrayLength == if known == 0 then 0 else |entries[known - 1].samples|
      {
        var samples := entries[known].samples;
        arrayLength := |samples|;
        var col := ColumnOf(entries[known].name);
        KnownPrefixAt(entries, known);
        if col.None? {
          return;
        }
        FillEntry(entries, known, col.value, notDailyData, base, start);
        known := known + 1;
      }
    }
  }

  /** The sub-daily branch for one array: day 0 takes the first sample; then each sample
      either starts the next day (it is at or after that day's midnight, or it is the last
      sample) or is skipped, until num_entries days are filled. The tie-break that would
      prefer the previous sample is switched off by a constant flag in the source, so the
      found sample's value and timestamp are always used. */
  method FillBucketed(saved: array<real>, timestamp: array<int>, s: seq<Sample>, dateBegin: Date, ne: nat)
    requires |s| >= 1 && 1 <= ne <= saved.Length && ne <= timestamp.Length
    requires dateBegin.month <= 13
    modifies saved, timestamp
    ensures var picks := BucketPicks(s, Timestamp(dateBegin), ne);
      saved[..] == Overlay(old(saved[..]), ValuesAt(s, picks))
      && timestamp[..] == Overlay(old(timestamp[..]), SecondsAt(s, picks))
  {
    ghost var base := Timestamp(dateBegin);
    ghost var saved0, timestamp0 := saved[..], timestamp[..];
    var day: nat := 0;
    ChooseNext(saved0, timestamp0, s, [], 0);
    timestamp[day] := Seconds(s[0]);
    saved[day] := s[0].value;
    ghost var picks: seq<nat> := [0];
    var j: nat := 1;
    while j < |s|
      invariant 1 <= j <= |s| && |picks| == day + 1 && day < ne
      invariant forall d :: 0 <= d < |picks| ==> picks[d] < j
      invariant PicksFrom(s, base, ne, j, picks) == BucketPicks(s, base, ne)
      invariant saved[..] == Overlay(saved0, ValuesAt(s, picks))
      invariant timestamp[..] == Overlay(timestamp0, SecondsAt(s, picks))
    {
      if day == ne - 1 {
        break;
      }
      var timestampCur := Seconds(s[j]);
      var midnightBase := GetTimestamp(dateBegin);
      var timestampMidnight := midnightBase + ((day + 1) * SecondsPerDay) % U32;
      if timestampCur >= timestampMidnight || j == |s| - 1 {
        ChooseNext(saved0, timestamp0, s, picks, j);
        day := day + 1;
        timestamp[day] := timestampCur;
        saved[day] := s[j].value;
        picks := picks + [j];
      }
      j := j + 1;
    }
  }

  /** The daily branch for one array: sample j goes to day j, with no bound check against
      num_entries. */
  method FillDaily(saved: array<real>, timestamp: array<int>, s: seq<Sample>)
    requires |s| <= saved.Length && |s| <= timestamp.Length
    modifies saved, timestamp
    ensures saved[..] == Overlay(old(saved[..]), ValuesAt(s, Range(|s|)))
    ensures timestamp[..] == Overlay(old(timestamp[..]), SecondsAt(s, Range(|s|)))
  {
    var j := 0;
    while j < |s|
      invariant 0 <= j <= |s|
      invariant saved[..] == Overlay(old(saved[..]), ValuesAt(s, Range(j)))
      invariant timestamp[..] == Overlay(old(timestamp[..]), SecondsAt(s, Range(j)))
    {
      timestamp[j] := Seconds(s[j]);
      saved[j] := s[j].value;
      j := j + 1;
    }
  }

  // ----- Granularity -----

  /** The sampling interval of the response. */
  datatype Granularity = Daily | Hourly | FiveMinute

  lemma DivBelow(x: nat, n: nat, c: nat)
    requires n >= 1
    ensures x / n < c <==> x < c * n
  {
    var q := x / n;
    assert x == q * n + x % n;
    if q < c {
      assert q * n <= (c - 1) * n;
    } else {
      assert q * n >= c * n;
    }
  }

  /** The classification in `main`: a body under 100 bytes stops the program before it is
      reached (None); otherwise the (uint32_t) body size per requested day decides: under
      200 bytes a day is daily data, under 3000 hourly, else 5-minute. */
  function Classify(responseSize: nat, numEntries: nat): (g: Option<Granularity>)
    requires numEntries >= 1
    ensures g.None? <==> responseSize < 100
    ensures g.Some? ==> (g.value == Daily <==> responseSize % U32 < 200 * numEntries)
    ensures g.Some? ==> (g.value == FiveMinute <==> responseSize % U32 >= 3000 * numEntries)
  {
    DivBelow(responseSize % U32, numEntries, 200);
    DivBelow(responseSize % U32, numEntries, 3000);
    if responseSize < 100 then None
    else
      var perDay := (responseSize % U32) / numEntries;
      if perDay < 200 then Some(Daily)
      else if perDay < 3000 then Some(Hourly)
      else Some(FiveMinute)
  }

  /** The `not_daily_data` flag handed to process_json_data: only daily data switches
      the bucketing off. */
  function NotDailyData(g: Granularity): (r: bool)
    ensures r <==> Fineness(g) > 0
  {
    g != Daily
  }

  function Fineness(g: Granularity): nat
  {
    match g
    case Daily => 0
    case Hourly => 1
    case FiveMinute => 2
  }

  /** A larger response for the same number of days is never classified as coarser. */
  lemma ClassifyMonotone(size1: nat, size2: nat, numEntries: nat)
    requires numEntries >= 1 && 100 <= size1 <= size2 < U32
    ensures Classify(size1, numEntries).Some? && Classify(size2, numEntries).Some?
    ensures Fineness(Classify(size1, numEntries).value) <= Fineness(Classify(size2, numEntries).value)
  {
  }

  /** The sizes noted beside the classification: about 100 bytes a day for daily data,
      2400 for hourly and 14000 for 5-minute data. */
  lemma ClassifyExamples()
    ensures Classify(3000, 30) == Some(Daily) && !NotDailyData(Daily)
    ensures Classify(24000, 10) == Some(Hourly) && NotDailyData(Hourly)
    ensures Classify(28000, 2) == Some(FiveMinute) && NotDailyData(FiveMinute)
    ensures Classify(99, 1) == None
  {
  }
}
