/**
 * The events grid: a time-bounded search, the bucketing of its hits by calendar day
 * in the display time zone, and the grid that shows one column per day.
 */
module EventsGrid {
  import opened Wrappers
  import opened Sequences
  import opened StringOrder
  import opened Schemas

  /**
   * The requested window `[startTime, endTime]` and the conversion of a timestamp into an
   * ISO date-time string in the display time zone (an external library call, kept abstract).
   */
  datatype DateWindow = DateWindow(startTime: int, endTime: int, localIso: int -> string)

  /** `date >= startTime && date <= endTime`: inclusive at both ends. */
  predicate InWindow(t: int, w: DateWindow) {
    w.startTime <= t <= w.endTime
  }

  predicate HasStartInWindow(starts: seq<int>, w: DateWindow) {
    exists i :: 0 <= i < |starts| && InWindow(starts[i], w)
  }

  /** `t` is the earliest of the starts that lie in the window. */
  predicate IsEarliestInWindow(t: int, starts: seq<int>, w: DateWindow) {
    && t in starts
    && InWindow(t, w)
    && forall u :: u in starts && InWindow(u, w) ==> t <= u
  }

  /** The timestamp comparator `(dt1, dt2) => dt1 > dt2 ? 1 : -1`. */
  function TimeAfter(a: int, b: int): bool {
    a > b
  }

  lemma TimeAfterIsStrictTotalOrder()
    ensures StrictTotalOrder(TimeAfter)
  {
  }

  /** The `filter` step: the starts inside the window, in their original order. */
  function StartsInWindow(starts: seq<int>, w: DateWindow): (r: seq<int>)
    ensures forall t :: t in r <==> t in starts && InWindow(t, w)
    ensures |r| <= |starts|
  {
    if starts == [] then []
    else
      assert starts == [starts[0]] + starts[1..];
      (if InWindow(starts[0], w) then [starts[0]] else []) + StartsInWindow(starts[1..], w)
  }

  /** The `sort` step: the in-window starts, earliest first, the same starts as before sorting. */
  function SortedStarts(starts: seq<int>, w: DateWindow): (sorted: seq<int>)
    ensures multiset(sorted) == multiset(StartsInWindow(starts, w))
  {
    SortBy(StartsInWindow(starts, w), TimeAfter)
  }

  /** The sorted in-window starts are empty exactly when no start is in the window, and begin with the earliest one otherwise. */
  lemma SortedStartsInWindow(starts: seq<int>, w: DateWindow)
    ensures var sorted := SortedStarts(starts, w);
      && (|sorted| == 0 <==> !HasStartInWindow(starts, w))
      && (|sorted| > 0 ==> IsEarliestInWindow(sorted[0], starts, w))
  {
    var inWindow := StartsInWindow(starts, w);
    var sorted := SortedStarts(starts, w);
    if HasStartInWindow(starts, w) {
      var i :| 0 <= i < |starts| && InWindow(starts[i], w);
      assert starts[i] in inWindow;
      assert starts[i] in multiset(sorted);
    }
    if |sorted| > 0 {
      TimeAfterIsStrictTotalOrder();
      SortBySorted(inWindow, TimeAfter);
      assert sorted[0] in multiset(inWindow);
      forall u | u in starts && InWindow(u, w) ensures sorted[0] <= u {
        assert u in multiset(sorted);
        SortedHeadFirst(sorted, TimeAfter, u);
      }
      assert InWindow(sorted[0], w);
      assert starts[0] in starts;
    }
  }

  /** The first element of the filtered and sorted starts, or nothing when none is in the window. */
  function EarliestInWindow(starts: seq<int>, w: DateWindow): (r: Option<int>)
    ensures r.None? <==> !HasStartInWindow(starts, w)
    ensures r.Some? ==> IsEarliestInWindow(r.value, starts, w)
  {
    SortedStartsInWindow(starts, w);
    var sorted := SortedStarts(starts, w);
    if |sorted| == 0 then None else Some(sorted[0])
  }

  /** `localStart.substring(0, 10)`: the `YYYY-MM-DD` prefix, or the whole string when it is shorter. */
  function DateKey(iso: string): (key: string)
    ensures |key| == if |iso| < 10 then |iso| else 10
    ensures key == iso[..|key|]
  {
    if |iso| < 10 then iso else iso[..10]
  }

  /**
   * The bucket a hit is filed under: the date part of its earliest in-window start in the
   * display time zone, or nothing when it has no start in the window (the hit is skipped).
   */
  function BucketKey(hit: Hit, w: DateWindow): (key: Option<string>)
    ensures key.None? <==> !HasStartInWindow(hit.starts, w)
    ensures key.Some? ==> exists t :: IsEarliestInWindow(t, hit.starts, w) && key.value == DateKey(w.localIso(t))
  {
    match EarliestInWindow(hit.starts, w)
    case None => None
    case Some(t) => Some(DateKey(w.localIso(t)))
  }

  /**
   * The key as the source computes it: element 0 of the filtered, sorted starts, read
   * without checking that there is one.  Defined only where that element exists.
   */
  function BucketKeyAsWritten(hit: Hit, w: DateWindow): (key: string)
    requires HasStartInWindow(hit.starts, w)
    ensures BucketKey(hit, w) == Some(key)
  {
    SortedStartsInWindow(hit.starts, w);
    var sorted := SortedStarts(hit.starts, w);
    DateKey(w.localIso(sorted[0]))
  }

  /** A hit whose only start precedes the window: the list read at index 0 is empty, and the corrected key skips the hit. */
  lemma AsWrittenReadsEmptyList()
    ensures var w := DateWindow(100, 200, t => "2024-03-01T00:00:00");
      var hit := Hit("h", ["title"], [50], [60], None, None, None, None);
      && SortedStarts(hit.starts, w) == []
      && !HasStartInWindow(hit.starts, w)
      && BucketKey(hit, w) == None
  {
    var w := DateWindow(100, 200, t => "2024-03-01T00:00:00");
    assert StartsInWindow([50], w) == [];
  }

  /**
   * Whatever sorted arrangement of the in-window starts the sort delivers (the comparator
   * never answers 0, so ties are broken arbitrarily), its first element gives the same key.
   */
  lemma AnySortedOrderGivesSameKey(hit: Hit, w: DateWindow, sorted: seq<int>)
    requires multiset(sorted) == multiset(StartsInWindow(hit.starts, w))
    requires SortedBy(sorted, TimeAfter) && |sorted| > 0
    ensures BucketKey(hit, w) == Some(DateKey(w.localIso(sorted[0])))
  {
    var inWindow := StartsInWindow(hit.starts, w);
    TimeAfterIsStrictTotalOrder();
    SortBySorted(inWindow, TimeAfter);
    SortedPermutationsEqual(sorted, SortBy(inWindow, TimeAfter), TimeAfter);
  }

  /** The key function the bucketing applies to each hit for the window `w`. */
  function KeyOf(w: DateWindow): Hit -> Option<string> {
    h => BucketKey(h, w)
  }

  /*
   * The group-by below is stated for any key function `keyOf`; None means the hit is not filed.
   */

  /** The hits filed under `key`, in the order of `hits`: the reference definition of one bucket. */
  function Bucket(hits: seq<Hit>, keyOf: Hit -> Option<string>, key: string): (b: seq<Hit>)
    ensures forall h :: h in b ==> h in hits && keyOf(h) == Some(key)
    ensures |b| <= |hits|
  {
    if hits == [] then []
    else
      var last := hits[|hits| - 1];
      assert hits == hits[..|hits| - 1] + [last];
      Bucket(hits[..|hits| - 1], keyOf, key) + (if keyOf(last) == Some(key) then [last] else [])
  }

  /** The keys of all hits that are filed. */
  function DateKeys(hits: seq<Hit>, keyOf: Hit -> Option<string>): set<string> {
    set h | h in hits && keyOf(h).Some? :: keyOf(h).value
  }

  /** The reference grouping: each date key mapped to its bucket. */
  function Grouped(hits: seq<Hit>, keyOf: Hit -> Option<string>): map<string, seq<Hit>> {
    map k | k in DateKeys(hits, keyOf) :: Bucket(hits, keyOf, k)
  }

  /** The number of hits that are filed. */
  function CountKeyed(hits: seq<Hit>, keyOf: Hit -> Option<string>): (n: nat)
    ensures n <= |hits|
  {
    if hits == [] then 0
    else CountKeyed(hits[..|hits| - 1], keyOf) + (if keyOf(hits[|hits| - 1]).Some? then 1 else 0)
  }

  /** The bucket stored under `k`, or an empty one. */
  function EntriesOf(m: map<string, seq<Hit>>, k: string): seq<Hit> {
    if k in m then m[k] else []
  }

  /** The number of entries in the buckets named by `ks`. */
  function SizeSum(m: map<string, seq<Hit>>, ks: seq<string>): nat {
    if ks == [] then 0 else |EntriesOf(m, ks[0])| + SizeSum(m, ks[1..])
  }

  /**
   * The dictionary `structureByDate` builds: its keys in insertion order (the order
   * `Object.keys` reports for non-numeric keys such as `YYYY-MM-DD`; integer-like keys
   * would come first, in numeric order) and the bucket stored under each.  Only the
   * number of keys and their sorted order are used, so nothing depends on this order.
   */
  datatype EventsByDate = EventsByDate(keys: seq<string>, buckets: map<string, seq<Hit>>) {
    ghost predicate Valid() {
      && Distinct(keys)
      && forall k :: k in buckets <==> k in keys
    }

    /** The number of entries across all buckets. */
    function Total(): nat {
      SizeSum(buckets, keys)
    }
  }

  /** Hit `i` lies in the bucket of `key` exactly when `key` is its own key: in one bucket, or in none when it has no key. */
  lemma {:induction false} BucketMembership(hits: seq<Hit>, keyOf: Hit -> Option<string>, i: int, key: string)
    requires 0 <= i < |hits|
    ensures hits[i] in Bucket(hits, keyOf, key) <==> keyOf(hits[i]) == Some(key)
  {
    var n := |hits|;
    if i < n - 1 {
      BucketMembership(hits[..n - 1], keyOf, i, key);
    }
  }

  /** The positions in `hits` of the hits whose key is `key`, ascending. */
  function KeyPositions(hits: seq<Hit>, keyOf: Hit -> Option<string>, key: string): (ps: seq<int>)
    ensures forall j :: 0 <= j < |ps| ==> 0 <= ps[j] < |hits| && keyOf(hits[ps[j]]) == Some(key)
    ensures forall j, l :: 0 <= j < l < |ps| ==> ps[j] < ps[l]
  {
    if hits == [] then []
    else
      var n := |hits|;
      var rest := KeyPositions(hits[..n - 1], keyOf, key);
      rest + (if keyOf(hits[n - 1]) == Some(key) then [n - 1] else [])
  }

  /** Every position whose hit has key `key` is listed. */
  lemma {:induction false} KeyPositionsComplete(hits: seq<Hit>, keyOf: Hit -> Option<string>, key: string)
    ensures forall p :: 0 <= p < |hits| && keyOf(hits[p]) == Some(key) ==> p in KeyPositions(hits, keyOf, key)
  {
    if hits != [] {
      var n := |hits|;
      var init := hits[..n - 1];
      KeyPositionsComplete(init, keyOf, key);
      forall p | 0 <= p < n - 1 && keyOf(hits[p]) == Some(key) ensures p in KeyPositions(hits, keyOf, key) {
        assert hits[p] == init[p];
      }
    }
  }

  /** A bucket lists its hits in the order they have in `hits`: entry j is the hit at the j-th matching position. */
  lemma {:induction false} BucketKeepsHitOrder(hits: seq<Hit>, keyOf: Hit -> Option<string>, key: string)
    ensures var b, ps := Bucket(hits, keyOf, key), KeyPositions(hits, keyOf, key);
      |b| == |ps| && forall j :: 0 <= j < |b| ==> b[j] == hits[ps[j]]
  {
    if hits != [] {
      var n := |hits|;
      var init := hits[..n - 1];
      BucketKeepsHitOrder(init, keyOf, key);
      var filed := keyOf(hits[n - 1]) == Some(key);
      BucketAndPositionsSnoc(hits, keyOf, key);
      var b0, ps0 := Bucket(init, keyOf, key), KeyPositions(init, keyOf, key);
      var b, ps := Bucket(hits, keyOf, key), KeyPositions(hits, keyOf, key);
      forall j | 0 <= j < |b| ensures b[j] == hits[ps[j]] {
        if j < |b0| {
          assert b[j] == b0[j] == init[ps0[j]];
          assert ps[j] == ps0[j];
        }
      }
    }
  }

  /** One unfolding of `Bucket` and `KeyPositions` at the last hit. */
  lemma BucketAndPositionsSnoc(hits: seq<Hit>, keyOf: Hit -> Option<string>, key: string)
    requires hits != []
    ensures var n := |hits|; var filed := keyOf(hits[n - 1]) == Some(key);
      && Bucket(hits, keyOf, key) == Bucket(hits[..n - 1], keyOf, key) + (if filed then [hits[n - 1]] else [])
      && KeyPositions(hits, keyOf, key) == KeyPositions(hits[..n - 1], keyOf, key) + (if filed then [n - 1] else [])
  {
  }

  lemma BucketOutsideKeysIsEmpty(hits: seq<Hit>, keyOf: Hit -> Option<string>, k: string)
    requires k !in DateKeys(hits, keyOf)
    ensures Bucket(hits, keyOf, k) == []
  {
  }

  /** Filing one more hit extends only the bucket of its own key. */
  lemma BucketSnoc(hits: seq<Hit>, h: Hit, keyOf: Hit -> Option<string>, k: string)
    ensures Bucket(hits + [h], keyOf, k) == Bucket(hits, keyOf, k) + (if keyOf(h) == Some(k) then [h] else [])
  {
    assert (hits + [h])[..|hits|] == hits;
  }

  lemma DateKeysSnoc(hits: seq<Hit>, h: Hit, keyOf: Hit -> Option<string>)
    ensures DateKeys(hits + [h], keyOf) == DateKeys(hits, keyOf) + (if keyOf(h).Some? then {keyOf(h).value} else {})
  {
    var all := hits + [h];
    forall x | x in all ensures x in hits || x == h {
      var p :| 0 <= p < |all| && all[p] == x;
      if p < |hits| { assert x == hits[p]; }
    }
  }

  /** Filing one more hit changes only the bucket of its own key, which gains it at the end. */
  lemma GroupedSnoc(hits: seq<Hit>, h: Hit, keyOf: Hit -> Option<string>)
    ensures Grouped(hits + [h], keyOf) ==
      match keyOf(h)
      case None => Grouped(hits, keyOf)
      case Some(k) => Grouped(hits, keyOf)[k := EntriesOf(Grouped(hits, keyOf), k) + [h]]
  {
    match keyOf(h)
    case None => GroupedSnocUnfiled(hits, h, keyOf);
    case Some(k) => GroupedSnocFiled(hits, h, keyOf, k);
  }

  lemma GroupedSnocUnfiled(hits: seq<Hit>, h: Hit, keyOf: Hit -> Option<string>)
    requires keyOf(h).None?
    ensures Grouped(hits + [h], keyOf) == Grouped(hits, keyOf)
  {
    var before, after := Grouped(hits, keyOf), Grouped(hits + [h], keyOf);
    DateKeysSnoc(hits, h, keyOf);
    forall x | x in after ensures after[x] == before[x] {
      BucketSnoc(hits, h, keyOf, x);
    }
  }

  lemma GroupedSnocFiled(hits: seq<Hit>, h: Hit, keyOf: Hit -> Option<string>, k: string)
    requires keyOf(h) == Some(k)
    ensures Grouped(hits + [h], keyOf) == Grouped(hits, keyOf)[k := EntriesOf(Grouped(hits, keyOf), k) + [h]]
  {
    var before, after := Grouped(hits, keyOf), Grouped(hits + [h], keyOf);
    var expected := before[k := EntriesOf(before, k) + [h]];
    DateKeysSnoc(hits, h, keyOf);
    assert after.Keys == expected.Keys;
    forall x | x in after ensures after[x] == expected[x] {
      GroupedSnocFiledAt(hits, h, keyOf, k, x);
    }
  }

  lemma GroupedSnocFiledAt(hits: seq<Hit>, h: Hit, keyOf: Hit -> Option<string>, k: string, x: string)
    requires keyOf(h) == Some(k) && x in DateKeys(hits + [h], keyOf)
    ensures Bucket(hits + [h], keyOf, x) == (if x == k then EntriesOf(Grouped(hits, keyOf), k) + [h] else Bucket(hits, keyOf, x))
  {
    BucketSnoc(hits, h, keyOf, x);
    if x == k && k !in DateKeys(hits, keyOf) {
      BucketOutsideKeysIsEmpty(hits, keyOf, k);
    }
  }

  lemma {:induction false} SizeSumAppend(m: map<string, seq<Hit>>, ks: seq<string>, k: string, h: Hit)
    requires Distinct(ks)
    ensures SizeSum(m[k := EntriesOf(m, k) + [h]], ks) == SizeSum(m, ks) + (if k in ks then 1 else 0)
  {
    if ks != [] {
      var tail := ks[1..];
      DistinctTail(ks);
      assert k in ks <==> k == ks[0] || k in tail by {
        assert ks == [ks[0]] + tail;
      }
      SizeSumAppend(m, tail, k, h);
    }
  }

  /**
   * Every hit that has a key is filed exactly once: summed over any listing of the keys
   * without repeats, the buckets hold as many entries as there are such hits.
   */
  lemma {:induction false} GroupedTotal(hits: seq<Hit>, keyOf: Hit -> Option<string>, ks: seq<string>)
    requires Distinct(ks)
    requires forall k :: k in DateKeys(hits, keyOf) ==> k in ks
    ensures SizeSum(Grouped(hits, keyOf), ks) == CountKeyed(hits, keyOf)
  {
    if hits == [] {
      SizeSumOfEmpty(ks);
    } else {
      var n := |hits|;
      var init, h := hits[..n - 1], hits[n - 1];
      assert hits == init + [h];
      GroupedSnoc(init, h, keyOf);
      assert DateKeys(init, keyOf) <= DateKeys(hits, keyOf);
      GroupedTotal(init, keyOf, ks);
      match keyOf(h)
      case None =>
      case Some(k) =>
        assert k in DateKeys(hits, keyOf);
        SizeSumAppend(Grouped(init, keyOf), ks, k, h);
    }
  }

  lemma {:induction false} SizeSumOfEmpty(ks: seq<string>)
    ensures SizeSum(map[], ks) == 0
  {
    if ks != [] {
      SizeSumOfEmpty(ks[1..]);
    }
  }

  /** When every hit has a start in the window, every hit is filed. */
  lemma {:induction false} AllInWindowAllFiled(hits: seq<Hit>, w: DateWindow)
    requires forall i :: 0 <= i < |hits| ==> HasStartInWindow(hits[i].starts, w)
    ensures CountKeyed(hits, KeyOf(w)) == |hits|
  {
    if hits != [] {
      AllInWindowAllFiled(hits[..|hits| - 1], w);
      assert KeyOf(w)(hits[|hits| - 1]).Some?;
    }
  }

  /** A dictionary holding the reference grouping has one key per filed date and one entry per filed hit. */
  lemma DictionaryCounts(hits: seq<Hit>, keyOf: Hit -> Option<string>, d: EventsByDate)
    requires d.Valid() && d.buckets == Grouped(hits, keyOf)
    ensures |d.keys| == |DateKeys(hits, keyOf)|
    ensures d.Total() == CountKeyed(hits, keyOf)
  {
    assert forall k :: k in d.keys <==> k in DateKeys(hits, keyOf);
    GroupedTotal(hits, keyOf, d.keys);
    DistinctCardinality(d.keys);
    assert (set k | k in d.keys) == DateKeys(hits, keyOf);
  }

  /**
   * `if (!Array.isArray(events[date])) events[date] = []` followed by `events[date].push(item)`:
   * the bucket is created only when absent, gains the hit at its end, and no other bucket changes.
   */
  method AppendToBucket(events: EventsByDate, date: string, item: Hit) returns (r: EventsByDate)
    requires events.Valid()
    ensures r.Valid()
    ensures r.buckets == events.buckets[date := EntriesOf(events.buckets, date) + [item]]
    ensures r.keys == if date in events.buckets then events.keys else events.keys + [date]
    ensures date in events.buckets ==> r.buckets[date] == events.buckets[date] + [item]
    ensures date !in events.buckets ==> r.buckets[date] == [item]
    ensures forall k :: k != date ==> (k in r.buckets <==> k in events.buckets)
    ensures forall k :: k != date && k in events.buckets ==> r.buckets[k] == events.buckets[k]
  {
    r := events;
    if date !in r.buckets {
      r := EventsByDate(r.keys + [date], r.buckets[date := []]);
    }
    r := r.(buckets := r.buckets[date := r.buckets[date] + [item]]);
  }

  /**
   * `structureByDate`: no result when the response carries no hit array; otherwise every hit
   * with a start in the window is appended, in order, to the bucket of its key.
   */
  method StructureByDate(result: SearchResponse, w: DateWindow) returns (r: Option<EventsByDate>)
    ensures r.None? <==> result.hits.None?
    ensures r.Some? ==> r.value.Valid() && r.value.buckets == Grouped(result.hits.value, KeyOf(w))
    ensures r.Some? ==> r.value.Total() == CountKeyed(result.hits.value, KeyOf(w))
    ensures r.Some? ==> |r.value.keys| == |DateKeys(result.hits.value, KeyOf(w))|
  {
    if result.hits.None? {
      return None;
    }
    var hits := result.hits.value;
    var events := EventsByDate([], map[]);
    for i := 0 to |hits|
      invariant events.Valid()
      invariant events.buckets == Grouped(hits[..i], KeyOf(w))
    {
      var key := BucketKey(hits[i], w);
      GroupedSnoc(hits[..i], hits[i], KeyOf(w));
      assert KeyOf(w)(hits[i]) == key;
      if key.Some? {
        events := AppendToBucket(events, key.value, hits[i]);
      }
      assert hits[..i + 1] == hits[..i] + [hits[i]];
    }
    assert hits[..|hits|] == hits;
    DictionaryCounts(hits, KeyOf(w), events);
    return Some(events);
  }

  /**
   * `Object.keys(data || {}).length || 1`: one grid column per bucket, one when there are none.
   * The grid variants exist for 1 to 7 columns only.
   */
  function GridSize(data: EventsByDate): (size: nat)
    requires |data.keys| <= 7
    ensures 1 <= size <= 7
    ensures |data.keys| > 0 ==> size == |data.keys|
    ensures |data.keys| == 0 ==> size == 1
  {
    if |data.keys| == 0 then 1 else |data.keys|
  }

  /** For a bucketed result the grid has one column per distinct date, and one when no hit has a date. */
  lemma GridSizeCountsDates(hits: seq<Hit>, keyOf: Hit -> Option<string>, data: EventsByDate)
    requires data.Valid() && data.buckets == Grouped(hits, keyOf)
    requires |DateKeys(hits, keyOf)| <= 7
    ensures |data.keys| <= 7
    ensures GridSize(data) == if |DateKeys(hits, keyOf)| == 0 then 1 else |DateKeys(hits, keyOf)|
  {
    DistinctCardinality(data.keys);
    assert (set k | k in data.keys) == DateKeys(hits, keyOf);
  }

  /** The keys in the order the grid lays them out: sorted with the comparator that puts `dt1` after `dt2` when `dt1 > dt2`. */
  function SortedKeys(keys: seq<string>): (order: seq<string>)
    ensures multiset(order) == multiset(keys) && |order| == |keys|
  {
    SortBy(keys, KeyAfter)
  }

  /** The keys sorted by the grid's comparator are the dictionary's keys, strictly ascending. */
  lemma SortedKeysFacts(d: EventsByDate)
    requires d.Valid()
    ensures var order := SortedKeys(d.keys);
      && (forall i :: 0 <= i < |order| ==> order[i] in d.buckets)
      && (forall i, j :: 0 <= i < j < |order| ==> LexLess(order[i], order[j]))
      && (forall k :: k in d.buckets ==> k in order)
  {
    var order := SortedKeys(d.keys);
    KeyAfterIsStrictTotalOrder();
    SortBySorted(d.keys, KeyAfter);
    DistinctPermutation(d.keys, order);
    forall i | 0 <= i < |order| ensures order[i] in d.buckets {
      assert order[i] in multiset(d.keys);
    }
    forall i, j | 0 <= i < j < |order| ensures LexLess(order[i], order[j]) {
      LexTotal(order[i], order[j]);
    }
    forall k | k in d.buckets ensures k in order {
      assert k in multiset(order);
    }
  }

  /**
   * What the grid renders: nothing while there is no data, otherwise one column per key,
   * keys in ascending string order, each with the hits of its bucket.
   */
  function GridColumns(data: Option<EventsByDate>): (columns: seq<(string, seq<Hit>)>)
    requires data.Some? ==> data.value.Valid()
    ensures data.None? ==> columns == []
    ensures data.Some? ==> |columns| == |data.value.keys|
    ensures data.Some? ==> forall i :: 0 <= i < |columns| ==>
      columns[i].0 in data.value.buckets && columns[i].1 == data.value.buckets[columns[i].0]
    ensures data.Some? ==> forall k :: k in data.value.buckets ==> exists i :: 0 <= i < |columns| && columns[i].0 == k
    ensures forall i, j :: 0 <= i < j < |columns| ==> LexLess(columns[i].0, columns[j].0)
  {
    match data
    case None => []
    case Some(d) =>
      GridColumnsFacts(d);
      ColumnsFor(SortedKeys(d.keys), d.buckets)
  }

  lemma GridColumnsFacts(d: EventsByDate)
    requires d.Valid()
    ensures var columns := ColumnsFor(SortedKeys(d.keys), d.buckets);
      && |columns| == |d.keys|
      && (forall i :: 0 <= i < |columns| ==> columns[i].0 in d.buckets && columns[i].1 == d.buckets[columns[i].0])
      && (forall k :: k in d.buckets ==> exists i :: 0 <= i < |columns| && columns[i].0 == k)
      && (forall i, j :: 0 <= i < j < |columns| ==> LexLess(columns[i].0, columns[j].0))
  {
    var order := SortedKeys(d.keys);
    SortedKeysFacts(d);
    ColumnsCoverKeys(order, d.buckets);
  }

  /** Columns built from an ascending list of exactly the map's keys show every bucket once, in that order. */
  lemma ColumnsCoverKeys(order: seq<string>, m: map<string, seq<Hit>>)
    requires forall i :: 0 <= i < |order| ==> order[i] in m
    requires forall i, j :: 0 <= i < j < |order| ==> LexLess(order[i], order[j])
    requires forall k :: k in m ==> k in order
    ensures var columns := ColumnsFor(order, m);
      && |columns| == |order|
      && (forall i :: 0 <= i < |columns| ==> columns[i].0 in m && columns[i].1 == m[columns[i].0])
      && (forall k :: k in m ==> exists i :: 0 <= i < |columns| && columns[i].0 == k)
      && (forall i, j :: 0 <= i < j < |columns| ==> LexLess(columns[i].0, columns[j].0))
  {
    var columns := ColumnsFor(order, m);
    forall k | k in m ensures exists i :: 0 <= i < |columns| && columns[i].0 == k {
      var i :| 0 <= i < |order| && order[i] == k;
      assert columns[i].0 == k;
    }
  }

  /** One column per key of `order`, in that order, each with the bucket stored under its key. */
  function ColumnsFor(order: seq<string>, m: map<string, seq<Hit>>): (columns: seq<(string, seq<Hit>)>)
    ensures |columns| == |order|
    ensures forall i :: 0 <= i < |order| ==> columns[i] == (order[i], EntriesOf(m, order[i]))
  {
    if order == [] then [] else [(order[0], EntriesOf(m, order[0]))] + ColumnsFor(order[1..], m)
  }

  datatype SessionStatus = Loading | Unauthenticated | Authenticated

  /** The query sent to the index: `{ size, where: { start, end }, sort: { start: 'asc' } }`. */
  datatype SearchQuery = SearchQuery(size: nat, start: string, end: string, sortStartAscending: bool)

  /** How the fetcher settles: with a value (possibly undefined) or by throwing. */
  datatype FetchOutcome = Resolved(data: Option<EventsByDate>) | Rejected(reason: string)

  const PageSize: nat := 500

  /**
   * The fetcher handed to the cache.  `start` and `end` are what the search URL's parameters
   * yield, and `response` is what the index answers to the query (None when it answers nothing).
   * `query` is the search issued, None when no network call is made.
   */
  method FetchEventsByDate(status: SessionStatus, start: Option<string>, end: Option<string>,
                           response: Option<SearchResponse>, w: DateWindow)
    returns (query: Option<SearchQuery>, outcome: FetchOutcome)
    ensures status != Authenticated ==> query.None? && outcome == Resolved(None)
    ensures status == Authenticated && (start.None? || end.None?) ==> query.None? && outcome.Rejected?
    ensures status == Authenticated && start.Some? && end.Some? ==>
      query == Some(SearchQuery(PageSize, start.value, end.value, true))
    ensures status == Authenticated && start.Some? && end.Some? && !(response.Some? && response.value.ok) ==>
      outcome == Resolved(None)
    ensures status == Authenticated && start.Some? && end.Some? && response.Some? && response.value.ok ==>
      && outcome.Resolved?
      && (outcome.data.None? <==> response.value.hits.None?)
      && (outcome.data.Some? ==> outcome.data.value.Valid() && outcome.data.value.buckets == Grouped(response.value.hits.value, KeyOf(w)))
  {
    if status != Authenticated {
      return None, Resolved(None);
    }
    if start.None? || end.None? {
      return None, Rejected("Start or end cant be null");
    }
    query := Some(SearchQuery(PageSize, start.value, end.value, true));
    if response.Some? && response.value.ok {
      var data := StructureByDate(response.value, w);
      outcome := Resolved(data);
    } else {
      outcome := Resolved(None);
    }
  }
}
