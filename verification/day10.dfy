/** Adapter array (src/day10.rs). The adapters' joltages are sorted and framed
    by the outlet (0) and the device (highest adapter + 3). Part 1 counts the
    differences between neighbours; part 2 cuts the chain into segments,
    collects every arrangement of each segment that can be reached by
    removing interior adapters whose neighbours stay at most 3 apart, and
    multiplies the numbers of arrangements.

    The map keyed by the hash of an arrangement is modelled as the sequence
    of arrangements in insertion order, with membership standing for
    `contains_key` (an injective hash). `i64` and `usize` overflow is not
    modelled. */
module Day10 {
  import opened Wrappers
  import SeqUtil
  import MapSum

  const MAX_JOLT_DIFF: int := 3

  // ---------------------------------------------------------------------------
  // The chain
  // ---------------------------------------------------------------------------

  /** The part of `get_sorted_jolts` after reading: sort, put the outlet in
      front and the device behind. `last().unwrap()` panics on no adapters. */
  function SortedJolts(adapters: seq<int>): (r: Result<seq<int>>)
    ensures r.Ok? <==> 0 < |adapters|
    ensures r.Ok? ==> |r.value| == |adapters| + 2 && r.value[0] == 0
    ensures r.Ok? ==> var inner := r.value[1..|r.value| - 1];
      SeqUtil.Sorted(inner) && multiset(inner) == multiset(adapters)
    ensures r.Ok? ==> (r.value[|r.value| - 1] - MAX_JOLT_DIFF in adapters &&
                       forall x :: x in adapters ==> x + MAX_JOLT_DIFF <= r.value[|r.value| - 1])
  {
    if |adapters| == 0 then Err("called `Option::unwrap()` on a `None` value")
    else
      var sorted := SeqUtil.Sort(adapters);
      var chain := [0] + sorted + [sorted[|sorted| - 1] + MAX_JOLT_DIFF];
      assert chain[1..|chain| - 1] == sorted;
      assert sorted[|sorted| - 1] in multiset(adapters);
      forall x | x in adapters ensures x <= sorted[|sorted| - 1] {
        assert x in multiset(sorted);
        var k :| 0 <= k < |sorted| && sorted[k] == x;
        SeqUtil.SortedBounds(sorted, k);
      }
      Ok(chain)
  }

  /** With no negative adapter the whole chain is ascending. */
  lemma ChainSorted(adapters: seq<int>)
    requires 0 < |adapters| && forall x :: x in adapters ==> 0 <= x
    ensures SeqUtil.Sorted(SortedJolts(adapters).value)
  {
    var sorted := SeqUtil.Sort(adapters);
    var chain := SortedJolts(adapters).value;
    assert chain == [0] + sorted + [sorted[|sorted| - 1] + MAX_JOLT_DIFF];
    SortKeepsNonNegative(adapters);
    forall p, q | 0 <= p < q < |chain| ensures chain[p] <= chain[q] {
      if 0 < p && q < |chain| - 1 {
        assert chain[p] == sorted[p - 1] && chain[q] == sorted[q - 1];
      } else if p == 0 && q < |chain| - 1 {
        assert chain[q] == sorted[q - 1];
      } else if 0 < p {
        assert chain[p] == sorted[p - 1];
        SeqUtil.SortedBounds(sorted, p - 1);
      }
    }
  }

  lemma SortKeepsNonNegative(adapters: seq<int>)
    requires forall x :: x in adapters ==> 0 <= x
    ensures forall k :: 0 <= k < |SeqUtil.Sort(adapters)| ==> 0 <= SeqUtil.Sort(adapters)[k]
  {
    var sorted := SeqUtil.Sort(adapters);
    forall k | 0 <= k < |sorted| ensures 0 <= sorted[k] {
      assert sorted[k] in multiset(sorted);
      assert sorted[k] in adapters;
    }
  }

  // ---------------------------------------------------------------------------
  // Part 1: the histogram of differences
  // ---------------------------------------------------------------------------

  /** The number of neighbour pairs (s[i], s[i+1]) with i < n that differ by d. */
  function DiffCount(s: seq<int>, d: int, n: nat): nat
    requires n < |s|
  {
    if n == 0 then 0
    else DiffCount(s, d, n - 1) + (if s[n] - s[n - 1] == d then 1 else 0)
  }

  /** The histogram loop of `part1` over the first n pairs: every difference
      met is a key, and its value is how often it occurs. */
  function Histogram(s: seq<int>, n: nat): map<int, nat>
    requires n < |s|
  {
    if n == 0 then map[]
    else
      var h := Histogram(s, n - 1);
      var diff := s[n] - s[n - 1];
      h[diff := (if diff in h then h[diff] else 0) + 1]
  }

  /** The histogram holds exactly the differences met, each with how often
      it occurs. */
  lemma {:induction false} HistogramCounts(s: seq<int>, n: nat)
    requires n < |s|
    ensures forall d :: d in Histogram(s, n) <==> 0 < DiffCount(s, d, n)
    ensures forall d :: d in Histogram(s, n) ==> Histogram(s, n)[d] == DiffCount(s, d, n)
  {
    if n > 0 {
      HistogramCounts(s, n - 1);
    }
  }

  /** Every pair is counted once: the counts add up to the number of pairs. */
  lemma {:induction false} HistogramTotal(s: seq<int>, n: nat)
    requires n < |s|
    ensures MapSum.SumValues(Histogram(s, n)) == n
  {
    if n > 0 {
      var h := Histogram(s, n - 1);
      var diff := s[n] - s[n - 1];
      var v := (if diff in h then h[diff] else 0) + 1;
      assert Histogram(s, n) == h[diff := v];
      HistogramTotal(s, n - 1);
      MapSum.SumValuesUpdate(h, diff, v);
    }
  }

  lemma {:induction false} DiffCountPositive(s: seq<int>, d: int, n: nat, i: nat)
    requires i < n < |s| && s[i + 1] - s[i] == d
    ensures 0 < DiffCount(s, d, n)
  {
    if i + 1 < n {
      DiffCountPositive(s, d, n - 1, i);
    }
  }

  /** `part1`: the number of 1-jolt differences times the number of 3-jolt
      differences; indexing the histogram panics when either is missing. */
  function Part1(adapters: seq<int>): (r: Result<int>)
    ensures |adapters| == 0 ==> r.Err?
    ensures 0 < |adapters| ==> var c := SortedJolts(adapters).value;
      var ones, threes := DiffCount(c, 1, |c| - 1), DiffCount(c, 3, |c| - 1);
      (r.Ok? <==> 0 < ones && 0 < threes) && (r.Ok? ==> r.value == ones * threes)
  {
    var chain :- SortedJolts(adapters);
    var h := Histogram(chain, |chain| - 1);
    HistogramCounts(chain, |chain| - 1);
    if 1 !in h || 3 !in h then Err("key not found in histogram")
    else Ok(h[1] * h[3])
  }

  /** The device sits 3 jolts above the last adapter, so a 3-jolt difference
      always exists: part 1 fails only when no 1-jolt difference occurs. */
  lemma ThreeJoltGapAlwaysPresent(adapters: seq<int>)
    requires 0 < |adapters|
    ensures var c := SortedJolts(adapters).value; 0 < DiffCount(c, 3, |c| - 1)
    ensures Part1(adapters).Err? <==> var c := SortedJolts(adapters).value; DiffCount(c, 1, |c| - 1) == 0
  {
    var c := SortedJolts(adapters).value;
    DiffCountPositive(c, 3, |c| - 1, |c| - 2);
  }

  // ---------------------------------------------------------------------------
  // Part 2: arrangements by removal
  // ---------------------------------------------------------------------------

  /** Interior position i may be removed: its neighbours are at most 3 apart. */
  predicate Removable(c: seq<int>, i: int) {
    1 <= i && i + 1 < |c| && c[i + 1] - c[i - 1] <= MAX_JOLT_DIFF
  }

  /** `Vec::remove(i)`: the sequence without position i. */
  function Remove(c: seq<int>, i: nat): (r: seq<int>)
    requires i < |c|
    ensures |r| == |c| - 1
    ensures forall k :: 0 <= k < i ==> r[k] == c[k]
    ensures forall k :: i <= k < |r| ==> r[k] == c[k + 1]
  {
    c[..i] + c[i + 1..]
  }

  /** a arises from c by a series of removals, each of a removable position. */
  ghost predicate Derived(a: seq<int>, c: seq<int>)
    decreases |c|
  {
    a == c || exists i :: Removable(c, i) && Derived(a, Remove(c, i))
  }

  /** Neighbours in the sequence are at most 3 jolts apart. */
  predicate Connected(s: seq<int>) {
    forall k :: 0 <= k < |s| - 1 ==> s[k + 1] - s[k] <= MAX_JOLT_DIFF
  }

  lemma {:induction false} DerivedTransitive(a: seq<int>, b: seq<int>, c: seq<int>)
    requires Derived(a, b) && Derived(b, c)
    ensures Derived(a, c)
    decreases |c|
  {
    if b != c {
      var i :| Removable(c, i) && Derived(b, Remove(c, i));
      DerivedTransitive(a, b, Remove(c, i));
    }
  }

  /** One removal from a derived sequence is derived. */
  lemma DerivedStep(root: seq<int>, c: seq<int>, i: nat)
    requires Derived(c, root) && Removable(c, i)
    ensures Derived(Remove(c, i), root)
  {
    var a := Remove(c, i);
    assert Derived(a, a);
    assert Derived(a, c);
    DerivedTransitive(a, c, root);
  }

  /** Removals only shorten. */
  lemma {:induction false} DerivedShorter(a: seq<int>, c: seq<int>)
    requires Derived(a, c)
    ensures |a| <= |c|
    ensures a != c ==> |a| < |c|
    decreases |c|
  {
    if a != c {
      var i :| Removable(c, i) && Derived(a, Remove(c, i));
      DerivedShorter(a, Remove(c, i));
    }
  }

  /** A single removal keeps both ends, keeps neighbours within 3 jolts, and
      takes out one element. */
  lemma RemoveKeeps(c: seq<int>, i: nat)
    requires Removable(c, i)
    ensures var r := Remove(c, i);
      2 <= |r| && r[0] == c[0] && r[|r| - 1] == c[|c| - 1] &&
      (Connected(c) ==> Connected(r)) && multiset(r) + multiset{c[i]} == multiset(c)
  {
    var r := Remove(c, i);
    assert c == c[..i] + [c[i]] + c[i + 1..];
    if Connected(c) {
      forall k | 0 <= k < |r| - 1 ensures r[k + 1] - r[k] <= MAX_JOLT_DIFF {
        if k + 1 < i {
          assert r[k + 1] - r[k] == c[k + 1] - c[k];
        } else if k + 1 == i {
          assert r[k + 1] - r[k] == c[i + 1] - c[i - 1];
        } else {
          assert r[k + 1] - r[k] == c[k + 2] - c[k + 1];
        }
      }
    }
  }

  /** Every derived arrangement keeps the first and last adapter, keeps
      neighbours within 3 jolts, and only drops adapters. */
  lemma {:induction false} DerivedKeeps(a: seq<int>, c: seq<int>)
    requires Derived(a, c) && 2 <= |c|
    ensures 2 <= |a| && a[0] == c[0] && a[|a| - 1] == c[|c| - 1]
    ensures Connected(c) ==> Connected(a)
    ensures multiset(a) <= multiset(c)
    decreases |c|
  {
    if a != c {
      var i :| Removable(c, i) && Derived(a, Remove(c, i));
      RemoveKeeps(c, i);
      DerivedKeeps(a, Remove(c, i));
    }
  }

  /** `find_arrangements(jolts, stored)`: seed the empty store with the
      segment itself, then scan its interior positions. */
  function FindArrangements(jolts: seq<int>, stored: seq<seq<int>>): (r: seq<seq<int>>)
    requires 0 < |jolts|
    ensures stored <= r
    ensures stored == [] ==> 0 < |r| && r[0] == jolts
    decreases |jolts|, 1, 0
  {
    ScanFrom(jolts, 1, if stored == [] then [jolts] else stored)
  }

  /** The loop of `find_arrangements` from position i on: a removable
      position whose removal is not stored yet is explored first, then
      stored. */
  function ScanFrom(jolts: seq<int>, i: nat, stored: seq<seq<int>>): (r: seq<seq<int>>)
    requires 1 <= i && 0 < |jolts|
    ensures stored <= r
    decreases |jolts|, 0, |jolts| - i
  {
    if i + 1 >= |jolts| then stored
    else if jolts[i + 1] - jolts[i - 1] <= MAX_JOLT_DIFF then
      var a := Remove(jolts, i);
      if a in stored then ScanFrom(jolts, i + 1, stored)
      else ScanFrom(jolts, i + 1, FindArrangements(a, stored) + [a])
    else ScanFrom(jolts, i + 1, stored)
  }

  /** What one call adds to a non-empty store: arrangements derived from the
      segment and strictly shorter than it, never one already stored. */
  lemma {:induction false} FindAdds(jolts: seq<int>, stored: seq<seq<int>>)
    requires 0 < |jolts| && stored != [] && SeqUtil.NoDuplicates(stored)
    ensures var r := FindArrangements(jolts, stored);
      SeqUtil.NoDuplicates(r) &&
      forall k :: |stored| <= k < |r| ==> Derived(r[k], jolts) && |r[k]| < |jolts|
    decreases |jolts|, 1, 0
  {
    ScanAdds(jolts, 1, stored);
  }

  lemma {:induction false} ScanAdds(jolts: seq<int>, i: nat, stored: seq<seq<int>>)
    requires 1 <= i && 0 < |jolts| && stored != [] && SeqUtil.NoDuplicates(stored)
    ensures var r := ScanFrom(jolts, i, stored);
      SeqUtil.NoDuplicates(r) &&
      forall k :: |stored| <= k < |r| ==> Derived(r[k], jolts) && |r[k]| < |jolts|
    decreases |jolts|, 0, |jolts| - i
  {
    if i + 1 < |jolts| && jolts[i + 1] - jolts[i - 1] <= MAX_JOLT_DIFF {
      var a := Remove(jolts, i);
      if a in stored {
        ScanAdds(jolts, i + 1, stored);
      } else {
        var found := FindArrangements(a, stored);
        var next := found + [a];
        assert Removable(jolts, i);
        assert Derived(a, jolts) by {
          assert Derived(jolts, jolts);
          DerivedStep(jolts, jolts, i);
        }
        assert SeqUtil.NoDuplicates(next) && forall k :: |stored| <= k < |next| ==> Derived(next[k], jolts) && |next[k]| < |jolts| by {
          FindAdds(a, stored);
          forall k | |stored| <= k < |found| ensures Derived(found[k], jolts) {
            DerivedTransitive(found[k], a, jolts);
          }
          forall k | 0 <= k < |found| ensures found[k] != a {
            if k < |stored| {
              assert found[k] == stored[k];
            }
          }
        }
        ScanAdds(jolts, i + 1, next);
      }
    } else if i + 1 < |jolts| {
      ScanAdds(jolts, i + 1, stored);
    }
  }

  /** The arrangements of a segment: `find_arrangements` on an empty store. */
  function Arrangements(segment: seq<int>): seq<seq<int>>
    requires 0 < |segment|
  {
    FindArrangements(segment, [])
  }

  /** The segment itself is stored first, every stored arrangement arises
      from it by removals, and no arrangement is stored twice. */
  lemma ArrangementsSound(segment: seq<int>)
    requires 0 < |segment|
    ensures var r := Arrangements(segment);
      0 < |r| && r[0] == segment && SeqUtil.NoDuplicates(r) &&
      forall k :: 0 <= k < |r| ==> Derived(r[k], segment)
  {
    var r := Arrangements(segment);
    ScanAdds(segment, 1, [segment]);
    assert Derived(segment, segment);
  }

  /** Every single removal from x is already in the store. */
  ghost predicate Explored(store: seq<seq<int>>, x: seq<int>) {
    forall k :: Removable(x, k) ==> Remove(x, k) in store
  }

  /** Every stored sequence but the first (the segment whose scan is still
      running) has been explored: `find_arrangements` inserts a removal only
      after the recursive call on it returns. */
  ghost predicate ExploredAfterFirst(store: seq<seq<int>>) {
    forall m :: 1 <= m < |store| ==> Explored(store, store[m])
  }

  lemma ExploredPrefix(store: seq<seq<int>>, more: seq<seq<int>>, x: seq<int>)
    requires Explored(store, x) && store <= more
    ensures Explored(more, x)
  {
    forall k | Removable(x, k) ensures Remove(x, k) in more {
      var m :| 0 <= m < |store| && store[m] == Remove(x, k);
      assert more[m] == store[m];
    }
  }

  /** A call on a non-empty store explores its sequence and keeps every
      stored sequence but the first explored. */
  lemma {:induction false} FindExplores(jolts: seq<int>, stored: seq<seq<int>>)
    requires 0 < |jolts| && stored != [] && ExploredAfterFirst(stored)
    ensures ExploredAfterFirst(FindArrangements(jolts, stored))
    ensures Explored(FindArrangements(jolts, stored), jolts)
    decreases |jolts|, 1, 0
  {
    ScanExplores(jolts, 1, stored);
  }

  lemma {:induction false} ScanExplores(jolts: seq<int>, i: nat, stored: seq<seq<int>>)
    requires 1 <= i && 0 < |jolts| && stored != [] && ExploredAfterFirst(stored)
    ensures ExploredAfterFirst(ScanFrom(jolts, i, stored))
    ensures forall k :: i <= k && Removable(jolts, k) ==> Remove(jolts, k) in ScanFrom(jolts, i, stored)
    decreases |jolts|, 0, |jolts| - i
  {
    if i + 1 < |jolts| {
      var r := ScanFrom(jolts, i, stored);
      if jolts[i + 1] - jolts[i - 1] <= MAX_JOLT_DIFF {
        var a := Remove(jolts, i);
        if a in stored {
          ScanExplores(jolts, i + 1, stored);
          var m :| 0 <= m < |stored| && stored[m] == a;
          assert r[m] == a;
        } else {
          var found := FindArrangements(a, stored);
          FindExplores(a, stored);
          var next := found + [a];
          forall m | 1 <= m < |next| ensures Explored(next, next[m]) {
            if m < |found| {
              ExploredPrefix(found, next, found[m]);
            } else {
              ExploredPrefix(found, next, a);
            }
          }
          ScanExplores(jolts, i + 1, next);
          assert r[|found|] == a;
        }
      } else {
        ScanExplores(jolts, i + 1, stored);
      }
    }
  }

  /** In a store where everything is explored, every sequence derived from a
      stored one is stored too. */
  lemma {:induction false} DerivedStored(r: seq<seq<int>>, a: seq<int>, x: seq<int>)
    requires x in r && Derived(a, x)
    requires forall m :: 0 <= m < |r| ==> Explored(r, r[m])
    ensures a in r
    decreases |x|
  {
    if a != x {
      var i :| Removable(x, i) && Derived(a, Remove(x, i));
      var m :| 0 <= m < |r| && r[m] == x;
      assert Explored(r, r[m]);
      DerivedStored(r, a, Remove(x, i));
    }
  }

  /** The store holds exactly the sequences that arise from the segment by
      removals: nothing else (`ArrangementsSound`) and nothing fewer. */
  lemma ArrangementsExact(segment: seq<int>, a: seq<int>)
    requires 0 < |segment|
    ensures a in Arrangements(segment) <==> Derived(a, segment)
  {
    var r := Arrangements(segment);
    ArrangementsSound(segment);
    if Derived(a, segment) {
      ScanExplores(segment, 1, [segment]);
      assert Explored(r, r[0]);
      DerivedStored(r, a, segment);
    }
  }

  /** Every stored arrangement of a segment of at least two adapters keeps
      its first and last adapter and stays within 3 jolts between neighbours
      when the segment does. */
  lemma ArrangementsKeepEnds(segment: seq<int>, k: nat)
    requires 2 <= |segment| && k < |Arrangements(segment)|
    ensures var a := Arrangements(segment)[k];
      2 <= |a| && a[0] == segment[0] && a[|a| - 1] == segment[|segment| - 1] &&
      multiset(a) <= multiset(segment) && (Connected(segment) ==> Connected(a))
  {
    ArrangementsSound(segment);
    DerivedKeeps(Arrangements(segment)[k], segment);
  }

  /** Position j ends the segment that starts at i: the gap from i exceeds 3
      jolts or the chain ends there. */
  predicate Cuts(jolts: seq<int>, i: nat, j: nat)
    requires i < j < |jolts|
  {
    jolts[j] - jolts[i] > MAX_JOLT_DIFF || j == |jolts| - 1
  }

  /** The first position from j on that ends the segment starting at i. */
  function FirstCut(jolts: seq<int>, i: nat, j: nat): (r: nat)
    requires i < j < |jolts|
    ensures j <= r < |jolts| && Cuts(jolts, i, r)
    ensures forall k :: j <= k < r ==> !Cuts(jolts, i, k)
    decreases |jolts| - j
  {
    if Cuts(jolts, i, j) then j else FirstCut(jolts, i, j + 1)
  }

  /** The product of the arrangement counts of the segments from position i
      on: the segment from i runs to its first cut, and the next segment
      starts one before that cut (or one after i when the cut is right
      after i). */
  function SegmentProduct(jolts: seq<int>, i: nat): (r: nat)
    ensures 1 <= r
    decreases |jolts| - i
  {
    if |jolts| <= i then 1
    else if i + 1 == |jolts| then SegmentProduct(jolts, i + 1)
    else
      var j := FirstCut(jolts, i, i + 1);
      ArrangementsSound(jolts[i..j + 1]);
      var step := if j - (i + 1) > 0 then j - (i + 1) else 1;
      |Arrangements(jolts[i..j + 1])| * SegmentProduct(jolts, i + step)
  }

  /** `find_arrangement_count`: walk the chain, cut a segment where the gap
      from its start exceeds 3 or the chain ends, and multiply the numbers of
      arrangements of the segments. The outer index grows by at least one
      per round. */
  method ArrangementCount(jolts: seq<int>) returns (count: nat)
    ensures count == SegmentProduct(jolts, 0)
    ensures 1 <= count
  {
    count := 1;
    var i := 0;
    while i < |jolts|
      invariant count * SegmentProduct(jolts, i) == SegmentProduct(jolts, 0)
      decreases |jolts| - i
    {
      var factor, next := Segment(jolts, i);
      MulAssoc(count, factor, SegmentProduct(jolts, next), SegmentProduct(jolts, i));
      count := count * factor;
      i := next;
    }
  }

  /** The inner loop of `find_arrangement_count`: the arrangement count of
      the segment that starts at i, and where the next segment starts. */
  method Segment(jolts: seq<int>, i: nat) returns (factor: nat, next: nat)
    requires i < |jolts|
    ensures i < next && SegmentProduct(jolts, i) == factor * SegmentProduct(jolts, next)
  {
    var validLen := 0;
    var j := i + 1;
    factor := 1;
    while j < |jolts|
      invariant i + 1 <= j <= |jolts| && validLen == j - (i + 1)
      invariant forall k :: i + 1 <= k < j ==> !Cuts(jolts, i, k)
      decreases |jolts| - j
    {
      if jolts[j] - jolts[i] > MAX_JOLT_DIFF || j == |jolts| - 1 {
        var found := Arrangements(jolts[i..j + 1]);
        factor := |found|;
        break;
      }
      validLen := validLen + 1;
      j := j + 1;
    }
    next := i + if validLen > 0 then validLen else 1;
    SegmentStep(jolts, i, j, factor, next);
  }

  /** Moving one factor of a product into the running count. */
  lemma MulAssoc(a: nat, b: nat, c: nat, bc: nat)
    requires bc == b * c
    ensures 0 <= a * b && a * b * c == a * bc
  {
  }

  /** One round of the outer loop: the segment from i ends at the first cut,
      its arrangement count is the factor, and the rest starts at `next`. */
  lemma SegmentStep(jolts: seq<int>, i: nat, j: nat, factor: nat, next: nat)
    requires i < |jolts| && i + 1 <= j <= |jolts|
    requires forall k :: i + 1 <= k < j ==> !Cuts(jolts, i, k)
    requires j < |jolts| ==> Cuts(jolts, i, j) && factor == |Arrangements(jolts[i..j + 1])|
    requires j == |jolts| ==> factor == 1
    requires next == i + if j - (i + 1) > 0 then j - (i + 1) else 1
    ensures SegmentProduct(jolts, i) == factor * SegmentProduct(jolts, next)
  {
    if i + 1 < |jolts| {
      assert Cuts(jolts, i, |jolts| - 1);
      assert j == FirstCut(jolts, i, i + 1);
    }
  }

  /** `part2`: the arrangement count of the chain. */
  method Part2(adapters: seq<int>) returns (r: Result<nat>)
    ensures r.Ok? <==> 0 < |adapters|
    ensures r.Ok? ==> r.value == SegmentProduct(SortedJolts(adapters).value, 0) && 1 <= r.value
  {
    var chain := SortedJolts(adapters);
    if chain.Err? {
      return Err(chain.error);
    }
    var count := ArrangementCount(chain.value);
    return Ok(count);
  }

  /** In the chain 0, 1, 2, 5 only the adapter 1 can go (0 and 2 are 2
      apart), and then no more: two arrangements. */
  lemma ExampleSegment()
    ensures |Arrangements([0, 1, 2, 5])| == 2
  {
    var s := [0, 1, 2, 5];
    var a := Remove(s, 1);
    assert a == [0, 2, 5];
    assert Remove(s, 2) == [0, 1, 5];
    assert ScanFrom(a, 1, [s]) == [s];
  }
}
