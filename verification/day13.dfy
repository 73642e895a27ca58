/** Shuttle search (src/day13.rs). Bus `id` leaves at every multiple of `id`.
    Part 1 looks for the bus that leaves first at or after a given time and
    reports the wait times the id. Part 2 lists the buses with their index in
    the comma-separated line and looks for the first multiple t of the first
    bus's id at which every later bus leaves `offset` minutes after t.

    `usize` overflow is not modelled: times are unbounded naturals. The part 2
    search has no bound in the source; it is given fuel here. */
module Day13 {
  import opened Wrappers
  import Text

  // ---------------------------------------------------------------------------
  // Multiples
  // ---------------------------------------------------------------------------

  lemma MulMono(p: nat, x: int, y: int)
    requires x <= y
    ensures p * x <= p * y
  {
    assert p * y - p * x == p * (y - x);
  }

  /** `p * q` is a multiple of `p`. */
  lemma ModOfMultiple(p: nat, q: nat)
    requires 0 < p
    ensures (p * q) % p == 0
  {
    var x := p * q;
    var d, m := x / p, x % p;
    assert x == p * d + m;
    assert p * (q - d) == m;
    if q - d >= 1 {
      MulMono(p, 1, q - d);
    } else if q - d <= -1 {
      MulMono(p, q - d, -1);
    }
  }

  /** Two different multiples of `p` are at least `p` apart. */
  lemma MultiplesApart(a: nat, b: nat, p: nat)
    requires 0 < p && a % p == 0 && b % p == 0 && a < b
    ensures a + p <= b
  {
    var qa, qb := a / p, b / p;
    assert a == p * qa;
    assert b == p * qb;
    if qb <= qa {
      MulMono(p, qb, qa);
    }
    MulMono(p, qa + 1, qb);
    assert p * (qa + 1) == p * qa + p;
  }

  /** Adding `p` keeps a multiple of `p` a multiple of `p`. */
  lemma NextMultiple(a: nat, p: nat)
    requires 0 < p && a % p == 0
    ensures (a + p) % p == 0
  {
    var q := a / p;
    assert a == p * q;
    assert a + p == p * (q + 1);
    ModOfMultiple(p, q + 1);
  }

  /** Rounding `t` up past its remainder gives a multiple of `p`. */
  lemma RoundUp(t: nat, p: nat)
    requires 0 < p
    ensures (t + p - t % p) % p == 0
  {
    var q := t / p;
    assert t == p * q + t % p;
    assert t + p - t % p == p * (q + 1);
    ModOfMultiple(p, q + 1);
  }

  // ---------------------------------------------------------------------------
  // Part 1
  // ---------------------------------------------------------------------------

  /** `get_earliest_bus_departure_time`: the first departure of bus `id` at or
      after `t`. A zero id is the remainder-by-zero panic. */
  function Departure(t: nat, id: nat): (r: Result<nat>)
    ensures r.Ok? <==> 0 < id
    ensures r.Ok? ==> r.value % id == 0 && t <= r.value < t + id
    ensures r.Ok? && t % id == 0 ==> r.value == t
  {
    if id == 0 then Err("attempt to calculate the remainder with a divisor of zero")
    else if t % id != 0 then
      var next: nat := t + id - t % id;
      RoundUp(t, id);
      Ok(next)
    else Ok(t)
  }

  /** No bus `id` leaves at or after `t` before the departure found. */
  lemma DepartureLeast(t: nat, id: nat, m: nat)
    requires 0 < id && t <= m && m % id == 0
    ensures Departure(t, id).value <= m
  {
    var d := Departure(t, id).value;
    if m < d {
      MultiplesApart(m, d, id);
    }
  }

  /** The part 1 bus ids: the pieces of the second line other than "x", each
      parsed as a `usize`; a piece that does not parse is the `expect` panic. */
  function BusIds(parts: seq<string>, i: nat): (r: Result<seq<nat>>)
    requires i <= |parts|
    ensures r.Ok? <==> AllParse(parts, i)
    decreases |parts| - i
  {
    if i == |parts| then Ok([])
    else
      var rest := BusIds(parts, i + 1);
      if rest.Err? then Err(rest.error)
      else if parts[i] == "x" then Ok(rest.value)
      else
        var id := Text.ParseUnsigned(parts[i], Text.USIZE_MAX);
        if id.None? then Err("Could not parse bus id")
        else Ok([id.value] + rest.value)
  }

  /** Every piece from `i` on is "x" or a bus id. */
  predicate AllParse(parts: seq<string>, i: nat) {
    forall j :: i <= j < |parts| && parts[j] != "x" ==> Text.ParseUnsigned(parts[j], Text.USIZE_MAX).Some?
  }

  /** The departures of the buses, in the order of their ids. */
  function Departures(t: nat, ids: seq<nat>): (r: Result<seq<nat>>)
    ensures r.Ok? <==> forall k :: 0 <= k < |ids| ==> 0 < ids[k]
    ensures r.Ok? ==> |r.value| == |ids|
    ensures r.Ok? ==> forall k :: 0 <= k < |ids| ==> Departure(t, ids[k]) == Ok(r.value[k])
  {
    if |ids| == 0 then Ok([])
    else
      var first := Departure(t, ids[0]);
      var rest := Departures(t, ids[1..]);
      assert forall k :: 1 <= k < |ids| ==> ids[k] == ids[1..][k - 1];
      if first.Err? then Err(first.error)
      else if rest.Err? then Err(rest.error)
      else Ok([first.value] + rest.value)
  }

  /** The first position of a smallest number: the head of the list after the
      stable `sort_by` on departures. */
  function FirstMinimum(s: seq<nat>): (k: nat)
    requires 0 < |s|
    ensures k < |s|
    ensures forall j :: 0 <= j < |s| ==> s[k] <= s[j]
    ensures forall j :: 0 <= j < k ==> s[k] < s[j]
  {
    if |s| == 1 then 0
    else
      var k := FirstMinimum(s[..|s| - 1]);
      assert forall j :: 0 <= j < |s| - 1 ==> s[j] == s[..|s| - 1][j];
      if s[|s| - 1] < s[k] then |s| - 1 else k
  }

  /** Only one position is the first smallest one. */
  lemma FirstMinimumUnique(s: seq<nat>, k: nat)
    requires k < |s|
    requires forall j :: 0 <= j < |s| ==> s[k] <= s[j]
    requires forall j :: 0 <= j < k ==> s[k] < s[j]
    ensures FirstMinimum(s) == k
  {
    var m := FirstMinimum(s);
    assert s[m] <= s[k] && s[k] <= s[m];
  }

  /** The answer of `part1` for departure time `t` and the parsed ids: nothing
      without buses, else the wait for the first-listed bus leaving soonest
      times its id (the stable sort keeps ties in input order). */
  function Pick(t: nat, ids: seq<nat>): (r: Result<Option<nat>>)
    ensures r.Ok? <==> forall k :: 0 <= k < |ids| ==> 0 < ids[k]
    ensures r.Ok? ==> (r.value.None? <==> |ids| == 0)
    ensures r.Ok? && r.value.Some? ==>
      exists k :: 0 <= k < |ids| && IsAnswer(t, ids, k, r.value.value)
  {
    var deps := Departures(t, ids);
    if deps.Err? then Err(deps.error)
    else if |deps.value| == 0 then Ok(None)
    else
      var k := FirstMinimum(deps.value);
      var wait: nat := deps.value[k] - t;
      MulMono(wait, 0, ids[k]);
      var answer: nat := wait * ids[k];
      SmallestSoonest(t, ids, deps.value, k);
      assert IsAnswer(t, ids, k, answer);
      Ok(Some(answer))
  }

  /** `x` is the wait for bus `k`, the first-listed of the soonest buses,
      times its id. */
  ghost predicate IsAnswer(t: nat, ids: seq<nat>, k: nat, x: nat)
    requires forall j :: 0 <= j < |ids| ==> 0 < ids[j]
  {
    Soonest(t, ids, k) &&
    (forall j :: 0 <= j < k ==> Departure(t, ids[k]).value < Departure(t, ids[j]).value) &&
    x == (Departure(t, ids[k]).value - t) * ids[k]
  }

  /** The first position of a smallest departure is the first-listed
      soonest bus. */
  lemma SmallestSoonest(t: nat, ids: seq<nat>, deps: seq<nat>, k: nat)
    requires |deps| == |ids| && k < |ids|
    requires forall j :: 0 <= j < |ids| ==> Departure(t, ids[j]) == Ok(deps[j])
    requires forall j :: 0 <= j < |deps| ==> deps[k] <= deps[j]
    requires forall j :: 0 <= j < k ==> deps[k] < deps[j]
    ensures forall j :: 0 <= j < |ids| ==> 0 < ids[j]
    ensures Soonest(t, ids, k)
    ensures forall j :: 0 <= j < k ==> Departure(t, ids[k]).value < Departure(t, ids[j]).value
  {
  }

  /** At most one bus and one value satisfy `IsAnswer`, so the contracts of
      `Pick` and `Part1` fix their result. */
  lemma {:induction false} AnswerUnique(t: nat, ids: seq<nat>, k: nat, x: nat, k': nat, x': nat)
    requires forall j :: 0 <= j < |ids| ==> 0 < ids[j]
    requires IsAnswer(t, ids, k, x) && IsAnswer(t, ids, k', x')
    ensures k == k' && x == x'
  {
  }

  /** Bus `k` leaves no later than any other bus. */
  ghost predicate Soonest(t: nat, ids: seq<nat>, k: nat)
    requires forall j :: 0 <= j < |ids| ==> 0 < ids[j]
  {
    k < |ids| && forall j :: 0 <= j < |ids| ==> Departure(t, ids[k]).value <= Departure(t, ids[j]).value
  }

  /** `part1` on the two input lines: the wait for the first-listed soonest
      bus times its id, or nothing when the second line lists no bus. */
  function Part1(input: seq<string>): (r: Result<Option<nat>>)
    ensures r.Ok? ==> |input| == 2 && Text.ParseUnsigned(input[0], Text.USIZE_MAX).Some?
    ensures r.Ok? ==> AllParse(Text.Split(input[1], ','), 0)
    ensures r.Ok? ==>
      var t, ids := Text.ParseUnsigned(input[0], Text.USIZE_MAX).value, BusIds(Text.Split(input[1], ','), 0).value;
      (forall k :: 0 <= k < |ids| ==> 0 < ids[k]) &&
      (r.value.None? <==> |ids| == 0) &&
      (r.value.Some? ==> exists k :: 0 <= k < |ids| && IsAnswer(t, ids, k, r.value.value))
    ensures (|input| == 2 && Text.ParseUnsigned(input[0], Text.USIZE_MAX).Some? &&
             BusIds(Text.Split(input[1], ','), 0).Ok? &&
             forall k :: 0 <= k < |BusIds(Text.Split(input[1], ','), 0).value| ==>
                           0 < BusIds(Text.Split(input[1], ','), 0).value[k])
            ==> r.Ok?
  {
    if |input| != 2 then Err("assertion failed: two input lines")
    else
      var t := Text.ParseUnsigned(input[0], Text.USIZE_MAX);
      if t.None? then Err("earliest departure time does not parse")
      else
        var ids :- BusIds(Text.Split(input[1], ','), 0);
        Pick(t.value, ids)
  }

  // ---------------------------------------------------------------------------
  // Part 2
  // ---------------------------------------------------------------------------

  /** `get_bus_offsets` from piece `i` on: each piece that is not "x" is parsed
      as a bus id and paired with its index. */
  function OffsetsFrom(parts: seq<string>, i: nat): (r: Result<seq<(nat, nat)>>)
    requires i <= |parts|
    ensures r.Ok? <==> AllParse(parts, i)
    ensures r.Ok? ==> Listed(parts, i, r.value) && Increasing(r.value) && Covers(parts, i, r.value)
    decreases |parts| - i
  {
    if i == |parts| then Ok([])
    else
      var rest := OffsetsFrom(parts, i + 1);
      if rest.Err? then Err(rest.error)
      else if parts[i] == "x" then
        assert Covers(parts, i, rest.value);
        Ok(rest.value)
      else
        var id := Text.ParseUnsigned(parts[i], Text.USIZE_MAX);
        if id.None? then Err("Could not parse bus id")
        else
          OffsetsCons(parts, i, id.value, rest.value);
          Ok([(id.value, i)] + rest.value)
  }

  /** Every entry pairs a bus id with the index, from `i` on, of the piece it
      was parsed from. */
  ghost predicate Listed(parts: seq<string>, i: nat, buses: seq<(nat, nat)>) {
    forall k :: 0 <= k < |buses| ==>
      i <= buses[k].1 < |parts| && parts[buses[k].1] != "x" &&
      Text.ParseUnsigned(parts[buses[k].1], Text.USIZE_MAX) == Some(buses[k].0)
  }

  /** The offsets strictly increase. */
  ghost predicate Increasing(buses: seq<(nat, nat)>) {
    forall k, l :: 0 <= k < l < |buses| ==> buses[k].1 < buses[l].1
  }

  /** Every piece from `i` on other than "x" has an entry. */
  ghost predicate Covers(parts: seq<string>, i: nat, buses: seq<(nat, nat)>) {
    forall j :: i <= j < |parts| && parts[j] != "x" ==> exists k :: 0 <= k < |buses| && buses[k].1 == j
  }

  lemma OffsetsCons(parts: seq<string>, i: nat, id: nat, rest: seq<(nat, nat)>)
    requires i < |parts| && parts[i] != "x"
    requires Text.ParseUnsigned(parts[i], Text.USIZE_MAX) == Some(id)
    requires Listed(parts, i + 1, rest) && Increasing(rest) && Covers(parts, i + 1, rest)
    ensures Listed(parts, i, [(id, i)] + rest) && Increasing([(id, i)] + rest) && Covers(parts, i, [(id, i)] + rest)
  {
    ListedCons(parts, i, id, rest);
    IncreasingCons(parts, i, id, rest);
    CoversCons(parts, i, id, rest);
  }

  lemma ListedCons(parts: seq<string>, i: nat, id: nat, rest: seq<(nat, nat)>)
    requires i < |parts| && parts[i] != "x"
    requires Text.ParseUnsigned(parts[i], Text.USIZE_MAX) == Some(id)
    requires Listed(parts, i + 1, rest)
    ensures Listed(parts, i, [(id, i)] + rest)
  {
    var r := [(id, i)] + rest;
    assert forall k :: 1 <= k < |r| ==> r[k] == rest[k - 1];
  }

  lemma IncreasingCons(parts: seq<string>, i: nat, id: nat, rest: seq<(nat, nat)>)
    requires Listed(parts, i + 1, rest) && Increasing(rest)
    ensures Increasing([(id, i)] + rest)
  {
    var r := [(id, i)] + rest;
    assert forall k :: 1 <= k < |r| ==> r[k] == rest[k - 1];
  }

  lemma CoversCons(parts: seq<string>, i: nat, id: nat, rest: seq<(nat, nat)>)
    requires Covers(parts, i + 1, rest)
    ensures Covers(parts, i, [(id, i)] + rest)
  {
    var r := [(id, i)] + rest;
    forall j | i <= j < |parts| && parts[j] != "x" ensures exists k :: 0 <= k < |r| && r[k].1 == j {
      if j == i {
        assert r[0].1 == j;
      } else {
        var k' :| 0 <= k' < |rest| && rest[k'].1 == j;
        assert r[k' + 1].1 == j;
      }
    }
  }

  /** The buses of part 2: each listed id with the index of its piece. */
  function Offsets(line: string): (r: Result<seq<(nat, nat)>>)
    ensures r.Ok? <==> AllParse(Text.Split(line, ','), 0)
    ensures r.Ok? ==>
      var parts := Text.Split(line, ',');
      Listed(parts, 0, r.value) && Increasing(r.value) && Covers(parts, 0, r.value)
  {
    OffsetsFrom(Text.Split(line, ','), 0)
  }

  /** Part 1 reads the same ids as the buses of part 2, without their offsets. */
  lemma {:induction false} BusIdsAreOffsets(parts: seq<string>, i: nat)
    requires i <= |parts|
    ensures BusIds(parts, i).Ok? <==> OffsetsFrom(parts, i).Ok?
    ensures BusIds(parts, i).Ok? ==>
      |BusIds(parts, i).value| == |OffsetsFrom(parts, i).value| &&
      forall k :: 0 <= k < |BusIds(parts, i).value| ==> BusIds(parts, i).value[k] == OffsetsFrom(parts, i).value[k].0
    decreases |parts| - i
  {
    if i < |parts| && AllParse(parts, i) {
      assert AllParse(parts, i + 1);
      BusIdsAreOffsets(parts, i + 1);
      var ids, buses := BusIds(parts, i + 1).value, OffsetsFrom(parts, i + 1).value;
      var r, o := BusIds(parts, i).value, OffsetsFrom(parts, i).value;
      if parts[i] == "x" {
        assert r == ids && o == buses;
      } else {
        var id := Text.ParseUnsigned(parts[i], Text.USIZE_MAX).value;
        assert r == [id] + ids;
        assert o == [(id, i)] + buses;
        forall k | 0 <= k < |r| ensures r[k] == o[k].0 {
          if 0 < k {
            assert r[k] == ids[k - 1] && o[k] == buses[k - 1];
          }
        }
      }
    }
  }

  /** Bus `bus` = (id, offset) leaves `offset` minutes after `t`. */
  predicate Departs(bus: (nat, nat), t: nat) {
    0 < bus.0 && (t + bus.1) % bus.0 == 0
  }

  /** Every bus from position `k` on leaves at its offset after `t`. */
  predicate FitsFrom(buses: seq<(nat, nat)>, t: nat, k: nat) {
    forall j :: k <= j < |buses| ==> Departs(buses[j], t)
  }

  /** `t` works for every bus after the first. */
  predicate Fits(buses: seq<(nat, nat)>, t: nat) {
    FitsFrom(buses, t, 1)
  }

  /** The inner `for` loop of `get_earliest_time` from bus `k` on; it stops at
      the first bus that does not leave at its offset, and a zero id reached
      is the remainder-by-zero panic. */
  function AlignedFrom(buses: seq<(nat, nat)>, t: nat, k: nat): (r: Result<bool>)
    requires k <= |buses|
    ensures r == Ok(true) <==> FitsFrom(buses, t, k)
    ensures r.Err? ==> exists j :: k <= j < |buses| && buses[j].0 == 0
    ensures (forall j :: k <= j < |buses| ==> 0 < buses[j].0) ==> r.Ok?
    decreases |buses| - k
  {
    if k == |buses| then Ok(true)
    else if buses[k].0 == 0 then Err("attempt to calculate the remainder with a divisor of zero")
    else if (t + buses[k].1) % buses[k].0 != 0 then Ok(false)
    else AlignedFrom(buses, t, k + 1)
  }

  /** The outer loop of `get_earliest_time` from time `t`, for at most `fuel`
      rounds; `None` when the fuel runs out. Each round that fails moves on
      by the first bus's id. */
  function Search(buses: seq<(nat, nat)>, t: nat, fuel: nat): (r: Result<Option<nat>>)
    requires 0 < |buses|
    ensures r.Err? ==> exists j :: 1 <= j < |buses| && buses[j].0 == 0
    ensures (forall j :: 1 <= j < |buses| ==> 0 < buses[j].0) ==> r.Ok?
    ensures r.Ok? && r.value.Some? ==> t <= r.value.value && Fits(buses, r.value.value)
    ensures r.Ok? && r.value.Some? && 0 < buses[0].0 && t % buses[0].0 == 0 ==>
      r.value.value % buses[0].0 == 0 && NoneFitBetween(buses, t, r.value.value, buses[0].0)
    decreases fuel
  {
    if fuel == 0 then Ok(None)
    else
      var aligned := AlignedFrom(buses, t, 1);
      if aligned.Err? then Err(aligned.error)
      else if aligned.value then Ok(Some(t))
      else
        var p := buses[0].0;
        var r := Search(buses, t + p, fuel - 1);
        if 0 < p && t % p == 0 && r.Ok? && r.value.Some? then
          NextMultiple(t, p);
          NoneFitExtend(buses, t, p, r.value.value);
          r
        else r
  }

  /** No multiple of `p` in [lo, hi) fits the buses. */
  ghost predicate NoneFitBetween(buses: seq<(nat, nat)>, lo: nat, hi: nat, p: nat)
    requires 0 < p
  {
    forall m: nat :: lo <= m < hi && m % p == 0 ==> !Fits(buses, m)
  }

  /** A failed round at the multiple `t` extends the range known not to fit. */
  lemma NoneFitExtend(buses: seq<(nat, nat)>, t: nat, p: nat, hi: nat)
    requires 0 < p && t % p == 0 && !Fits(buses, t)
    requires NoneFitBetween(buses, t + p, hi, p)
    ensures NoneFitBetween(buses, t, hi, p)
  {
    forall m: nat | t < m < hi && m % p == 0 ensures !Fits(buses, m) {
      MultiplesApart(t, m, p);
    }
  }

  /** `get_earliest_time`, with `fuel` rounds of the search: a line without
      any bus is the `unwrap` panic on the empty list. */
  function EarliestTime(line: string, fuel: nat): (r: Result<Option<nat>>)
    ensures r.Ok? ==> Offsets(line).Ok? && 0 < |Offsets(line).value|
    ensures r.Ok? && r.value.Some? && 0 < Offsets(line).value[0].0 ==> Earliest(Offsets(line).value, r.value.value)
  {
    var buses :- Offsets(line);
    if |buses| == 0 then Err("called `Option::unwrap()` on a `None` value")
    else
      var p := buses[0].0;
      assert 0 < p ==> p % p == 0;
      Search(buses, p, fuel)
  }

  /** `t` is the first positive multiple of the first id that fits all buses. */
  ghost predicate Earliest(buses: seq<(nat, nat)>, t: nat)
    requires 0 < |buses|
  {
    var p := buses[0].0;
    0 < p && p <= t && t % p == 0 && Fits(buses, t) && NoneFitBetween(buses, p, t, p)
  }

  /** There is only one earliest time. */
  lemma EarliestUnique(buses: seq<(nat, nat)>, t: nat, u: nat)
    requires 0 < |buses| && Earliest(buses, t) && Earliest(buses, u)
    ensures t == u
  {
  }

  /** Enough fuel finds a time: when `t + n * p` fits, `n + 1` rounds from `t`
      end with a time. */
  lemma {:induction false} SearchFinds(buses: seq<(nat, nat)>, t: nat, n: nat)
    requires 0 < |buses| && 0 < buses[0].0
    requires forall j :: 1 <= j < |buses| ==> 0 < buses[j].0
    requires Fits(buses, t + n * buses[0].0)
    ensures Search(buses, t, n + 1).Ok? && Search(buses, t, n + 1).value.Some?
    decreases n
  {
    var p := buses[0].0;
    var aligned := AlignedFrom(buses, t, 1);
    if n == 0 {
      assert t + n * p == t;
    } else if !aligned.value {
      assert t + n * p == (t + p) + (n - 1) * p;
      SearchFinds(buses, t + p, n - 1);
    }
  }

  /** More fuel does not change a time once found. */
  lemma {:induction false} SearchMoreFuel(buses: seq<(nat, nat)>, t: nat, fuel: nat, more: nat)
    requires 0 < |buses| && fuel <= more
    requires Search(buses, t, fuel).Ok? && Search(buses, t, fuel).value.Some?
    ensures Search(buses, t, more) == Search(buses, t, fuel)
    decreases fuel
  {
    var aligned := AlignedFrom(buses, t, 1);
    if !aligned.value {
      SearchMoreFuel(buses, t + buses[0].0, fuel - 1, more - 1);
    }
  }

  /** When every id is positive and `m`, a positive multiple of the first
      id, fits, the search of `get_earliest_time` from the first id ends
      within `m / p` rounds, with the earliest time. */
  lemma SearchEarliest(buses: seq<(nat, nat)>, m: nat)
    requires 0 < |buses|
    requires forall j :: 0 <= j < |buses| ==> 0 < buses[j].0
    requires buses[0].0 <= m && m % buses[0].0 == 0 && Fits(buses, m)
    ensures Search(buses, buses[0].0, m / buses[0].0).Ok? && Search(buses, buses[0].0, m / buses[0].0).value.Some?
    ensures Earliest(buses, Search(buses, buses[0].0, m / buses[0].0).value.value)
  {
    var p := buses[0].0;
    var n := QuotientSplit(m, p);
    SearchFinds(buses, p, n);
    assert p % p == 0;
  }

  /** A positive multiple `m` of `p` is `p` plus `n` more steps of `p`. */
  lemma QuotientSplit(m: nat, p: nat) returns (n: nat)
    requires 0 < p <= m && m % p == 0
    ensures m / p == n + 1 && m == p + n * p
  {
    var q := m / p;
    assert m == p * q;
    if q == 0 {
      assert false;
    }
    n := q - 1;
    assert p * q == p * (n + 1) == p + n * p;
  }

  // ---------------------------------------------------------------------------
  // Examples
  // ---------------------------------------------------------------------------

  /** The times of two of the part 2 test lines fit their buses. */
  lemma ExampleTimesFit()
    ensures Fits([(17, 0), (13, 2), (19, 3)], 3417)
    ensures Fits([(7, 0), (13, 1), (59, 4), (31, 6), (19, 7)], 1068781)
  {
  }

  lemma TwoDigits(a: char, b: char)
    requires Text.IsDigit(a) && Text.IsDigit(b)
    ensures Text.ParseUnsigned([a, b], Text.USIZE_MAX) == Some(Text.DigitValue(a) * 10 + Text.DigitValue(b))
  {
    assert [a, b][..1] == [a];
    assert [a][..0] == [];
    assert Text.DecimalValue([a]) == Text.DigitValue(a);
    assert Text.DecimalValue([a, b]) == Text.DigitValue(a) * 10 + Text.DigitValue(b);
  }

  /** The pieces of "17,x,13,19" give buses 17, 13 and 19 at offsets 0, 2 and 3. */
  lemma ExampleOffsets(parts: seq<string>)
    requires parts == ["17", "x", "13", "19"]
    ensures OffsetsFrom(parts, 0) == Ok([(17, 0), (13, 2), (19, 3)])
  {
    TwoDigits('1', '7');
    TwoDigits('1', '3');
    TwoDigits('1', '9');
    assert parts[0] == ['1', '7'] && parts[2] == ['1', '3'] && parts[3] == ['1', '9'];
    assert parts[1] == "x" && parts[0] != "x" && parts[2] != "x" && parts[3] != "x";
    var none: seq<(nat, nat)> := [];
    assert OffsetsFrom(parts, 4) == Ok(none);
    assert [(19, 3)] + none == [(19, 3)];
    assert OffsetsFrom(parts, 3) == Ok([(19, 3)]);
    assert [(13, 2)] + [(19, 3)] == [(13, 2), (19, 3)];
    assert OffsetsFrom(parts, 2) == Ok([(13, 2), (19, 3)]);
    assert OffsetsFrom(parts, 1) == Ok([(13, 2), (19, 3)]);
    assert [(17, 0)] + [(13, 2), (19, 3)] == [(17, 0), (13, 2), (19, 3)];
  }

  /** Part 1 of the puzzle's example: at 939 bus 59 is the first to leave,
      at 944, so the answer is 5 * 59. */
  lemma ExamplePick()
    ensures Pick(939, [7, 13, 59, 31, 19]) == Ok(Some(295))
  {
    var ids: seq<nat> := [7, 13, 59, 31, 19];
    var deps := Departures(939, ids).value;
    assert deps == [945, 949, 944, 961, 950];
    FirstMinimumUnique(deps, 2);
  }
}
