/** Report repair (src/day1.rs): find the first two, and the first three,
    entries of the expense report that sum to 2020. Positions are searched in
    lexicographic order by nested loops, and the search stops at the first hit. */
module Day1 {
  import opened Wrappers

  const TARGET: int := 2020

  /** Positions i < j whose entries sum to the target. */
  predicate IsPair(s: seq<int>, i: int, j: int) {
    0 <= i < j < |s| && s[i] + s[j] == TARGET
  }

  /** Positions i < j < k whose entries sum to the target. */
  predicate IsTriple(s: seq<int>, i: int, j: int, k: int) {
    0 <= i < j < k < |s| && s[i] + s[j] + s[k] == TARGET
  }

  /** (i, j) comes no later than (i', j') in lexicographic order. */
  predicate PairLe(i: int, j: int, i': int, j': int) {
    i < i' || (i == i' && j <= j')
  }

  predicate TripleLe(i: int, j: int, k: int, i': int, j': int, k': int) {
    i < i' || (i == i' && (j < j' || (j == j' && k <= k')))
  }

  /** The pair search of `part1`: the lexicographically first pair of
      positions summing to 2020, or nothing when there is none. */
  method FindPair(s: seq<int>) returns (r: Option<(nat, nat)>)
    ensures r.Some? ==> IsPair(s, r.value.0, r.value.1)
    ensures r.Some? ==> forall i, j :: IsPair(s, i, j) ==> PairLe(r.value.0, r.value.1, i, j)
    ensures r.None? <==> forall i, j :: !IsPair(s, i, j)
  {
    for i := 0 to |s|
      invariant forall i', j :: i' < i ==> !IsPair(s, i', j)
    {
      for j := i + 1 to |s|
        invariant forall j' :: j' < j ==> !IsPair(s, i, j')
      {
        if s[i] + s[j] == TARGET {
          assert IsPair(s, i, j);
          return Some((i, j));
        }
      }
    }
    return None;
  }

  /** The triple search of `part2`: the lexicographically first triple of
      positions summing to 2020, or nothing when there is none. */
  method FindTriple(s: seq<int>) returns (r: Option<(nat, nat, nat)>)
    ensures r.Some? ==> IsTriple(s, r.value.0, r.value.1, r.value.2)
    ensures r.Some? ==> forall i, j, k :: IsTriple(s, i, j, k) ==>
      TripleLe(r.value.0, r.value.1, r.value.2, i, j, k)
    ensures r.None? <==> forall i, j, k :: !IsTriple(s, i, j, k)
  {
    for i := 0 to |s|
      invariant forall i', j, k :: i' < i ==> !IsTriple(s, i', j, k)
    {
      for j := i + 1 to |s|
        invariant forall j', k :: j' < j ==> !IsTriple(s, i, j', k)
      {
        for k := j + 1 to |s|
          invariant forall k' :: k' < k ==> !IsTriple(s, i, j, k')
        {
          if s[i] + s[j] + s[k] == TARGET {
            assert IsTriple(s, i, j, k);
            return Some((i, j, k));
          }
        }
      }
    }
    return None;
  }

  /** `part1`'s answer: the product of the two entries at the first pair. */
  method Part1(s: seq<int>) returns (r: Option<int>)
    ensures r.Some? <==> exists i, j :: IsPair(s, i, j)
    ensures r.Some? ==> exists i, j ::
      IsPair(s, i, j) && r.value == s[i] * s[j] &&
      forall i', j' :: IsPair(s, i', j') ==> PairLe(i, j, i', j')
  {
    var p := FindPair(s);
    if p.Some? {
      assert IsPair(s, p.value.0, p.value.1);
      return Some(s[p.value.0] * s[p.value.1]);
    }
    return None;
  }

  /** `part2`'s answer: the product of the three entries at the first triple. */
  method Part2(s: seq<int>) returns (r: Option<int>)
    ensures r.Some? <==> exists i, j, k :: IsTriple(s, i, j, k)
    ensures r.Some? ==> exists i, j, k ::
      IsTriple(s, i, j, k) && r.value == s[i] * s[j] * s[k] &&
      forall i', j', k' :: IsTriple(s, i', j', k') ==> TripleLe(i, j, k, i', j', k')
  {
    var t := FindTriple(s);
    if t.Some? {
      assert IsTriple(s, t.value.0, t.value.1, t.value.2);
      return Some(s[t.value.0] * s[t.value.1] * s[t.value.2]);
    }
    return None;
  }

  /** The example report: 1721 + 299 = 2020 at positions 0 and 3. */
  method ExamplePair() returns (r: Option<(nat, nat)>)
    ensures r == Some((0, 3))
  {
    var s := [1721, 979, 366, 299, 675, 1456];
    r := FindPair(s);
    assert IsPair(s, 0, 3);
    assert forall i, j :: IsPair(s, i, j) ==> i == 0 && j == 3;
  }
}
