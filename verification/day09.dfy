/** Encoding error (src/day9.rs). After a preamble of `p` numbers, each number
    must be the sum of two numbers at different positions among the `p`
    before it; part 1 reports the first number that is not. Part 2 looks for
    a run of at least two consecutive numbers summing to that invalid number
    and reports the sum of the run's smallest and largest number.

    `i64` overflow is not modelled: numbers are unbounded integers. */
module Day9 {
  import opened Wrappers

  const PREAMBLE_LEN: nat := 25

  /** Positions j < k in the window [i - p, i) whose numbers sum to numbers[i];
      equal numbers at two positions count. */
  predicate IsPairFor(numbers: seq<int>, p: nat, i: nat, j: int, k: int) {
    p <= i < |numbers| && i - p <= j < k < i && numbers[j] + numbers[k] == numbers[i]
  }

  predicate ValidAt(numbers: seq<int>, p: nat, i: nat)
    requires p <= i < |numbers|
  {
    exists j, k :: i - p <= j < k < i && IsPairFor(numbers, p, i, j, k)
  }

  /** The test of one number in `find_first_invalid_number`: for each j in
      the window, is `numbers[i] - numbers[j]` among the numbers after j? */
  method HasPair(numbers: seq<int>, p: nat, i: nat) returns (found: bool)
    requires p <= i < |numbers|
    ensures found <==> ValidAt(numbers, p, i)
  {
    for j := i - p to i
      invariant forall j', k :: j' < j ==> !IsPairFor(numbers, p, i, j', k)
    {
      var partner := numbers[i] - numbers[j];
      if partner in numbers[j + 1..i] {
        var k :| j + 1 <= k < i && numbers[k] == partner by {
          var m :| 0 <= m < i - (j + 1) && numbers[j + 1..i][m] == partner;
          assert numbers[j + 1 + m] == partner;
        }
        assert IsPairFor(numbers, p, i, j, k);
        return true;
      }
      forall k | j + 1 <= k < i ensures numbers[k] != partner {
        assert numbers[k] == numbers[j + 1..i][k - (j + 1)];
      }
    }
    return false;
  }

  /** `find_first_invalid_number`: the number at the first position from `p`
      on that is not a sum of its window, or nothing. */
  method FindFirstInvalid(numbers: seq<int>, p: nat) returns (r: Option<int>)
    ensures r.None? <==> forall i :: p <= i < |numbers| ==> ValidAt(numbers, p, i)
    ensures |numbers| <= p ==> r.None?
    ensures r.Some? ==> exists i :: (p <= i < |numbers| && !ValidAt(numbers, p, i) && r.value == numbers[i] &&
                                     forall i' :: p <= i' < i ==> ValidAt(numbers, p, i'))
  {
    var i := p;
    while i < |numbers|
      invariant p <= i
      invariant forall i' :: p <= i' < i && i' < |numbers| ==> ValidAt(numbers, p, i')
      decreases |numbers| - i
    {
      var valid := HasPair(numbers, p, i);
      if !valid {
        return Some(numbers[i]);
      }
      i := i + 1;
    }
    return None;
  }

  // ---------------------------------------------------------------------------
  // Part 2: the contiguous range
  // ---------------------------------------------------------------------------

  /** The sum of the run numbers[i..=j]. */
  function RunSum(numbers: seq<int>, i: nat, j: nat): int
    requires i <= j < |numbers|
    decreases j - i
  {
    if j == i then numbers[i] else RunSum(numbers, i, j - 1) + numbers[j]
  }

  /** The smallest number of the run numbers[i..=j]. */
  function RunMin(numbers: seq<int>, i: nat, j: nat): (m: int)
    requires i <= j < |numbers|
    ensures exists k :: i <= k <= j && numbers[k] == m
    ensures forall k :: i <= k <= j ==> m <= numbers[k]
    decreases j - i
  {
    if j == i then numbers[i]
    else
      var rest := RunMin(numbers, i, j - 1);
      if numbers[j] < rest then numbers[j] else rest
  }

  /** The largest number of the run numbers[i..=j]. */
  function RunMax(numbers: seq<int>, i: nat, j: nat): (m: int)
    requires i <= j < |numbers|
    ensures exists k :: i <= k <= j && numbers[k] == m
    ensures forall k :: i <= k <= j ==> numbers[k] <= m
    decreases j - i
  {
    if j == i then numbers[i]
    else
      var rest := RunMax(numbers, i, j - 1);
      if numbers[j] > rest then numbers[j] else rest
  }

  /** The run numbers[i..=j] of at least two numbers sums to the target. */
  predicate IsRange(numbers: seq<int>, target: int, i: nat, j: nat) {
    i < j < |numbers| && RunSum(numbers, i, j) == target
  }

  predicate NonNegative(numbers: seq<int>) {
    forall i :: 0 <= i < |numbers| ==> 0 <= numbers[i]
  }

  /** The inner loop of `part2` started at i stops at j with the target: the
      run numbers[i..=j] sums to it, and every shorter run from i stayed below
      it (so the loop neither hit it earlier nor broke off). */
  predicate StopsAt(numbers: seq<int>, target: int, i: nat, j: nat) {
    IsRange(numbers, target, i, j) && forall j' :: i < j' < j ==> RunSum(numbers, i, j') < target
  }

  /** The search of `part2`: from each start i, extend the run while its sum
      stays below the target. The first start whose run hits the target gives
      min + max of that run; a run that overshoots is abandoned (which skips
      no answer when the numbers are non-negative). */
  method FindWeakness(numbers: seq<int>, target: int) returns (r: Option<int>)
    ensures r.Some? ==> exists i, j :: (StopsAt(numbers, target, i, j) &&
                                        r.value == RunMin(numbers, i, j) + RunMax(numbers, i, j) &&
                                        forall i', j' :: i' < i ==> !StopsAt(numbers, target, i', j'))
    ensures r.None? <==> forall i, j :: !StopsAt(numbers, target, i, j)
    ensures NonNegative(numbers) && (exists i, j :: IsRange(numbers, target, i, j)) ==> r.Some?
  {
    for i := 0 to |numbers|
      invariant forall i': nat, j: nat :: i' < i ==> !StopsAt(numbers, target, i', j)
      invariant NonNegative(numbers) ==> forall i': nat, j: nat :: i' < i ==> !IsRange(numbers, target, i', j)
    {
      r := RunFrom(numbers, target, i);
      if r.Some? {
        return;
      }
    }
    return None;
  }

  /** The inner loop of `part2` for the runs starting at i: min + max of the
      run it stops at, or nothing when it breaks off or runs out. */
  method RunFrom(numbers: seq<int>, target: int, i: nat) returns (r: Option<int>)
    requires i < |numbers|
    ensures r.Some? ==> exists j :: (StopsAt(numbers, target, i, j) &&
                                     r.value == RunMin(numbers, i, j) + RunMax(numbers, i, j))
    ensures r.None? ==> forall j :: !StopsAt(numbers, target, i, j)
    ensures r.None? && NonNegative(numbers) ==> forall j :: !IsRange(numbers, target, i, j)
  {
    var sum := numbers[i];
    var lo := numbers[i];
    var hi := numbers[i];
    var j := i + 1;
    while j < |numbers|
      invariant i + 1 <= j <= |numbers|
      invariant sum == RunSum(numbers, i, j - 1)
      invariant lo == RunMin(numbers, i, j - 1) && hi == RunMax(numbers, i, j - 1)
      invariant forall j' :: i < j' < j ==> RunSum(numbers, i, j') < target
      decreases |numbers| - j
    {
      var number := numbers[j];
      RunExtends(numbers, i, j);
      sum := sum + number;
      if number < lo {
        lo := number;
      } else if number > hi {
        hi := number;
      }
      assert sum == RunSum(numbers, i, j);
      assert lo == RunMin(numbers, i, j) && hi == RunMax(numbers, i, j);
      if sum == target {
        assert StopsAt(numbers, target, i, j);
        return Some(lo + hi);
      } else if sum > target {
        SumsOvershoot(numbers, target, i, j);
        NoStop(numbers, target, i, j);
        return None;
      }
      StaysBelow(numbers, target, i, j);
      j := j + 1;
    }
    NoStop(numbers, target, i, j);
    return None;
  }

  /** Extending a run by one number adds it to the sum and may lower the
      minimum or raise the maximum, never both unless the run was a single
      number. */
  lemma RunExtends(numbers: seq<int>, i: nat, j: nat)
    requires i < j < |numbers|
    ensures RunSum(numbers, i, j) == RunSum(numbers, i, j - 1) + numbers[j]
    ensures numbers[j] < RunMin(numbers, i, j - 1) ==>
              RunMin(numbers, i, j) == numbers[j] && RunMax(numbers, i, j) == RunMax(numbers, i, j - 1)
    ensures RunMin(numbers, i, j - 1) <= numbers[j] ==>
              RunMin(numbers, i, j) == RunMin(numbers, i, j - 1) &&
              RunMax(numbers, i, j) == if numbers[j] > RunMax(numbers, i, j - 1) then numbers[j] else RunMax(numbers, i, j - 1)
  {
    assert RunMin(numbers, i, j - 1) <= numbers[i] <= RunMax(numbers, i, j - 1);
  }

  /** The runs from i below the target extend by one more when the run to
      j stays below it too. */
  lemma StaysBelow(numbers: seq<int>, target: int, i: nat, j: nat)
    requires i < j < |numbers|
    requires forall j' :: i < j' < j ==> RunSum(numbers, i, j') < target
    requires RunSum(numbers, i, j) < target
    ensures forall j' :: i < j' <= j ==> RunSum(numbers, i, j') < target
  {
  }

  /** When every run from i shorter than j stays below the target and the
      run to j, if there is one, overshoots it, no run from i stops at the
      target. */
  lemma NoStop(numbers: seq<int>, target: int, i: nat, j: nat)
    requires i < j <= |numbers|
    requires forall j' :: i < j' < j ==> RunSum(numbers, i, j') < target
    requires j < |numbers| ==> RunSum(numbers, i, j) > target
    ensures forall k :: !StopsAt(numbers, target, i, k)
  {
    forall k: nat ensures !StopsAt(numbers, target, i, k) {
      if i < k < |numbers| {
        if k < j {
          assert RunSum(numbers, i, k) < target;
        } else {
          assert RunSum(numbers, i, j) > target;
        }
      }
    }
  }

  /** Once a run from i overshoots the target, longer runs from i do too,
      when no number is negative. */
  lemma SumsOvershoot(numbers: seq<int>, target: int, i: nat, j: nat)
    requires i < j < |numbers| && RunSum(numbers, i, j) > target
    ensures NonNegative(numbers) ==> forall j' :: j <= j' < |numbers| ==> RunSum(numbers, i, j') > target
  {
    if NonNegative(numbers) {
      forall j' | j <= j' < |numbers| ensures RunSum(numbers, i, j') > target {
        SumGrows(numbers, i, j, j');
      }
    }
  }

  lemma {:induction false} SumGrows(numbers: seq<int>, i: nat, j: nat, j': nat)
    requires i <= j <= j' < |numbers| && NonNegative(numbers)
    ensures RunSum(numbers, i, j) <= RunSum(numbers, i, j')
    decreases j' - j
  {
    if j < j' {
      SumGrows(numbers, i, j, j' - 1);
    }
  }

  /** Position k holds the first number from `p` on that is not a sum of
      two numbers of its window. */
  predicate FirstInvalidAt(numbers: seq<int>, p: nat, k: int) {
    p <= k < |numbers| && !ValidAt(numbers, p, k) &&
    forall i :: p <= i < k ==> ValidAt(numbers, p, i)
  }

  /** `part2`: the weakness of the first invalid number with a preamble of
      25, from the first start whose run stops on it; when no number is
      negative, a weakness is found whenever one exists. */
  method Part2(numbers: seq<int>) returns (r: Option<int>)
    ensures r.Some? ==> exists k, i, j :: (FirstInvalidAt(numbers, PREAMBLE_LEN, k) &&
                                           StopsAt(numbers, numbers[k], i, j) &&
                                           r.value == RunMin(numbers, i, j) + RunMax(numbers, i, j) &&
                                           forall i', j' :: i' < i ==> !StopsAt(numbers, numbers[k], i', j'))
    ensures r.None? <==> forall k, i, j :: FirstInvalidAt(numbers, PREAMBLE_LEN, k) ==> !StopsAt(numbers, numbers[k], i, j)
    ensures NonNegative(numbers) ==>
              (exists k, i, j :: FirstInvalidAt(numbers, PREAMBLE_LEN, k) && IsRange(numbers, numbers[k], i, j)) ==>
              r.Some?
  {
    var invalid := FindFirstInvalid(numbers, PREAMBLE_LEN);
    if invalid.None? {
      assert forall k :: !FirstInvalidAt(numbers, PREAMBLE_LEN, k);
      return None;
    }
    ghost var k :| PREAMBLE_LEN <= k < |numbers| && !ValidAt(numbers, PREAMBLE_LEN, k) && invalid.value == numbers[k] &&
                   forall i' :: PREAMBLE_LEN <= i' < k ==> ValidAt(numbers, PREAMBLE_LEN, i');
    assert FirstInvalidAt(numbers, PREAMBLE_LEN, k);
    assert forall k' :: FirstInvalidAt(numbers, PREAMBLE_LEN, k') ==> k' == k;
    r := FindWeakness(numbers, invalid.value);
  }
}
