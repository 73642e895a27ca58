/** Seat layout cellular automaton (src/day11.rs).

    A layout is a list of rows of chars, exactly as the solver keeps it: '.' is
    floor, 'L' an empty seat, '#' an occupied seat; any other char is kept and
    treated as a seat that is never occupied. Rows may differ in length. One
    round computes every new cell from a frozen snapshot of the previous
    layout; rounds repeat until one changes nothing. */
module Day11 {
  import opened Wrappers
  import SeqUtil

  const FLOOR: char := '.'
  const EMPTY_SEAT: char := 'L'
  const OCCUPIED_SEAT: char := '#'

  type Layout = seq<seq<char>>

  /** A unit step along one of the eight compass and diagonal directions. */
  datatype Dir = Dir(dr: int, dc: int)

  predicate ValidDir(d: Dir) {
    -1 <= d.dr <= 1 && -1 <= d.dc <= 1 && d != Dir(0, 0)
  }

  /** The eight directions, in the order the solver lists them. */
  const Directions: seq<Dir> := [
    Dir(-1, -1), Dir(-1, 0), Dir(-1, 1),
    Dir(0, -1), Dir(0, 1),
    Dir(1, -1), Dir(1, 0), Dir(1, 1)
  ]

  /** The two neighbour rules: part 1 looks at the adjacent cell, part 2 at the
      first seat visible along the ray. */
  datatype Rule = Immediate | FirstVisible

  /** The occupied-neighbour count at which an occupied seat is vacated. */
  function Threshold(rule: Rule): nat {
    match rule
    case Immediate => 4
    case FirstVisible => 5
  }

  predicate InGrid(g: Layout, r: int, c: int) {
    0 <= r < |g| && 0 <= c < |g[r]|
  }

  predicate SameShape(g: Layout, h: Layout) {
    |g| == |h| && forall r :: 0 <= r < |g| ==> |g[r]| == |h[r]|
  }

  // ---------------------------------------------------------------------------
  // Reading the layout
  // ---------------------------------------------------------------------------

  /** `is_seat_occupied`: a position past the last row, or past the end of its
      (possibly short) row, holds no seat. */
  function IsSeatOccupied(g: Layout, row: nat, col: nat): (r: bool)
    ensures r <==> InGrid(g, row, col) && g[row][col] == OCCUPIED_SEAT
  {
    if row >= |g| || col >= |g[row]| then false
    else g[row][col] == OCCUPIED_SEAT
  }

  /** One step from (row, col) with `checked_sub`: stepping above row 0 or left
      of column 0 gives no position. */
  function AdjacentPosition(row: nat, col: nat, d: Dir): (p: Option<(nat, nat)>)
    ensures p.Some? ==> p.value == (row + d.dr, col + d.dc)
    ensures p.None? <==> row + d.dr < 0 || col + d.dc < 0
  {
    if row + d.dr < 0 || col + d.dc < 0 then None
    else Some((row + d.dr, col + d.dc))
  }

  /** The position `k` steps from `x` along a direction component. */
  function Along(x: int, d: int, k: nat): int {
    if d > 0 then x + k else if d < 0 then x - k else x
  }

  /** Every cell 1 .. k-1 steps from (row, col) along `d` is floor inside the layout. */
  ghost predicate ClearBefore(g: Layout, row: nat, col: nat, d: Dir, k: nat) {
    forall m :: 1 <= m < k ==>
      InGrid(g, Along(row, d.dr, m), Along(col, d.dc, m)) &&
      g[Along(row, d.dr, m)][Along(col, d.dc, m)] == FLOOR
  }

  /** The walk stops at step k on the seat p, seeing only floor before it. */
  ghost predicate SeesSeatAt(g: Layout, row: nat, col: nat, d: Dir, k: nat, p: (nat, nat)) {
    1 <= k && p == (Along(row, d.dr, k), Along(col, d.dc, k)) &&
    ClearBefore(g, row, col, d, k) && InGrid(g, p.0, p.1) && g[p.0][p.1] != FLOOR
  }

  /** The walk leaves the layout at step k, seeing only floor before it. */
  ghost predicate LeavesAt(g: Layout, row: nat, col: nat, d: Dir, k: nat) {
    1 <= k && ClearBefore(g, row, col, d, k) &&
    !InGrid(g, Along(row, d.dr, k), Along(col, d.dc, k))
  }

  /** How many more steps the walk can take from step k before it must leave the layout. */
  function StepsLeft(g: Layout, row: nat, col: nat, d: Dir, k: nat): nat {
    var r := Along(row, d.dr, k);
    var c := Along(col, d.dc, k);
    if d.dr > 0 then (if r < |g| then |g| - r else 0)
    else if d.dr < 0 then (if r >= 0 then r + 1 else 0)
    else if 0 <= r < |g| then
      (if d.dc > 0 then (if c < |g[r]| then |g[r]| - c else 0) else (if c >= 0 then c + 1 else 0))
    else 0
  }

  /** The walk of `get_first_visible_seat_position`, examining step k (k >= 1). */
  function Look(g: Layout, row: nat, col: nat, d: Dir, k: nat): Option<(nat, nat)>
    requires ValidDir(d) && 1 <= k
    decreases StepsLeft(g, row, col, d, k)
  {
    var r := Along(row, d.dr, k);
    var c := Along(col, d.dc, k);
    if !InGrid(g, r, c) then None
    else if g[r][c] != FLOOR then Some((r, c))
    else Look(g, row, col, d, k + 1)
  }

  /** The walk from step k, over floor only, either stops on the first seat
      it meets or leaves the layout. */
  lemma {:induction false} LookFinds(g: Layout, row: nat, col: nat, d: Dir, k: nat)
    requires ValidDir(d) && 1 <= k
    requires ClearBefore(g, row, col, d, k)
    ensures Look(g, row, col, d, k).Some? ==>
      exists m :: k <= m && SeesSeatAt(g, row, col, d, m, Look(g, row, col, d, k).value)
    ensures Look(g, row, col, d, k).None? ==> exists m :: k <= m && LeavesAt(g, row, col, d, m)
    decreases StepsLeft(g, row, col, d, k)
  {
    var r := Along(row, d.dr, k);
    var c := Along(col, d.dc, k);
    if !InGrid(g, r, c) {
      assert LeavesAt(g, row, col, d, k);
    } else if g[r][c] != FLOOR {
      assert SeesSeatAt(g, row, col, d, k, (r, c));
    } else {
      assert ClearBefore(g, row, col, d, k + 1);
      LookFinds(g, row, col, d, k + 1);
    }
  }

  /** `get_first_visible_seat_position`: the first non-floor cell along `d`,
      or nothing when the walk leaves the layout first. */
  function FirstVisibleSeat(g: Layout, row: nat, col: nat, d: Dir): Option<(nat, nat)>
    requires ValidDir(d)
  {
    Look(g, row, col, d, 1)
  }

  /** The seat found is the first non-floor cell of the ray; no seat found
      means the ray leaves the layout over floor only. */
  lemma FirstVisibleSeatSpec(g: Layout, row: nat, col: nat, d: Dir)
    requires ValidDir(d)
    ensures FirstVisibleSeat(g, row, col, d).Some? ==>
      exists k :: SeesSeatAt(g, row, col, d, k, FirstVisibleSeat(g, row, col, d).value)
    ensures FirstVisibleSeat(g, row, col, d).None? ==> exists k :: LeavesAt(g, row, col, d, k)
  {
    LookFinds(g, row, col, d, 1);
  }

  /** The position a rule consults in direction `d`. */
  function Seen(g: Layout, rule: Rule, row: nat, col: nat, d: Dir): Option<(nat, nat)>
    requires ValidDir(d)
  {
    match rule
    case Immediate => AdjacentPosition(row, col, d)
    case FirstVisible => FirstVisibleSeat(g, row, col, d)
  }

  predicate OccupiedAt(g: Layout, p: Option<(nat, nat)>) {
    p.Some? && IsSeatOccupied(g, p.value.0, p.value.1)
  }

  /** The number of directions in `dirs` whose consulted position is occupied. */
  function CountSeen(g: Layout, rule: Rule, row: nat, col: nat, dirs: seq<Dir>): (n: nat)
    requires forall i :: 0 <= i < |dirs| ==> ValidDir(dirs[i])
    ensures n <= |dirs|
  {
    if |dirs| == 0 then 0
    else Occupied01(g, rule, row, col, dirs[0]) + CountSeen(g, rule, row, col, dirs[1..])
  }

  /** The occupied-neighbour count under a rule, over the eight directions. */
  function NeighbourCount(g: Layout, rule: Rule, row: nat, col: nat): (n: nat)
    ensures n <= 8
  {
    CountSeen(g, rule, row, col, Directions)
  }

  /** `get_occupied_adjacent_immediate_seat_count`: at most eight, and at
      most three at the top-left corner, whose other five neighbours underflow. */
  function ImmediateOccupiedCount(g: Layout, row: nat, col: nat): (n: nat)
    ensures n <= 8
    ensures row == 0 && col == 0 ==> n <= 3
  {
    var n := NeighbourCount(g, Immediate, row, col);
    assert row == 0 && col == 0 ==> n <= 3 by {
      if row == 0 && col == 0 {
        CornerCount(g);
      }
    }
    n
  }

  /** One direction's share of the neighbour count: 1 when the seat seen
      that way is occupied, 0 otherwise. */
  function Occupied01(g: Layout, rule: Rule, row: nat, col: nat, d: Dir): nat
    requires ValidDir(d)
  {
    if OccupiedAt(g, Seen(g, rule, row, col, d)) then 1 else 0
  }

  /** The neighbour count as the sum over the eight directions. */
  lemma NeighbourCountExpanded(g: Layout, rule: Rule, row: nat, col: nat)
    ensures NeighbourCount(g, rule, row, col) ==
      Occupied01(g, rule, row, col, Dir(-1, -1)) + Occupied01(g, rule, row, col, Dir(-1, 0)) +
      Occupied01(g, rule, row, col, Dir(-1, 1)) + Occupied01(g, rule, row, col, Dir(0, -1)) +
      Occupied01(g, rule, row, col, Dir(0, 1)) + Occupied01(g, rule, row, col, Dir(1, -1)) +
      Occupied01(g, rule, row, col, Dir(1, 0)) + Occupied01(g, rule, row, col, Dir(1, 1))
  {
    var ds := Directions;
    CountSeenTwo(g, rule, row, col, ds);
    CountSeenTwo(g, rule, row, col, ds[2..]);
    CountSeenTwo(g, rule, row, col, ds[4..]);
    CountSeenTwo(g, rule, row, col, ds[6..]);
    assert ds[2..][2..] == ds[4..] && ds[4..][2..] == ds[6..] && ds[6..][2..] == [];
  }

  /** `CountSeen` unfolded twice. */
  lemma CountSeenTwo(g: Layout, rule: Rule, row: nat, col: nat, dirs: seq<Dir>)
    requires 2 <= |dirs| && forall i :: 0 <= i < |dirs| ==> ValidDir(dirs[i])
    ensures CountSeen(g, rule, row, col, dirs) ==
      Occupied01(g, rule, row, col, dirs[0]) + Occupied01(g, rule, row, col, dirs[1]) +
      CountSeen(g, rule, row, col, dirs[2..])
  {
    assert dirs[1..][1..] == dirs[2..];
  }

  /** At the top-left corner five of the eight directions underflow. */
  lemma CornerCount(g: Layout)
    ensures NeighbourCount(g, Immediate, 0, 0) <= 3
  {
    NeighbourCountExpanded(g, Immediate, 0, 0);
  }

  /** `get_occupied_adjacent_first_visible_seat_count`. */
  function VisibleOccupiedCount(g: Layout, row: nat, col: nat): (n: nat)
    ensures n <= 8
  {
    NeighbourCount(g, FirstVisible, row, col)
  }

  /** Without floor cells the first visible seat along a ray is the adjacent
      cell, so the two rules count the same neighbours. */
  lemma NoFloorRulesAgree(g: Layout, row: nat, col: nat)
    requires forall r, c :: InGrid(g, r, c) ==> g[r][c] != FLOOR
    ensures VisibleOccupiedCount(g, row, col) == ImmediateOccupiedCount(g, row, col)
  {
    NoFloorCountsAgree(g, row, col, Directions);
  }

  lemma {:induction false} NoFloorCountsAgree(g: Layout, row: nat, col: nat, dirs: seq<Dir>)
    requires forall r, c :: InGrid(g, r, c) ==> g[r][c] != FLOOR
    requires forall i :: 0 <= i < |dirs| ==> ValidDir(dirs[i])
    ensures CountSeen(g, FirstVisible, row, col, dirs) == CountSeen(g, Immediate, row, col, dirs)
  {
    if 0 < |dirs| {
      var d := dirs[0];
      var visible := FirstVisibleSeat(g, row, col, d);
      var adjacent := AdjacentPosition(row, col, d);
      var r := Along(row, d.dr, 1);
      var c := Along(col, d.dc, 1);
      assert r == row + d.dr && c == col + d.dc;
      assert visible == (if InGrid(g, r, c) then Some((r, c)) else None);
      assert OccupiedAt(g, visible) == OccupiedAt(g, adjacent);
      NoFloorCountsAgree(g, row, col, dirs[1..]);
    }
  }

  /** With no occupied seat anywhere, every neighbour count is zero. */
  lemma NothingOccupiedCountsZero(g: Layout, rule: Rule, row: nat, col: nat)
    requires forall r, c :: InGrid(g, r, c) ==> g[r][c] != OCCUPIED_SEAT
    ensures NeighbourCount(g, rule, row, col) == 0
  {
    NothingOccupiedCountSeen(g, rule, row, col, Directions);
  }

  lemma {:induction false} NothingOccupiedCountSeen(g: Layout, rule: Rule, row: nat, col: nat, dirs: seq<Dir>)
    requires forall r, c :: InGrid(g, r, c) ==> g[r][c] != OCCUPIED_SEAT
    requires forall i :: 0 <= i < |dirs| ==> ValidDir(dirs[i])
    ensures CountSeen(g, rule, row, col, dirs) == 0
  {
    if 0 < |dirs| {
      NothingOccupiedCountSeen(g, rule, row, col, dirs[1..]);
    }
  }

  // ---------------------------------------------------------------------------
  // One round
  // ---------------------------------------------------------------------------

  /** The new state of one cell, computed from the snapshot `g` only. */
  function NextCell(g: Layout, rule: Rule, row: nat, col: nat): char
    requires InGrid(g, row, col)
  {
    var cell := g[row][col];
    if cell == EMPTY_SEAT && NeighbourCount(g, rule, row, col) == 0 then OCCUPIED_SEAT
    else if cell == OCCUPIED_SEAT && NeighbourCount(g, rule, row, col) >= Threshold(rule) then EMPTY_SEAT
    else cell
  }

  /** The layout after one synchronous round. */
  function Step(g: Layout, rule: Rule): (h: Layout)
    ensures SameShape(g, h)
    ensures forall r, c :: InGrid(g, r, c) ==> h[r][c] == NextCell(g, rule, r, c)
  {
    seq(|g|, r requires 0 <= r < |g| =>
      seq(|g[r]|, c requires 0 <= c < |g[r]| => NextCell(g, rule, r, c)))
  }

  /** The transition rule, cell by cell: floor is never touched, an empty seat
      is taken exactly when no neighbour is occupied, an occupied seat is
      vacated exactly when at least `Threshold(rule)` neighbours are occupied. */
  lemma StepRule(g: Layout, rule: Rule, r: nat, c: nat)
    requires InGrid(g, r, c)
    ensures g[r][c] == FLOOR ==> Step(g, rule)[r][c] == FLOOR
    ensures g[r][c] == EMPTY_SEAT ==>
      (Step(g, rule)[r][c] == OCCUPIED_SEAT <==> NeighbourCount(g, rule, r, c) == 0)
    ensures g[r][c] == EMPTY_SEAT && Step(g, rule)[r][c] != OCCUPIED_SEAT ==> Step(g, rule)[r][c] == EMPTY_SEAT
    ensures g[r][c] == OCCUPIED_SEAT ==>
      (Step(g, rule)[r][c] == EMPTY_SEAT <==> NeighbourCount(g, rule, r, c) >= Threshold(rule))
    ensures g[r][c] == OCCUPIED_SEAT && Step(g, rule)[r][c] != EMPTY_SEAT ==> Step(g, rule)[r][c] == OCCUPIED_SEAT
    ensures g[r][c] != EMPTY_SEAT && g[r][c] != OCCUPIED_SEAT ==> Step(g, rule)[r][c] == g[r][c]
  {
  }

  /** `simulate_seating_part1` / `simulate_seating_part2`: the rows are
      rewritten in place while every neighbour count reads the snapshot
      `prev`; the result says whether anything changed. */
  method SimulateSeating(layout: Layout, rule: Rule) returns (next: Layout, changed: bool)
    ensures next == Step(layout, rule)
    ensures SameShape(layout, next)
    ensures changed <==> next != layout
  {
    var prev := layout;
    var rows := layout;
    for r := 0 to |rows|
      invariant |rows| == |prev|
      invariant forall i :: 0 <= i < r ==> rows[i] == Step(prev, rule)[i]
      invariant forall i :: r <= i < |rows| ==> rows[i] == prev[i]
    {
      for c := 0 to |rows[r]|
        invariant |rows| == |prev| && |rows[r]| == |prev[r]|
        invariant forall i :: 0 <= i < r ==> rows[i] == Step(prev, rule)[i]
        invariant forall i :: r < i < |rows| ==> rows[i] == prev[i]
        invariant forall j :: 0 <= j < c ==> rows[r][j] == NextCell(prev, rule, r, j)
        invariant forall j :: c <= j < |rows[r]| ==> rows[r][j] == prev[r][j]
      {
        var cell := prev[r][c];
        if cell == EMPTY_SEAT {
          if NeighbourCount(prev, rule, r, c) == 0 {
            rows := rows[r := rows[r][c := OCCUPIED_SEAT]];
          }
        } else if cell == OCCUPIED_SEAT {
          if NeighbourCount(prev, rule, r, c) >= Threshold(rule) {
            rows := rows[r := rows[r][c := EMPTY_SEAT]];
          }
        }
      }
      assert rows[r] == Step(prev, rule)[r];
    }
    next := rows;
    changed := next != prev;
  }

  /** A round keeps the shape and every floor cell. */
  lemma StepKeepsShapeAndFloor(g: Layout, rule: Rule)
    ensures SameShape(g, Step(g, rule))
    ensures forall r, c :: InGrid(g, r, c) && g[r][c] == FLOOR ==> Step(g, rule)[r][c] == FLOOR
  {
  }

  /** A layout without any seat is a fixed point: the first round reports no change. */
  lemma NoSeatsIsFixed(g: Layout, rule: Rule)
    requires forall r, c :: InGrid(g, r, c) ==> g[r][c] != EMPTY_SEAT && g[r][c] != OCCUPIED_SEAT
    ensures Step(g, rule) == g
  {
    var h := Step(g, rule);
    forall r | 0 <= r < |g| ensures h[r] == g[r] {
    }
  }

  /** At a fixed point a further round changes nothing again. */
  lemma FixedPointStaysFixed(g: Layout, rule: Rule)
    requires Step(g, rule) == g
    ensures Step(Step(g, rule), rule) == Step(g, rule)
  {
  }

  // ---------------------------------------------------------------------------
  // Running to the fixed point and counting
  // ---------------------------------------------------------------------------

  /** The loop of `part1` / `part2`: rounds until one reports no change. The
      solver loops without a bound; `fuel` caps the number of rounds, and
      `None` means the cap was reached. */
  function Settle(g: Layout, rule: Rule, fuel: nat): (r: Option<Layout>)
    ensures r.Some? ==> Step(r.value, rule) == r.value
    ensures r.Some? ==> SameShape(g, r.value)
    ensures r.Some? ==> forall i, j :: InGrid(g, i, j) && g[i][j] == FLOOR ==> r.value[i][j] == FLOOR
    ensures Step(g, rule) == g && 0 < fuel ==> r == Some(g)
    decreases fuel
  {
    if fuel == 0 then None
    else
      var h := Step(g, rule);
      if h == g then Some(g) else Settle(h, rule, fuel - 1)
  }

  /** The layout after `n` rounds. */
  function Iterate(g: Layout, rule: Rule, n: nat): Layout
    decreases n
  {
    if n == 0 then g else Iterate(Step(g, rule), rule, n - 1)
  }

  /** Round `n + 1` would change nothing: the loop stops after n rounds. */
  predicate FixedAt(g: Layout, rule: Rule, n: nat) {
    Step(Iterate(g, rule, n), rule) == Iterate(g, rule, n)
  }

  /** `Settle` gives the layout after the first round count n at which a
      further round changes nothing, and it gives one exactly when such an n
      lies below the fuel. */
  lemma {:induction false} SettleIterates(g: Layout, rule: Rule, fuel: nat)
    ensures Settle(g, rule, fuel).Some? <==> exists n: nat :: n < fuel && FixedAt(g, rule, n)
    ensures Settle(g, rule, fuel).Some? ==>
      exists n: nat :: n < fuel && FixedAt(g, rule, n) && Settle(g, rule, fuel).value == Iterate(g, rule, n) &&
        forall m: nat :: m < n ==> !FixedAt(g, rule, m)
    decreases fuel
  {
    if 0 < fuel {
      var h := Step(g, rule);
      if h == g {
        assert FixedAt(g, rule, 0);
      } else {
        SettleIterates(h, rule, fuel - 1);
        assert !FixedAt(g, rule, 0);
        forall m: nat ensures FixedAt(g, rule, m + 1) == FixedAt(h, rule, m) {
          assert Iterate(g, rule, m + 1) == Iterate(h, rule, m);
        }
        if Settle(h, rule, fuel - 1).Some? {
          var n: nat :| n < fuel - 1 && FixedAt(h, rule, n) && Settle(h, rule, fuel - 1).value == Iterate(h, rule, n) &&
            forall m: nat :: m < n ==> !FixedAt(h, rule, m);
          assert FixedAt(g, rule, n + 1) && Iterate(g, rule, n + 1) == Iterate(h, rule, n);
          forall m: nat | m < n + 1 ensures !FixedAt(g, rule, m) {
            if 0 < m {
              assert FixedAt(g, rule, m - 1 + 1) == FixedAt(h, rule, m - 1);
            }
          }
        } else {
          forall n: nat | n < fuel ensures !FixedAt(g, rule, n) {
            if 0 < n {
              assert FixedAt(g, rule, n - 1 + 1) == FixedAt(h, rule, n - 1);
            }
          }
        }
      }
    }
  }

  /** The number of occupied seats, row by row. */
  function OccupiedTotal(g: Layout): nat {
    if |g| == 0 then 0 else OccupiedTotal(g[..|g| - 1]) + SeqUtil.Count(g[|g| - 1], OCCUPIED_SEAT)
  }

  /** The number of cells, row by row. */
  function CellTotal(g: Layout): nat {
    if |g| == 0 then 0 else CellTotal(g[..|g| - 1]) + |g[|g| - 1]|
  }

  /** The number of non-floor cells, row by row. */
  function SeatTotal(g: Layout): nat {
    if |g| == 0 then 0 else SeatTotal(g[..|g| - 1]) + (|g[|g| - 1]| - SeqUtil.Count(g[|g| - 1], FLOOR))
  }

  /** `get_occupied_seat_count`: probes every cell with `is_seat_occupied`. */
  method OccupiedSeatCount(g: Layout) returns (n: nat)
    ensures n == OccupiedTotal(g)
    ensures n <= SeatTotal(g) <= CellTotal(g)
  {
    n := 0;
    for r := 0 to |g|
      invariant n == OccupiedTotal(g[..r])
    {
      var rowCount := 0;
      for c := 0 to |g[r]|
        invariant rowCount == SeqUtil.Count(g[r][..c], OCCUPIED_SEAT)
      {
        assert g[r][..c + 1] == g[r][..c] + [g[r][c]];
        CountAppend(g[r][..c], g[r][c], OCCUPIED_SEAT);
        if IsSeatOccupied(g, r, c) {
          rowCount := rowCount + 1;
        }
      }
      assert g[r][..|g[r]|] == g[r];
      assert g[..r + 1][..r] == g[..r];
      n := n + rowCount;
    }
    assert g[..|g|] == g;
    OccupiedAtMostSeats(g);
  }

  lemma CountAppend(s: seq<char>, x: char, y: char)
    ensures SeqUtil.Count(s + [x], y) == SeqUtil.Count(s, y) + (if x == y then 1 else 0)
  {
    assert multiset(s + [x]) == multiset(s) + multiset{x};
  }

  /** Occupied seats are seats, and seats are cells. */
  lemma {:induction false} OccupiedAtMostSeats(g: Layout)
    ensures OccupiedTotal(g) <= SeatTotal(g) <= CellTotal(g)
  {
    if 0 < |g| {
      OccupiedAtMostSeats(g[..|g| - 1]);
      var row := g[|g| - 1];
      assert SeqUtil.Count(row, OCCUPIED_SEAT) + SeqUtil.Count(row, FLOOR) <= |row| by {
        CountTwo(row, OCCUPIED_SEAT, FLOOR);
      }
    }
  }

  lemma {:induction false} CountTwo(s: seq<char>, x: char, y: char)
    requires x != y
    ensures SeqUtil.Count(s, x) + SeqUtil.Count(s, y) <= |s|
  {
    if 0 < |s| {
      CountTwo(s[1..], x, y);
    }
  }

  /** 1 when (r, c) is an occupied seat of the layout, 0 otherwise. */
  function OccupiedCell(g: Layout, r: int, c: int): nat {
    if InGrid(g, r, c) && g[r][c] == OCCUPIED_SEAT then 1 else 0
  }

  /** Under the adjacency rule a direction contributes exactly when the
      neighbouring cell in that direction is an occupied seat. */
  lemma ImmediateOccupied01(g: Layout, row: nat, col: nat, d: Dir)
    requires ValidDir(d)
    ensures Occupied01(g, Immediate, row, col, d) == OccupiedCell(g, row + d.dr, col + d.dc)
  {
    var r, c := row + d.dr, col + d.dc;
    if r < 0 || c < 0 {
      assert !InGrid(g, r, c);
      assert AdjacentPosition(row, col, d).None?;
    } else {
      assert AdjacentPosition(row, col, d) == Some((r, c));
      assert OccupiedAt(g, Some((r, c))) <==> InGrid(g, r, c) && g[r][c] == OCCUPIED_SEAT;
    }
  }

  /** From a layout with no occupied seat, one round (under either rule)
      takes every empty seat and changes nothing else. */
  lemma FirstRoundFillsSeats(g: Layout, rule: Rule)
    requires forall r, c :: InGrid(g, r, c) ==> g[r][c] != OCCUPIED_SEAT
    ensures forall r, c :: InGrid(g, r, c) ==>
      Step(g, rule)[r][c] == (if g[r][c] == EMPTY_SEAT then OCCUPIED_SEAT else g[r][c])
  {
    forall r, c | InGrid(g, r, c)
      ensures Step(g, rule)[r][c] == (if g[r][c] == EMPTY_SEAT then OCCUPIED_SEAT else g[r][c])
    {
      NothingOccupiedCountsZero(g, rule, r, c);
    }
  }
}
