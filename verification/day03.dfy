/** Toboggan trajectory (src/day3.rs). The slope is a list of rows of '.' and
    '#' that repeats to the right. Starting from the top-left corner the
    toboggan moves `right` columns and `down` rows per step; every cell it
    lands on is read, trees are counted, and the cell is marked 'X' (tree) or
    'O' (open) in a working copy of the slope. The working copy grows a row by
    appending whole copies of the template row whenever the column runs past
    its end. */
module Day3 {

  type Slope = seq<seq<char>>

  const TREE: char := '#'
  const HIT: char := 'X'
  const MISS: char := 'O'

  /** `count_trees` loops forever on an empty row (appending it never makes
      the row longer), so every row must hold at least one cell. */
  predicate NonEmptyRows(t: Slope) {
    forall i :: 0 <= i < |t| ==> 0 < |t[i]|
  }

  /** The cell at (row, col) of the slope repeated to the right. */
  function CellAt(t: Slope, row: nat, col: nat): char
    requires row < |t| && 0 < |t[row]|
  {
    t[row][col % |t[row]|]
  }

  /** The mark a visit leaves on the cell it reads. */
  function Mark(cell: char): (m: char)
    ensures m == HIT <==> cell == TREE
    ensures m == HIT || m == MISS
  {
    if cell == TREE then HIT else MISS
  }

  /** Row i is one the toboggan lands on: a positive multiple of `down`. */
  predicate Landed(i: nat, down: nat)
    requires 0 < down
  {
    0 < i && i % down == 0
  }

  /** The trees met on the visits k, k+1, ...: visit k reads row k*down,
      column k*right. */
  function TreesFrom(t: Slope, right: nat, down: nat, k: nat): nat
    requires 0 < down && NonEmptyRows(t)
    decreases |t| - k * down
  {
    if k * down >= |t| then 0
    else (if CellAt(t, k * down, k * right) == TREE then 1 else 0) + TreesFrom(t, right, down, k + 1)
  }

  /** The number of visits k, k+1, ... that land inside the slope. */
  function VisitsFrom(n: nat, down: nat, k: nat): nat
    requires 0 < down
    decreases n - k * down
  {
    if k * down >= n then 0 else 1 + VisitsFrom(n, down, k + 1)
  }

  /** Visits 1, 2, ... land on rows down, 2*down, ... below the last row:
      (n - 1) / down of them. */
  lemma {:induction false} VisitsClosedForm(n: nat, down: nat, k: nat)
    requires 0 < down && 1 <= k
    ensures VisitsFrom(n, down, k) == if k * down >= n then 0 else (n - 1) / down - k + 1
    decreases n - k * down
  {
    if k * down < n {
      VisitsClosedForm(n, down, k + 1);
      assert (k + 1) * down == k * down + down;
      if (k + 1) * down >= n {
        DivBetween(n - 1, down, k);
      } else {
        assert (n - 1) / down >= k + 1 by {
          DivAtLeast(n - 1, down, k + 1);
        }
      }
    }
  }

  lemma DivBetween(m: nat, d: nat, k: nat)
    requires 0 < d && k * d <= m < k * d + d
    ensures m / d == k
  {
    var q := m / d;
    assert m == q * d + m % d;
    if q < k {
      assert (q + 1) * d <= k * d by { MulMonotone(q + 1, k, d); }
    } else if q > k {
      assert (k + 1) * d <= q * d by { MulMonotone(k + 1, q, d); }
    }
  }

  lemma DivAtLeast(m: nat, d: nat, k: nat)
    requires 0 < d && k * d <= m
    ensures k <= m / d
  {
    var q := m / d;
    assert m == q * d + m % d;
    if q < k {
      assert (q + 1) * d <= k * d by { MulMonotone(q + 1, k, d); }
    }
  }

  lemma MulMonotone(a: nat, b: nat, d: nat)
    requires a <= b
    ensures a * d <= b * d
  {
  }

  /** Every visit meets at most one tree. */
  lemma {:induction false} TreesAtMostVisits(t: Slope, right: nat, down: nat, k: nat)
    requires 0 < down && NonEmptyRows(t)
    ensures TreesFrom(t, right, down, k) <= VisitsFrom(|t|, down, k)
    decreases |t| - k * down
  {
    if k * down < |t| {
      TreesAtMostVisits(t, right, down, k + 1);
    }
  }

  /** `count_trees(template, right, down)`: the number of trees met, and the
      marked working copy. Requires `down > 0` (the loop never ends
      otherwise) and non-empty rows. */
  method CountTrees(t: Slope, right: nat, down: nat) returns (count: nat, marked: Slope)
    requires 0 < down && NonEmptyRows(t)
    ensures count == TreesFrom(t, right, down, 1)
    ensures count <= VisitsFrom(|t|, down, 1)
    ensures |marked| == |t|
    ensures forall i :: 0 <= i < |t| && !Landed(i, down) ==> marked[i] == t[i]
    ensures forall i :: 0 <= i < |t| && Landed(i, down) ==>
      Visited(t, marked[i], i, (i / down) * right)
  {
    var rows := t;
    var h := right;
    var v := down;
    ghost var k := 1;
    count := 0;
    while v < |t|
      invariant 1 <= k && v == k * down && h == k * right
      invariant count + TreesFrom(t, right, down, k) == TreesFrom(t, right, down, 1)
      invariant WorkingCopy(t, rows, v, right, down)
      decreases |t| - v
    {
      var p := Repeat(rows[v], h);
      var cell := p[h];
      VisitStep(t, rows, p, k, right, down);
      NextVisit(t, right, down, k);
      if cell == TREE {
        count := count + 1;
      }
      rows := rows[v := p[h := Mark(cell)]];
      h := h + right;
      v := v + down;
      k := k + 1;
    }
    marked := rows;
    FinalCopy(t, marked, v, right, down);
    TreesAtMostVisits(t, right, down, 1);
  }

  /** Row `row` of the working copy is the template row repeated, except that
      the cell at `col` carries the mark of the cell read there. */
  ghost predicate Visited(t: Slope, r: seq<char>, row: nat, col: nat)
    requires row < |t| && 0 < |t[row]|
  {
    col < |r| && r[col] == Mark(CellAt(t, row, col)) &&
    forall j :: 0 <= j < |r| && j != col ==> r[j] == CellAt(t, row, j)
  }

  /** The working copy before the visit that lands on row `v`: rows at or
      below `v` and rows never landed on are the template's, rows landed on
      above `v` carry their mark. */
  ghost predicate WorkingCopy(t: Slope, rows: Slope, v: nat, right: nat, down: nat)
    requires 0 < down && NonEmptyRows(t)
  {
    |rows| == |t| &&
    (forall i :: 0 <= i < |t| && (i >= v || !Landed(i, down)) ==> rows[i] == t[i]) &&
    (forall i :: 0 <= i < v && i < |t| && Landed(i, down) ==> Visited(t, rows[i], i, (i / down) * right))
  }

  /** The k-th visit replaces its row by `row`, the template row repeated past
      the column with the mark at the column; the next visit lands `down` rows lower. */
  lemma MarkStep(t: Slope, rows: Slope, row: seq<char>, k: nat, right: nat, down: nat)
    requires 0 < down && NonEmptyRows(t) && 1 <= k && k * down < |t|
    requires WorkingCopy(t, rows, k * down, right, down)
    requires Visited(t, row, k * down, k * right)
    ensures WorkingCopy(t, rows[k * down := row], k * down + down, right, down)
  {
    var v := k * down;
    var rows' := rows[v := row];
    MultipleFacts(k, down);
    assert Landed(v, down);
    forall i | 0 <= i < |t| && (i >= v + down || !Landed(i, down))
      ensures rows'[i] == t[i]
    {
      assert i != v;
      assert rows'[i] == rows[i];
    }
    forall i | 0 <= i < v + down && i < |t| && Landed(i, down)
      ensures Visited(t, rows'[i], i, (i / down) * right)
    {
      LandedBetween(i, k, down);
      if i == v {
        assert (i / down) * right == k * right;
      } else {
        assert rows'[i] == rows[i];
      }
    }
  }

  /** Once the visits have passed the last row, the working copy is final. */
  lemma FinalCopy(t: Slope, rows: Slope, v: nat, right: nat, down: nat)
    requires 0 < down && NonEmptyRows(t) && |t| <= v
    requires WorkingCopy(t, rows, v, right, down)
    ensures |rows| == |t|
    ensures forall i :: 0 <= i < |t| && !Landed(i, down) ==> rows[i] == t[i]
    ensures forall i :: 0 <= i < |t| && Landed(i, down) ==>
      Visited(t, rows[i], i, (i / down) * right)
  {
  }

  /** Visit k counts its cell's tree and moves `down` rows and `right`
      columns on. */
  lemma NextVisit(t: Slope, right: nat, down: nat, k: nat)
    requires 0 < down && NonEmptyRows(t) && k * down < |t|
    ensures TreesFrom(t, right, down, k) ==
      (if CellAt(t, k * down, k * right) == TREE then 1 else 0) + TreesFrom(t, right, down, k + 1)
    ensures (k + 1) * down == k * down + down && (k + 1) * right == k * right + right
  {
  }

  /** The k-th visit reads the template's cell from the repeated row and
      leaves a working copy ready for the next visit. */
  lemma VisitStep(t: Slope, rows: Slope, p: seq<char>, k: nat, right: nat, down: nat)
    requires 0 < down && NonEmptyRows(t) && 1 <= k && k * down < |t|
    requires WorkingCopy(t, rows, k * down, right, down)
    requires k * right < |p|
    requires forall j :: 0 <= j < |p| ==> p[j] == rows[k * down][j % |rows[k * down]|]
    ensures p[k * right] == CellAt(t, k * down, k * right)
    ensures WorkingCopy(t, rows[k * down := p[k * right := Mark(p[k * right])]], k * down + down, right, down)
  {
    var v := k * down;
    assert rows[v] == t[v];
    var row := p[k * right := Mark(p[k * right])];
    assert Visited(t, row, v, k * right);
    MarkStep(t, rows, row, k, right, down);
  }

  /** No row strictly between two consecutive landings is landed on. */
  lemma LandedBetween(i: nat, k: nat, d: nat)
    requires 0 < d
    ensures Landed(i, d) && i < k * d + d ==> i <= k * d
  {
    if k * d < i < k * d + d {
      DivBetween(i, d, k);
    }
  }

  /** The inner loop of `count_trees`: the row, which is still the template
      row, extended by whole copies of itself until column `h` exists. */
  method Repeat(r: seq<char>, h: nat) returns (p: seq<char>)
    requires 0 < |r|
    ensures h < |p|
    ensures forall j :: 0 <= j < |p| ==> p[j] == r[j % |r|]
  {
    p := r;
    SelfMod(|r|);
    assert Periodic(p, r) by {
      forall j | 0 <= j < |p| ensures p[j] == r[j % |r|] {
        SmallMod(j, |r|);
      }
    }
    while |p| < h + 1
      invariant |p| % |r| == 0 && Periodic(p, r)
      decreases h + 1 - |p|
    {
      PeriodicAppend(p, r);
      p := p + r;
    }
  }

  /** `p` repeats `r` from its start. */
  ghost predicate Periodic(p: seq<char>, r: seq<char>)
    requires 0 < |r|
  {
    forall j :: 0 <= j < |p| ==> p[j] == r[j % |r|]
  }

  /** One more whole copy keeps a whole number of periodic copies. */
  lemma PeriodicAppend(p: seq<char>, r: seq<char>)
    requires 0 < |r| && |p| % |r| == 0 && Periodic(p, r)
    ensures (|p| + |r|) % |r| == 0 && Periodic(p + r, r)
  {
    var a, w := |p|, |r|;
    forall j | a <= j < a + w ensures (p + r)[j] == r[j % w] {
      ModShift(j, a, w);
    }
    AddPeriod(a, w);
  }

  lemma SmallMod(j: nat, w: nat)
    requires j < w
    ensures j % w == j
  {
  }

  lemma SelfMod(w: nat)
    requires 0 < w
    ensures w % w == 0
  {
  }

  lemma AddPeriod(a: nat, w: nat)
    requires 0 < w && a % w == 0
    ensures (a + w) % w == 0
  {
    DivBetween(a, w, a / w);
    MultipleFacts(a / w + 1, w);
    assert a == (a / w) * w;
    assert a + w == (a / w + 1) * w;
  }

  lemma ModShift(j: nat, a: nat, w: nat)
    requires 0 < w && a % w == 0 && a <= j < a + w
    ensures j % w == j - a
  {
    var q := a / w;
    assert a == q * w;
    assert (q + 1) * w == a + w;
    DivBetween(j, w, q);
  }

  lemma MultipleFacts(k: nat, d: nat)
    requires 0 < d
    ensures (k * d) % d == 0 && (k * d) / d == k
  {
    DivBetween(k * d, d, k);
  }

  /** The tree count of one slope. */
  method Trees(t: Slope, right: nat, down: nat) returns (count: nat)
    requires 0 < down && NonEmptyRows(t)
    ensures count == TreesFrom(t, right, down, 1)
  {
    var marked;
    count, marked := CountTrees(t, right, down);
  }

  /** `part2`: the product of the tree counts over the five slopes
      (1, 1), (3, 1), (5, 1), (7, 1) and (1, 2). */
  method TreeProduct(t: Slope) returns (product: nat)
    requires NonEmptyRows(t)
    ensures product == TreesFrom(t, 1, 1, 1) * TreesFrom(t, 3, 1, 1) * TreesFrom(t, 5, 1, 1) *
      TreesFrom(t, 7, 1, 1) * TreesFrom(t, 1, 2, 1)
  {
    var c1 := Trees(t, 1, 1);
    var c2 := Trees(t, 3, 1);
    var c3 := Trees(t, 5, 1);
    var c4 := Trees(t, 7, 1);
    var c5 := Trees(t, 1, 2);
    product := c1 * c2 * c3 * c4 * c5;
  }
}
