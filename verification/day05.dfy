/** Binary boarding (src/day5.rs). A seat code of 'F'/'B' and 'L'/'R' letters
    halves a row range [0, 127] and a column range [0, 7], one letter at a
    time; when the code is used up both ranges must have shrunk to a single
    row and column. The seat id is row * 8 + col. Part 1 reports the highest
    id, part 2 the ids whose two neighbours are taken but which are not.

    `u8` arithmetic is modelled as in a debug build: `max - min` with
    `max < min` panics (an `Err`), which is what happens once a range has
    been split past a single value. */
module Day5 {
  import opened Wrappers
  import Text
  import SeqUtil
  import Bits

  const NUM_ROWS: nat := 128
  const NUM_COLS: nat := 8

  /** An inclusive range of candidate rows or columns, `(min, max)`. */
  datatype Range = Range(lo: nat, hi: nat)

  /** The row and column ranges while a code is read. */
  datatype Bounds = Bounds(row: Range, col: Range)

  datatype Seat = Seat(row: nat, col: nat)

  function Size(r: Range): int {
    r.hi - r.lo + 1
  }

  predicate Holds(r: Range, x: int) {
    r.lo <= x <= r.hi
  }

  /** `partition`: with mid = min + (max - min) / 2, the lower half is
      [min, mid] and the upper half [mid + 1, max]. */
  function Partition(r: Range, lowerHalf: bool): (h: Range)
    requires r.lo <= r.hi
    ensures r.lo <= h.lo && h.hi <= r.hi
    ensures h.lo <= h.hi + 1
    ensures r.lo < r.hi ==> h.lo <= h.hi
  {
    var mid := r.lo + (r.hi - r.lo) / 2;
    if lowerHalf then Range(r.lo, mid) else Range(mid + 1, r.hi)
  }

  /** The two halves are adjacent and together cover the range; the lower
      half is the larger when the size is odd. */
  lemma PartitionSplits(r: Range)
    requires r.lo <= r.hi
    ensures Partition(r, true).lo == r.lo && Partition(r, false).hi == r.hi
    ensures Partition(r, true).hi + 1 == Partition(r, false).lo
    ensures forall x :: Holds(r, x) ==> Holds(Partition(r, true), x) != Holds(Partition(r, false), x)
    ensures Size(Partition(r, true)) - Size(Partition(r, false)) in {0, 1}
  {
  }

  /** Halving a range of 2^m values (m >= 1) gives a range of 2^(m-1) values:
      the first ones for the lower half, the last ones for the upper. */
  lemma HalvePowerOfTwo(lo: nat, m: nat, lowerHalf: bool)
    requires 1 <= m
    ensures Partition(Range(lo, lo + Bits.Pow2(m) - 1), lowerHalf) ==
      var start := if lowerHalf then lo else lo + Bits.Pow2(m - 1);
      Range(start, start + Bits.Pow2(m - 1) - 1)
  {
    var p := Bits.Pow2(m - 1);
    assert Bits.Pow2(m) - 1 == 2 * (p - 1) + 1;
    assert (Bits.Pow2(m) - 1) / 2 == p - 1;
  }

  predicate IsSeatChar(c: char) {
    c == 'F' || c == 'B' || c == 'L' || c == 'R'
  }

  /** One letter of the loop in `parse`. */
  function Step(b: Bounds, c: char): (r: Result<Bounds>)
    ensures r.Err? ==> !IsSeatChar(c) || b.row.hi < b.row.lo || b.col.hi < b.col.lo
    ensures r.Ok? && (c == 'F' || c == 'B') ==> r.value.col == b.col
    ensures r.Ok? && (c == 'L' || c == 'R') ==> r.value.row == b.row
  {
    match c
    case 'F' | 'B' =>
      if b.row.hi < b.row.lo then Err("attempt to subtract with overflow")
      else Ok(b.(row := Partition(b.row, c == 'F')))
    case 'L' | 'R' =>
      if b.col.hi < b.col.lo then Err("attempt to subtract with overflow")
      else Ok(b.(col := Partition(b.col, c == 'L')))
    case _ => Err("Unexpected seat code character")
  }

  /** The letters of a code, read from the front. */
  function Decode(b: Bounds, code: string): Result<Bounds>
    decreases |code|
  {
    if |code| == 0 then Ok(b)
    else
      var next :- Step(b, code[0]);
      Decode(next, code[1..])
  }

  const Start: Bounds := Bounds(Range(0, NUM_ROWS - 1), Range(0, NUM_COLS - 1))

  /** `BoardingPass::new` / `parse`: the seat of a code, or the panic for a
      bad letter or a range that did not shrink to one value. */
  function ParseSeat(code: string): (r: Result<Seat>)
    ensures r.Ok? ==> Decode(Start, code) == Ok(Bounds(Range(r.value.row, r.value.row), Range(r.value.col, r.value.col)))
  {
    var b :- Decode(Start, code);
    if b.row.lo != b.row.hi then Err("assertion failed: row bounds differ")
    else if b.col.lo != b.col.hi then Err("assertion failed: column bounds differ")
    else Ok(Seat(b.row.lo, b.col.lo))
  }

  /** `get_seat_id`. Row and column can be read back from the id. */
  function SeatId(s: Seat): (id: nat)
    ensures s.col < NUM_COLS ==> id / NUM_COLS == s.row && id % NUM_COLS == s.col
  {
    s.row * NUM_COLS + s.col
  }

  // ---------------------------------------------------------------------------
  // What reading a code does
  // ---------------------------------------------------------------------------

  /** Every range stays inside the seat plan and at most one past collapsed. */
  predicate InPlan(b: Bounds) {
    b.row.lo <= b.row.hi + 1 && b.row.hi < NUM_ROWS &&
    b.col.lo <= b.col.hi + 1 && b.col.hi < NUM_COLS
  }

  /** Reading succeeds only on codes made of F, B, L and R, and never leaves
      the seat plan. */
  lemma {:induction false} DecodeSound(b: Bounds, code: string)
    requires InPlan(b)
    ensures Decode(b, code).Ok? ==> forall i :: 0 <= i < |code| ==> IsSeatChar(code[i])
    ensures Decode(b, code).Ok? ==> InPlan(Decode(b, code).value)
    decreases |code|
  {
    if 0 < |code| {
      var s := Step(b, code[0]);
      if s.Ok? {
        DecodeSound(s.value, code[1..]);
        if Decode(b, code).Ok? {
          assert forall i :: 1 <= i < |code| ==> code[i] == code[1..][i - 1];
        }
      }
    }
  }

  /** A decoded seat lies in the 128 x 8 plane, so its id is below 1024. */
  lemma ParsedSeatInPlan(code: string)
    ensures ParseSeat(code).Ok? ==>
      ParseSeat(code).value.row < NUM_ROWS && ParseSeat(code).value.col < NUM_COLS &&
      SeatId(ParseSeat(code).value) < NUM_ROWS * NUM_COLS
    ensures ParseSeat(code).Ok? ==> forall i :: 0 <= i < |code| ==> IsSeatChar(code[i])
  {
    DecodeSound(Start, code);
  }

  /** Reading a code in two pieces is reading the first, then the second. */
  lemma {:induction false} DecodeAppend(b: Bounds, s: string, t: string)
    ensures Decode(b, s + t) == if Decode(b, s).Err? then Decode(b, s) else Decode(Decode(b, s).value, t)
    decreases |s|
  {
    if |s| == 0 {
      assert s + t == t;
    } else {
      assert (s + t)[0] == s[0] && (s + t)[1..] == s[1..] + t;
      var st := Step(b, s[0]);
      if st.Ok? {
        DecodeAppend(st.value, s[1..], t);
        assert Decode(b, s) == Decode(st.value, s[1..]);
        assert Decode(b, s + t) == Decode(st.value, s[1..] + t);
      } else {
        assert Decode(b, s) == Err(st.error);
        assert Decode(b, s + t) == Err(st.error);
      }
    }
  }

  /** The value of a letter: 'B' and 'R' pick the upper half. */
  function Bit(c: char): nat {
    if c == 'B' || c == 'R' then 1 else 0
  }

  /** The value a letter contributes in position n from the right. */
  function Weight(c: char, n: nat): (v: nat)
    ensures v == Bit(c) * Bits.Pow2(n)
  {
    if Bit(c) == 1 then Bits.Pow2(n) else 0
  }

  /** The code read as a binary number, most significant letter first. */
  function BinValue(s: string): (v: nat)
    ensures v < Bits.Pow2(|s|)
  {
    if |s| == 0 then 0 else Weight(s[0], |s| - 1) + BinValue(s[1..])
  }

  lemma {:induction false} BinValueAppend(s: string, t: string)
    ensures BinValue(s + t) == BinValue(s) * Bits.Pow2(|t|) + BinValue(t)
    decreases |s|
  {
    if |s| == 0 {
      assert s + t == t;
    } else {
      assert (s + t)[0] == s[0] && (s + t)[1..] == s[1..] + t;
      BinValueAppend(s[1..], t);
      Bits.Pow2Add(|s| - 1, |t|);
      assert BinValue(s + t) == Weight(s[0], |s| - 1 + |t|) + BinValue(s[1..]) * Bits.Pow2(|t|) + BinValue(t);
      Scale(Bit(s[0]), Bits.Pow2(|s| - 1), BinValue(s[1..]), Bits.Pow2(|t|));
    }
  }

  /** (b * p + v) * w, spelt out. */
  lemma Scale(b: nat, p: nat, v: nat, w: nat)
    ensures (b * p + v) * w == b * (p * w) + v * w
  {
  }

  predicate IsRowCode(s: string) {
    forall i :: 0 <= i < |s| ==> s[i] == 'F' || s[i] == 'B'
  }

  predicate IsColCode(s: string) {
    forall i :: 0 <= i < |s| ==> s[i] == 'L' || s[i] == 'R'
  }

  /** n row letters narrow a row range of 2^n values to the one row they
      spell in binary, and leave the columns alone. */
  lemma {:induction false} DecodeRows(b: Bounds, s: string)
    requires IsRowCode(s) && b.row.hi == b.row.lo + Bits.Pow2(|s|) - 1
    ensures var v := b.row.lo + BinValue(s); Decode(b, s) == Ok(b.(row := Range(v, v)))
    decreases |s|
  {
    if 0 < |s| {
      var w := Bits.Pow2(|s| - 1);
      HalvePowerOfTwo(b.row.lo, |s|, s[0] == 'F');
      var lo := b.row.lo + Weight(s[0], |s| - 1);
      var next := b.(row := Range(lo, lo + w - 1));
      assert Step(b, s[0]) == Ok(next);
      assert Decode(b, s) == Decode(next, s[1..]);
      assert IsRowCode(s[1..]);
      DecodeRows(next, s[1..]);
      assert lo + BinValue(s[1..]) == b.row.lo + BinValue(s);
    }
  }

  /** The same for column letters. */
  lemma {:induction false} DecodeCols(b: Bounds, s: string)
    requires IsColCode(s) && b.col.hi == b.col.lo + Bits.Pow2(|s|) - 1
    ensures var v := b.col.lo + BinValue(s); Decode(b, s) == Ok(b.(col := Range(v, v)))
    decreases |s|
  {
    if 0 < |s| {
      var w := Bits.Pow2(|s| - 1);
      HalvePowerOfTwo(b.col.lo, |s|, s[0] == 'L');
      var lo := b.col.lo + Weight(s[0], |s| - 1);
      var next := b.(col := Range(lo, lo + w - 1));
      assert Step(b, s[0]) == Ok(next);
      assert Decode(b, s) == Decode(next, s[1..]);
      assert IsColCode(s[1..]);
      DecodeCols(next, s[1..]);
      assert lo + BinValue(s[1..]) == b.col.lo + BinValue(s);
    }
  }

  /** A well-formed code: seven row letters, then three column letters. */
  predicate WellFormed(code: string) {
    |code| == 10 && IsRowCode(code[..7]) && IsColCode(code[7..])
  }

  /** A well-formed code names the row and column its letters spell in binary. */
  lemma WellFormedDecodes(code: string)
    requires WellFormed(code)
    ensures ParseSeat(code) == Ok(Seat(BinValue(code[..7]), BinValue(code[7..])))
  {
    var rows, cols := code[..7], code[7..];
    assert code == rows + cols;
    DecodeAppend(Start, rows, cols);
    assert Bits.Pow2(7) == 128 && Bits.Pow2(3) == 8;
    DecodeRows(Start, rows);
    var b := Decode(Start, rows).value;
    DecodeCols(b, cols);
  }

  /** ... so the seat id is the whole code read as a ten-bit number, and
      different well-formed codes name different seats. */
  lemma SeatIdIsBinary(code: string)
    requires WellFormed(code)
    ensures ParseSeat(code).Ok? && SeatId(ParseSeat(code).value) == BinValue(code)
  {
    WellFormedDecodes(code);
    assert code == code[..7] + code[7..];
    BinValueAppend(code[..7], code[7..]);
    assert Bits.Pow2(3) == 8;
  }

  /** The empty code (the piece after a trailing newline) leaves both ranges
      unsplit, so its `assert_eq!` panics. */
  lemma EmptyCodeRejected()
    ensures ParseSeat("").Err?
  {
  }

  /** A well-formed code whose two parts spell `row` and `col`. */
  lemma SeatOfParts(code: string, rows: string, cols: string, row: nat, col: nat)
    requires WellFormed(code) && code[..7] == rows && code[7..] == cols
    requires BinValue(rows) == row && BinValue(cols) == col
    ensures ParseSeat(code) == Ok(Seat(row, col))
  {
    WellFormedDecodes(code);
  }

  /** The codes of the unit test. */
  lemma ExampleFirstRow()
    ensures BinValue("BFFFBBF") == 70
  {
    assert BinValue("BF") == 2 by { assert "BF"[1..] == "F"; }
    assert BinValue("BBF") == 6 by { assert "BBF"[1..] == "BF"; }
    assert BinValue("FBBF") == 6 by { assert "FBBF"[1..] == "BBF"; }
    assert BinValue("FFBBF") == 6 by { assert "FFBBF"[1..] == "FBBF"; }
    assert BinValue("FFFBBF") == 6 by { assert "FFFBBF"[1..] == "FFBBF"; }
    assert "BFFFBBF"[1..] == "FFFBBF";
  }

  lemma ExampleFirst(code: string)
    requires code == "BFFFBBFRRR"
    ensures ParseSeat(code) == Ok(Seat(70, 7)) && SeatId(Seat(70, 7)) == 567
  {
    assert WellFormed(code) && code[..7] == "BFFFBBF" && code[7..] == "RRR";
    ExampleFirstRow();
    assert BinValue("RRR") == 7;
    SeatOfParts(code, "BFFFBBF", "RRR", 70, 7);
  }

  lemma ExampleSecondRow()
    ensures BinValue("FFFBBBF") == 14
  {
    assert BinValue("BF") == 2 by { assert "BF"[1..] == "F"; }
    assert BinValue("BBF") == 6 by { assert "BBF"[1..] == "BF"; }
    assert BinValue("BBBF") == 14 by { assert "BBBF"[1..] == "BBF"; }
    assert BinValue("FBBBF") == 14 by { assert "FBBBF"[1..] == "BBBF"; }
    assert BinValue("FFBBBF") == 14 by { assert "FFBBBF"[1..] == "FBBBF"; }
    assert "FFFBBBF"[1..] == "FFBBBF";
  }

  lemma ExampleSecond(code: string)
    requires code == "FFFBBBFRRR"
    ensures ParseSeat(code) == Ok(Seat(14, 7)) && SeatId(Seat(14, 7)) == 119
  {
    assert WellFormed(code) && code[..7] == "FFFBBBF" && code[7..] == "RRR";
    ExampleSecondRow();
    assert BinValue("RRR") == 7;
    SeatOfParts(code, "FFFBBBF", "RRR", 14, 7);
  }

  lemma ExampleThirdRow()
    ensures BinValue("BBFFBBF") == 102
  {
    assert BinValue("BF") == 2 by { assert "BF"[1..] == "F"; }
    assert BinValue("BBF") == 6 by { assert "BBF"[1..] == "BF"; }
    assert BinValue("FBBF") == 6 by { assert "FBBF"[1..] == "BBF"; }
    assert BinValue("FFBBF") == 6 by { assert "FFBBF"[1..] == "FBBF"; }
    assert BinValue("BFFBBF") == 38 by { assert "BFFBBF"[1..] == "FFBBF"; }
    assert "BBFFBBF"[1..] == "BFFBBF";
  }

  lemma ExampleThird(code: string)
    requires code == "BBFFBBFRLL"
    ensures ParseSeat(code) == Ok(Seat(102, 4)) && SeatId(Seat(102, 4)) == 820
  {
    assert WellFormed(code) && code[..7] == "BBFFBBF" && code[7..] == "RLL";
    ExampleThirdRow();
    assert BinValue("RLL") == 4;
    SeatOfParts(code, "BBFFBBF", "RLL", 102, 4);
  }

  // ---------------------------------------------------------------------------
  // Reading the list and the two parts
  // ---------------------------------------------------------------------------

  /** The loop of `stdin_to_boarding_passes` over the lines already read. */
  function ParseAll(lines: seq<string>): (r: Result<seq<Seat>>)
    ensures r.Err? <==> exists i :: 0 <= i < |lines| && ParseSeat(lines[i]).Err?
    ensures r.Ok? ==> |r.value| == |lines|
    ensures r.Ok? ==> forall i :: 0 <= i < |lines| ==> ParseSeat(lines[i]) == Ok(r.value[i])
  {
    if |lines| == 0 then Ok([])
    else
      var first :- ParseSeat(lines[0]);
      var rest :- ParseAll(lines[1..]);
      assert forall i :: 1 <= i < |lines| ==> lines[i] == lines[1..][i - 1];
      Ok([first] + rest)
  }

  /** `stdin_to_boarding_passes` on the text read: one code per line. */
  function BoardingPasses(input: string): (r: Result<seq<Seat>>)
    ensures r.Err? <==> exists i :: 0 <= i < |Text.Split(input, '\n')| && ParseSeat(Text.Split(input, '\n')[i]).Err?
    ensures r.Ok? ==> |r.value| == |Text.Split(input, '\n')|
    ensures r.Ok? ==> forall i :: 0 <= i < |r.value| ==> ParseSeat(Text.Split(input, '\n')[i]) == Ok(r.value[i])
  {
    ParseAll(Text.Split(input, '\n'))
  }

  /** `part1`: the highest seat id, starting from 0. */
  method HighestSeatId(seats: seq<Seat>) returns (m: nat)
    ensures forall i :: 0 <= i < |seats| ==> SeatId(seats[i]) <= m
    ensures m == 0 || exists i :: 0 <= i < |seats| && SeatId(seats[i]) == m
  {
    m := 0;
    for i := 0 to |seats|
      invariant forall j :: 0 <= j < i ==> SeatId(seats[j]) <= m
      invariant m == 0 || exists j :: 0 <= j < i && SeatId(seats[j]) == m
    {
      var id := SeatId(seats[i]);
      if id > m {
        m := id;
      }
    }
  }

  /** The ids `part2` keeps: seats outside the first and last row. */
  function InnerSeatIds(seats: seq<Seat>): (ids: seq<int>)
    ensures forall x :: x in ids <==>
      exists i :: 0 <= i < |seats| && seats[i].row != 0 && seats[i].row != NUM_ROWS - 1 && SeatId(seats[i]) == x
  {
    if |seats| == 0 then []
    else
      var rest := InnerSeatIds(seats[1..]);
      assert forall i :: 1 <= i < |seats| ==> seats[i] == seats[1..][i - 1];
      assert forall i :: 0 <= i < |seats| - 1 ==> seats[1..][i] == seats[i + 1];
      if seats[0].row == 0 || seats[0].row == NUM_ROWS - 1 then rest
      else [SeatId(seats[0])] + rest
  }

  /** Sorted ids at i and i + 1 leave out exactly one id between them. */
  predicate Gap(s: seq<int>, i: int) {
    0 <= i < |s| - 1 && s[i + 1] == s[i] + 2
  }

  /** The scan of `part2` from index i on: the id in every gap. */
  function GapsFrom(s: seq<int>, i: nat): (r: seq<int>)
    requires i < |s|
    ensures forall x :: x in r <==> exists j :: i <= j && Gap(s, j) && x == s[j] + 1
    decreases |s| - i
  {
    if i == |s| - 1 then []
    else (if s[i + 1] == s[i] + 2 then [s[i] + 1] else []) + GapsFrom(s, i + 1)
  }

  /** `part2`: the seats found between two taken ones. The loop bound
      `seat_ids.len() - 1` underflows on an empty list. */
  function FoundSeats(seats: seq<Seat>): (r: Result<seq<int>>)
    ensures r.Err? <==> |InnerSeatIds(seats)| == 0
  {
    var sorted := SeqUtil.Sort(InnerSeatIds(seats));
    if |sorted| == 0 then Err("attempt to subtract with overflow") else Ok(GapsFrom(sorted, 0))
  }

  /** A seat is reported exactly when it is free while both its neighbours
      are taken (counting only the inner rows). */
  lemma FoundSeatsMeaning(seats: seq<Seat>, x: int)
    requires FoundSeats(seats).Ok?
    ensures x in FoundSeats(seats).value <==>
      var ids := InnerSeatIds(seats);
      x !in ids && x - 1 in ids && x + 1 in ids
  {
    var ids := InnerSeatIds(seats);
    var sorted := SeqUtil.Sort(ids);
    assert forall y :: y in sorted <==> y in ids by {
      forall y ensures y in sorted <==> y in ids {
        assert y in multiset(sorted) <==> y in multiset(ids);
      }
    }
    GapMeaning(sorted, x);
  }

  /** In an ascending list, a gap sits exactly around each missing value
      whose two neighbours are present. */
  lemma GapMeaning(s: seq<int>, x: int)
    requires SeqUtil.Sorted(s)
    ensures (exists i :: Gap(s, i) && x == s[i] + 1) <==> (x !in s && x - 1 in s && x + 1 in s)
  {
    if exists i :: Gap(s, i) && x == s[i] + 1 {
      var i :| Gap(s, i) && x == s[i] + 1;
      GapMissing(s, i);
    }
    if x !in s && x - 1 in s && x + 1 in s {
      var i := GapAround(s, x);
    }
  }

  /** The id inside a gap is absent and both its neighbours are present. */
  lemma GapMissing(s: seq<int>, i: int)
    requires SeqUtil.Sorted(s) && Gap(s, i)
    ensures s[i] + 1 !in s && s[i] in s && s[i] + 2 in s
  {
    forall t | 0 <= t < |s| ensures s[t] != s[i] + 1 {
      if t <= i {
        assert s[t] <= s[i];
      } else {
        assert s[i + 1] <= s[t];
      }
    }
  }

  /** An absent id whose two neighbours are present sits in a gap. */
  lemma GapAround(s: seq<int>, x: int) returns (i: int)
    requires SeqUtil.Sorted(s)
    requires x !in s && x - 1 in s && x + 1 in s
    ensures Gap(s, i) && x == s[i] + 1
  {
    var j :| 0 <= j < |s| && s[j] == x - 1;
    var k :| 0 <= k < |s| && s[k] == x + 1;
    assert j < k;
    i := Crossing(s, j, k, x);
    assert s[j] <= s[i] && s[i + 1] <= s[k];
  }

  /** Between a position below `x` and a later one above it there is a step
      over `x`, when `x` itself does not occur. */
  lemma {:induction false} Crossing(s: seq<int>, j: nat, k: nat, x: int) returns (i: nat)
    requires j < k < |s| && s[j] < x < s[k] && x !in s
    ensures j <= i < k && s[i] < x < s[i + 1]
    decreases k - j
  {
    if s[j + 1] > x {
      i := j;
    } else {
      assert s[j + 1] != x;
      i := Crossing(s, j + 1, k, x);
    }
  }
}
