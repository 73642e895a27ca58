/** Rambunctious recitation (src/day15.rs). After the starting numbers, each
    turn says 0 when the last number had not been said before, and otherwise
    how many turns ago it was last said before that. The game keeps every turn,
    the position each number was last said at (`number_positions`), and, for
    every number said, how many times it was said after its first time
    (`number_spoken_count`).

    `usize` overflow is not modelled. The 30 000 000 turns of part 2 are the
    same function with a larger target. */
module Day15 {
  import opened Wrappers
  import Text
  import SeqUtil

  datatype Game = Game(turns: seq<nat>, positions: map<nat, nat>, spoken: map<nat, nat>)

  /** The last position of `x` in `s`. */
  function LastIndex(s: seq<nat>, x: nat): (i: nat)
    requires x in s
    ensures i < |s| && s[i] == x
    ensures forall j :: i < j < |s| ==> s[j] != x
  {
    if s[|s| - 1] == x then |s| - 1 else LastIndex(s[..|s| - 1], x)
  }

  /** Appending `y` makes `y`'s last position the new end and keeps the
      others. */
  lemma LastIndexSnoc(s: seq<nat>, y: nat, x: nat)
    requires x in s + [y]
    ensures x == y ==> LastIndex(s + [y], x) == |s|
    ensures x != y ==> x in s && LastIndex(s + [y], x) == LastIndex(s, x)
  {
    assert (s + [y])[..|s|] == s;
  }

  // ---------------------------------------------------------------------------
  // The reference sequence
  // ---------------------------------------------------------------------------

  /** The number said after the turns `t`: 0 when the last number is new,
      else the distance back to its previous turn. */
  function SpecNext(t: seq<nat>): (n: nat)
    requires 0 < |t|
    ensures n < |t|
  {
    var pos := |t| - 1;
    if t[pos] in t[..pos] then pos - LastIndex(t[..pos], t[pos]) else 0
  }

  /** The turns `t` continued by the rule up to `target` turns. */
  function Extend(t: seq<nat>, target: nat): (r: seq<nat>)
    requires 0 < |t|
    ensures |t| <= |r| && r[..|t|] == t
    ensures |r| == if target < |t| then |t| else target
    decreases target - |t|
  {
    if target <= |t| then t else Extend(t + [SpecNext(t)], target)
  }

  // ---------------------------------------------------------------------------
  // The game
  // ---------------------------------------------------------------------------

  /** The loop of `Game::new` over the first `n` starting numbers: the
      position of each is its index, a later duplicate overriding an earlier
      one, and the count of each is reset to 0. */
  function Record(starting: seq<nat>, n: nat): (r: (map<nat, nat>, map<nat, nat>))
    requires n <= |starting|
    ensures r.0.Keys == (set x | x in starting[..n]) && r.1.Keys == r.0.Keys
    ensures forall x :: x in starting[..n] ==> r.0[x] == LastIndex(starting[..n], x)
    ensures forall x :: x in r.1 ==> r.1[x] == 0
  {
    if n == 0 then (map[], map[])
    else
      var prev := Record(starting, n - 1);
      var y := starting[n - 1];
      assert starting[..n] == starting[..n - 1] + [y];
      RecordStep(starting[..n - 1], y, prev.0);
      (prev.0[y := n - 1], prev.1[y := 0])
  }

  lemma RecordStep(s: seq<nat>, y: nat, positions: map<nat, nat>)
    requires positions.Keys == (set x | x in s)
    requires forall x :: x in s ==> positions[x] == LastIndex(s, x)
    ensures positions[y := |s|].Keys == (set x | x in s + [y])
    ensures forall x :: x in s + [y] ==> positions[y := |s|][x] == LastIndex(s + [y], x)
  {
    forall x | x in s + [y] ensures positions[y := |s|][x] == LastIndex(s + [y], x) {
      LastIndexSnoc(s, y, x);
    }
  }

  /** `Game::new`. */
  function New(starting: seq<nat>): (g: Game)
    ensures g.turns == starting
    ensures g.positions.Keys == (set x | x in starting) && g.spoken.Keys == g.positions.Keys
    ensures forall x :: x in starting ==> g.positions[x] == LastIndex(starting, x)
    ensures forall x :: x in g.spoken ==> g.spoken[x] == 0
  {
    var r := Record(starting, |starting|);
    assert starting[..|starting|] == starting;
    Game(starting, r.0, r.1)
  }

  /** `turn_count`. */
  function TurnCount(g: Game): nat {
    |g.turns|
  }

  /** `get_last_turn_number`: `unwrap` on the last of no turns panics. */
  function LastTurnNumber(g: Game): (r: Result<nat>)
    ensures r.Ok? <==> 0 < |g.turns|
    ensures r.Ok? ==> r.value == g.turns[|g.turns| - 1]
  {
    if |g.turns| == 0 then Err("called `Option::unwrap()` on a `None` value")
    else Ok(g.turns[|g.turns| - 1])
  }

  /** The number `next_turn` says, from the count and position of the last
      number at position `pos`: each missing map entry is an `unwrap` panic
      and a recorded position after `pos` a subtraction overflow. */
  function Answer(g: Game, pos: nat, last: nat): (r: Result<nat>)
    ensures r.Ok? ==> r.value <= pos
    ensures r.Ok? <==> last in g.spoken && (g.spoken[last] > 0 ==> last in g.positions && g.positions[last] <= pos)
    ensures r.Ok? && g.spoken[last] == 0 ==> r.value == 0
    ensures r.Ok? && g.spoken[last] > 0 ==> r.value + g.positions[last] == pos
  {
    if last !in g.spoken then Err("called `Option::unwrap()` on a `None` value")
    else if g.spoken[last] == 0 then Ok(0)
    else if last !in g.positions then Err("called `Option::unwrap()` on a `None` value")
    else if g.positions[last] > pos then Err("attempt to subtract with overflow")
    else
      var distance: nat := pos - g.positions[last];
      Ok(distance)
  }

  /** `next_turn`: says the number `Answer` gives for the last turn, records
      the last turn's position, and counts the number said once more (or
      starts its count at 0 when it is new). */
  function NextTurn(g: Game): (r: Result<(Game, nat)>)
    ensures r.Ok? ==> 0 < |g.turns|
    ensures r.Ok? ==> r.value.0.turns == g.turns + [r.value.1]
    ensures r.Ok? ==> LastTurnNumber(r.value.0) == Ok(r.value.1)
    ensures r.Ok? ==> r.value.1 <= |g.turns| - 1
    ensures r.Ok? ==> r.value.0.positions == g.positions[g.turns[|g.turns| - 1] := |g.turns| - 1]
    ensures r.Ok? ==> r.value.0.spoken.Keys == g.spoken.Keys + {r.value.1}
    ensures r.Ok? <==> 0 < |g.turns| && Answer(g, |g.turns| - 1, g.turns[|g.turns| - 1]).Ok?
    ensures r.Ok? ==> Answer(g, |g.turns| - 1, g.turns[|g.turns| - 1]) == Ok(r.value.1)
    ensures r.Ok? ==>
      r.value.0.spoken[r.value.1] == (if r.value.1 in g.spoken then g.spoken[r.value.1] + 1 else 0)
    ensures r.Ok? ==> forall x :: x in g.spoken && x != r.value.1 ==> r.value.0.spoken[x] == g.spoken[x]
  {
    if |g.turns| == 0 then Err("attempt to subtract with overflow")
    else
      var pos := |g.turns| - 1;
      var last := g.turns[pos];
      var next := Answer(g, pos, last);
      if next.Err? then Err(next.error)
      else
        var n := next.value;
        var spoken := if n in g.spoken then g.spoken[n := g.spoken[n] + 1] else g.spoken[n := 0];
        Ok((Game(g.turns + [n], g.positions[last := pos], spoken), n))
  }

  /** The lookups of `next_turn` cannot fail: every number said has a count,
      every count above 0 has a position, and positions lie among the turns. */
  ghost predicate Valid(g: Game) {
    (forall x :: x in g.turns ==> x in g.spoken) &&
    (forall x :: x in g.spoken ==> x in g.positions || (0 < |g.turns| && x == g.turns[|g.turns| - 1])) &&
    (forall x :: x in g.spoken && g.spoken[x] > 0 ==> x in g.positions) &&
    (forall x :: x in g.positions ==> g.positions[x] < |g.turns|)
  }

  lemma NewValid(starting: seq<nat>)
    ensures Valid(New(starting))
  {
  }

  /** On a valid game with a turn, `next_turn` succeeds and keeps the game valid. */
  lemma NextTurnValid(g: Game)
    requires Valid(g) && 0 < |g.turns|
    ensures NextTurn(g).Ok?
    ensures Valid(NextTurn(g).value.0)
  {
    var pos := |g.turns| - 1;
    assert g.turns[pos] in g.turns;
    var g' := NextTurn(g).value.0;
    forall x | x in g'.turns ensures x in g'.spoken {
      if x in g.turns {
        assert x in g.spoken;
      }
    }
  }

  /** The game says the reference sequence: besides being valid, each count
      is the number of times the number was said after its first time, and
      each number said before the last turn has the position of its last
      turn before the last one. */
  ghost predicate Faithful(g: Game) {
    Valid(g) && 0 < |g.turns| &&
    (forall x :: x in g.spoken ==> g.spoken[x] + 1 == multiset(g.turns)[x]) &&
    (forall x :: x in g.turns[..|g.turns| - 1] ==> x in g.positions && g.positions[x] == LastIndex(g.turns[..|g.turns| - 1], x))
  }

  /** A game started from distinct numbers is faithful. */
  lemma NewFaithful(starting: seq<nat>)
    requires 0 < |starting| && SeqUtil.NoDuplicates(starting)
    ensures Faithful(New(starting))
  {
    NewValid(starting);
    NewCounts(starting);
    NewPositions(starting);
  }

  lemma NewCounts(starting: seq<nat>)
    requires SeqUtil.NoDuplicates(starting)
    ensures forall x :: x in New(starting).spoken ==> New(starting).spoken[x] + 1 == multiset(starting)[x]
  {
    var g := New(starting);
    forall x | x in g.spoken ensures g.spoken[x] + 1 == multiset(starting)[x] {
      var i :| 0 <= i < |starting| && starting[i] == x;
      DistinctOnce(starting, i);
    }
  }

  lemma NewPositions(starting: seq<nat>)
    requires 0 < |starting| && SeqUtil.NoDuplicates(starting)
    ensures forall x :: x in starting[..|starting| - 1] ==>
      (x in New(starting).positions && New(starting).positions[x] == LastIndex(starting[..|starting| - 1], x))
  {
    var g := New(starting);
    var n := |starting|;
    var init, y := starting[..n - 1], starting[n - 1];
    assert starting == init + [y];
    forall x | x in init ensures x in g.positions && g.positions[x] == LastIndex(init, x) {
      var i :| 0 <= i < n - 1 && init[i] == x;
      assert starting[i] == x;
      LastIndexSnoc(init, y, x);
    }
  }

  /** In a sequence without duplicates every element occurs once. */
  lemma {:induction false} DistinctOnce(s: seq<nat>, i: nat)
    requires SeqUtil.NoDuplicates(s) && i < |s|
    ensures multiset(s)[s[i]] == 1
  {
    var n := |s|;
    if i < n - 1 {
      var init := s[..n - 1];
      assert s == init + [s[n - 1]];
      assert init[i] == s[i];
      DistinctOnce(init, i);
    } else {
      var init := s[..n - 1];
      assert s == init + [s[n - 1]];
      assert s[i] !in init by {
        forall j | 0 <= j < n - 1 ensures init[j] != s[i] {
          assert init[j] == s[j];
        }
      }
    }
  }

  /** On a faithful game `next_turn` says the reference number and stays
      faithful. */
  lemma NextTurnFaithful(g: Game)
    requires Faithful(g)
    ensures NextTurn(g).Ok?
    ensures NextTurn(g).value.1 == SpecNext(g.turns)
    ensures Faithful(NextTurn(g).value.0)
  {
    NextTurnValid(g);
    NextIsSpec(g);
    var g' := NextTurn(g).value.0;
    assert g'.turns[..|g'.turns| - 1] == g.turns;
    CountsStep(g);
    PositionsStep(g);
  }

  lemma NextIsSpec(g: Game)
    requires Faithful(g)
    ensures NextTurn(g).Ok? && NextTurn(g).value.1 == SpecNext(g.turns)
  {
    NextTurnValid(g);
    var t := g.turns;
    var pos := |t| - 1;
    var last := t[pos];
    assert t == t[..pos] + [last];
    assert multiset(t)[last] == multiset(t[..pos])[last] + 1;
    assert last in g.spoken;
  }

  lemma CountsStep(g: Game)
    requires Faithful(g)
    ensures NextTurn(g).Ok?
    ensures forall x :: x in NextTurn(g).value.0.spoken ==>
      NextTurn(g).value.0.spoken[x] + 1 == multiset(NextTurn(g).value.0.turns)[x]
  {
    NextTurnValid(g);
    var g', n := NextTurn(g).value.0, NextTurn(g).value.1;
    forall x | x in g'.spoken ensures g'.spoken[x] + 1 == multiset(g'.turns)[x] {
      assert multiset(g'.turns)[x] == multiset(g.turns)[x] + (if x == n then 1 else 0);
      if x !in g.spoken {
        assert x !in g.turns;
      }
    }
  }

  lemma PositionsStep(g: Game)
    requires Faithful(g)
    ensures NextTurn(g).Ok?
    ensures forall x :: x in g.turns ==>
      (x in NextTurn(g).value.0.positions && NextTurn(g).value.0.positions[x] == LastIndex(g.turns, x))
  {
    NextTurnValid(g);
    var t := g.turns;
    var pos := |t| - 1;
    var init, last := t[..pos], t[pos];
    assert t == init + [last];
    forall x | x in t ensures x in NextTurn(g).value.0.positions && NextTurn(g).value.0.positions[x] == LastIndex(t, x) {
      LastIndexSnoc(init, last, x);
    }
  }

  /** `while game.turn_count() < target { game.next_turn(); }`. */
  function Play(g: Game, target: nat): (r: Result<Game>)
    ensures r.Ok? ==> |r.value.turns| == (if target < |g.turns| then |g.turns| else target)
    ensures r.Ok? ==> r.value.turns[..|g.turns|] == g.turns
    ensures r.Ok? && |g.turns| < target ==> 0 < |g.turns|
    decreases target - |g.turns|
  {
    if target <= |g.turns| then Ok(g)
    else
      var step := NextTurn(g);
      if step.Err? then Err(step.error)
      else
        var r := Play(step.value.0, target);
        assert r.Ok? ==> r.value.turns[..|g.turns|] == r.value.turns[..|g.turns| + 1][..|g.turns|];
        r
  }

  /** A faithful game plays out the reference sequence. */
  lemma {:induction false} PlayFaithful(g: Game, target: nat)
    requires Faithful(g)
    ensures Play(g, target).Ok?
    ensures Play(g, target).value.turns == Extend(g.turns, target)
    decreases target - |g.turns|
  {
    if |g.turns| < target {
      NextTurnFaithful(g);
      PlayFaithful(NextTurn(g).value.0, target);
    }
  }

  /** `get_starting_numbers`: one line of comma-separated numbers. */
  function StartingNumbers(input: seq<string>): (r: Result<seq<nat>>)
    ensures r.Ok? <==> |input| == 1 && AllNumbers(Text.Split(input[0], ','), 0)
    ensures r.Ok? ==> |r.value| == |Text.Split(input[0], ',')|
    ensures r.Ok? ==> Numbers(Text.Split(input[0], ','), 0, r.value)
  {
    if |input| != 1 then Err("assertion failed: one input line")
    else ParseAll(Text.Split(input[0], ','), 0)
  }

  /** Every piece from `i` on parses as a `usize`. */
  ghost predicate AllNumbers(pieces: seq<string>, i: nat) {
    forall k :: i <= k < |pieces| ==> Text.ParseUnsigned(pieces[k], Text.USIZE_MAX).Some?
  }

  /** `ns` are the values of the pieces from `i` on. */
  ghost predicate Numbers(pieces: seq<string>, i: nat, ns: seq<nat>)
    requires i + |ns| == |pieces|
  {
    forall k :: 0 <= k < |ns| ==> Text.ParseUnsigned(pieces[i + k], Text.USIZE_MAX) == Some(ns[k])
  }

  /** The `map(|x| x.parse().unwrap())` over the pieces from `i` on. */
  function ParseAll(pieces: seq<string>, i: nat): (r: Result<seq<nat>>)
    requires i <= |pieces|
    ensures r.Ok? <==> AllNumbers(pieces, i)
    ensures r.Ok? ==> i + |r.value| == |pieces| && Numbers(pieces, i, r.value)
    decreases |pieces| - i
  {
    if i == |pieces| then Ok([])
    else
      var first := Text.ParseUnsigned(pieces[i], Text.USIZE_MAX);
      var rest := ParseAll(pieces, i + 1);
      AllNumbersCons(pieces, i);
      if first.None? then Err("called `Result::unwrap()` on an `Err` value")
      else if rest.Err? then Err(rest.error)
      else
        NumbersCons(pieces, i, first.value, rest.value);
        Ok([first.value] + rest.value)
  }

  lemma AllNumbersCons(pieces: seq<string>, i: nat)
    requires i < |pieces|
    ensures AllNumbers(pieces, i) <==>
      Text.ParseUnsigned(pieces[i], Text.USIZE_MAX).Some? && AllNumbers(pieces, i + 1)
  {
  }

  lemma NumbersCons(pieces: seq<string>, i: nat, n: nat, ns: seq<nat>)
    requires i + 1 + |ns| == |pieces|
    requires Text.ParseUnsigned(pieces[i], Text.USIZE_MAX) == Some(n) && Numbers(pieces, i + 1, ns)
    ensures Numbers(pieces, i, [n] + ns)
  {
    var all := [n] + ns;
    forall k | 0 <= k < |all| ensures Text.ParseUnsigned(pieces[i + k], Text.USIZE_MAX) == Some(all[k]) {
      if 0 < k {
        assert all[k] == ns[k - 1];
      }
    }
  }

  /** The number said last once the game from `starting` has `target` turns. */
  function Say(starting: seq<nat>, target: nat): (r: Result<nat>)
    ensures r.Ok? ==> 0 < |starting|
  {
    var g :- Play(New(starting), target);
    LastTurnNumber(g)
  }

  /** The answer on the input: 2020 turns for part 1, 30 000 000 for part 2.
      It exists exactly when the input is one line of at least one number,
      and from distinct numbers it is the reference sequence's last number. */
  function LastSaid(input: seq<string>, target: nat): (r: Result<nat>)
    ensures r.Ok? <==> StartingNumbers(input).Ok? && 0 < |StartingNumbers(input).value|
    ensures r.Ok? && SeqUtil.NoDuplicates(StartingNumbers(input).value) ==>
      r.value == RuleLast(StartingNumbers(input).value, target)
  {
    var starting :- StartingNumbers(input);
    SayFacts(starting, target);
    Say(starting, target)
  }

  /** The last number of the rule's sequence up to `target` turns (0 when
      there is no starting number). */
  function RuleLast(starting: seq<nat>, target: nat): nat {
    if |starting| == 0 then 0
    else
      var t := Extend(starting, target);
      t[|t| - 1]
  }

  lemma {:induction false} RuleLastIsLast(starting: seq<nat>, target: nat)
    requires 0 < |starting|
    ensures RuleLast(starting, target) == Extend(starting, target)[|Extend(starting, target)| - 1]
  {
  }

  /** From distinct starting numbers the answer is the last number of the
      reference sequence. */
  lemma {:induction false} SayReference(starting: seq<nat>, target: nat)
    requires 0 < |starting| && SeqUtil.NoDuplicates(starting)
    ensures Say(starting, target).Ok?
    ensures Say(starting, target).value == Extend(starting, target)[|Extend(starting, target)| - 1]
  {
    var t := Extend(starting, target);
    PlayFromStart(starting, target);
    SayIs(starting, target, t);
    SayLast(starting, target, t);
  }

  lemma SayLast(starting: seq<nat>, target: nat, t: seq<nat>)
    requires 0 < |starting| && t == Extend(starting, target) && 0 < |t|
    requires Say(starting, target) == Ok(t[|t| - 1])
    ensures Say(starting, target).Ok? && Say(starting, target).value == Extend(starting, target)[|Extend(starting, target)| - 1]
  {
  }

  lemma {:induction false} SayIs(starting: seq<nat>, target: nat, t: seq<nat>)
    requires 0 < |t| && Play(New(starting), target).Ok? && Play(New(starting), target).value.turns == t
    ensures Say(starting, target) == Ok(t[|t| - 1])
  {
    SayOfPlay(starting, target);
    LastOfPlay(Say(starting, target), Play(New(starting), target), t);
  }

  lemma {:induction false} LastOfPlay(said: Result<nat>, played: Result<Game>, t: seq<nat>)
    requires played.Ok? && played.value.turns == t && 0 < |t|
    requires said == LastTurnNumber(played.value)
    ensures said == Ok(t[|t| - 1])
  {
  }

  lemma {:induction false} SayOfPlay(starting: seq<nat>, target: nat)
    requires Play(New(starting), target).Ok?
    ensures Say(starting, target) == LastTurnNumber(Play(New(starting), target).value)
  {
  }

  /** From distinct starting numbers the game plays the reference sequence. */
  lemma {:induction false} PlayFromStart(starting: seq<nat>, target: nat)
    requires 0 < |starting| && SeqUtil.NoDuplicates(starting)
    ensures Play(New(starting), target).Ok?
    ensures Play(New(starting), target).value.turns == Extend(starting, target)
  {
    NewFaithful(starting);
    PlayFaithful(New(starting), target);
  }

  /** On a valid game with a turn the loop of `play` never panics. */
  lemma {:induction false} PlayValid(g: Game, target: nat)
    requires Valid(g) && 0 < |g.turns|
    ensures Play(g, target).Ok?
    decreases target - |g.turns|
  {
    if |g.turns| < target {
      NextTurnValid(g);
      PlayValid(NextTurn(g).value.0, target);
    }
  }

  /** The game has an answer exactly when there is a starting number. */
  lemma {:induction false} SayTotal(starting: seq<nat>, target: nat)
    ensures Say(starting, target).Ok? <==> 0 < |starting|
  {
    if 0 < |starting| {
      NewValid(starting);
      PlayValid(New(starting), target);
    }
  }

  /** The answer exists exactly when there is a starting number, and from
      distinct numbers it is the reference sequence's last number. */
  lemma {:induction false} SayFacts(starting: seq<nat>, target: nat)
    ensures Say(starting, target).Ok? <==> 0 < |starting|
    ensures Say(starting, target).Ok? && SeqUtil.NoDuplicates(starting) ==>
      Say(starting, target).value == RuleLast(starting, target)
  {
    SayTotal(starting, target);
    if 0 < |starting| && SeqUtil.NoDuplicates(starting) {
      SayReference(starting, target);
      RuleLastIsLast(starting, target);
    }
  }

  /** A repeated starting number is not counted as said twice: after
      0, 3, 0 the game says 0, where the rule of the game gives 2. */
  lemma DuplicateStart()
    ensures Say([0, 3, 0], 4) == Ok(0)
    ensures Extend([0, 3, 0], 4) == [0, 3, 0, 2]
  {
    DuplicateStartSays();
    DuplicateStartRule();
  }

  lemma DuplicateStartSays()
    ensures Say([0, 3, 0], 4) == Ok(0)
  {
    var g := New([0, 3, 0]);
    assert g.spoken[0] == 0;
  }

  lemma DuplicateStartRule()
    ensures Extend([0, 3, 0], 4) == [0, 3, 0, 2]
  {
    assert [0, 3, 0][..2] == [0, 3];
    assert LastIndex([0, 3], 0) == 0;
  }

  const PART1_TURNS: nat := 2020
  const PART2_TURNS: nat := 30_000_000
}
