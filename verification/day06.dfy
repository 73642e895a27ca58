/** Customs declarations (src/day6.rs). Each passenger writes the letters of
    the questions they answered "yes" to; a group's passengers are the lines
    between blank lines. Part 1 counts, per group, the questions anyone
    answered (`get_unique_questions`), part 2 the letters of the first
    passenger that every other passenger also wrote (`get_common_questions`). */
module Day6 {
  import Text

  /** The answers of a group, one string per passenger. */
  type Group = seq<string>

  predicate NoDuplicates(s: string) {
    forall i, j :: 0 <= i < j < |s| ==> s[i] != s[j]
  }

  /** The distinct letters of a string. */
  function CharSet(s: string): set<char> {
    set c | c in s
  }

  /** Every answer of the group in passenger order. */
  function Flatten(g: Group): string {
    if |g| == 0 then "" else g[0] + Flatten(g[1..])
  }

  // ---------------------------------------------------------------------------
  // Questions anyone answered
  // ---------------------------------------------------------------------------

  /** `r` lists the distinct letters of `t`, each once, in the order of their
      first occurrence in `t`. */
  predicate FirstSeenOrder(r: string, t: string) {
    NoDuplicates(r) &&
    (forall c :: c in r <==> c in t) &&
    (forall i, j :: 0 <= i < j < |r| ==> Text.IndexOf(t, r[i]) < Text.IndexOf(t, r[j]))
  }

  /** The inner loop of `get_unique_questions`: every letter not yet in the
      result is pushed. */
  function AddNew(acc: string, s: string): string
    decreases |s|
  {
    if |s| == 0 then acc
    else AddNew(if s[0] in acc then acc else acc + [s[0]], s[1..])
  }

  /** The outer loop, over the passengers. */
  function UniqueFrom(acc: string, g: Group): string
    decreases |g|
  {
    if |g| == 0 then acc else UniqueFrom(AddNew(acc, g[0]), g[1..])
  }

  /** `get_unique_questions`. */
  function UniqueQuestions(g: Group): string {
    UniqueFrom("", g)
  }

  /** The letters anyone answered, each once, in the order they first appear;
      so the count of part 1 is the number of distinct letters. */
  lemma UniqueQuestionsSpec(g: Group)
    ensures FirstSeenOrder(UniqueQuestions(g), Flatten(g))
    ensures |UniqueQuestions(g)| == |CharSet(Flatten(g))|
  {
    UniqueFromOrder("", "", g);
    assert "" + Flatten(g) == Flatten(g);
    var r := UniqueQuestions(g);
    DistinctCount(r);
    assert CharSet(r) == CharSet(Flatten(g));
  }

  lemma {:induction false} UniqueFromOrder(acc: string, t: string, g: Group)
    requires FirstSeenOrder(acc, t)
    ensures FirstSeenOrder(UniqueFrom(acc, g), t + Flatten(g))
    decreases |g|
  {
    if |g| == 0 {
      assert t + Flatten(g) == t;
    } else {
      AddNewOrder(acc, t, g[0]);
      UniqueFromOrder(AddNew(acc, g[0]), t + g[0], g[1..]);
      assert t + g[0] + Flatten(g[1..]) == t + Flatten(g);
    }
  }

  lemma {:induction false} AddNewOrder(acc: string, t: string, s: string)
    requires FirstSeenOrder(acc, t)
    ensures FirstSeenOrder(AddNew(acc, s), t + s)
    decreases |s|
  {
    if |s| == 0 {
      assert t + s == t;
    } else {
      var c, rest := s[0], s[1..];
      var acc' := if c in acc then acc else acc + [c];
      var t' := t + [c];
      assert t' + rest == t + s;
      assert AddNew(acc, s) == AddNew(acc', rest);
      assert FirstSeenOrder(AddNew(acc', rest), t' + rest) by {
        AddOne(acc, t, c);
        AddNewOrder(acc', t', rest);
      }
    }
  }

  /** One letter of the inner loop keeps the result in first-seen order. */
  lemma AddOne(acc: string, t: string, c: char)
    requires FirstSeenOrder(acc, t)
    ensures FirstSeenOrder(if c in acc then acc else acc + [c], t + [c])
  {
    IndexOfExtend(t, c);
    if c !in acc {
      AddFresh(acc, t, c);
    }
  }

  /** A letter not seen before goes to the end of the result. */
  lemma AddFresh(acc: string, t: string, c: char)
    requires FirstSeenOrder(acc, t) && c !in acc
    ensures FirstSeenOrder(acc + [c], t + [c])
  {
    var t', r := t + [c], acc + [c];
    IndexOfExtend(t, c);
    assert c !in t;
    assert t'[..|t|] == t;
    Text.IndexOfIs(t', c, |t|);
    forall i, j | 0 <= i < j < |r| ensures Text.IndexOf(t', r[i]) < Text.IndexOf(t', r[j]) {
      assert r[i] == acc[i] && r[i] in t;
      if j < |acc| {
        assert r[j] == acc[j];
      }
    }
    assert NoDuplicates(r);
  }

  /** Appending a letter leaves the first occurrences of earlier letters alone. */
  lemma IndexOfExtend(t: string, c: char)
    ensures forall x :: x in t ==> Text.IndexOf(t + [c], x) == Text.IndexOf(t, x)
  {
    forall x | x in t ensures Text.IndexOf(t + [c], x) == Text.IndexOf(t, x) {
      var k := Text.IndexOf(t, x);
      assert (t + [c])[..k] == t[..k];
      Text.IndexOfIs(t + [c], x, k);
    }
  }

  /** A string without repeated letters has as many letters as distinct ones. */
  lemma {:induction false} DistinctCount(s: string)
    requires NoDuplicates(s)
    ensures |CharSet(s)| == |s|
  {
    if 0 < |s| {
      var rest := s[1..];
      assert NoDuplicates(rest) by {
        forall i, j | 0 <= i < j < |rest| ensures rest[i] != rest[j] {
          assert rest[i] == s[i + 1] && rest[j] == s[j + 1];
        }
      }
      DistinctCount(rest);
      assert s[0] !in rest by {
        forall i | 0 <= i < |rest| ensures rest[i] != s[0] {
          assert rest[i] == s[i + 1];
        }
      }
      assert CharSet(s) == CharSet(rest) + {s[0]} by {
        assert s == [s[0]] + rest;
      }
    }
  }

  // ---------------------------------------------------------------------------
  // Questions everyone answered
  // ---------------------------------------------------------------------------

  /** The loop over passengers 1.. of `get_common_questions`, stopping at the
      first one without the letter. */
  function InAllFrom(g: Group, c: char, i: nat): (b: bool)
    requires i <= |g|
    ensures b <==> forall j :: i <= j < |g| ==> c in g[j]
    decreases |g| - i
  {
    if i == |g| then true else c in g[i] && InAllFrom(g, c, i + 1)
  }

  /** The first passenger's letters, in order, that every other passenger has. */
  function KeepCommon(first: string, g: Group): string
    requires 0 < |g|
  {
    if |first| == 0 then ""
    else (if InAllFrom(g, first[0], 1) then [first[0]] else "") + KeepCommon(first[1..], g)
  }

  /** `get_common_questions`: nothing for an empty group, the one passenger's
      string for a group of one, else the filter of the first passenger. */
  function CommonQuestions(g: Group): string {
    if |g| == 0 then ""
    else if |g| == 1 then g[0]
    else KeepCommon(g[0], g)
  }

  /** Everyone in the group has the letter. */
  predicate InAll(g: Group, c: char) {
    forall i :: 0 <= i < |g| ==> c in g[i]
  }

  /** The common letters are the first passenger's letters that everyone
      has, each kept as often as the first passenger wrote it. */
  lemma CommonQuestionsSpec(g: Group)
    ensures forall c :: multiset(CommonQuestions(g))[c] ==
                        if 0 < |g| && InAll(g, c) then multiset(g[0])[c] else 0
    ensures forall c :: c in CommonQuestions(g) <==> 0 < |g| && InAll(g, c)
  {
    if |g| == 1 {
      forall c ensures InAll(g, c) <==> c in g[0] {
      }
    } else if 1 < |g| {
      KeepCommonCount(g[0], g);
      forall c ensures InAllFrom(g, c, 1) && c in g[0] <==> InAll(g, c) {
      }
    }
    forall c ensures c in CommonQuestions(g) <==> 0 < |g| && InAll(g, c) {
      assert c in CommonQuestions(g) <==> c in multiset(CommonQuestions(g));
      if 0 < |g| {
        assert c in g[0] <==> c in multiset(g[0]);
      }
    }
  }

  lemma {:induction false} KeepCommonCount(first: string, g: Group)
    requires 0 < |g|
    ensures forall c :: multiset(KeepCommon(first, g))[c] ==
                        if InAllFrom(g, c, 1) then multiset(first)[c] else 0
  {
    if 0 < |first| {
      KeepCommonCount(first[1..], g);
      assert first == [first[0]] + first[1..];
    }
  }

  /** The shortcut for a group of one agrees with the general filter. */
  lemma SingleShortcut(p: string)
    ensures CommonQuestions([p]) == KeepCommon(p, [p])
  {
    KeepAll(p, [p]);
  }

  lemma {:induction false} KeepAll(first: string, g: Group)
    requires |g| == 1
    ensures KeepCommon(first, g) == first
  {
    if 0 < |first| {
      KeepAll(first[1..], g);
      assert [first[0]] + first[1..] == first;
    }
  }

  // ---------------------------------------------------------------------------
  // Grouping the lines
  // ---------------------------------------------------------------------------

  /** One line of `stdin_to_passenger_groups`: a blank line opens a new group,
      any other line is a passenger of the last group. */
  function AddLine(gs: seq<Group>, line: string): (r: seq<Group>)
    requires 0 < |gs|
    ensures 0 < |r|
  {
    if Text.Blank(line) then gs + [[]]
    else gs[..|gs| - 1] + [gs[|gs| - 1] + [line]]
  }

  function AddLines(gs: seq<Group>, lines: seq<string>): (r: seq<Group>)
    requires 0 < |gs|
    ensures 0 < |r|
    decreases |lines|
  {
    if |lines| == 0 then gs else AddLines(AddLine(gs, lines[0]), lines[1..])
  }

  /** `stdin_to_passenger_groups` on the text read, starting from one empty
      group. */
  function PassengerGroups(input: string): (r: seq<Group>)
    ensures |r| == 1 + Text.BlankCount(Text.Split(input, '\n'))
    ensures Passengers(r) == NonBlank(Text.Split(input, '\n'))
    ensures r == Text.Groups(Text.Split(input, '\n'))
  {
    var lines := Text.Split(input, '\n');
    AddLinesShape([[]], lines);
    assert Passengers([[]]) == [];
    ContinueEmpty(Text.Groups(lines));
    AddLines([[]], lines)
  }

  lemma ContinueEmpty(runs: seq<Group>)
    requires 0 < |runs|
    ensures Continue([[]], runs) == runs
  {
    assert [] + runs[0] == runs[0] && [runs[0]] + runs[1..] == runs;
  }

  /** The groups `gs` continued by the runs of lines: the first run joins the
      last group, each later run is a group of its own. */
  function Continue(gs: seq<Group>, runs: seq<Group>): seq<Group>
    requires 0 < |gs| && 0 < |runs|
  {
    gs[..|gs| - 1] + [gs[|gs| - 1] + runs[0]] + runs[1..]
  }

  /** All passengers of the groups, in order. */
  function Passengers(gs: seq<Group>): seq<string> {
    if |gs| == 0 then [] else Passengers(gs[..|gs| - 1]) + gs[|gs| - 1]
  }

  /** The non-blank lines, in order. */
  function NonBlank(lines: seq<string>): seq<string> {
    if |lines| == 0 then [] else (if Text.Blank(lines[0]) then [] else [lines[0]]) + NonBlank(lines[1..])
  }

  /** Grouping makes one more group per blank line and places every
      non-blank line, in order, as a passenger: nothing is lost or reordered. */
  lemma {:induction false} AddLinesShape(gs: seq<Group>, lines: seq<string>)
    requires 0 < |gs|
    ensures |AddLines(gs, lines)| == |gs| + Text.BlankCount(lines)
    ensures Passengers(AddLines(gs, lines)) == Passengers(gs) + NonBlank(lines)
    ensures AddLines(gs, lines) == Continue(gs, Text.Groups(lines))
    decreases |lines|
  {
    AddLinesGroups(gs, lines);
    if |lines| == 0 {
      assert Passengers(gs) + NonBlank(lines) == Passengers(gs);
    } else {
      var line, rest := lines[0], lines[1..];
      var next := AddLine(gs, line);
      var first := if Text.Blank(line) then [] else [line];
      var r := AddLines(next, rest);
      assert AddLines(gs, lines) == r;
      assert NonBlank(lines) == first + NonBlank(rest);
      assert Text.BlankCount(lines) == (if Text.Blank(line) then 1 else 0) + Text.BlankCount(rest);
      assert |r| == |next| + Text.BlankCount(rest) && Passengers(r) == Passengers(next) + NonBlank(rest) by {
        AddLinesShape(next, rest);
      }
      assert |next| == |gs| + (if Text.Blank(line) then 1 else 0) && Passengers(next) == Passengers(gs) + first by {
        AddLineShape(gs, line);
      }
      Text.Associative(Passengers(gs), first, NonBlank(rest));
    }
  }

  /** Grouping the lines one by one cuts them at the blank lines: the run
      before the first blank line joins the last group, and the run after
      each blank line is a new group. */
  lemma {:induction false} AddLinesGroups(gs: seq<Group>, lines: seq<string>)
    requires 0 < |gs|
    ensures AddLines(gs, lines) == Continue(gs, Text.Groups(lines))
    decreases |lines|
  {
    var n := |gs|;
    if |lines| == 0 {
      assert gs[n - 1] + [] == gs[n - 1] && gs[..n - 1] + [gs[n - 1]] == gs;
    } else {
      var line, rest := lines[0], lines[1..];
      var runs := Text.Groups(rest);
      assert lines == [line] + rest;
      AddLinesGroups(AddLine(gs, line), rest);
      if Text.Blank(line) {
        Text.GroupsBlank(line, rest);
        AddLinesBlank(gs, runs);
      } else {
        Text.GroupsCons(line, rest);
        AddLinesCons(gs, line, runs);
      }
    }
  }

  lemma AddLinesBlank(gs: seq<Group>, runs: seq<Group>)
    requires 0 < |gs| && 0 < |runs|
    ensures Continue(gs + [[]], runs) == Continue(gs, [[]] + runs)
  {
    var n := |gs|;
    assert (gs + [[]])[..n] == gs && [] + runs[0] == runs[0];
    assert gs[n - 1] + [] == gs[n - 1] && gs[..n - 1] + [gs[n - 1]] == gs;
    assert ([[]] + runs)[1..] == runs && [runs[0]] + runs[1..] == runs;
  }

  lemma AddLinesCons(gs: seq<Group>, line: string, runs: seq<Group>)
    requires 0 < |gs| && 0 < |runs|
    ensures Continue(gs[..|gs| - 1] + [gs[|gs| - 1] + [line]], runs) ==
      Continue(gs, [[line] + runs[0]] + runs[1..])
  {
    var n := |gs|;
    var next := gs[..n - 1] + [gs[n - 1] + [line]];
    assert next[..n - 1] == gs[..n - 1] && next[n - 1] == gs[n - 1] + [line];
    Text.Associative(gs[n - 1], [line], runs[0]);
  }

  /** One line: a blank line keeps every group and opens an empty one after
      them; any other line keeps every group but the last, and becomes the
      last group's newest passenger. */
  lemma AddLineShape(gs: seq<Group>, line: string)
    requires 0 < |gs|
    ensures |AddLine(gs, line)| == |gs| + (if Text.Blank(line) then 1 else 0)
    ensures Passengers(AddLine(gs, line)) == Passengers(gs) + (if Text.Blank(line) then [] else [line])
    ensures Text.Blank(line) ==> AddLine(gs, line)[..|gs|] == gs && AddLine(gs, line)[|gs|] == []
    ensures !Text.Blank(line) ==>
      AddLine(gs, line)[..|gs| - 1] == gs[..|gs| - 1] && AddLine(gs, line)[|gs| - 1] == gs[|gs| - 1] + [line]
  {
    var r := AddLine(gs, line);
    var n := |gs|;
    if Text.Blank(line) {
      assert r[..n] == gs;
      assert Passengers(r) == Passengers(gs) + [];
    } else {
      assert r[..n - 1] == gs[..n - 1];
      assert Passengers(r) == Passengers(gs[..n - 1]) + (gs[n - 1] + [line]);
    }
  }

  /** The sums `part1` and `part2` print. */
  function TotalUnique(gs: seq<Group>): nat {
    if |gs| == 0 then 0 else |UniqueQuestions(gs[0])| + TotalUnique(gs[1..])
  }

  function TotalCommon(gs: seq<Group>): nat {
    if |gs| == 0 then 0 else |CommonQuestions(gs[0])| + TotalCommon(gs[1..])
  }

  // ---------------------------------------------------------------------------
  // What the totals count
  // ---------------------------------------------------------------------------

  /** The letters every passenger of the group wrote. */
  function Everyone(g: Group): set<char> {
    set c | c in Flatten(g) && InAll(g, c)
  }

  /** Per group, the number of distinct letters anyone wrote, summed. */
  function AnyoneTotal(gs: seq<Group>): nat {
    if |gs| == 0 then 0 else |CharSet(Flatten(gs[0]))| + AnyoneTotal(gs[1..])
  }

  /** Per group, the number of letters everyone wrote, summed. */
  function EveryoneTotal(gs: seq<Group>): nat {
    if |gs| == 0 then 0 else |Everyone(gs[0])| + EveryoneTotal(gs[1..])
  }

  /** Part 1 sums, over the groups, the number of questions anyone answered. */
  lemma {:induction false} TotalUniqueCounts(gs: seq<Group>)
    ensures TotalUnique(gs) == AnyoneTotal(gs)
  {
    if 0 < |gs| {
      UniqueQuestionsSpec(gs[0]);
      TotalUniqueCounts(gs[1..]);
    }
  }

  /** When no passenger writes a letter twice, part 2 sums, over the groups,
      the number of questions everyone answered. */
  lemma {:induction false} TotalCommonCounts(gs: seq<Group>)
    requires forall i, j :: 0 <= i < |gs| && 0 <= j < |gs[i]| ==> NoDuplicates(gs[i][j])
    ensures TotalCommon(gs) == EveryoneTotal(gs)
  {
    if 0 < |gs| {
      CommonCount(gs[0]);
      TotalCommonCounts(gs[1..]);
    }
  }

  /** When the first passenger writes no letter twice, the common questions
      are the letters everyone wrote, each once. */
  lemma CommonCount(g: Group)
    requires 0 < |g| ==> NoDuplicates(g[0])
    ensures |CommonQuestions(g)| == |Everyone(g)|
  {
    var r := CommonQuestions(g);
    CommonQuestionsSpec(g);
    if 0 < |g| {
      forall c ensures multiset(r)[c] <= 1 {
        AtMostOnce(g[0], c);
      }
      CountsNoDuplicates(r);
      DistinctCount(r);
      assert Flatten(g) == g[0] + Flatten(g[1..]);
      assert CharSet(r) == Everyone(g);
    }
  }

  /** In a string without repeats each letter occurs at most once. */
  lemma {:induction false} AtMostOnce(s: string, c: char)
    requires NoDuplicates(s)
    ensures multiset(s)[c] <= 1
  {
    if 0 < |s| {
      var rest := s[1..];
      assert s == [s[0]] + rest;
      assert NoDuplicates(rest) by {
        forall i, j | 0 <= i < j < |rest| ensures rest[i] != rest[j] {
          assert rest[i] == s[i + 1] && rest[j] == s[j + 1];
        }
      }
      AtMostOnce(rest, c);
      if c == s[0] {
        assert c !in rest by {
          forall k | 0 <= k < |rest| ensures rest[k] != c {
            assert rest[k] == s[k + 1];
          }
        }
      }
    }
  }

  /** A string in which each letter occurs at most once has no repeats. */
  lemma CountsNoDuplicates(s: string)
    requires forall c :: multiset(s)[c] <= 1
    ensures NoDuplicates(s)
  {
    forall i, j | 0 <= i < j < |s| ensures s[i] != s[j] {
      assert s[..j] + s[j..] == s;
      assert s[..j][i] == s[i] && s[j..][0] == s[j];
      assert multiset(s) == multiset(s[..j]) + multiset(s[j..]);
      assert 1 <= multiset(s[..j])[s[i]] && 1 <= multiset(s[j..])[s[j]];
      assert multiset(s)[s[j]] == multiset(s[..j])[s[j]] + multiset(s[j..])[s[j]] <= 1;
    }
  }

  /** The letters everyone wrote are among those anyone wrote, so without
      repeated letters part 2 never exceeds part 1. */
  lemma {:induction false} CommonAtMostUnique(gs: seq<Group>)
    requires forall i, j :: 0 <= i < |gs| && 0 <= j < |gs[i]| ==> NoDuplicates(gs[i][j])
    ensures TotalCommon(gs) <= TotalUnique(gs)
  {
    TotalUniqueCounts(gs);
    TotalCommonCounts(gs);
    EveryoneAtMostAnyone(gs);
  }

  lemma {:induction false} EveryoneAtMostAnyone(gs: seq<Group>)
    ensures EveryoneTotal(gs) <= AnyoneTotal(gs)
  {
    if 0 < |gs| {
      SubsetCard(Everyone(gs[0]), CharSet(Flatten(gs[0])));
      EveryoneAtMostAnyone(gs[1..]);
    }
  }

  lemma {:induction false} SubsetCard(a: set<char>, b: set<char>)
    requires a <= b
    ensures |a| <= |b|
    decreases b
  {
    if a != {} {
      var x :| x in a;
      SubsetCard(a - {x}, b - {x});
    }
  }
}
