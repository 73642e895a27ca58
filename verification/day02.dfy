/** Password policies (src/day2.rs). A line "a-b c: pwd" is parsed into two
    policy numbers, a letter and a password; part 1 asks for the letter count
    to lie in [a, b], part 2 for exactly one of the 1-based positions a and b
    to hold the letter. Every `unwrap`, failed `assert_eq!` and out-of-range
    index of the solver is an `Err` here. */
module Day2 {
  import opened Wrappers
  import Text
  import SeqUtil

  datatype Password = Password(low: nat, high: nat, letter: char, password: string)

  /** The first position of `c`, as `chars().position(..)`. */
  function Position(s: string, c: char): (r: Option<nat>)
    ensures r.Some? ==> r.value < |s| && s[r.value] == c && c !in s[..r.value]
    ensures r.None? <==> c !in s
  {
    if c in s then Some(Text.IndexOf(s, c)) else None
  }

  /** `Password::from_str`: an entry is read off the first '-' and the first
      ' ' of the line, whose fields it spells (`ParseFields` is the converse). */
  function Parse(s: string): (r: Result<Password>)
    ensures r.Ok? ==> Position(s, '-').Some? && Position(s, ' ').Some?
    ensures r.Ok? ==> r.value.low <= Text.USIZE_MAX && r.value.high <= Text.USIZE_MAX
    ensures r.Ok? ==>
      var minus, space := Position(s, '-').value, Position(s, ' ').value;
      minus + 1 <= space < |s| && Spells(s, minus, space, r.value)
  {
    var minus := Position(s, '-');
    if minus.None? then Err("no '-'")
    else ParseLow(s, minus.value)
  }

  /** The line spells entry `p` around a '-' at `minus` and a ' ' at `space`:
      the two policy numbers, then the letter, ": " and the password. */
  predicate Spells(s: string, minus: nat, space: nat, p: Password)
    requires minus + 1 <= space < |s|
  {
    Text.ParseUnsigned(s[..minus], Text.USIZE_MAX) == Some(p.low) &&
    Text.ParseUnsigned(s[minus + 1..space], Text.USIZE_MAX) == Some(p.high) &&
    s[space + 1..] == [p.letter] + ": " + p.password
  }

  /** `from_str` after the '-' at `minus`: the first policy number, then the
      search for the space. */
  function ParseLow(s: string, minus: nat): (r: Result<Password>)
    requires minus < |s|
    ensures r.Ok? ==> Position(s, ' ').Some?
    ensures r.Ok? ==> r.value.low <= Text.USIZE_MAX && r.value.high <= Text.USIZE_MAX
    ensures r.Ok? ==>
      var space := Position(s, ' ').value;
      minus + 1 <= space < |s| && Spells(s, minus, space, r.value)
  {
    var low := Text.ParseUnsigned(s[..minus], Text.USIZE_MAX);
    if low.None? then Err("first policy number does not parse")
    else
      var space := Position(s, ' ');
      if space.None? then Err("no ' '")
      else if space.value < minus + 1 then Err("slice bounds out of order")
      else ParseHigh(s, minus, low.value, space.value)
  }

  /** `from_str` once both separators are known: the second policy number,
      then the letter and the password. */
  function ParseHigh(s: string, minus: nat, low: nat, space: nat): (r: Result<Password>)
    requires minus + 1 <= space < |s| && low <= Text.USIZE_MAX
    ensures r.Ok? ==> r.value.low == low && r.value.high <= Text.USIZE_MAX
    ensures r.Ok? ==>
      Text.ParseUnsigned(s[minus + 1..space], Text.USIZE_MAX) == Some(r.value.high) &&
      s[space + 1..] == [r.value.letter] + ": " + r.value.password
  {
    var high := Text.ParseUnsigned(s[minus + 1..space], Text.USIZE_MAX);
    if high.None? then Err("second policy number does not parse")
    else
      var tail := ParseTail(s[space + 1..]);
      if tail.Err? then Err(tail.error)
      else Ok(Password(low, high.value, tail.value.0, tail.value.1))
  }

  /** The rest of the line after the space: the letter, then ": ", then the password. */
  function ParseTail(rest: string): (r: Result<(char, string)>)
    ensures r.Ok? <==> 3 <= |rest| && rest[1] == ':' && rest[2] == ' '
    ensures r.Ok? ==> rest == [r.value.0] + ": " + r.value.1
  {
    if |rest| == 0 then Err("no policy letter")
    else if |rest| < 2 || rest[1] != ':' then Err("expected ':'")
    else if |rest| < 3 || rest[2] != ' ' then Err("expected ' '")
    else
      assert rest == [rest[0]] + ": " + rest[3..];
      Ok((rest[0], rest[3..]))
  }

  /** The line a password entry is written as. */
  function Format(p: Password): (s: string)
    ensures |s| >= 7
  {
    Text.NatToString(p.low) + "-" + Text.NatToString(p.high) + " " + ([p.letter] + ": " + p.password)
  }

  /** Parsing the line of an entry gives the entry back. */
  lemma ParseFormat(p: Password)
    requires p.low <= Text.USIZE_MAX && p.high <= Text.USIZE_MAX
    ensures Parse(Format(p)) == Ok(p)
  {
    Text.ParseUnsignedNatToString(p.low, Text.USIZE_MAX);
    Text.ParseUnsignedNatToString(p.high, Text.USIZE_MAX);
    ParseLine(Text.NatToString(p.low), Text.NatToString(p.high), p);
  }

  /** A line made of two digit runs that parse to the policy numbers, then the
      letter and the password, parses to the entry. */
  lemma ParseLine(a: string, b: string, p: Password)
    requires Text.AllDigits(a) && Text.AllDigits(b)
    requires Text.ParseUnsigned(a, Text.USIZE_MAX) == Some(p.low)
    requires Text.ParseUnsigned(b, Text.USIZE_MAX) == Some(p.high)
    ensures Parse(a + "-" + b + " " + ([p.letter] + ": " + p.password)) == Ok(p)
  {
    var s := a + "-" + b + " " + ([p.letter] + ": " + p.password);
    var minus, space := |a|, |a| + 1 + |b|;
    FormatFields(s, a, b, p, minus, space);
    ParseFields(s, minus, space, p);
  }

  /** The converse of `Parse`'s contract: a line that spells an entry around
      its first '-' and first ' ' parses to that entry. */
  lemma ParseFields(s: string, minus: nat, space: nat, p: Password)
    requires minus + 1 <= space < |s|
    requires Position(s, '-') == Some(minus) && Position(s, ' ') == Some(space)
    requires Spells(s, minus, space, p)
    ensures Parse(s) == Ok(p)
  {
    ParseTailFormat(p.letter, p.password);
    ParseHighFields(s, minus, space, p);
    ParseLowFields(s, minus, space, p);
    ParseMinus(s, minus, p);
  }

  /** How `Parse` reads a line once the '-' is found. */
  lemma ParseMinus(s: string, minus: nat, p: Password)
    requires minus < |s| && Position(s, '-') == Some(minus) && ParseLow(s, minus) == Ok(p)
    ensures Parse(s) == Ok(p)
  {
  }

  /** Where the separators and fields of a formatted line lie. */
  lemma FormatFields(s: string, a: string, b: string, p: Password, minus: nat, space: nat)
    requires Text.AllDigits(a) && Text.AllDigits(b)
    requires Text.ParseUnsigned(a, Text.USIZE_MAX) == Some(p.low)
    requires Text.ParseUnsigned(b, Text.USIZE_MAX) == Some(p.high)
    requires s == a + "-" + b + " " + ([p.letter] + ": " + p.password)
    requires minus == |a| && space == |a| + 1 + |b|
    ensures minus + 1 <= space < |s|
    ensures Position(s, '-') == Some(minus) && Position(s, ' ') == Some(space)
    ensures Spells(s, minus, space, p)
  {
    var tail := [p.letter] + ": " + p.password;
    FormatPositions(a, b, tail);
    FormatSlices(a, b, tail);
  }

  lemma FormatSlices(a: string, b: string, t: string)
    ensures (a + "-" + b + " " + t)[..|a|] == a
    ensures (a + "-" + b + " " + t)[|a| + 1..|a| + 1 + |b|] == b
    ensures (a + "-" + b + " " + t)[|a| + 1 + |b| + 1..] == t
    ensures forall i :: 0 <= i < |t| ==> (a + "-" + b + " " + t)[|a| + 1 + |b| + 1 + i] == t[i]
    ensures 3 <= |t| ==> (a + "-" + b + " " + t)[|a| + 1 + |b| + 4..] == t[3..]
  {
    var head := a + "-" + b + " ";
    assert a + "-" + b + " " + t == head + t;
  }

  /** How `ParseLow` reads the first number once the space is found. */
  lemma ParseLowFields(s: string, minus: nat, space: nat, p: Password)
    requires minus + 1 <= space < |s| && Position(s, ' ') == Some(space)
    requires Text.ParseUnsigned(s[..minus], Text.USIZE_MAX) == Some(p.low)
    requires ParseHigh(s, minus, p.low, space) == Ok(p)
    ensures ParseLow(s, minus) == Ok(p)
  {
  }

  /** How `ParseHigh` reads the second number and the tail. */
  lemma ParseHighFields(s: string, minus: nat, space: nat, p: Password)
    requires minus + 1 <= space < |s| && p.low <= Text.USIZE_MAX
    requires Text.ParseUnsigned(s[minus + 1..space], Text.USIZE_MAX) == Some(p.high)
    requires ParseTail(s[space + 1..]) == Ok((p.letter, p.password))
    ensures ParseHigh(s, minus, p.low, space) == Ok(p)
  {
  }

  lemma ParseTailFormat(letter: char, password: string)
    ensures ParseTail([letter] + ": " + password) == Ok((letter, password))
  {
    var rest := [letter] + ": " + password;
    assert rest[0] == letter && rest[3..] == password;
  }

  /** In "a-b t" with digit runs a and b, the first '-' ends a and the first
      ' ' ends b. */
  lemma FormatPositions(a: string, b: string, t: string)
    requires Text.AllDigits(a) && Text.AllDigits(b)
    ensures Position(a + "-" + b + " " + t, '-') == Some(|a|)
    ensures Position(a + "-" + b + " " + t, ' ') == Some(|a| + 1 + |b|)
  {
    var s := a + "-" + b + " " + t;
    assert s[..|a|] == a;
    assert s[..|a| + 1 + |b|] == a + "-" + b;
    Text.NoDigitIn(a, '-');
    Text.NoDigitIn(a, ' ');
    Text.NoDigitIn(b, ' ');
    PositionIs(s, '-', |a|);
    PositionIs(s, ' ', |a| + 1 + |b|);
  }

  lemma PositionIs(s: string, c: char, k: nat)
    requires k < |s| && s[k] == c && c !in s[..k]
    ensures Position(s, c) == Some(k)
  {
    Text.IndexOfIs(s, c, k);
  }

  /** `is_password_valid_part1`: the letter occurs between `low` and `high` times. */
  function Valid1(p: Password): (v: bool)
    ensures v <==> p.low <= multiset(p.password)[p.letter] <= p.high
  {
    var n := SeqUtil.Count(p.password, p.letter);
    p.low <= n <= p.high
  }

  /** `is_password_valid_part2`: the 1-based positions are read after a
      subtraction that underflows for 0 and an index that panics past the end. */
  function Valid2(p: Password): (r: Result<bool>)
    ensures r.Ok? <==> 1 <= p.low <= |p.password| && 1 <= p.high <= |p.password|
  {
    if p.low == 0 || p.low - 1 >= |p.password| then Err("first position out of range")
    else if p.high == 0 || p.high - 1 >= |p.password| then Err("second position out of range")
    else
      var l1 := p.password[p.low - 1];
      var l2 := p.password[p.high - 1];
      Ok((l1 == p.letter || l2 == p.letter) && l1 != l2)
  }

  /** Part 2 accepts exactly when one, and only one, of the two positions
      holds the letter (so never when both positions are the same). */
  lemma Valid2ExactlyOne(p: Password)
    requires 1 <= p.low <= |p.password| && 1 <= p.high <= |p.password|
    ensures Valid2(p).Ok?
    ensures Valid2(p).value <==> ((p.password[p.low - 1] == p.letter) != (p.password[p.high - 1] == p.letter))
  {
  }

  datatype Policy = OldPolicy | NewPolicy

  function Check(p: Password, policy: Policy): Result<bool> {
    match policy
    case OldPolicy => Ok(Valid1(p))
    case NewPolicy => Valid2(p)
  }

  /** The positions of the entries that satisfy the policy. */
  ghost function Satisfying(ps: seq<Password>, policy: Policy, n: nat): set<nat>
    requires n <= |ps|
  {
    set i | 0 <= i < n && Check(ps[i], policy) == Ok(true)
  }

  /** The counting loops of `part1` / `part2`: the number of entries that
      satisfy the policy, or the panic of the first entry that cannot be checked. */
  method CountValid(ps: seq<Password>, policy: Policy) returns (r: Result<nat>)
    ensures r.Err? <==> exists i :: 0 <= i < |ps| && Check(ps[i], policy).Err?
    ensures r.Ok? ==> r.value == |Satisfying(ps, policy, |ps|)|
    ensures r.Ok? ==> r.value <= |ps|
  {
    var count := 0;
    for i := 0 to |ps|
      invariant forall j :: 0 <= j < i ==> Check(ps[j], policy).Ok?
      invariant count == |Satisfying(ps, policy, i)|
      invariant count <= i
    {
      var c := Check(ps[i], policy);
      if c.Err? {
        return Err(c.error);
      }
      CheckablePrefix(ps, policy, i);
      SatisfyingNext(ps, policy, i);
      if c.value {
        count := count + 1;
      }
    }
    return Ok(count);
  }

  lemma CheckablePrefix(ps: seq<Password>, policy: Policy, n: nat)
    requires n < |ps| && Check(ps[n], policy).Ok?
    requires forall j :: 0 <= j < n ==> Check(ps[j], policy).Ok?
    ensures forall j :: 0 <= j < n + 1 ==> Check(ps[j], policy).Ok?
  {
  }

  lemma SatisfyingNext(ps: seq<Password>, policy: Policy, n: nat)
    requires n < |ps|
    ensures Check(ps[n], policy) == Ok(true) ==>
      Satisfying(ps, policy, n + 1) == Satisfying(ps, policy, n) + {n}
    ensures Check(ps[n], policy) != Ok(true) ==>
      Satisfying(ps, policy, n + 1) == Satisfying(ps, policy, n)
    ensures n !in Satisfying(ps, policy, n)
  {
  }

  /** The first example line parses to its entry. */
  lemma ExampleFirstLine(line: string)
    requires line == "1-3 a: abcde"
    ensures Parse(line) == Ok(Password(1, 3, 'a', "abcde"))
  {
    assert Text.ParseUnsigned("1", Text.USIZE_MAX) == Some(1);
    assert Text.ParseUnsigned("3", Text.USIZE_MAX) == Some(3);
    assert line == "1" + "-" + "3" + " " + (['a'] + ": " + "abcde");
    ParseLine("1", "3", Password(1, 3, 'a', "abcde"));
  }

  /** The example entries under the old policy: one 'a' in "abcde" is
      within 1-3, no 'b' in "cdefg" is not. */
  lemma ExampleOldPolicyValid()
    ensures Valid1(Password(1, 3, 'a', "abcde"))
  {
    assert SeqUtil.Count("abcde", 'a') == 1;
  }

  lemma ExampleOldPolicyInvalid()
    ensures !Valid1(Password(1, 3, 'b', "cdefg"))
  {
    assert SeqUtil.Count("cdefg", 'b') == 0;
  }

  /** The example entries under the new policy: 'a' only at position 1 is
      valid, 'c' at both positions 2 and 9 is not. */
  lemma ExamplesNewPolicy()
    ensures Valid2(Password(1, 3, 'a', "abcde")) == Ok(true)
    ensures Valid2(Password(2, 9, 'c', "ccccccccc")) == Ok(false)
  {
  }
}
