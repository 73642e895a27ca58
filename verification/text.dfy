/** The parts of Rust's `str` API the puzzle solvers use, restated on
    `string` (a sequence of chars). Only ASCII digits and ASCII whitespace are
    recognised; the Unicode cases Rust also accepts are not modelled. */
module Text {
  import opened Wrappers

  const U32_MAX: nat := 0xFFFF_FFFF
  const USIZE_MAX: nat := 0xFFFF_FFFF_FFFF_FFFF
  const I32_MIN: int := -0x8000_0000
  const I32_MAX: int := 0x7FFF_FFFF
  const I64_MIN: int := -0x8000_0000_0000_0000
  const I64_MAX: int := 0x7FFF_FFFF_FFFF_FFFF

  // ---------------------------------------------------------------------------
  // Digits and numbers
  // ---------------------------------------------------------------------------

  predicate IsDigit(c: char) {
    '0' <= c <= '9'
  }

  predicate AllDigits(s: string) {
    forall i :: 0 <= i < |s| ==> IsDigit(s[i])
  }

  /** A run of digits holds no other character. */
  lemma NoDigitIn(a: string, c: char)
    requires AllDigits(a) && !IsDigit(c)
    ensures c !in a
  {
    forall i | 0 <= i < |a| ensures a[i] != c {
      assert IsDigit(a[i]);
    }
  }

  function DigitValue(c: char): nat
    requires IsDigit(c)
  {
    c as int - '0' as int
  }

  function DigitChar(d: nat): (c: char)
    requires d < 10
    ensures IsDigit(c) && DigitValue(c) == d
  {
    ('0' as int + d) as char
  }

  /** The value of a non-empty run of decimal digits, most significant first. */
  function DecimalValue(s: string): nat
    requires AllDigits(s)
  {
    if |s| == 0 then 0 else DecimalValue(s[..|s| - 1]) * 10 + DigitValue(s[|s| - 1])
  }

  /** The value of two, three and four digits written out positionally. */
  lemma DecimalTwo(s: string)
    requires |s| == 2 && AllDigits(s)
    ensures DecimalValue(s) == 10 * DigitValue(s[0]) + DigitValue(s[1])
  {
    assert DecimalValue(s[..1]) == DigitValue(s[0]);
  }

  lemma DecimalThree(s: string)
    requires |s| == 3 && AllDigits(s)
    ensures DecimalValue(s) == 100 * DigitValue(s[0]) + 10 * DigitValue(s[1]) + DigitValue(s[2])
  {
    DecimalTwo(s[..2]);
  }

  lemma DecimalFour(s: string)
    requires |s| == 4 && AllDigits(s)
    ensures DecimalValue(s) ==
      1000 * DigitValue(s[0]) + 100 * DigitValue(s[1]) + 10 * DigitValue(s[2]) + DigitValue(s[3])
  {
    DecimalThree(s[..3]);
  }

  /** `str::parse::<uN>()`: an optional '+', then at least one digit; a value
      above `max` is an overflow error. */
  function ParseUnsigned(s: string, max: nat): (r: Option<nat>)
    ensures r.Some? ==> r.value <= max
    ensures r.Some? ==> 0 < |s|
    ensures r.Some? && AllDigits(s) ==> r.value == DecimalValue(s)
    ensures r.Some? <==> 0 < |s| && s[0] != '-' && SignedValue(s).Some? && SignedValue(s).value <= max
    ensures r.Some? ==> r.value == SignedValue(s).value
  {
    var digits := if 0 < |s| && s[0] == '+' then s[1..] else s;
    if |digits| == 0 || !AllDigits(digits) then None
    else if DecimalValue(digits) > max then None
    else Some(DecimalValue(digits))
  }

  /** The number `s` spells as an optional sign followed by at least one
      digit, whatever its size. */
  function SignedValue(s: string): Option<int> {
    var digits := if 0 < |s| && (s[0] == '+' || s[0] == '-') then s[1..] else s;
    if |digits| == 0 || !AllDigits(digits) then None
    else
      var magnitude: int := DecimalValue(digits);
      Some(if s[0] == '-' then -magnitude else magnitude)
  }

  /** `str::parse::<iN>()`: an optional sign, then at least one digit; a value
      outside [min, max] is an overflow error. */
  function ParseSigned(s: string, min: int, max: int): (r: Option<int>)
    ensures r.Some? ==> min <= r.value <= max
    ensures r.Some? <==> SignedValue(s).Some? && min <= SignedValue(s).value <= max
    ensures r.Some? ==> r.value == SignedValue(s).value
  {
    if 0 < |s| && s[0] == '-' then
      var digits := s[1..];
      if |digits| == 0 || !AllDigits(digits) then None
      else
        var v: int := 0 - DecimalValue(digits);
        if v < min || v > max then None else Some(v)
    else
      var bound: nat := if max < 0 then 0 else max;
      match ParseUnsigned(s, bound)
      case None => None
      case Some(v) => if v < min || v > max then None else Some(v)
  }

  /** The decimal rendering of `n`, the inverse of `DecimalValue`. */
  function NatToString(n: nat): (s: string)
    ensures 0 < |s| && AllDigits(s)
  {
    if n < 10 then [DigitChar(n)] else NatToString(n / 10) + [DigitChar(n % 10)]
  }

  lemma {:induction false} DecimalValueOfNatToString(n: nat)
    ensures DecimalValue(NatToString(n)) == n
  {
    if n >= 10 {
      var s := NatToString(n);
      assert s[..|s| - 1] == NatToString(n / 10);
      DecimalValueOfNatToString(n / 10);
    }
  }

  /** A run of digits with no sign parses to its value, or overflows. */
  lemma ParseDigits(s: string, max: nat)
    requires 0 < |s| && AllDigits(s)
    ensures ParseUnsigned(s, max) == if DecimalValue(s) <= max then Some(DecimalValue(s)) else None
  {
    assert IsDigit(s[0]);
  }

  /** Printing a number and parsing it back gives the number. */
  lemma ParseUnsignedNatToString(n: nat, max: nat)
    requires n <= max
    ensures ParseUnsigned(NatToString(n), max) == Some(n)
  {
    DecimalValueOfNatToString(n);
  }

  /** A signed number as the puzzle inputs write it, with an explicit sign. */
  function SignedToString(v: int): (s: string)
    ensures 1 < |s| && (s[0] == '+' || s[0] == '-') && AllDigits(s[1..])
  {
    if v < 0 then "-" + NatToString(-v) else "+" + NatToString(v)
  }

  /** Printing a signed number and parsing it back gives the number. */
  lemma ParseSignedToString(v: int, min: int, max: int)
    requires min <= v <= max
    ensures ParseSigned(SignedToString(v), min, max) == Some(v)
  {
    var s := SignedToString(v);
    if v < 0 {
      assert s[1..] == NatToString(-v);
      DecimalValueOfNatToString(-v);
    } else {
      assert s[1..] == NatToString(v);
      DecimalValueOfNatToString(v);
    }
  }

  // ---------------------------------------------------------------------------
  // Searching
  // ---------------------------------------------------------------------------

  /** The position of the first occurrence of `c`. */
  function IndexOf(s: string, c: char): (i: nat)
    requires c in s
    ensures i < |s| && s[i] == c && c !in s[..i]
  {
    if s[0] == c then 0 else 1 + IndexOf(s[1..], c)
  }

  /** The first occurrence is the only position with `c` and no `c` before it. */
  lemma IndexOfIs(s: string, c: char, k: nat)
    requires k < |s| && s[k] == c && c !in s[..k]
    ensures IndexOf(s, c) == k
  {
    var i := IndexOf(s, c);
    forall j | 0 <= j < k ensures s[j] != c {
      assert s[..k][j] == s[j];
    }
    forall j | 0 <= j < i ensures s[j] != c {
      assert s[..i][j] == s[j];
    }
  }

  predicate StartsWith(s: string, prefix: string) {
    |prefix| <= |s| && s[..|prefix|] == prefix
  }

  predicate EndsWith(s: string, suffix: string) {
    |suffix| <= |s| && s[|s| - |suffix|..] == suffix
  }

  /** `str::contains(&str)`, scanning start positions left to right. */
  predicate Contains(s: string, sub: string)
    decreases |s|
  {
    StartsWith(s, sub) || (0 < |s| && Contains(s[1..], sub))
  }

  /** `sub` occurs in `s` starting at position `i`. */
  predicate OccursAt(s: string, sub: string, i: int) {
    0 <= i && i + |sub| <= |s| && s[i..i + |sub|] == sub
  }

  /** `Contains` holds exactly when `sub` occurs at some position of `s`. */
  lemma {:induction false} ContainsIffOccurs(s: string, sub: string)
    ensures Contains(s, sub) <==> exists i :: OccursAt(s, sub, i)
    decreases |s|
  {
    if StartsWith(s, sub) {
      assert OccursAt(s, sub, 0);
    } else if 0 < |s| {
      ContainsIffOccurs(s[1..], sub);
      if Contains(s[1..], sub) {
        var i :| OccursAt(s[1..], sub, i);
        assert s[1..][i..i + |sub|] == s[i + 1..i + 1 + |sub|];
        assert OccursAt(s, sub, i + 1);
      }
      if exists i :: OccursAt(s, sub, i) {
        var i :| OccursAt(s, sub, i);
        assert i != 0;
        assert s[1..][i - 1..i - 1 + |sub|] == s[i..i + |sub|];
        assert OccursAt(s[1..], sub, i - 1);
      }
    } else {
      assert forall i :: !OccursAt(s, sub, i);
    }
  }

  // ---------------------------------------------------------------------------
  // Splitting
  // ---------------------------------------------------------------------------

  /** `str::split(|c| c in seps)`: the pieces between separator chars, empty
      pieces included, so there is always at least one piece. */
  function SplitAny(s: string, seps: set<char>): (r: seq<string>)
    ensures 0 < |r|
    ensures forall i :: 0 <= i < |r| ==> NoneOf(r[i], seps)
    decreases |s|
  {
    if |s| == 0 then [""]
    else
      var rest := SplitAny(s[1..], seps);
      if s[0] in seps then [""] + rest
      else [[s[0]] + rest[0]] + rest[1..]
  }

  predicate NoneOf(s: string, seps: set<char>) {
    forall j :: 0 <= j < |s| ==> s[j] !in seps
  }

  /** `str::split(c)`. */
  function Split(s: string, c: char): (r: seq<string>)
    ensures 0 < |r|
    ensures forall i :: 0 <= i < |r| ==> c !in r[i]
  {
    var r := SplitAny(s, {c});
    assert forall i :: 0 <= i < |r| ==> NoneOf(r[i], {c});
    r
  }

  /** The pieces glued back together with `c` between them. */
  function Join(parts: seq<string>, c: char): string
    requires 0 < |parts|
  {
    if |parts| == 1 then parts[0] else parts[0] + [c] + Join(parts[1..], c)
  }

  /** Splitting loses nothing: joining the pieces on the separator gives the input. */
  lemma {:induction false} JoinSplit(s: string, c: char)
    ensures Join(SplitAny(s, {c}), c) == s
    decreases |s|
  {
    if 0 < |s| {
      var rest := SplitAny(s[1..], {c});
      JoinSplit(s[1..], c);
      if s[0] != c {
        var r := [[s[0]] + rest[0]] + rest[1..];
        assert r[1..] == rest[1..];
        if |rest| == 1 {
          assert Join(r, c) == [s[0]] + rest[0];
        } else {
          assert Join(r, c) == [s[0]] + Join(rest, c);
        }
      } else {
        assert ([""] + rest)[1..] == rest;
      }
      assert s == [s[0]] + s[1..];
    }
  }

  /** A piece without the separator is not split. */
  lemma {:induction false} SplitNone(s: string, c: char)
    requires c !in s
    ensures SplitAny(s, {c}) == [s]
    decreases |s|
  {
    if 0 < |s| {
      SplitNone(s[1..], c);
      assert [s[0]] + s[1..] == s;
    }
  }

  /** Two separator-free pieces around one separator split into the two pieces. */
  lemma {:induction false} SplitPair(a: string, b: string, c: char)
    requires c !in a && c !in b
    ensures SplitAny(a + [c] + b, {c}) == [a, b]
    decreases |a|
  {
    var s := a + [c] + b;
    if |a| == 0 {
      assert s[1..] == b;
      SplitNone(b, c);
    } else {
      assert s[1..] == a[1..] + [c] + b;
      SplitPair(a[1..], b, c);
      assert [a[0]] + a[1..] == a;
    }
  }

  /** A separator-free piece before the first separator is the first piece. */
  lemma {:induction false} SplitFirst(a: string, b: string, c: char)
    requires c !in a
    ensures SplitAny(a + [c] + b, {c}) == [a] + SplitAny(b, {c})
    decreases |a|
  {
    var s := a + [c] + b;
    if |a| == 0 {
      assert s[1..] == b;
    } else {
      assert s[1..] == a[1..] + [c] + b;
      SplitFirst(a[1..], b, c);
      assert [a[0]] + a[1..] == a;
    }
  }

  /** `str::splitn(2, c)`: the text before the first `c` and, when there is a
      `c`, the text after it. */
  function SplitOnce(s: string, c: char): (r: (string, Option<string>))
    ensures c !in r.0
    ensures r.1.None? <==> c !in s
    ensures r.1.Some? ==> s == r.0 + [c] + r.1.value
    ensures r.1.None? ==> r.0 == s
  {
    if c in s then
      var i := IndexOf(s, c);
      assert s == s[..i] + [c] + s[i + 1..];
      (s[..i], Some(s[i + 1..]))
    else (s, None)
  }

  // ---------------------------------------------------------------------------
  // Trimming and replacing
  // ---------------------------------------------------------------------------

  /** ASCII whitespace as `char::is_whitespace` sees it (space, \t, \n, \x0B, \x0C, \r). */
  predicate IsWhitespace(c: char) {
    c == ' ' || c == '\t' || c == '\n' || c == '\r' || c as int == 0x0B || c as int == 0x0C
  }

  predicate AllWhitespace(s: string) {
    forall i :: 0 <= i < |s| ==> IsWhitespace(s[i])
  }

  function TrimStart(s: string): (r: string)
    ensures |r| <= |s| && r == s[|s| - |r|..]
    ensures AllWhitespace(s[..|s| - |r|])
    ensures 0 < |r| ==> !IsWhitespace(r[0])
  {
    if 0 < |s| && IsWhitespace(s[0]) then TrimStart(s[1..]) else s
  }

  function TrimEnd(s: string): (r: string)
    ensures |r| <= |s| && r == s[..|r|]
    ensures AllWhitespace(s[|r|..])
    ensures 0 < |r| ==> !IsWhitespace(r[|r| - 1])
  {
    if 0 < |s| && IsWhitespace(s[|s| - 1]) then TrimEnd(s[..|s| - 1]) else s
  }

  /** `str::trim`: whitespace removed from both ends. */
  function Trim(s: string): (r: string)
    ensures |r| <= |s|
    ensures 0 < |r| ==> !IsWhitespace(r[0]) && !IsWhitespace(r[|r| - 1])
  {
    TrimEnd(TrimStart(s))
  }

  /** `trim().is_empty()`: the piece holds nothing but whitespace. */
  predicate Blank(s: string) {
    Trim(s) == ""
  }

  /** The number of blank pieces. */
  function BlankCount(pieces: seq<string>): (n: nat)
    ensures n <= |pieces|
  {
    if |pieces| == 0 then 0 else (if Blank(pieces[0]) then 1 else 0) + BlankCount(pieces[1..])
  }

  /** The pieces cut into runs at the pieces `blank` holds for: the run
      before the first such piece, then the run after each. The cutting
      pieces themselves are dropped. */
  function Cut(pieces: seq<string>, blank: string -> bool): (r: seq<seq<string>>)
    ensures 0 < |r|
  {
    if |pieces| == 0 then [[]]
    else
      var rest := Cut(pieces[1..], blank);
      if blank(pieces[0]) then [[]] + rest
      else [[pieces[0]] + rest[0]] + rest[1..]
  }

  /** The pieces cut into runs at the blank pieces, as the puzzle inputs
      separate their records by blank lines or tokens. */
  function Groups(pieces: seq<string>): (r: seq<seq<string>>)
    ensures |r| == 1 + BlankCount(pieces)
  {
    CutCount(pieces);
    Cut(pieces, Blank)
  }

  lemma {:induction false} CutCount(pieces: seq<string>)
    ensures |Cut(pieces, Blank)| == 1 + BlankCount(pieces)
  {
    if 0 < |pieces| {
      CutCount(pieces[1..]);
    }
  }

  /** No run holds a blank piece. */
  lemma GroupsNotBlank(pieces: seq<string>)
    ensures forall i, j :: 0 <= i < |Groups(pieces)| && 0 <= j < |Groups(pieces)[i]| ==> !Blank(Groups(pieces)[i][j])
  {
    CutNotMarked(pieces, Blank);
  }

  lemma {:induction false} CutNotMarked(pieces: seq<string>, blank: string -> bool)
    ensures forall i, j :: 0 <= i < |Cut(pieces, blank)| && 0 <= j < |Cut(pieces, blank)[i]| ==> !blank(Cut(pieces, blank)[i][j])
  {
    if 0 < |pieces| {
      var rest := Cut(pieces[1..], blank);
      CutNotMarked(pieces[1..], blank);
      if !blank(pieces[0]) {
        var head := [pieces[0]] + rest[0];
        forall j | 0 <= j < |head| ensures !blank(head[j]) {
          if 0 < j {
            assert head[j] == rest[0][j - 1];
          }
        }
        assert Cut(pieces, blank) == [head] + rest[1..];
      } else {
        assert Cut(pieces, blank) == [[]] + rest;
      }
    }
  }

  /** The runs written out again, with an empty piece between neighbours. */
  function Ungroup(runs: seq<seq<string>>): seq<string>
    requires 0 < |runs|
  {
    if |runs| == 1 then runs[0] else runs[0] + [""] + Ungroup(runs[1..])
  }

  /** Cutting at blank pieces undoes writing runs out with empty pieces
      between them, as long as no run holds a blank piece. */
  lemma GroupsUngroup(runs: seq<seq<string>>)
    requires 0 < |runs|
    requires forall i, j :: 0 <= i < |runs| && 0 <= j < |runs[i]| ==> !Blank(runs[i][j])
    ensures Groups(Ungroup(runs)) == runs
  {
    assert Blank("");
    CutUngroup(runs, Blank);
  }

  lemma {:induction false} CutUngroup(runs: seq<seq<string>>, blank: string -> bool)
    requires 0 < |runs| && blank("")
    requires forall i, j :: 0 <= i < |runs| && 0 <= j < |runs[i]| ==> !blank(runs[i][j])
    ensures Cut(Ungroup(runs), blank) == runs
  {
    if |runs| == 1 {
      CutOfRun(runs[0], [], blank);
      assert runs[0] + [] == runs[0];
    } else {
      var tail := [""] + Ungroup(runs[1..]);
      assert Ungroup(runs) == runs[0] + tail;
      CutOfRun(runs[0], tail, blank);
      CutMarked("", Ungroup(runs[1..]), blank);
      assert forall i, j :: 0 <= i < |runs[1..]| && 0 <= j < |runs[1..][i]| ==> runs[1..][i][j] == runs[i + 1][j];
      CutUngroup(runs[1..], blank);
      assert Cut(tail, blank) == [[]] + runs[1..];
      assert runs[0] + [] == runs[0];
      assert runs == [runs[0]] + runs[1..];
    }
  }

  /** Writing the runs out again gives back the pieces, as long as every
      blank piece is empty. */
  lemma UngroupGroups(pieces: seq<string>)
    requires forall i :: 0 <= i < |pieces| && Blank(pieces[i]) ==> pieces[i] == ""
    ensures Ungroup(Groups(pieces)) == pieces
  {
    UngroupCut(pieces, Blank);
  }

  lemma {:induction false} UngroupCut(pieces: seq<string>, blank: string -> bool)
    requires forall i :: 0 <= i < |pieces| && blank(pieces[i]) ==> pieces[i] == ""
    ensures Ungroup(Cut(pieces, blank)) == pieces
  {
    if 0 < |pieces| {
      var rest := Cut(pieces[1..], blank);
      UngroupCut(pieces[1..], blank);
      if blank(pieces[0]) {
        assert Ungroup(Cut(pieces, blank)) == [] + [""] + Ungroup(rest);
      } else if |rest| == 1 {
        assert Ungroup(Cut(pieces, blank)) == [pieces[0]] + rest[0];
      } else {
        assert Ungroup(rest) == rest[0] + [""] + Ungroup(rest[1..]);
        assert Ungroup(Cut(pieces, blank)) == [pieces[0]] + rest[0] + [""] + Ungroup(rest[1..]);
      }
    }
  }

  lemma Associative<T>(a: seq<T>, b: seq<T>, c: seq<T>)
    ensures a + (b + c) == a + b + c
  {
  }

  /** A run without cutting pieces in front of more pieces joins their first run. */
  lemma {:induction false} CutOfRun(run: seq<string>, tail: seq<string>, blank: string -> bool)
    requires forall j :: 0 <= j < |run| ==> !blank(run[j])
    ensures Cut(run + tail, blank) == [run + Cut(tail, blank)[0]] + Cut(tail, blank)[1..]
  {
    var g := Cut(tail, blank);
    if |run| == 0 {
      assert run + tail == tail && run + g[0] == g[0];
      assert [g[0]] + g[1..] == g;
    } else {
      var rest := run[1..] + tail;
      assert run + tail == [run[0]] + rest;
      CutCons(run[0], rest, blank);
      CutOfRun(run[1..], tail, blank);
      assert run == [run[0]] + run[1..];
      Associative([run[0]], run[1..], g[0]);
    }
  }

  lemma CutMarked(piece: string, tail: seq<string>, blank: string -> bool)
    requires blank(piece)
    ensures Cut([piece] + tail, blank) == [[]] + Cut(tail, blank)
  {
    assert ([piece] + tail)[1..] == tail;
  }

  lemma CutCons(piece: string, tail: seq<string>, blank: string -> bool)
    requires !blank(piece)
    ensures Cut([piece] + tail, blank) == [[piece] + Cut(tail, blank)[0]] + Cut(tail, blank)[1..]
  {
    assert ([piece] + tail)[1..] == tail;
  }

  /** A blank piece opens a new run; any other piece starts the first run. */
  lemma GroupsBlank(piece: string, tail: seq<string>)
    requires Blank(piece)
    ensures Groups([piece] + tail) == [[]] + Groups(tail)
  {
    CutMarked(piece, tail, Blank);
  }

  lemma GroupsCons(piece: string, tail: seq<string>)
    requires !Blank(piece)
    ensures Groups([piece] + tail) == [[piece] + Groups(tail)[0]] + Groups(tail)[1..]
  {
    CutCons(piece, tail, Blank);
  }


  /** A piece is blank (`trim().is_empty()`) exactly when it is all whitespace. */
  lemma TrimEmptyIffBlank(s: string)
    ensures Trim(s) == "" <==> AllWhitespace(s)
  {
    var t := TrimStart(s);
    var r := TrimEnd(t);
    var n := |s| - |t|;
    assert forall j | 0 <= j < n :: IsWhitespace(s[j]) by {
      forall j | 0 <= j < n ensures IsWhitespace(s[j]) {
        assert s[j] == s[..n][j];
      }
    }
    assert forall j | |r| <= j < |t| :: IsWhitespace(t[j]) by {
      forall j | |r| <= j < |t| ensures IsWhitespace(t[j]) {
        assert t[j] == t[|r|..][j - |r|];
      }
    }
    if !AllWhitespace(s) {
      var i :| 0 <= i < |s| && !IsWhitespace(s[i]);
      assert s[i] == t[i - n];
    }
  }

  /** A piece with no whitespace at either end is its own trim. */
  lemma TrimNoWhitespace(s: string)
    requires 0 < |s| ==> !IsWhitespace(s[0]) && !IsWhitespace(s[|s| - 1])
    ensures Trim(s) == s
  {
  }

  /** `str::trim_end_matches(pat)`: every trailing copy of `pat` removed. */
  function TrimEndMatches(s: string, pat: string): (r: string)
    requires 0 < |pat|
    ensures |r| <= |s| && r == s[..|r|]
    ensures !EndsWith(r, pat)
    ensures Copies(s[|r|..], pat)
    decreases |s|
  {
    if EndsWith(s, pat) then
      var r := TrimEndMatches(s[..|s| - |pat|], pat);
      CopiesSnoc(s[..|s| - |pat|][|r|..], pat);
      assert s[|r|..] == s[..|s| - |pat|][|r|..] + pat;
      r
    else s
  }

  /** `t` is zero or more whole copies of `pat`, back to back. */
  predicate Copies(t: string, pat: string)
    requires 0 < |pat|
    decreases |t|
  {
    |t| == 0 || (|pat| <= |t| && t[..|pat|] == pat && Copies(t[|pat|..], pat))
  }

  lemma {:induction false} CopiesSnoc(t: string, pat: string)
    requires 0 < |pat| && Copies(t, pat)
    ensures Copies(t + pat, pat)
    decreases |t|
  {
    if |t| == 0 {
      assert (t + pat)[..|pat|] == pat && (t + pat)[|pat|..] == [];
    } else {
      CopiesSnoc(t[|pat|..], pat);
      assert (t + pat)[..|pat|] == t[..|pat|];
      assert (t + pat)[|pat|..] == t[|pat|..] + pat;
    }
  }

  /** Whole copies of `pat` have a length that is a multiple of its length. */
  lemma {:induction false} CopiesLength(t: string, pat: string)
    requires 0 < |pat| && Copies(t, pat)
    ensures exists n: nat :: |t| == n * |pat|
    decreases |t|
  {
    if |t| == 0 {
      assert |t| == 0 * |pat|;
    } else {
      CopiesLength(t[|pat|..], pat);
      var n: nat :| |t[|pat|..]| == n * |pat|;
      assert |t| == (n + 1) * |pat|;
    }
  }

  /** `str::replace(from, to)`: non-overlapping occurrences, leftmost first. */
  function Replace(s: string, from: string, to: string): string
    requires 0 < |from|
    decreases |s|
  {
    if |s| < |from| then s
    else if s[..|from|] == from then to + Replace(s[|from|..], from, to)
    else [s[0]] + Replace(s[1..], from, to)
  }

  lemma AppendAssoc(a: string, b: string, c: string)
    ensures a + (b + c) == (a + b) + c
  {
  }

  /** Text at whose positions `from` does not start passes `Replace` unchanged. */
  lemma {:induction false} ReplaceSkip(a: string, b: string, from: string, to: string)
    requires 0 < |from|
    requires forall i :: 0 <= i < |a| ==> !OccursAt(a + b, from, i)
    ensures Replace(a + b, from, to) == a + Replace(b, from, to)
    decreases |a|
  {
    if |a| == 0 {
      assert a + b == b;
    } else {
      OccursShift(a, b, from);
      ReplaceSkip(a[1..], b, from, to);
      assert !OccursAt(a + b, from, 0);
      ReplaceSkipStep(a, b, from, to);
    }
  }

  /** One step of `ReplaceSkip`: the first character of `a` is copied. */
  lemma ReplaceSkipStep(a: string, b: string, from: string, to: string)
    requires 0 < |from| && 0 < |a|
    requires !OccursAt(a + b, from, 0)
    requires Replace(a[1..] + b, from, to) == a[1..] + Replace(b, from, to)
    ensures Replace(a + b, from, to) == a + Replace(b, from, to)
  {
    var s := a + b;
    assert s[1..] == a[1..] + b;
    assert [a[0]] + a[1..] == a;
    if |s| < |from| {
      assert Replace(b, from, to) == b;
    } else {
      assert s[..|from|] != from;
      assert Replace(s, from, to) == [a[0]] + (a[1..] + Replace(b, from, to));
    }
  }

  lemma OccursShift(a: string, b: string, from: string)
    requires 0 < |a|
    requires forall i :: 0 <= i < |a| ==> !OccursAt(a + b, from, i)
    ensures forall i :: 0 <= i < |a| - 1 ==> !OccursAt(a[1..] + b, from, i)
  {
    var s := a + b;
    var rest := a[1..] + b;
    forall i | 0 <= i < |a| - 1 ensures !OccursAt(rest, from, i) {
      assert !OccursAt(s, from, i + 1);
      if i + |from| <= |rest| {
        assert rest[i..i + |from|] == s[i + 1..i + 1 + |from|];
      }
    }
  }

  /** Text that does not contain the first character of `from` passes
      `Replace` unchanged. */
  lemma ReplaceSkipChars(a: string, b: string, from: string, to: string)
    requires 0 < |from| && from[0] !in a
    ensures Replace(a + b, from, to) == a + Replace(b, from, to)
  {
    forall i | 0 <= i < |a| ensures !OccursAt(a + b, from, i) {
      assert (a + b)[i] == a[i] != from[0];
      if i + |from| <= |a + b| {
        assert (a + b)[i..i + |from|][0] == (a + b)[i];
      }
    }
    ReplaceSkip(a, b, from, to);
  }

  /** A word without `from` followed by a space passes `Replace` unchanged,
      provided no occurrence of `from` can start inside the word and run on
      into what follows: every space inside `from` is followed by a character
      other than the one after the word's space. */
  lemma ReplaceSkipWord(t: string, b: string, from: string, to: string)
    requires 0 < |from| && !Contains(t, from) && 0 < |b| && b[0] == ' '
    requires forall k :: 0 < k < |from| && from[k] == ' ' ==> k + 1 < |from| && 1 < |b| && from[k + 1] != b[1]
    ensures Replace(t + b, from, to) == t + Replace(b, from, to)
  {
    ContainsIffOccurs(t, from);
    var s := t + b;
    forall i | 0 <= i < |t| ensures !OccursAt(s, from, i) {
      if i + |from| <= |t| {
        assert !OccursAt(t, from, i);
        assert s[i..i + |from|] == t[i..i + |from|];
      } else if i + |from| <= |s| {
        var k := |t| - i;
        assert s[i..i + |from|][k] == s[|t|] == ' ';
        if from[k] == ' ' {
          assert s[i..i + |from|][k + 1] == s[|t| + 1] == b[1];
        }
      }
    }
    ReplaceSkip(t, b, from, to);
  }

  /** The case of `ReplaceSkipWord` for a `from` without spaces. */
  lemma ReplaceSkipSpacedWord(t: string, b: string, from: string, to: string)
    requires 0 < |from| && ' ' !in from && !Contains(t, from) && 0 < |b| && b[0] == ' '
    ensures Replace(t + b, from, to) == t + Replace(b, from, to)
  {
    ReplaceSkipWord(t, b, from, to);
  }

  /** An occurrence at the front is replaced, and the scan goes on after it. */
  lemma ReplaceHit(from: string, b: string, to: string)
    requires 0 < |from|
    ensures Replace(from + b, from, to) == to + Replace(b, from, to)
  {
    assert (from + b)[..|from|] == from && (from + b)[|from|..] == b;
  }

  /** Whitespace on either side of an untrimmed core is removed by `trim`. */
  lemma TrimAround(w1: string, core: string, w2: string)
    requires AllWhitespace(w1) && AllWhitespace(w2)
    requires 0 < |core| && !IsWhitespace(core[0]) && !IsWhitespace(core[|core| - 1])
    ensures Trim(w1 + core + w2) == core
  {
    TrimStartSkips(w1, core + w2);
    assert w1 + core + w2 == w1 + (core + w2);
    TrimEndSkips(core, w2);
  }

  lemma {:induction false} TrimStartSkips(w: string, s: string)
    requires AllWhitespace(w) && 0 < |s| && !IsWhitespace(s[0])
    ensures TrimStart(w + s) == s
    decreases |w|
  {
    if 0 < |w| {
      assert (w + s)[1..] == w[1..] + s;
      TrimStartSkips(w[1..], s);
    }
  }

  lemma {:induction false} TrimEndSkips(s: string, w: string)
    requires AllWhitespace(w) && 0 < |s| && !IsWhitespace(s[|s| - 1])
    ensures TrimEnd(s + w) == s
    decreases |w|
  {
    if 0 < |w| {
      assert (s + w)[..|s + w| - 1] == s + w[..|w| - 1];
      TrimEndSkips(s, w[..|w| - 1]);
    }
  }
}
