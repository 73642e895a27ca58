/** Handy haversacks (src/day7.rs). A rule such as
    "light red bags contain 1 bright white bag, 2 muted yellow bags." is
    parsed by textual replacement into a bag type and its contents, one
    content bag per unit of count. Part 1 collects the bags that may hold a
    given type, directly or through other bags, where "holds" is a substring
    test on the concatenated content types; part 2 counts the bags inside a
    given type. */
module Day7 {
  import opened Wrappers
  import Text
  import SeqUtil

  /** A rule: its bag type and the bags it contains (each content bag has no
      contents of its own). */
  datatype Bag = Bag(bagType: string, contents: seq<Bag>)

  // ---------------------------------------------------------------------------
  // Parsing a rule
  // ---------------------------------------------------------------------------

  /** The replacements of `Bag::parse`, in their order. */
  function Normalize(rule: string): string {
    var r1 := Text.Replace(rule, "bags", "");
    var r2 := Text.Replace(r1, "bag", "");
    var r3 := Text.Replace(r2, "contain", ",");
    var r4 := Text.Replace(r3, "no other", "0");
    Text.Replace(r4, ".", "")
  }

  /** `n` copies of an empty bag of type `t`. */
  function Copies(t: string, n: nat): (r: seq<Bag>)
    ensures |r| == n && forall k :: 0 <= k < n ==> r[k] == Bag(t, [])
  {
    seq(n, _ => Bag(t, []))
  }

  /** One item after the first: blank and zero-count items add nothing, an
      item "n T" adds n bags of type T; a count that does not parse as `usize`
      and a missing type are the panics of the two `unwrap`s. */
  function ParseItem(item: string): (r: Result<seq<Bag>>)
    ensures Text.Trim(item) == "" ==> r == Ok([])
    ensures r.Ok? ==> forall k :: 0 <= k < |r.value| ==> r.value[k].contents == [] && r.value[k].bagType != ""
  {
    var t := Text.Trim(item);
    if t == "" then Ok([])
    else
      var (first, rest) := Text.SplitOnce(t, ' ');
      var n := Text.ParseUnsigned(first, Text.USIZE_MAX);
      if n.None? then Err("invalid digit found in string")
      else if n.value == 0 then Ok([])
      else if rest.None? then Err("called `Option::unwrap()` on a `None` value")
      else
        TypeNotEmpty(t);
        Ok(Copies(rest.value, n.value))
  }

  /** After the first space of a trimmed item something non-blank follows. */
  lemma TypeNotEmpty(t: string)
    requires 0 < |t| && !Text.IsWhitespace(t[|t| - 1])
    ensures Text.SplitOnce(t, ' ').1.Some? ==> Text.SplitOnce(t, ' ').1.value != ""
  {
    var (first, rest) := Text.SplitOnce(t, ' ');
    if rest.Some? {
      assert t[|first|] == ' ';
    }
  }

  /** The items from position i on, in order; the first panic wins. */
  function ParseItems(items: seq<string>, i: nat): (r: Result<seq<Bag>>)
    ensures r.Ok? ==> forall k :: 0 <= k < |r.value| ==> r.value[k].contents == [] && r.value[k].bagType != ""
    decreases |items| - i
  {
    if i >= |items| then Ok([])
    else
      var head :- ParseItem(items[i]);
      var tail :- ParseItems(items, i + 1);
      Ok(head + tail)
  }

  /** `Bag::from_str`: the trimmed text before the first comma of the
      normalized rule is the type, the other pieces are items. */
  function Parse(rule: string): (r: Result<Bag>)
    ensures r.Ok? ==> forall k :: 0 <= k < |r.value.contents| ==> r.value.contents[k].contents == []
  {
    FromPieces(Text.Split(Normalize(rule), ','))
  }

  /** The bag of the comma-separated pieces of a normalized rule. */
  function FromPieces(items: seq<string>): (r: Result<Bag>)
    requires 0 < |items|
    ensures r.Ok? <==> ParseItems(items[1..], 0).Ok?
    ensures r.Ok? ==> r.value.bagType == Text.Trim(items[0]) && r.value.contents == ParseItems(items[1..], 0).value
  {
    var contents :- ParseItems(items[1..], 0);
    Ok(Bag(Text.Trim(items[0]), contents))
  }

  /** An item "n T" with a positive count adds exactly n bags of type T. */
  lemma ItemCopies(n: nat, t: string, w1: string, w2: string)
    requires 0 < n <= Text.USIZE_MAX
    requires 0 < |t| && !Text.IsWhitespace(t[|t| - 1])
    requires Text.AllWhitespace(w1) && Text.AllWhitespace(w2)
    ensures ParseItem(w1 + Text.NatToString(n) + " " + t + w2) == Ok(Copies(t, n))
  {
    Text.ParseUnsignedNatToString(n, Text.USIZE_MAX);
    ItemCopiesDigits(Text.NatToString(n), n, t, w1, w2);
  }

  lemma ItemCopiesDigits(digits: string, n: nat, t: string, w1: string, w2: string)
    requires 0 < n && 0 < |digits| && Text.AllDigits(digits)
    requires Text.ParseUnsigned(digits, Text.USIZE_MAX) == Some(n)
    requires 0 < |t| && !Text.IsWhitespace(t[|t| - 1])
    requires Text.AllWhitespace(w1) && Text.AllWhitespace(w2)
    ensures ParseItem(w1 + digits + " " + t + w2) == Ok(Copies(t, n))
  {
    var core := digits + " " + t;
    assert core[0] == digits[0] && core[|core| - 1] == t[|t| - 1];
    assert Text.IsDigit(digits[0]);
    assert w1 + digits + " " + t + w2 == w1 + core + w2;
    Text.TrimAround(w1, core, w2);
    ItemOfCore(core, digits, n, t);
  }

  lemma ItemOfCore(core: string, digits: string, n: nat, t: string)
    requires 0 < n && Text.AllDigits(digits) && core == digits + " " + t
    requires Text.ParseUnsigned(digits, Text.USIZE_MAX) == Some(n)
    ensures Text.SplitOnce(core, ' ') == (digits, Some(t))
  {
    Text.NoDigitIn(digits, ' ');
    assert core[..|digits|] == digits;
    Text.IndexOfIs(core, ' ', |digits|);
    assert core[|digits| + 1..] == t;
  }

  /** An item whose trimmed text is "0" (what "no other" becomes) adds nothing. */
  lemma ItemZero(w1: string, w2: string)
    requires Text.AllWhitespace(w1) && Text.AllWhitespace(w2)
    ensures ParseItem(w1 + "0" + w2) == Ok([])
  {
    Text.TrimAround(w1, "0", w2);
    assert Text.ParseUnsigned("0", Text.USIZE_MAX) == Some(0);
  }

  // ---------------------------------------------------------------------------
  // Whole rules
  // ---------------------------------------------------------------------------

  /** A bag type as the rules write it: lower-case words separated by single
      spaces, none of which is touched by the replacements. */
  predicate CleanType(t: string) {
    0 < |t| && t[0] != ' ' && t[|t| - 1] != ' ' &&
    (forall i :: 0 <= i < |t| ==> 'a' <= t[i] <= 'z' || t[i] == ' ') &&
    !Text.Contains(t, "bags") && !Text.Contains(t, "bag") &&
    !Text.Contains(t, "contain") && !Text.Contains(t, "no other")
  }

  lemma CleanTypeChars(t: string)
    requires CleanType(t)
    ensures ',' !in t && '.' !in t && !Text.IsWhitespace(t[0]) && !Text.IsWhitespace(t[|t| - 1])
  {
    assert ',' !in t by {
      forall i | 0 <= i < |t| ensures t[i] != ',' {
        assert 'a' <= t[i] <= 'z' || t[i] == ' ';
      }
    }
    assert '.' !in t by {
      forall i | 0 <= i < |t| ensures t[i] != '.' {
        assert 'a' <= t[i] <= 'z' || t[i] == ' ';
      }
    }
  }

  /** Parsing "T bags contain <rest>": the type is T, and the contents are the
      items of the normalized rest. */
  lemma RuleType(t: string, rest: string)
    requires CleanType(t)
    ensures var items := ParseItems(Text.Split(" " + Normalize(rest), ','), 0);
      var r := Parse(t + (" bags contain " + rest));
      (r.Ok? <==> items.Ok?) && (items.Ok? ==> r.value == Bag(t, items.value))
  {
    var rule := t + (" bags contain " + rest);
    var first, others := t + "  ", " " + Normalize(rest);
    NormalizeSplit(t, rest);
    CleanTypeChars(t);
    Text.SplitFirst(first, others, ',');
    Text.TrimAround("", t, "  ");
    assert "" + t + "  " == first;
    assert Parse(rule) == FromPieces([first] + Text.Split(others, ','));
    FromPiecesSplit(first, Text.Split(others, ','), t);
  }

  /** The normalized rule cut at its first comma. */
  lemma NormalizeSplit(t: string, rest: string)
    requires CleanType(t)
    ensures Normalize(t + (" bags contain " + rest)) == (t + "  ") + [','] + (" " + Normalize(rest))
  {
    var normal := Normalize(rest);
    var blank, sp, comma := "  ", " ", [','];
    NormalizeRule(t, rest);
    RulePieces();
    Text.AppendAssoc(blank, comma + sp, normal);
    Text.AppendAssoc(comma, sp, normal);
    Text.AppendAssoc(t, blank, comma + (sp + normal));
    Text.AppendAssoc(t + blank, comma, sp + normal);
  }

  /** The bag of pieces made of a first piece and the pieces of the rest. */
  lemma FromPiecesSplit(first: string, rest: seq<string>, t: string)
    requires Text.Trim(first) == t
    ensures var items := ParseItems(rest, 0);
      var r := FromPieces([first] + rest);
      (r.Ok? <==> items.Ok?) && (items.Ok? ==> r.value == Bag(t, items.value))
  {
    assert ([first] + rest)[1..] == rest;
  }

  /** The replacements leave a clean type and turn " bags contain " into "  , ". */
  lemma NormalizeRule(t: string, rest: string)
    requires CleanType(t)
    ensures Normalize(t + (" bags contain " + rest)) == t + ("  , " + Normalize(rest))
  {
    var r1 := Text.Replace(rest, "bags", "");
    var r2 := Text.Replace(r1, "bag", "");
    var r3 := Text.Replace(r2, "contain", ",");
    var r4 := Text.Replace(r3, "no other", "0");
    StepBags(t, rest);
    StepBag(t, r1);
    StepContain(t, r2);
    StepNoOther(t, r3);
    StepDot(t, r4);
  }

  lemma StepBags(t: string, rest: string)
    requires CleanType(t)
    ensures Text.Replace(t + (" bags contain " + rest), "bags", "") == t + ("  contain " + Text.Replace(rest, "bags", ""))
  {
    var bags, sp, mid := "bags", " ", " contain ";
    var r1 := Text.Replace(rest, bags, "");
    RulePieces();
    Text.AppendAssoc(sp, bags + mid, rest);
    Text.AppendAssoc(bags, mid, rest);
    Text.ReplaceSkipSpacedWord(t, sp + (bags + (mid + rest)), bags, "");
    Text.ReplaceSkipChars(sp, bags + (mid + rest), bags, "");
    Text.ReplaceHit(bags, mid + rest, "");
    Text.ReplaceSkipChars(mid, rest, bags, "");
    assert "" + (mid + r1) == mid + r1;
    Text.AppendAssoc(sp, mid, r1);
  }

  lemma StepBag(t: string, r1: string)
    requires CleanType(t)
    ensures Text.Replace(t + ("  contain " + r1), "bag", "") == t + ("  contain " + Text.Replace(r1, "bag", ""))
  {
    var bag, lead := "bag", "  contain ";
    Text.ReplaceSkipSpacedWord(t, lead + r1, bag, "");
    Text.ReplaceSkipChars(lead, r1, bag, "");
  }

  lemma StepContain(t: string, r2: string)
    requires CleanType(t)
    ensures Text.Replace(t + ("  contain " + r2), "contain", ",") == t + ("  , " + Text.Replace(r2, "contain", ","))
  {
    var contain, blank, sp, comma := "contain", "  ", " ", ",";
    var r3 := Text.Replace(r2, contain, ",");
    RulePieces();
    Text.AppendAssoc(blank, contain + sp, r2);
    Text.AppendAssoc(contain, sp, r2);
    Text.ReplaceSkipSpacedWord(t, blank + (contain + (sp + r2)), contain, ",");
    Text.ReplaceSkipChars(blank, contain + (sp + r2), contain, ",");
    Text.ReplaceHit(contain, sp + r2, ",");
    Text.ReplaceSkipChars(sp, r2, contain, ",");
    Text.AppendAssoc(comma, sp, r3);
    Text.AppendAssoc(blank, comma + sp, r3);
  }

  lemma StepNoOther(t: string, r3: string)
    requires CleanType(t)
    ensures Text.Replace(t + ("  , " + r3), "no other", "0") == t + ("  , " + Text.Replace(r3, "no other", "0"))
  {
    var noOther, head := "no other", "  , ";
    Text.ReplaceSkipWord(t, head + r3, noOther, "0");
    Text.ReplaceSkipChars(head, r3, noOther, "0");
  }

  lemma StepDot(t: string, r4: string)
    requires CleanType(t)
    ensures Text.Replace(t + ("  , " + r4), ".", "") == t + ("  , " + Text.Replace(r4, ".", ""))
  {
    var dot, head := ".", "  , ";
    CleanTypeChars(t);
    Text.ReplaceSkipChars(t, head + r4, dot, "");
    Text.ReplaceSkipChars(head, r4, dot, "");
  }

  /** How the fixed parts of a rule are cut up in `NormalizeRule`. */
  lemma RulePieces()
    ensures " bags contain " == " " + ("bags" + " contain ")
    ensures " " + " contain " == "  contain "
    ensures "  contain " == "  " + ("contain" + " ")
    ensures "  , " == "  " + ([','] + " ")
  {
  }

  /** "T bags contain no other bags." is a bag of type T with no contents. */
  lemma RuleWithoutContents(t: string)
    requires CleanType(t)
    ensures Parse(t + " bags contain no other bags.") == Ok(Bag(t, []))
  {
    var dot, sp := ".", " ";
    var rest := "no other bags" + dot;
    NoContentsPieces(t, dot);
    RuleType(t, rest);
    NoOtherNormalizes(dot, sp);
    ZeroItems(sp);
  }

  lemma NoContentsPieces(t: string, dot: string)
    requires dot == "."
    ensures t + " bags contain no other bags." == t + (" bags contain " + ("no other bags" + dot))
  {
  }

  /** The only item of an empty rule, " 0 ", adds nothing. */
  lemma ZeroItems(sp: string)
    requires sp == " "
    ensures ParseItems(Text.Split(sp + ("0" + sp), ','), 0) == Ok([])
  {
    var item := sp + ("0" + sp);
    assert item == sp + "0" + sp;
    assert ',' !in item by {
      assert item == [' ', '0', ' '];
    }
    Text.SplitNone(item, ',');
    assert Text.Split(item, ',') == [item];
    ItemZero(sp, sp);
    assert ParseItems([item], 1) == Ok([]);
    var none: seq<Bag> := [];
    assert none + none == none;
    assert ParseItems([item], 0) == Ok(none);
  }

  /** "no other bags." becomes the item "0 ". */
  lemma NoOtherNormalizes(dot: string, sp: string)
    requires dot == "." && sp == " "
    ensures Normalize("no other bags" + dot) == "0" + sp
  {
    var r1 := Text.Replace("no other bags" + dot, "bags", "");
    NoOtherBags(dot);
    NoOtherKept(dot);
    NoOtherZero(dot, sp);
    DotDropped(dot, sp);
  }

  lemma NoOtherBags(dot: string)
    requires dot == "."
    ensures Text.Replace("no other bags" + dot, "bags", "") == "no other " + dot
  {
    var head, bags := "no other ", "bags";
    assert "no other bags" + dot == head + (bags + dot);
    Text.ReplaceSkipChars(head, bags + dot, bags, "");
    Text.ReplaceHit(bags, dot, "");
    assert Text.Replace(dot, bags, "") == dot;
    assert "" + dot == dot;
  }

  lemma NoOtherKept(dot: string)
    requires dot == "."
    ensures Text.Replace("no other " + dot, "bag", "") == "no other " + dot
    ensures Text.Replace("no other " + dot, "contain", ",") == "no other " + dot
  {
    var head := "no other ";
    Text.ReplaceSkipChars(head, dot, "bag", "");
    Text.ReplaceSkipChars(head, dot, "contain", ",");
  }

  lemma NoOtherZero(dot: string, sp: string)
    requires dot == "." && sp == " "
    ensures Text.Replace("no other " + dot, "no other", "0") == "0" + (sp + dot)
  {
    var noOther := "no other";
    assert "no other " + dot == noOther + (sp + dot);
    Text.ReplaceHit(noOther, sp + dot, "0");
  }

  lemma DotDropped(dot: string, sp: string)
    requires dot == "." && sp == " "
    ensures Text.Replace("0" + (sp + dot), ".", "") == "0" + sp
  {
    var zero := "0" + sp;
    Text.AppendAssoc("0", sp, dot);
    Text.ReplaceSkipChars(zero, dot, dot, "");
    assert Text.Replace(dot, dot, "") == "";
  }

  // ---------------------------------------------------------------------------
  // Part 1: the bags that may hold a type
  // ---------------------------------------------------------------------------

  /** The content types written one after the other, the `collect::<String>()`
      of `find_parents`. */
  function ContentTypes(contents: seq<Bag>): string {
    if |contents| == 0 then ""
    else ContentTypes(contents[..|contents| - 1]) + contents[|contents| - 1].bagType
  }

  /** The filter of `find_parents`: a substring test on the content types, so
      it also holds when `t` spans two adjacent content types. */
  predicate Holds(bag: Bag, t: string) {
    Text.Contains(ContentTypes(bag.contents), t)
  }

  /** The bags of `bags` not yet found. */
  ghost function Unfound(bags: seq<Bag>, found: seq<Bag>): set<Bag> {
    set b | b in bags && b !in found
  }

  /** `find_parents(bags, t, found)`: each bag holding `t` that is not yet
      found is appended and at once followed by what the search from its own
      type finds. The bags found before the call stay in front. */
  function FindParents(bags: seq<Bag>, t: string, found: seq<Bag>): (r: seq<Bag>)
    ensures found <= r
    ensures forall k :: |found| <= k < |r| ==> r[k] in bags
    ensures SeqUtil.NoDuplicates(found) ==> SeqUtil.NoDuplicates(r)
    decreases |Unfound(bags, found)|, 1, 0
  {
    ParentsFrom(bags, t, 0, found)
  }

  /** The `for_each` of `find_parents` from position i of `bags` on. */
  function ParentsFrom(bags: seq<Bag>, t: string, i: nat, found: seq<Bag>): (r: seq<Bag>)
    ensures found <= r
    ensures forall k :: |found| <= k < |r| ==> r[k] in bags
    ensures SeqUtil.NoDuplicates(found) ==> SeqUtil.NoDuplicates(r)
    decreases |Unfound(bags, found)|, 0, |bags| - i
  {
    if i >= |bags| then found
    else if Holds(bags[i], t) && bags[i] !in found then
      var added := found + [bags[i]];
      UnfoundShrinks(bags, found, bags[i]);
      var deeper := FindParents(bags, bags[i].bagType, added);
      UnfoundPrefix(bags, added, deeper);
      ParentsFrom(bags, t, i + 1, deeper)
    else ParentsFrom(bags, t, i + 1, found)
  }

  lemma UnfoundShrinks(bags: seq<Bag>, found: seq<Bag>, b: Bag)
    requires b in bags && b !in found
    ensures |Unfound(bags, found + [b])| < |Unfound(bags, found)|
  {
    var before, after := Unfound(bags, found), Unfound(bags, found + [b]);
    assert after == before - {b};
  }

  lemma UnfoundPrefix(bags: seq<Bag>, found: seq<Bag>, more: seq<Bag>)
    requires found <= more
    ensures |Unfound(bags, more)| <= |Unfound(bags, found)|
  {
    var before, after := Unfound(bags, found), Unfound(bags, more);
    forall b | b in after ensures b in before {
      assert b !in found by {
        forall k | 0 <= k < |found| ensures found[k] != b {
          assert more[k] == found[k];
        }
      }
    }
    assert before == after + (before - after);
  }

  /** `chain` leads from its first bag to type `t` within `bags`: each bag
      holds the type of the next one and the last holds `t`. */
  ghost predicate IsChain(bags: seq<Bag>, chain: seq<Bag>, t: string) {
    0 < |chain| &&
    (forall j :: 0 <= j < |chain| ==> chain[j] in bags) &&
    (forall j :: 0 <= j < |chain| - 1 ==> Holds(chain[j], chain[j + 1].bagType)) &&
    Holds(chain[|chain| - 1], t)
  }

  /** Bag `b` may hold type `t`, directly or through other bags. */
  ghost predicate MayHold(bags: seq<Bag>, b: Bag, t: string) {
    exists chain :: IsChain(bags, chain, t) && chain[0] == b
  }

  /** Every bag the search adds may hold the type searched for. */
  lemma {:induction false} ParentsSound(bags: seq<Bag>, t: string, found: seq<Bag>)
    ensures forall k :: |found| <= k < |FindParents(bags, t, found)| ==>
      MayHold(bags, FindParents(bags, t, found)[k], t)
    decreases |Unfound(bags, found)|, 1, 0
  {
    assert FindParents(bags, t, found) == ParentsFrom(bags, t, 0, found);
    ParentsFromSound(bags, t, 0, found);
  }

  lemma {:induction false} ParentsFromSound(bags: seq<Bag>, t: string, i: nat, found: seq<Bag>)
    ensures forall k :: |found| <= k < |ParentsFrom(bags, t, i, found)| ==>
      MayHold(bags, ParentsFrom(bags, t, i, found)[k], t)
    decreases |Unfound(bags, found)|, 0, |bags| - i
  {
    if i >= |bags| {
    } else if Holds(bags[i], t) && bags[i] !in found {
      var b := bags[i];
      var added := found + [b];
      UnfoundShrinks(bags, found, b);
      var deeper := FindParents(bags, b.bagType, added);
      UnfoundPrefix(bags, added, deeper);
      var r := ParentsFrom(bags, t, i + 1, deeper);
      assert ParentsFrom(bags, t, i, found) == r;
      ParentsSound(bags, b.bagType, added);
      assert b in bags && |added| == |found| + 1;
      DeeperSound(bags, t, found, b, deeper);
      ParentsFromSound(bags, t, i + 1, deeper);
      assert found <= deeper by {
        assert deeper[..|found|] == added[..|found|] == found;
      }
      PrefixKeeps(bags, t, found, deeper, r);
    } else {
      assert ParentsFrom(bags, t, i, found) == ParentsFrom(bags, t, i + 1, found);
      ParentsFromSound(bags, t, i + 1, found);
    }
  }

  /** The bag added for holding `t` and what the search from its type adds
      may all hold `t`. */
  lemma DeeperSound(bags: seq<Bag>, t: string, found: seq<Bag>, b: Bag, deeper: seq<Bag>)
    requires b in bags && Holds(b, t) && found + [b] <= deeper
    requires forall k :: |found| + 1 <= k < |deeper| ==> MayHold(bags, deeper[k], b.bagType)
    ensures forall k :: |found| <= k < |deeper| ==> MayHold(bags, deeper[k], t)
  {
    forall k | |found| <= k < |deeper| ensures MayHold(bags, deeper[k], t) {
      if k == |found| {
        assert deeper[k] == (found + [b])[k] == b;
        assert IsChain(bags, [b], t);
      } else {
        assert MayHold(bags, deeper[k], b.bagType);
        var chain :| IsChain(bags, chain, b.bagType) && chain[0] == deeper[k];
        ChainExtend(bags, chain, b, t);
      }
    }
  }

  lemma PrefixKeeps(bags: seq<Bag>, t: string, found: seq<Bag>, deeper: seq<Bag>, r: seq<Bag>)
    requires found <= deeper <= r
    requires forall k :: |found| <= k < |deeper| ==> MayHold(bags, deeper[k], t)
    requires forall k :: |deeper| <= k < |r| ==> MayHold(bags, r[k], t)
    ensures forall k :: |found| <= k < |r| ==> MayHold(bags, r[k], t)
  {
    forall k | |found| <= k < |r| ensures MayHold(bags, r[k], t) {
      if k < |deeper| {
        assert r[k] == deeper[k];
      }
    }
  }

  /** A chain to the type of `b`, followed by `b` holding `t`, is a chain to `t`. */
  lemma ChainExtend(bags: seq<Bag>, chain: seq<Bag>, b: Bag, t: string)
    requires IsChain(bags, chain, b.bagType) && b in bags && Holds(b, t)
    ensures IsChain(bags, chain + [b], t) && (chain + [b])[0] == chain[0]
  {
  }

  /** Every bag of bags[i..] that holds `t` is in `r`. */
  ghost predicate HoldersIn(bags: seq<Bag>, t: string, i: nat, r: seq<Bag>) {
    forall j :: i <= j < |bags| && Holds(bags[j], t) ==> bags[j] in r
  }

  /** For the bags of r[lo..], every bag holding their type is in `r`. */
  ghost predicate ClosedFrom(bags: seq<Bag>, r: seq<Bag>, lo: nat) {
    forall k :: lo <= k < |r| ==> HoldersIn(bags, r[k].bagType, 0, r)
  }

  /** The search leaves out no bag holding the type searched for, and no bag
      holding the type of a bag it added. */
  lemma {:induction false} ParentsComplete(bags: seq<Bag>, t: string, found: seq<Bag>)
    ensures HoldersIn(bags, t, 0, FindParents(bags, t, found))
    ensures ClosedFrom(bags, FindParents(bags, t, found), |found|)
    decreases |Unfound(bags, found)|, 1, 0
  {
    assert FindParents(bags, t, found) == ParentsFrom(bags, t, 0, found);
    ParentsFromComplete(bags, t, 0, found);
  }

  lemma {:induction false} ParentsFromComplete(bags: seq<Bag>, t: string, i: nat, found: seq<Bag>)
    ensures HoldersIn(bags, t, i, ParentsFrom(bags, t, i, found))
    ensures ClosedFrom(bags, ParentsFrom(bags, t, i, found), |found|)
    decreases |Unfound(bags, found)|, 0, |bags| - i
  {
    var r := ParentsFrom(bags, t, i, found);
    if i >= |bags| {
    } else if Holds(bags[i], t) && bags[i] !in found {
      var b := bags[i];
      var added := found + [b];
      UnfoundShrinks(bags, found, b);
      var deeper := FindParents(bags, b.bagType, added);
      UnfoundPrefix(bags, added, deeper);
      assert r == ParentsFrom(bags, t, i + 1, deeper);
      ParentsComplete(bags, b.bagType, added);
      ParentsFromComplete(bags, t, i + 1, deeper);
      AddedStep(bags, t, i, found, deeper, r);
    } else {
      assert r == ParentsFrom(bags, t, i + 1, found);
      ParentsFromComplete(bags, t, i + 1, found);
      if Holds(bags[i], t) {
        var k :| 0 <= k < |found| && found[k] == bags[i];
        InPrefix(found, r, k);
      }
    }
  }

  /** The bag at position i was added, and the search from its type found
      `deeper`: then nothing holding `t` from i on, and nothing holding the
      type of a bag added since `found`, is missing from `r`. */
  lemma AddedStep(bags: seq<Bag>, t: string, i: nat, found: seq<Bag>, deeper: seq<Bag>, r: seq<Bag>)
    requires i < |bags| && Holds(bags[i], t)
    requires found + [bags[i]] <= deeper && deeper <= r
    requires HoldersIn(bags, bags[i].bagType, 0, deeper) && ClosedFrom(bags, deeper, |found| + 1)
    requires HoldersIn(bags, t, i + 1, r) && ClosedFrom(bags, r, |deeper|)
    ensures HoldersIn(bags, t, i, r) && ClosedFrom(bags, r, |found|)
  {
    var b := bags[i];
    assert deeper[|found|] == b;
    InPrefix(deeper, r, |found|);
    HoldersGrow(bags, b.bagType, 0, deeper, r);
    forall k | |found| < k < |deeper| ensures HoldersIn(bags, r[k].bagType, 0, r) {
      assert r[k] == deeper[k];
      HoldersGrow(bags, deeper[k].bagType, 0, deeper, r);
    }
  }

  lemma InPrefix(a: seq<Bag>, b: seq<Bag>, k: nat)
    requires a <= b && k < |a|
    ensures a[k] in b
  {
    assert b[k] == a[k];
  }

  lemma HoldersGrow(bags: seq<Bag>, t: string, i: nat, r: seq<Bag>, more: seq<Bag>)
    requires r <= more && HoldersIn(bags, t, i, r)
    ensures HoldersIn(bags, t, i, more)
  {
    forall j | i <= j < |bags| && Holds(bags[j], t) ensures bags[j] in more {
      var k :| 0 <= k < |r| && r[k] == bags[j];
      InPrefix(r, more, k);
    }
  }

  /** In a result closed under holding, every bag of a chain to `t` is found. */
  lemma {:induction false} ChainFound(bags: seq<Bag>, t: string, r: seq<Bag>, chain: seq<Bag>, j: nat)
    requires IsChain(bags, chain, t) && j < |chain|
    requires HoldersIn(bags, t, 0, r) && ClosedFrom(bags, r, 0)
    ensures chain[j] in r
    decreases |chain| - j
  {
    assert chain[j] in bags;
    var i :| 0 <= i < |bags| && bags[i] == chain[j];
    if j + 1 < |chain| {
      ChainFound(bags, t, r, chain, j + 1);
      var k :| 0 <= k < |r| && r[k] == chain[j + 1];
      assert Holds(bags[i], r[k].bagType);
      HolderFound(bags, r[k].bagType, r, i);
    } else {
      HolderFound(bags, t, r, i);
    }
  }

  lemma HolderFound(bags: seq<Bag>, t: string, r: seq<Bag>, i: nat)
    requires HoldersIn(bags, t, 0, r) && i < |bags| && Holds(bags[i], t)
    ensures bags[i] in r
  {
  }

  /** From an empty start, the search finds exactly the bags that may hold
      `t`, each once. */
  lemma ParentsExact(bags: seq<Bag>, t: string)
    ensures forall b :: b in FindParents(bags, t, []) <==> b in bags && MayHold(bags, b, t)
    ensures SeqUtil.NoDuplicates(FindParents(bags, t, []))
  {
    var r := FindParents(bags, t, []);
    ParentsSound(bags, t, []);
    ParentsComplete(bags, t, []);
    forall b | b in bags && MayHold(bags, b, t) ensures b in r {
      var chain :| IsChain(bags, chain, t) && chain[0] == b;
      ChainFound(bags, t, r, chain, 0);
    }
    forall b | b in r ensures b in bags && MayHold(bags, b, t) {
      var k :| 0 <= k < |r| && r[k] == b;
    }
  }

  const TARGET: string := "shiny gold"

  /** `part1`: the number of bags the search from "shiny gold" finds. */
  function Part1(bags: seq<Bag>): (n: nat)
    ensures n == |set b | b in bags && MayHold(bags, b, TARGET)|
  {
    var r := FindParents(bags, TARGET, []);
    ParentsExact(bags, TARGET);
    SeqUtil.DistinctCard(r);
    assert (set b | b in r) == (set b | b in bags && MayHold(bags, b, TARGET));
    |r|
  }

  /** A content bag's type appears in the content types, so a bag holds the
      type of each bag it contains. */
  lemma ContainedHeld(bag: Bag, k: nat)
    requires k < |bag.contents|
    ensures Holds(bag, bag.contents[k].bagType)
  {
    TypeOccurs(bag.contents, k);
    Text.ContainsIffOccurs(ContentTypes(bag.contents), bag.contents[k].bagType);
  }

  lemma {:induction false} TypeOccurs(contents: seq<Bag>, k: nat)
    requires k < |contents|
    ensures Text.OccursAt(ContentTypes(contents), contents[k].bagType, |ContentTypes(contents[..k])|)
    decreases |contents|
  {
    var n := |contents|;
    var init := contents[..n - 1];
    if k < n - 1 {
      TypeOccurs(init, k);
      assert init[..k] == contents[..k] && init[k] == contents[k];
      var p, w := |ContentTypes(contents[..k])|, contents[k].bagType;
      assert ContentTypes(contents)[p..p + |w|] == ContentTypes(init)[p..p + |w|];
    } else {
      assert contents[..k] == init;
    }
  }

  // ---------------------------------------------------------------------------
  // Part 2: the bags inside a type
  // ---------------------------------------------------------------------------

  /** The sum of two counts, absent when either is. */
  function AddCounts(a: Option<nat>, b: Option<nat>): (r: Option<nat>)
    ensures r.Some? <==> a.Some? && b.Some?
    ensures r.Some? ==> r.value == a.value + b.value
  {
    if a.Some? && b.Some? then Some(a.value + b.value) else None
  }

  /** `find_contained_bag_count(bags, t, ..)`: what the call adds to the
      counter, over every rule of type `t`. The source recurses without
      bound, so here each call spends one unit of `fuel`; `None` means the
      fuel ran out, as it must for rules that contain themselves. */
  function Contained(bags: seq<Bag>, t: string, fuel: nat): Option<nat>
    decreases fuel, 0, 0
  {
    if fuel == 0 then None else RulesFrom(bags, t, 0, fuel - 1)
  }

  /** The `filter(..).for_each` over bags[i..]. */
  function RulesFrom(bags: seq<Bag>, t: string, i: nat, fuel: nat): Option<nat>
    decreases fuel, 2, |bags| - i
  {
    if i >= |bags| then Some(0)
    else if bags[i].bagType == t then
      AddCounts(AddCounts(Some(|bags[i].contents|), InsideFrom(bags, bags[i].contents, 0, fuel)),
                RulesFrom(bags, t, i + 1, fuel))
    else RulesFrom(bags, t, i + 1, fuel)
  }

  /** The inner `for_each` over contents[j..] of one rule. */
  function InsideFrom(bags: seq<Bag>, contents: seq<Bag>, j: nat, fuel: nat): Option<nat>
    decreases fuel, 1, |contents| - j
  {
    if j >= |contents| then Some(0)
    else AddCounts(Contained(bags, contents[j].bagType, fuel), InsideFrom(bags, contents, j + 1, fuel))
  }

  /** More fuel does not change a count that was reached. */
  lemma {:induction false} ContainedMoreFuel(bags: seq<Bag>, t: string, fuel: nat, more: nat)
    requires fuel <= more && Contained(bags, t, fuel).Some?
    ensures Contained(bags, t, more) == Contained(bags, t, fuel)
    decreases fuel, 0, 0
  {
    RulesMoreFuel(bags, t, 0, fuel - 1, more - 1);
  }

  lemma {:induction false} RulesMoreFuel(bags: seq<Bag>, t: string, i: nat, fuel: nat, more: nat)
    requires fuel <= more && RulesFrom(bags, t, i, fuel).Some?
    ensures RulesFrom(bags, t, i, more) == RulesFrom(bags, t, i, fuel)
    decreases fuel, 2, |bags| - i
  {
    if i < |bags| {
      if bags[i].bagType == t {
        InsideMoreFuel(bags, bags[i].contents, 0, fuel, more);
      }
      RulesMoreFuel(bags, t, i + 1, fuel, more);
    }
  }

  lemma {:induction false} InsideMoreFuel(bags: seq<Bag>, contents: seq<Bag>, j: nat, fuel: nat, more: nat)
    requires fuel <= more && InsideFrom(bags, contents, j, fuel).Some?
    ensures InsideFrom(bags, contents, j, more) == InsideFrom(bags, contents, j, fuel)
    decreases fuel, 1, |contents| - j
  {
    if j < |contents| {
      ContainedMoreFuel(bags, contents[j].bagType, fuel, more);
      InsideMoreFuel(bags, contents, j + 1, fuel, more);
    }
  }

  /** `rank` strictly decreases from each rule's type to its content types:
      the rules contain no cycle. */
  ghost predicate Ranked(bags: seq<Bag>, rank: string -> nat) {
    forall i, k :: 0 <= i < |bags| && 0 <= k < |bags[i].contents| ==>
      rank(bags[i].contents[k].bagType) < rank(bags[i].bagType)
  }

  /** Without cycles the count is reached once the fuel exceeds the rank. */
  lemma {:induction false} ContainedDefined(bags: seq<Bag>, rank: string -> nat, t: string, fuel: nat)
    requires Ranked(bags, rank) && rank(t) < fuel
    ensures Contained(bags, t, fuel).Some?
    decreases fuel, 0, 0
  {
    RulesDefined(bags, rank, t, 0, fuel - 1);
  }

  lemma {:induction false} RulesDefined(bags: seq<Bag>, rank: string -> nat, t: string, i: nat, fuel: nat)
    requires Ranked(bags, rank) && rank(t) <= fuel
    ensures RulesFrom(bags, t, i, fuel).Some?
    decreases fuel, 2, |bags| - i
  {
    if i < |bags| {
      if bags[i].bagType == t {
        InsideDefined(bags, rank, i, 0, fuel);
      }
      RulesDefined(bags, rank, t, i + 1, fuel);
    }
  }

  lemma {:induction false} InsideDefined(bags: seq<Bag>, rank: string -> nat, i: nat, j: nat, fuel: nat)
    requires Ranked(bags, rank) && i < |bags| && rank(bags[i].bagType) <= fuel
    ensures InsideFrom(bags, bags[i].contents, j, fuel).Some?
    decreases fuel, 1, |bags[i].contents| - j
  {
    var contents := bags[i].contents;
    if j < |contents| {
      assert rank(contents[j].bagType) < rank(bags[i].bagType);
      ContainedDefined(bags, rank, contents[j].bagType, fuel);
      InsideDefined(bags, rank, i, j + 1, fuel);
    }
  }

  /** The bags inside type `t` counted without a budget, by recursion on the
      rank: each bag a rule of type `t` holds counts once, together with the
      bags inside its own type. */
  ghost function BagsInside(bags: seq<Bag>, rank: string -> nat, t: string): nat
    requires Ranked(bags, rank)
    decreases rank(t), 2, 0
  {
    BagsInRules(bags, rank, t, 0)
  }

  /** The count over the rules of type `t` among bags[i..]. */
  ghost function BagsInRules(bags: seq<Bag>, rank: string -> nat, t: string, i: nat): nat
    requires Ranked(bags, rank)
    decreases rank(t), 1, |bags| - i
  {
    if i >= |bags| then 0
    else if bags[i].bagType == t then BagsInContents(bags, rank, i, 0) + BagsInRules(bags, rank, t, i + 1)
    else BagsInRules(bags, rank, t, i + 1)
  }

  /** The count over contents[j..] of rule `i`: each bag and what is inside it. */
  ghost function BagsInContents(bags: seq<Bag>, rank: string -> nat, i: nat, j: nat): nat
    requires Ranked(bags, rank) && i < |bags|
    decreases rank(bags[i].bagType), 0, |bags[i].contents| - j
  {
    var contents := bags[i].contents;
    if j >= |contents| then 0
    else
      assert rank(contents[j].bagType) < rank(bags[i].bagType);
      1 + BagsInside(bags, rank, contents[j].bagType) + BagsInContents(bags, rank, i, j + 1)
  }

  /** Without cycles, and with a budget above the rank, the source's count is
      the number of bags inside `t`. */
  lemma {:induction false} ContainedCounts(bags: seq<Bag>, rank: string -> nat, t: string, fuel: nat)
    requires Ranked(bags, rank) && rank(t) < fuel
    ensures Contained(bags, t, fuel) == Some(BagsInside(bags, rank, t))
    decreases fuel, 0, 0
  {
    RulesCount(bags, rank, t, 0, fuel - 1);
  }

  lemma {:induction false} RulesCount(bags: seq<Bag>, rank: string -> nat, t: string, i: nat, fuel: nat)
    requires Ranked(bags, rank) && rank(t) <= fuel
    ensures RulesFrom(bags, t, i, fuel) == Some(BagsInRules(bags, rank, t, i))
    decreases fuel, 2, |bags| - i
  {
    if i < |bags| {
      if bags[i].bagType == t {
        InsideCount(bags, rank, i, 0, fuel);
      }
      RulesCount(bags, rank, t, i + 1, fuel);
    }
  }

  lemma {:induction false} InsideCount(bags: seq<Bag>, rank: string -> nat, i: nat, j: nat, fuel: nat)
    requires Ranked(bags, rank) && i < |bags| && j <= |bags[i].contents| && rank(bags[i].bagType) <= fuel
    ensures InsideFrom(bags, bags[i].contents, j, fuel).Some?
    ensures (|bags[i].contents| - j) + InsideFrom(bags, bags[i].contents, j, fuel).value == BagsInContents(bags, rank, i, j)
    decreases fuel, 1, |bags[i].contents| - j
  {
    var contents := bags[i].contents;
    if j < |contents| {
      assert rank(contents[j].bagType) < rank(bags[i].bagType);
      ContainedCounts(bags, rank, contents[j].bagType, fuel);
      InsideCount(bags, rank, i, j + 1, fuel);
    }
  }

  /** A rule of type `t` that contains a bag of type `t` makes the source
      recurse without end: no fuel reaches a count. */
  lemma {:induction false} SelfContainedUndefined(bags: seq<Bag>, i: nat, k: nat, fuel: nat)
    requires i < |bags| && k < |bags[i].contents| && bags[i].contents[k].bagType == bags[i].bagType
    ensures Contained(bags, bags[i].bagType, fuel).None?
    decreases fuel
  {
    if 0 < fuel {
      var t := bags[i].bagType;
      SelfContainedUndefined(bags, i, k, fuel - 1);
      InsideNone(bags, bags[i].contents, 0, k, fuel - 1);
      RulesNone(bags, t, 0, i, fuel - 1);
    }
  }

  lemma {:induction false} InsideNone(bags: seq<Bag>, contents: seq<Bag>, j: nat, k: nat, fuel: nat)
    requires j <= k < |contents| && Contained(bags, contents[k].bagType, fuel).None?
    ensures InsideFrom(bags, contents, j, fuel).None?
    decreases k - j
  {
    if j < k {
      InsideNone(bags, contents, j + 1, k, fuel);
    }
  }

  lemma {:induction false} RulesNone(bags: seq<Bag>, t: string, i: nat, m: nat, fuel: nat)
    requires i <= m < |bags| && bags[m].bagType == t && InsideFrom(bags, bags[m].contents, 0, fuel).None?
    ensures RulesFrom(bags, t, i, fuel).None?
    decreases m - i
  {
    if i < m {
      RulesNone(bags, t, i + 1, m, fuel);
    }
  }

  /** Three rules in a line: "shiny gold" holds two "dark red", each of which
      holds two "dark blue", which hold nothing; 2 + 2 * 2 bags in all. */
  lemma ExampleCount(bags: seq<Bag>)
    requires bags == [Bag(TARGET, Copies("dark red", 2)),
                      Bag("dark red", Copies("dark blue", 2)),
                      Bag("dark blue", [])]
    ensures Contained(bags, TARGET, 3) == Some(6)
  {
    var red, blue := "dark red", "dark blue";
    assert bags[0].bagType != red && bags[0].bagType != blue && bags[1].bagType != blue;
    assert RulesFrom(bags, blue, 2, 0) == Some(0);
    assert Contained(bags, blue, 1) == Some(0);
    var reds, blues := bags[0].contents, bags[1].contents;
    assert InsideFrom(bags, blues, 1, 1) == Some(0);
    assert InsideFrom(bags, blues, 0, 1) == Some(0);
    assert RulesFrom(bags, red, 2, 1) == Some(0);
    assert RulesFrom(bags, red, 1, 1) == Some(2);
    assert Contained(bags, red, 2) == Some(2);
    assert InsideFrom(bags, reds, 1, 2) == Some(2);
    assert InsideFrom(bags, reds, 0, 2) == Some(4);
    assert bags[1].bagType != TARGET && bags[2].bagType != TARGET;
    assert RulesFrom(bags, TARGET, 2, 2) == Some(0);
    assert RulesFrom(bags, TARGET, 1, 2) == Some(0);
    assert RulesFrom(bags, TARGET, 0, 2) == Some(6);
  }
}
