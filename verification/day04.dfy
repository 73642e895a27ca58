/** Passport processing (src/day4.rs). The batch file is split into tokens
    on spaces and newlines; a blank token starts a new passport, any other
    token "key:value" sets a field of the current passport. Part 1 asks for
    the seven required fields (cid is optional), part 2 also validates each
    required field's value. */
module Day4 {
  import opened Wrappers
  import Text

  /** A passport's fields; a later "key:value" token for the same key
      overwrites the earlier value, as `HashMap::insert` does. */
  type Passport = map<string, string>

  /** The required keys, in the order the validity checks visit them. */
  const RequiredKeys: seq<string> := ["byr", "iyr", "eyr", "hgt", "hcl", "ecl", "pid"]

  const EyeColors: seq<string> := ["amb", "blu", "brn", "gry", "grn", "hzl", "oth"]

  // ---------------------------------------------------------------------------
  // Field validators
  // ---------------------------------------------------------------------------

  /** `is_valid_year`: exactly four chars that parse as a `u32` in [min, max]. */
  function ValidYear(value: string, min: nat, max: nat): (b: bool)
    ensures b ==> (|value| == 4 && Text.ParseUnsigned(value, Text.U32_MAX).Some? &&
                   min <= Text.ParseUnsigned(value, Text.U32_MAX).value <= max)
  {
    if |value| != 4 then false
    else
      match Text.ParseUnsigned(value, Text.U32_MAX)
      case Some(year) => min <= year <= max
      case None => false
  }

  /** For the year ranges used (all at least 1000) a valid year is exactly four
      decimal digits whose value lies in the range: a leading '+', which the
      parser accepts, leaves only three digits and a value below 1000. */
  lemma ValidYearDigits(value: string, min: nat, max: nat)
    requires 1000 <= min && max <= Text.U32_MAX
    ensures ValidYear(value, min, max) <==>
      |value| == 4 && Text.AllDigits(value) && min <= Text.DecimalValue(value) <= max
  {
    if |value| == 4 && !Text.AllDigits(value) && 0 < |value| && value[0] == '+' {
      var digits := value[1..];
      if Text.AllDigits(digits) {
        ThreeDigitsBelow1000(digits);
      }
    }
  }

  lemma ThreeDigitsBelow1000(s: string)
    requires |s| == 3 && Text.AllDigits(s)
    ensures Text.DecimalValue(s) < 1000
  {
    var a := s[..1];
    var b := s[..2];
    assert b[..1] == a && a[..0] == [] && s[..|s| - 1] == b && b[..|b| - 1] == a;
    assert Text.DecimalValue(a) < 10;
    assert Text.DecimalValue(b) < 100;
  }

  /** `is_valid_height`: a number of centimetres in 150..193 or of inches in
      59..76. The unit is removed with `trim_end_matches`, which strips every
      trailing copy, so "150cmcm" is accepted as well. */
  function ValidHeight(value: string): bool {
    if Text.EndsWith(value, "cm") then
      match Text.ParseUnsigned(Text.TrimEndMatches(value, "cm"), Text.U32_MAX)
      case Some(h) => 150 <= h <= 193
      case None => false
    else if Text.EndsWith(value, "in") then
      match Text.ParseUnsigned(Text.TrimEndMatches(value, "in"), Text.U32_MAX)
      case Some(h) => 59 <= h <= 76
      case None => false
    else false
  }

  /** A decimal number followed by one unit is a valid height exactly when
      the number is in that unit's range. */
  lemma ValidHeightOf(n: nat)
    ensures ValidHeight(Text.NatToString(n) + "cm") <==> 150 <= n <= 193
    ensures ValidHeight(Text.NatToString(n) + "in") <==> 59 <= n <= 76
  {
    UnitStripped(n, "cm");
    UnitStripped(n, "in");
    var s := Text.NatToString(n);
    assert Text.EndsWith(s + "cm", "cm");
    assert Text.EndsWith(s + "in", "in");
    assert !Text.EndsWith(s + "in", "cm");
  }

  /** Stripping the unit from "<digits><unit>" leaves the digits. */
  lemma UnitStripped(n: nat, unit: string)
    requires unit == "cm" || unit == "in"
    ensures Text.TrimEndMatches(Text.NatToString(n) + unit, unit) == Text.NatToString(n)
    ensures n <= Text.U32_MAX ==>
      Text.ParseUnsigned(Text.TrimEndMatches(Text.NatToString(n) + unit, unit), Text.U32_MAX) == Some(n)
    ensures n > Text.U32_MAX ==>
      Text.ParseUnsigned(Text.TrimEndMatches(Text.NatToString(n) + unit, unit), Text.U32_MAX).None?
  {
    UnitStrippedDigits(Text.NatToString(n), unit);
    Text.DecimalValueOfNatToString(n);
  }

  predicate IsHexDigit(c: char) {
    Text.IsDigit(c) || 'a' <= c <= 'f' || 'A' <= c <= 'F'
  }

  /** `is_valid_hair_color`: seven chars, a leading '#', then six hex digits.
      Rust's `is_ascii_hexdigit` accepts upper-case letters too. */
  function ValidHairColor(value: string): (b: bool)
    ensures b <==> |value| == 7 && value[0] == '#' && forall i :: 1 <= i < 7 ==> IsHexDigit(value[i])
  {
    |value| == 7 && value[0] == '#' && AllHex(value[1..])
  }

  predicate AllHex(s: string)
    ensures AllHex(s) <==> forall i :: 0 <= i < |s| ==> IsHexDigit(s[i])
  {
    |s| == 0 || (IsHexDigit(s[0]) && AllHex(s[1..]))
  }

  /** `is_valid_eye_color`: one of the seven listed codes. */
  function ValidEyeColor(value: string): (b: bool)
    ensures b <==> value == "amb" || value == "blu" || value == "brn" || value == "gry" ||
                   value == "grn" || value == "hzl" || value == "oth"
  {
    value in EyeColors
  }

  /** `is_valid_passport_id`: nine chars, all digits (leading zeros allowed). */
  function ValidPassportId(value: string): (b: bool)
    ensures b <==> |value| == 9 && forall i :: 0 <= i < |value| ==> '0' <= value[i] <= '9'
  {
    |value| == 9 && Text.AllDigits(value)
  }

  /** `value` is a run of digits followed by the two-letter unit. */
  predicate HasUnit(value: string, unit: string) {
    |unit| == 2 && 2 < |value| && Text.AllDigits(value[..|value| - 2]) && value[|value| - 2..] == unit
  }

  /** A run of digits followed by one unit is a valid height exactly when
      its value lies in that unit's range. */
  lemma HeightWithUnit(value: string)
    ensures HasUnit(value, "cm") ==> (ValidHeight(value) <==> 150 <= Text.DecimalValue(value[..|value| - 2]) <= 193)
    ensures HasUnit(value, "in") ==> (ValidHeight(value) <==> 59 <= Text.DecimalValue(value[..|value| - 2]) <= 76)
  {
    if 2 < |value| {
      var digits, unit := value[..|value| - 2], value[|value| - 2..];
      assert value == digits + unit;
      if HasUnit(value, "cm") {
        ValidHeightDigits(digits, "cm");
      } else if HasUnit(value, "in") {
        ValidHeightDigits(digits, "in");
      }
    }
  }

  /** The value check part 2 applies to a required key. */
  function FieldValid(key: string, value: string): (b: bool)
    requires key in RequiredKeys
    ensures key == "byr" ==> (b <==> |value| == 4 && Text.AllDigits(value) && 1920 <= Text.DecimalValue(value) <= 2002)
    ensures key == "iyr" ==> (b <==> |value| == 4 && Text.AllDigits(value) && 2010 <= Text.DecimalValue(value) <= 2020)
    ensures key == "eyr" ==> (b <==> |value| == 4 && Text.AllDigits(value) && 2020 <= Text.DecimalValue(value) <= 2030)
    ensures key == "hgt" && HasUnit(value, "cm") ==> (b <==> 150 <= Text.DecimalValue(value[..|value| - 2]) <= 193)
    ensures key == "hgt" && HasUnit(value, "in") ==> (b <==> 59 <= Text.DecimalValue(value[..|value| - 2]) <= 76)
    ensures key == "hcl" ==> (b <==> |value| == 7 && value[0] == '#' && forall i :: 1 <= i < 7 ==> IsHexDigit(value[i]))
    ensures key == "ecl" ==> (b <==> value in EyeColors)
    ensures key == "pid" ==> (b <==> |value| == 9 && Text.AllDigits(value))
  {
    ValidYearDigits(value, 1920, 2002);
    ValidYearDigits(value, 2010, 2020);
    ValidYearDigits(value, 2020, 2030);
    HeightWithUnit(value);
    match key
    case "byr" => ValidYear(value, 1920, 2002)
    case "iyr" => ValidYear(value, 2010, 2020)
    case "eyr" => ValidYear(value, 2020, 2030)
    case "hgt" => ValidHeight(value)
    case "hcl" => ValidHairColor(value)
    case "ecl" => ValidEyeColor(value)
    case "pid" => ValidPassportId(value)
  }

  // ---------------------------------------------------------------------------
  // Passport validity
  // ---------------------------------------------------------------------------

  /** The loop over the required keys: every key from `i` on is present (and,
      with `checkValues`, holds a valid value). */
  function CheckKeys(p: Passport, i: nat, checkValues: bool): bool
    requires i <= |RequiredKeys|
    decreases |RequiredKeys| - i
  {
    if i == |RequiredKeys| then true
    else
      var key := RequiredKeys[i];
      if key !in p then false
      else if checkValues && !FieldValid(key, p[key]) then false
      else CheckKeys(p, i + 1, checkValues)
  }

  /** `is_valid_part1`. */
  function ValidPart1(p: Passport): bool {
    CheckKeys(p, 0, false)
  }

  /** `is_valid_part2`. */
  function ValidPart2(p: Passport): bool {
    CheckKeys(p, 0, true)
  }

  lemma {:induction false} CheckKeysMeaning(p: Passport, i: nat, checkValues: bool)
    requires i <= |RequiredKeys|
    ensures CheckKeys(p, i, checkValues) <==>
      forall j :: i <= j < |RequiredKeys| ==>
        (RequiredKeys[j] in p && (checkValues ==> FieldValid(RequiredKeys[j], p[RequiredKeys[j]])))
    decreases |RequiredKeys| - i
  {
    if i < |RequiredKeys| {
      CheckKeysMeaning(p, i + 1, checkValues);
    }
  }

  /** Part 1 holds exactly when the seven required keys are present; cid is
      never looked at. */
  lemma ValidPart1Meaning(p: Passport)
    ensures ValidPart1(p) <==> forall k :: k in RequiredKeys ==> k in p
    ensures ValidPart1(p) <==> ValidPart1(p - {"cid"})
  {
    CheckKeysMeaning(p, 0, false);
    CheckKeysMeaning(p - {"cid"}, 0, false);
    assert forall j :: 0 <= j < |RequiredKeys| ==> RequiredKeys[j] != "cid";
  }

  /** Part 2 holds exactly when every required key is present with a valid
      value, so it implies part 1. */
  lemma ValidPart2Meaning(p: Passport)
    ensures ValidPart2(p) <==> forall k :: k in RequiredKeys ==> k in p && FieldValid(k, p[k])
    ensures ValidPart2(p) ==> ValidPart1(p)
  {
    CheckKeysMeaning(p, 0, true);
    CheckKeysMeaning(p, 0, false);
  }

  /** The positions of the passports that pass the check. */
  ghost function Passing(ps: seq<Passport>, checkValues: bool): set<nat> {
    set k | 0 <= k < |ps| && CheckKeys(ps[k], 0, checkValues)
  }

  /** The count `part1` / `part2` print: passports passing the check. */
  function CountValid(ps: seq<Passport>, checkValues: bool): (n: nat)
    ensures n <= |ps|
    ensures n == |Passing(ps, checkValues)|
  {
    if |ps| == 0 then 0
    else
      PassingSplit(ps, checkValues);
      (if CheckKeys(ps[0], 0, checkValues) then 1 else 0) + CountValid(ps[1..], checkValues)
  }

  /** The passing positions of a batch are its first passport's, if it
      passes, and those of the rest moved one place on. */
  lemma PassingSplit(ps: seq<Passport>, checkValues: bool)
    requires 0 < |ps|
    ensures |Passing(ps, checkValues)| ==
      (if CheckKeys(ps[0], 0, checkValues) then 1 else 0) + |Passing(ps[1..], checkValues)|
  {
    var rest := Passing(ps[1..], checkValues);
    var head: set<nat> := if CheckKeys(ps[0], 0, checkValues) then {0} else {};
    PassingShifted(ps, checkValues);
    ShiftIn(rest, 0);
    ShiftCard(rest);
    assert |head + Shift(rest)| == |head| + |Shift(rest)|;
  }

  lemma PassingShifted(ps: seq<Passport>, checkValues: bool)
    requires 0 < |ps|
    ensures Passing(ps, checkValues) ==
      (if CheckKeys(ps[0], 0, checkValues) then {0} else {}) + Shift(Passing(ps[1..], checkValues))
  {
    var all, rest := Passing(ps, checkValues), Passing(ps[1..], checkValues);
    var head: set<nat> := if CheckKeys(ps[0], 0, checkValues) then {0} else {};
    forall k: nat ensures k in all <==> k in head + Shift(rest) {
      ShiftIn(rest, k);
      if 0 < k && k < |ps| {
        assert ps[1..][k - 1] == ps[k];
      }
    }
    assert all == head + Shift(rest);
  }

  /** A set of positions moved one place on. */
  ghost function Shift(s: set<nat>): set<nat> {
    set k | k in s :: k + 1
  }

  lemma ShiftIn(s: set<nat>, y: nat)
    ensures y in Shift(s) <==> 0 < y && y - 1 in s
  {
    if 0 < y && y - 1 in s {
      assert (y - 1) + 1 == y;
    }
  }

  /** Moving a set of positions one place on keeps its size. */
  lemma {:induction false} ShiftCard(s: set<nat>)
    ensures |Shift(s)| == |s|
    decreases |s|
  {
    if s != {} {
      var x :| x in s;
      var smaller := s - {x};
      ShiftCard(smaller);
      forall y: nat ensures y in Shift(s) <==> y in Shift(smaller) + {x + 1} {
        ShiftIn(s, y);
        ShiftIn(smaller, y);
      }
      assert Shift(s) == Shift(smaller) + {x + 1};
      ShiftIn(smaller, x + 1);
    }
  }

  /** No more passports pass part 2 than part 1. */
  lemma {:induction false} CountValidPart2AtMostPart1(ps: seq<Passport>)
    ensures CountValid(ps, true) <= CountValid(ps, false)
  {
    if 0 < |ps| {
      ValidPart2Meaning(ps[0]);
      CountValidPart2AtMostPart1(ps[1..]);
    }
  }

  // ---------------------------------------------------------------------------
  // Reading the batch file
  // ---------------------------------------------------------------------------

  /** A "key:value" token: the text before the first ':' and the text between
      it and the next ':' (or the end). A token without ':' panics. */
  function ParseField(token: string): (r: Option<(string, string)>)
    ensures r.None? <==> ':' !in token
    ensures r.Some? ==> ':' !in r.value.0 && ':' !in r.value.1
  {
    var pieces := Text.Split(token, ':');
    if |pieces| < 2 then
      assert ':' !in token by {
        Text.JoinSplit(token, ':');
      }
      None
    else
      assert ':' in token by {
        Text.JoinSplit(token, ':');
        assert token == pieces[0] + [':'] + Text.Join(pieces[1..], ':');
        assert token[|pieces[0]|] == ':';
      }
      Some((pieces[0], pieces[1]))
  }

  /** A token that is "key:value" with no ':' in either part gives that pair. */
  lemma ParseFieldOf(key: string, value: string)
    requires ':' !in key && ':' !in value
    ensures ParseField(key + ":" + value) == Some((key, value))
  {
    Text.SplitPair(key, value, ':');
  }

  /** One token of the loop in `stdin_to_passports`: a blank token opens a
      new passport, a field token is inserted into the last one. */
  function AddToken(ps: seq<Passport>, token: string): (r: Result<seq<Passport>>)
    requires 0 < |ps|
    ensures r.Ok? ==> 0 < |r.value|
    ensures r.Err? <==> Text.Trim(token) != "" && ':' !in token
  {
    if Text.Trim(token) == "" then Ok(ps + [map[]])
    else
      match ParseField(token)
      case None => Err("field without ':'")
      case Some((key, value)) => Ok(ps[..|ps| - 1] + [ps[|ps| - 1][key := value]])
  }

  /** The tokens, folded one by one into the passports read so far. */
  function AddTokens(ps: seq<Passport>, tokens: seq<string>): (r: Result<seq<Passport>>)
    requires 0 < |ps|
    ensures r.Ok? ==> 0 < |r.value|
    decreases |tokens|
  {
    if |tokens| == 0 then Ok(ps)
    else
      var next :- AddToken(ps, tokens[0]);
      AddTokens(next, tokens[1..])
  }

  /** `stdin_to_passports` on the text read: tokens split on ' ' and '\n',
      starting from one empty passport. */
  function Passports(input: string): (r: Result<seq<Passport>>)
    ensures r.Ok? <==> FieldsHaveColons(Text.SplitAny(input, {' ', '\n'}))
    ensures r.Ok? ==> |r.value| == 1 + Text.BlankCount(Text.SplitAny(input, {' ', '\n'}))
    ensures r.Ok? ==> r.value == Records(Text.Groups(Text.SplitAny(input, {' ', '\n'})))
  {
    var tokens := Text.SplitAny(input, {' ', '\n'});
    AddTokensShape([map[]], tokens);
    ContinueEmpty(Text.Groups(tokens));
    AddTokens([map[]], tokens)
  }

  // ---------------------------------------------------------------------------
  // What each passport holds
  // ---------------------------------------------------------------------------

  /** The token is a field naming `key`. */
  predicate Names(token: string, key: string) {
    ParseField(token).Some? && ParseField(token).value.0 == key
  }

  /** The passport a run of field tokens describes: every key a token names,
      with the value of the last token naming it. */
  function Fields(tokens: seq<string>): Passport
  {
    if |tokens| == 0 then map[]
    else
      var later := Fields(tokens[1..]);
      match ParseField(tokens[0])
      case None => later
      case Some((key, value)) => if key in later then later else later[key := value]
  }

  /** One passport per run of tokens. */
  function Records(runs: seq<seq<string>>): (r: seq<Passport>)
    ensures |r| == |runs|
  {
    if |runs| == 0 then [] else [Fields(runs[0])] + Records(runs[1..])
  }

  /** The passports `ps` continued by runs of tokens: the first run's fields
      go into the last passport, each later run is a passport of its own. */
  function ContinueRecords(ps: seq<Passport>, runs: seq<seq<string>>): seq<Passport>
    requires 0 < |ps| && 0 < |runs|
  {
    ps[..|ps| - 1] + [ps[|ps| - 1] + Fields(runs[0])] + Records(runs[1..])
  }

  /** A key is in a run's passport exactly when some token of the run names it. */
  lemma {:induction false} FieldsKeys(tokens: seq<string>, key: string)
    ensures key in Fields(tokens) <==> exists j :: 0 <= j < |tokens| && Names(tokens[j], key)
  {
    if 0 < |tokens| {
      var rest := tokens[1..];
      FieldsKeys(rest, key);
      if exists j :: 0 <= j < |rest| && Names(rest[j], key) {
        var j :| 0 <= j < |rest| && Names(rest[j], key);
        assert Names(tokens[j + 1], key);
      }
      if exists j :: 0 <= j < |tokens| && Names(tokens[j], key) {
        var j :| 0 <= j < |tokens| && Names(tokens[j], key);
        if 0 < j {
          assert Names(rest[j - 1], key);
        }
      }
    }
  }

  /** The key of the run's last token naming it holds that token's value. */
  lemma {:induction false} FieldsLast(tokens: seq<string>, j: nat, key: string, value: string)
    requires j < |tokens| && ParseField(tokens[j]) == Some((key, value))
    requires forall k :: j < k < |tokens| ==> !Names(tokens[k], key)
    ensures key in Fields(tokens) && Fields(tokens)[key] == value
  {
    var rest := tokens[1..];
    if j == 0 {
      forall k | 0 <= k < |rest| ensures !Names(rest[k], key) {
        assert rest[k] == tokens[k + 1];
      }
      FieldsKeys(rest, key);
    } else {
      forall k | j - 1 < k < |rest| ensures !Names(rest[k], key) {
        assert rest[k] == tokens[k + 1];
      }
      FieldsLast(rest, j - 1, key, value);
    }
  }

  /** Adding a field to a passport and then a run's fields is adding the run
      with that field in front. */
  lemma UpdateThenMerge(m: Passport, later: Passport, key: string, value: string)
    ensures m[key := value] + later == m + (if key in later then later else later[key := value])
  {
  }

  lemma ContinueEmpty(runs: seq<seq<string>>)
    requires 0 < |runs|
    ensures ContinueRecords([map[]], runs) == Records(runs)
  {
    assert map[] + Fields(runs[0]) == Fields(runs[0]);
  }

  /** Reading tokens one by one cuts them at the blank tokens: the run
      before the first blank token fills the last passport, and the run
      after each blank token is a new passport. */
  lemma {:induction false} AddTokensRecords(ps: seq<Passport>, tokens: seq<string>)
    requires 0 < |ps|
    ensures AddTokens(ps, tokens).Ok? ==> AddTokens(ps, tokens).value == ContinueRecords(ps, Text.Groups(tokens))
    decreases |tokens|
  {
    var n := |ps|;
    if |tokens| == 0 {
      assert ps[n - 1] + map[] == ps[n - 1];
      assert ps[..n - 1] + [ps[n - 1]] == ps;
    } else if AddToken(ps, tokens[0]).Ok? {
      var token, rest := tokens[0], tokens[1..];
      var runs := Text.Groups(rest);
      assert tokens == [token] + rest;
      AddTokensRecords(AddToken(ps, token).value, rest);
      if Text.Blank(token) {
        Text.GroupsBlank(token, rest);
        RecordsBlank(ps, runs);
      } else {
        Text.GroupsCons(token, rest);
        RecordsCons(ps, token, runs);
      }
    }
  }

  lemma RecordsBlank(ps: seq<Passport>, runs: seq<seq<string>>)
    requires 0 < |ps| && 0 < |runs|
    ensures ContinueRecords(ps + [map[]], runs) == ContinueRecords(ps, [[]] + runs)
  {
    var n := |ps|;
    assert (ps + [map[]])[..n] == ps && map[] + Fields(runs[0]) == Fields(runs[0]);
    assert ps[n - 1] + Fields([]) == ps[n - 1] && ps[..n - 1] + [ps[n - 1]] == ps;
    assert ([[]] + runs)[1..] == runs && Records(runs) == [Fields(runs[0])] + Records(runs[1..]);
  }

  lemma RecordsCons(ps: seq<Passport>, token: string, runs: seq<seq<string>>)
    requires 0 < |ps| && 0 < |runs| && ParseField(token).Some?
    ensures var (key, value) := ParseField(token).value;
      ContinueRecords(ps[..|ps| - 1] + [ps[|ps| - 1][key := value]], runs) ==
      ContinueRecords(ps, [[token] + runs[0]] + runs[1..])
  {
    var n := |ps|;
    var (key, value) := ParseField(token).value;
    var next := ps[..n - 1] + [ps[n - 1][key := value]];
    assert next[..n - 1] == ps[..n - 1] && next[n - 1] == ps[n - 1][key := value];
    assert ([token] + runs[0])[1..] == runs[0];
    UpdateThenMerge(ps[n - 1], Fields(runs[0]), key, value);
  }

  /** Reading succeeds exactly when every non-blank token holds a ':'; the
      passports are then one more than the blank tokens, and the earlier
      passports are never touched again. */
  lemma {:induction false} AddTokensShape(ps: seq<Passport>, tokens: seq<string>)
    requires 0 < |ps|
    ensures AddTokens(ps, tokens).Ok? <==> FieldsHaveColons(tokens)
    ensures AddTokens(ps, tokens).Ok? ==>
      |AddTokens(ps, tokens).value| == |ps| + Text.BlankCount(tokens) &&
      AddTokens(ps, tokens).value[..|ps| - 1] == ps[..|ps| - 1]
    ensures AddTokens(ps, tokens).Ok? ==> AddTokens(ps, tokens).value == ContinueRecords(ps, Text.Groups(tokens))
    decreases |tokens|
  {
    AddTokensRecords(ps, tokens);
    if 0 < |tokens| {
      FieldsHaveColonsCons(tokens);
      var r := AddToken(ps, tokens[0]);
      if r.Ok? {
        AddTokenShape(ps, tokens[0]);
        AddTokensShape(r.value, tokens[1..]);
        if AddTokens(ps, tokens).Ok? {
          var out := AddTokens(ps, tokens).value;
          PrefixOfPrefix(out, r.value, ps);
        }
      }
    }
  }

  /** Every token that is not blank holds a ':'. */
  ghost predicate FieldsHaveColons(tokens: seq<string>) {
    forall i :: 0 <= i < |tokens| && !Text.Blank(tokens[i]) ==> ':' in tokens[i]
  }

  lemma FieldsHaveColonsCons(tokens: seq<string>)
    requires 0 < |tokens|
    ensures FieldsHaveColons(tokens) <==>
      (Text.Blank(tokens[0]) || ':' in tokens[0]) && FieldsHaveColons(tokens[1..])
  {
    assert forall i :: 1 <= i < |tokens| ==> tokens[i] == tokens[1..][i - 1];
  }

  /** One token adds a passport exactly when it is blank and touches only
      the last one: a blank token keeps every passport and opens an empty
      one after them; a field token sets its key in the last passport. */
  lemma AddTokenShape(ps: seq<Passport>, token: string)
    requires 0 < |ps| && AddToken(ps, token).Ok?
    ensures |AddToken(ps, token).value| == |ps| + (if Text.Blank(token) then 1 else 0)
    ensures AddToken(ps, token).value[..|ps| - 1] == ps[..|ps| - 1]
    ensures Text.Blank(token) ==> AddToken(ps, token).value[..|ps|] == ps && AddToken(ps, token).value[|ps|] == map[]
    ensures !Text.Blank(token) ==> (ParseField(token).Some? &&
      AddToken(ps, token).value[|ps| - 1] == ps[|ps| - 1][ParseField(token).value.0 := ParseField(token).value.1])
  {
  }

  lemma PrefixOfPrefix(out: seq<Passport>, mid: seq<Passport>, ps: seq<Passport>)
    requires 0 < |ps| <= |mid| <= |out|
    requires out[..|mid| - 1] == mid[..|mid| - 1] && mid[..|ps| - 1] == ps[..|ps| - 1]
    ensures out[..|ps| - 1] == ps[..|ps| - 1]
  {
    assert out[..|mid| - 1][..|ps| - 1] == out[..|ps| - 1];
  }

  /** A field token sets the key in the current (last) passport and leaves
      every other key of it alone: a repeated key overwrites. */
  lemma FieldTokenOverwrites(ps: seq<Passport>, key: string, value: string)
    requires 0 < |ps| && ':' !in key && ':' !in value
    requires !Text.Blank(key + ":" + value)
    ensures AddToken(ps, key + ":" + value).Ok?
    ensures var out := AddToken(ps, key + ":" + value).value;
      |out| == |ps| && out[..|ps| - 1] == ps[..|ps| - 1] &&
      out[|out| - 1] == ps[|ps| - 1][key := value]
  {
    ParseFieldOf(key, value);
  }

  // ---------------------------------------------------------------------------
  // The unit tests of the solver, as lemmas
  // ---------------------------------------------------------------------------

  lemma YearExamples()
    ensures ValidYear("2002", 1920, 2002)
    ensures !ValidYear("2003", 1920, 2002)
    ensures !ValidYear("1919", 1920, 2002)
    ensures !ValidYear("20020", 1920, 2002)
  {
    ValidYearDigits("2002", 1920, 2002);
    ValidYearDigits("2003", 1920, 2002);
    ValidYearDigits("1919", 1920, 2002);
    Text.DecimalFour("2002");
    Text.DecimalFour("2003");
    Text.DecimalFour("1919");
  }

  /** Stripping a unit that a run of digits cannot end with leaves the digits. */
  lemma UnitStrippedDigits(s: string, unit: string)
    requires 0 < |s| && Text.AllDigits(s)
    requires unit == "cm" || unit == "in"
    ensures Text.TrimEndMatches(s + unit, unit) == s
  {
    assert (s + unit)[..|s + unit| - |unit|] == s;
    var d := s[|s| - 1];
    assert Text.IsDigit(d);
    assert !Text.EndsWith(s, unit) by {
      if |unit| <= |s| {
        assert s[|s| - |unit|..][|unit| - 1] == d;
      }
    }
  }

  /** A run of digits followed by one unit is a valid height exactly when
      its value is in that unit's range. */
  lemma ValidHeightDigits(digits: string, unit: string)
    requires 0 < |digits| && Text.AllDigits(digits)
    requires unit == "cm" || unit == "in"
    ensures unit == "cm" ==> (ValidHeight(digits + unit) <==> 150 <= Text.DecimalValue(digits) <= 193)
    ensures unit == "in" ==> (ValidHeight(digits + unit) <==> 59 <= Text.DecimalValue(digits) <= 76)
  {
    UnitStrippedDigits(digits, unit);
    Text.ParseDigits(digits, Text.U32_MAX);
    UnitSuffix(digits, unit);
  }

  lemma UnitSuffix(digits: string, unit: string)
    requires unit == "cm" || unit == "in"
    ensures Text.EndsWith(digits + unit, unit)
    ensures unit == "in" ==> !Text.EndsWith(digits + unit, "cm")
  {
    assert (digits + unit)[|digits|..] == unit;
  }

  lemma HeightExampleInches()
    ensures ValidHeight("60in")
  {
    assert "60in" == "60" + "in";
    ValidHeightDigits("60", "in");
    Text.DecimalTwo("60");
  }

  lemma HeightExampleCentimetres()
    ensures ValidHeight("190cm")
  {
    assert "190cm" == "190" + "cm";
    ValidHeightDigits("190", "cm");
    Text.DecimalThree("190");
  }

  lemma HeightExamplesInvalid()
    ensures !ValidHeight("190in") && !ValidHeight("190")
  {
    assert "190in" == "190" + "in";
    UnitStrippedDigits("190", "in");
  }

  /** `trim_end_matches` removes every trailing unit, so a doubled unit is
      still accepted. */
  lemma DoubledUnitAccepted()
    ensures ValidHeight("150cmcm")
  {
    assert Text.EndsWith("150cmcm", "cm");
    DoubledUnitTrimmed();
    Parse150();
  }

  lemma DoubledUnitTrimmed()
    ensures Text.TrimEndMatches("150cmcm", "cm") == "150"
  {
    var s, once, digits := "150cmcm", "150cm", "150";
    assert s[5..] == "cm" && s[..5] == once;
    assert Text.TrimEndMatches(s, "cm") == Text.TrimEndMatches(once, "cm");
    assert once == digits + "cm";
    assert Text.IsDigit(digits[0]) && Text.IsDigit(digits[1]) && Text.IsDigit(digits[2]);
    UnitStrippedDigits(digits, "cm");
  }

  lemma Parse150()
    ensures Text.ParseUnsigned("150", Text.U32_MAX) == Some(150)
  {
    Text.DecimalThree("150");
  }

  lemma HairColorExamples()
    ensures ValidHairColor("#123abc")
    ensures !ValidHairColor("#123abz") && !ValidHairColor("123abc")
  {
    assert !IsHexDigit("#123abz"[6]);
  }

  lemma EyeColorExamples()
    ensures ValidEyeColor("brn") && !ValidEyeColor("wat")
  {
  }

  lemma PassportIdExamples()
    ensures ValidPassportId("000000001") && !ValidPassportId("0123456789")
  {
  }
}
