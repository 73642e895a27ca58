# Advent of Code 2020, days 1 to 15, in Dafny

This project models the solvers of the `aoc2020` Rust repository, days 1 to 15. Each `dayN.rs` file reads its puzzle input, computes an answer and prints it. Here each day is one Dafny module (`Day1` … `Day15`, files `day01.dfy` … `day15.dfy`) and models the computation on already-read input. The contracts and lemmas state what each solver computes.

- **Day 1** searches a report for the first pair, and the first triple, of entries that sum to 2020.
- **Day 2** parses password policies of the form `a-b c: password`. It checks the count policy and the positions policy.
- **Day 3** counts the trees hit on a slope through a map whose rows repeat to the right. It marks a working copy as it goes.
- **Day 4** groups passport tokens into records and checks the required fields. It also has the validators for years, heights, hair colour, eye colour and passport ids.
- **Day 5** decodes boarding passes by binary partition and finds the missing seat.
- **Day 6** collects the questions answered by anyone in a group, and those answered by everyone.
- **Day 7** parses bag rules and finds every bag that may hold a shiny gold one. It also counts the bags a shiny gold one holds.
- **Day 8** is a three-operation machine (`acc`, `jmp`, `nop`) with loop detection. It searches for the one `nop`/`jmp` swap that lets the program end normally.
- **Day 9** finds the first number that is not the sum of two numbers in its 25-number window. It then finds a contiguous run that sums to that number.
- **Day 10** builds the adapter chain and its histogram of jolt differences. It counts arrangements by enumerating the deletions allowed in each segment.
- **Day 11** is the seat automaton. It has two neighbour rules: adjacent seats, and the first seat visible along each of the eight rays.
- **Day 12** navigates a ship by heading, and then by a waypoint that rotates around it.
- **Day 13** finds the next bus departure. It also searches for the earliest time at which every bus leaves at its offset.
- **Day 14** writes memory through bit masks. Part 1 overrides value bits; part 2 expands the floating address bits.
- **Day 15** is the memory game, kept as the turns plus a map of last positions and a map of spoken counts.

Shared modules:

- `Wrappers` holds `Option` and `Result`.
- `Text` models the Rust string operations the solvers use: `parse`, `split`, `splitn`, `trim`, `trim_end_matches`, `replace`, `find` and `contains`.
- `SeqUtil` holds sorting and counting.
- `MapSum` holds the sum of a map's values.
- `Bits` holds bits of unbounded naturals.

A panic in the source becomes an `Err` on exactly the inputs that trigger it. Examples are a failed `unwrap`, an `assert_eq!`, an out-of-range index and an unsupported code.

Some source loops have no bound the code itself guarantees. These are modelled with a `fuel` budget, and a lemma states when enough fuel suffices:

- Day 7's recursive count;
- Day 11's repeat-until-stable loop;
- Day 13's alignment search.

Integers are unbounded; see "Left out" for the widths.

## Model

| member | source | states |
|---|---|---|
| Day1.FindPair | src/day1.rs:5-16 | the pair found is two positions i < j whose entries sum to 2020, and it is the lexicographically first such pair; no pair is reported exactly when no two entries sum to 2020 |
| Day1.FindTriple | src/day1.rs:22-37 | the triple found is i < j < k with entries summing to 2020, lexicographically first; none exactly when no such triple exists |
| Day1.Part1 | src/day1.rs:3-17 | an answer exists exactly when some pair sums to 2020, and it is the product of the entries at the first such pair in the loops' order |
| Day1.Part2 | src/day1.rs:19-38 | an answer exists exactly when some triple sums to 2020, and it is the product of the entries at the first such triple in the loops' order |
| Day1.ExamplePair | src/day1.rs:5-16 | on the report 1721, 979, 366, 299, 675, 1456 the search stops at positions 0 and 3 |
| Day2.Position | src/day2.rs:18 | `chars().position`: the index found holds the character and no earlier index does; nothing is found exactly when the character does not occur |
| Day2.Parse | src/day2.rs:15-41 | a line that parses has a '-' and a later ' '; the text before the '-' and the text between them parse as `usize` to the two numbers, and the rest is the letter, ": " and the password |
| Day2.ParseLow | src/day2.rs:18-22 | once the '-' is known: a parse needs a space and gives numbers that fit in `usize` |
| Day2.ParseHigh | src/day2.rs:22-39 | once both separators are known, the entry keeps the first number and the second fits in `usize` |
| Day2.ParseTail | src/day2.rs:27-32 | the text after the space parses exactly when it has at least three characters with ':' and ' ' at positions 1 and 2, and it is then the letter, ": ", and the password |
| Day2.ParseFormat | src/day2.rs:15-41 | round trip: the line "low-high letter: password" written for any entry whose numbers fit in `usize` parses back to that entry |
| Day2.ParseLine | src/day2.rs:15-41 | any line made of two digit runs that parse as the policy numbers, then the letter and the password, parses to that entry |
| Day2.ParseFields | src/day2.rs:15-41 | the converse: a line whose first '-' and first ' ' cut it into two numbers, a letter, ": " and a password parses to exactly that entry |
| Day2.FormatFields | src/day2.rs:18-32 | a formatted line has its first '-' after the first number and its first ' ' after the second, and the fields between them spell the entry |
| Day2.FormatPositions | src/day2.rs:18-22 | in "a-b t" with digit runs a and b, the first '-' is at |a| and the first ' ' at |a|+1+|b| |
| Day2.ParseTailFormat | src/day2.rs:27-32 | the text "letter: password" parses back to the letter and the password |
| Day2.Valid1 | src/day2.rs:53-62 | the old policy holds exactly when the letter's number of occurrences lies between the two numbers |
| Day2.Valid2 | src/day2.rs:80-86 | the new policy can be evaluated exactly when both 1-based positions lie inside the password (the indexing panics otherwise) |
| Day2.Valid2ExactlyOne | src/day2.rs:80-86 | with both positions inside the password, the new policy holds exactly when one and only one of them holds the letter |
| Day2.CountValid | src/day2.rs:64-78 | the count fails exactly when some entry's check panics; otherwise it is the number of entries satisfying the policy, at most the number of entries |
| Day2.ExampleFirstLine | src/day2.rs:15-41 | "1-3 a: abcde" parses to (1, 3, 'a', "abcde") |
| Day2.ExampleOldPolicyValid | src/day2.rs:53-62 | (1, 3, 'a', "abcde") satisfies the old policy |
| Day2.ExampleOldPolicyInvalid | src/day2.rs:53-62 | (1, 3, 'b', "cdefg") does not satisfy the old policy |
| Day2.ExamplesNewPolicy | src/day2.rs:80-86 | (1, 3, 'a', "abcde") satisfies the new policy and (2, 9, 'c', "ccccccccc") does not |
| Day3.Mark | src/day3.rs:67-72 | a visited cell is marked 'X' exactly when it holds a tree, and 'O' otherwise |
| Day3.VisitsClosedForm | src/day3.rs:54-76 | the visits starting at row `down` that land inside n rows number (n - 1) / down |
| Day3.TreesAtMostVisits | src/day3.rs:59-76 | every visit meets at most one tree, so the tree count never exceeds the number of visits |
| Day3.CountTrees | src/day3.rs:47-86 | the count is the number of trees at rows k*down, columns k*right (the row repeated to the right), at most the number of visits; the working copy keeps every row not landed on and marks exactly the visited cell of every row landed on |
| Day3.Repeat | src/day3.rs:62-65 | extending a row by whole copies of itself gives a row long enough to hold the column whose every cell j is the template's cell j mod width |
| Day3.MarkStep | src/day3.rs:59-76 | replacing the landed row by its marked copy moves the working-copy invariant one visit on |
| Day3.VisitStep | src/day3.rs:60-72 | the cell read from the repeated row is the template's cell at the visited column |
| Day3.Trees | src/day3.rs:88-91 | the tree count of one slope is the number of trees met along it |
| Day3.TreeProduct | src/day3.rs:93-104 | part 2 is the product of the tree counts of the slopes (1,1), (3,1), (5,1), (7,1) and (1,2) |
| Day3.NextVisit | src/day3.rs:60-72 | the visit at step k counts its cell's tree and moves down and right to step k + 1 |
| Day3.FinalCopy | src/day3.rs:47-86 | once the visits pass the last row, rows not landed on are unchanged and every landed row has its visited cell marked |
| Day4.ValidYear | src/day4.rs:38-48 | a year is valid only if it has four characters and parses as a `u32` inside [min, max] |
| Day4.ValidYearDigits | src/day4.rs:38-48 | for the year ranges used, a year is valid exactly when it is four decimal digits whose value lies in the range (a leading '+', which `parse` accepts, leaves a value below 1000) |
| Day4.ValidHeightOf | src/day4.rs:50-66 | a number followed by "cm" is valid exactly when it is in [150, 193], and followed by "in" exactly when it is in [59, 76] |
| Day4.ValidHeightDigits | src/day4.rs:50-66 | a run of digits followed by one unit is valid exactly when its value lies in that unit's range |
| Day4.UnitStripped | src/day4.rs:52-58 | `trim_end_matches` of the unit gives back the number's digits, which parse as the number exactly when it fits in a `u32` |
| Day4.UnitStrippedDigits | src/day4.rs:52-58 | stripping a unit from "digits + unit" leaves the digits, since digits never end with a unit |
| Day4.ValidHairColor | src/day4.rs:68-80 | a hair colour is valid exactly when it has seven characters, the first is '#', and the other six are hex digits |
| Day4.ValidEyeColor | src/day4.rs:82-85 | an eye colour is valid exactly when it is one of amb, blu, brn, gry, grn, hzl, oth |
| Day4.ValidPassportId | src/day4.rs:87-93 | a passport id is valid exactly when it has nine characters, all decimal digits |
| Day4.HeightWithUnit | src/day4.rs:50-66 | a value of digits followed by "cm" is a valid height exactly when the number is in [150, 193], and followed by "in" exactly when it is in [59, 76] |
| Day4.FieldValid | src/day4.rs:101-112 | per required key: a year key is valid exactly when the value is four digits in its range, "hgt" as above, "hcl" a '#' and six hex digits, "ecl" one of the seven colours, "pid" nine digits |
| Day4.CheckKeysMeaning | src/day4.rs:28-36 | the loop over required keys from position i succeeds exactly when every later key is present (and, when values are checked, holds a valid value) |
| Day4.ValidPart1Meaning | src/day4.rs:28-36 | part 1 holds exactly when the seven required keys are present, and "cid" never affects it |
| Day4.ValidPart2Meaning | src/day4.rs:95-120 | part 2 holds exactly when every required key is present with a value valid for that key, so part 2 implies part 1 |
| Day4.CountValid | src/day4.rs:187-203 | the count part 1 and part 2 print is the number of positions whose passport passes the check (`Passing`), so at most the number of passports |
| Day4.CountValidPart2AtMostPart1 | src/day4.rs:187-203 | no more passports pass part 2 than part 1 |
| Day4.ParseField | src/day4.rs:175-177 | a token fails to split exactly when it holds no ':'; otherwise the key and the value contain no ':' |
| Day4.ParseFieldOf | src/day4.rs:175-177 | "key:value" with no ':' in either part splits back into key and value |
| Day4.AddToken | src/day4.rs:169-181 | a token fails exactly when it is not blank and holds no ':' (the `unwrap` panics) |
| Day4.AddTokensShape | src/day4.rs:163-185 | reading succeeds exactly when every non-blank token holds a ':'; the current passport is then extended by the fields of the tokens up to the first blank one, and one new passport follows per blank-separated run, holding that run's fields (`ContinueRecords`) |
| Day4.AddTokenShape | src/day4.rs:169-181 | a blank token keeps every passport and opens an empty one; any other token holds a key and value and inserts them into the last passport only, leaving the earlier ones alone |
| Day4.Passports | src/day4.rs:163-185 | reading the text succeeds exactly when every non-blank token holds a ':'; the passports are then one per blank-separated run of tokens, in order, each holding its run's fields (`Records` of `Text.Groups`) |
| Day4.AddTokensRecords | src/day4.rs:169-181 | the token loop, started from any passports, gives the runs' fields appended as `ContinueRecords` describes |
| Day4.FieldsKeys | src/day4.rs:175-180 | a passport built from a run holds a key exactly when some token of the run names that key |
| Day4.FieldsLast | src/day4.rs:175-180 | the value a passport holds for a key is the one of the last token in the run naming that key, since `insert` overwrites |
| Day4.FieldTokenOverwrites | src/day4.rs:175-180 | a field token sets its key in the current passport, overwriting an earlier value for that key, and leaves the earlier passports alone |
| Day4.YearExamples | src/day4.rs:123-130 | "2002" is a valid birth year; "2003", "1919" and "20020" are not |
| Day4.HeightExampleInches | src/day4.rs:132-139 | "60in" is a valid height |
| Day4.HeightExampleCentimetres | src/day4.rs:132-139 | "190cm" is a valid height |
| Day4.HeightExamplesInvalid | src/day4.rs:132-139 | "190in" and "190" are not valid heights |
| Day4.DoubledUnitAccepted | src/day4.rs:50-56 | "150cmcm" is accepted, because `trim_end_matches` strips every trailing "cm" |
| Day4.HairColorExamples | src/day4.rs:141-147 | "#123abc" is a valid hair colour; "#123abz" and "123abc" are not |
| Day4.EyeColorExamples | src/day4.rs:149-154 | "brn" is a valid eye colour and "wat" is not |
| Day4.PassportIdExamples | src/day4.rs:156-161 | "000000001" is a valid passport id and "0123456789" is not |
| Day5.Partition | src/day5.rs:29-37 | each half lies inside the range it halves and, while the range holds two or more values, is not empty |
| Day5.PartitionSplits | src/day5.rs:29-37 | the lower half starts where the range starts, the upper half ends where it ends, they are adjacent, every value of the range is in exactly one half, and the lower half is larger by at most one |
| Day5.HalvePowerOfTwo | src/day5.rs:29-37 | halving a range of 2^m values keeps the first or the last 2^(m-1) of them |
| Day5.Step | src/day5.rs:45-52 | a letter fails only when it is not F, B, L or R, or when the range it splits is already empty (the `u8` subtraction underflows); F and B leave the columns alone and L and R the rows |
| Day5.ParseSeat | src/day5.rs:39-60 | a seat is returned only when reading the code from the full plan collapses both ranges to exactly that row and column |
| Day5.SeatId | src/day5.rs:62-64 | for a column inside the plan, the row and the column can be read back from the id |
| Day5.DecodeSound | src/day5.rs:45-53 | reading succeeds only on codes made of F, B, L and R, and keeps both ranges inside the seat plan |
| Day5.ParsedSeatInPlan | src/day5.rs:39-64 | a decoded seat lies in the 128 x 8 plan, so its id is below 1024, and its code uses only F, B, L and R |
| Day5.DecodeAppend | src/day5.rs:45-53 | reading two pieces of a code is reading the first, then the second from where the first left off |
| Day5.BinValueAppend | src/day5.rs:45-53 | the binary value of two joined pieces is the first's value shifted by the second's length plus the second's value |
| Day5.DecodeRows | src/day5.rs:47-48 | n row letters narrow a row range of 2^n values to the single row their binary value names, and leave the columns alone |
| Day5.DecodeCols | src/day5.rs:49-50 | n column letters narrow a column range of 2^n values to the single column their binary value names |
| Day5.WellFormedDecodes | src/day5.rs:39-60 | a code of seven row letters and three column letters names the row and column its two parts spell in binary |
| Day5.SeatIdIsBinary | src/day5.rs:39-64 | the seat id of a well-formed code is the whole code read as a ten-bit binary number |
| Day5.EmptyCodeRejected | src/day5.rs:55-59 | the empty code (after a trailing newline) leaves the ranges unsplit and panics |
| Day5.SeatOfParts | src/day5.rs:39-60 | a well-formed code whose parts spell `row` and `col` gives that seat |
| Day5.ExampleFirst | src/day5.rs:67-83 | "BFFFBBFRRR" is row 70, column 7, id 567 |
| Day5.ExampleSecond | src/day5.rs:67-83 | "FFFBBBFRRR" is row 14, column 7, id 119 |
| Day5.ExampleThird | src/day5.rs:67-83 | "BBFFBBFRLL" is row 102, column 4, id 820 |
| Day5.ParseAll | src/day5.rs:85-96 | reading fails exactly when some line's code fails, and otherwise gives one seat per line, each the seat of its line |
| Day5.BoardingPasses | src/day5.rs:85-96 | reading fails exactly when some line's code fails, and otherwise gives one seat per line, each the seat of its line |
| Day5.HighestSeatId | src/day5.rs:98-112 | the result is at least every seat's id, and it is 0 or the id of some seat |
| Day5.InnerSeatIds | src/day5.rs:117-125 | the ids kept are exactly the ids of seats outside the first and last row |
| Day5.GapsFrom | src/day5.rs:129-133 | the scan reports exactly the ids lying in a gap of two between consecutive sorted ids |
| Day5.FoundSeats | src/day5.rs:114-134 | part 2 fails exactly when no seat is kept, since `len() - 1` underflows |
| Day5.FoundSeatsMeaning | src/day5.rs:114-134 | an id is reported exactly when it is missing from the kept ids while both its neighbours are present |
| Day5.GapMeaning | src/day5.rs:127-133 | in an ascending list, the gaps sit exactly around the missing values whose two neighbours are present |
| Day5.GapMissing | src/day5.rs:127-133 | the value inside a gap is absent while both its neighbours are present |
| Day5.GapAround | src/day5.rs:127-133 | an absent value whose two neighbours are present sits inside a gap |
| Day6.UniqueQuestionsSpec | src/day6.rs:29-41 | the unique questions list every letter anyone in the group answered, each once, in the order of first appearance, so part 1 counts the distinct letters |
| Day6.UniqueFromOrder | src/day6.rs:32-38 | the outer loop over passengers keeps the result in first-seen order over everything read so far |
| Day6.AddNewOrder | src/day6.rs:33-37 | the inner loop over one passenger's letters keeps the result in first-seen order |
| Day6.AddOne | src/day6.rs:34-36 | pushing a letter only when it is not yet present keeps the result in first-seen order |
| Day6.DistinctCount | src/day6.rs:29-41 | a result without repeated letters has as many characters as distinct letters |
| Day6.InAllFrom | src/day6.rs:59-67 | the inner loop over passengers i.. keeps a letter exactly when every one of them has it |
| Day6.CommonQuestionsSpec | src/day6.rs:43-75 | the common questions hold a letter exactly when the group is not empty and everyone has it, each as often as the first passenger wrote it |
| Day6.KeepCommonCount | src/day6.rs:56-72 | filtering the first passenger's letters keeps each letter everyone else has, as often as it occurs there, and drops the others |
| Day6.SingleShortcut | src/day6.rs:52-54 | the shortcut for a group of one gives what the general filter would |
| Day6.AddLinesShape | src/day6.rs:78-96 | grouping adds one group per blank line and places every non-blank line, in order, as a passenger; the lines up to the first blank one extend the last group and each later blank-separated run becomes its own group (`Continue` of `Text.Groups`) |
| Day6.AddLineShape | src/day6.rs:84-92 | a blank line keeps every group and opens an empty one; any other line keeps the earlier groups and is appended to the last group as its newest passenger |
| Day6.PassengerGroups | src/day6.rs:78-96 | the groups are exactly the blank-separated runs of lines (`Text.Groups`): one group more than there are blank lines, each holding its run's lines in order |
| Day6.AddLinesGroups | src/day6.rs:84-93 | the line loop, started from any groups, extends the last group by the first run and appends one group per later run |
| Day6.TotalUniqueCounts | src/day6.rs:98-107 | part 1 sums, over the groups, the number of distinct letters anyone in the group wrote |
| Day6.TotalCommonCounts | src/day6.rs:109-118 | when no passenger writes a letter twice, part 2 sums, over the groups, the number of letters every passenger wrote |
| Day6.CommonCount | src/day6.rs:43-75 | when the first passenger writes no letter twice, the common questions have as many letters as everyone in the group wrote |
| Day6.CommonAtMostUnique | src/day6.rs:98-118 | when no passenger writes a letter twice, part 2 never exceeds part 1 |
| Day7.Copies | src/day7.rs:50-53 | n pushes of an empty bag of type t give exactly n such bags |
| Day7.ParseItem | src/day7.rs:27-54 | a blank item adds nothing; every bag an item adds has a non-empty type and no contents |
| Day7.TypeNotEmpty | src/day7.rs:44-48 | after the first space of a trimmed item, the rest is not empty |
| Day7.ParseItems | src/day7.rs:27-54 | every content bag the items add has a non-empty type and no contents of its own |
| Day7.Parse | src/day7.rs:16-70 | a parsed rule's content bags have no contents of their own |
| Day7.FromPieces | src/day7.rs:24-54 | the pieces give a bag exactly when the items after the first piece parse; the type is the trimmed first piece and the contents are the items' bags |
| Day7.ItemCopies | src/day7.rs:28-53 | an item "n T", n > 0 and padded with whitespace, adds exactly n empty bags of type T |
| Day7.ItemCopiesDigits | src/day7.rs:28-53 | an item made of digits that parse to n > 0, a space and a type adds exactly n bags of that type |
| Day7.ItemOfCore | src/day7.rs:33-48 | `splitn(2, ' ')` cuts "digits T" into the digits and T |
| Day7.ItemZero | src/day7.rs:40-42 | an item whose trimmed text is "0" adds nothing |
| Day7.CleanTypeChars | src/day7.rs:17-25 | a bag type as rules write it holds no ',' or '.' and has no whitespace at either end |
| Day7.RuleType | src/day7.rs:16-55 | "T bags contain rest" parses to type T with the items of the normalized rest, and fails exactly when they fail |
| Day7.NormalizeSplit | src/day7.rs:17-24 | the normalized rule is the type, two spaces, the first comma, then the normalized rest |
| Day7.FromPiecesSplit | src/day7.rs:24-54 | a first piece that trims to t followed by item pieces gives the bag of type t with those items |
| Day7.NormalizeRule | src/day7.rs:17-22 | the five replacements leave the type untouched and turn " bags contain " into "  , " |
| Day7.StepBags | src/day7.rs:18 | `replace("bags", "")` drops the "bags" after the type and passes the type through |
| Day7.StepBag | src/day7.rs:19 | `replace("bag", "")` passes the type and " contain " through |
| Day7.StepContain | src/day7.rs:20 | `replace("contain", ",")` turns the keyword into a comma and passes the type through |
| Day7.StepNoOther | src/day7.rs:21 | `replace("no other", "0")` passes the type and the comma through |
| Day7.StepDot | src/day7.rs:22 | `replace(".", "")` passes the type and the comma through |
| Day7.RuleWithoutContents | src/day7.rs:16-55 | "T bags contain no other bags." parses to a bag of type T with no contents |
| Day7.ZeroItems | src/day7.rs:27-42 | the only item of such a rule, " 0 ", adds nothing |
| Day7.NoOtherNormalizes | src/day7.rs:17-22 | "no other bags." normalizes to "0 " |
| Day7.NoOtherBags | src/day7.rs:18 | the first replacement turns "no other bags." into "no other ." |
| Day7.NoOtherKept | src/day7.rs:19-20 | the second and third replacements leave "no other ." unchanged |
| Day7.NoOtherZero | src/day7.rs:21 | "no other ." becomes "0 ." |
| Day7.DotDropped | src/day7.rs:22 | "0 ." becomes "0 " |
| Day7.FindParents | src/day7.rs:73-88 | the search only appends bags of the rule list to the bags already found, and never adds a bag twice |
| Day7.ParentsFrom | src/day7.rs:74-87 | the `for_each` from position i only appends rule bags, never one already present |
| Day7.UnfoundShrinks | src/day7.rs:82-87 | adding a bag not yet found shrinks the rule bags still to be found, so the recursion ends |
| Day7.UnfoundPrefix | src/day7.rs:82-87 | a longer found list never leaves more rule bags to be found |
| Day7.ChainExtend | src/day7.rs:83-85 | a chain to the type of a bag that holds t, followed by that bag, is a chain to t |
| Day7.HolderFound | src/day7.rs:75-81 | in a result that holds every direct holder, each rule bag holding t is found |
| Day7.ParentsSound | src/day7.rs:73-88 | every bag the search adds may hold the searched type, directly or through other bags |
| Day7.ParentsFromSound | src/day7.rs:74-87 | every bag the `for_each` from position i adds may hold the searched type |
| Day7.DeeperSound | src/day7.rs:82-86 | a bag that holds t, and every bag the recursive search from its type adds, may hold t |
| Day7.ParentsComplete | src/day7.rs:73-88 | the search leaves out no bag holding the searched type, and no bag holding the type of a bag it added |
| Day7.ParentsFromComplete | src/day7.rs:74-87 | the `for_each` from position i leaves out no later holder of t and no holder of an added bag's type |
| Day7.AddedStep | src/day7.rs:82-86 | adding a holder and searching from its type keeps the result complete |
| Day7.ChainFound | src/day7.rs:73-88 | in a complete result, every bag of a chain that leads to t has been found |
| Day7.ParentsExact | src/day7.rs:73-88 | from an empty start, the search finds exactly the bags that may hold t, each once |
| Day7.Part1 | src/day7.rs:106-114 | part 1 is the number of distinct bags that may hold "shiny gold" |
| Day7.ContainedHeld | src/day7.rs:75-81 | a bag holds the type of each bag it contains |
| Day7.TypeOccurs | src/day7.rs:76-80 | each content bag's type occurs in the concatenated content types at its own offset |
| Day7.ContainedMoreFuel | src/day7.rs:90-104 | once a count is reached, more recursion budget gives the same count |
| Day7.RulesMoreFuel | src/day7.rs:91-103 | the same for the loop over rules |
| Day7.InsideMoreFuel | src/day7.rs:96-102 | the same for the loop over one rule's contents |
| Day7.ContainedDefined | src/day7.rs:90-104 | when some rank strictly decreases from every rule's type to its content types (no cycle), a budget above the rank reaches the count |
| Day7.RulesDefined | src/day7.rs:91-103 | without cycles, the loop over rules reaches its count |
| Day7.InsideDefined | src/day7.rs:96-102 | without cycles, the loop over one rule's contents reaches its count |
| Day7.SelfContainedUndefined | src/day7.rs:90-104 | a rule of type t that contains a bag of type t makes the recursion endless: no budget reaches a count |
| Day7.InsideNone | src/day7.rs:96-102 | one endless content bag makes the loop over the contents endless |
| Day7.RulesNone | src/day7.rs:91-103 | one endless rule of type t makes the loop over rules endless |
| Day7.ExampleCount | src/day7.rs:116-124 | "shiny gold" holding two "dark red", each holding two "dark blue", contains 2 + 2 * 2 = 6 bags |
| Day7.ContainedCounts | src/day7.rs:90-104 | without cycles and with a budget above the rank, the count is the number of bags inside the type, counted by recursion on the rank with each held bag counted once plus the bags inside it |
| Day7.RulesCount | src/day7.rs:91-103 | the same for the loop over rules from position i |
| Day7.InsideCount | src/day7.rs:96-102 | the loop over one rule's contents from j, plus the bags from j themselves, is the reference count of those bags |
| Day8.ParseOperation | src/day8.rs:19-26 | exactly "acc", "jmp" and "nop" are accepted, each as the operation of that name; anything else is the panic |
| Day8.ParseOpName | src/day8.rs:19-26 | each operation's name parses back to it |
| Day8.ParseInstruction | src/day8.rs:35-41 | an accepted line has exactly two space-separated items: the operation's name and an `i32` argument |
| Day8.ParseFormat | src/day8.rs:35-41 | a formatted instruction with an `i32` argument parses back to itself |
| Day8.ThreeItemsRejected | src/day8.rs:36-37 | a line with three items fails the `assert_eq!` |
| Day8.New | src/day8.rs:59-66 | a new program holds the instructions, a zero accumulator, index 0 and no history |
| Day8.Reset | src/day8.rs:104-108 | reset gives the new program of the same instructions |
| Day8.Step | src/day8.rs:79-87 | `acc` adds the argument and moves on, `jmp` moves by the argument, `nop` moves on |
| Day8.Exec | src/day8.rs:68-93 | one instruction runs exactly when the index is in range; it records the index and makes one step, keeping the instructions |
| Day8.RunFrom | src/day8.rs:113-115 | the loop keeps the instructions and the history's prefix, and ends at a detected loop or a normal termination |
| Day8.Run | src/day8.rs:110-116 | run ends at a detected loop or a normal termination after at most one execution per instruction, and executes no index twice |
| Day8.RunForgets | src/day8.rs:104-116 | a run depends only on the instructions, not on the state it starts from |
| Day8.RunFromOnTrace | src/day8.rs:110-116 | the loop follows the step semantics from the start; its panic means the trace reached a negative index |
| Day8.RunStops | src/day8.rs:95-116 | run stops where the trace first revisits an index or leaves the program past its end, and the trace repeats no index; its panic is a negative index on the trace |
| Day8.Part1 | src/day8.rs:119-126 | part 1 is the accumulator of the trace at the step where run stops |
| Day8.Flip | src/day8.rs:134-138 | `nop` and `jmp` are tried as each other, `acc` is not tried |
| Day8.FlipTwice | src/day8.rs:134-138 | flipping a flipped operation gives it back |
| Day8.Patch | src/day8.rs:141-142 | the patched instructions change the operation at i only |
| Day8.TryPatch | src/day8.rs:131-145 | an `acc` is not tried; a `jmp` is run as a `nop` and a `nop` as a `jmp`, on a new program of the patched instructions |
| Day8.Repair | src/day8.rs:128-158 | the search reports the first position whose patched run terminates normally, with its accumulator, when no earlier patched run panics; it reports nothing exactly when no patched run terminates normally or panics; RepairPanics gives the panic case |
| Day8.RepairPanics | src/day8.rs:128-158 | the search panics exactly when some patched run panics before any patch fixes the program (`PanicsFirst`), and then with that run's panic |
| Day8.PatchOnlyFlips | src/day8.rs:131-145 | a fixing patch changes one `nop` or `jmp` into the other and leaves every other instruction alone |
| Day9.HasPair | src/day9.rs:6-19 | the window test succeeds exactly when two numbers at distinct positions of the window sum to the number |
| Day9.FindFirstInvalid | src/day9.rs:3-27 | the result is the number at the first position from the preamble on that is not a sum of its window; nothing exactly when every such position is valid |
| Day9.RunMin | src/day9.rs:45-55 | the running minimum is a number of the run and no number of the run is below it |
| Day9.RunMax | src/day9.rs:46-56 | the running maximum is a number of the run and no number of the run is above it |
| Day9.RunFrom | src/day9.rs:44-65 | a weakness found from i is min + max of the run from i at which the growing sum first reaches the target, at least two long; nothing found means no run from i stops at the target, and, with no negative number, no run from i sums to it |
| Day9.FindWeakness | src/day9.rs:43-66 | a weakness found is min + max of the summing run from the smallest start that has one, stopping where the sum first reaches the target; nothing found exactly when no start has such a run; with no negative number, any summing run means a weakness is found |
| Day9.SumsOvershoot | src/day9.rs:62-64 | with no negative number, once a run from i overshoots the target every longer run does, so the `break` loses nothing |
| Day9.SumGrows | src/day9.rs:48-50 | with no negative number, extending a run never lowers its sum |
| Day9.Part2 | src/day9.rs:38-68 | part 2 is min + max of the run from the smallest start whose growing sum stops at the first invalid number; nothing is printed exactly when no run stops on the first invalid number (or there is none); with no negative number, a weakness is found whenever a run sums to it |
| Day10.SortedJolts | src/day10.rs:10-22 | the chain exists exactly when there is an adapter; it is the outlet 0, the adapters sorted (a permutation of the input), and the device 3 above the largest adapter |
| Day10.ChainSorted | src/day10.rs:13-19 | with no negative adapter the whole chain, outlet and device included, is ascending |
| Day10.SortKeepsNonNegative | src/day10.rs:13 | sorting keeps every adapter non-negative |
| Day10.HistogramCounts | src/day10.rs:26-33 | the histogram's keys are exactly the differences met, and each value is how many neighbour pairs differ by that key |
| Day10.HistogramTotal | src/day10.rs:28-33 | the histogram's values add up to the number of neighbour pairs |
| Day10.DiffCountPositive | src/day10.rs:28-33 | a pair that differs by d makes the count of d positive |
| Day10.Part1 | src/day10.rs:24-38 | part 1 is the number of 1-jolt differences times the number of 3-jolt differences; it panics on no adapter or when either difference never occurs |
| Day10.ThreeJoltGapAlwaysPresent | src/day10.rs:16-36 | the device makes a 3-jolt difference always occur, so part 1 panics exactly when no 1-jolt difference occurs |
| Day10.Remove | src/day10.rs:53-54 | `remove(i)` shifts everything after i one place left and keeps everything before it |
| Day10.DerivedTransitive | src/day10.rs:51-63 | an arrangement of an arrangement of a segment is an arrangement of the segment |
| Day10.DerivedStep | src/day10.rs:52-59 | removing a removable adapter from an arrangement gives an arrangement |
| Day10.DerivedShorter | src/day10.rs:51-63 | an arrangement is never longer than its segment, and shorter when it differs |
| Day10.RemoveKeeps | src/day10.rs:51-54 | one removal keeps both ends, keeps neighbours within 3 jolts and drops exactly the removed adapter |
| Day10.DerivedKeeps | src/day10.rs:46-64 | every arrangement keeps the first and last adapter, keeps neighbours within 3 jolts and only drops adapters |
| Day10.FindArrangements | src/day10.rs:46-64 | a call only adds to the store; on an empty store the segment itself is stored first |
| Day10.ScanFrom | src/day10.rs:51-63 | the scan from position i only adds to the store |
| Day10.FindAdds | src/day10.rs:46-64 | on a store without duplicates, a call adds only new arrangements, each derived from the segment and shorter than it |
| Day10.ScanAdds | src/day10.rs:51-63 | the same for the scan from position i |
| Day10.ArrangementsSound | src/day10.rs:46-64 | the store of a segment starts with the segment, holds no arrangement twice, and each entry arises from it by removals |
| Day10.ArrangementsKeepEnds | src/day10.rs:46-64 | every stored arrangement keeps the segment's ends, only drops adapters, and is connected when the segment is |
| Day10.ScanExplores | src/day10.rs:51-63 | the scan from position i stores every removal from a removable position at or after i, and every stored sequence but the first has all its single removals stored |
| Day10.FindExplores | src/day10.rs:46-64 | a call on a non-empty store stores every single removal of its sequence and keeps the stored sequences after the first explored |
| Day10.DerivedStored | src/day10.rs:46-64 | in a store whose every sequence has its single removals stored, everything derived from a stored sequence is stored |
| Day10.ArrangementsExact | src/day10.rs:46-64 | a sequence is stored exactly when it arises from the segment by removals of removable adapters |
| Day10.FirstCut | src/day10.rs:74-83 | the inner loop breaks at the first position whose gap from the segment start exceeds 3 or that ends the chain |
| Day10.SegmentProduct | src/day10.rs:66-96 | the product of the segments' arrangement counts is at least 1 |
| Day10.Segment | src/day10.rs:72-92 | one round multiplies by the segment's arrangement count and moves the start strictly forward |
| Day10.SegmentStep | src/day10.rs:72-92 | the segment from i ends at the first cut, and the rest of the product starts where the round leaves the index |
| Day10.ArrangementCount | src/day10.rs:66-96 | the count is the product, over the cut segments, of their numbers of stored arrangements |
| Day10.Part2 | src/day10.rs:98-101 | part 2 panics exactly when there is no adapter, and is otherwise the segment product of the chain |
| Day10.ExampleSegment | src/day10.rs:46-64 | the segment 0, 1, 2, 5 has two arrangements |
| Day11.IsSeatOccupied | src/day11.rs:28-34 | a position is occupied exactly when it lies inside the layout and holds '#' |
| Day11.AdjacentPosition | src/day11.rs:37-50 | `checked_sub` gives no position exactly when the step goes above row 0 or left of column 0, and otherwise the stepped position |
| Day11.LookFinds | src/day11.rs:67-87 | the walk over floor either stops on the first non-floor cell it meets or leaves the layout |
| Day11.FirstVisibleSeatSpec | src/day11.rs:60-88 | the position found is the first non-floor cell along the ray; nothing found means the ray leaves the layout over floor only |
| Day11.CountSeen | src/day11.rs:48-57 | the count over a list of directions is at most the number of directions |
| Day11.NeighbourCount | src/day11.rs:36-58 | a neighbour count is at most 8 |
| Day11.ImmediateOccupiedCount | src/day11.rs:36-58 | the adjacent count is at most 8, and at most 3 at the top-left corner |
| Day11.NeighbourCountExpanded | src/day11.rs:37-55 | the count is the sum of the eight directions' 0-or-1 contributions |
| Day11.CountSeenTwo | src/day11.rs:49-55 | the count over a list is the first two contributions plus the count over the rest |
| Day11.CornerCount | src/day11.rs:37-50 | at the top-left corner five of the eight positions underflow, leaving at most 3 |
| Day11.VisibleOccupiedCount | src/day11.rs:90-112 | the first-visible count is at most 8 |
| Day11.NoFloorRulesAgree | src/day11.rs:36-112 | without floor the first visible seat is the adjacent cell, so both counts agree |
| Day11.NoFloorCountsAgree | src/day11.rs:48-55 | the same over any list of directions |
| Day11.NothingOccupiedCountsZero | src/day11.rs:36-112 | with no occupied seat every neighbour count is 0 |
| Day11.NothingOccupiedCountSeen | src/day11.rs:48-55 | the same over any list of directions |
| Day11.Step | src/day11.rs:128-176 | a round keeps the layout's shape and sets every cell from the snapshot of the previous round |
| Day11.StepRule | src/day11.rs:133-145 | floor stays; an empty seat fills exactly when no neighbour is occupied; an occupied seat empties exactly when at least 4 (part 1) or 5 (part 2) are; every other seat stays |
| Day11.SimulateSeating | src/day11.rs:128-176 | the in-place loops compute the synchronous round, and the result reports a change exactly when the layout changed |
| Day11.StepKeepsShapeAndFloor | src/day11.rs:128-176 | a round keeps the shape and every floor cell |
| Day11.NoSeatsIsFixed | src/day11.rs:133-145 | a layout without seats is a fixed point |
| Day11.FixedPointStaysFixed | src/day11.rs:196-204 | once a round changes nothing, the next changes nothing either |
| Day11.Settle | src/day11.rs:192-220 | a settled layout is a fixed point of the round with the input's shape and floor; a fixed input settles at once |
| Day11.SettleIterates | src/day11.rs:196-204 | the loop settles within the budget exactly when some round n below it is a fixed point, and the result is the layout after the first such n rounds |
| Day11.OccupiedSeatCount | src/day11.rs:114-126 | the probe loop counts the occupied seats, never more than the seats, never more than the cells |
| Day11.OccupiedAtMostSeats | src/day11.rs:114-126 | occupied seats are at most the seats, seats at most the cells |
| Day11.ImmediateOccupied01 | src/day11.rs:49-55 | under the adjacency rule a direction contributes exactly when its neighbouring cell is an occupied seat |
| Day11.FirstRoundFillsSeats | src/day11.rs:133-145 | from a layout with no occupied seat, the first round takes every empty seat and changes nothing else |
| Day12.ParseInstruction | src/day12.rs:16-31 | a line is accepted exactly when it is non-empty, starts with one of N, S, E, W, L, R, F and the rest parses as a `usize`; the instruction carries that code and value |
| Day12.ParseFormat | src/day12.rs:16-31 | an instruction written out parses back to itself |
| Day12.Quot | src/day12.rs:64 | Rust's `/` truncates toward zero: the remainder has the sign of the dividend and is smaller than the divisor |
| Day12.FindDirection | src/day12.rs:63-74 | a negative new heading gets 4 added once; any other is reduced modulo 4 into 0..3 |
| Day12.FindDirectionTurns | src/day12.rs:63-74 | from a heading in 0..3, a turn of up to three quarter turns either way gives the heading turned modulo 4 |
| Day12.TurnBack | src/day12.rs:83-88 | turning right and then left by the same angle restores the heading |
| Day12.NewShip1 | src/day12.rs:55-61 | the ship starts with all counters 0, heading east |
| Day12.Add | src/day12.rs:79-90 | a move increases one counter by the value and leaves the others |
| Day12.Step1 | src/day12.rs:76-94 | N/S/E/W increase their own counter; L and R set the heading to `find_direction` of minus or plus the angle; F panics exactly when the heading is outside 0..3 and otherwise increases the heading's counter; turns never move the ship |
| Day12.MoveTarget | src/day12.rs:79-82 | a compass move names one of the four counters |
| Day12.CompassMove | src/day12.rs:79-82 | a compass move increases exactly its own counter |
| Day12.CompassMovesAddUp | src/day12.rs:76-94 | a route of compass moves never panics, never turns, and adds each move to its counter |
| Day12.LongLeftTurnPanics | src/day12.rs:63-90 | L450 from north leaves heading -1, and the next F panics |
| Day12.Example1 | src/day12.rs:76-101 | the route F10 N3 F7 R90 F11 ends 25 from the start |
| Day12.TotalsAreNet | src/day12.rs:76-82 | on compass moves, east minus west and north minus south are the routes' signed net displacements |
| Day12.CompassDistance | src/day12.rs:76-101 | on a route of compass moves, the distance is the absolute net east displacement plus the absolute net north displacement |
| Day12.Navigate1Append | src/day12.rs:76-94 | navigating a route in two pieces is navigating the first and then the second from where it ended; a panic in the first ends it |
| Day12.RotateLeft | src/day12.rs:135 | `rotate_left(k)` moves component i + k to i |
| Day12.RotateRight | src/day12.rs:137 | `rotate_right(k)` moves component i to i + k |
| Day12.RotationKeepsComponents | src/day12.rs:134-138 | a rotation only moves the components |
| Day12.RotateRightLeft | src/day12.rs:134-138 | rotating right and then left by the same count is the identity |
| Day12.RotateWaypoint | src/day12.rs:130-141 | the rotation exists exactly when the truncated quarter-turn count is at most 4 either way; a non-negative count rotates right by it, a negative one rotates left by its magnitude |
| Day12.TurnKeepsComponents | src/day12.rs:130-141 | a turn of the waypoint only moves its components |
| Day12.WaypointTurnBack | src/day12.rs:158-163 | turning right and then left by the same angle restores the waypoint, and a full turn leaves it unchanged |
| Day12.NewShip2 | src/day12.rs:116-128 | the waypoint starts 1 north and 10 east; the ship starts with all counters 0 |
| Day12.Forward | src/day12.rs:164-168 | F increases every ship counter by the waypoint's counter times the value |
| Day12.Step2 | src/day12.rs:143-171 | N/S/E/W increase the waypoint's counter; L and R rotate the waypoint by minus or plus the angle and panic exactly when that rotation does; F adds waypoint × value to every ship counter and leaves the waypoint |
| Day12.ShortTurnsNavigate | src/day12.rs:143-171 | a route whose turns are at most a full turn never panics |
| Day12.QuarterRight | src/day12.rs:130-141 | R90 moves each waypoint component one place on |
| Day12.Navigate2Step | src/day12.rs:144-170 | the route is its first instruction followed by the rest |
| Day12.Navigate2Append | src/day12.rs:143-171 | the same for the waypoint navigation |
| Day12.CompassWaypointAddsUp | src/day12.rs:146-157 | N/S/E/W moves alone never panic, leave the ship where it is and add each counter's route total to the waypoint |
| Day12.ForwardsAddUp | src/day12.rs:164-168 | F moves alone never panic, leave the waypoint and move each ship counter by the waypoint's counter times the total distance flown |
| Day12.Example2 | src/day12.rs:143-181 | the route F10 N3 F7 R90 F11 ends 286 from the start with the waypoint |
| Day13.Departure | src/day13.rs:3-9 | the departure exists exactly when the id is positive; it is the first multiple of the id at or after t, and t itself when t is a multiple |
| Day13.DepartureLeast | src/day13.rs:3-9 | no multiple of the id at or after t comes before the departure found |
| Day13.BusIds | src/day13.rs:16-20 | the ids parse exactly when every piece other than "x" parses as a `usize` |
| Day13.Departures | src/day13.rs:27-35 | the departures exist exactly when every id is positive, one per id, in the ids' order |
| Day13.FirstMinimum | src/day13.rs:37-40 | the stable sort's head is the first position of a smallest departure |
| Day13.FirstMinimumUnique | src/day13.rs:37-40 | only one position is the first smallest one |
| Day13.Pick | src/day13.rs:27-44 | the answer exists exactly when every id is positive; it is nothing exactly when there is no bus, and otherwise the wait for the first-listed soonest bus times its id |
| Day13.SmallestSoonest | src/day13.rs:37-42 | the first position of a smallest departure is a bus that leaves no later than any other, and strictly sooner than every bus before it |
| Day13.Part1 | src/day13.rs:11-45 | part 1 needs two lines, a `usize` time and parsable positive ids; it answers the wait for the first-listed soonest bus times its id, or nothing when no bus is listed |
| Day13.AnswerUnique | src/day13.rs:27-44 | only one bus and one value meet the answer's description, so part 1's contract fixes its result |
| Day13.OffsetsFrom | src/day13.rs:47-62 | the buses parse exactly when every piece other than "x" does; each entry is a piece's id with the piece's index, in increasing order, and no bus piece is missing |
| Day13.OffsetsCons | src/day13.rs:52-59 | pushing a parsed bus with its index in front keeps the list listed, increasing and covering |
| Day13.Offsets | src/day13.rs:47-62 | the buses parse exactly when every piece other than "x" does; each entry is a piece's id with the piece's index, in increasing order, and no bus piece is missed |
| Day13.BusIdsAreOffsets | src/day13.rs:16-20 | part 1 reads the same ids as part 2's buses, in the same order, and fails on the same lines |
| Day13.AlignedFrom | src/day13.rs:72-81 | the inner loop succeeds exactly when every bus from k on leaves at its offset after t; a zero id is the remainder-by-zero panic |
| Day13.Search | src/day13.rs:68-88 | a time found is at or after the start and fits every bus after the first; from a multiple of the first id it is the first fitting multiple; only a zero id panics |
| Day13.NoneFitExtend | src/day13.rs:83-87 | a failed round at multiple t extends the range of multiples known not to fit |
| Day13.EarliestTime | src/day13.rs:64-89 | a line without buses is the `unwrap` panic; with a positive first id the time found is the first positive multiple of it that fits the other buses |
| Day13.EarliestUnique | src/day13.rs:64-89 | there is only one earliest time |
| Day13.SearchFinds | src/day13.rs:71-88 | when the start plus n steps fits, n + 1 rounds find a time |
| Day13.SearchMoreFuel | src/day13.rs:71-88 | more rounds do not change a time once found |
| Day13.SearchEarliest | src/day13.rs:64-89 | when a positive multiple m of the first id fits, m / id rounds find the earliest time |
| Day13.QuotientSplit | src/day13.rs:69-87 | a positive multiple m of p is p plus m / p - 1 more steps of p |
| Day13.ExampleTimesFit | src/day13.rs:91-99 | 3417 fits 17,x,13,19 and 1068781 fits 7,13,x,x,59,x,31,19 |
| Day13.ExampleOffsets | src/day13.rs:47-62 | the pieces of "17,x,13,19" give buses 17, 13 and 19 at offsets 0, 2 and 3 |
| Day13.ExamplePick | src/day13.rs:27-44 | at 939 with buses 7, 13, 59, 31, 19 the answer is 295 |
| Day14.Mask1From | src/day14.rs:47-51 | the loop from bit p on leaves the bits below p alone and gives each bit from p on its masked value |
| Day14.ApplyMask1 | src/day14.rs:44-54 | every bit of the result is the mask's '1' or '0' where the mask has one, and the value's bit under 'X' or past the mask's end |
| Day14.ApplyMask1Idempotent | src/day14.rs:44-54 | masking twice with the same mask is masking once |
| Day14.EmptyMaskIdentity | src/day14.rs:57 | the empty mask in force before the first `mask` instruction changes nothing |
| Day14.Step1 | src/day14.rs:60-66 | a `mask` instruction sets the mask and leaves the memory alone; a write stores the value masked by the current mask at its address, keeps the mask, and leaves every other address alone |
| Day14.Run1Memory | src/day14.rs:56-70 | after part 1's run the mask is the last one given; the written addresses are exactly the memory's keys; each holds the value of its last write masked by the mask in force then |
| Day14.MaskBeforePrefix | src/day14.rs:57-67 | the mask in force at a position does not depend on the instructions after it |
| Day14.SumMemory | src/day14.rs:69 | the sum is the sum of the memory's values |
| Day14.Part1 | src/day14.rs:56-70 | part 1 is the sum of the memory's values after its run |
| Day14.Floating | src/day14.rs:76-78 | the floating positions are exactly the mask's 'X' positions, in increasing order |
| Day14.Mask2From | src/day14.rs:76-82 | the masked address has bit 1 under every '1' of the mask and the address's bit elsewhere |
| Day14.Assign | src/day14.rs:90-96 | the inner loop gives floating bit i the value of bit i of `num` and leaves every other bit alone |
| Day14.Addresses | src/day14.rs:72-102 | the list exists exactly when the mask has fewer than 16 'X' (the `u16` power overflows otherwise) and then holds 2^k addresses |
| Day14.AddressAt | src/day14.rs:87-99 | address n of the list is n spread over the floating bits of the masked address |
| Day14.AddressesFixedBits | src/day14.rs:72-102 | every generated address has the mask's '1' bits set and the address's bits under '0' or past the mask |
| Day14.AddressesDistinct | src/day14.rs:87-99 | the generated addresses are pairwise different |
| Day14.AddressesCover | src/day14.rs:72-102 | every address with the mask's fixed bits is generated: every choice of the floating bits appears |
| Day14.StoreAll | src/day14.rs:111-113 | the writes add the listed addresses, each holding the value, and leave every other address alone |
| Day14.Step2 | src/day14.rs:107-115 | a write panics exactly when its address list overflows; otherwise every generated address holds the value, every other address is kept, no address outside the old memory and the generated ones appears, and the mask is kept |
| Day14.Part2 | src/day14.rs:104-119 | part 2 is the sum of the memory's values after its run, and panics exactly when the run does |
| Day14.Run2Stuck | src/day14.rs:107-116 | once a prefix of the run panics, the whole run panics |
| Day14.Run2Outcome | src/day14.rs:104-116 | part 2's run panics exactly when some write comes under a mask with 16 or more 'X'; otherwise the mask at the end is the last one given |
| Day15.LastIndex | src/day15.rs:18-20 | the last position of a number in the turns holds it and no later position does |
| Day15.LastIndexSnoc | src/day15.rs:44-47 | after a new turn, the number just said is last at the new end and every other number keeps its last position |
| Day15.SpecNext | src/day15.rs:34-42 | the next number of the game's rule is below the number of turns |
| Day15.Extend | src/day15.rs:76-78 | continuing the turns by the rule keeps them as a prefix and stops at the target |
| Day15.Record | src/day15.rs:18-21 | after the starting loop each starting number maps to its last position and to a count of 0 |
| Day15.RecordStep | src/day15.rs:18-21 | one more insertion keeps every starting number at its last position |
| Day15.New | src/day15.rs:12-28 | a new game has the starting numbers as turns, each at its last position, each with count 0 |
| Day15.LastTurnNumber | src/day15.rs:58-60 | the last number exists exactly when there is a turn, and is the last turn |
| Day15.Answer | src/day15.rs:38-42 | the number said is 0 for a number said once and the distance back to its recorded position otherwise; the `unwrap`s and the subtraction fail exactly when the lookups miss or the position lies ahead |
| Day15.NextTurn | src/day15.rs:34-56 | a turn fails exactly when there is no turn yet or the rule's answer for the last number fails; otherwise the number said is that answer, it is appended, the previous number's position is recorded, the new number's count goes up by one (or starts at zero) and every other count is kept |
| Day15.NewValid | src/day15.rs:12-28 | a new game satisfies the lookups' invariant |
| Day15.NextTurnValid | src/day15.rs:34-56 | on a game with a turn satisfying the invariant, a turn never panics and keeps the invariant |
| Day15.NewFaithful | src/day15.rs:12-28 | a game started from distinct numbers matches the rule's bookkeeping |
| Day15.NewCounts | src/day15.rs:18-21 | from distinct numbers each count is one less than the times the number was said |
| Day15.NewPositions | src/day15.rs:18-21 | from distinct numbers each number before the last is recorded at its last position |
| Day15.DistinctOnce | src/day15.rs:18-21 | in distinct numbers each occurs once |
| Day15.NextTurnFaithful | src/day15.rs:34-56 | on a faithful game a turn says the rule's next number and stays faithful |
| Day15.NextIsSpec | src/day15.rs:34-42 | on a faithful game the number said is the rule's next number |
| Day15.CountsStep | src/day15.rs:49-53 | a turn keeps each count one less than the times the number was said |
| Day15.PositionsStep | src/day15.rs:44-45 | a turn keeps each number said before at its last position |
| Day15.Play | src/day15.rs:76-78 | the loop ends at the target number of turns and keeps the turns it started with |
| Day15.PlayFaithful | src/day15.rs:76-86 | a faithful game plays out the rule's sequence |
| Day15.StartingNumbers | src/day15.rs:63-71 | the input gives numbers exactly when it is one line whose comma-separated pieces all parse, one number per piece |
| Day15.ParseAll | src/day15.rs:67-70 | the pieces from i on parse exactly when each does, to their values in order |
| Day15.AllNumbersCons | src/day15.rs:67-70 | the pieces from i on parse exactly when piece i does and those after it do |
| Day15.NumbersCons | src/day15.rs:67-70 | a parsed piece in front of parsed pieces gives their values in order |
| Day15.Say | src/day15.rs:73-89 | the number said last exists only when there is a starting number |
| Day15.SayFacts | src/day15.rs:73-89 | the answer exists exactly when there is a starting number, and from distinct numbers it is the rule's last number |
| Day15.LastSaid | src/day15.rs:63-89 | the answer exists exactly when the input is one line of at least one number, and from distinct numbers it is the rule's last number |
| Day15.SayReference | src/day15.rs:73-89 | from distinct starting numbers the game says the rule's sequence up to the target |
| Day15.PlayFromStart | src/day15.rs:73-89 | from distinct starting numbers the game plays the rule's sequence |
| Day15.PlayValid | src/day15.rs:76-78 | on a game with a turn satisfying the invariant the loop never panics |
| Day15.SayTotal | src/day15.rs:73-89 | the game has an answer exactly when there is a starting number |
| Day15.DuplicateStart | src/day15.rs:18-42 | a repeated starting number is not counted as said twice: after 0, 3, 0 the game says 0 where the rule says 2 |
| Text.ParseUnsigned | src/day13.rs:15 | `parse::<uN>()` accepts exactly an optional '+' followed by at least one digit whose value is at most the type's maximum (a leading '-' is rejected), and returns that value |
| Text.ParseDigits | src/day13.rs:57 | a run of digits parses to its value exactly when the value fits the type |
| Text.ParseUnsignedNatToString | src/day12.rs:19 | a number written in decimal parses back to itself |
| Text.ParseSigned | src/day8.rs:40 | a number is accepted exactly when the text is an optional sign and at least one digit whose signed value lies in the type's range, and the result is that value |
| Text.ParseSignedToString | src/day8.rs:40 | a signed number written with its sign parses back to itself |
| Text.DecimalValueOfNatToString | src/day12.rs:19 | the digits written for a number have that number as their value |
| Text.IndexOf | src/day2.rs:18 | `find` gives the first position of the character |
| Text.IndexOfIs | src/day2.rs:22 | a position holding the character with none before it is the one `find` gives |
| Text.ContainsIffOccurs | src/day7.rs:76-79 | `contains` holds exactly when the text occurs at some position |
| Text.SplitAny | src/day4.rs:169 | splitting gives at least one piece, and no piece holds a separator |
| Text.Split | src/day13.rs:48 | splitting on one character gives at least one piece, none holding the character |
| Text.JoinSplit | src/day13.rs:48 | splitting loses nothing: joining the pieces on the separator gives the text back |
| Text.SplitNone | src/day13.rs:48 | text without the separator is one piece |
| Text.SplitPair | src/day8.rs:36 | two separator-free pieces around one separator split into the two pieces |
| Text.SplitFirst | src/day15.rs:68 | a separator-free piece before the first separator is the first piece |
| Text.SplitOnce | src/day7.rs:33 | `splitn(2, c)` gives the text before the first c and, when there is one, the rest after it, which glue back to the text |
| Text.TrimStart | src/day7.rs:25 | the start trim removes exactly a whitespace prefix and stops at a non-whitespace character |
| Text.TrimEnd | src/day7.rs:25 | the end trim removes exactly a whitespace suffix and stops at a non-whitespace character |
| Text.Trim | src/day7.rs:25 | the trimmed text is no longer than the input and has no whitespace at either end |
| Text.TrimEmptyIffBlank | src/day6.rs:85 | text trims to nothing exactly when it is all whitespace |
| Text.Groups | src/day6.rs:84-92 | cutting lines at blank ones gives one run more than there are blank lines |
| Text.GroupsNotBlank | src/day6.rs:84-92 | no run holds a blank line: blank lines only separate runs |
| Text.GroupsUngroup | src/day4.rs:169-173 | runs without blank pieces, joined with empty pieces between them, cut back into the same runs |
| Text.UngroupGroups | src/day6.rs:84-92 | when every blank piece is empty, joining the runs with empty pieces between them gives the pieces back: grouping loses nothing |
| Text.TrimNoWhitespace | src/day7.rs:28 | text with no whitespace at either end is its own trim |
| Text.TrimAround | src/day7.rs:28 | whitespace around a core is removed by the trim |
| Text.TrimEndMatches | src/day4.rs:52 | `trim_end_matches` keeps a prefix of the input that no longer ends with the pattern, and what it removes is whole copies of the pattern (`Copies`) |
| Text.CopiesLength | src/day4.rs:52 | whole copies of a pattern are a whole multiple of the pattern's length long, so the part `trim_end_matches` removes is too |
| Text.ReplaceSkip | src/day7.rs:18-22 | text at whose positions the pattern does not start passes the replacement unchanged |
| Text.ReplaceSkipChars | src/day7.rs:18-22 | text without the pattern's first character passes the replacement unchanged |
| Text.ReplaceSkipWord | src/day7.rs:18-22 | a word without the pattern, followed by a space, passes the replacement unchanged |
| Text.ReplaceHit | src/day7.rs:18-22 | an occurrence at the front is replaced and the scan goes on after it |
| SeqUtil.Insert | src/day10.rs:13 | inserting into an ascending sequence keeps it ascending and adds exactly the element |
| SeqUtil.Sort | src/day5.rs:127 | `sort` gives the ascending permutation of the input |
| SeqUtil.Count | src/day2.rs:54-59 | the count of x is its multiplicity in the sequence |
| SeqUtil.DistinctCard | src/day6.rs:29-41 | a sequence without duplicates has as many elements as its set |
| MapSum.SumValuesRemove | src/day14.rs:69 | the sum of the values does not depend on which key is taken first |
| MapSum.SumValuesUpdate | src/day14.rs:63-64 | storing v at k replaces k's old contribution to the sum by v |
| Bits.Pow2Add | src/day14.rs:84 | 2^(a+b) = 2^a * 2^b |
| Bits.SetBit | src/day14.rs:49 | setting bit j gives bit j the new value and leaves every other bit alone |
| Bits.BitsEqual | src/day14.rs:44-54 | two numbers with the same bits are the same number |
| Bits.BitAbove | src/day14.rs:84-87 | a number below 2^k has no bit at or above k |
| Bits.LowBitsDiffer | src/day14.rs:87-99 | two different numbers below 2^k differ in one of their k low bits |
| Bits.FromBits | src/day14.rs:90-96 | the number spelled by k bits is below 2^k and has exactly those bits |

## Left out

- Reading standard input is left out: `utils::stdin_to_vec`, `read_to_string` and the stdin parts of `stdin_to_passports`, `stdin_to_boarding_passes`, `stdin_to_passenger_groups`, `get_sorted_jolts` and `get_starting_numbers`. Each model starts from the text or lines already read.
- All `println!`/`print!` output is left out, including `SeatLayout::print` and the debug dumps, because it does not affect any result. Part functions return the value the source prints.
- `src/main.rs` (argument parsing, day dispatch, `process::exit`) is plumbing and is not modelled.
- Day 14's regex-based `Instruction::from_str` is not modelled: instructions are given as a datatype, and a mask string is not checked against `[01X]{36}`.
- `utils::set_bit` and `utils::check_bit` are not part of this model. `Bits.SetBit` and `Bits.Bit` assume they set and test bit p of a `u64`.
- Machine integer widths are not modelled. This covers Day 8's `i32` accumulator and index, Day 9's `i64` sums, the `usize` counters, positions and `as i32` distance casts of Day 12, Day 10's `usize` product, and Day 14's `u64` values, addresses and sums. Every quantity is an unbounded integer. Parsing still rejects text outside the parsed type's range. The overflow of `2_u16.pow(k)` for k ≥ 16 in Day 14 is modelled as an error.
- Rust strings are indexed by bytes and the models by characters. They agree on the ASCII text the puzzles use.
- Day10.FindArrangements: the `HashMap` keyed by `DefaultHasher` hashes is modelled as a list of arrangements compared by value, so it assumes the hash has no collisions.
- Day7.Contained: the recursive count runs on a fuel budget. A self-containing rule makes the source recurse forever; here it gives `None` for every budget.
- Day11.Settle: the repeat-until-unchanged loop runs on a fuel budget. `None` means the budget ran out before a fixed point.
- Day13.Search: the alignment search runs on a fuel budget, because the source loops forever when no time fits. Minimality is proved for searches that start at a multiple of the first id.
- Day13.EarliestTime: like the source, it checks only the buses after the first and never the first bus's own offset. When the line starts with "x", the first bus's offset is therefore ignored.
- Day13.ExampleTimesFit: proves that the test's expected times fit their buses, not that they are the earliest. The other test lines and the earliest-ness of these two are left out because of proof cost.
- Day15.SayReference: needs distinct starting numbers. With a repeated starting number the source does not follow the game's rule; `Day15.DuplicateStart` exhibits this. Puzzle inputs have distinct starting numbers. The 30 000 000-turn run of part 2 is the same function with a larger target.
- Day3.CountTrees: requires a positive step down and non-empty rows. With `down == 0` the source loops forever, and on an empty visited row its widening loop never ends. The requirement covers every row, including rows the slope skips.
- Day4.ValidHairColor: `char::is_numeric` also accepts non-ASCII numerals; the model accepts ASCII digits only.
- Day4.ValidPassportId: accepts ASCII digits only, where `char::is_numeric` also accepts other Unicode numerals.
- Day6.TotalCommonCounts: needs passengers who write no letter twice, as puzzle inputs do. The source counts a repeated letter of the first passenger once per occurrence, so with repeats part 2 can exceed the count of letters everyone wrote.
- Day12.CompassDistance: states the distance in net displacements for routes of N, S, E and W moves only. Routes with turns and F moves are covered step by step by `Day12.Step1` and `Day12.Navigate1Append`.
- Text.Trim: treats the six ASCII whitespace characters as whitespace, not the other Unicode spaces that `str::trim` also strips.
- Day11.SimulateSeating: models one round as a pure function of the snapshot. The layout is the raw characters of each line, with no validation, exactly as `SeatLayout::new` collects them.
