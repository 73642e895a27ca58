/** Handheld halting (src/day8.rs). A program of `acc`, `jmp` and `nop`
    instructions runs from index 0 until an index repeats (a loop) or the
    index reaches the end (normal termination); part 1 reports the
    accumulator at the loop, part 2 flips one `nop`/`jmp` at a time until the
    program terminates normally. `i32` overflow of the accumulator and the
    index is not modelled. */
module Day8 {
  import opened Wrappers
  import Text
  import SeqUtil

  datatype Operation = Acc | Jmp | Nop

  datatype Instruction = Instruction(operation: Operation, argument: int)

  /** The fields of `Program`: the instructions, the accumulator, the index
      of the next instruction and the indexes executed so far. */
  datatype Program = Program(instructions: seq<Instruction>, accumulator: int, index: int, executed: seq<int>)

  // ---------------------------------------------------------------------------
  // Parsing
  // ---------------------------------------------------------------------------

  function OpName(op: Operation): string {
    match op
    case Acc => "acc"
    case Jmp => "jmp"
    case Nop => "nop"
  }

  /** `Operation::from`: the three names, anything else panics. */
  function ParseOperation(s: string): (r: Result<Operation>)
    ensures r.Ok? <==> s == "acc" || s == "jmp" || s == "nop"
    ensures r.Ok? ==> OpName(r.value) == s
  {
    if s == "acc" then Ok(Acc)
    else if s == "jmp" then Ok(Jmp)
    else if s == "nop" then Ok(Nop)
    else Err("Unexpected operation")
  }

  lemma ParseOpName(op: Operation)
    ensures ParseOperation(OpName(op)) == Ok(op)
  {
  }

  /** `Instruction::parse`: exactly two space-separated items (the
      `assert_eq!`), an operation name and an `i32` argument. */
  function ParseInstruction(line: string): (r: Result<Instruction>)
    ensures r.Ok? ==> |Text.Split(line, ' ')| == 2
    ensures r.Ok? ==> OpName(r.value.operation) == Text.Split(line, ' ')[0]
    ensures r.Ok? ==> Text.ParseSigned(Text.Split(line, ' ')[1], Text.I32_MIN, Text.I32_MAX) == Some(r.value.argument)
  {
    var items := Text.Split(line, ' ');
    if |items| != 2 then Err("assertion failed: instruction_items.len() == 2")
    else
      var op :- ParseOperation(items[0]);
      match Text.ParseSigned(items[1], Text.I32_MIN, Text.I32_MAX)
      case None => Err("invalid digit found in string")
      case Some(v) => Ok(Instruction(op, v))
  }

  /** The line an instruction is written as, e.g. "jmp -3". */
  function Format(ins: Instruction): string {
    OpName(ins.operation) + " " + Text.SignedToString(ins.argument)
  }

  /** Parsing the line of an instruction gives the instruction back. */
  lemma ParseFormat(ins: Instruction)
    requires Text.I32_MIN <= ins.argument <= Text.I32_MAX
    ensures ParseInstruction(Format(ins)) == Ok(ins)
  {
    var name, arg := OpName(ins.operation), Text.SignedToString(ins.argument);
    assert ' ' !in name;
    assert ' ' !in arg by {
      Text.NoDigitIn(arg[1..], ' ');
      assert arg == [arg[0]] + arg[1..];
    }
    Text.SplitPair(name, arg, ' ');
    assert Format(ins) == name + [' '] + arg;
    Text.ParseSignedToString(ins.argument, Text.I32_MIN, Text.I32_MAX);
  }

  /** A line with three items is rejected. */
  lemma ThreeItemsRejected(a: string, b: string, c: string)
    requires ' ' !in a && ' ' !in b && ' ' !in c
    ensures ParseInstruction(a + [' '] + b + [' '] + c).Err?
  {
    Text.SplitFirst(a, b + [' '] + c, ' ');
    Text.SplitPair(b, c, ' ');
    assert a + [' '] + b + [' '] + c == a + [' '] + (b + [' '] + c);
  }

  // ---------------------------------------------------------------------------
  // Execution
  // ---------------------------------------------------------------------------

  /** `Program::new`. */
  function New(instructions: seq<Instruction>): (p: Program)
    ensures p.instructions == instructions && p.accumulator == 0 && p.index == 0 && p.executed == []
  {
    Program(instructions, 0, 0, [])
  }

  /** `reset`: the accumulator, the index and the history start over; the
      instructions stay. */
  function Reset(p: Program): (r: Program)
    ensures r == New(p.instructions)
  {
    p.(accumulator := 0, index := 0, executed := [])
  }

  /** The machine state without the history: the reference semantics. */
  datatype State = State(accumulator: int, index: int)

  /** One instruction on the bare state. */
  function Step(instructions: seq<Instruction>, s: State): (r: State)
    requires 0 <= s.index < |instructions|
    ensures var ins := instructions[s.index];
      (ins.operation == Acc ==> r == State(s.accumulator + ins.argument, s.index + 1)) &&
      (ins.operation == Jmp ==> r == State(s.accumulator, s.index + ins.argument)) &&
      (ins.operation == Nop ==> r == State(s.accumulator, s.index + 1))
  {
    var ins := instructions[s.index];
    match ins.operation
    case Nop => State(s.accumulator, s.index + 1)
    case Jmp => State(s.accumulator, s.index + ins.argument)
    case Acc => State(s.accumulator + ins.argument, s.index + 1)
  }

  function StateOf(p: Program): State {
    State(p.accumulator, p.index)
  }

  /** `exec_instruction`: the `assert!` on the index is the error case; the
      index is recorded before the instruction runs. */
  function Exec(p: Program): (r: Result<Program>)
    ensures r.Ok? <==> 0 <= p.index < |p.instructions|
    ensures r.Ok? ==> r.value.instructions == p.instructions && r.value.executed == p.executed + [p.index]
    ensures r.Ok? ==> StateOf(r.value) == Step(p.instructions, StateOf(p))
  {
    if p.index < 0 || p.index >= |p.instructions| then Err("assertion failed: index in range")
    else
      var ins := p.instructions[p.index];
      var q := p.(executed := p.executed + [p.index]);
      match ins.operation
      case Nop => Ok(q.(index := p.index + 1))
      case Jmp => Ok(q.(index := p.index + ins.argument))
      case Acc => Ok(q.(accumulator := p.accumulator + ins.argument, index := p.index + 1))
  }

  /** `is_loop_detected`. */
  predicate LoopDetected(p: Program) {
    p.index in p.executed
  }

  /** `is_terminated_normally`. */
  predicate TerminatedNormally(p: Program) {
    p.index >= |p.instructions|
  }

  /** The history holds distinct in-range indexes. */
  predicate Valid(p: Program) {
    SeqUtil.NoDuplicates(p.executed) &&
    forall k :: 0 <= k < |p.executed| ==> 0 <= p.executed[k] < |p.instructions|
  }

  /** The `while` of `run` from state `p`: it stops at a loop or at normal
      termination, and panics when the index goes below zero. */
  function RunFrom(p: Program): (r: Result<Program>)
    requires Valid(p)
    ensures r.Ok? ==> Valid(r.value) && r.value.instructions == p.instructions
    ensures r.Ok? ==> LoopDetected(r.value) || TerminatedNormally(r.value)
    ensures r.Ok? ==> p.executed <= r.value.executed
    decreases |p.instructions| - |p.executed|
  {
    if LoopDetected(p) || TerminatedNormally(p) then Ok(p)
    else
      var next :- Exec(p);
      assert |p.executed| < |p.instructions| by {
        assert Valid(next);
        SeqUtil.DistinctBelow(next.executed, |p.instructions|);
      }
      RunFrom(next)
  }

  /** `run`: reset, then run. */
  function Run(p: Program): (r: Result<Program>)
    ensures r.Ok? ==> r.value.instructions == p.instructions && |r.value.executed| <= |p.instructions|
    ensures r.Ok? ==> SeqUtil.NoDuplicates(r.value.executed)
    ensures r.Ok? ==> LoopDetected(r.value) || TerminatedNormally(r.value)
  {
    var r := RunFrom(Reset(p));
    if r.Ok? then
      SeqUtil.DistinctBelow(r.value.executed, |p.instructions|);
      r
    else r
  }

  /** What a program held before `run` does not matter: only its
      instructions do. */
  lemma RunForgets(p: Program)
    ensures Run(p) == Run(New(p.instructions))
  {
  }

  // ---------------------------------------------------------------------------
  // The run against the reference semantics
  // ---------------------------------------------------------------------------

  /** The state after n steps from the start, if every step before was at an
      index in range. */
  function Trace(instructions: seq<Instruction>, n: nat): Option<State> {
    if n == 0 then Some(State(0, 0))
    else
      match Trace(instructions, n - 1)
      case None => None
      case Some(s) => if 0 <= s.index < |instructions| then Some(Step(instructions, s)) else None
  }

  /** `p` is where the trace is after its history: each recorded index is
      the index of the trace at that step. */
  ghost predicate OnTrace(p: Program) {
    Trace(p.instructions, |p.executed|) == Some(StateOf(p)) &&
    forall j :: 0 <= j < |p.executed| ==>
      Trace(p.instructions, j).Some? && Trace(p.instructions, j).value.index == p.executed[j]
  }

  /** The run follows the reference semantics: it stops at the first step
      whose index was visited before or is past the end, and panics exactly
      when the trace reaches a negative index first. */
  lemma {:induction false} RunFromOnTrace(p: Program)
    requires Valid(p) && OnTrace(p)
    ensures RunFrom(p).Ok? ==> OnTrace(RunFrom(p).value)
    ensures RunFrom(p).Err? ==> exists n :: Trace(p.instructions, n).Some? && Trace(p.instructions, n).value.index < 0
    decreases |p.instructions| - |p.executed|
  {
    if !(LoopDetected(p) || TerminatedNormally(p)) {
      if 0 <= p.index {
        var next := Exec(p).value;
        assert Valid(next) by {
          assert next.executed == p.executed + [p.index];
        }
        SeqUtil.DistinctBelow(next.executed, |p.instructions|);
        var n := |p.executed|;
        assert Trace(p.instructions, n + 1) == Some(StateOf(next));
        assert OnTrace(next) by {
          forall j | 0 <= j < |next.executed|
            ensures Trace(p.instructions, j).Some? && Trace(p.instructions, j).value.index == next.executed[j]
          {
            if j < n {
              assert next.executed[j] == p.executed[j];
            }
          }
        }
        RunFromOnTrace(next);
      } else {
        assert Trace(p.instructions, |p.executed|).value.index < 0;
      }
    }
  }

  /** The first step of the trace whose index was visited before, or is
      out of range, is where `run` stops. */
  lemma RunStops(instructions: seq<Instruction>)
    ensures var r := Run(New(instructions));
      r.Ok? ==> OnTrace(r.value) && SeqUtil.NoDuplicates(r.value.executed) &&
                (r.value.index in r.value.executed || r.value.index >= |instructions|) &&
                |r.value.executed| <= |instructions|
    ensures Run(New(instructions)).Err? ==>
      exists n :: Trace(instructions, n).Some? && Trace(instructions, n).value.index < 0
  {
    RunFromOnTrace(New(instructions));
  }

  /** `part1`: the accumulator when the loop is detected. */
  function Part1(instructions: seq<Instruction>): (r: Result<int>)
    ensures r.Ok? <==> Run(New(instructions)).Ok?
    ensures r.Ok? ==> Trace(instructions, |Run(New(instructions)).value.executed|) ==
                      Some(State(r.value, Run(New(instructions)).value.index))
  {
    RunStops(instructions);
    var q :- Run(New(instructions));
    Ok(q.accumulator)
  }

  // ---------------------------------------------------------------------------
  // Part 2: the one-instruction patch
  // ---------------------------------------------------------------------------

  /** The operation tried in place of `op`: `nop` and `jmp` swap, `acc` is
      not patched. */
  function Flip(op: Operation): (r: Option<Operation>)
    ensures r.Some? <==> op != Acc
    ensures r.Some? ==> r.value != Acc && r.value != op
  {
    match op
    case Nop => Some(Jmp)
    case Jmp => Some(Nop)
    case Acc => None
  }

  lemma FlipTwice(op: Operation)
    requires op != Acc
    ensures Flip(Flip(op).value) == Some(op)
  {
  }

  /** The instructions with the one at i changed to `op`. */
  function Patch(instructions: seq<Instruction>, i: nat, op: Operation): (r: seq<Instruction>)
    requires i < |instructions|
    ensures |r| == |instructions| && r[i] == Instruction(op, instructions[i].argument)
    ensures forall k :: 0 <= k < |r| && k != i ==> r[k] == instructions[k]
  {
    instructions[i := instructions[i].(operation := op)]
  }

  /** The patched program run for position i, if position i is patched. */
  function TryPatch(instructions: seq<Instruction>, i: nat): (r: Option<Result<Program>>)
    requires i < |instructions|
    ensures r.None? <==> instructions[i].operation == Acc
    ensures instructions[i].operation == Jmp ==> r == Some(Run(New(Patch(instructions, i, Nop))))
    ensures instructions[i].operation == Nop ==> r == Some(Run(New(Patch(instructions, i, Jmp))))
  {
    match Flip(instructions[i].operation)
    case None => None
    case Some(op) => Some(Run(New(Patch(instructions, i, op))))
  }

  /** Position i is patched and its run ends normally. */
  predicate Fixes(instructions: seq<Instruction>, i: nat)
    requires i < |instructions|
  {
    var t := TryPatch(instructions, i);
    t.Some? && t.value.Ok? && TerminatedNormally(t.value.value)
  }

  /** Position i is patched and its run panics. */
  predicate Panics(instructions: seq<Instruction>, i: nat)
    requires i < |instructions|
  {
    var t := TryPatch(instructions, i);
    t.Some? && t.value.Err?
  }

  /** The `for` loop of `part2` from position i: the first position whose
      patch terminates normally, with the accumulator; a patched run that
      panics ends the search with its panic. */
  function Repair(instructions: seq<Instruction>, i: nat): (r: Result<Option<(nat, int)>>)
    ensures r.Ok? && r.value.Some? ==>
      var (k, acc) := r.value.value;
      i <= k < |instructions| && Fixes(instructions, k) &&
      acc == TryPatch(instructions, k).value.value.accumulator &&
      forall j :: i <= j < k ==> !Fixes(instructions, j) && !Panics(instructions, j)
    ensures r == Ok(None) <==> forall j :: i <= j < |instructions| ==> !Fixes(instructions, j) && !Panics(instructions, j)
    decreases |instructions| - i
  {
    if i >= |instructions| then Ok(None)
    else
      match TryPatch(instructions, i)
      case None => Repair(instructions, i + 1)
      case Some(run) =>
        if run.Err? then
          assert Panics(instructions, i);
          Err(run.error)
        else if TerminatedNormally(run.value) then
          assert Fixes(instructions, i);
          Ok(Some((i, run.value.accumulator)))
        else Repair(instructions, i + 1)
  }

  /** No patch from i to k - 1 fixes the program or panics. */
  predicate Untouched(instructions: seq<Instruction>, i: nat, k: nat)
    requires k <= |instructions|
  {
    forall j :: i <= j < k ==> !Fixes(instructions, j) && !Panics(instructions, j)
  }

  /** The patched run at k panics and no patch from i up to k fixes the
      program or panics. */
  predicate PanicsFirst(instructions: seq<Instruction>, i: nat, k: nat) {
    i <= k < |instructions| && Panics(instructions, k) && Untouched(instructions, i, k)
  }

  /** The search from i panics exactly when a patched run panics before any
      patch fixes the program, and then with that run's panic. */
  ghost predicate PanicsAsSearched(instructions: seq<Instruction>, i: nat) {
    (Repair(instructions, i).Err? <==> exists k :: PanicsFirst(instructions, i, k)) &&
    (Repair(instructions, i).Err? ==>
       exists k :: PanicsFirst(instructions, i, k) && Repair(instructions, i).error == TryPatch(instructions, k).value.error)
  }

  /** Every search, from any position, panics as `PanicsAsSearched` says. */
  lemma {:induction false} RepairPanics(instructions: seq<Instruction>, i: nat)
    ensures PanicsAsSearched(instructions, i)
    decreases |instructions| - i
  {
    if |instructions| <= i {
      SearchEnd(instructions, i);
    } else if Panics(instructions, i) {
      PanicFirst(instructions, i);
    } else if Fixes(instructions, i) {
      FixFirst(instructions, i);
    } else {
      RepairPanics(instructions, i + 1);
      NeitherFirst(instructions, i);
    }
  }

  /** A search past the last instruction ends without a panic. */
  lemma SearchEnd(instructions: seq<Instruction>, i: nat)
    requires |instructions| <= i
    ensures PanicsAsSearched(instructions, i)
  {
    assert Repair(instructions, i).Ok?;
  }

  /** A panicking patch at i ends the search from i with its panic. */
  lemma PanicFirst(instructions: seq<Instruction>, i: nat)
    requires i < |instructions| && Panics(instructions, i)
    ensures PanicsAsSearched(instructions, i)
  {
    assert Untouched(instructions, i, i);
    assert PanicsFirst(instructions, i, i);
  }

  /** A fixing patch at i ends the search from i without a panic. */
  lemma FixFirst(instructions: seq<Instruction>, i: nat)
    requires i < |instructions| && Fixes(instructions, i)
    ensures PanicsAsSearched(instructions, i)
  {
    assert Repair(instructions, i).Ok?;
    forall k: nat ensures !PanicsFirst(instructions, i, k) {
      if i < k < |instructions| {
        assert !Untouched(instructions, i, k);
      }
    }
  }

  /** Past a patch that neither fixes nor panics, the search goes on at i + 1. */
  lemma NeitherFirst(instructions: seq<Instruction>, i: nat)
    requires i < |instructions| && !Fixes(instructions, i) && !Panics(instructions, i)
    requires PanicsAsSearched(instructions, i + 1)
    ensures PanicsAsSearched(instructions, i)
  {
    assert Repair(instructions, i) == Repair(instructions, i + 1);
    forall k: nat | PanicsFirst(instructions, i, k) ensures PanicsFirst(instructions, i + 1, k) {
    }
    if Repair(instructions, i + 1).Err? {
      var k :| PanicsFirst(instructions, i + 1, k) &&
               Repair(instructions, i + 1).error == TryPatch(instructions, k).value.error;
      assert PanicsFirst(instructions, i, k);
    }
  }

  /** The patch never touches an `acc` and changes nothing else. */
  lemma PatchOnlyFlips(instructions: seq<Instruction>, i: nat)
    requires i < |instructions| && Fixes(instructions, i)
    ensures instructions[i].operation != Acc
    ensures var p := Patch(instructions, i, Flip(instructions[i].operation).value);
      p[i].operation != instructions[i].operation && p[i].operation != Acc &&
      forall k :: 0 <= k < |p| && k != i ==> p[k] == instructions[k]
  {
  }
}
