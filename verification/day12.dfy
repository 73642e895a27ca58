/** Rain risk (src/day12.rs). A ship follows N/S/E/W/L/R/F instructions.
    Part 1 moves the ship itself and turns its heading in quarter turns;
    part 2 moves a waypoint, rotates it by rotating its four components, and
    F moves the ship towards the waypoint. Positions are the four
    non-negative counters [north, east, south, west], as the source keeps
    them; the distance is |west - east| + |north - south|. `usize`/`i32`
    widths and the `as` casts between them are not modelled, except that a
    negative heading stays negative (what the casts do for small values). */
module Day12 {
  import opened Wrappers
  import Text

  const NORTH: nat := 0
  const EAST: nat := 1
  const SOUTH: nat := 2
  const WEST: nat := 3

  /** The four counters, indexed by NORTH, EAST, SOUTH and WEST. */
  type Position = p: seq<nat> | |p| == 4 witness [0, 0, 0, 0]

  datatype Instruction =
    | MoveNorth(value: nat)
    | MoveSouth(value: nat)
    | MoveEast(value: nat)
    | MoveWest(value: nat)
    | TurnLeft(value: nat)
    | TurnRight(value: nat)
    | MoveForward(value: nat)

  // ---------------------------------------------------------------------------
  // Parsing
  // ---------------------------------------------------------------------------

  /** The action code an instruction is written with. */
  function Code(ins: Instruction): char {
    match ins
    case MoveNorth(_) => 'N'
    case MoveSouth(_) => 'S'
    case MoveEast(_) => 'E'
    case MoveWest(_) => 'W'
    case TurnLeft(_) => 'L'
    case TurnRight(_) => 'R'
    case MoveForward(_) => 'F'
  }

  /** `Instruction::from`: the first character is the action code and the
      rest a `usize`; an empty line (the slice `[0..1]`), a bad number and an
      unknown code panic. */
  function ParseInstruction(s: string): (r: Result<Instruction>)
    ensures r.Ok? <==> 0 < |s| && s[0] in "NSEWLRF" && Text.ParseUnsigned(s[1..], Text.USIZE_MAX).Some?
    ensures r.Ok? ==> Code(r.value) == s[0] && Text.ParseUnsigned(s[1..], Text.USIZE_MAX) == Some(r.value.value)
  {
    if |s| == 0 then Err("byte index 1 is out of range")
    else
      match Text.ParseUnsigned(s[1..], Text.USIZE_MAX)
      case None => Err("invalid digit found in string")
      case Some(v) =>
        match s[0]
        case 'N' => Ok(MoveNorth(v))
        case 'S' => Ok(MoveSouth(v))
        case 'E' => Ok(MoveEast(v))
        case 'W' => Ok(MoveWest(v))
        case 'L' => Ok(TurnLeft(v))
        case 'R' => Ok(TurnRight(v))
        case 'F' => Ok(MoveForward(v))
        case _ => Err("Unexpected instruction")
  }

  /** The line an instruction is written as, e.g. "F10". */
  function Format(ins: Instruction): string {
    [Code(ins)] + Text.NatToString(ins.value)
  }

  /** Parsing the line of an instruction gives the instruction back. */
  lemma ParseFormat(ins: Instruction)
    requires ins.value <= Text.USIZE_MAX
    ensures ParseInstruction(Format(ins)) == Ok(ins)
  {
    var s := Format(ins);
    assert s[1..] == Text.NatToString(ins.value);
    Text.ParseUnsignedNatToString(ins.value, Text.USIZE_MAX);
  }

  // ---------------------------------------------------------------------------
  // Part 1: the ship and its heading
  // ---------------------------------------------------------------------------

  /** Rust's `/` on `i32`: the quotient truncated toward zero, so the
      remainder is smaller than `b` and takes the sign of `a`. */
  function Quot(a: int, b: nat): (q: int)
    requires 0 < b
    ensures 0 <= a ==> 0 <= a - q * b < b
    ensures a < 0 ==> -(b as int) < a - q * b <= 0
  {
    if a < 0 then
      var m := (-a) / b;
      assert -a == m * b + (-a) % b;
      -m
    else a / b
  }

  /** `find_direction`: the heading moved by the truncated number of quarter
      turns; a negative sum gets 4 added once, any other is taken modulo 4. */
  function FindDirection(direction: int, angle: int): (d: int)
    ensures direction + Quot(angle, 90) < 0 ==> d == direction + Quot(angle, 90) + 4
    ensures 0 <= direction + Quot(angle, 90) ==> 0 <= d < 4
  {
    var shifted := direction + Quot(angle, 90);
    if shifted < 0 then shifted + 4 else shifted % 4
  }

  /** For a heading in 0..3 and a turn of at most three quarter turns either
      way, the new heading is the old one turned modulo 4. */
  lemma FindDirectionTurns(direction: int, angle: int)
    requires 0 <= direction < 4 && -270 <= angle <= 270 && angle % 90 == 0
    ensures 0 <= FindDirection(direction, angle) < 4
    ensures FindDirection(direction, angle) == (direction + angle / 90) % 4
  {
    if angle < 0 {
      assert Quot(angle, 90) == angle / 90;
    }
  }

  /** Turning right and then left by the same angle restores the heading. */
  lemma TurnBack(direction: int, angle: int)
    requires 0 <= direction < 4 && 0 <= angle <= 270 && angle % 90 == 0
    ensures FindDirection(FindDirection(direction, angle), -angle) == direction
  {
    FindDirectionTurns(direction, angle);
    FindDirectionTurns(FindDirection(direction, angle), -angle);
  }

  datatype Ship1 = Ship1(position: Position, direction: int)

  /** `NavigationPart1::new`: at the origin, heading east. */
  function NewShip1(): (s: Ship1)
    ensures s.position == [0, 0, 0, 0] && s.direction == EAST
  {
    Ship1([0, 0, 0, 0], EAST)
  }

  /** The counters with `k` increased by `v`. */
  function Add(p: Position, k: nat, v: nat): (r: Position)
    requires k < 4
    ensures r[k] == p[k] + v && forall j :: 0 <= j < 4 && j != k ==> r[j] == p[j]
  {
    p[k := p[k] + v]
  }

  /** One instruction of `NavigationPart1::navigate`. F with a heading
      outside 0..3 is the out-of-bounds index panic. */
  function Step1(s: Ship1, ins: Instruction): (r: Result<Ship1>)
    ensures r.Err? <==> ins.MoveForward? && !(0 <= s.direction < 4)
    ensures r.Ok? && !ins.TurnLeft? && !ins.TurnRight? ==> r.value.direction == s.direction
    ensures r.Ok? && (ins.TurnLeft? || ins.TurnRight?) ==> r.value.position == s.position
    ensures r.Ok? && ins.MoveForward? ==> 0 <= s.direction < 4 && r.value.position == Add(s.position, s.direction, ins.value)
    ensures IsCompass(ins) ==> r == Ok(s.(position := Add(s.position, MoveTarget(ins), ins.value)))
    ensures ins.TurnRight? ==> r == Ok(s.(direction := FindDirection(s.direction, ins.value)))
    ensures ins.TurnLeft? ==> r == Ok(s.(direction := FindDirection(s.direction, -(ins.value as int))))
  {
    match ins
    case MoveNorth(v) => Ok(s.(position := Add(s.position, NORTH, v)))
    case MoveSouth(v) => Ok(s.(position := Add(s.position, SOUTH, v)))
    case MoveEast(v) => Ok(s.(position := Add(s.position, EAST, v)))
    case MoveWest(v) => Ok(s.(position := Add(s.position, WEST, v)))
    case TurnLeft(a) => Ok(s.(direction := FindDirection(s.direction, -(a as int))))
    case TurnRight(a) => Ok(s.(direction := FindDirection(s.direction, a)))
    case MoveForward(v) =>
      if 0 <= s.direction < 4 then Ok(s.(position := Add(s.position, s.direction, v)))
      else Err("index out of bounds")
  }

  predicate IsCompass(ins: Instruction) {
    ins.MoveNorth? || ins.MoveSouth? || ins.MoveEast? || ins.MoveWest?
  }

  /** The counter a compass move increases. */
  function MoveTarget(ins: Instruction): (k: nat)
    requires IsCompass(ins)
    ensures k < 4
  {
    match ins
    case MoveNorth(_) => NORTH
    case MoveSouth(_) => SOUTH
    case MoveEast(_) => EAST
    case MoveWest(_) => WEST
  }

  /** A compass move increases exactly its own counter. */
  lemma CompassMove(s: Ship1, ins: Instruction)
    requires IsCompass(ins)
    ensures Step1(s, ins) == Ok(Ship1(Add(s.position, MoveTarget(ins), ins.value), s.direction))
  {
  }

  /** `navigate`: the instructions in order; the first panic stops it. */
  function Navigate1(s: Ship1, instructions: seq<Instruction>): (r: Result<Ship1>)
    decreases |instructions|
  {
    if |instructions| == 0 then Ok(s)
    else
      var next :- Step1(s, instructions[0]);
      Navigate1(next, instructions[1..])
  }

  /** Navigating a route in two pieces is navigating the first, then the
      second from where the first ended; a panic in the first ends it. */
  lemma {:induction false} Navigate1Append(s: Ship1, a: seq<Instruction>, b: seq<Instruction>)
    ensures Navigate1(s, a + b) == if Navigate1(s, a).Err? then Err(Navigate1(s, a).error) else Navigate1(Navigate1(s, a).value, b)
    decreases |a|
  {
    if |a| == 0 {
      assert a + b == b;
    } else {
      assert (a + b)[0] == a[0] && (a + b)[1..] == a[1..] + b;
      var next := Step1(s, a[0]);
      if next.Ok? {
        Navigate1Append(next.value, a[1..], b);
      }
    }
  }

  /** `get_distance`, for both parts. */
  function Distance(p: Position): (d: nat)
    ensures d == Abs(p[WEST] as int - p[EAST]) + Abs(p[NORTH] as int - p[SOUTH])
  {
    Abs(p[WEST] as int - p[EAST]) + Abs(p[NORTH] as int - p[SOUTH])
  }

  function Abs(x: int): nat {
    if x < 0 then -x else x
  }

  /** The total value of the compass moves towards counter k. */
  function Total(instructions: seq<Instruction>, k: nat): nat
    requires k < 4 && forall i :: 0 <= i < |instructions| ==> IsCompass(instructions[i])
    decreases |instructions|
  {
    if |instructions| == 0 then 0
    else
      assert forall i :: 0 <= i < |instructions[1..]| ==> IsCompass(instructions[1..][i]) by {
        forall i | 0 <= i < |instructions[1..]| ensures IsCompass(instructions[1..][i]) {
          assert instructions[1..][i] == instructions[i + 1];
        }
      }
      (if MoveTarget(instructions[0]) == k then instructions[0].value else 0) + Total(instructions[1..], k)
  }

  /** The net move east and the net move north of a route's compass moves,
      each a signed sum over the route. */
  function NetEast(instructions: seq<Instruction>): int
    decreases |instructions|
  {
    if |instructions| == 0 then 0
    else
      var step := match instructions[0]
        case MoveEast(v) => v as int
        case MoveWest(v) => -(v as int)
        case _ => 0;
      step + NetEast(instructions[1..])
  }

  function NetNorth(instructions: seq<Instruction>): int
    decreases |instructions|
  {
    if |instructions| == 0 then 0
    else
      var step := match instructions[0]
        case MoveNorth(v) => v as int
        case MoveSouth(v) => -(v as int)
        case _ => 0;
      step + NetNorth(instructions[1..])
  }

  /** The per-counter totals of a compass route are its net moves. */
  lemma {:induction false} TotalsAreNet(instructions: seq<Instruction>)
    requires forall i :: 0 <= i < |instructions| ==> IsCompass(instructions[i])
    ensures NetEast(instructions) == Total(instructions, EAST) - Total(instructions, WEST)
    ensures NetNorth(instructions) == Total(instructions, NORTH) - Total(instructions, SOUTH)
    decreases |instructions|
  {
    if 0 < |instructions| {
      var rest := instructions[1..];
      assert forall i :: 0 <= i < |rest| ==> IsCompass(rest[i]) by {
        forall i | 0 <= i < |rest| ensures IsCompass(rest[i]) {
          assert rest[i] == instructions[i + 1];
        }
      }
      TotalsAreNet(rest);
    }
  }

  /** `get_distance` after a compass-only route from the start is the
      Manhattan length of the route's net displacement. */
  lemma CompassDistance(instructions: seq<Instruction>)
    requires forall i :: 0 <= i < |instructions| ==> IsCompass(instructions[i])
    ensures Navigate1(NewShip1(), instructions).Ok?
    ensures Distance(Navigate1(NewShip1(), instructions).value.position) ==
      Abs(NetEast(instructions)) + Abs(NetNorth(instructions))
  {
    CompassMovesAddUp(NewShip1(), instructions);
    TotalsAreNet(instructions);
    var p := Navigate1(NewShip1(), instructions).value.position;
    assert p[EAST] == Total(instructions, EAST) && p[WEST] == Total(instructions, WEST);
    assert p[NORTH] == Total(instructions, NORTH) && p[SOUTH] == Total(instructions, SOUTH);
    assert Abs(p[WEST] as int - p[EAST]) == Abs(NetEast(instructions));
  }

  /** Compass moves alone add up per counter and never turn the ship. */
  lemma {:induction false} CompassMovesAddUp(s: Ship1, instructions: seq<Instruction>)
    requires forall i :: 0 <= i < |instructions| ==> IsCompass(instructions[i])
    ensures Navigate1(s, instructions).Ok?
    ensures Navigate1(s, instructions).value.direction == s.direction
    ensures forall k :: 0 <= k < 4 ==>
      Navigate1(s, instructions).value.position[k] == s.position[k] + Total(instructions, k)
    decreases |instructions|
  {
    if 0 < |instructions| {
      var next := Step1(s, instructions[0]).value;
      CompassMove(s, instructions[0]);
      CompassMovesAddUp(next, instructions[1..]);
    }
  }

  /** A left turn of more than a full turn from north leaves a negative
      heading (4 is added only once), and the next F panics. */
  lemma LongLeftTurnPanics()
    ensures Step1(Ship1([0, 0, 0, 0], NORTH), TurnLeft(450)) == Ok(Ship1([0, 0, 0, 0], -1))
    ensures Step1(Ship1([0, 0, 0, 0], -1), MoveForward(1)).Err?
  {
    assert Quot(-450, 90) == -5;
  }

  /** The puzzle's example F10 N3 F7 R90 F11 ends 25 from the start. */
  lemma Example1()
    ensures Navigate1(NewShip1(), [MoveForward(10), MoveNorth(3), MoveForward(7), TurnRight(90), MoveForward(11)])
      == Ok(Ship1([3, 17, 11, 0], SOUTH))
    ensures Distance([3, 17, 11, 0]) == 25
  {
    var s0 := NewShip1();
    var s1 := Step1(s0, MoveForward(10)).value;
    assert s1 == Ship1([0, 10, 0, 0], EAST);
    var s2 := Step1(s1, MoveNorth(3)).value;
    assert s2 == Ship1([3, 10, 0, 0], EAST);
    var s3 := Step1(s2, MoveForward(7)).value;
    assert s3 == Ship1([3, 17, 0, 0], EAST);
    var s4 := Step1(s3, TurnRight(90)).value;
    assert s4 == Ship1([3, 17, 0, 0], SOUTH);
    var s5 := Step1(s4, MoveForward(11)).value;
    assert s5 == Ship1([3, 17, 11, 0], SOUTH);
    var all := [MoveForward(10), MoveNorth(3), MoveForward(7), TurnRight(90), MoveForward(11)];
    assert all[1..][1..][1..][1..][1..] == [];
  }

  // ---------------------------------------------------------------------------
  // Part 2: the waypoint
  // ---------------------------------------------------------------------------

  /** `rotate_left(k)`: component i + k moves to i. */
  function RotateLeft(p: Position, k: nat): (r: Position)
    requires k <= 4
    ensures forall i :: 0 <= i < 4 ==> r[i] == p[(i + k) % 4]
  {
    p[k..] + p[..k]
  }

  /** `rotate_right(k)`: component i moves to i + k. */
  function RotateRight(p: Position, k: nat): (r: Position)
    requires k <= 4
    ensures forall i :: 0 <= i < 4 ==> r[(i + k) % 4] == p[i]
  {
    p[4 - k..] + p[..4 - k]
  }

  /** A rotation keeps the components, only moving them. */
  lemma RotationKeepsComponents(p: Position, k: nat)
    requires k <= 4
    ensures multiset(RotateLeft(p, k)) == multiset(p) && multiset(RotateRight(p, k)) == multiset(p)
  {
    assert p == p[..k] + p[k..];
    assert p == p[..4 - k] + p[4 - k..];
  }

  /** Rotating right and then left by the same count is the identity. */
  lemma RotateRightLeft(p: Position, k: nat)
    requires k <= 4
    ensures RotateLeft(RotateRight(p, k), k) == p
  {
    var r := RotateLeft(RotateRight(p, k), k);
    forall i | 0 <= i < 4 ensures r[i] == p[i] {
      assert r[i] == RotateRight(p, k)[(i + k) % 4];
    }
  }

  /** `rotate_viewpoint`: a negative quarter-turn count rotates left, any
      other rotates right; a count above 4 is the panic of `rotate_*`. */
  function RotateWaypoint(p: Position, angle: int): (r: Result<Position>)
    ensures r.Ok? <==> -4 <= Quot(angle, 90) <= 4
    ensures r.Ok? && 0 <= Quot(angle, 90) ==> r.value == RotateRight(p, Quot(angle, 90))
    ensures r.Ok? && Quot(angle, 90) < 0 ==> r.value == RotateLeft(p, -Quot(angle, 90))
  {
    var shift := Quot(angle, 90);
    if shift < 0 then
      if -shift > 4 then Err("assertion failed: mid <= self.len()")
      else Ok(RotateLeft(p, -shift))
    else if shift > 4 then Err("assertion failed: mid <= self.len()")
    else Ok(RotateRight(p, shift))
  }

  /** A turn of the waypoint keeps its components, only moving them. */
  lemma TurnKeepsComponents(p: Position, angle: int)
    requires RotateWaypoint(p, angle).Ok?
    ensures multiset(RotateWaypoint(p, angle).value) == multiset(p)
  {
    var shift := Quot(angle, 90);
    if shift < 0 {
      RotationKeepsComponents(p, -shift);
      assert RotateWaypoint(p, angle).value == RotateLeft(p, -shift);
    } else {
      RotationKeepsComponents(p, shift);
      assert RotateWaypoint(p, angle).value == RotateRight(p, shift);
    }
  }

  /** Turning right and then left by the same angle restores the waypoint,
      and a full turn leaves it as it is. */
  lemma WaypointTurnBack(p: Position, angle: nat)
    requires angle <= 360
    ensures RotateWaypoint(p, angle).Ok?
    ensures RotateWaypoint(RotateWaypoint(p, angle).value, -(angle as int)) == Ok(p)
    ensures RotateWaypoint(p, 360) == Ok(p)
  {
    var k := angle / 90;
    assert Quot(-(angle as int), 90) == -k;
    RotateRightLeft(p, k);
    if k == 0 {
      assert RotateLeft(RotateRight(p, k), k) == RotateRight(p, 0);
    }
    assert RotateRight(p, 4) == p;
  }

  datatype Ship2 = Ship2(waypoint: Position, ship: Position)

  /** `NavigationPart2::new`: the waypoint 1 north and 10 east, the ship at
      the origin. */
  function NewShip2(): (s: Ship2)
    ensures s.waypoint[NORTH] == 1 && s.waypoint[EAST] == 10 && s.waypoint[SOUTH] == 0 && s.waypoint[WEST] == 0
    ensures s.ship == [0, 0, 0, 0]
  {
    Ship2([1, 10, 0, 0], [0, 0, 0, 0])
  }

  /** F: every ship counter grows by the waypoint's counter times `v`. */
  function Forward(ship: Position, waypoint: Position, v: nat): (r: Position)
    ensures forall i :: 0 <= i < 4 ==> r[i] == ship[i] + waypoint[i] * v
  {
    [ship[0] + waypoint[0] * v, ship[1] + waypoint[1] * v, ship[2] + waypoint[2] * v, ship[3] + waypoint[3] * v]
  }

  /** One instruction of `NavigationPart2::navigate`. */
  function Step2(s: Ship2, ins: Instruction): (r: Result<Ship2>)
    ensures r.Err? ==> ins.TurnLeft? || ins.TurnRight?
    ensures r.Ok? && !ins.MoveForward? ==> r.value.ship == s.ship
    ensures r.Ok? && ins.MoveForward? ==> r.value.waypoint == s.waypoint
    ensures IsCompass(ins) ==> r == Ok(s.(waypoint := Add(s.waypoint, MoveTarget(ins), ins.value)))
    ensures ins.MoveForward? ==> r == Ok(s.(ship := Forward(s.ship, s.waypoint, ins.value)))
    ensures ins.TurnRight? ==> (r.Ok? <==> RotateWaypoint(s.waypoint, ins.value).Ok?) &&
                               (r.Ok? ==> r.value == s.(waypoint := RotateWaypoint(s.waypoint, ins.value).value))
    ensures ins.TurnLeft? ==> (r.Ok? <==> RotateWaypoint(s.waypoint, -(ins.value as int)).Ok?) &&
                              (r.Ok? ==> r.value == s.(waypoint := RotateWaypoint(s.waypoint, -(ins.value as int)).value))
  {
    match ins
    case MoveNorth(v) => Ok(s.(waypoint := Add(s.waypoint, NORTH, v)))
    case MoveSouth(v) => Ok(s.(waypoint := Add(s.waypoint, SOUTH, v)))
    case MoveEast(v) => Ok(s.(waypoint := Add(s.waypoint, EAST, v)))
    case MoveWest(v) => Ok(s.(waypoint := Add(s.waypoint, WEST, v)))
    case TurnLeft(a) =>
      var w :- RotateWaypoint(s.waypoint, -(a as int));
      Ok(s.(waypoint := w))
    case TurnRight(a) =>
      var w :- RotateWaypoint(s.waypoint, a);
      Ok(s.(waypoint := w))
    case MoveForward(v) => Ok(s.(ship := Forward(s.ship, s.waypoint, v)))
  }

  function Navigate2(s: Ship2, instructions: seq<Instruction>): (r: Result<Ship2>)
    decreases |instructions|
  {
    if |instructions| == 0 then Ok(s)
    else
      var next :- Step2(s, instructions[0]);
      Navigate2(next, instructions[1..])
  }

  /** The same for part 2's navigation. */
  lemma {:induction false} Navigate2Append(s: Ship2, a: seq<Instruction>, b: seq<Instruction>)
    ensures Navigate2(s, a + b) == if Navigate2(s, a).Err? then Err(Navigate2(s, a).error) else Navigate2(Navigate2(s, a).value, b)
    decreases |a|
  {
    if |a| == 0 {
      assert a + b == b;
    } else {
      assert (a + b)[0] == a[0] && (a + b)[1..] == a[1..] + b;
      var next := Step2(s, a[0]);
      if next.Ok? {
        Navigate2Append(next.value, a[1..], b);
      }
    }
  }

  /** Compass moves alone add up on the waypoint and never move the ship. */
  lemma {:induction false} CompassWaypointAddsUp(s: Ship2, instructions: seq<Instruction>)
    requires forall i :: 0 <= i < |instructions| ==> IsCompass(instructions[i])
    ensures Navigate2(s, instructions).Ok?
    ensures Navigate2(s, instructions).value.ship == s.ship
    ensures forall k :: 0 <= k < 4 ==>
      Navigate2(s, instructions).value.waypoint[k] == s.waypoint[k] + Total(instructions, k)
    decreases |instructions|
  {
    if 0 < |instructions| {
      var next := Step2(s, instructions[0]).value;
      CompassWaypointAddsUp(next, instructions[1..]);
    }
  }

  /** The total of the values of a route's instructions. */
  function ValueSum(instructions: seq<Instruction>): nat
    decreases |instructions|
  {
    if |instructions| == 0 then 0 else instructions[0].value + ValueSum(instructions[1..])
  }

  /** A route of F moves only leaves the waypoint and moves the ship by the
      waypoint times the total distance flown. */
  lemma {:induction false} ForwardsAddUp(s: Ship2, instructions: seq<Instruction>)
    requires forall i :: 0 <= i < |instructions| ==> instructions[i].MoveForward?
    ensures Navigate2(s, instructions).Ok?
    ensures Navigate2(s, instructions).value.waypoint == s.waypoint
    ensures forall k :: 0 <= k < 4 ==>
      Navigate2(s, instructions).value.ship[k] == s.ship[k] + s.waypoint[k] * ValueSum(instructions)
    decreases |instructions|
  {
    if 0 < |instructions| {
      var v := instructions[0].value;
      var next := Step2(s, instructions[0]).value;
      var rest := instructions[1..];
      ForwardsAddUp(next, rest);
      var last := Navigate2(s, instructions).value;
      assert last == Navigate2(next, rest).value;
      forall k | 0 <= k < 4
        ensures last.ship[k] == s.ship[k] + s.waypoint[k] * ValueSum(instructions)
      {
        Distribute(s.waypoint[k], v, ValueSum(rest));
      }
    }
  }

  lemma Distribute(a: nat, b: nat, c: nat)
    ensures a * b + a * c == a * (b + c)
  {
  }

  /** Turns of at most a full turn never panic, so such a route is never
      cut short. */
  lemma {:induction false} ShortTurnsNavigate(s: Ship2, instructions: seq<Instruction>)
    requires forall i :: 0 <= i < |instructions| ==> instructions[i].value <= 360 || !(instructions[i].TurnLeft? || instructions[i].TurnRight?)
    ensures Navigate2(s, instructions).Ok?
    decreases |instructions|
  {
    if 0 < |instructions| {
      var ins := instructions[0];
      if ins.TurnLeft? || ins.TurnRight? {
        assert -4 <= Quot(-(ins.value as int), 90) <= 4 && -4 <= Quot(ins.value, 90) <= 4;
      }
      ShortTurnsNavigate(Step2(s, ins).value, instructions[1..]);
    }
  }

  /** A quarter turn right moves each component one place on. */
  lemma QuarterRight(p: Position)
    ensures RotateWaypoint(p, 90) == Ok([p[3], p[0], p[1], p[2]])
  {
    assert Quot(90, 90) == 1;
    assert p[3..] + p[..3] == [p[3], p[0], p[1], p[2]];
  }

  /** The route's first step, then the rest of it. */
  lemma Navigate2Step(s: Ship2, ins: Instruction, rest: seq<Instruction>, next: Ship2)
    requires Step2(s, ins) == Ok(next)
    ensures Navigate2(s, [ins] + rest) == Navigate2(next, rest)
  {
    assert ([ins] + rest)[1..] == rest;
  }

  /** The puzzle's example ends 286 from the start with the waypoint. */
  lemma Example2()
    ensures Navigate2(NewShip2(), [MoveForward(10), MoveNorth(3), MoveForward(7), TurnRight(90), MoveForward(11)])
      == Ok(Ship2([0, 4, 10, 0], [38, 214, 110, 0]))
    ensures Distance([38, 214, 110, 0]) == 286
  {
    Example2First();
    Example2Turn();
    Example2Last();
  }

  lemma Example2First()
    ensures Navigate2(NewShip2(), [MoveForward(10), MoveNorth(3), MoveForward(7), TurnRight(90), MoveForward(11)])
      == Navigate2(Ship2([4, 10, 0, 0], [38, 170, 0, 0]), [TurnRight(90), MoveForward(11)])
  {
    Example2Forward10();
    Example2North3();
    Example2Forward7();
  }

  lemma Example2Forward10()
    ensures Navigate2(NewShip2(), [MoveForward(10), MoveNorth(3), MoveForward(7), TurnRight(90), MoveForward(11)])
      == Navigate2(Ship2([1, 10, 0, 0], [10, 100, 0, 0]), [MoveNorth(3), MoveForward(7), TurnRight(90), MoveForward(11)])
  {
    Navigate2Step(NewShip2(), MoveForward(10), [MoveNorth(3), MoveForward(7), TurnRight(90), MoveForward(11)],
                  Ship2([1, 10, 0, 0], [10, 100, 0, 0]));
  }

  lemma Example2North3()
    ensures Navigate2(Ship2([1, 10, 0, 0], [10, 100, 0, 0]), [MoveNorth(3), MoveForward(7), TurnRight(90), MoveForward(11)])
      == Navigate2(Ship2([4, 10, 0, 0], [10, 100, 0, 0]), [MoveForward(7), TurnRight(90), MoveForward(11)])
  {
    var w: Position := [1, 10, 0, 0];
    assert Add(w, NORTH, 3) == [4, 10, 0, 0];
    Navigate2Step(Ship2([1, 10, 0, 0], [10, 100, 0, 0]), MoveNorth(3), [MoveForward(7), TurnRight(90), MoveForward(11)],
                  Ship2([4, 10, 0, 0], [10, 100, 0, 0]));
  }

  lemma Example2Forward7()
    ensures Navigate2(Ship2([4, 10, 0, 0], [10, 100, 0, 0]), [MoveForward(7), TurnRight(90), MoveForward(11)])
      == Navigate2(Ship2([4, 10, 0, 0], [38, 170, 0, 0]), [TurnRight(90), MoveForward(11)])
  {
    Navigate2Step(Ship2([4, 10, 0, 0], [10, 100, 0, 0]), MoveForward(7), [TurnRight(90), MoveForward(11)],
                  Ship2([4, 10, 0, 0], [38, 170, 0, 0]));
  }

  lemma Example2Turn()
    ensures Navigate2(Ship2([4, 10, 0, 0], [38, 170, 0, 0]), [TurnRight(90), MoveForward(11)])
      == Navigate2(Ship2([0, 4, 10, 0], [38, 170, 0, 0]), [MoveForward(11)])
  {
    QuarterRight([4, 10, 0, 0]);
    Navigate2Step(Ship2([4, 10, 0, 0], [38, 170, 0, 0]), TurnRight(90), [MoveForward(11)], Ship2([0, 4, 10, 0], [38, 170, 0, 0]));
  }

  lemma Example2Last()
    ensures Navigate2(Ship2([0, 4, 10, 0], [38, 170, 0, 0]), [MoveForward(11)]) == Ok(Ship2([0, 4, 10, 0], [38, 214, 110, 0]))
  {
    Navigate2Step(Ship2([0, 4, 10, 0], [38, 170, 0, 0]), MoveForward(11), [], Ship2([0, 4, 10, 0], [38, 214, 110, 0]));
  }
}
