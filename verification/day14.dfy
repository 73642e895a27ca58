/** Docking data (src/day14.rs). A program of `mask = ...` and
    `mem[address] = value` instructions writes 36-bit values to memory. A mask
    is read from its last character on: character p from the end governs bit
    p. Part 1 overwrites the bits of each value where the mask says '0' or
    '1'; part 2 instead sets the address bits where the mask says '1' and
    lets every 'X' bit of the address float, writing the value to all 2^k
    addresses that result. Both parts report the sum of the memory.

    The instructions are taken as already parsed. `set_bit` and `check_bit`
    (called from src/utils.rs, whose shown text does not define them) are
    taken to set and test one bit, as `Bits.SetBit` and `Bits.Bit` do. */
module Day14 {
  import opened Wrappers
  import opened Bits
  import MapSum

  datatype Instruction = Mask(mask: string) | Mem(address: nat, value: nat)

  /** The mask character governing bit `p`. */
  function MaskBit(mask: string, p: nat): char
    requires p < |mask|
  {
    mask[|mask| - 1 - p]
  }

  // ---------------------------------------------------------------------------
  // Part 1
  // ---------------------------------------------------------------------------

  /** The bit `apply_mask_part1` leaves at position `q`. */
  predicate Masked1Bit(value: nat, mask: string, q: nat) {
    if q < |mask| && MaskBit(mask, q) != 'X' then MaskBit(mask, q) == '1' else Bit(value, q)
  }

  /** The loop of `apply_mask_part1` from bit `p` on. */
  function Mask1From(value: nat, mask: string, p: nat): (r: nat)
    requires p <= |mask|
    ensures forall q: nat :: q < p ==> Bit(r, q) == Bit(value, q)
    ensures forall q: nat :: p <= q ==> Bit(r, q) == Masked1Bit(value, mask, q)
    decreases |mask| - p
  {
    if p == |mask| then value
    else
      var c := MaskBit(mask, p);
      var v := if c != 'X' then SetBit(value, p, c == '1') else value;
      var r := Mask1From(v, mask, p + 1);
      assert forall q: nat :: p + 1 <= q ==> Masked1Bit(v, mask, q) == Masked1Bit(value, mask, q);
      r
  }

  /** `apply_mask_part1`: bit p becomes the mask's bit where the mask has
      '0' or '1' there, and stays where it has 'X' or where the mask has
      ended. Any character other than '1' and 'X' clears the bit. */
  function ApplyMask1(value: nat, mask: string): (r: nat)
    ensures forall q: nat :: Bit(r, q) == Masked1Bit(value, mask, q)
  {
    Mask1From(value, mask, 0)
  }

  /** Masking twice is masking once. */
  lemma ApplyMask1Idempotent(value: nat, mask: string)
    ensures ApplyMask1(ApplyMask1(value, mask), mask) == ApplyMask1(value, mask)
  {
    var once := ApplyMask1(value, mask);
    forall q: nat ensures Bit(ApplyMask1(once, mask), q) == Bit(once, q) {
    }
    BitsEqual(ApplyMask1(once, mask), once);
  }

  /** The empty mask, in force before the first `mask` instruction, changes
      nothing. */
  lemma EmptyMaskIdentity(value: nat)
    ensures ApplyMask1(value, "") == value
  {
    BitsEqual(ApplyMask1(value, ""), value);
  }

  /** The mask in force and the memory. */
  datatype Machine = Machine(mask: string, mem: map<nat, nat>)

  const START: Machine := Machine("", map[])

  /** One instruction of `run_part1`. */
  function Step1(m: Machine, ins: Instruction): (r: Machine)
    ensures ins.Mask? ==> r.mask == ins.mask && r.mem == m.mem
    ensures ins.Mem? ==> r.mask == m.mask && r.mem.Keys == m.mem.Keys + {ins.address}
    ensures ins.Mem? ==> r.mem[ins.address] == ApplyMask1(ins.value, m.mask)
    ensures ins.Mem? ==> forall a :: a in m.mem && a != ins.address ==> r.mem[a] == m.mem[a]
  {
    match ins
    case Mask(mask) => m.(mask := mask)
    case Mem(address, value) => m.(mem := m.mem[address := ApplyMask1(value, m.mask)])
  }

  /** `run_part1` over the instructions in order, from the empty mask and
      memory. */
  function Run1(instructions: seq<Instruction>): Machine
    decreases |instructions|
  {
    if |instructions| == 0 then START
    else Step1(Run1(instructions[..|instructions| - 1]), instructions[|instructions| - 1])
  }

  /** The mask of the last `mask` instruction before position `i`, or the
      empty mask. */
  function MaskBefore(instructions: seq<Instruction>, i: nat): string
    requires i <= |instructions|
  {
    if i == 0 then ""
    else if instructions[i - 1].Mask? then instructions[i - 1].mask
    else MaskBefore(instructions, i - 1)
  }

  predicate WritesTo(ins: Instruction, a: nat) {
    ins.Mem? && ins.address == a
  }

  /** Instruction `i` is the last write to address `a`. */
  predicate LastWrite(instructions: seq<Instruction>, a: nat, i: nat) {
    i < |instructions| && WritesTo(instructions[i], a) &&
    forall j :: i < j < |instructions| ==> !WritesTo(instructions[j], a)
  }

  /** After `run_part1` the mask is the one of the last `mask` instruction,
      the memory holds exactly the addresses written, and each holds the
      value of its last write under the mask in force then. */
  lemma {:induction false} Run1Memory(instructions: seq<Instruction>)
    ensures Run1(instructions).mask == MaskBefore(instructions, |instructions|)
    ensures forall a :: a in Run1(instructions).mem <==> exists i :: 0 <= i < |instructions| && WritesTo(instructions[i], a)
    ensures forall a, i: nat :: LastWrite(instructions, a, i) ==>
      a in Run1(instructions).mem && Run1(instructions).mem[a] == ApplyMask1(instructions[i].value, MaskBefore(instructions, i))
    decreases |instructions|
  {
    var n := |instructions|;
    if n > 0 {
      var prefix := instructions[..n - 1];
      Run1Memory(prefix);
      MaskBeforePrefix(instructions, n - 1);
      forall a ensures a in Run1(instructions).mem <==> exists i :: 0 <= i < n && WritesTo(instructions[i], a) {
        if a in Run1(prefix).mem {
          var i :| 0 <= i < n - 1 && WritesTo(prefix[i], a);
          assert WritesTo(instructions[i], a);
        }
        if i :| 0 <= i < n && WritesTo(instructions[i], a) {
          if i < n - 1 {
            assert WritesTo(prefix[i], a);
          }
        }
      }
      forall a, i: nat | LastWrite(instructions, a, i)
        ensures a in Run1(instructions).mem && Run1(instructions).mem[a] == ApplyMask1(instructions[i].value, MaskBefore(instructions, i))
      {
        if i < n - 1 {
          assert LastWrite(prefix, a, i) by {
            forall j | i < j < n - 1 ensures !WritesTo(prefix[j], a) {
              assert prefix[j] == instructions[j];
            }
          }
        }
      }
    }
  }

  /** The masks before position `i` agree on a longer program. */
  lemma {:induction false} MaskBeforePrefix(instructions: seq<Instruction>, n: nat)
    requires n <= |instructions|
    ensures forall i :: 0 <= i <= n ==> MaskBefore(instructions[..n], i) == MaskBefore(instructions, i)
    decreases n
  {
    if 0 < n {
      MaskBeforePrefix(instructions, n - 1);
      forall i | 0 <= i <= n ensures MaskBefore(instructions[..n], i) == MaskBefore(instructions, i) {
        if i == n {
          assert instructions[..n][n - 1] == instructions[n - 1];
          if !instructions[n - 1].Mask? {
            assert instructions[..n][..n - 1] == instructions[..n - 1];
            MaskBeforePrefix(instructions[..n], n - 1);
          }
        } else {
          MaskBeforePrefix(instructions[..n], i);
          MaskBeforePrefix(instructions, i);
          assert instructions[..n][..i] == instructions[..i];
        }
      }
    }
  }

  /** `self.mem.values().sum()`. */
  method SumMemory(mem: map<nat, nat>) returns (total: nat)
    ensures total == MapSum.SumValues(mem)
  {
    total := 0;
    var rest := mem;
    while rest != map[]
      invariant MapSum.SumValues(mem) == total + MapSum.SumValues(rest)
      decreases |rest|
    {
      var a :| a in rest;
      MapSum.SumValuesRemove(rest, a);
      total := total + rest[a];
      rest := rest - {a};
    }
  }

  /** The answer of part 1. */
  method Part1(instructions: seq<Instruction>) returns (total: nat)
    ensures total == MapSum.SumValues(Run1(instructions).mem)
  {
    var m := START;
    for i := 0 to |instructions|
      invariant m == Run1(instructions[..i])
    {
      assert instructions[..i + 1][..i] == instructions[..i];
      m := Step1(m, instructions[i]);
    }
    assert instructions[..|instructions|] == instructions;
    total := SumMemory(m.mem);
  }

  // ---------------------------------------------------------------------------
  // Part 2
  // ---------------------------------------------------------------------------

  /** The positions p >= `from` whose mask character is 'X', in increasing
      order: `x_bit_positions`. */
  function Floating(mask: string, from: nat): (xs: seq<nat>)
    requires from <= |mask|
    ensures forall i :: 0 <= i < |xs| ==> from <= xs[i] < |mask| && MaskBit(mask, xs[i]) == 'X'
    ensures forall q :: from <= q < |mask| && MaskBit(mask, q) == 'X' ==> q in xs
    ensures forall i, j :: 0 <= i < j < |xs| ==> xs[i] < xs[j]
    decreases |mask| - from
  {
    if from == |mask| then []
    else
      var rest := Floating(mask, from + 1);
      if MaskBit(mask, from) == 'X' then [from] + rest else rest
  }

  /** The address with the bits set where the mask has '1', from bit `p` on:
      `masked_address`. */
  function Mask2From(address: nat, mask: string, p: nat): (r: nat)
    requires p <= |mask|
    ensures forall q: nat :: Bit(r, q) == (if p <= q < |mask| && MaskBit(mask, q) == '1' then true else Bit(address, q))
    decreases |mask| - p
  {
    if p == |mask| then address
    else
      var v := if MaskBit(mask, p) == '1' then SetBit(address, p, true) else address;
      Mask2From(v, mask, p + 1)
  }

  /** The inner loop of `apply_mask_part2` from `j` on: bit `xs[j]` of the
      address becomes bit `j` of `num`. */
  function Assign(address: nat, xs: seq<nat>, num: nat, j: nat): (r: nat)
    requires j <= |xs|
    requires forall i, k :: 0 <= i < k < |xs| ==> xs[i] < xs[k]
    ensures forall i :: j <= i < |xs| ==> Bit(r, xs[i]) == Bit(num, i)
    ensures forall q: nat :: q !in xs[j..] ==> Bit(r, q) == Bit(address, q)
    decreases |xs| - j
  {
    if j == |xs| then address
    else
      var v := SetBit(address, xs[j], Bit(num, j));
      var r := Assign(v, xs, num, j + 1);
      assert xs[j..] == [xs[j]] + xs[j + 1..];
      assert xs[j] !in xs[j + 1..];
      r
  }

  /** `apply_mask_part2`: one address for each `num` below 2^k, k the number
      of 'X' characters. `2_u16.pow(k)` overflows from k = 16 on. */
  function Addresses(address: nat, mask: string): (r: Result<seq<nat>>)
    ensures r.Ok? <==> |Floating(mask, 0)| < 16
    ensures r.Ok? ==> |r.value| == Pow2(|Floating(mask, 0)|)
  {
    var xs := Floating(mask, 0);
    if 16 <= |xs| then Err("attempt to multiply with overflow")
    else
      var base := Mask2From(address, mask, 0);
      Ok(seq(Pow2(|xs|), num requires 0 <= num => Assign(base, xs, num, 0)))
  }

  /** Address `n` of the list is `num = n` spread over the floating bits. */
  lemma AddressAt(address: nat, mask: string, n: nat)
    requires |Floating(mask, 0)| < 16 && n < Pow2(|Floating(mask, 0)|)
    ensures Addresses(address, mask).value[n] == Assign(Mask2From(address, mask, 0), Floating(mask, 0), n, 0)
  {
  }

  /** Address `a` has, at every position whose mask character is not 'X',
      bit 1 under a '1' and the bit of `address` otherwise. */
  ghost predicate FixedBits(address: nat, mask: string, a: nat) {
    forall q: nat :: !(q < |mask| && MaskBit(mask, q) == 'X') ==>
      Bit(a, q) == if q < |mask| && MaskBit(mask, q) == '1' then true else Bit(address, q)
  }

  /** Every generated address has the mask's 1 bits set and the address's
      bits where the mask has '0' or has ended. */
  lemma AddressesFixedBits(address: nat, mask: string)
    requires |Floating(mask, 0)| < 16
    ensures forall n :: 0 <= n < |Addresses(address, mask).value| ==> FixedBits(address, mask, Addresses(address, mask).value[n])
  {
    var xs := Floating(mask, 0);
    var addrs := Addresses(address, mask).value;
    var base := Mask2From(address, mask, 0);
    assert xs[0..] == xs;
    forall n | 0 <= n < |addrs| ensures FixedBits(address, mask, addrs[n]) {
      AddressAt(address, mask, n);
      forall q: nat | !(q < |mask| && MaskBit(mask, q) == 'X')
        ensures Bit(addrs[n], q) == Bit(base, q)
      {
        assert q !in xs;
      }
    }
  }

  /** The generated addresses are pairwise different. */
  lemma AddressesDistinct(address: nat, mask: string)
    requires |Floating(mask, 0)| < 16
    ensures forall n, m :: 0 <= n < m < |Addresses(address, mask).value| ==>
      Addresses(address, mask).value[n] != Addresses(address, mask).value[m]
  {
    var xs := Floating(mask, 0);
    var addrs := Addresses(address, mask).value;
    forall n, m | 0 <= n < m < |addrs| ensures addrs[n] != addrs[m] {
      var j := LowBitsDiffer(n, m, |xs|);
      AddressAt(address, mask, n);
      AddressAt(address, mask, m);
      assert Bit(addrs[n], xs[j]) == Bit(n, j);
      assert Bit(addrs[m], xs[j]) == Bit(m, j);
    }
  }

  /** Every choice of the floating bits is generated: an address that has the
      mask's fixed bits everywhere else is in the list. */
  lemma AddressesCover(address: nat, mask: string, target: nat)
    requires |Floating(mask, 0)| < 16
    requires FixedBits(address, mask, target)
    ensures target in Addresses(address, mask).value
  {
    var xs := Floating(mask, 0);
    var addrs := Addresses(address, mask).value;
    var bits := seq(|xs|, i requires 0 <= i < |xs| => Bit(target, xs[i]));
    var num := FromBits(bits);
    AddressAt(address, mask, num);
    var found := addrs[num];
    assert xs[0..] == xs;
    forall q: nat ensures Bit(found, q) == Bit(target, q) {
      if q in xs {
        var i :| 0 <= i < |xs| && xs[i] == q;
        assert Bit(num, i) == bits[i];
      }
    }
    BitsEqual(found, target);
  }

  /** Writes `value` at every address of the list, in order. */
  function StoreAll(mem: map<nat, nat>, addresses: seq<nat>, value: nat): (r: map<nat, nat>)
    ensures r.Keys == mem.Keys + set a | a in addresses
    ensures forall a :: a in addresses ==> r[a] == value
    ensures forall a :: a in mem && a !in addresses ==> r[a] == mem[a]
    decreases |addresses|
  {
    if |addresses| == 0 then mem
    else StoreAll(mem[addresses[0] := value], addresses[1..], value)
  }

  /** One instruction of `run_part2`: a write stores the value at every
      address `apply_mask_part2` generates and leaves the rest alone. */
  function Step2(m: Machine, ins: Instruction): (r: Result<Machine>)
    ensures r.Err? <==> ins.Mem? && Addresses(ins.address, m.mask).Err?
    ensures r.Ok? && ins.Mask? ==> r.value == Machine(ins.mask, m.mem)
    ensures r.Ok? && ins.Mem? ==> r.value.mask == m.mask
    ensures r.Ok? && ins.Mem? ==>
      forall a :: a in Addresses(ins.address, m.mask).value ==> a in r.value.mem && r.value.mem[a] == ins.value
    ensures r.Ok? && ins.Mem? ==>
      forall a :: a in m.mem && a !in Addresses(ins.address, m.mask).value ==> a in r.value.mem && r.value.mem[a] == m.mem[a]
    ensures r.Ok? && ins.Mem? ==>
      forall a :: a in r.value.mem ==> a in m.mem || a in Addresses(ins.address, m.mask).value
  {
    match ins
    case Mask(mask) => Ok(m.(mask := mask))
    case Mem(address, value) =>
      var addrs := Addresses(address, m.mask);
      if addrs.Err? then Err(addrs.error)
      else Ok(m.(mem := StoreAll(m.mem, addrs.value, value)))
  }

  /** `run_part2` over the instructions in order. */
  function Run2(instructions: seq<Instruction>): Result<Machine>
    decreases |instructions|
  {
    if |instructions| == 0 then Ok(START)
    else
      var m :- Run2(instructions[..|instructions| - 1]);
      Step2(m, instructions[|instructions| - 1])
  }

  /** The answer of part 2. */
  method Part2(instructions: seq<Instruction>) returns (r: Result<nat>)
    ensures r.Ok? <==> Run2(instructions).Ok?
    ensures r.Ok? ==> r.value == MapSum.SumValues(Run2(instructions).value.mem)
  {
    var m := START;
    for i := 0 to |instructions|
      invariant Run2(instructions[..i]) == Ok(m)
    {
      assert instructions[..i + 1][..i] == instructions[..i];
      var next := Step2(m, instructions[i]);
      if next.Err? {
        Run2Stuck(instructions, i + 1);
        return Err(next.error);
      }
      m := next.value;
    }
    assert instructions[..|instructions|] == instructions;
    var total := SumMemory(m.mem);
    return Ok(total);
  }

  /** Instruction `i` writes under a mask with 16 or more 'X', the case in
      which `run_part2` panics. */
  predicate Overflows(instructions: seq<Instruction>, i: nat) {
    i < |instructions| && instructions[i].Mem? &&
    16 <= |Floating(MaskBefore(instructions, i), 0)|
  }

  /** `run_part2` panics exactly when some write comes under a mask with 16
      or more 'X'; otherwise the mask at the end is the last one given. */
  lemma {:induction false} Run2Outcome(instructions: seq<Instruction>)
    ensures Run2(instructions).Err? <==> exists i :: Overflows(instructions, i)
    ensures Run2(instructions).Ok? ==> Run2(instructions).value.mask == MaskBefore(instructions, |instructions|)
    decreases |instructions|
  {
    if 0 < |instructions| {
      var n := |instructions| - 1;
      var prefix := instructions[..n];
      Run2Outcome(prefix);
      MaskBeforePrefix(instructions, n);
      assert forall i :: 0 <= i < n ==> (Overflows(prefix, i) <==> Overflows(instructions, i));
      if Run2(prefix).Ok? {
        assert forall i :: 0 <= i < n ==> !Overflows(instructions, i);
        var m := Run2(prefix).value;
        assert m.mask == MaskBefore(instructions, n);
        assert Run2(instructions) == Step2(m, instructions[n]);
        assert Step2(m, instructions[n]).Err? <==> Overflows(instructions, n);
        if Run2(instructions).Err? {
          assert Overflows(instructions, n);
        }
      } else {
        var i :| Overflows(prefix, i);
        assert Overflows(instructions, i);
      }
    }
  }

  /** Once a prefix fails, the whole program fails. */
  lemma {:induction false} Run2Stuck(instructions: seq<Instruction>, n: nat)
    requires n <= |instructions| && Run2(instructions[..n]).Err?
    ensures Run2(instructions).Err?
    decreases |instructions| - n
  {
    if n < |instructions| {
      assert instructions[..n + 1][..n] == instructions[..n];
      Run2Stuck(instructions, n + 1);
    } else {
      assert instructions[..n] == instructions;
    }
  }
}
