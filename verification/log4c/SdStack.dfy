/** log4c's stack in an array that grows by doubling and shrinks by halving. */
module SdStack {
  const INIT_SIZE := 32
  const INT_MAX := 0x7FFF_FFFF
  const NULL := 0

  /** `Aborted`: the `assert` of the code fails. */
  datatype Outcome = Pushed | Refused | Aborted

  function SizeAfterGrowth(size: nat, max: nat): nat {
    if size * 2 > max then max else size * 2
  }

  /** How many slots `realloc` copies from an array of `before` slots to one of `after`. */
  function Kept(before: nat, after: nat): nat {
    if before < after then before else after
  }

  /** What later resizes may still cost, at 2 for every operation so far. */
  function Potential(sp: nat, size: nat, max: nat): nat {
    if size < max && sp > size / 2 then 2 * (sp - size / 2)
    else if size >= INIT_SIZE * 4 && sp < size / 2 then 2 * (size / 2 - sp)
    else 0
  }

  lemma GrowthIsPaid(size: nat, max: nat)
    requires INIT_SIZE <= size < max
    ensures var grown := SizeAfterGrowth(size, max);
            size < grown <= max && size + Potential(size, grown, max) <= Potential(size, size, max)
  {
  }

  lemma ShrinkIsPaid(sp: nat, size: nat, max: nat)
    requires INIT_SIZE * 4 <= size <= max && sp < size / 4
    ensures sp <= size / 2 && size / 2 + Potential(sp, size / 2, max) <= Potential(sp, size, max)
  {
  }

  lemma MoveCosts(sp: nat, size: nat, max: nat)
    requires size <= max
    ensures Potential(sp + 1, size, max) <= Potential(sp, size, max) + 2
    ensures sp > 0 ==> Potential(sp - 1, size, max) <= Potential(sp, size, max) + 2
  {
  }

  datatype Op = Put(data: int) | Take

  datatype Answer = Yes | No | Got(data: int)

  /** The list that a limited stack is, the last element on top, and the answer to each operation. */
  function Step(s: seq<int>, op: Op, max: nat): (seq<int>, Answer) {
    match op
    case Put(x) => if |s| == max then (s, No) else (s + [x], Yes)
    case Take => if s == [] then (s, Got(NULL)) else (s[..|s| - 1], Got(s[|s| - 1]))
  }

  class Stack {
    const max: nat
    var sp: nat
    var size: nat
    var slots: array<int>
    /** How many slots `realloc` has copied, and how many operations there were. */
    ghost var moves: nat
    ghost var steps: nat

    ghost predicate Valid()
      reads this
    {
      sp <= size == slots.Length
      && (max >= INIT_SIZE ==> INIT_SIZE <= size <= max && moves + Potential(sp, size, max) <= 2 * steps)
      && (max < INIT_SIZE ==> size == INIT_SIZE)
    }

    ghost function Contents(): seq<int>
      requires Valid()
      reads this, slots
    {
      slots[..sp]
    }

    /** `sd_stack_new`; 0 stands for no limit. */
    constructor (max: nat)
      ensures Valid() && fresh(slots) && Contents() == [] && steps == 0 && moves == 0
      ensures this.max == if max == 0 then INT_MAX else max
    {
      this.max := if max == 0 then INT_MAX else max;
      sp, size, slots := 0, INIT_SIZE, new int[INIT_SIZE];
      moves, steps := 0, 0;
    }

    /** `sd_realloc` of the array to `size`, which has just been changed. */
    method Realloc()
      modifies this`slots, this`moves
      ensures fresh(slots) && slots.Length == size
      ensures var kept := Kept(old(slots.Length), size);
              slots[..kept] == old(slots[..kept]) && moves == old(moves) + kept
    {
      var kept := Kept(slots.Length, size);
      var next := new int[size];
      forall i | 0 <= i < kept {
        next[i] := slots[i];
      }
      moves := moves + kept;
      slots := next;
    }

    /** `sd_stack_push`. */
    method Push(data: int) returns (rc: Outcome)
      requires Valid()
      modifies this, slots
      ensures slots == old(slots) || fresh(slots)
      ensures moves == old(moves) + if slots == old(slots) then 0 else Kept(old(slots.Length), slots.Length)
      ensures rc.Aborted? <==> old(sp) == INIT_SIZE && max < INIT_SIZE
      ensures rc.Refused? <==> old(sp) == max && max >= INIT_SIZE
      ensures !rc.Aborted? ==> Valid() && steps == old(steps) + 1
      ensures rc.Aborted? ==> sp == old(sp)
      ensures rc.Refused? ==> Contents() == old(Contents())
      ensures rc.Pushed? ==> Contents() == old(Contents()) + [data]
    {
      hide Potential;
      steps := steps + 1;
      if sp == size {
        if size == max {
          return Refused;
        }
        if max >= INIT_SIZE {
          GrowthIsPaid(size, max);
        }
        var newSize := if size * 2 > max then max else size * 2;
        size := newSize;
        Realloc();
      }
      if !(sp <= size) {
        return Aborted;
      }
      if max >= INIT_SIZE {
        MoveCosts(sp, size, max);
      }
      slots[sp] := data;
      sp := sp + 1;
      return Pushed;
    }

    /** `sd_stack_pop`. */
    method Pop() returns (data: int)
      requires Valid()
      modifies this, slots
      ensures Valid() && (slots == old(slots) || fresh(slots)) && steps == old(steps) + 1
      ensures moves == old(moves) + if slots == old(slots) then 0 else Kept(old(slots.Length), slots.Length)
      ensures old(Contents()) == [] ==> data == NULL && Contents() == []
      ensures old(Contents()) != [] ==> old(Contents()) == Contents() + [data]
    {
      hide Potential;
      steps := steps + 1;
      if sp == 0 {
        return NULL;
      }
      if size >= INIT_SIZE * 4 && sp < size / 4 {
        ShrinkIsPaid(sp, size, max);
        var newSize := size / 2;
        size := newSize;
        Realloc();
      }
      if max >= INIT_SIZE {
        MoveCosts(sp, size, max);
      }
      assert slots[..sp] == old(slots[..sp]) == slots[..sp - 1] + [slots[sp - 1]];
      sp := sp - 1;
      return slots[sp];
    }

    /** `sd_stack_peek`. */
    method Peek() returns (data: int)
      requires Valid()
      ensures data == if Contents() == [] then NULL else Contents()[|Contents()| - 1]
    {
      if sp == 0 {
        return NULL;
      }
      return slots[sp - 1];
    }

    lemma Bounds()
      requires Valid() && max >= INIT_SIZE
      ensures INIT_SIZE <= size <= max && moves <= 2 * steps
    {
    }

    /** One operation of a run. */
    method Do(op: Op) returns (answer: Answer)
      requires Valid() && max >= INIT_SIZE
      modifies this, slots
      ensures Valid() && (slots == old(slots) || fresh(slots)) && steps == old(steps) + 1
      ensures moves == old(moves) + if slots == old(slots) then 0 else Kept(old(slots.Length), slots.Length)
      ensures (Contents(), answer) == Step(old(Contents()), op, max)
    {
      match op {
        case Put(x) =>
          var rc := Push(x);
          answer := if rc.Refused? then No else Yes;
        case Take =>
          var x := Pop();
          answer := Got(x);
      }
    }
  }

  function Run(s: seq<int>, ops: seq<Op>, max: nat): seq<int> {
    if ops == [] then s else Step(Run(s, ops[..|ops| - 1], max), ops[|ops| - 1], max).0
  }

  /** Any run of pushes and pops on a stack with no limit or a limit of 32 or more. */
  method Replay(max: nat, ops: seq<Op>) returns (stack: Stack, answers: seq<Answer>)
    requires max == 0 || max >= INIT_SIZE
    ensures fresh(stack) && stack.Valid() && stack.Contents() == Run([], ops, stack.max)
    ensures stack.max == if max == 0 then INT_MAX else max
    ensures |answers| == |ops|
    ensures forall i :: 0 <= i < |ops| ==> answers[i] == Step(Run([], ops[..i], stack.max), ops[i], stack.max).1
    ensures INIT_SIZE <= stack.size <= stack.max && stack.moves <= 2 * |ops|
  {
    hide Stack.Valid, Stack.Contents, Step;
    stack := new Stack(max);
    answers := [];
    while |answers| < |ops|
      invariant |answers| <= |ops|
      invariant fresh(stack) && fresh(stack.slots) && stack.Valid() && stack.steps == |answers|
      invariant stack.max == if max == 0 then INT_MAX else max
      invariant stack.Contents() == Run([], ops[..|answers|], stack.max)
      invariant forall i :: 0 <= i < |answers| ==> answers[i] == Step(Run([], ops[..i], stack.max), ops[i], stack.max).1
    {
      var k := |answers|;
      assert ops[..k + 1][..k] == ops[..k];
      var answer := stack.Do(ops[k]);
      answers := answers + [answer];
    }
    assert ops[..|ops|] == ops;
    stack.Bounds();
  }

  /** A limit of 1 to 31 is not kept: 32 elements go in, and the next push fails the assertion. */
  method FillSmall(max: nat, data: int) returns (stack: Stack, rc: Outcome)
    requires 0 < max < INIT_SIZE
    ensures fresh(stack) && stack.sp == INIT_SIZE > stack.max == max && rc == Aborted
  {
    stack := new Stack(max);
    while stack.sp < INIT_SIZE
      invariant fresh(stack) && fresh(stack.slots) && stack.Valid() && stack.max == max
      invariant stack.sp <= INIT_SIZE
      decreases INIT_SIZE - stack.sp
    {
      ghost var before := |stack.Contents()|;
      rc := stack.Push(data);
      assert |stack.Contents()| == before + 1;
    }
    rc := stack.Push(data);
  }

  /** Last in, first out. */
  lemma PopUndoesPush(s: seq<int>, ops: seq<Op>, x: int, max: nat)
    ensures var t := Run(s, ops, max);
            |t| != max ==> Run(s, ops + [Put(x), Take], max) == t && Step(Run(s, ops + [Put(x)], max), Take, max).1 == Got(x)
  {
    var put, take := ops + [Put(x)], ops + [Put(x), Take];
    assert put[..|put| - 1] == ops && take[..|take| - 1] == put;
  }

  lemma {:induction false} NeverAboveMax(ops: seq<Op>, max: nat)
    ensures |Run([], ops, max)| <= max
  {
    if ops != [] {
      NeverAboveMax(ops[..|ops| - 1], max);
    }
  }
}
