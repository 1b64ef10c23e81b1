/**
 The priority stack of the EL3 exception-handling framework as a 32-bit set: index 0 is the
 highest priority, and the lowest set bit is the top of the stack.
 */
module EhfBits {

  import opened BitWords

  /** `__builtin_ctz`: the number of trailing zero bits. */
  function Ctz(a: nat): nat
    requires a != 0
  {
    if a % 2 == 1 then 0 else 1 + Ctz(a / 2)
  }

  /** The word whose set bits are the indices on the stack. */
  function Bits(stack: seq<nat>): nat {
    if stack == [] then 0 else Bits(stack[..|stack| - 1]) + Pow2(stack[|stack| - 1])
  }

  ghost predicate Decreasing(stack: seq<nat>) {
    forall i, j :: 0 <= i < j < |stack| ==> stack[j] < stack[i]
  }

  lemma {:induction false} AndSame(a: nat)
    ensures And(a, a) == a
  {
    if a != 0 { AndSame(a / 2); }
  }

  /** `a & (a - 1)` clears exactly the lowest set bit. */
  lemma {:induction false} ClearLowest(a: nat)
    requires a != 0
    ensures Pow2(Ctz(a)) <= a && And(a, a - 1) == a - Pow2(Ctz(a))
  {
    if a % 2 == 1 {
      AndSame(a / 2);
      assert (a - 1) / 2 == a / 2;
    } else {
      ClearLowest(a / 2);
      assert (a - 1) / 2 == a / 2 - 1;
    }
  }

  lemma {:induction false} OrZero(a: nat)
    ensures Or(a, 0) == a && Or(0, a) == a
  {
  }

  /** Setting a bit below the lowest set one adds it and makes it the lowest. */
  lemma {:induction false} SetBelow(a: nat, i: nat)
    requires a == 0 || i < Ctz(a)
    ensures Or(a, Pow2(i)) == a + Pow2(i) && Ctz(a + Pow2(i)) == i
  {
    if i == 0 {
      if a != 0 { OrZero(a / 2); }
    } else {
      SetBelow(a / 2, i - 1);
      assert (a + Pow2(i)) / 2 == a / 2 + Pow2(i - 1);
    }
  }

  /** On a decreasing stack, `ctz` is the top, and popping the top clears the lowest set bit. */
  lemma {:induction false} StackAsBits(stack: seq<nat>)
    requires Decreasing(stack) && stack != []
    ensures Bits(stack) != 0 && Ctz(Bits(stack)) == stack[|stack| - 1]
    ensures And(Bits(stack), Bits(stack) - 1) == Bits(stack[..|stack| - 1])
  {
    var rest, top := stack[..|stack| - 1], stack[|stack| - 1];
    if rest != [] {
      StackAsBits(rest);
      assert rest[|rest| - 1] > top;
    }
    SetBelow(Bits(rest), top);
    ClearLowest(Bits(stack));
  }

  lemma PushDecreases(stack: seq<nat>, i: nat)
    requires Decreasing(stack) && (stack != [] ==> i < stack[|stack| - 1])
    ensures Decreasing(stack + [i])
  {
  }

  /** Pushing a smaller index sets its bit. */
  lemma PushSetsBit(stack: seq<nat>, i: nat)
    requires Decreasing(stack) && (stack != [] ==> i < stack[|stack| - 1])
    ensures Bits(stack + [i]) == Or(Bits(stack), Pow2(i))
  {
    var pushed := stack + [i];
    assert pushed[..|pushed| - 1] == stack && pushed[|pushed| - 1] == i;
    if stack != [] { StackAsBits(stack); }
    SetBelow(Bits(stack), i);
  }

  /** The word of a decreasing stack holds the indices below `top` once at most. */
  lemma {:induction false} BitsBelow(stack: seq<nat>, top: nat)
    requires Decreasing(stack) && (stack != [] ==> stack[0] < top)
    ensures Bits(stack) < Pow2(top)
    decreases top
  {
    if stack != [] {
      assert stack[0] <= top - 1;
      BitsTail(stack);
      assert Decreasing(stack[1..]);
      Pow2Monotone(stack[0], top - 1);
      BitsBelow(stack[1..], stack[0]);
    }
  }

  lemma {:induction false} BitsTail(stack: seq<nat>)
    requires stack != []
    ensures Bits(stack) == Pow2(stack[0]) + Bits(stack[1..])
  {
    if |stack| > 1 {
      BitsTail(stack[..|stack| - 1]);
      assert stack[..|stack| - 1][1..] == stack[1..][..|stack| - 2];
      assert stack[1..][|stack| - 2] == stack[|stack| - 1];
    }
  }

  /** Two decreasing stacks with the same word are the same stack: the bits lose nothing. */
  lemma {:induction false} BitsDetermineStack(a: seq<nat>, b: seq<nat>)
    requires Decreasing(a) && Decreasing(b) && Bits(a) == Bits(b)
    ensures a == b
  {
    if a != [] { StackAsBits(a); }
    if b != [] { StackAsBits(b); }
    if a != [] && b != [] {
      BitsDetermineStack(a[..|a| - 1], b[..|b| - 1]);
      assert a == a[..|a| - 1] + [a[|a| - 1]] && b == b[..|b| - 1] + [b[|b| - 1]];
    }
  }
}
