/**
 * What the sixteen operations of data processing compute (instructions.c:252-346): the arithmetic ones as numbers, the
 * logical ones bit by bit, and that the source's formula for V is the overflow of signed numbers.
 */
module ArmAlu {
  import opened Prelude
  import opened ArmWords
  import opened ArmBits
  import opened ArmState
  import opened ArmDecode
  import opened ArmExecute
  import opened ArmArithmetic
  import opened ArmShifter

  // ----- the flag V -----

  lemma {:induction false} TopOfXor(x: Word, y: Word)
    ensures Top(Xor(x, y)) == (Top(x) != Top(y))
  {
    hide BitAt, XorBits;
    TopBit(x);
    TopBit(y);
    TopBit(Xor(x, y));
    BitsOfXor(x, y, 31);
    BitOfWrap(XorBits(x, y), 31);
  }

  lemma {:induction false} TopOfAnd(x: Word, y: Word)
    ensures Top(And(x, y)) == (Top(x) && Top(y))
    ensures And(x, 0x8000_0000) != 0 <==> Top(x)
  {
    hide BitAt, AndBits;
    TopBit(x);
    TopBit(y);
    TopBit(And(x, y));
    BitsOfAnd(x, y, 31);
    BitOfWrap(AndBits(x, y), 31);
    Spans();
    assert Span(31) == 0x8000_0000;
    AndWithSpan(x, 31);
  }

  /** `(op1 ^ op2 ^ 0x80000000) & (op1 ^ result) & 0x80000000` */
  function OverflowMask(op1: Word, op2: Word, result: Word): Word {
    And(And(Xor(Xor(op1, op2), 0x8000_0000), Xor(op1, result)), 0x8000_0000)
  }

  /** The mask is set exactly when numbers of the same sign have a sum of the other. */
  lemma {:induction false} OverflowBits(op1: Word, op2: Word, result: Word)
    ensures OverflowMask(op1, op2, result) != 0 <==> Top(op1) == Top(op2) && Top(op1) != Top(result)
  {
    hide And, Xor, Top;
    var x, y := Xor(Xor(op1, op2), 0x8000_0000), Xor(op1, result);
    TopOfXor(op1, op2);
    TopOfXor(Xor(op1, op2), 0x8000_0000);
    TopOfXor(op1, result);
    TopOfAnd(x, y);
    TopOfAnd(And(x, y), 0);
    assert Top(0x8000_0000) by { HighestIsTop(); }
  }

  lemma HighestIsTop()
    ensures Top(0x8000_0000)
  {
  }

  // ----- the operations -----

  /** SUB, RSB, ADD, ADC, SBC, RSC, CMP and CMN: the value, and the carry or absence of a borrow. */
  lemma {:induction false} ArithmeticMeans(op: RegNo, a: Word, b: Word, carry: bool, shiftC: bool, v: bool)
    ensures var r := Compute(op, a, b, carry, shiftC, v);
            && (op == 2 || op == 10 ==> r.value == Wrap(a - b) && (r.c <==> a >= b))
            && (op == 3 ==> r.value == Wrap(b - a) && (r.c <==> b >= a))
            && (op == 4 || op == 11 ==> r.value == Wrap(a + b) && (r.c <==> a + b >= TWO_TO_32))
            && (op == 5 ==> r.value == Wrap(a + b + Low(carry)) && (r.c <==> a + b + Low(carry) >= TWO_TO_32))
            && (op == 6 ==> r.value == Wrap(a - b - 1 + Low(carry)) && (r.c <==> a + Low(carry) > b))
            && (op == 7 ==> r.value == Wrap(b - a - 1 + Low(carry)) && (r.c <==> b + Low(carry) > a))
  {
    hide And, Or, Xor, Sum;
    SumCounts(a, Not(b), true);
    SumCounts(b, Not(a), true);
    SumCounts(a, b, false);
    SumCounts(a, b, carry);
    SumCounts(a, Not(b), carry);
    SumCounts(b, Not(a), carry);
    Borrowed(a, b, 1);
    Borrowed(b, a, 1);
    Borrowed(a, b, Low(carry));
    Borrowed(b, a, Low(carry));
  }

  lemma {:induction false} SumCounts(a: Word, b: Word, carry: bool)
    ensures Sum(a, b, carry).value == Wrap(a + b + Low(carry))
    ensures Sum(a, b, carry).c <==> a + b + Low(carry) >= TWO_TO_32
  {
  }

  lemma {:induction false} Borrowed(a: Word, b: Word, one: nat)
    requires one <= 1
    ensures Wrap(a + Not(b) + one) == Wrap(a - b - 1 + one)
    ensures a + Not(b) + one >= TWO_TO_32 <==> a + one > b
  {
    assert a + Not(b) + one == a - b - 1 + one + TWO_TO_32;
  }

  /** The bit an operation without arithmetic computes from two bits. */
  predicate LogicBit(op: RegNo, x: bool, y: bool) {
    if op == 0 || op == 8 then x && y
    else if op == 1 || op == 9 then x != y
    else if op == 12 then x || y
    else if op == 13 then y
    else if op == 14 then x && !y
    else !y
  }

  predicate Logical(op: RegNo) {
    op == 0 || op == 1 || op == 8 || op == 9 || op >= 12
  }

  /** AND, EOR, TST, TEQ, ORR, MOV, BIC and MVN: every bit; C comes from the shifter and V stays. */
  lemma {:induction false} LogicMeans(op: RegNo, a: Word, b: Word, carry: bool, shiftC: bool, v: bool, k: nat)
    requires Logical(op) && k < 32
    ensures var r := Compute(op, a, b, carry, shiftC, v);
            BitAt(r.value, k) == LogicBit(op, BitAt(a, k), BitAt(b, k)) && r.c == shiftC && r.v == v
  {
    hide BitAt, AndBits, OrBits, XorBits, Sum, Wrap, Span;
    BitsOfAnd(a, b, k);
    BitsOfXor(a, b, k);
    BitsOfOr(a, b, k);
    BitsOfAnd(a, Not(b), k);
    Spans();
    BitOfComplement(b, 32, k);
    BitOfWrap(AndBits(a, b), k);
    BitOfWrap(XorBits(a, b), k);
    BitOfWrap(OrBits(a, b), k);
    BitOfWrap(AndBits(a, Not(b)), k);
  }

  // ----- as the source computes them -----

  /** A sum in 64 bits, taken apart into result, carry and overflow. */
  method AddWide(op1: Word, op2: Word, carryIn: nat) returns (r: Result)
    requires carryIn <= 1
    ensures r == Sum(op1, op2, carryIn == 1)
  {
    hide And, Xor;
    var result64 := op1 + op2 + carryIn;
    var result := result64 % 0x1_0000_0000;
    OverflowBits(op1, op2, result);
    r := Result(result, result64 / 0x1_0000_0000 != 0, OverflowMask(op1, op2, result) != 0);
  }

  /** The switch over the opcodes in alu_instruction. */
  method ComputeAlu(op: RegNo, rn: Word, source: Word, carry: nat, shiftC: bool, arithV: bool) returns (r: Result)
    requires carry <= 1
    ensures r == Compute(op, rn, source, carry == 1, shiftC, arithV)
  {
    hide And, Or, Xor;
    if op == 0 || op == 8 {
      r := Result(And(rn, source), shiftC, arithV);
    } else if op == 1 || op == 9 {
      r := Result(Xor(rn, source), shiftC, arithV);
    } else if op == 2 || op == 10 {
      r := AddWide(rn, Not(source), 1);
    } else if op == 3 {
      r := AddWide(source, Not(rn), 1);
    } else if op == 4 || op == 11 {
      r := AddWide(rn, source, 0);
    } else if op == 5 {
      r := AddWide(rn, source, carry);
    } else if op == 6 {
      r := AddWide(rn, Not(source), carry);
    } else if op == 7 {
      r := AddWide(Not(rn), source, carry);
    } else if op == 12 {
      r := Result(Or(rn, source), shiftC, arithV);
    } else if op == 13 {
      r := Result(source, shiftC, arithV);
    } else if op == 14 {
      r := Result(And(rn, Not(source)), shiftC, arithV);
    } else {
      r := Result(Not(source), shiftC, arithV);
    }
  }
}
