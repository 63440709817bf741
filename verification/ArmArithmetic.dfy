/**
 * Arithmetic on numbers of several words, with the flags carrying from one instruction to the next, and what the
 * condition codes say of the numbers compared (instructions.c:263-329, 364-371, step.c:94-168).
 */
module ArmArithmetic {
  import opened Prelude
  import opened ArmWords
  import opened ArmState
  import opened ArmDecode
  import opened ArmExecute
  import opened ArmBlocks

  const SUB: RegNo := 2
  const ADD: RegNo := 4
  const ADC: RegNo := 5
  const SBC: RegNo := 6

  /** The number in a sequence of words, the lowest first, unsigned and in two's complement. */
  function Unsigned(ws: seq<Word>): nat {
    if ws == [] then 0 else ws[0] + 0x1_0000_0000 * Unsigned(ws[1..])
  }

  function SignedValue(ws: seq<Word>): int
    requires ws != []
  {
    if |ws| == 1 then Integer(ws[0]) else ws[0] + 0x1_0000_0000 * SignedValue(ws[1..])
  }

  /** The modulus of numbers of n words. */
  function Modulus(n: nat): nat {
    if n == 0 then 1 else 0x1_0000_0000 * Modulus(n - 1)
  }

  /** The words computed, and the result and flags of the last instruction. */
  datatype Long = Long(words: seq<Word>, last: Result)

  /** One instruction a word, from the lowest up: `first` on the lowest, `rest` on the others. */
  function Chain(first: RegNo, rest: RegNo, a: seq<Word>, b: seq<Word>, carry: bool): (r: Long)
    requires 0 < |a| == |b|
    ensures |r.words| == |a|
    decreases |a|
  {
    var r := Compute(first, a[0], b[0], carry, false, false);
    if |a| == 1 then Long([r.value], r)
    else
      var t := Chain(rest, rest, a[1..], b[1..], r.c);
      Long([r.value] + t.words, t.last)
  }

  /** The flags the last instruction leaves. */
  function Flags(st: Status, l: Long): Status {
    st.(n := Top(l.last.value), z := l.last.value == 0, c := l.last.c, v := l.last.v)
  }

  function Carried(c: bool, n: nat): nat {
    if c then Modulus(n) else 0
  }

  /** One word: value and carry are the exact sum, and V tells whether the sum with sign fits. */
  lemma {:induction false} SumExact(a: Word, b: Word, carry: bool)
    ensures Sum(a, b, carry).value + 0x1_0000_0000 * Low(Sum(a, b, carry).c) == a + b + Low(carry)
  {
  }

  lemma {:induction false} SumFlags(a: Word, b: Word, carry: bool)
    ensures var r := Sum(a, b, carry);
            r.v == (Top(a) == Top(b) && Top(a) != Top(r.value))
  {
  }

  lemma {:induction false} SumSigned(a: Word, b: Word, carry: bool)
    ensures var r := Sum(a, b, carry);
            var d := Integer(a) + Integer(b) + Low(carry);
            (Top(r.value) == r.v <==> d >= 0) && (!r.v <==> Integer(r.value) == d)
  {
    hide Sum;
    SumExact(a, b, carry);
    SumFlags(a, b, carry);
  }

  lemma {:induction false} Carries(a: Word, b: Word, carry: bool)
    ensures var r := Compute(ADC, a, b, carry, false, false);
            r.value + 0x1_0000_0000 * Low(r.c) == a + b + Low(carry)
    ensures var r := Compute(SBC, a, b, carry, false, false);
            a - b - 1 + Low(carry) == r.value + 0x1_0000_0000 * (Low(r.c) - 1)
  {
    hide Sum;
    SumExact(a, b, carry);
    SumExact(a, Not(b), carry);
  }

  lemma {:induction false} AdcExact(a: seq<Word>, b: seq<Word>, carry: bool)
    requires 0 < |a| == |b|
    ensures var r := Chain(ADC, ADC, a, b, carry);
            Unsigned(r.words) + Carried(r.last.c, |a|) == Unsigned(a) + Unsigned(b) + Low(carry)
    decreases |a|
  {
    hide Compute;
    var r := Compute(ADC, a[0], b[0], carry, false, false);
    Carries(a[0], b[0], carry);
    assert Modulus(|a|) == 0x1_0000_0000 * Modulus(|a| - 1);
    if |a| > 1 {
      AdcExact(a[1..], b[1..], r.c);
      var t := Chain(ADC, ADC, a[1..], b[1..], r.c);
      assert ([r.value] + t.words)[1..] == t.words;
    }
  }

  lemma {:induction false} FirstAsCarry(first: RegNo, rest: RegNo, a: seq<Word>, b: seq<Word>, carry: bool)
    requires 0 < |a| == |b| && ((first == ADD && rest == ADC) || (first == SUB && rest == SBC))
    ensures Chain(first, rest, a, b, carry) == Chain(rest, rest, a, b, first == SUB)
  {
  }

  lemma {:induction false} SbcExact(a: seq<Word>, b: seq<Word>, carry: bool)
    requires 0 < |a| == |b|
    ensures var r := Chain(SBC, SBC, a, b, carry);
            Unsigned(r.words) + Carried(r.last.c, |a|)
            == Unsigned(a) + Modulus(|a|) - 1 - Unsigned(b) + Low(carry)
    decreases |a|
  {
    hide Compute;
    var r := Compute(SBC, a[0], b[0], carry, false, false);
    Carries(a[0], b[0], carry);
    assert Modulus(|a|) == 0x1_0000_0000 * Modulus(|a| - 1);
    if |a| > 1 {
      SbcExact(a[1..], b[1..], r.c);
      var t := Chain(SBC, SBC, a[1..], b[1..], r.c);
      assert ([r.value] + t.words)[1..] == t.words;
    }
  }

  lemma {:induction false} Below(ws: seq<Word>)
    ensures Unsigned(ws) < Modulus(|ws|)
  {
    if ws != [] {
      Below(ws[1..]);
    }
  }

  /** SUBS and then SBCS subtract exactly, and CS and CC tell the order of the numbers without sign. */
  lemma {:induction false} SubExact(a: seq<Word>, b: seq<Word>, carry: bool, st: Status)
    requires 0 < |a| == |b|
    ensures var r := Chain(SUB, SBC, a, b, carry);
            && Unsigned(r.words) == Unsigned(a) - Unsigned(b) + Carried(!r.last.c, |a|)
            && (Holds(0x2, Flags(st, r)) <==> Unsigned(a) >= Unsigned(b))
            && (Holds(0x3, Flags(st, r)) <==> Unsigned(a) < Unsigned(b))
  {
    FirstAsCarry(SUB, SBC, a, b, carry);
    SbcExact(a, b, true);
    Below(a);
    Below(b);
    Below(Chain(SBC, SBC, a, b, true).words);
  }

  // ----- signed numbers -----

  lemma {:induction false} SignedStep(a: Word, b: Word, carry: bool)
    ensures var r := Compute(SBC, a, b, carry, false, false);
            var d := Integer(a) - Integer(b) - 1 + Low(carry);
            (Top(r.value) == r.v <==> d >= 0) && (!r.v <==> Integer(r.value) == d)
    ensures var r := Compute(ADC, a, b, carry, false, false);
            !r.v <==> Integer(r.value) == Integer(a) + Integer(b) + Low(carry)
  {
    hide Sum;
    SumSigned(a, b, carry);
    SumSigned(a, Not(b), carry);
  }

  lemma {:induction false} SbcSigned(a: seq<Word>, b: seq<Word>, carry: bool)
    requires 0 < |a| == |b|
    ensures var r := Chain(SBC, SBC, a, b, carry);
            var d := SignedValue(a) - SignedValue(b) - 1 + Low(carry);
            (Top(r.last.value) == r.last.v <==> d >= 0) && (!r.last.v <==> SignedValue(r.words) == d)
    decreases |a|
  {
    if |a| == 1 {
      SignedStep(a[0], b[0], carry);
    } else {
      hide Top, Integer, Compute;
      var r := Compute(SBC, a[0], b[0], carry, false, false);
      SbcSigned(a[1..], b[1..], r.c);
      var t := Chain(SBC, SBC, a[1..], b[1..], r.c);
      assert ([r.value] + t.words)[1..] == t.words;
      Carries(a[0], b[0], carry);
    }
  }

  /** After SUBS and SBCS, GE and LT tell the order of the numbers with sign, and V whether their difference fits. */
  lemma {:induction false} SubSigned(a: seq<Word>, b: seq<Word>, carry: bool, st: Status)
    requires 0 < |a| == |b|
    ensures var r := Chain(SUB, SBC, a, b, carry);
            && (Holds(0xa, Flags(st, r)) <==> SignedValue(a) >= SignedValue(b))
            && (Holds(0xb, Flags(st, r)) <==> SignedValue(a) < SignedValue(b))
            && (Holds(0x7, Flags(st, r)) <==> SignedValue(r.words) == SignedValue(a) - SignedValue(b))
  {
    FirstAsCarry(SUB, SBC, a, b, carry);
    SbcSigned(a, b, true);
  }

  lemma {:induction false} AdcSigned(a: seq<Word>, b: seq<Word>, carry: bool)
    requires 0 < |a| == |b|
    ensures var r := Chain(ADC, ADC, a, b, carry);
            !r.last.v <==> SignedValue(r.words) == SignedValue(a) + SignedValue(b) + Low(carry)
    decreases |a|
  {
    if |a| == 1 {
      SignedStep(a[0], b[0], carry);
    } else {
      hide Top, Integer, Compute;
      var r := Compute(ADC, a[0], b[0], carry, false, false);
      Carries(a[0], b[0], carry);
      AdcSigned(a[1..], b[1..], r.c);
      var t := Chain(ADC, ADC, a[1..], b[1..], r.c);
      assert ([r.value] + t.words)[1..] == t.words;
    }
  }

  /** ADDS and then ADCS add exactly: C is the carry out of the whole, and V tells whether the sum with sign fits. */
  lemma {:induction false} AddExact(a: seq<Word>, b: seq<Word>, carry: bool)
    requires 0 < |a| == |b|
    ensures var r := Chain(ADD, ADC, a, b, carry);
            && Unsigned(r.words) + Carried(r.last.c, |a|) == Unsigned(a) + Unsigned(b)
            && (!r.last.v <==> SignedValue(r.words) == SignedValue(a) + SignedValue(b))
  {
    FirstAsCarry(ADD, ADC, a, b, carry);
    AdcExact(a, b, false);
    AdcSigned(a, b, false);
  }

  // ----- the same over states -----

  /**
   * A run of such instructions, one a state: each reads its two words, sets the flags and leaves its result in a
   * register; between one and the next anything may happen that leaves the flags alone.
   */
  datatype Stage = Stage(before: State, i: Instruction)

  predicate Computes(g: Stage, op: RegNo, a: Word, b: Word) {
    && g.i.Alu? && g.i.op == op && g.i.setFlags && g.i.rd < 15 && Banked(g.before)
    && PlainReg(g.before, g.i.rn) == a && Operand2(g.before, g.i.operand).value == b
  }

  function Outcome(g: Stage): State
    requires g.i.Alu?
  {
    ExecAlu(g.before, g.i)
  }

  predicate SameFlags(x: Status, y: Status) {
    x.n == y.n && x.z == y.z && x.c == y.c && x.v == y.v
  }

  predicate Sequence(gs: seq<Stage>, first: RegNo, rest: RegNo, a: seq<Word>, b: seq<Word>)
    requires 0 < |gs| == |a| == |b|
    decreases |gs|
  {
    && Computes(gs[0], first, a[0], b[0])
    && (|gs| > 1 ==> SameFlags(gs[1].before.r15, Outcome(gs[0]).r15) && Sequence(gs[1..], rest, rest, a[1..], b[1..]))
  }

  /** What the instructions leave in their registers. */
  function Results(gs: seq<Stage>): (r: seq<Word>)
    requires forall g :: g in gs ==> g.i.Alu?
    ensures |r| == |gs|
  {
    if gs == [] then [] else [Reg(Outcome(gs[0]), gs[0].i.rd)] + Results(gs[1..])
  }

  /** One instruction: register and flags are those computed from the words and the carry in r15. */
  lemma {:induction false} StageComputes(g: Stage, op: RegNo, a: Word, b: Word)
    requires Computes(g, op, a, b) && (op == ADD || op == ADC || op == SUB || op == SBC)
    ensures var r := Compute(op, a, b, g.before.r15.c, false, false);
            && Reg(Outcome(g), g.i.rd) == r.value
            && SameFlags(Outcome(g).r15, g.before.r15.(n := Top(r.value), z := r.value == 0, c := r.c, v := r.v))
  {
    hide Sum, PlainReg, Operand2, Pack, Unpack, Bank;
    var t := SetFlags(g.before, AluResult(g.before, g.i));
    PlacesApart(g.before, false, g.i.rd, g.i.rd);
  }

  lemma {:induction false} AllAlu(gs: seq<Stage>, first: RegNo, rest: RegNo, a: seq<Word>, b: seq<Word>)
    requires 0 < |gs| == |a| == |b| && Sequence(gs, first, rest, a, b)
    ensures forall g :: g in gs ==> g.i.Alu?
    decreases |gs|
  {
    hide PlainReg, Operand2, ExecAlu;
    if |gs| > 1 {
      AllAlu(gs[1..], rest, rest, a[1..], b[1..]);
      assert gs == [gs[0]] + gs[1..];
    }
  }

  /** The sequence computes the chain: the carry goes from one instruction to the next through r15. */
  lemma {:induction false} SequenceIsChain(gs: seq<Stage>, first: RegNo, rest: RegNo, a: seq<Word>, b: seq<Word>)
    requires 0 < |gs| == |a| == |b| && Sequence(gs, first, rest, a, b)
    requires first == ADD || first == ADC || first == SUB || first == SBC
    requires rest == ADC || rest == SBC
    ensures forall g :: g in gs ==> g.i.Alu?
    ensures var r := Chain(first, rest, a, b, gs[0].before.r15.c);
            && Results(gs) == r.words
            && SameFlags(Outcome(gs[|gs| - 1]).r15, Flags(gs[0].before.r15, r))
    decreases |gs|
  {
    hide Computes, Outcome, Compute;
    AllAlu(gs, first, rest, a, b);
    StageComputes(gs[0], first, a[0], b[0]);
    if |gs| == 1 {
      assert Results(gs[1..]) == [];
    } else {
      SequenceIsChain(gs[1..], rest, rest, a[1..], b[1..]);
    }
  }

  /** Executing ADDS and then ADCS: exact sum in the registers, C and V of the whole in r15. */
  lemma {:induction false} AddInstructions(gs: seq<Stage>, a: seq<Word>, b: seq<Word>)
    requires 0 < |gs| == |a| == |b| && Sequence(gs, ADD, ADC, a, b)
    ensures forall g :: g in gs ==> g.i.Alu?
    ensures var (sum, st) := (Results(gs), Outcome(gs[|gs| - 1]).r15);
            && Unsigned(sum) + Carried(st.c, |a|) == Unsigned(a) + Unsigned(b)
            && (!st.v <==> SignedValue(sum) == SignedValue(a) + SignedValue(b))
  {
    hide Sequence, Outcome, Results, Chain;
    SequenceIsChain(gs, ADD, ADC, a, b);
    AddExact(a, b, gs[0].before.r15.c);
  }

  /**
   * Executing SUBS and then SBCS: exact difference in the registers, after which CS, CC, GE, LT and VC say of the whole
   * numbers what they say of two words after CMP.
   */
  lemma {:induction false} SubInstructions(gs: seq<Stage>, a: seq<Word>, b: seq<Word>)
    requires 0 < |gs| == |a| == |b| && Sequence(gs, SUB, SBC, a, b)
    ensures forall g :: g in gs ==> g.i.Alu?
    ensures var (difference, st) := (Results(gs), Outcome(gs[|gs| - 1]).r15);
            && Unsigned(difference) == Unsigned(a) - Unsigned(b) + Carried(!st.c, |a|)
            && (Holds(0x2, st) <==> Unsigned(a) >= Unsigned(b)) && (Holds(0x3, st) <==> Unsigned(a) < Unsigned(b))
            && (Holds(0xa, st) <==> SignedValue(a) >= SignedValue(b))
            && (Holds(0xb, st) <==> SignedValue(a) < SignedValue(b))
            && (Holds(0x7, st) <==> SignedValue(difference) == SignedValue(a) - SignedValue(b))
  {
    hide Sequence, Outcome, Results, Chain;
    SequenceIsChain(gs, SUB, SBC, a, b);
    SubExact(a, b, gs[0].before.r15.c, gs[0].before.r15);
    SubSigned(a, b, gs[0].before.r15.c, gs[0].before.r15);
  }

  /** After CMP all the conditions are those of the two integers. */
  lemma {:induction false} CompareConditions(s: State, i: Instruction, x: Word, y: Word)
    requires i.Alu? && i.op == 10 && i.setFlags && i.rd != 15
    requires x == PlainReg(s, i.rn) && y == Operand2(s, i.operand).value
    ensures var st := ExecAlu(s, i).r15;
            && (Holds(0x0, st) <==> x == y) && (Holds(0x1, st) <==> x != y)
            && (Holds(0x2, st) <==> x >= y) && (Holds(0x3, st) <==> x < y)
            && (Holds(0x8, st) <==> x > y) && (Holds(0x9, st) <==> x <= y)
            && (Holds(0xa, st) <==> Integer(x) >= Integer(y)) && (Holds(0xb, st) <==> Integer(x) < Integer(y))
            && (Holds(0xc, st) <==> Integer(x) > Integer(y)) && (Holds(0xd, st) <==> Integer(x) <= Integer(y))
    ensures ExecAlu(s, i) == s.(r15 := ExecAlu(s, i).r15)
  {
    hide PlainReg, Operand2;
    SignedStep(x, y, true);
  }

  // ----- multiplication -----

  /** Products with and without sign agree modulo 2^32. */
  lemma {:induction false} SignedProduct(a: Word, b: Word, c: Word)
    ensures Product(a, b, c) == Wrap(Integer(a) * Integer(b) + Integer(c))
  {
    hide Wrap;
    var x: int, y: int, z: int := Integer(a), Integer(b), Integer(c);
    var p := if Top(a) then 1 else 0;
    var q := if Top(b) then 1 else 0;
    var r := if Top(c) then 1 else 0;
    Expanded(x, p, y, q, 0x1_0000_0000);
    assert a * b + c == x * y + z + (p * y + q * x + p * q * 0x1_0000_0000 + r) * 0x1_0000_0000;
    WrapShift(x * y + z, p * y + q * x + p * q * 0x1_0000_0000 + r);
  }

  lemma Expanded(x: int, p: int, y: int, q: int, m: int)
    ensures (x + p * m) * (y + q * m) == x * y + (p * y + q * x + p * q * m) * m
  {
    assert (x + p * m) * (y + q * m) == x * (y + q * m) + p * m * (y + q * m);
    assert x * (y + q * m) == x * y + q * x * m;
    assert p * m * (y + q * m) == p * y * m + p * q * m * m;
    assert (p * y + q * x + p * q * m) * m == p * y * m + q * x * m + p * q * m * m;
  }

  lemma {:induction false} WrapShift(x: int, k: int)
    ensures Wrap(x + k * 0x1_0000_0000) == Wrap(x)
  {
  }

  /** What rm and rs stand for: r15 without flags and mode, and as rm four bytes further. */
  function Factor(s: State, n: RegNo, further: nat): Word {
    if n == 15 then Align(s.r15.addr + further) else Reg(s, n)
  }

  /**
   * MUL and MLA: the product, plus rn for MLA, modulo 2^32 - of the unsigned as of the signed numbers; N and Z tell its
   * sign and whether it is zero, C and V stay, and so does every other register.
   */
  lemma {:induction false} MultiplyMeans(s: State, i: Instruction)
    requires i.Multiply? && i.rd < 15 && Banked(s)
    ensures Exec(s, i).Done?
    ensures var t := Exec(s, i).s;
            var x, y := Factor(s, i.rm, 4), Factor(s, i.rs, 0);
            var z := if i.accumulate then Reg(s, i.rn) else 0;
            && Reg(t, i.rd) == (x * y + z) % 0x1_0000_0000
            && Reg(t, i.rd) == Wrap(Integer(x) * Integer(y) + Integer(z))
            && t.r15 == (if i.setFlags then s.r15.(n := Integer(Reg(t, i.rd)) < 0, z := Reg(t, i.rd) == 0) else s.r15)
            && t == s.(regs := t.regs, r15 := t.r15)
            && forall n: RegNo :: n < 15 && n != i.rd ==> Reg(t, n) == Reg(s, n)
  {
    hide Bank, Wrap, Integer, Product, Reg, SetReg, Top, Align;
    var x, y := Factor(s, i.rm, 4), Factor(s, i.rs, 0);
    var z := if i.accumulate then Reg(s, i.rn) else 0;
    AlignedStays(s.r15.addr);
    assert MultiplyResult(s, i) == Product(x, y, z);
    SignedProduct(x, y, z);
    ProductIs(x, y, z);
    NegativeIsTop(Product(x, y, z));
    OneRegister(s, i.rd, Product(x, y, z));
    FlagsKeepRegisters(SetReg(s, i.rd, Product(x, y, z)), Exec(s, i).s);
  }

  lemma FlagsKeepRegisters(t: State, u: State)
    requires Banked(t) && u == t.(r15 := u.r15)
    ensures forall n: RegNo :: n < 15 ==> Reg(u, n) == Reg(t, n)
  {
    hide Bank;
    forall n: RegNo | n < 15 ensures Reg(u, n) == Reg(t, n) {
      PlacesApart(t, false, n, n);
    }
  }

  lemma ProductIs(x: Word, y: Word, z: Word)
    ensures Product(x, y, z) == (x * y + z) % 0x1_0000_0000
  {
  }

  lemma AlignedStays(a: Addr)
    ensures Align(a + 0) == a
  {
  }

  lemma NegativeIsTop(x: Word)
    ensures Integer(x) < 0 <==> Top(x)
  {
  }

  /** With r15 as destination nothing is written but the flags, which tell of a zero. */
  lemma {:induction false} MultiplyIntoPc(s: State, i: Instruction)
    requires i.Multiply? && i.rd == 15
    ensures Exec(s, i) == Done(if i.setFlags then s.(r15 := s.r15.(n := false, z := true)) else s)
  {
  }
}
