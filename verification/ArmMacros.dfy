/**
 * The macros of armv2.h:46-54, 86-117 on raw words: each is shown to be an operation on the fields of r15, or on one
 * pin or flag.
 */
module ArmMacros {
  import opened Prelude
  import opened ArmWords
  import opened ArmBits
  import opened ArmState

  const FLAG_N: Word := 0x8000_0000
  const FLAG_Z: Word := 0x4000_0000
  const FLAG_C: Word := 0x2000_0000
  const FLAG_V: Word := 0x1000_0000
  const FLAG_I: Word := 0x0800_0000
  const FLAG_F: Word := 0x0400_0000

  const PC_BITS: Word := 0x03ff_fffc
  const PC_PROTECTED_BITS: Word := Or(Or(FLAG_I, FLAG_F), 3)

  const PIN_F: Word := 1
  const PIN_I: Word := 2

  const FLAG_INIT: Word := 1
  const FLAG_WAIT: Word := 2
  const FLAG_WATCHPOINT: Word := 4

  function GetPc(r15: Word): Word {
    And(r15, PC_BITS)
  }

  function SetPc(r15: Word, newpc: Word): Word {
    Or(And(r15, 0xfc00_0003), And(newpc, PC_BITS))
  }

  function GetMode(r15: Word): Word {
    And(r15, 3)
  }

  function SetMode(r15: Word, newmode: Mode): Word {
    Or(And(r15, 0xffff_fffc), newmode)
  }

  function GetModePsr(r15: Word): Word {
    And(r15, 0xfc00_0003)
  }

  function SetPsr(r15: Word, newpsr: Word): Word {
    Or(And(r15, 0x03ff_ffff), newpsr)
  }

  /** FLAG_SET, PIN_ON and HASCPUFLAG */
  predicate Has(x: Word, flag: Word) {
    And(x, flag) != 0
  }

  /** SETFLAG, SETPIN and SETCPUFLAG */
  function With(x: Word, flag: Word): Word {
    Or(x, flag)
  }

  /** CLEARPIN and CLEARCPUFLAG */
  function Without(x: Word, flag: Word): Word {
    And(x, Not(flag))
  }

  // ----- r15 by its bits -----

  /** Bit k of an r15 with these fields. */
  predicate StatusBit(st: Status, k: nat) {
    if k < 2 then BitAt(st.mode, k)
    else if k < 26 then BitAt(st.addr, k)
    else if k == 26 then st.f
    else if k == 27 then st.i
    else if k == 28 then st.v
    else if k == 29 then st.c
    else if k == 30 then st.z
    else k == 31 && st.n
  }

  lemma BitOfAddr(a: Addr, mode: Mode, k: nat)
    ensures BitAt(a + mode, k) == if k < 2 then BitAt(mode, k) else BitAt(a, k)
    ensures k < 2 || k >= 26 ==> !BitAt(a, k)
  {
    hide BitAt;
    Spans();
    BitOfJoined(a / 4, mode, 2, k);
    BitOfJoined(a / 4, 0, 2, k);
    BitOfJoined(0, a, 26, k);
    ZeroHasNoBits(k);
    if k >= 26 { ZeroHasNoBits(k - 26); }
  }

  lemma BitOfFlagBits(st: Status, k: nat)
    requires 26 <= k < 32
    ensures BitAt(FlagBits(st), k - 26) == StatusBit(st, k)
  {
    hide BitAt, Number;
    BitOfNumber([st.f, st.i, st.v, st.c, st.z, st.n], k - 26);
  }

  lemma FlagBitsFit(st: Status)
    ensures FlagBits(st) < 64
  {
    BitsOfNumber([st.f, st.i, st.v, st.c, st.z, st.n]);
    SpanOfFlags();
  }

  lemma BitOfPack(st: Status, k: nat)
    requires k < 32
    ensures BitAt(Pack(st), k) == StatusBit(st, k)
  {
    hide BitAt, FlagBits;
    var x: nat := st.addr + st.mode;
    Spans();
    FlagBitsFit(st);
    Split(FlagBits(st), x);
    BitOfJoined(FlagBits(st), x, 26, k);
    BitOfAddr(st.addr, st.mode, k);
    if k >= 26 {
      BitOfFlagBits(st, k);
    }
  }

  lemma BitOfUnpack(w: Word, k: nat)
    requires k < 32
    ensures StatusBit(Unpack(w), k) == BitAt(w, k)
  {
    PackUnpack(w);
    BitOfPack(Unpack(w), k);
  }

  /** A word is known by the fields its bits show. */
  lemma StatusOf(w: Word, st: Status)
    requires forall k: nat :: k < 32 ==> BitAt(w, k) == StatusBit(st, k)
    ensures Unpack(w) == st && w == Pack(st)
  {
    hide BitAt, StatusBit, Unpack, Pack;
    forall k: nat | k < 32 ensures BitAt(w, k) == BitAt(Pack(st), k) {
      BitOfPack(st, k);
    }
    SameWord(w, Pack(st));
    UnpackPack(st);
  }

  // ----- masks -----

  lemma FlagSpans()
    ensures Span(31) == FLAG_N && Span(30) == FLAG_Z && Span(29) == FLAG_C && Span(28) == FLAG_V
    ensures Span(27) == FLAG_I && Span(26) == FLAG_F
  {
    Spans();
  }

  lemma PcMask(k: nat)
    requires k < 32
    ensures BitAt(PC_BITS, k) <==> 2 <= k < 26
    ensures BitAt(0xfc00_0003, k) <==> k < 2 || 26 <= k
  {
    hide BitAt;
    Spans();
    BitOfOnes(2, 26, k);
    BitNot(PC_BITS, k);
  }

  lemma ModeMask(k: nat)
    requires k < 32
    ensures BitAt(3, k) <==> k < 2
    ensures BitAt(0xffff_fffc, k) <==> 2 <= k
  {
    hide BitAt;
    Spans();
    BitOfOnes(0, 2, k);
    BitNot(3, k);
  }

  /** The lowest n bits. */
  lemma LowMask(n: nat, k: nat)
    ensures Span(n) >= 1 && (BitAt(Span(n) - 1, k) <==> k < n)
  {
    BitOfOnes(0, n, k);
  }

  lemma ProtectedMask(k: nat)
    requires k < 32
    ensures BitAt(PC_PROTECTED_BITS, k) <==> k < 2 || k == 26 || k == 27
  {
    hide BitAt, Or;
    FlagSpans();
    BitOfFlag(27, k);
    BitOfFlag(26, k);
    ModeMask(k);
    BitOr(FLAG_I, FLAG_F, k);
    BitOr(Or(FLAG_I, FLAG_F), 3, k);
  }

  lemma FlagMask(j: nat, x: Word, k: nat)
    requires j < 32 && k < 32
    ensures Span(j) < 0x1_0000_0000 && BitAt(And(x, Span(j)), k) == (BitAt(x, k) && k == j)
    ensures BitAt(Or(x, Span(j)), k) == (BitAt(x, k) || k == j)
  {
    hide BitAt, And, Or;
    BitOfFlag(j, k);
    BitAnd(x, Span(j), k);
    BitOr(x, Span(j), k);
  }

  // ----- reading r15 -----

  lemma GetPcGets(r15: Word)
    ensures GetPc(r15) == Unpack(r15).addr
  {
    hide BitAt, And;
    var a := Unpack(r15).addr;
    forall k: nat | k < 32 ensures BitAt(GetPc(r15), k) == BitAt(a, k) {
      BitAnd(r15, PC_BITS, k);
      PcMask(k);
      BitOfUnpack(r15, k);
      BitOfAddr(a, 0, k);
    }
    SameWord(GetPc(r15), a);
  }

  lemma GetModeGets(r15: Word)
    ensures GetMode(r15) == Unpack(r15).mode
  {
    hide BitAt, And;
    var m: Word := Unpack(r15).mode;
    forall k: nat | k < 32 ensures BitAt(GetMode(r15), k) == BitAt(m, k) {
      BitAnd(r15, 3, k);
      ModeMask(k);
      BitOfUnpack(r15, k);
      if k >= 2 {
        Spans();
        NoBitsAbove(m, 2, k);
      }
    }
    SameWord(GetMode(r15), m);
  }

  /** The address masked out. */
  lemma GetModePsrGets(r15: Word)
    ensures GetModePsr(r15) == Pack(Unpack(r15).(addr := 0))
  {
    hide BitAt, And, Pack;
    var st := Unpack(r15).(addr := 0);
    forall k: nat | k < 32 ensures BitAt(GetModePsr(r15), k) == StatusBit(st, k) {
      BitAnd(r15, 0xfc00_0003, k);
      PcMask(k);
      BitOfUnpack(r15, k);
      ZeroHasNoBits(k);
    }
    StatusOf(GetModePsr(r15), st);
  }

  lemma HasBit(x: Word, j: nat)
    requires j < 32
    ensures Span(j) < 0x1_0000_0000 && (Has(x, Span(j)) <==> BitAt(x, j))
  {
    AndWithSpan(x, j);
    BitOfFlag(j, j);
  }

  /** FLAG_SET of each of the six flags. */
  lemma FlagsRead(r15: Word)
    ensures var st := Unpack(r15);
            && Has(r15, FLAG_N) == st.n && Has(r15, FLAG_Z) == st.z && Has(r15, FLAG_C) == st.c
            && Has(r15, FLAG_V) == st.v && Has(r15, FLAG_I) == st.i && Has(r15, FLAG_F) == st.f
  {
    hide BitAt, Has;
    FlagSpans();
    forall j: nat | 26 <= j < 32 ensures Span(j) < 0x1_0000_0000 && Has(r15, Span(j)) == StatusBit(Unpack(r15), j) {
      HasBit(r15, j);
      BitOfUnpack(r15, j);
    }
  }

  // ----- writing r15 -----

  /** SETPC writes the address and nothing else. */
  lemma SetPcSets(r15: Word, newpc: Word)
    ensures Unpack(SetPc(r15, newpc)) == Unpack(r15).(addr := Align(newpc))
  {
    hide BitAt, And, Or;
    var w, st := SetPc(r15, newpc), Unpack(r15).(addr := Align(newpc));
    forall k: nat | k < 32 ensures BitAt(w, k) == StatusBit(st, k) {
      BitOr(And(r15, 0xfc00_0003), And(newpc, PC_BITS), k);
      BitAnd(r15, 0xfc00_0003, k);
      BitAnd(newpc, PC_BITS, k);
      PcMask(k);
      BitOfUnpack(r15, k);
      BitOfUnpack(newpc, k);
    }
    StatusOf(w, st);
  }

  lemma SetModeSets(r15: Word, newmode: Mode)
    ensures Unpack(SetMode(r15, newmode)) == Unpack(r15).(mode := newmode)
  {
    hide BitAt, And, Or;
    var w, st := SetMode(r15, newmode), Unpack(r15).(mode := newmode);
    forall k: nat | k < 32 ensures BitAt(w, k) == StatusBit(st, k) {
      BitOr(And(r15, 0xffff_fffc), newmode, k);
      BitAnd(r15, 0xffff_fffc, k);
      ModeMask(k);
      BitOfUnpack(r15, k);
      if k >= 2 {
        Spans();
        NoBitsAbove(newmode, 2, k);
      }
    }
    StatusOf(w, st);
  }

  /** SETFLAG of the two interrupt masks. */
  lemma SetFlagSets(r15: Word)
    ensures Unpack(With(r15, FLAG_I)) == Unpack(r15).(i := true)
  {
    hide BitAt, Or;
    FlagSpans();
    forall k: nat | k < 32 ensures BitAt(With(r15, FLAG_I), k) == StatusBit(Unpack(r15).(i := true), k) {
      FlagMask(27, r15, k);
      BitOfUnpack(r15, k);
    }
    StatusOf(With(r15, FLAG_I), Unpack(r15).(i := true));
  }

  lemma SetFastSets(r15: Word)
    ensures Unpack(With(r15, FLAG_F)) == Unpack(r15).(f := true)
  {
    hide BitAt, Or;
    FlagSpans();
    forall k: nat | k < 32 ensures BitAt(With(r15, FLAG_F), k) == StatusBit(Unpack(r15).(f := true), k) {
      FlagMask(26, r15, k);
      BitOfUnpack(r15, k);
    }
    StatusOf(With(r15, FLAG_F), Unpack(r15).(f := true));
  }

  /** What SETPSR keeps of r15: everything below the flags. */
  lemma SetPsrKeeps(r15: Word)
    ensures And(r15, 0x03ff_ffff) == Unpack(r15).addr + Unpack(r15).mode
  {
    hide BitAt, And;
    var st := Unpack(r15);
    Spans();
    forall k: nat | k < 32 ensures BitAt(And(r15, 0x03ff_ffff), k) == BitAt(st.addr + st.mode, k) {
      BitAnd(r15, 0x03ff_ffff, k);
      LowMask(26, k);
      BitOfUnpack(r15, k);
      BitOfAddr(st.addr, st.mode, k);
    }
    SameWord(And(r15, 0x03ff_ffff), st.addr + st.mode);
  }

  /** `(actual[PC] & PC_PROTECTED_BITS) | (result & PC_UNPROTECTED_BITS)`, and the whole word outside user mode. */
  function Overwritten(r15: Word, result: Word): Word {
    if GetMode(r15) == USR then Or(And(r15, PC_PROTECTED_BITS), And(result, Not(PC_PROTECTED_BITS))) else result
  }

  lemma BitOfOverwritten(r15: Word, result: Word, k: nat)
    requires k < 32
    ensures BitAt(Or(And(r15, PC_PROTECTED_BITS), And(result, Not(PC_PROTECTED_BITS))), k) ==
            BitAt(if k < 2 || k == 26 || k == 27 then r15 else result, k)
  {
    hide BitAt, And, Or, Not;
    var kept := PC_PROTECTED_BITS;
    BitOr(And(r15, kept), And(result, Not(kept)), k);
    BitAnd(r15, kept, k);
    BitAnd(result, Not(kept), k);
    BitNot(kept, k);
    ProtectedMask(k);
  }

  lemma OverwrittenIsRestored(r15: Word, result: Word)
    ensures Unpack(Overwritten(r15, result)) == Restored(Unpack(r15), result)
  {
    hide BitAt, And, Or, Not, Unpack, GetMode;
    GetModeGets(r15);
    if Unpack(r15).mode == USR {
      var before, after := Unpack(r15), Unpack(result);
      var w, st := Overwritten(r15, result), after.(i := before.i, f := before.f, mode := USR);
      forall k: nat | k < 32 ensures BitAt(w, k) == StatusBit(st, k) {
        BitOfOverwritten(r15, result, k);
        BitOfUnpack(r15, k);
        BitOfUnpack(result, k);
      }
      StatusOf(w, st);
    }
  }

  /** `(actual[PC] & 0x0fffffff) | n | z | c | v` */
  function FlagsPut(r15: Word, result: Word, c: bool, v: bool): Word {
    Or(Or(Or(Or(And(r15, 0x0fff_ffff), And(result, FLAG_N)), if result == 0 then FLAG_Z else 0),
          if c then FLAG_C else 0), if v then FLAG_V else 0)
  }

  /** A flag or nothing, or-ed in. */
  lemma FlagOr(x: Word, j: nat, on: bool, k: nat)
    requires j < 32 && k < 32
    ensures Span(j) < 0x1_0000_0000
    ensures BitAt(Or(x, if on then Span(j) else 0), k) == (BitAt(x, k) || (on && k == j))
  {
    hide BitAt, Or;
    FlagMask(j, x, k);
    BitOr(x, 0, k);
    ZeroHasNoBits(k);
  }

  lemma BitOfFlagsPut(r15: Word, result: Word, c: bool, v: bool, k: nat)
    requires k < 32
    ensures BitAt(FlagsPut(r15, result, c, v), k) ==
            if k == 31 then Top(result) else if k == 30 then result == 0 else if k == 29 then c
            else if k == 28 then v else BitAt(r15, k)
  {
    hide BitAt, And, Or;
    FlagSpans();
    Spans();
    TopBit(result);
    var a := And(r15, 0x0fff_ffff);
    var b := Or(a, And(result, FLAG_N));
    var d := Or(b, if result == 0 then FLAG_Z else 0);
    BitAnd(r15, 0x0fff_ffff, k);
    LowMask(28, k);
    FlagMask(31, result, k);
    BitOr(a, And(result, FLAG_N), k);
    FlagOr(b, 30, result == 0, k);
    FlagOr(d, 29, c, k);
    FlagOr(Or(d, if c then FLAG_C else 0), 28, v, k);
  }

  lemma FlagsPutSets(r15: Word, result: Word, c: bool, v: bool)
    ensures Unpack(FlagsPut(r15, result, c, v)) == Unpack(r15).(n := Top(result), z := result == 0, c := c, v := v)
  {
    hide BitAt, FlagsPut, Unpack;
    var st := Unpack(r15).(n := Top(result), z := result == 0, c := c, v := v);
    forall k: nat | k < 32 ensures BitAt(FlagsPut(r15, result, c, v), k) == StatusBit(st, k) {
      BitOfFlagsPut(r15, result, c, v, k);
      BitOfUnpack(r15, k);
    }
    StatusOf(FlagsPut(r15, result, c, v), st);
  }

  /** `(actual[PC] & 0x3fffffff) | n | z` */
  function SignPut(r15: Word, result: Word): Word {
    Or(Or(And(r15, 0x3fff_ffff), And(result, FLAG_N)), if result == 0 then FLAG_Z else 0)
  }

  lemma SignPutSets(r15: Word, result: Word)
    ensures Unpack(SignPut(r15, result)) == Unpack(r15).(n := Top(result), z := result == 0)
  {
    hide BitAt, And, Or;
    FlagSpans();
    TopBit(result);
    var st := Unpack(r15).(n := Top(result), z := result == 0);
    var a := And(r15, 0x3fff_ffff);
    var b := Or(a, And(result, FLAG_N));
    forall k: nat | k < 32 ensures BitAt(SignPut(r15, result), k) == StatusBit(st, k) {
      BitAnd(r15, 0x3fff_ffff, k);
      LowMask(30, k);
      FlagMask(31, result, k);
      BitOr(a, And(result, FLAG_N), k);
      FlagOr(b, 30, result == 0, k);
      BitOfUnpack(r15, k);
    }
    StatusOf(SignPut(r15, result), st);
  }

  /** `((cpu->pc + 4) & 0x03fffffc) | GETMODEPSR(cpu)` */
  function Link(r15: Word, pc: Word): Word {
    Or(And(Wrap(pc + 4), PC_BITS), GetModePsr(r15))
  }

  lemma AlignWrapped(x: nat)
    ensures Align(Wrap(x)) == Align(x)
  {
  }

  lemma LinkIsPacked(r15: Word, pc: Word)
    ensures Link(r15, pc) == Pack(Unpack(r15).(addr := Align(pc + 4)))
  {
    hide BitAt, And, Or, Pack, Align;
    var next := Wrap(pc + 4);
    var st := Unpack(r15).(addr := Align(pc + 4));
    AlignWrapped(pc + 4);
    forall k: nat | k < 32 ensures BitAt(Link(r15, pc), k) == StatusBit(st, k) {
      BitOr(And(next, PC_BITS), GetModePsr(r15), k);
      BitAnd(next, PC_BITS, k);
      BitAnd(r15, 0xfc00_0003, k);
      PcMask(k);
      BitOfUnpack(r15, k);
      BitOfUnpack(next, k);
    }
    StatusOf(Link(r15, pc), st);
  }

  /** `(actual[PC] & 0x03fffffc) | mode | flags` of an exception, all of which go to supervisor mode. */
  function Trapped(r15: Word): Word {
    Or(Or(And(r15, PC_BITS), SUP), FLAG_I)
  }

  lemma TrappedIs(r15: Word)
    ensures Unpack(Trapped(r15)) == Status(false, false, false, false, true, false, Unpack(r15).addr, SUP)
  {
    hide BitAt, And, Or;
    FlagSpans();
    var st := Status(false, false, false, false, true, false, Unpack(r15).addr, SUP);
    var a := And(r15, PC_BITS);
    forall k: nat | k < 32 ensures BitAt(Trapped(r15), k) == StatusBit(st, k) {
      BitAnd(r15, PC_BITS, k);
      PcMask(k);
      BitOr(a, SUP, k);
      ModeMask(k);
      FlagMask(27, Or(a, SUP), k);
      BitOfUnpack(r15, k);
    }
    StatusOf(Trapped(r15), st);
  }

  // ----- pins and the processor's own flags -----

  /** Setting and clearing one bit of a word. */
  lemma OneBit(x: Word, j: nat, i: nat)
    requires j < 32 && i < 32
    ensures Span(j) < 0x1_0000_0000 && Span(i) < 0x1_0000_0000
    ensures Has(With(x, Span(j)), Span(i)) == (Has(x, Span(i)) || i == j)
    ensures Has(Without(x, Span(j)), Span(i)) == (Has(x, Span(i)) && i != j)
  {
    hide BitAt, And, Or, Not, Has;
    BitOfFlag(j, i);
    HasBit(x, i);
    FlagMask(j, x, i);
    HasBit(With(x, Span(j)), i);
    BitNot(Span(j), i);
    BitAnd(x, Not(Span(j)), i);
    HasBit(Without(x, Span(j)), i);
  }

  lemma Pins(pins: Word)
    ensures Has(With(pins, PIN_I), PIN_I) && Has(With(pins, PIN_I), PIN_F) == Has(pins, PIN_F)
    ensures !Has(Without(pins, PIN_I), PIN_I) && Has(Without(pins, PIN_I), PIN_F) == Has(pins, PIN_F)
  {
    hide Has, With, Without;
    assert Span(0) == PIN_F && Span(1) == PIN_I;
    OneBit(pins, 1, 0);
    OneBit(pins, 1, 1);
  }

  lemma CpuFlags(flags: Word, flag: Word, other: Word)
    requires flag in {FLAG_INIT, FLAG_WAIT, FLAG_WATCHPOINT} && other in {FLAG_INIT, FLAG_WAIT, FLAG_WATCHPOINT}
    ensures Has(With(flags, flag), other) == (Has(flags, other) || other == flag)
    ensures Has(Without(flags, flag), other) == (Has(flags, other) && other != flag)
  {
    hide Has, With, Without;
    assert Span(0) == FLAG_INIT && Span(1) == FLAG_WAIT && Span(2) == FLAG_WATCHPOINT;
    var j := if flag == FLAG_INIT then 0 else if flag == FLAG_WAIT then 1 else 2;
    var i := if other == FLAG_INIT then 0 else if other == FLAG_WAIT then 1 else 2;
    OneBit(flags, j, i);
  }
}
