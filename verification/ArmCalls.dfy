/**
 * Branches and calls (instructions.c:590-602, tests/encode.h:115-121): a branch encoded for two addresses goes from the
 * one to the other, and a call can be returned from.
 */
module ArmCalls {
  import opened Prelude
  import opened ArmWords
  import opened ArmMemory
  import opened ArmState
  import opened ArmDecode
  import opened ArmExecute
  import opened ArmStep
  import opened ArmBlocks
  import opened ArmDispatch
  import opened ArmEncode

  /** `((to - (from + 8)) >> 2) & 0xffffff`, in 32 bits. */
  function BranchOffset(from: Word, to: Word): (r: nat)
    ensures r < 0x100_0000 && r == Wrap(to - Wrap(from + 8)) / 4 % 0x100_0000
  {
    Units();
    Cut(Wrap(to - Wrap(from + 8)), 2, 24);
    And(ShiftRight(Wrap(to - Wrap(from + 8)), 2), 0xff_ffff)
  }

  /** branch of tests/encode.h */
  function BranchTo(cond: RegNo, link: bool, from: Word, to: Word): Word {
    BranchWord(cond, link, BranchOffset(from, to))
  }

  /** Eight bytes on and then by the offset is where the branch is to go, in both directions and around the end. */
  lemma {:induction false} OffsetReaches(from: Addr, to: Addr)
    ensures (from + 8 + 4 * BranchOffset(from, to)) % 0x400_0000 == to
  {
    hide BranchOffset;
    var d := Wrap(to - Wrap(from + 8));
    assert d % 4 == 0 && Wrap(from + 8) == from + 8;
    QuarterThenCut(d);
    if to >= from + 8 {
      assert d == to - (from + 8);
    } else {
      assert d == to - (from + 8) + 0x1_0000_0000;
    }
  }

  lemma QuarterThenCut(d: nat)
    requires d % 4 == 0
    ensures 4 * (d / 4 % 0x100_0000) == d % 0x400_0000
  {
    var q := d / 4 / 0x100_0000;
    DivideTwice(d, 4, 0x100_0000);
  }

  /** The branch is decoded and obeyed: the next turn fetches from its target, and only the link register is written. */
  lemma {:induction false} BranchLands(s: State, cond: RegNo, link: bool, from: Addr, to: Addr)
    requires s.pc == from && Banked(s)
    ensures var w := BranchTo(cond, link, from, to);
            && Condition(w) == cond && Exec(s, Decode(w)).Done?
            && var t := Exec(s, Decode(w)).s;
               && Advance(t).pc == to
               && t == (if link then SetReg(s, 14, LinkWord(s)) else s).(pc := t.pc)
               && (link ==> Reg(t, 14) == Pack(s.r15.(addr := Align(from + 4))))
               && forall n: RegNo :: n < (if link then 14 else 15) ==> Reg(t, n) == Reg(s, n)
  {
    hide Pack, Unpack, Bank, BranchOffset, Decode, Align, Reg, SetReg;
    BranchDecodes(cond, link, BranchOffset(from, to));
    OffsetReaches(from, to);
    Shorter(from, BranchOffset(from, to));
    OneRegister(s, 14, LinkWord(s));
    var u := if link then SetReg(s, 14, LinkWord(s)) else s;
    PcKeepsRegisters(u, Exec(s, Decode(BranchTo(cond, link, from, to))).s);
  }

  lemma PcKeepsRegisters(s: State, t: State)
    requires t == s.(pc := t.pc)
    ensures forall n: RegNo :: Reg(t, n) == Reg(s, n)
  {
  }

  lemma Shorter(from: nat, words: nat)
    ensures ((from + 4 + 4 * words) % 0x400_0000 + 4) % 0x400_0000 == (from + 8 + 4 * words) % 0x400_0000
  {
  }

  /**
   * Whatever has run since the call, `mov pc, lr` with the link in place makes the next turn fetch the instruction
   * behind the call, and `movs pc, lr` outside user mode brings back the flags and mode of the call as well.
   */
  lemma {:induction false} CallReturns(u: State, st: Status, from: Addr, setFlags: bool)
    requires Banked(u) && Reg(u, 14) == Pack(st.(addr := Align(from + 4)))
    ensures var i := Alu(13, setFlags, 0, 15, ByAmount(14, LSL, 0));
            && Exec(u, i).Done?
            && var t := Exec(u, i).s;
               && Advance(t).pc == Align(from + 4)
               && t == u.(r15 := t.r15, pc := t.pc)
               && t.r15 == if !setFlags then u.r15.(addr := Align(from + 4))
                           else if u.r15.mode == USR then
                             st.(addr := Align(from + 4), i := u.r15.i, f := u.r15.f, mode := USR)
                           else st.(addr := Align(from + 4))
  {
    hide Pack, Unpack, Bank, Align, Reg;
    var back := st.(addr := Align(from + 4));
    UnpackPack(back);
    UnpackedAddress(Pack(back));
    ThereAndBack(Align(from + 4));
  }

  lemma UnpackedAddress(w: Word)
    ensures Unpack(w).addr == Align(w)
  {
  }

  lemma ThereAndBack(a: Addr)
    ensures (Wrap(a - 4) + 4) % 0x400_0000 == a
  {
  }
}
