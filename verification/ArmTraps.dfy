/**
 * Turns of the loop by the word fetched (step.c:24-243, init.c:10-23): which cause leads to which vector with which
 * link word, how a handler returns, and what a turn does that executes nothing.
 */
module ArmTraps {
  import opened Prelude
  import opened ArmWords
  import opened ArmBits
  import opened ArmMemory
  import opened ArmState
  import opened ArmDecode
  import opened ArmExecute
  import opened ArmStep
  import opened ArmBanking
  import opened ArmBlocks
  import opened ArmEncode
  import opened ArmMacros
  import opened ArmTransfers
  import opened ArmAborts

  // ----- the fetch -----

  /** Where the next turn fetches from. */
  function FetchAt(s: State): Word {
    (s.pc + 4) % 0x400_0000
  }

  /** The state is neither waiting nor about to enter an interrupt. */
  predicate Awake(s: State) {
    && (s.wait ==> s.pinI || s.pinF)
    && (s.pinF ==> s.r15.f) && (s.pinI ==> s.r15.i)
  }

  /** The next turn fetches w from RAM that is present, and no breakpoint is there. */
  predicate Fetches(s: State, w: Word) {
    && Awake(s) && FetchAt(s) / 4 !in s.stops.breaks
    && PageOf(FetchAt(s)) in s.mem.pages && s.mem.pages[PageOf(FetchAt(s))].Ram?
    && s.mem.pages[PageOf(FetchAt(s))].words[WordOf(FetchAt(s))] == w
  }

  /** What the instruction sees: the program counter on it and r15 eight bytes further. */
  function Fetched(s: State): State {
    s.(pc := FetchAt(s), r15 := s.r15.(addr := Align(FetchAt(s) + 8)))
  }

  lemma {:induction false} StepObeys(s: State, w: Word)
    requires Fetches(s, w)
    ensures Step(s) == Obey(Fetched(s), w)
  {
    hide Obey, EnterFiq, EnterIrq, PageOf, WordOf, Align;
    var t := Fetched(s);
    assert Advance(s) == t && t.(mem := t.mem) == t;
    assert Touch(t.mem, t.pc) == Some(t.mem);
  }

  /** An instruction whose condition does not hold is skipped. */
  lemma ConditionSkips(s: State, w: Word)
    requires Fetches(s, w) && !Holds(w / 0x1000_0000, s.r15)
    ensures Step(s) == Running(Fetched(s))
  {
    hide Exec, Decode, Align;
    StepObeys(s, w);
    SameFlags(s);
  }

  /** The condition codes do not depend on the address. */
  lemma SameFlags(s: State)
    ensures forall c: nat :: Holds(c, Fetched(s).r15) <==> Holds(c, s.r15)
  {
  }

  /** The conditions of the flags, and the two that hold always and never. */
  lemma ConditionsMean(st: Status)
    ensures (Holds(0, st) <==> st.z) && (Holds(1, st) <==> !st.z)
    ensures (Holds(4, st) <==> st.n) && (Holds(5, st) <==> !st.n)
    ensures (Holds(6, st) <==> st.v) && (Holds(7, st) <==> !st.v)
    ensures Holds(14, st) && !Holds(15, st)
  {
  }

  // ----- entry -----

  /**
   * t is what an exception leaves of u: the next fetch from `place`, supervisor mode with its registers, interrupts
   * masked, the fast one not, the flags clear, r15 as it was in r14_svc, and every other register kept.
   */
  predicate Entered(u: State, t: State, place: nat) {
    && FetchAt(t) == place
    && t.r15 == Status(false, false, false, false, true, false, u.r15.addr, SUP)
    && t.regs == u.regs[17 := Pack(u.r15)]
    && t == u.(regs := t.regs, r15 := t.r15, pc := t.pc, effective := Bank(SUP))
  }

  lemma {:induction false} TrapEnters(u: State, e: Exception)
    requires Banked(u) && e != Breakpoint
    ensures Settle(u.r15.mode, Raise(u, e)).Running?
    ensures var t := Settle(u.r15.mode, Raise(u, e)).s;
            && (e == SoftwareInterrupt ==> Entered(u, t, 0x8))
            && (e == PrefetchAbort ==> Entered(u, t, 0xc))
            && (e == DataAbort ==> Entered(u, t, 0x10))
            && (e == AddressException ==> Entered(u, t, 0x14))
  {
    hide Bank, Rebanked, Pack;
    RebankedIsBank(u.r15.mode, SUP);
  }

  /** An instruction that is executed decides the turn. */
  lemma {:induction false} Executes(s: State, w: Word)
    requires Fetches(s, w) && Holds(w / 0x1000_0000, s.r15)
    ensures Step(s) == Settle(s.r15.mode, Exec(Fetched(s), Decode(w)))
  {
    hide Exec, Decode, Align, Fetches, Holds, Settle, Step;
    StepObeys(s, w);
    SameFlags(s);
  }

  lemma SwiRaises(s: State, comment: nat)
    requires comment < 0x100_0000
    ensures Exec(s, Swi(comment)) == Raise(s, if comment == 0xbe_eeef then Breakpoint else SoftwareInterrupt)
  {
  }

  /** SWI: to 0x8. The comment that is a breakpoint stops the emulator, which would fetch the instruction again. */
  lemma {:induction false} SwiEnters(s: State, cond: RegNo, comment: nat)
    requires comment < 0x100_0000 && Banked(s) && Fetches(s, SwiWord(cond, comment)) && Holds(cond, s.r15)
    ensures if comment == 0xbe_eeef then
              Step(s).Stopped? && FetchAt(Step(s).s) == FetchAt(s) && Step(s).s == Fetched(s).(pc := Step(s).s.pc)
            else Step(s).Running? && Entered(Fetched(s), Step(s).s, 0x8)
  {
    hide Bank, Pack, Decode, Align, Entered, Fetches, SwiWord, Holds, Exec, Step, Rebank, Trap;
    SwiDecodes(cond, comment);
    Executes(s, SwiWord(cond, comment));
    SwiRaises(Fetched(s), comment);
    StillBanked(s, Fetched(s));
    if comment == 0xbe_eeef {
      BackFour(FetchAt(s));
    } else {
      TrapEnters(Fetched(s), SoftwareInterrupt);
    }
  }

  /** A fetch from a page that is missing while there is no RAM for it: to 0xc. */
  lemma {:induction false} FetchAborts(s: State)
    requires Awake(s) && Banked(s) && PageOf(FetchAt(s)) !in s.mem.pages && s.mem.free < 0x1000
    ensures Step(s).Running? && Entered(Fetched(s), Step(s).s, 0xc)
  {
    hide Bank, Pack, Align, Entered, Obey, EnterFiq, EnterIrq;
    var u := Fetched(s);
    assert Advance(s) == u;
    StillBanked(s, u);
    TrapEnters(u, PrefetchAbort);
  }

  /**
   * LDR and STR: an address of more than 26 bits leads to 0x14, a refused access to 0x10. The base is not moved and
   * nothing else is changed but that the page of a refused access may have been paged in.
   */
  lemma {:induction false} SingleTraps(s: State, w: Word)
    requires Fetches(s, w) && Holds(w / 0x1000_0000, s.r15) && Decode(w).Single? && Banked(s)
    ensures var u, i := Fetched(s), Decode(w);
            var a := Accessed(u, i);
            && (a >= 0x400_0000 ==> Step(s).Running? && Entered(u, Step(s).s, 0x14))
            && (a < 0x400_0000 && Refused(s.mem, s.r15.mode, i.load, i.byte, a) ==>
                  Step(s).Running? && Entered(u.(mem := AfterRefusal(s.mem, a)), Step(s).s, 0x10))
  {
    hide Bank, Pack, Align, Entered, Fetches, Decode, Exec, Accessed, Refused, AfterRefusal, Step, Holds;
    var u, i := Fetched(s), Decode(w);
    Executes(s, w);
    StillBanked(s, u);
    SingleOutcome(u, i);
    var a := Accessed(u, i);
    if a >= 0x400_0000 {
      TrapEnters(u, AddressException);
    } else {
      var v := u.(mem := AfterRefusal(s.mem, a));
      StillBanked(s, v);
      TrapEnters(v, DataAbort);
    }
  }

  // ----- swaps -----

  lemma {:induction false} SwapTraps(s: State, w: Word)
    requires Fetches(s, w) && Holds(w / 0x1000_0000, s.r15) && Decode(w).Swap? && Decode(w).rn < 15 && Banked(s)
    ensures var i := Decode(w);
            var u := Fetched(s);
            var a := Reg(u, i.rn);
            && (a >= 0x400_0000 ==> Step(s).Running? && Entered(u, Step(s).s, 0x14))
            && (a < 0x400_0000 && Refused(s.mem, s.r15.mode, false, i.byte, a) ==>
                  Step(s).Running? && Entered(u.(mem := AfterRefusal(s.mem, a)), Step(s).s, 0x10))
  {
    hide Bank, Pack, Align, Entered, Fetches, Decode, Exec, Refused, AfterRefusal, Step, Holds, Reg;
    var u, i := Fetched(s), Decode(w);
    Executes(s, w);
    StillBanked(s, u);
    SwapOutcome(u, i);
    var a := Reg(u, i.rn);
    if a >= 0x400_0000 {
      TrapEnters(u, AddressException);
    } else {
      var v := u.(mem := AfterRefusal(s.mem, a));
      StillBanked(s, v);
      TrapEnters(v, DataAbort);
    }
  }

  // ----- blocks -----

  /**
   * LDM and STM: a block from an address of more than 26 bits on leads to 0x14, a refused one to 0x10. The base may
   * have been moved, and the part of a block before the refused word transferred.
   */
  lemma {:induction false} BlockTraps(s: State, w: Word)
    requires Fetches(s, w) && Holds(w / 0x1000_0000, s.r15) && Decode(w).Block? && Banked(s)
    ensures var u, i := Fetched(s), Decode(w);
            && (Lowest(u, i) >= 0x400_0000 ==> Step(s).Running? && Entered(WithBase(u, i), Step(s).s, 0x14))
            && (Lowest(u, i) < 0x400_0000 && InsideSpace(u, i) && Refuses(u, i) ==>
                  Step(s).Running? && Exec(u, i).Raise? && KeepsR15(u, Exec(u, i).s) &&
                  Entered(Exec(u, i).s, Step(s).s, 0x10))
  {
    hide Bank, Pack, Align, Entered, Fetches, Decode, Exec, Lowest, InsideSpace, Refuses, WithBase, Step, Holds;
    var u, i := Fetched(s), Decode(w);
    Executes(s, w);
    StillBanked(s, u);
    BlockOutcome(u, i);
    if Lowest(u, i) >= 0x400_0000 {
      WithBaseKeeps(u, i);
      StillBanked(u, WithBase(u, i));
      TrapEnters(WithBase(u, i), AddressException);
    } else if InsideSpace(u, i) && Refuses(u, i) {
      var v := Exec(u, i).s;
      StillBanked(u, v);
      TrapEnters(v, DataAbort);
    }
  }

  // ----- interrupts -----

  /** A fast interrupt: to 0x1c with both masks set and r14_fiq four bytes behind what would have been executed. */
  lemma {:induction false} FiqEnters(s: State)
    requires s.pinF && !s.r15.f && Banked(s)
    ensures Step(s).Running?
    ensures var u, t := Fetched(s), Step(s).s;
            && FetchAt(t) == 0x1c && t.r15 == u.r15.(mode := FIQ, f := true, i := true)
            && t.regs == u.regs[26 := Wrap(Pack(u.r15) - 4)]
            && t == u.(regs := t.regs, r15 := t.r15, pc := t.pc, effective := Bank(FIQ))
  {
    hide Bank, Pack, Align, FetchAndObey;
    EntryTables(s.r15.mode);
    assert Advance(s) == Fetched(s);
  }

  /** An interrupt, if no fast one is taken: to 0x18; the pin falls and a wait ends. */
  lemma {:induction false} IrqEnters(s: State)
    requires s.pinI && !s.r15.i && (s.pinF ==> s.r15.f) && Banked(s)
    ensures Step(s).Running?
    ensures var u, t := Fetched(s), Step(s).s;
            && FetchAt(t) == 0x18 && t.r15 == u.r15.(mode := IRQ, i := true)
            && t.regs == u.regs[19 := Wrap(Pack(u.r15) - 4)]
            && t == u.(regs := t.regs, r15 := t.r15, pc := t.pc, effective := Bank(IRQ), pinI := false, wait := false)
  {
    hide Bank, Pack, Align, FetchAndObey;
    EntryTables(s.r15.mode);
    assert Advance(s) == Fetched(s);
  }

  // ----- return -----

  /** Taking d off a packed r15 takes it off the address, unless that borrows from the flags. */
  lemma {:induction false} Subtracted(st: Status, d: nat)
    requires 0 < d <= 8 && d % 4 == 0
    ensures var t := Unpack(Wrap(Pack(st) - d));
            && t.addr == (st.addr - d) % 0x400_0000 && t.mode == st.mode
            && (t == st.(addr := (st.addr - d) % 0x400_0000) <==> st.addr >= d)
  {
    hide FlagBits, Bits, Number, Unpack;
    var p, x := FlagBits(st), st.addr + st.mode;
    FlagBitsFit(st);
    Split(p, x);
    var w := Wrap(Pack(st) - d);
    var t := Unpack(w);
    if st.addr >= d {
      var st' := st.(addr := st.addr - d);
      Split(p, x - d);
      SameFlagBits(st, st');
      assert w == Pack(st');
      UnpackPack(st');
    } else {
      Borrowed(p, st.addr, st.mode, d);
      UnpackLow(w);
      PackUnpack(w);
      FlagsOfPack(t);
      if t == st.(addr := (st.addr - d) % 0x400_0000) {
        SameFlagBits(st, t);
        assert false;
      }
    }
  }

  lemma SameFlagBits(st: Status, t: Status)
    requires t == st.(addr := t.addr)
    ensures FlagBits(t) == FlagBits(st)
  {
    hide Number;
  }

  lemma FlagsOfPack(t: Status)
    ensures Pack(t) / 0x400_0000 == FlagBits(t)
  {
    hide FlagBits;
    FlagBitsFit(t);
    Split(FlagBits(t), t.addr + t.mode);
  }

  lemma UnpackLow(w: Word)
    ensures Unpack(w).addr == w % 0x400_0000 / 4 * 4 && Unpack(w).mode == w % 4
  {
    hide Bits;
  }

  lemma Borrowed(p: nat, addr: Addr, mode: Mode, d: nat)
    requires p < 64 && addr < d <= 8 && d % 4 == 0
    ensures var w := Wrap(p * 0x400_0000 + (addr + mode) - d);
            && w / 0x400_0000 != p && w % 4 == mode && w % 0x400_0000 / 4 * 4 == 0x400_0000 + addr - d
  {
    var w := Wrap(p * 0x400_0000 + (addr + mode) - d);
    var low: nat := 0x400_0000 + addr - d + mode;
    var q: nat := if p == 0 then 63 else p - 1;
    assert w == q * 0x400_0000 + low;
    Quotient(w, 0x400_0000, q, low);
    assert low % 4 == mode && low / 4 * 4 == low - mode by {
      Quarter((0x400_0000 + addr - d) / 4, mode);
    }
    Quarter(q * 0x100_0000 + (0x400_0000 + addr - d) / 4, mode);
  }

  /**
   * `subs pc, lr, #k` continues at the address and in the mode of st, and changes nothing else; its flags are those of
   * st if and only if `whole`.
   */
  predicate Resumes(u: State, k: nat, st: Status, whole: bool)
    requires k <= 8
  {
    var e := Exec(u, Alu(2, true, 14, 15, Immediate(k)));
    && e.Done? && FetchAt(e.s) == st.addr && e.s == u.(r15 := e.s.r15, pc := e.s.pc)
    && e.s.r15.addr == st.addr && e.s.r15.mode == st.mode
    && (e.s.r15 == st <==> whole)
  }

  /**
   * `subs pc, lr, #k` outside user mode, where r14 is the r15 of an instruction less `back`: four bytes in all resume
   * behind the instruction, eight at it, in its mode; its flags are restored too unless the place eight bytes further
   * lies beyond the end of the address space and the difference borrows from them.
   */
  lemma {:induction false} ReturnsTo(s: State, u: State, back: nat, k: nat)
    requires FetchAt(s) % 4 == 0 && Banked(u) && u.r15.mode != USR
    requires 0 < k && back + k <= 8 && back % 4 == 0 && k % 4 == 0
    requires Reg(u, 14) == Wrap(Pack(Fetched(s).r15) - back)
    ensures Resumes(u, k, s.r15.(addr := Align(FetchAt(s) + 8 - (back + k))), Align(FetchAt(s) + 8) >= back + k)
  {
    hide Banked, Pack, Unpack, Reg, Exec, Align, Wrap;
    var st := Fetched(s).r15;
    Subtracted(st, back + k);
    WrapTwice(Pack(st), back, k);
    AlignedPlace(FetchAt(s), back + k);
    Links(u, k);
  }

  /** `subs pc, lr, #k` outside user mode unpacks what lies k below the link register. */
  lemma {:induction false} Links(u: State, k: nat)
    requires u.r15.mode != USR && k <= 8
    ensures var e, st := Exec(u, Alu(2, true, 14, 15, Immediate(k))), Unpack(Wrap(Reg(u, 14) - k));
            e.Done? && e.s == u.(r15 := st, pc := e.s.pc) && FetchAt(e.s) == st.addr
  {
    hide Pack, Unpack, Reg, Not, Wrap;
    SubtractedSum(Reg(u, 14), k);
    BackFour(Unpack(Wrap(Reg(u, 14) - k)).addr);
  }

  lemma WrapTwice(x: Word, back: nat, k: nat)
    ensures Wrap(Wrap(x - back) - k) == Wrap(x - (back + k))
  {
  }

  lemma SubtractedSum(link: Word, k: nat)
    requires k <= 8
    ensures Sum(link, Not(k), true).value == Wrap(link - k)
  {
  }

  lemma AlignedPlace(a: Word, d: nat)
    requires a < 0x400_0000 && a % 4 == 0 && d <= 8 && d % 4 == 0
    ensures (Align(a + 8) - d) % 0x400_0000 == Align(a + 8 - d)
  {
    var x, y := (a + 8) % 0x400_0000, (a + 8 - d) % 0x400_0000;
    assert x % 4 == 0 && y % 4 == 0;
  }

  /** A handler of an exception, whatever it did to other registers: #8 tries the instruction again, #4 skips it. */
  lemma {:induction false} TrapReturns(s: State, v: State, t: State, place: nat, u: State, k: nat)
    requires FetchAt(s) % 4 == 0 && v.r15 == Fetched(s).r15 && Entered(v, t, place)
    requires Banked(u) && u.r15.mode == SUP && u.regs[17] == t.regs[17] && (k == 4 || k == 8)
    ensures Resumes(u, k, s.r15.(addr := Align(FetchAt(s) + 8 - k)),
                    if k == 4 then FetchAt(s) != 0x3ff_fff8 else FetchAt(s) < 0x3ff_fff8)
  {
    hide Pack, Unpack, Exec, Align, Banked, Reg, Resumes;
    LinkInSlot(u, SUP, 17);
    assert Reg(u, 14) == Wrap(Pack(Fetched(s).r15) - 0);
    ReturnsTo(s, u, 0, k);
    EightOn(FetchAt(s));
  }

  /** The handler of a SWI returns behind it. */
  lemma {:induction false} SwiReturns(s: State, cond: RegNo, comment: nat, u: State)
    requires comment < 0x100_0000 && comment != 0xbe_eeef && Banked(s) && FetchAt(s) % 4 == 0
    requires Fetches(s, SwiWord(cond, comment)) && Holds(cond, s.r15)
    requires Step(s).Running? && Banked(u) && u.r15.mode == SUP && u.regs[17] == Step(s).s.regs[17]
    ensures Resumes(u, 4, s.r15.(addr := Align(FetchAt(s) + 4)), FetchAt(s) != 0x3ff_fff8)
  {
    hide Fetches, SwiWord, Holds, Step, Align, Banked, Resumes, Entered;
    SwiEnters(s, cond, comment);
    TrapReturns(s, Fetched(s), Step(s).s, 0x8, u, 4);
  }

  lemma EightOn(a: Word)
    requires a < 0x400_0000 && a % 4 == 0
    ensures Align(a) == a
    ensures Align(a + 8) >= 4 <==> a != 0x3ff_fff8
    ensures Align(a + 8) >= 8 <==> a < 0x3ff_fff8
  {
    var x := (a + 8) % 0x400_0000;
    assert x % 4 == 0;
  }

  lemma LinkInSlot(u: State, mode: Mode, k: Index)
    requires Banked(u) && u.r15.mode == mode && mode != USR
    requires k == if mode == SUP then 17 else if mode == IRQ then 19 else 26
    ensures Reg(u, 14) == u.regs[k]
  {
    assert Bank(mode)[14] == Slot(mode, 14);
  }

  /** The handler of a fast interrupt resumes the instruction that was put off, in its mode. */
  lemma {:induction false} FiqReturns(s: State, u: State)
    requires s.pinF && !s.r15.f && Banked(s) && FetchAt(s) % 4 == 0
    requires Step(s).Running? && Banked(u) && u.r15.mode == FIQ && u.regs[26] == Step(s).s.regs[26]
    ensures Resumes(u, 4, s.r15.(addr := FetchAt(s)), FetchAt(s) < 0x3ff_fff8)
  {
    hide Pack, Unpack, Exec, Step, Align;
    FiqEnters(s);
    LinkInSlot(u, FIQ, 26);
    ReturnsTo(s, u, 4, 4);
    EightOn(FetchAt(s));
  }

  // ----- stops -----

  /** At a breakpoint the emulator stops before the instruction, and would fetch it again. */
  lemma {:induction false} BreakpointStops(s: State)
    requires Awake(s) && FetchAt(s) / 4 in s.stops.breaks && PageOf(FetchAt(s)) in s.mem.pages
    ensures Step(s).Stopped? && FetchAt(Step(s).s) == FetchAt(s) && Step(s).s == Fetched(s).(pc := Step(s).s.pc)
  {
    hide Obey, EnterFiq, EnterIrq, PageOf, WordOf, Align;
    var t := Fetched(s);
    assert Advance(s) == t && t.(mem := t.mem) == t;
    assert Touch(t.mem, t.pc) == Some(t.mem);
    BackFour(t.pc);
  }

  /**
   * A load or store that hits a watchpoint is carried out and stops the emulator, which would fetch the same
   * instruction again unless it has loaded r15.
   */
  lemma {:induction false} WatchpointStops(s: State, w: Word)
    requires Fetches(s, w) && Holds(w / 0x1000_0000, s.r15) && Decode(w).Single? && Banked(s)
    requires var i := Decode(w); (i.rn < 15 || !WritesBase(i)) && !(i.load && i.rd == 15)
    requires var u, i := Fetched(s), Decode(w);
             var a := Accessed(u, i);
             && a < 0x400_0000 && !Refused(s.mem, s.r15.mode, i.load, i.byte, a)
             && (s.watch || a / 4 in if i.load then s.stops.loads else s.stops.stores)
    ensures Exec(Fetched(s), Decode(w)).Done?
    ensures var t := Exec(Fetched(s), Decode(w)).s;
            Step(s) == Stopped(t.(watch := false, pc := Wrap(t.pc - 4))) && FetchAt(Step(s).s) == FetchAt(s)
  {
    hide Banked, Pack, Align, Fetches, Decode, Exec, Accessed, Refused, Holds, Step, Reg, Load, MemoryAfter, Moved;
    var u, i := Fetched(s), Decode(w);
    Executes(s, w);
    StillBanked(s, u);
    SingleMoves(u, i);
    BackFour(u.pc);
  }

  /** After init the processor fetches from address 0 in supervisor mode with interrupts masked. */
  lemma Reset(size: Word, devices: seq<Device>, answers: seq<Word>)
    ensures var s := Initial(size, devices, answers);
            && FetchAt(s) == 0 && s.r15.mode == SUP && s.r15.i && !s.r15.f && Banked(s) && s.mem.free == size
            && s.mem.pages == map[] && !s.wait && !s.pinI && !s.pinF && !s.watch
  {
  }
}
