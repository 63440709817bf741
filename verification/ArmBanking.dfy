/**
 * The table `effective` is always that of the current mode (init.c:95-102, step.c:38-77, step.c:214-276), unless
 * the emulator stops at a watchpoint in an instruction that changes the mode.
 */
module ArmBanking {
  import opened Prelude
  import opened ArmWords
  import opened ArmMemory
  import opened ArmState
  import opened ArmDecode
  import opened ArmExecute
  import opened ArmStep
  import opened ArmFrame
  import opened ArmEncode

  // ----- tables -----

  lemma {:induction false} RebankedIsBank(was: Mode, mode: Mode)
    ensures Rebanked(Bank(was), was, mode) == Bank(mode)
  {
    var t, b := Rebanked(Bank(was), was, mode), Bank(mode);
    forall n | 0 <= n < 16 ensures t[n] == b[n] {
      assert b[n] == Slot(mode, n) && Bank(was)[n] == Slot(was, n);
    }
  }

  lemma {:induction false} EntryTables(mode: Mode)
    ensures Entries(Bank(mode), 8, 15, 20) == Bank(FIQ)
    ensures Entries(Entries(Bank(mode), 8, 13, 8), 13, 15, 18) == Bank(IRQ)
  {
    forall n | 0 <= n < 16
      ensures Entries(Bank(mode), 8, 15, 20)[n] == Bank(FIQ)[n]
      ensures Entries(Entries(Bank(mode), 8, 13, 8), 13, 15, 18)[n] == Bank(IRQ)[n]
    {
      assert Bank(mode)[n] == Slot(mode, n);
    }
  }

  lemma {:induction false} BanksDiffer(m: Mode, k: Mode)
    ensures Bank(m) == Bank(k) <==> m == k
  {
    assert Bank(m)[13] == Slot(m, 13) && Bank(k)[13] == Slot(k, 13);
  }

  // ----- turns -----

  function StateOf(e: Effect): State
    requires !e.Crash?
  {
    match e
    case Done(t) => t
    case Raise(t, _) => t
  }

  lemma {:induction false} ExecKeepsTable(s: State, i: Instruction)
    ensures !Exec(s, i).Crash? ==> StateOf(Exec(s, i)).effective == s.effective
  {
    hide Exec, Grows, Cop;
    if Cop(i) {
      CopCalm(s, i);
    } else {
      ExecCalm(s, i);
    }
  }

  /** The instruction was executed to its end, but hit a watchpoint and changed the mode. */
  predicate Unbanks(mode: Mode, e: Effect) {
    e.Done? && e.s.watch && e.s.r15.mode != mode
  }

  lemma {:induction false} SettleBanks(mode: Mode, e: Effect)
    requires !e.Crash? && StateOf(e).effective == Bank(mode)
    requires e.Raise? && e.e == Breakpoint ==> e.s.r15.mode == mode
    ensures Settle(mode, e) != Broken
    ensures Banked(Settle(mode, e).s) <==> !Unbanks(mode, e)
    ensures Unbanks(mode, e) ==> Settle(mode, e).Stopped?
  {
    hide Bank, Rebanked, Pack;
    var after := Settle(mode, e).s.r15.mode;
    RebankedIsBank(mode, after);
    BanksDiffer(mode, after);
  }

  lemma {:induction false} ExecBreakpoint(s: State, i: Instruction)
    ensures Exec(s, i).Raise? && Exec(s, i).e == Breakpoint ==> Exec(s, i).s == s
  {
    hide ExecAlu, ExecMultiply, ExecBranch, ManagerOperation, ManagerTransfer;
    match i
    case Block(_, _, _, _, _, _, _) => TransferAborts(WriteBack(s, i), BlockPlan(s, i), 0, false);
    case _ =>
  }

  lemma {:induction false} TransferAborts(s: State, p: Plan, rs: nat, abort: bool)
    requires rs <= 16
    ensures Transfer(s, p, rs, abort).Raise? ==> Transfer(s, p, rs, abort).e == DataAbort
    decreases 16 - rs
  {
    hide Touch, BlockLoad, BlockStore, AddressOf;
    if rs < 16 {
      TransferAborts(s, p, rs + 1, abort);
      var addr := AddressOf(p, rs);
      if BitAt(p.list, rs) && PageOf(addr) < NUM_PAGE_TABLES && Touch(s.mem, addr).Some? {
        TouchPresent(s.mem, addr);
        var t := s.(mem := Touch(s.mem, addr).value);
        TransferAborts(t, p, rs + 1, true);
        TransferAborts(BlockLoad(t, p, rs, addr), p, rs + 1, abort);
        TransferAborts(BlockStore(t, p, rs, addr), p, rs + 1, false);
      }
    }
  }

  predicate UnbanksTurn(s: State) {
    Issue(s).Some? && Unbanks(s.r15.mode, Exec(Issue(s).value.0, Issue(s).value.1))
  }

  lemma {:induction false} ObeyBanks(s: State, w: Word)
    requires Banked(s)
    ensures var o := Obey(s, w);
            var u := Holds(Condition(w), s.r15) && Unbanks(s.r15.mode, Exec(s, Decode(w)));
            o != Broken ==> (Banked(o.s) <==> !u) && (u ==> o.Stopped?)
  {
    hide Bank, Exec, Decode, Settle, Holds;
    var e := Exec(s, Decode(w));
    ExecKeepsTable(s, Decode(w));
    ExecBreakpoint(s, Decode(w));
    if !e.Crash? {
      SettleBanks(s.r15.mode, e);
    } else {
      assert Settle(s.r15.mode, e) == Broken by { CrashBreaks(s.r15.mode); }
    }
  }

  lemma CrashBreaks(mode: Mode)
    ensures Settle(mode, Crash) == Broken
  {
  }

  lemma {:induction false} FetchBanks(s: State)
    requires Banked(s)
    ensures var o := FetchAndObey(s);
            o != Broken && !(s.pc / 4 !in s.stops.breaks && Touch(s.mem, s.pc).Some?) ==> Banked(o.s)
  {
    hide Bank, Touch, Settle, Obey;
    SettleBanks(s.r15.mode, Raise(s, PrefetchAbort));
  }

  /** Exactly when a turn of the loop leaves the table of another mode than the current one. */
  lemma {:induction false} StepKeepsBanked(s: State)
    requires Banked(s) && Step(s) != Broken
    ensures Banked(Step(s).s) <==> !UnbanksTurn(s)
    ensures UnbanksTurn(s) ==> Step(s).Stopped?
  {
    hide Bank, Exec, Decode, Settle, Holds, Touch, Obey, Entries, Pack;
    var t := Advance(s);
    EntryTables(s.r15.mode);
    FetchBanks(t);
    if Touch(t.mem, t.pc).Some? {
      TouchPresent(t.mem, t.pc);
      var m := Touch(t.mem, t.pc).value;
      if m.pages[PageOf(t.pc)].Ram? {
        var w := m.pages[PageOf(t.pc)].words[WordOf(t.pc)];
        ObeyBanks(t.(mem := m), w);
      }
    }
  }

  // ----- the condition by instruction -----

  /** A mode change by ALU or MRC into r15 does not touch memory: only a flag left over stops the emulator. */
  predicate PendingChange(t: State, mode: Mode) {
    t.watch && mode != t.r15.mode
  }

  /** LDM of r15 with its flags in a privileged mode, a word of the block or an earlier access being watched. */
  predicate WatchedReload(t: State, i: Instruction) {
    && i.Block? && i.load && i.hat && BitAt(i.list, 15) && t.r15.mode != USR
    && (t.watch || exists rs: RegNo :: BitAt(i.list, rs) && AddressOf(BlockPlan(t, i), rs) / 4 in t.stops.loads)
  }

  /** No register but r15 is kept in r15's place. */
  predicate PcApart(e: Table) {
    forall n: RegNo :: n < 15 ==> e[n] != 15
  }

  lemma {:induction false} BankApart(mode: Mode)
    ensures PcApart(Bank(mode))
  {
    assert forall n: RegNo :: Bank(mode)[n] == Slot(mode, n);
  }

  lemma {:induction false} BlockLoadMode(s: State, p: Plan, rs: RegNo, addr: Word)
    requires PageOf(addr) in s.mem.pages && PcApart(s.effective)
    ensures var t := BlockLoad(s, p, rs, addr);
            && t.effective == s.effective && t.stops == s.stops
            && (t.r15.mode != s.r15.mode ==> rs == 15 && p.flags && s.r15.mode != USR)
            && (t.watch ==> s.watch || addr / 4 in s.stops.loads)
  {
    hide Load, Unpack, Pack;
  }

  /** A word watched among those loaded into the registers from rs on. */
  predicate WatchedFrom(s: State, p: Plan, rs: nat) {
    exists n: RegNo :: rs <= n && BitAt(p.list, n) && AddressOf(p, n) / 4 in s.stops.loads
  }

  lemma {:induction false} TransferChanges(s: State, p: Plan, rs: nat, abort: bool)
    requires rs <= 16 && PcApart(s.effective)
    ensures var e := Transfer(s, p, rs, abort);
            e.Done? ==>
              && (e.s.r15.mode != s.r15.mode ==>
                    p.load && p.flags && rs <= 15 && BitAt(p.list, 15) && s.r15.mode != USR)
              && (p.load && e.s.watch ==> s.watch || WatchedFrom(s, p, rs))
    decreases 16 - rs
  {
    hide Touch, BlockLoad, BlockStore, AddressOf, BitAt;
    if rs == 16 {
    } else if !BitAt(p.list, rs) {
      TransferChanges(s, p, rs + 1, abort);
    } else {
      var addr := AddressOf(p, rs);
      if PageOf(addr) < NUM_PAGE_TABLES && Touch(s.mem, addr).Some? {
        TouchPresent(s.mem, addr);
        var t := s.(mem := Touch(s.mem, addr).value);
        TransferChanges(t, p, rs + 1, true);
        BlockLoadMode(t, p, rs, addr);
        TransferChanges(BlockLoad(t, p, rs, addr), p, rs + 1, abort);
        BlockStoreKeeps(t, p, rs, addr);
        TransferChanges(BlockStore(t, p, rs, addr), p, rs + 1, false);
      }
    }
  }

  lemma BlockStoreKeeps(s: State, p: Plan, rs: RegNo, addr: Word)
    requires PageOf(addr) in s.mem.pages
    ensures BlockStore(s, p, rs, addr).effective == s.effective && BlockStore(s, p, rs, addr).r15 == s.r15
  {
  }

  lemma {:induction false} BlockUnbanks(t: State, i: Instruction)
    requires Banked(t) && i.Block? && Unbanks(t.r15.mode, Exec(t, i))
    ensures WatchedReload(t, i)
  {
    hide Transfer, PcBase, BlockStart, BlockEnd, Bank, AddressOf, BitAt, Pack, Unpack;
    BankApart(t.r15.mode);
    var p, u := BlockPlan(t, i), WriteBack(t, i);
    TransferChanges(u, p, 0, false);
  }

  lemma {:induction false} WritesKeepMode(s: State, n: RegNo, v: Word)
    requires PcApart(s.effective)
    ensures Jump(s, v).r15.mode == s.r15.mode && Jump(s, v).effective == s.effective
    ensures n < 15 ==> SetReg(s, n, v).r15 == s.r15 && SetReg(s, n, v).effective == s.effective
  {
    hide Pack, Unpack;
  }

  lemma {:induction false} LoadKeepsMode(s: State, i: Instruction, addr: Word, offset: Word)
    requires i.Single? && PcApart(s.effective) && PageOf(addr) in s.mem.pages
    ensures var u := if i.load then LoadInto(s, i.rd, addr, i.byte) else StoreFrom(s, i.rd, addr, i.byte);
            UpdateBase(u, i, addr, offset).r15.mode == s.r15.mode
  {
    hide Load, Store, StoreByte, LinkWord, Reg, Jump, SetReg;
    var (value, m) := Load(s.mem, addr, i.byte);
    var t := Watched(s.(mem := m), addr / 4 in s.stops.loads);
    WritesKeepMode(t, i.rd, value);
    var u := if i.load then LoadInto(s, i.rd, addr, i.byte) else StoreFrom(s, i.rd, addr, i.byte);
    WritesKeepMode(u, i.rn, if i.pre then addr else Offset(i.add, addr, offset));
  }

  lemma {:induction false} SingleKeepsMode(s: State, i: Instruction)
    requires i.Single? && PcApart(s.effective)
    ensures ExecSingle(s, i).Done? ==> ExecSingle(s, i).s.r15.mode == s.r15.mode
  {
    hide Operand2, PlainReg, LoadInto, StoreFrom, UpdateBase, NoStore, Touch;
    var offset := Operand2(s, i.offset).value;
    var base := PlainReg(s, i.rn);
    var addr := if i.pre then Offset(i.add, base, offset) else base;
    if addr < 0x400_0000 && Touch(s.mem, addr).Some? {
      TouchPresent(s.mem, addr);
      LoadKeepsMode(s.(mem := Touch(s.mem, addr).value), i, addr, offset);
    }
  }

  lemma {:induction false} SwapKeepsMode(s: State, i: Instruction)
    requires i.Swap? && PcApart(s.effective)
    ensures ExecSwap(s, i).Done? ==> ExecSwap(s, i).s.r15.mode == s.r15.mode
  {
    hide Reg, PcBase, SwapWord, SwapByte, NoStore, Touch;
    var addr := if i.rn == 15 then PcBase(s) else Reg(s, i.rn);
    if addr < 0x400_0000 && Touch(s.mem, addr).Some? {
      TouchPresent(s.mem, addr);
      var t := s.(mem := Touch(s.mem, addr).value);
      ExchangeKeepsMode(t, i, addr);
    }
  }

  lemma {:induction false} ExchangeKeepsMode(s: State, i: Instruction, addr: Word)
    requires i.Swap? && PcApart(s.effective) && PageOf(addr) in s.mem.pages
    ensures SwapWord(s, i, addr).r15.mode == s.r15.mode
    ensures s.mem.pages[PageOf(addr)].Ram? ==> SwapByte(s, i, addr).r15.mode == s.r15.mode
  {
    hide Load, Store, StoreByte, LinkWord, Reg, Jump, SetReg;
    var (value, m) := Load(s.mem, addr, false);
    LoadKeepsPages(s.mem, addr);
    WritesKeepMode(s.(mem := m), i.rd, value);
    WritesKeepMode(s, i.rd, Load(s.mem, addr, true).0);
  }

  lemma {:induction false} OthersKeepMode(t: State, i: Instruction)
    requires PcApart(t.effective) && !i.Alu? && !i.Block? && !i.CopRegister?
    ensures Exec(t, i).Done? ==> Exec(t, i).s.r15.mode == t.r15.mode
  {
    hide SetReg, MultiplyResult, LinkWord, ExecSingle, ExecSwap, ManagerOperation, Grows;
    match i
    case Single(_, _, _, _, _, _, _, _) => SingleKeepsMode(t, i);
    case Swap(_, _, _, _) => SwapKeepsMode(t, i);
    case Multiply(_, _, _, _, _, _) => WritesKeepMode(t, i.rd, MultiplyResult(t, i));
    case Branch(_, _) => WritesKeepMode(t, 14, LinkWord(t));
    case CopData(_, _, _, _, _, _) => ManagerOperationCalm(t, i);
    case _ =>
  }

  lemma {:induction false} AluUnbanks(t: State, i: Instruction)
    requires PcApart(t.effective) && i.Alu?
    ensures Unbanks(t.r15.mode, Exec(t, i)) <==>
            i.rd == 15 && i.setFlags && t.r15.mode != USR && PendingChange(t, AluResult(t, i).value % 4)
  {
    hide AluResult, SetReg, Align, Bits;
    var r := AluResult(t, i);
    WritesKeepMode(t, i.rd, r.value);
    WritesKeepMode(SetFlags(t, r), i.rd, r.value);
    SetRegKeepsWatch(t, i.rd, r.value);
    SetRegKeepsWatch(SetFlags(t, r), i.rd, r.value);
  }

  lemma SetRegKeepsWatch(s: State, n: RegNo, v: Word)
    ensures SetReg(s, n, v).watch == s.watch
  {
  }

  lemma {:induction false} CopUnbanks(t: State, i: Instruction)
    requires PcApart(t.effective) && i.CopRegister?
    ensures Unbanks(t.r15.mode, Exec(t, i)) <==>
            i.proc == 1 && i.crn < 4 && i.opcode == 1 && i.rd == 15
            && PendingChange(t, OrIntoPc(t.r15, HwReg(t, i.crn)).mode)
  {
    hide SetReg, Reg, OrIntoPc;
    if i.crn < 4 {
      WritesKeepMode(t, i.rd, HwReg(t, i.crn));
      SetRegKeepsWatch(t, i.rd, HwReg(t, i.crn));
    }
  }

  /** Which instructions can leave the wrong table, and when. */
  lemma {:induction false} UnbanksByInstruction(t: State, i: Instruction)
    requires Banked(t)
    ensures Unbanks(t.r15.mode, Exec(t, i)) ==> i.Alu? || i.Block? || i.CopRegister?
    ensures i.Alu? ==>
              (Unbanks(t.r15.mode, Exec(t, i)) <==>
               i.rd == 15 && i.setFlags && t.r15.mode != USR && PendingChange(t, AluResult(t, i).value % 4))
    ensures i.CopRegister? ==>
              (Unbanks(t.r15.mode, Exec(t, i)) <==>
               i.proc == 1 && i.crn < 4 && i.opcode == 1 && i.rd == 15
               && PendingChange(t, OrIntoPc(t.r15, HwReg(t, i.crn)).mode))
    ensures i.Block? && Unbanks(t.r15.mode, Exec(t, i)) ==> WatchedReload(t, i)
  {
    hide Exec, AluResult, OrIntoPc, WatchedReload, PcApart, Bank, PendingChange;
    BankApart(t.r15.mode);
    if i.Alu? {
      AluUnbanks(t, i);
    } else if i.CopRegister? {
      CopUnbanks(t, i);
    } else if i.Block? {
      if Unbanks(t.r15.mode, Exec(t, i)) {
        BlockUnbanks(t, i);
      }
    } else {
      OthersKeepMode(t, i);
    }
  }

  // ----- runs -----

  predicate NoWatch(s: State) {
    s.stops.loads == {} && s.stops.stores == {} && !s.watch
  }

  lemma {:induction false} ExecNoWatch(s: State, i: Instruction)
    requires NoWatch(s)
    ensures !Exec(s, i).Crash? ==> NoWatch(StateOf(Exec(s, i)))
  {
    hide Exec, Grows, Cop;
    if Cop(i) {
      CopCalm(s, i);
    } else {
      ExecCalm(s, i);
    }
  }

  lemma {:induction false} ObeyNoWatch(s: State, w: Word)
    requires NoWatch(s)
    ensures Obey(s, w) != Broken ==> NoWatch(Obey(s, w).s)
  {
    hide Exec, Decode, Holds, Rebanked, Pack;
    ExecNoWatch(s, Decode(w));
  }

  lemma {:induction false} StepNoWatch(s: State)
    requires NoWatch(s)
    ensures !UnbanksTurn(s)
    ensures Step(s) != Broken ==> NoWatch(Step(s).s)
  {
    hide Exec, Decode, Holds, Touch, Obey, Entries, Pack, Rebanked;
    var t := Advance(s);
    if Touch(t.mem, t.pc).Some? {
      TouchPresent(t.mem, t.pc);
      var m := Touch(t.mem, t.pc).value;
      if m.pages[PageOf(t.pc)].Ram? {
        var w := m.pages[PageOf(t.pc)].words[WordOf(t.pc)];
        ObeyNoWatch(t.(mem := m), w);
        ExecNoWatch(t.(mem := m), Decode(w));
      }
    }
  }

  /** Without watchpoints the table is right in every state of every run. */
  lemma {:induction false} BankedRun(s: State, es: seq<Event>)
    requires Banked(s) && NoWatch(s)
    ensures Run(s, es).Some? ==> Banked(Run(s, es).value) && NoWatch(Run(s, es).value)
    decreases |es|
  {
    hide Step, UnbanksTurn, Bank, MapMemory;
    if es != [] && Remains(After(s, es[0])).Some? {
      if es[0].Tick? {
        StepNoWatch(s);
        StepKeepsBanked(s);
      }
      BankedRun(Remains(After(s, es[0])).value, es[1..]);
    }
  }

  // ----- a watchpoint does leave the wrong table -----

  /** Supervisor mode about to run LDMIA r0,{pc}^ at address 0, which loads itself from a watched word. */
  function WatchedReturn(): State {
    var s := Initial(0x2000, [], []);
    s.(mem := s.mem.(pages := map[0 := Ram(ZeroPage()[0 := RETURN], false)]), stops := Stops({}, {0}, {}))
  }

  const RETURN: Word := 0xe8d0_8000

  lemma {:induction false} OnlyPc(k: nat)
    ensures BitAt(0x8000, k) <==> k == 15
  {
    BitOfSpan(15, k);
    assert Span(5) == 32 && Span(10) == 1024;
    assert Span(15) == 0x8000;
  }

  lemma {:induction false} ReturnDecoded()
    ensures Condition(RETURN) == 14 && Decode(RETURN) == Block(true, false, true, true, false, 0, 0x8000)
  {
    hide Decode;
    MdtDecodes(14, false, true, true, false, true, 0, 0x8000);
  }

  lemma {:induction false} OnlyPcMoves(s: State, p: Plan, k: nat)
    requires k <= 15 && p.list == 0x8000
    ensures Count(p.list, k) == 0
    ensures Transfer(s, p, k, false) == Transfer(s, p, 15, false)
    decreases 15 - k
  {
    CountOnlyPc(k);
    if k < 15 {
      OnlyPc(k);
      OnlyPcMoves(s, p, k + 1);
    }
  }

  lemma {:induction false} CountOnlyPc(k: nat)
    requires k <= 15
    ensures Count(0x8000, k) == 0
    decreases k
  {
    if k > 0 {
      OnlyPc(k - 1);
      CountOnlyPc(k - 1);
    }
  }

  /** LDM of r15 with its flags, from a watched word: the flag is set and r15 is replaced. */
  lemma {:induction false} PcMoved(s: State, p: Plan)
    requires p.load && p.flags && p.list == 0x8000 && p.start == 0 && 0 in s.stops.loads
    requires s.r15.mode == SUP && 0 in s.mem.pages && s.mem.pages[0].Ram? && s.mem.pages[0].words[0] == RETURN
    ensures Transfer(s, p, 0, false).Done? && Unbanks(SUP, Transfer(s, p, 0, false))
  {
    hide Jump, SetReg, Put;
    OnlyPcMoves(s, p, 0);
    OnlyPcMoves(s, p, 15);
    OnlyPc(15);
    assert AddressOf(p, 15) == 0 && Touch(s.mem, 0) == Some(s.mem);
    var t := BlockLoad(s, p, 15, 0);
    assert s.(mem := s.mem) == s;
    assert t.watch && t.r15.mode == RETURN % 4;
    assert Transfer(s, p, 15, false) == Transfer(t, p, 16, false);
  }

  /** The emulator can stop at a watchpoint with the table of the mode it has just left. */
  lemma {:induction false} WatchpointUnbanks()
    ensures var s := WatchedReturn();
            Banked(s) && UnbanksTurn(s) && Step(s).Stopped? && !Banked(Step(s).s)
  {
    hide Transfer, Decode;
    var s := WatchedReturn();
    var t := Advance(s);
    ReturnDecoded();
    var i := Decode(RETURN);
    var u := t.(mem := t.mem);
    OnlyPc(15);
    PcMoved(WriteBack(u, i), BlockPlan(u, i));
    StepKeepsBanked(s);
  }
}
