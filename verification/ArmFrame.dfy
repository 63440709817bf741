/** What no instruction changes: the table of registers, the pins, the stops, the last interrupt, the kinds of pages. */
module ArmFrame {
  import opened Prelude
  import opened ArmWords
  import opened ArmMemory
  import opened ArmState
  import opened ArmDecode
  import opened ArmExecute

  /** Nothing but registers, r15, pc and the memory differs, except that a watchpoint may have been hit. */
  predicate Calm(s: State, t: State) {
    && t == s.(regs := t.regs, r15 := t.r15, pc := t.pc, mem := t.mem, watch := t.watch)
    && Grows(s.mem, t.mem)
    && (t.watch && !s.watch ==> s.stops.loads != {} || s.stops.stores != {})
  }

  lemma {:induction false} CalmTransitive(s: State, t: State, u: State)
    requires Calm(s, t) && Calm(t, u)
    ensures Calm(s, u)
  {
    GrowsTransitive(s.mem, t.mem, u.mem);
  }

  lemma {:induction false} MemoryCalm(s: State, m: Memory)
    requires Grows(s.mem, m)
    ensures Calm(s, s.(mem := m))
  {
  }

  /** The ways in which instructions write registers. */
  lemma {:induction false} WritesCalm(s: State, n: RegNo, v: Word, st: Status, pc: Word)
    ensures Calm(s, s) && Calm(s, SetReg(s, n, v)) && Calm(s, Put(s, n, v)) && Calm(s, s.(r15 := st, pc := pc))
  {
    hide Grows, Pack, Unpack;
    SamePagesGrow(s.mem, s.mem);
  }

  lemma {:induction false} WritePcCalm(s: State, w: Word, flags: bool)
    ensures Calm(s, WritePc(s, w, flags)) && Calm(s, Jump(s, w))
  {
    hide Calm, Unpack, Pack;
    var t := WritePc(s, w, flags);
    var u := Jump(s, w);
    WritesCalm(s, 0, 0, t.r15, t.pc);
    WritesCalm(s, 0, 0, u.r15, u.pc);
  }

  lemma {:induction false} AluCalm(s: State, i: Instruction)
    requires i.Alu?
    ensures Calm(s, ExecAlu(s, i))
  {
    hide Calm, AluResult, SetReg, WritePc;
    var r := AluResult(s, i);
    var t := SetFlags(s, r);
    WritePcCalm(s, r.value, i.setFlags);
    WritesCalm(s, i.rd, r.value, t.r15, t.pc);
    WritesCalm(t, i.rd, r.value, t.r15, t.pc);
    CalmTransitive(s, t, SetReg(t, i.rd, r.value));
  }

  lemma {:induction false} MultiplyCalm(s: State, i: Instruction)
    requires i.Multiply?
    ensures Calm(s, ExecMultiply(s, i))
  {
    hide Calm, MultiplyResult, SetReg;
    var r := MultiplyResult(s, i);
    var t := if i.rd == 15 then s else SetReg(s, i.rd, r);
    var st := t.r15.(n := Top(r), z := r == 0);
    WritesCalm(s, i.rd, r, s.r15, s.pc);
    WritesCalm(t, 0, 0, st, t.pc);
    CalmTransitive(s, t, t.(r15 := st));
  }

  lemma {:induction false} BranchCalm(s: State, i: Instruction)
    requires i.Branch?
    ensures Calm(s, ExecBranch(s, i))
  {
    hide Calm, SetReg, LinkWord;
    var t := if i.link then SetReg(s, 14, LinkWord(s)) else s;
    var pc := (s.pc + 4 + 4 * i.words) % 0x400_0000;
    WritesCalm(s, 14, LinkWord(s), s.r15, s.pc);
    WritesCalm(t, 14, 0, t.r15, pc);
    CalmTransitive(s, t, t.(pc := pc));
  }

  /** A load or store: the memory and the watchpoint flag. */
  lemma {:induction false} AccessCalm(s: State, m: Memory, addr: Word)
    requires Grows(s.mem, m)
    ensures Calm(s, Watched(s.(mem := m), addr / 4 in s.stops.loads))
    ensures Calm(s, Watched(s.(mem := m), addr / 4 in s.stops.stores))
    ensures Calm(s, Watched(s.(mem := m), addr / 4 in s.stops.stores || addr / 4 in s.stops.loads))
  {
    hide Grows;
  }

  lemma {:induction false} LoadCalm(s: State, rd: RegNo, addr: Word, byte: bool)
    requires PageOf(addr) in s.mem.pages
    ensures Calm(s, LoadInto(s, rd, addr, byte))
  {
    hide Calm, Grows, SetReg, Jump, Load;
    var (value, m) := Load(s.mem, addr, byte);
    LoadGrows(s.mem, addr, byte);
    AccessCalm(s, m, addr);
    var t := Watched(s.(mem := m), addr / 4 in s.stops.loads);
    WritePcCalm(t, value, false);
    WritesCalm(t, rd, value, t.r15, t.pc);
    CalmTransitive(s, t, LoadInto(s, rd, addr, byte));
  }

  lemma {:induction false} StoreCalm(s: State, rd: RegNo, addr: Word, byte: bool)
    requires PageOf(addr) in s.mem.pages
    ensures Calm(s, StoreFrom(s, rd, addr, byte))
  {
    var value := if rd == 15 then LinkWord(s) else Reg(s, rd);
    hide Calm, Grows, Reg, LinkWord, Store, StoreByte;
    StoreByteGrows(s.mem, addr, value % 0x100);
    StoreGrows(s.mem, addr, value);
    AccessCalm(s, if byte then StoreByte(s.mem, addr, value % 0x100) else Store(s.mem, addr, value), addr);
  }

  lemma {:induction false} UpdateBaseCalm(s: State, i: Instruction, addr: Word, offset: Word)
    requires i.Single?
    ensures Calm(s, UpdateBase(s, i, addr, offset))
  {
    hide Calm, SetReg, Jump;
    var moved := if i.pre then addr else Offset(i.add, addr, offset);
    WritesCalm(s, i.rn, moved, s.r15, s.pc);
    WritePcCalm(s, moved, false);
  }

  predicate CalmEffect(s: State, e: Effect) {
    match e
    case Done(t) => Calm(s, t)
    case Raise(t, _) => Calm(s, t)
    case Crash => true
  }

  lemma {:induction false} TouchPresent(m: Memory, addr: Word)
    requires Touch(m, addr).Some?
    ensures PageOf(addr) in Touch(m, addr).value.pages
  {
  }

  lemma {:induction false} SingleCalm(s: State, i: Instruction)
    requires i.Single?
    ensures CalmEffect(s, ExecSingle(s, i))
  {
    hide Calm, Operand2, PlainReg, LoadInto, StoreFrom, UpdateBase, NoStore, Touch, Grows;
    WritesCalm(s, 0, 0, s.r15, s.pc);
    var offset := Operand2(s, i.offset).value;
    var base := PlainReg(s, i.rn);
    var addr := if i.pre then Offset(i.add, base, offset) else base;
    SamePagesGrow(s.mem, s.mem);
    if addr < 0x400_0000 && Touch(s.mem, addr).Some? {
      TouchGrows(s.mem, addr);
      TouchPresent(s.mem, addr);
      var t := s.(mem := Touch(s.mem, addr).value);
      MemoryCalm(s, t.mem);
      LoadCalm(t, i.rd, addr, i.byte);
      StoreCalm(t, i.rd, addr, i.byte);
      var u := if i.load then LoadInto(t, i.rd, addr, i.byte) else StoreFrom(t, i.rd, addr, i.byte);
      UpdateBaseCalm(u, i, addr, offset);
      CalmTransitive(s, t, u);
      CalmTransitive(s, u, UpdateBase(u, i, addr, offset));
    }
  }

  lemma {:induction false} CalmStops(s: State, t: State)
    requires Calm(s, t)
    ensures t.stops == s.stops
  {
  }

  lemma {:induction false} SwapEnd(s: State, t: State, rd: RegNo, value: Word, m: Memory, addr: Word)
    requires Calm(s, t) && Grows(t.mem, m)
    ensures var u := if rd == 15 then Jump(t, value) else SetReg(t, rd, value);
            Calm(s, Watched(u.(mem := m), addr / 4 in s.stops.stores || addr / 4 in s.stops.loads))
  {
    hide Calm, Grows, Unpack;
    WritesCalm(t, rd, value, t.r15, t.pc);
    WritePcCalm(t, value, false);
    var u := if rd == 15 then Jump(t, value) else SetReg(t, rd, value);
    assert u.mem == t.mem;
    AccessCalm(u, m, addr);
    CalmTransitive(s, t, u);
    CalmStops(s, u);
    CalmTransitive(s, u, Watched(u.(mem := m), addr / 4 in s.stops.stores || addr / 4 in s.stops.loads));
  }

  lemma {:induction false} SwapWordCalm(s: State, i: Instruction, addr: Word)
    requires i.Swap? && PageOf(addr) in s.mem.pages
    ensures Calm(s, SwapWord(s, i, addr))
  {
    hide Calm, Grows, SetReg, Jump, Reg, LinkWord, Load, Store;
    var (value, m) := Load(s.mem, addr, false);
    LoadGrows(s.mem, addr, false);
    LoadKeepsPages(s.mem, addr);
    var t := s.(mem := m);
    MemoryCalm(s, m);
    var stored := if i.rm == 15 then LinkWord(t) else Reg(t, i.rm);
    StoreGrows(m, addr, stored);
    SwapEnd(s, t, i.rd, value, Store(m, addr, stored), addr);
  }

  lemma {:induction false} SwapByteCalm(s: State, i: Instruction, addr: Word)
    requires i.Swap? && PageOf(addr) in s.mem.pages && s.mem.pages[PageOf(addr)].Ram?
    ensures Calm(s, SwapByte(s, i, addr))
  {
    var stored := if i.rm == 15 then LinkWord(s) else Reg(s, i.rm);
    hide Calm, Grows, SetReg, Jump, Reg, LinkWord, StoreByte;
    StoreByteGrows(s.mem, addr, stored % 0x100);
    WritesCalm(s, 0, 0, s.r15, s.pc);
    SwapEnd(s, s, i.rd, Load(s.mem, addr, true).0, StoreByte(s.mem, addr, stored % 0x100), addr);
  }

  lemma {:induction false} SwapCalm(s: State, i: Instruction)
    requires i.Swap?
    ensures CalmEffect(s, ExecSwap(s, i))
  {
    hide Calm, Grows, Reg, PcBase, NoStore, Touch, SwapWord, SwapByte;
    WritesCalm(s, 0, 0, s.r15, s.pc);
    var addr := if i.rn == 15 then PcBase(s) else Reg(s, i.rn);
    SamePagesGrow(s.mem, s.mem);
    if addr < 0x400_0000 && Touch(s.mem, addr).Some? {
      TouchGrows(s.mem, addr);
      TouchPresent(s.mem, addr);
      var t := s.(mem := Touch(s.mem, addr).value);
      MemoryCalm(s, t.mem);
      SwapWordCalm(t, i, addr);
      CalmTransitive(s, t, SwapWord(t, i, addr));
      if t.mem.pages[PageOf(addr)].Ram? {
        SwapByteCalm(t, i, addr);
        CalmTransitive(s, t, SwapByte(t, i, addr));
      }
    }
  }

  lemma {:induction false} BlockLoadCalm(s: State, p: Plan, rs: RegNo, addr: Word)
    requires PageOf(addr) in s.mem.pages
    ensures Calm(s, BlockLoad(s, p, rs, addr))
  {
    hide Calm, Grows, SetReg, Put, WritePc, Load;
    var (value, m) := Load(s.mem, addr, false);
    LoadGrows(s.mem, addr, false);
    AccessCalm(s, m, addr);
    var t := Watched(s.(mem := m), addr / 4 in s.stops.loads);
    WritePcCalm(t, value, p.flags);
    WritesCalm(t, rs, value, t.r15, t.pc);
    CalmTransitive(s, t, BlockLoad(s, p, rs, addr));
  }

  lemma {:induction false} BlockStoreCalm(s: State, p: Plan, rs: RegNo, addr: Word)
    requires PageOf(addr) in s.mem.pages
    ensures Calm(s, BlockStore(s, p, rs, addr))
  {
    hide Calm, Grows, BlockValue, Store;
    StoreGrows(s.mem, addr, BlockValue(s, p, rs));
    AccessCalm(s, Store(s.mem, addr, BlockValue(s, p, rs)), addr);
  }

  /** One turn of the loop and the rest of it. */
  lemma {:induction false} CalmThen(s: State, t: State, e: Effect)
    requires Calm(s, t) && CalmEffect(t, e)
    ensures CalmEffect(s, e)
  {
    match e
    case Done(u) => CalmTransitive(s, t, u);
    case Raise(u, _) => CalmTransitive(s, t, u);
    case Crash =>
  }

  lemma {:induction false} TransferCalm(s: State, p: Plan, rs: nat, abort: bool)
    requires rs <= 16
    ensures CalmEffect(s, Transfer(s, p, rs, abort))
    decreases 16 - rs
  {
    hide Calm, Grows, Touch, BlockLoad, BlockStore, AddressOf;
    WritesCalm(s, 0, 0, s.r15, s.pc);
    if rs == 16 {
    } else if !BitAt(p.list, rs) {
      TransferCalm(s, p, rs + 1, abort);
    } else {
      var addr := AddressOf(p, rs);
      if PageOf(addr) < NUM_PAGE_TABLES && Touch(s.mem, addr).Some? {
        TouchGrows(s.mem, addr);
        TouchPresent(s.mem, addr);
        var t := s.(mem := Touch(s.mem, addr).value);
        MemoryCalm(s, t.mem);
        TransferOneCalm(s, t, p, rs, addr, abort);
      }
    }
  }

  lemma {:induction false} TransferOneCalm(s: State, t: State, p: Plan, rs: RegNo, addr: Word, abort: bool)
    requires Calm(s, t) && PageOf(addr) in t.mem.pages
    ensures CalmEffect(s, Transfer(t, p, rs + 1, true))
    ensures CalmEffect(s, Transfer(BlockLoad(t, p, rs, addr), p, rs + 1, abort))
    ensures CalmEffect(s, Transfer(BlockStore(t, p, rs, addr), p, rs + 1, false))
    decreases 16 - rs, 0
  {
    hide Calm, CalmEffect, Grows, Transfer, BlockLoad, BlockStore;
    var load := BlockLoad(t, p, rs, addr);
    var store := BlockStore(t, p, rs, addr);
    BlockLoadCalm(t, p, rs, addr);
    BlockStoreCalm(t, p, rs, addr);
    TransferCalm(t, p, rs + 1, true);
    TransferCalm(load, p, rs + 1, abort);
    TransferCalm(store, p, rs + 1, false);
    CalmThen(s, t, Transfer(t, p, rs + 1, true));
    CalmTransitive(s, t, load);
    CalmTransitive(s, t, store);
    CalmThen(s, load, Transfer(load, p, rs + 1, abort));
    CalmThen(s, store, Transfer(store, p, rs + 1, false));
  }

  lemma {:induction false} BlockCalm(s: State, i: Instruction)
    requires i.Block?
    ensures CalmEffect(s, ExecBlock(s, i))
  {
    hide Calm, BlockPlan, Transfer, SetReg, Put, BlockEnd;
    var p := BlockPlan(s, i);
    var t := WriteBack(s, i);
    WritesCalm(s, i.rn, BlockEnd(i, Reg(s, i.rn)), s.r15, s.pc);
    TransferCalm(t, p, 0, false);
    CalmThen(s, t, Transfer(t, p, 0, false));
  }

  /** No instruction but those of coprocessors does more than this. */
  lemma {:induction false} ExecCalm(s: State, i: Instruction)
    requires !Cop(i)
    ensures CalmEffect(s, Exec(s, i))
  {
    hide Calm, ExecAlu, ExecMultiply, ExecSwap, ExecSingle, ExecBranch, ExecBlock;
    WritesCalm(s, 0, 0, s.r15, s.pc);
    match i
    case Alu(_, _, _, _, _) => AluCalm(s, i);
    case Multiply(_, _, _, _, _, _) => MultiplyCalm(s, i);
    case Swap(_, _, _, _) => SwapCalm(s, i);
    case Single(_, _, _, _, _, _, _, _) => SingleCalm(s, i);
    case Branch(_, _) => BranchCalm(s, i);
    case Block(_, _, _, _, _, _, _) => BlockCalm(s, i);
    case Swi(_) =>
  }

  // ----- coprocessor 1 -----

  /** A coprocessor instruction may besides change the coprocessor's registers and start a wait. */
  predicate CalmManager(s: State, t: State) {
    && t == s.(regs := t.regs, r15 := t.r15, mem := t.mem, hw := t.hw, wait := t.wait)
    && Grows(s.mem, t.mem)
    && t.hw.lastId == s.hw.lastId && t.hw.lastCode == s.hw.lastCode
    && (t.wait && !s.wait ==> !s.r15.i && !s.r15.f && t.r15 == s.r15)
  }

  lemma {:induction false} ManagerTransferCalm(s: State, i: Instruction)
    requires i.CopRegister?
    ensures CalmManager(s, ManagerTransfer(s, i))
  {
    hide Grows, OrIntoPc, Pack, Unpack;
    SamePagesGrow(s.mem, s.mem);
  }

  lemma {:induction false} SetHwCalm(s: State, k: HwNo, v: Word, k': HwNo, v': Word)
    ensures CalmManager(s, SetHw(s, k, v)) && SetHw(s, k, v).r15 == s.r15
    ensures CalmManager(s, SetHw(SetHw(s, k, v), k', v')) && SetHw(SetHw(s, k, v), k', v').r15 == s.r15
  {
    hide Grows;
    SamePagesGrow(s.mem, s.mem);
  }

  lemma {:induction false} DeviceOperationCalm(s: State, crd: HwNo, arg0: Word, arg1: Word)
    ensures CalmManager(s, DeviceOperation(s, crd, arg0, arg1)) && DeviceOperation(s, crd, arg0, arg1).r15 == s.r15
  {
    hide Grows, Ask;
    SamePagesGrow(s.mem, s.mem);
    TellGrows(s.mem, HwReg(s, crd), Operate(arg0), 0, arg1);
  }

  lemma {:induction false} ManagerOperationCalm(s: State, i: Instruction)
    requires i.CopData?
    ensures CalmManager(s, ManagerOperation(s, i)) && ManagerOperation(s, i).r15 == s.r15
  {
    hide SetHw, HwReg, DeviceOperation, MapMemory, Grows;
    SamePagesGrow(s.mem, s.mem);
    SetHwCalm(s, 0, s.hw.lastId, 1, s.hw.lastCode);
    SetHwCalm(s, 0, 0x617a_6977, 1, 0x7972_6472);
    if i.crd < 4 && i.crm < 4 && i.crn < 4 {
      MapMemoryGrows(s.mem, HwReg(s, i.crd), HwReg(s, i.crn), HwReg(s, i.crm));
      DeviceOperationCalm(s, i.crd, HwReg(s, i.crn), HwReg(s, i.crm));
      SetHwCalm(s, i.crd, Wrap(|s.mem.devices|), 0, 0);
      if HwReg(s, i.crd) < |s.mem.devices| {
        SetHwCalm(s, 0, s.mem.devices[HwReg(s, i.crd)].id, 0, 0);
      }
    }
  }

  lemma {:induction false} CopCalm(s: State, i: Instruction)
    requires Cop(i)
    ensures Exec(s, i).Done? && CalmManager(s, Exec(s, i).s)
  {
    SamePagesGrow(s.mem, s.mem);
    match i
    case CopTransfer =>
    case CopRegister(_, _, _, _) => ManagerTransferCalm(s, i);
    case CopData(_, _, _, _, _, _) => ManagerOperationCalm(s, i);
  }
}
