/**
 * User mode is confined (instructions.c:347-375, 438-589, 628-783, 815-817, step.c:314-319): no instruction but a
 * transfer from the coprocessor into r15 lets a user program change the interrupt masks, the mode, a register of
 * another mode or a word of page zero, and the only other way out of user mode is through a vector.
 */
module ArmIsolation {
  import opened Prelude
  import opened ArmWords
  import opened ArmMemory
  import opened ArmState
  import opened ArmDecode
  import opened ArmExecute
  import opened ArmStep
  import opened ArmFrame
  import opened ArmBanking

  predicate User(s: State) {
    s.r15.mode == USR && Banked(s) && Valid(s.mem)
  }

  /** Page zero, which is all zeros and not writable if it still has to be paged in. */
  function PageZero(m: Memory): Page {
    if 0 in m.pages then m.pages[0] else Ram(ZeroPage(), false)
  }

  predicate ZeroKept(m: Memory, t: Memory) {
    Valid(t) && PageZero(t) == PageZero(m) && (0 in m.pages ==> 0 in t.pages)
  }

  /** The registers of the other modes. */
  predicate OthersKept(s: State, t: State) {
    forall k: Index :: 16 <= k ==> t.regs[k] == s.regs[k]
  }

  predicate Confined(s: State, t: State) {
    && t.r15.i == s.r15.i && t.r15.f == s.r15.f && t.r15.mode == s.r15.mode && t.effective == s.effective
    && OthersKept(s, t) && ZeroKept(s.mem, t.mem)
  }

  lemma {:induction false} ConfinedTransitive(s: State, t: State, u: State)
    requires Confined(s, t) && Confined(t, u)
    ensures Confined(s, u)
  {
    forall k: Index | 16 <= k ensures u.regs[k] == s.regs[k] {
      assert t.regs[k] == s.regs[k];
    }
  }

  lemma {:induction false} ConfinedUser(s: State, t: State)
    requires User(s) && Confined(s, t)
    ensures User(t)
  {
  }

  // ----- registers -----

  lemma {:induction false} RegConfined(s: State, n: RegNo, v: Word)
    requires User(s) && n < 15
    ensures Confined(s, SetReg(s, n, v)) && Confined(s, Put(s, n, v)) && Confined(s, s)
    ensures SetReg(s, n, v).mem == s.mem && Put(s, n, v).mem == s.mem
  {
    hide Pack, Unpack;
    assert Bank(USR)[n] == Slot(USR, n);
  }

  lemma {:induction false} PcConfined(s: State, w: Word, flags: bool)
    requires User(s)
    ensures Confined(s, WritePc(s, w, flags)) && Confined(s, Jump(s, w))
    ensures WritePc(s, w, flags).mem == s.mem && Jump(s, w).mem == s.mem
  {
    hide Unpack, Valid, Bank;
  }

  lemma {:induction false} FlagsConfined(s: State, n: bool, z: bool, c: bool, v: bool, pc: Word, hit: bool)
    requires User(s)
    ensures Confined(s, s.(r15 := s.r15.(n := n, z := z, c := c, v := v))) && Confined(s, s.(pc := pc))
    ensures Confined(s, Watched(s, hit))
  {
    hide Bank;
  }

  lemma {:induction false} AluConfined(s: State, i: Instruction)
    requires User(s) && i.Alu?
    ensures Confined(s, ExecAlu(s, i))
  {
    hide Confined, User, AluResult, SetReg, WritePc;
    var r := AluResult(s, i);
    if i.rd == 15 {
      PcConfined(s, r.value, i.setFlags);
    } else {
      var t := if i.setFlags then SetFlags(s, r) else s;
      RegConfined(s, 0, 0);
      FlagsConfined(s, Top(r.value), r.value == 0, r.c, r.v, 0, false);
      ConfinedUser(s, t);
      RegConfined(t, i.rd, r.value);
      ConfinedTransitive(s, t, SetReg(t, i.rd, r.value));
    }
  }

  lemma {:induction false} MultiplyConfined(s: State, i: Instruction)
    requires User(s) && i.Multiply?
    ensures Confined(s, ExecMultiply(s, i))
  {
    hide Confined, User, MultiplyResult, SetReg;
    var r := MultiplyResult(s, i);
    var t := if i.rd == 15 then s else SetReg(s, i.rd, r);
    RegConfined(s, if i.rd == 15 then 0 else i.rd, r);
    ConfinedUser(s, t);
    RegConfined(t, 0, 0);
    FlagsConfined(t, Top(r), r == 0, t.r15.c, t.r15.v, 0, false);
    ConfinedTransitive(s, t, ExecMultiply(s, i));
  }

  lemma {:induction false} BranchConfined(s: State, i: Instruction)
    requires User(s) && i.Branch?
    ensures Confined(s, ExecBranch(s, i))
  {
    hide Confined, User, SetReg, LinkWord;
    var t := if i.link then SetReg(s, 14, LinkWord(s)) else s;
    RegConfined(s, 14, LinkWord(s));
    ConfinedUser(s, t);
    FlagsConfined(t, false, false, false, false, (s.pc + 4 + 4 * i.words) % 0x400_0000, false);
    ConfinedTransitive(s, t, ExecBranch(s, i));
  }

  // ----- memory -----

  lemma {:induction false} TouchZero(m: Memory, addr: Word)
    requires Valid(m) && Touch(m, addr).Some?
    ensures ZeroKept(m, Touch(m, addr).value)
  {
    hide ZeroPage;
  }

  lemma {:induction false} LoadZero(m: Memory, addr: Word, byte: bool)
    requires Valid(m) && PageOf(addr) in m.pages
    ensures ZeroKept(m, Load(m, addr, byte).1)
  {
    hide ByteOf, WordOf;
  }

  lemma {:induction false} StoreZero(m: Memory, addr: Word, value: Word, b: Byte)
    requires Valid(m) && PageOf(addr) in m.pages && Writable(m, addr)
    ensures ZeroKept(m, Store(m, addr, value)) && ZeroKept(m, StoreByte(m, addr, b))
  {
    hide PutByte;
  }

  lemma {:induction false} MemoryConfined(s: State, m: Memory, hit: bool)
    requires User(s) && ZeroKept(s.mem, m)
    ensures Confined(s, s.(mem := m)) && Confined(s, Watched(s.(mem := m), hit))
    ensures User(s.(mem := m)) && User(Watched(s.(mem := m), hit))
  {
    hide PageZero, Bank;
  }

  lemma {:induction false} LoadConfined(s: State, rd: RegNo, addr: Word, byte: bool)
    requires User(s) && PageOf(addr) in s.mem.pages
    ensures Confined(s, LoadInto(s, rd, addr, byte))
  {
    hide Confined, ZeroKept, SetReg, Jump, Load, Bank;
    var (value, m) := Load(s.mem, addr, byte);
    LoadZero(s.mem, addr, byte);
    var t := Watched(s.(mem := m), addr / 4 in s.stops.loads);
    MemoryConfined(s, m, addr / 4 in s.stops.loads);
    PcConfined(t, value, false);
    RegConfined(t, if rd == 15 then 0 else rd, value);
    ConfinedTransitive(s, t, LoadInto(s, rd, addr, byte));
  }

  lemma {:induction false} StoreConfined(s: State, rd: RegNo, addr: Word, byte: bool)
    requires User(s) && PageOf(addr) in s.mem.pages && Writable(s.mem, addr)
    ensures Confined(s, StoreFrom(s, rd, addr, byte))
  {
    hide Confined, ZeroKept, Reg, LinkWord, Store, StoreByte, Bank;
    var value := if rd == 15 then LinkWord(s) else Reg(s, rd);
    StoreZero(s.mem, addr, value, value % 0x100);
    MemoryConfined(s, if byte then StoreByte(s.mem, addr, value % 0x100) else Store(s.mem, addr, value),
                   addr / 4 in s.stops.stores);
  }

  lemma {:induction false} UpdateBaseConfined(s: State, i: Instruction, addr: Word, offset: Word)
    requires User(s) && i.Single?
    ensures Confined(s, UpdateBase(s, i, addr, offset))
  {
    hide Confined, User, SetReg, Jump;
    var moved := if i.pre then addr else Offset(i.add, addr, offset);
    PcConfined(s, moved, false);
    RegConfined(s, if i.rn == 15 then 0 else i.rn, moved);
  }

  predicate ConfinedEffect(s: State, e: Effect) {
    match e
    case Done(t) => Confined(s, t)
    case Raise(t, _) => Confined(s, t)
    case Crash => true
  }

  lemma {:induction false} SingleConfined(s: State, i: Instruction)
    requires User(s) && i.Single?
    ensures ConfinedEffect(s, ExecSingle(s, i))
  {
    hide Confined, ZeroKept, Operand2, PlainReg, LoadInto, StoreFrom, UpdateBase, Writable, Touch, Bank, Valid;
    var offset := Operand2(s, i.offset).value;
    var base := PlainReg(s, i.rn);
    var addr := if i.pre then Offset(i.add, base, offset) else base;
    RegConfined(s, 0, 0);
    if addr < 0x400_0000 && Touch(s.mem, addr).Some? {
      TouchZero(s.mem, addr);
      TouchPresent(s.mem, addr);
      var t := s.(mem := Touch(s.mem, addr).value);
      MemoryConfined(s, t.mem, false);
      if i.load || !NoStore(t, addr, i.byte) {
        var u := if i.load then LoadInto(t, i.rd, addr, i.byte) else StoreFrom(t, i.rd, addr, i.byte);
        if i.load {
          LoadConfined(t, i.rd, addr, i.byte);
        } else {
          StoreConfined(t, i.rd, addr, i.byte);
        }
        ConfinedUser(t, u);
        UpdateBaseConfined(u, i, addr, offset);
        ConfinedTransitive(s, t, u);
        ConfinedTransitive(s, u, UpdateBase(u, i, addr, offset));
      }
    }
  }

  // ----- swap -----

  lemma {:induction false} SwapEndConfined(s: State, rd: RegNo, value: Word, m: Memory, hit: bool)
    requires User(s) && ZeroKept(s.mem, m)
    ensures var u := if rd == 15 then Jump(s, value) else SetReg(s, rd, value);
            Confined(s, Watched(u.(mem := m), hit))
  {
    hide Confined, ZeroKept, SetReg, Jump, Bank;
    var u := if rd == 15 then Jump(s, value) else SetReg(s, rd, value);
    PcConfined(s, value, false);
    RegConfined(s, if rd == 15 then 0 else rd, value);
    ConfinedUser(s, u);
    assert u.mem == s.mem;
    MemoryConfined(u, m, hit);
    ConfinedTransitive(s, u, Watched(u.(mem := m), hit));
  }

  lemma {:induction false} SwapWordConfined(s: State, i: Instruction, addr: Word)
    requires User(s) && i.Swap? && PageOf(addr) in s.mem.pages && Writable(s.mem, addr)
    ensures Confined(s, SwapWord(s, i, addr))
  {
    hide Confined, SetReg, Jump, Reg, LinkWord, Load, Store, ZeroKept, Bank, Valid;
    var (value, m) := Load(s.mem, addr, false);
    LoadZero(s.mem, addr, false);
    LoadKeepsPages(s.mem, addr);
    MemoryConfined(s, m, false);
    var t := s.(mem := m);
    var stored := if i.rm == 15 then LinkWord(t) else Reg(t, i.rm);
    var hit := addr / 4 in s.stops.stores || addr / 4 in s.stops.loads;
    StoreZero(m, addr, stored, 0);
    SwapEndConfined(t, i.rd, value, Store(m, addr, stored), hit);
    ConfinedTransitive(s, t, SwapWord(s, i, addr));
  }

  lemma {:induction false} SwapByteConfined(s: State, i: Instruction, addr: Word)
    requires User(s) && i.Swap? && PageOf(addr) in s.mem.pages && s.mem.pages[PageOf(addr)].Ram?
    requires Writable(s.mem, addr)
    ensures Confined(s, SwapByte(s, i, addr))
  {
    hide Confined, SetReg, Jump, Reg, LinkWord, Load, StoreByte, ZeroKept, Bank, Valid;
    var stored := if i.rm == 15 then LinkWord(s) else Reg(s, i.rm);
    var hit := addr / 4 in s.stops.stores || addr / 4 in s.stops.loads;
    StoreZero(s.mem, addr, 0, stored % 0x100);
    SwapEndConfined(s, i.rd, Load(s.mem, addr, true).0, StoreByte(s.mem, addr, stored % 0x100), hit);
  }

  lemma {:induction false} SwapConfined(s: State, i: Instruction)
    requires User(s) && i.Swap?
    ensures ConfinedEffect(s, ExecSwap(s, i))
  {
    hide Confined, ZeroKept, Reg, PcBase, SwapWord, SwapByte, Writable, Touch, Bank, Valid;
    var addr := if i.rn == 15 then PcBase(s) else Reg(s, i.rn);
    RegConfined(s, 0, 0);
    if addr < 0x400_0000 && Touch(s.mem, addr).Some? {
      TouchZero(s.mem, addr);
      TouchPresent(s.mem, addr);
      var t := s.(mem := Touch(s.mem, addr).value);
      MemoryConfined(s, t.mem, false);
      if !NoStore(t, addr, i.byte) {
        SwapWordConfined(t, i, addr);
        ConfinedTransitive(s, t, SwapWord(t, i, addr));
        if t.mem.pages[PageOf(addr)].Ram? {
          SwapByteConfined(t, i, addr);
          ConfinedTransitive(s, t, SwapByte(t, i, addr));
        }
      }
    }
  }

  // ----- block transfers -----

  lemma {:induction false} BlockLoadConfined(s: State, p: Plan, rs: RegNo, addr: Word)
    requires User(s) && PageOf(addr) in s.mem.pages
    ensures Confined(s, BlockLoad(s, p, rs, addr))
  {
    hide Confined, ZeroKept, SetReg, Put, WritePc, Load, Bank;
    var (value, m) := Load(s.mem, addr, false);
    LoadZero(s.mem, addr, false);
    var t := Watched(s.(mem := m), addr / 4 in s.stops.loads);
    MemoryConfined(s, m, addr / 4 in s.stops.loads);
    PcConfined(t, value, p.flags);
    RegConfined(t, if rs == 15 then 0 else rs, value);
    ConfinedTransitive(s, t, BlockLoad(s, p, rs, addr));
  }

  lemma {:induction false} BlockStoreConfined(s: State, p: Plan, rs: RegNo, addr: Word)
    requires User(s) && PageOf(addr) in s.mem.pages && Writable(s.mem, addr)
    ensures Confined(s, BlockStore(s, p, rs, addr))
  {
    hide Confined, ZeroKept, BlockValue, Store, Bank;
    StoreZero(s.mem, addr, BlockValue(s, p, rs), 0);
    MemoryConfined(s, Store(s.mem, addr, BlockValue(s, p, rs)), addr / 4 in s.stops.stores);
  }

  lemma {:induction false} ConfinedThen(s: State, t: State, e: Effect)
    requires Confined(s, t) && ConfinedEffect(t, e)
    ensures ConfinedEffect(s, e)
  {
    hide Confined;
    match e
    case Done(u) => ConfinedTransitive(s, t, u);
    case Raise(u, _) => ConfinedTransitive(s, t, u);
    case Crash =>
  }

  lemma {:induction false} TransferConfined(s: State, p: Plan, rs: nat, abort: bool)
    requires User(s) && rs <= 16
    ensures ConfinedEffect(s, Transfer(s, p, rs, abort))
    decreases 16 - rs, 1
  {
    hide Confined, Touch, BlockLoad, BlockStore, AddressOf, ZeroKept, Writable, Bank, Valid;
    RegConfined(s, 0, 0);
    if rs == 16 {
    } else if !BitAt(p.list, rs) {
      TransferConfined(s, p, rs + 1, abort);
    } else {
      var addr := AddressOf(p, rs);
      if PageOf(addr) < NUM_PAGE_TABLES && Touch(s.mem, addr).Some? {
        TouchZero(s.mem, addr);
        TouchPresent(s.mem, addr);
        var t := s.(mem := Touch(s.mem, addr).value);
        MemoryConfined(s, t.mem, false);
        TransferOneConfined(s, t, p, rs, addr, abort);
      }
    }
  }

  lemma {:induction false} TransferOneConfined(s: State, t: State, p: Plan, rs: RegNo, addr: Word, abort: bool)
    requires Confined(s, t) && User(t) && PageOf(addr) in t.mem.pages
    ensures ConfinedEffect(s, Transfer(t, p, rs + 1, true))
    ensures ConfinedEffect(s, Transfer(BlockLoad(t, p, rs, addr), p, rs + 1, abort))
    ensures Writable(t.mem, addr) ==> ConfinedEffect(s, Transfer(BlockStore(t, p, rs, addr), p, rs + 1, false))
    decreases 16 - rs, 0
  {
    hide Confined, ConfinedEffect, Transfer, BlockLoad, BlockStore, Writable, User;
    var load := BlockLoad(t, p, rs, addr);
    BlockLoadConfined(t, p, rs, addr);
    ConfinedUser(t, load);
    TransferConfined(t, p, rs + 1, true);
    TransferConfined(load, p, rs + 1, abort);
    ConfinedThen(s, t, Transfer(t, p, rs + 1, true));
    ConfinedTransitive(s, t, load);
    ConfinedThen(s, load, Transfer(load, p, rs + 1, abort));
    if Writable(t.mem, addr) {
      var store := BlockStore(t, p, rs, addr);
      BlockStoreConfined(t, p, rs, addr);
      ConfinedUser(t, store);
      TransferConfined(store, p, rs + 1, false);
      ConfinedTransitive(s, t, store);
      ConfinedThen(s, store, Transfer(store, p, rs + 1, false));
    }
  }

  lemma {:induction false} BlockConfined(s: State, i: Instruction)
    requires User(s) && i.Block?
    ensures ConfinedEffect(s, ExecBlock(s, i))
  {
    hide Confined, User, BlockPlan, Transfer, SetReg, Put, BlockEnd;
    var p := BlockPlan(s, i);
    var t := WriteBack(s, i);
    RegConfined(s, if i.rn == 15 then 0 else i.rn, BlockEnd(i, Reg(s, i.rn)));
    ConfinedUser(s, t);
    TransferConfined(t, p, 0, false);
    ConfinedThen(s, t, Transfer(t, p, 0, false));
  }

  // ----- coprocessor 1 -----

  /** MRC into r15 of a word that does not have the masks and mode r15 has. */
  predicate Escalates(s: State, i: Instruction) {
    && i.CopRegister? && i.proc == 1 && i.crn < 4 && i.opcode == 1 && i.rd == 15
    && var u := Unpack(HwReg(s, i.crn));
       u.mode != USR || u.i != s.r15.i || u.f != s.r15.f
  }

  lemma {:induction false} OredStatus(st: Status, w: Word)
    requires st.mode == USR
    ensures OrIntoPc(st, w).(addr := 0) == Unpack(w).(addr := 0)
  {
    hide Align, Bits, Or;
    FieldsOfOr(st.addr, w);
  }

  lemma {:induction false} HwConfined(s: State, t: State)
    requires User(s) && t == s.(mem := t.mem, hw := t.hw, wait := t.wait) && ZeroKept(s.mem, t.mem)
    ensures Confined(s, t)
  {
    hide ZeroKept, Bank;
  }

  lemma {:induction false} ManagerTransferConfined(s: State, i: Instruction)
    requires User(s) && i.CopRegister? && i.proc == 1
    ensures Confined(s, ManagerTransfer(s, i)) <==> !Escalates(s, i)
  {
    hide SetReg, Reg, OrIntoPc, Unpack, Bank, ZeroKept;
    RegConfined(s, 0, 0);
    if i.crn < 4 && i.opcode / 2 == 0 {
      OredStatus(s.r15, HwReg(s, i.crn));
      HwConfined(s, SetHw(s, i.crn, Reg(s, i.rd)));
      if i.rd != 15 {
        RegConfined(s, i.rd, HwReg(s, i.crn));
      }
    }
  }

  lemma {:induction false} MapZero(m: Memory, d: Word, start: Word, end: Word)
    requires Valid(m)
    ensures ZeroKept(m, MapMemory(m, d, start, end).0)
  {
    MapMemoryGrows(m, d, start, end);
  }

  lemma {:induction false} AskZero(m: Memory, d: nat, kind: Kind, offset: Word, value: Word)
    requires Valid(m)
    ensures ZeroKept(m, Ask(m, d, kind, offset, value).1)
  {
  }

  lemma {:induction false} ManagerOperationConfined(s: State, i: Instruction)
    requires User(s) && i.CopData?
    ensures Confined(s, ManagerOperation(s, i))
  {
    hide Confined, User, ZeroKept, MapMemory, Ask, ManagerOperation;
    RegConfined(s, 0, 0);
    UserMode(s);
    ManagerShape(s, i);
    if i.crd < 4 && i.crm < 4 && i.crn < 4 {
      MapZero(s.mem, HwReg(s, i.crd), HwReg(s, i.crn), HwReg(s, i.crm));
      AskZero(s.mem, HwReg(s, i.crd), Operate(HwReg(s, i.crn)), 0, HwReg(s, i.crm));
      ZeroKeptSame(s.mem);
      HwConfined(s, ManagerOperation(s, i));
    }
  }

  lemma {:induction false} ManagerShape(s: State, i: Instruction)
    requires i.CopData?
    ensures var t := ManagerOperation(s, i);
            if i.crd < 4 && i.crm < 4 && i.crn < 4 then
              && t == s.(mem := t.mem, hw := t.hw, wait := t.wait)
              && (t.mem == s.mem || t.mem == MapMemory(s.mem, HwReg(s, i.crd), HwReg(s, i.crn), HwReg(s, i.crm)).0
                  || t.mem == Ask(s.mem, HwReg(s, i.crd), Operate(HwReg(s, i.crn)), 0, HwReg(s, i.crm)).1)
            else t == s
  {
    hide MapMemory, Ask, DeviceOperation, HwReg, SetHw;
    SetHwShape(s, 0, s.hw.lastId, 1, s.hw.lastCode);
    SetHwShape(s, 0, 0x617a_6977, 1, 0x7972_6472);
    if i.crd < 4 && i.crm < 4 && i.crn < 4 {
      DeviceShape(s, i.crd, HwReg(s, i.crn), HwReg(s, i.crm));
      SetHwShape(s, i.crd, Wrap(|s.mem.devices|), 0, 0);
      if HwReg(s, i.crd) < |s.mem.devices| {
        SetHwShape(s, 0, s.mem.devices[HwReg(s, i.crd)].id, 0, 0);
      }
    }
  }

  lemma {:induction false} SetHwShape(s: State, k: HwNo, v: Word, k': HwNo, v': Word)
    ensures SetHw(s, k, v) == s.(hw := SetHw(s, k, v).hw)
    ensures SetHw(SetHw(s, k, v), k', v') == s.(hw := SetHw(SetHw(s, k, v), k', v').hw)
  {
  }

  lemma {:induction false} DeviceShape(s: State, crd: HwNo, arg0: Word, arg1: Word)
    ensures var t := DeviceOperation(s, crd, arg0, arg1);
            && t == s.(mem := t.mem, hw := t.hw)
            && (t.mem == s.mem || t.mem == Ask(s.mem, HwReg(s, crd), Operate(arg0), 0, arg1).1)
  {
    hide Ask;
  }

  lemma ZeroKeptSame(m: Memory)
    requires Valid(m)
    ensures ZeroKept(m, m)
  {
  }

  lemma UserMode(s: State)
    requires User(s)
    ensures s.r15.mode == USR && Valid(s.mem)
  {
  }

  /** Exactly which instructions keep a user program confined, whether they raise an exception or not. */
  lemma {:induction false} ExecConfined(s: State, i: Instruction)
    requires User(s)
    ensures ConfinedEffect(s, Exec(s, i)) <==> !Escalates(s, i)
  {
    hide Confined, User, ExecAlu, ExecMultiply, ExecSwap, ExecSingle, ExecBranch, ExecBlock;
    hide ManagerTransfer, ManagerOperation;
    RegConfined(s, 0, 0);
    match i
    case Alu(_, _, _, _, _) => AluConfined(s, i);
    case Multiply(_, _, _, _, _, _) => MultiplyConfined(s, i);
    case Swap(_, _, _, _) => SwapConfined(s, i);
    case Single(_, _, _, _, _, _, _, _) => SingleConfined(s, i);
    case Branch(_, _) => BranchConfined(s, i);
    case Block(_, _, _, _, _, _, _) => BlockConfined(s, i);
    case Swi(_) =>
    case CopTransfer =>
    case CopRegister(proc, _, _, _) => if proc == 1 { ManagerTransferConfined(s, i); }
    case CopData(_, _, _, _, _, _) => ManagerOperationConfined(s, i);
  }

  // ----- turns and runs -----

  function LinkOf(mode: Mode): Index {
    if mode == SUP then LR_SUP else if mode == IRQ then LR_IRQ else LR_FIQ
  }

  predicate VectorOf(mode: Mode, pc: nat) {
    if mode == SUP then pc == 0x8 || pc == 0xc || pc == 0x10 || pc == 0x14
    else if mode == IRQ then pc == 0x18
    else mode == FIQ && pc == 0x1c
  }

  /** An exception or interrupt: masked, about to fetch from a vector, one link register written, page zero intact. */
  predicate AtVector(s: State, t: State) {
    && t.r15.i && VectorOf(t.r15.mode, t.pc + 4) && ZeroKept(s.mem, t.mem)
    && forall k: Index :: 16 <= k && k != LinkOf(t.r15.mode) ==> t.regs[k] == s.regs[k]
  }

  predicate Guarded(s: State, t: State) {
    Confined(s, t) || AtVector(s, t)
  }

  lemma {:induction false} GuardedAfter(s: State, t: State, u: State)
    requires Confined(s, t) && Guarded(t, u)
    ensures Guarded(s, u)
  {
    if Confined(t, u) {
      ConfinedTransitive(s, t, u);
    } else {
      forall k: Index | 16 <= k && k != LinkOf(u.r15.mode) ensures u.regs[k] == s.regs[k] {
        assert t.regs[k] == s.regs[k];
      }
    }
  }

  lemma {:induction false} SettleGuarded(s: State, e: Effect)
    requires User(s) && ConfinedEffect(s, e)
    ensures Settle(USR, e) != Broken ==> Guarded(s, Settle(USR, e).s)
  {
    hide Pack, ZeroKept, Bank, Banked, Valid;
    match e
    case Done(t) => assert Confined(s, Settle(USR, e).s);
    case Raise(t, x) =>
      if x == Breakpoint {
        assert Confined(s, Settle(USR, e).s);
      } else {
        assert AtVector(s, Settle(USR, e).s);
      }
    case Crash =>
  }

  /** Before the fetch: r15 follows the program counter, and the page may have to be paged in. */
  lemma {:induction false} AdvanceConfined(s: State)
    requires User(s)
    ensures User(Advance(s)) && Confined(s, Advance(s))
  {
    hide Bank, ZeroKept;
    RegConfined(s, 0, 0);
  }

  lemma {:induction false} HaltConfined(s: State)
    requires User(s)
    ensures Confined(s, s.(pc := Wrap(s.pc - 4)))
  {
    FlagsConfined(s, false, false, false, false, Wrap(s.pc - 4), false);
  }

  /** The instruction of this turn, if there is one, does not escalate. */
  predicate Tame(s: State) {
    Issue(s).Some? ==> !Escalates(Issue(s).value.0, Issue(s).value.1)
  }

  lemma {:induction false} FetchGuarded(s: State)
    requires User(s)
    requires Touch(s.mem, s.pc).Some? && s.pc / 4 !in s.stops.breaks ==>
               var m := Touch(s.mem, s.pc).value;
               m.pages[PageOf(s.pc)].Ram? ==>
                 var w := m.pages[PageOf(s.pc)].words[WordOf(s.pc)];
                 Holds(Condition(w), s.r15) ==> !Escalates(s.(mem := m), Decode(w))
    ensures FetchAndObey(s) != Broken ==> Guarded(s, FetchAndObey(s).s)
  {
    hide Confined, User, AtVector, Exec, Decode, Settle, Holds, Touch, Escalates;
    RegConfined(s, 0, 0);
    UserMode(s);
    if Touch(s.mem, s.pc).None? {
      SettleGuarded(s, Raise(s, PrefetchAbort));
    } else {
      TouchZero(s.mem, s.pc);
      TouchPresent(s.mem, s.pc);
      var t := s.(mem := Touch(s.mem, s.pc).value);
      MemoryConfined(s, t.mem, false);
      HaltConfined(t);
      ConfinedTransitive(s, t, t.(pc := Wrap(t.pc - 4)));
      if s.pc / 4 !in s.stops.breaks && t.mem.pages[PageOf(s.pc)].Ram? {
        var w := t.mem.pages[PageOf(s.pc)].words[WordOf(s.pc)];
        if Holds(Condition(w), t.r15) {
          ExecConfined(t, Decode(w));
          SettleGuarded(t, Exec(t, Decode(w)));
          if Settle(USR, Exec(t, Decode(w))) != Broken {
            GuardedAfter(s, t, Settle(USR, Exec(t, Decode(w))).s);
          }
        }
      }
    }
  }

  lemma {:induction false} InterruptGuarded(s: State)
    requires User(s)
    ensures Guarded(s, EnterFiq(s)) && Guarded(s, EnterIrq(s))
  {
    hide Pack, Entries, Banked;
    assert AtVector(s, EnterFiq(s));
    assert AtVector(s, EnterIrq(s));
  }

  /** A turn of a user program leaves it confined, or at a vector. */
  lemma {:induction false} UserTurn(s: State)
    requires User(s) && Tame(s) && Step(s) != Broken
    ensures Guarded(s, Step(s).s)
  {
    hide Confined, User, AtVector, FetchAndObey, EnterFiq, EnterIrq, Decode, Holds, Touch, Escalates;
    var t := Advance(s);
    RegConfined(s, 0, 0);
    AdvanceConfined(s);
    InterruptGuarded(t);
    if !(s.wait && !s.pinI && !s.pinF) {
      if TakesFiq(t) {
        GuardedAfter(s, t, EnterFiq(t));
      } else if TakesIrq(t) {
        GuardedAfter(s, t, EnterIrq(t));
      } else {
        FetchGuarded(t);
        if FetchAndObey(t) != Broken {
          GuardedAfter(s, t, FetchAndObey(t).s);
        }
      }
    }
  }

  /** In every state of the run the processor is in user mode, and no instruction escalates. */
  predicate UserRun(s: State, es: seq<Event>)
    decreases |es|
  {
    && s.r15.mode == USR && Tame(s)
    && (es == [] || Remains(After(s, es[0])).None? || UserRun(Remains(After(s, es[0])).value, es[1..]))
  }

  lemma {:induction false} FaultZero(m: Memory, addr: Word)
    requires Valid(m)
    ensures ZeroKept(m, Fault(m, addr).0)
  {
    hide ZeroPage;
  }

  lemma {:induction false} AttachZero(m: Memory, d: Device)
    requires Valid(m)
    ensures ZeroKept(m, Attach(m, d))
  {
  }

  lemma {:induction false} EventConfined(s: State, e: Event)
    requires User(s) && Tame(s) && Remains(After(s, e)).Some? && Remains(After(s, e)).value.r15.mode == USR
    ensures Confined(s, Remains(After(s, e)).value)
  {
    hide Step, Tame, MapMemory, ZeroKept, Bank;
    RegConfined(s, 0, 0);
    match e
    case Tick => UserTurn(s);
    case Map(d, start, end) => MapZero(s.mem, d, start, end);
    case PageIn(addr) => FaultZero(s.mem, addr);
    case Plug(unit) => AttachZero(s.mem, unit);
    case _ =>
  }

  /** As long as a run stays in user mode, everything that is not the user's is as it was. */
  lemma {:induction false} UserRunConfined(s: State, es: seq<Event>)
    requires User(s) && UserRun(s, es) && Run(s, es).Some?
    ensures Confined(s, Run(s, es).value)
    decreases |es|
  {
    hide After, Confined, Tame, User;
    RegConfined(s, 0, 0);
    if es != [] {
      var t := Remains(After(s, es[0])).value;
      EventConfined(s, es[0]);
      ConfinedUser(s, t);
      UserRunConfined(t, es[1..]);
      ConfinedTransitive(s, t, Run(t, es[1..]).value);
    }
  }
}
