/**
 * What each instruction does (instructions.c:49-159, 224-940, hw_manager.c:31-149) as functions on the state.
 * They are executed after r15 has been set to the address of the instruction plus eight.
 */
module ArmExecute {
  import opened Prelude
  import opened ArmWords
  import opened ArmMemory
  import opened ArmState
  import opened ArmDecode

  // ----- the second operand -----

  datatype Shifted = Shifted(value: Word, carry: bool)

  function Sign(x: Word): Shifted {
    Shifted(if Top(x) then 0xffff_ffff else 0, Top(x))
  }

  function Left(x: Word, n: nat, c: bool): Shifted {
    if n == 0 then Shifted(x, c)
    else if n < 32 then Shifted(ShiftLeft(x, n), BitAt(x, 32 - n))
    else if n == 32 then Shifted(0, x % 2 == 1)
    else Shifted(0, false)
  }

  function Right(x: Word, n: nat, byRegister: bool): Shifted {
    if n == 0 then if byRegister then Shifted(x, false) else Shifted(0, Top(x))
    else if n < 32 then Shifted(ShiftRight(x, n), BitAt(x, n - 1))
    else if n == 32 then Shifted(0, Top(x))
    else Shifted(0, false)
  }

  function Signed(x: Word, n: nat, byRegister: bool): Shifted {
    if n == 0 then if byRegister then Shifted(x, false) else Sign(x)
    else if n < 32 then Shifted(ShiftSigned(x, n), BitAt(x, n - 1))
    else Sign(x)
  }

  /** A multiple of 32 other than 0 counts as 32. */
  function Turns(n: nat): nat {
    if n <= 32 then n else if n % 32 == 0 then 32 else n % 32
  }

  function Rotated(x: Word, n: nat, byRegister: bool, c: bool): Shifted {
    var k := Turns(n);
    if k == 0 then
      if byRegister then Shifted(x, false) else Shifted(x / 2 + (if c then 0x8000_0000 else 0), x % 2 == 1)
    else if k < 32 then Shifted(Or(ShiftRight(x, k), ShiftLeft(x, 32 - k)), BitAt(x, k - 1))
    else Shifted(x, Top(x))
  }

  function Barrel(x: Word, kind: ShiftKind, n: nat, byRegister: bool, c: bool): Shifted {
    if kind == LSL then Left(x, n, c)
    else if kind == LSR then Right(x, n, byRegister)
    else if kind == ASR then Signed(x, n, byRegister)
    else Rotated(x, n, byRegister, c)
  }

  function ShiftAmount(s: State, rs: RegNo): nat {
    if rs == 15 then (Reg(s, rs) % 0x100 + 8) % 0x100 / 4 * 4 else Reg(s, rs) % 0x100
  }

  /** operand_shift, and the immediate operand, which leaves the carry as it is. */
  function Operand2(s: State, op: Operand): Shifted {
    match op
    case Immediate(value) => Shifted(value, s.r15.c)
    case ByAmount(rm, kind, n) => Barrel(Reg(s, rm), kind, n, false, s.r15.c)
    case ByRegister(rm, kind, rs) => Barrel(Reg(s, rm), kind, ShiftAmount(s, rs), true, s.r15.c)
  }

  /** A register as an operand, r15 without flags and mode. */
  function PlainReg(s: State, n: RegNo): Word {
    if n == 15 then s.r15.addr else Reg(s, n)
  }

  // ----- data processing -----

  datatype Result = Result(value: Word, c: bool, v: bool)

  function Sum(a: Word, b: Word, carry: bool): Result {
    var t := a + b + Low(carry);
    Result(t % 0x1_0000_0000, t >= 0x1_0000_0000, Top(a) == Top(b) && Top(a) != Top(t % 0x1_0000_0000))
  }

  function Compute(op: RegNo, a: Word, b: Word, carry: bool, shiftC: bool, v: bool): Result {
    if op == 0 || op == 8 then Result(And(a, b), shiftC, v)
    else if op == 1 || op == 9 then Result(Xor(a, b), shiftC, v)
    else if op == 2 || op == 10 then Sum(a, Not(b), true)
    else if op == 3 then Sum(b, Not(a), true)
    else if op == 4 || op == 11 then Sum(a, b, false)
    else if op == 5 then Sum(a, b, carry)
    else if op == 6 then Sum(a, Not(b), carry)
    else if op == 7 then Sum(b, Not(a), carry)
    else if op == 12 then Result(Or(a, b), shiftC, v)
    else if op == 13 then Result(b, shiftC, v)
    else if op == 14 then Result(And(a, Not(b)), shiftC, v)
    else Result(Not(b), shiftC, v)
  }

  /** The comparisons TST, TEQ, CMP and CMN have no destination. */
  predicate Compares(op: RegNo) {
    8 <= op < 12
  }

  function SetFlags(s: State, r: Result): State {
    s.(r15 := s.r15.(n := Top(r.value), z := r.value == 0, c := r.c, v := r.v))
  }

  function AluResult(s: State, i: Instruction): Result
    requires i.Alu?
  {
    var b := Operand2(s, i.operand);
    Compute(i.op, PlainReg(s, i.rn), b.value, s.r15.c, b.carry, s.r15.v)
  }

  function ExecAlu(s: State, i: Instruction): State
    requires i.Alu?
  {
    var r := AluResult(s, i);
    if i.rd == 15 then WritePc(s, r.value, i.setFlags)
    else
      var t := if i.setFlags then SetFlags(s, r) else s;
      if Compares(i.op) then t else SetReg(t, i.rd, r.value)
  }

  function Product(a: Word, b: Word, c: Word): Word {
    Wrap(a * b + c)
  }

  function MultiplyResult(s: State, i: Instruction): Word
    requires i.Multiply?
  {
    var rm := if i.rm == 15 then Align(s.r15.addr + 4) else Reg(s, i.rm);
    if i.rd == 15 then 0
    else Product(rm, PlainReg(s, i.rs), if i.accumulate then Reg(s, i.rn) else 0)
  }

  function ExecMultiply(s: State, i: Instruction): State
    requires i.Multiply?
  {
    var r := MultiplyResult(s, i);
    var t := if i.rd == 15 then s else SetReg(s, i.rd, r);
    if i.setFlags then t.(r15 := t.r15.(n := Top(r), z := r == 0)) else t
  }

  function ExecBranch(s: State, i: Instruction): State
    requires i.Branch?
  {
    var t := if i.link then SetReg(s, 14, LinkWord(s)) else s;
    t.(pc := (s.pc + 4 + 4 * i.words) % 0x400_0000)
  }

  // ----- single transfers -----

  function Offset(add: bool, x: Word, y: Word): Word {
    Wrap(if add then x + y else x - y)
  }

  /** LDR of a word or byte at an address whose page is present. */
  function LoadInto(s: State, rd: RegNo, addr: Word, byte: bool): State
    requires PageOf(addr) in s.mem.pages
  {
    var (value, m) := Load(s.mem, addr, byte);
    var t := Watched(s.(mem := m), addr / 4 in s.stops.loads);
    if rd == 15 then Jump(t, value) else SetReg(t, rd, value)
  }

  function StoreFrom(s: State, rd: RegNo, addr: Word, byte: bool): State
    requires PageOf(addr) in s.mem.pages
  {
    var value := if rd == 15 then LinkWord(s) else Reg(s, rd);
    var m := if byte then StoreByte(s.mem, addr, value % 0x100) else Store(s.mem, addr, value);
    Watched(s.(mem := m), addr / 4 in s.stops.stores)
  }

  predicate NoStore(s: State, addr: Word, byte: bool)
    requires PageOf(addr) in s.mem.pages
  {
    (s.r15.mode == USR && !Writable(s.mem, addr)) || (addr % 4 != 0 && !byte)
  }

  /** The base, moved, before or after the transfer. */
  function UpdateBase(s: State, i: Instruction, addr: Word, offset: Word): State
    requires i.Single?
  {
    var moved := if i.pre then addr else Offset(i.add, addr, offset);
    if i.pre && !i.writeBack then s
    else if i.rn == 15 then Jump(s, moved)
    else SetReg(s, i.rn, moved)
  }

  function ExecSingle(s: State, i: Instruction): Effect
    requires i.Single?
  {
    var offset := Operand2(s, i.offset).value;
    var base := PlainReg(s, i.rn);
    var addr := if i.pre then Offset(i.add, base, offset) else base;
    if addr >= 0x400_0000 then Raise(s, AddressException)
    else match Touch(s.mem, addr)
      case None => Raise(s, DataAbort)
      case Some(m) =>
        var t := s.(mem := m);
        if if i.load then addr % 4 != 0 && !i.byte else NoStore(t, addr, i.byte) then Raise(t, DataAbort)
        else
          var u := if i.load then LoadInto(t, i.rd, addr, i.byte) else StoreFrom(t, i.rd, addr, i.byte);
          Done(UpdateBase(u, i, addr, offset))
  }

  // ----- swap -----

  function SwapWord(s: State, i: Instruction, addr: Word): State
    requires i.Swap? && PageOf(addr) in s.mem.pages
  {
    var (value, m) := Load(s.mem, addr, false);
    var t := s.(mem := m);
    var stored := if i.rm == 15 then LinkWord(t) else Reg(t, i.rm);
    var u := if i.rd == 15 then Jump(t, value) else SetReg(t, i.rd, value);
    LoadKeepsPages(s.mem, addr);
    Watched(u.(mem := Store(m, addr, stored)), addr / 4 in s.stops.stores || addr / 4 in s.stops.loads)
  }

  lemma LoadKeepsPages(m: Memory, addr: Word)
    requires PageOf(addr) in m.pages
    ensures Load(m, addr, false).1.pages == m.pages
  {
  }

  function SwapByte(s: State, i: Instruction, addr: Word): State
    requires i.Swap? && PageOf(addr) in s.mem.pages && s.mem.pages[PageOf(addr)].Ram?
  {
    var value := Load(s.mem, addr, true).0;
    var stored := if i.rm == 15 then LinkWord(s) else Reg(s, i.rm);
    var u := if i.rd == 15 then Jump(s, value) else SetReg(s, i.rd, value);
    Watched(u.(mem := StoreByte(s.mem, addr, stored % 0x100)), addr / 4 in s.stops.stores || addr / 4 in s.stops.loads)
  }

  function ExecSwap(s: State, i: Instruction): Effect
    requires i.Swap?
  {
    var addr := if i.rn == 15 then PcBase(s) else Reg(s, i.rn);
    if addr >= 0x400_0000 then Raise(s, AddressException)
    else match Touch(s.mem, addr)
      case None => Raise(s, DataAbort)
      case Some(m) =>
        var t := s.(mem := m);
        if NoStore(t, addr, i.byte) then Raise(t, DataAbort)
        else if !i.byte then Done(SwapWord(t, i, addr))
        else if m.pages[PageOf(addr)].Mapped? then Crash
        else Done(SwapByte(t, i, addr))
  }

  // ----- block transfers -----

  /** What the loop over the registers needs to know; `was` is the base before it was written back. */
  datatype Plan = Plan(load: bool, userBank: bool, flags: bool, list: nat, start: Word, base: RegNo,
                       writeBack: bool, was: Word)

  function BankReg(s: State, userBank: bool, n: RegNo): Word {
    if userBank then At(s, n) else Reg(s, n)
  }

  function SetBankReg(s: State, userBank: bool, n: RegNo, v: Word): State {
    if userBank then Put(s, n, v) else SetReg(s, n, v)
  }

  /** Registers go to ascending addresses. */
  function AddressOf(p: Plan, rs: RegNo): nat {
    p.start + 4 * Count(p.list, rs)
  }

  function BlockLoad(s: State, p: Plan, rs: RegNo, addr: Word): State
    requires PageOf(addr) in s.mem.pages
  {
    var (value, m) := Load(s.mem, addr, false);
    var t := Watched(s.(mem := m), addr / 4 in s.stops.loads);
    if rs == 15 then WritePc(t, value, p.flags) else SetBankReg(t, p.userBank, rs, value)
  }

  function BlockValue(s: State, p: Plan, rs: RegNo): Word {
    if rs == 15 then LinkWord(s)
    else if p.writeBack && Count(p.list, rs) == 0 && rs == p.base then p.was
    else BankReg(s, p.userBank, rs)
  }

  function BlockStore(s: State, p: Plan, rs: RegNo, addr: Word): State
    requires PageOf(addr) in s.mem.pages
  {
    Watched(s.(mem := Store(s.mem, addr, BlockValue(s, p, rs))), addr / 4 in s.stops.stores)
  }

  /** The rest of the loop, from register rs on; `abort` once a transfer has been refused. */
  function Transfer(s: State, p: Plan, rs: nat, abort: bool): Effect
    requires rs <= 16
    decreases 16 - rs
  {
    if rs == 16 then if abort then Raise(s, DataAbort) else Done(s)
    else if !BitAt(p.list, rs) then Transfer(s, p, rs + 1, abort)
    else
      var addr := AddressOf(p, rs);
      if PageOf(addr) >= NUM_PAGE_TABLES then Crash
      else match Touch(s.mem, addr)
        case None => Raise(s, DataAbort)
        case Some(m) =>
          var t := s.(mem := m);
          if addr % 4 != 0 then Transfer(t, p, rs + 1, true)
          else if p.load then Transfer(BlockLoad(t, p, rs, addr), p, rs + 1, abort)
          else if abort || (t.r15.mode == USR && !Writable(m, addr)) then Transfer(t, p, rs + 1, true)
          else Transfer(BlockStore(t, p, rs, addr), p, rs + 1, false)
  }

  predicate UserBank(s: State, i: Instruction)
    requires i.Block?
  {
    s.r15.mode == USR || (i.hat && !(i.load && BitAt(i.list, 15)))
  }

  predicate BlockFlags(s: State, i: Instruction)
    requires i.Block?
  {
    i.hat && (s.r15.mode == USR || (i.load && BitAt(i.list, 15)))
  }

  /** The base moved past the block. */
  function BlockEnd(i: Instruction, base: Word): Word
    requires i.Block?
  {
    Offset(i.add, base, 4 * Count(i.list, 16))
  }

  /** The lowest address of the block. */
  function BlockStart(i: Instruction, base: Word): Word
    requires i.Block?
  {
    var low := if i.add then base else BlockEnd(i, base);
    if i.pre == i.add then Wrap(low + 4) else low
  }

  function BlockPlan(s: State, i: Instruction): Plan
    requires i.Block?
  {
    var base := if i.rn == 15 then PcBase(s) else Reg(s, i.rn);
    Plan(i.load, UserBank(s, i), BlockFlags(s, i), i.list, BlockStart(i, base), i.rn, i.writeBack && i.rn != 15,
         BankReg(s, UserBank(s, i), i.rn))
  }

  function WriteBack(s: State, i: Instruction): State
    requires i.Block?
  {
    if i.writeBack && i.rn != 15 then SetBankReg(s, UserBank(s, i), i.rn, BlockEnd(i, Reg(s, i.rn))) else s
  }

  function ExecBlock(s: State, i: Instruction): Effect
    requires i.Block?
  {
    var p := BlockPlan(s, i);
    var t := WriteBack(s, i);
    if p.start >= 0x400_0000 then Raise(t, AddressException) else Transfer(t, p, 0, false)
  }

  // ----- coprocessor 1 -----

  function SetHw(s: State, k: HwNo, v: Word): State {
    s.(hw := s.hw.(regs := s.hw.regs[k := v]))
  }

  function HwReg(s: State, k: HwNo): Word {
    s.hw.regs[k]
  }

  /** DEVICE_OPERATION */
  function DeviceOperation(s: State, crd: HwNo, arg0: Word, arg1: Word): State {
    var d := HwReg(s, crd);
    if d >= |s.mem.devices| || !s.mem.devices[d].operates then s
    else
      var (r, m) := Ask(s.mem, d, Operate(arg0), 0, arg1);
      SetHw(s.(mem := m), crd, r)
  }

  /** hw_manager_data_operation; what it returns is dropped by its caller. */
  function ManagerOperation(s: State, i: Instruction): State
    requires i.CopData?
  {
    if i.crd >= 4 || i.crm >= 4 || i.crn >= 4 || i.aux >= 4 then s
    else if i.opcode == 0 then SetHw(s, i.crd, Wrap(|s.mem.devices|))
    else if i.opcode == 1 then
      s.(mem := MapMemory(s.mem, HwReg(s, i.crd), HwReg(s, i.crn), HwReg(s, i.crm)).0)
    else if i.opcode == 2 then
      var d := HwReg(s, i.crd);
      if d < |s.mem.devices| then SetHw(s, 0, s.mem.devices[d].id) else s
    else if i.opcode == 3 then SetHw(SetHw(s, 0, s.hw.lastId), 1, s.hw.lastCode)
    else if i.opcode == 4 then if !s.r15.i && !s.r15.f then s.(wait := true) else s
    else if i.opcode == 5 then SetHw(SetHw(s, 0, 0x617a_6977), 1, 0x7972_6472)
    else if i.opcode == 6 then DeviceOperation(s, i.crd, HwReg(s, i.crn), HwReg(s, i.crm))
    else s
  }

  /** SETPSR: the flags are replaced, but below them the word is or-ed in unmasked. */
  function OrIntoPc(st: Status, w: Word): Status {
    Unpack(Or(st.addr + st.mode, w))
  }

  /** hw_manager_register_transfer */
  function ManagerTransfer(s: State, i: Instruction): State
    requires i.CopRegister?
  {
    if i.crn >= 4 || i.opcode / 2 != 0 then s
    else if i.opcode % 2 == 0 then SetHw(s, i.crn, Reg(s, i.rd))
    else if i.rd == 15 then s.(r15 := OrIntoPc(s.r15, HwReg(s, i.crn)))
    else SetReg(s, i.rd, HwReg(s, i.crn))
  }

  // ----- any instruction -----

  const SWI_BREAKPOINT: nat := 0xbe_eeef

  function Exec(s: State, i: Instruction): Effect {
    match i
    case Alu(_, _, _, _, _) => Done(ExecAlu(s, i))
    case Multiply(_, _, _, _, _, _) => Done(ExecMultiply(s, i))
    case Swap(_, _, _, _) => ExecSwap(s, i)
    case Single(_, _, _, _, _, _, _, _) => ExecSingle(s, i)
    case Branch(_, _) => Done(ExecBranch(s, i))
    case Block(_, _, _, _, _, _, _) => ExecBlock(s, i)
    case Swi(comment) => Raise(s, if comment == SWI_BREAKPOINT then Breakpoint else SoftwareInterrupt)
    case CopTransfer => Done(s)
    case CopRegister(proc, _, _, _) => Done(if proc == 1 then ManagerTransfer(s, i) else s)
    case CopData(proc, _, _, _, _, _) => Done(if proc == 1 then ManagerOperation(s, i) else s)
  }
}
