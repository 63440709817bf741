/**
 * LDR and STR in numbers (instructions.c:438-590): which address is accessed, when the access is refused, and what
 * becomes of the base, for immediate and shifted offsets.
 */
module ArmTransfers {
  import opened Prelude
  import opened ArmWords
  import opened ArmMemory
  import opened ArmState
  import opened ArmDecode
  import opened ArmExecute
  import opened ArmBlocks

  // ----- the address -----

  /** A shifted register as an offset, as a number. */
  function OffsetValue(s: State, op: Operand): int
    requires op.Immediate? || (op.ByAmount? && op.kind != ROR)
  {
    match op
    case Immediate(value) => value
    case ByAmount(rm, kind, n) =>
      var x: int := Reg(s, rm);
      if kind == LSL then x * Span(n) % 0x1_0000_0000
      else if kind == LSR then x / Span(if n == 0 then 32 else n)
      else Integer(x) / Span(if n == 0 then 32 else n) % 0x1_0000_0000
  }

  lemma DividedByWord(x: Word)
    ensures Span(32) == 0x1_0000_0000
    ensures x / Span(32) == 0 && Integer(x) / Span(32) == if Top(x) then -1 else 0
  {
    assert Span(8) == 0x100;
    assert Span(16) == 0x1_0000;
    assert Span(24) == 0x100_0000;
  }

  lemma WrapInteger(x: Word)
    ensures Integer(x) % 0x1_0000_0000 == x
  {
  }

  lemma WrapIs(x: int)
    ensures Wrap(x) == x % 0x1_0000_0000
  {
  }

  lemma NotShifted(x: Word)
    ensures x * Span(0) % 0x1_0000_0000 == x
  {
  }

  lemma ShiftedIs(x: Word, kind: ShiftKind, n: Amount, c: bool)
    requires kind != ROR
    ensures Barrel(x, kind, n, false, c).value ==
            if kind == LSL then x * Span(n) % 0x1_0000_0000
            else if kind == LSR then x / Span(if n == 0 then 32 else n)
            else Integer(x) / Span(if n == 0 then 32 else n) % 0x1_0000_0000
  {
    hide ShiftLeft, ShiftRight, ShiftSigned, Integer, Span, BitAt, Wrap;
    DividedByWord(x);
    if kind == LSL {
      ShiftLeftMultiplies(x, n);
      WrapIs(x * Span(n));
      NotShifted(x);
    } else if kind == LSR {
      ShiftRightDivides(x, n);
    } else if n > 0 {
      ShiftSignedDivides(x, n);
      WrapInteger(ShiftSigned(x, n));
    } else {
      SignIs(x);
    }
  }

  lemma SignIs(x: Word)
    ensures Sign(x).value == (if Top(x) then -1 else 0) % 0x1_0000_0000
  {
  }

  /** The second operand of a transfer is that number. */
  lemma OffsetIs(s: State, op: Operand)
    requires op.Immediate? || (op.ByAmount? && op.kind != ROR)
    ensures Operand2(s, op).value == OffsetValue(s, op)
  {
    hide Barrel, Reg, Integer, Span;
    if op.ByAmount? {
      ShiftedIs(Reg(s, op.rm), op.kind, op.amount, s.r15.c);
    }
  }

  /** The base register; r15 counts without flags and mode. */
  function BaseOf(s: State, rn: RegNo): Word {
    if rn == 15 then s.r15.addr else Reg(s, rn)
  }

  /** The base with the offset added or subtracted. */
  function Moved(s: State, i: Instruction): Word
    requires i.Single?
  {
    var base: int, offset: int := BaseOf(s, i.rn), Operand2(s, i.offset).value;
    (if i.add then base + offset else base - offset) % 0x1_0000_0000
  }

  /** A pre-indexed access is at the moved base, a post-indexed one at the base. */
  function Accessed(s: State, i: Instruction): Word
    requires i.Single?
  {
    if i.pre then Moved(s, i) else BaseOf(s, i.rn)
  }

  // ----- when it is refused -----

  predicate NoPage(m: Memory, addr: Word) {
    PageOf(addr) !in m.pages && m.free < 0x1000
  }

  /** The memory with the page of an address: one of zeros if it was missing, writable unless it is page zero. */
  function PagedIn(m: Memory, addr: Word): (t: Memory)
    requires !NoPage(m, addr)
    ensures PageOf(addr) in t.pages
  {
    if PageOf(addr) in m.pages then m
    else m.(pages := m.pages[PageOf(addr) := Ram(seq(0x400, k => 0), addr >= 0x1000)], free := m.free - 0x1000)
  }

  lemma TouchIs(m: Memory, addr: Word)
    requires addr < 0x400_0000
    ensures Touch(m, addr) == if NoPage(m, addr) then None else Some(PagedIn(m, addr))
  {
  }

  /** User mode does not write to RAM that is read-only. */
  predicate Protected(m: Memory, mode: Mode, addr: Word)
    requires PageOf(addr) in m.pages
  {
    mode == USR && m.pages[PageOf(addr)].Ram? && !m.pages[PageOf(addr)].writable
  }

  /** Refused: no RAM for the page, a word at an odd place, or a store where the mode may not write. */
  predicate Refused(m: Memory, mode: Mode, load: bool, byte: bool, addr: Word) {
    NoPage(m, addr) || (addr % 4 != 0 && !byte) || (!load && Protected(PagedIn(m, addr), mode, addr))
  }

  /** What is left of the memory after a refusal. */
  function AfterRefusal(m: Memory, addr: Word): Memory {
    if NoPage(m, addr) then m else PagedIn(m, addr)
  }

  lemma MovedIs(s: State, i: Instruction)
    requires i.Single?
    ensures BaseOf(s, i.rn) == PlainReg(s, i.rn)
    ensures Moved(s, i) == Offset(i.add, PlainReg(s, i.rn), Operand2(s, i.offset).value)
  {
    hide Operand2, Reg;
  }

  /** Exactly when LDR and STR raise which exception. */
  lemma SingleOutcome(s: State, i: Instruction)
    requires i.Single?
    ensures var a := Accessed(s, i);
            var refused := a < 0x400_0000 && Refused(s.mem, s.r15.mode, i.load, i.byte, a);
            && (a >= 0x400_0000 ==> Exec(s, i) == Raise(s, AddressException))
            && (refused ==> Exec(s, i) == Raise(s.(mem := AfterRefusal(s.mem, a)), DataAbort))
            && (a < 0x400_0000 && !refused ==> Exec(s, i).Done?)
  {
    hide Operand2, PlainReg, BaseOf, Moved, Offset, Touch, LoadInto, StoreFrom, UpdateBase, PagedIn;
    MovedIs(s, i);
    var a := Accessed(s, i);
    if a < 0x400_0000 {
      TouchIs(s.mem, a);
      if NoPage(s.mem, a) {
        assert s.(mem := s.mem) == s;
      }
    }
  }

  // ----- what it does -----

  /** What a store puts into memory: r15 reads as its flags and mode with the address four bytes on. */
  function Stored(s: State, rd: RegNo): Word {
    if rd == 15 then Pack(s.r15.(addr := Align(s.pc + 4))) else Reg(s, rd)
  }

  function MemoryAfter(m: Memory, i: Instruction, addr: Word, value: Word): Memory
    requires i.Single? && PageOf(addr) in m.pages
  {
    if i.load then Load(m, addr, i.byte).1
    else if i.byte then StoreByte(m, addr, value % 0x100)
    else Store(m, addr, value)
  }

  /** The transfer itself, before the base is written. */
  function TransferSingle(s: State, i: Instruction, a: Word): State
    requires i.Single? && PageOf(a) in s.mem.pages
  {
    if i.load then LoadInto(s, i.rd, a, i.byte) else StoreFrom(s, i.rd, a, i.byte)
  }

  lemma LoadTransfers(s: State, i: Instruction, a: Word)
    requires i.Single? && i.load && Banked(s) && PageOf(a) in s.mem.pages
    ensures var t, value := TransferSingle(s, i, a), Load(s.mem, a, i.byte).0;
            && t == s.(regs := t.regs, r15 := t.r15, pc := t.pc, mem := Load(s.mem, a, i.byte).1,
                       watch := s.watch || a / 4 in s.stops.loads)
            && (forall n: RegNo :: n < 15 ==> Reg(t, n) == if n == i.rd then value else Reg(s, n))
            && (if i.rd == 15 then t.r15 == s.r15.(addr := Align(value)) && t.pc == Wrap(value - 4)
                else t.r15 == s.r15 && t.pc == s.pc)
            && Banked(t)
  {
    hide Banked, Pack, Unpack, Reg, SetReg, Load, Align, Wrap, Watched;
    var (value, m) := Load(s.mem, a, i.byte);
    var u := Watched(s.(mem := m), a / 4 in s.stops.loads);
    WatchedIs(s, m, a / 4 in s.stops.loads);
    if i.rd == 15 {
      JumpIs(u, value);
    } else {
      OneRegister(u, i.rd, value);
    }
  }

  lemma WatchedIs(s: State, m: Memory, hit: bool)
    requires Banked(s)
    ensures var u := Watched(s.(mem := m), hit);
            && u == s.(mem := m, watch := s.watch || hit) && Banked(u)
            && forall n: RegNo :: n < 15 ==> Reg(u, n) == Reg(s, n)
  {
    hide Bank;
    SameRegisters(s, Watched(s.(mem := m), hit));
  }

  lemma JumpIs(u: State, value: Word)
    requires Banked(u)
    ensures var t := Jump(u, value);
            && t == u.(r15 := u.r15.(addr := Align(value)), pc := Wrap(value - 4)) && Banked(t)
            && forall n: RegNo :: n < 15 ==> Reg(t, n) == Reg(u, n)
  {
    hide Bank;
    SameRegisters(u, Jump(u, value));
  }

  lemma StoreTransfers(s: State, i: Instruction, a: Word)
    requires i.Single? && !i.load && Banked(s) && PageOf(a) in s.mem.pages
    ensures var t := TransferSingle(s, i, a);
            && t == s.(mem := MemoryAfter(s.mem, i, a, Stored(s, i.rd)), watch := s.watch || a / 4 in s.stops.stores)
            && (forall n: RegNo :: n < 15 ==> Reg(t, n) == Reg(s, n))
  {
    hide Bank, Pack, Reg, Store, StoreByte, Align;
    SameRegisters(s, TransferSingle(s, i, a));
  }

  /** Whether the base is written. */
  predicate WritesBase(i: Instruction)
    requires i.Single?
  {
    !i.pre || i.writeBack
  }

  lemma BaseUpdated(s: State, i: Instruction, addr: Word, offset: Word)
    requires i.Single? && Banked(s) && (i.rn < 15 || !WritesBase(i))
    ensures var t := UpdateBase(s, i, addr, offset);
            && t == s.(regs := t.regs)
            && (forall n: RegNo :: n < 15 ==>
                  Reg(t, n) == if n == i.rn && WritesBase(i) then
                                 if i.pre then addr
                                 else (if i.add then addr + offset else addr - offset) % 0x1_0000_0000
                               else Reg(s, n))
  {
    hide Bank, Reg, SetReg;
    if WritesBase(i) {
      OneRegister(s, i.rn, if i.pre then addr else Offset(i.add, addr, offset));
    }
  }

  lemma SameRegisters(s: State, t: State)
    requires Banked(s) && t.regs == s.regs && t.effective == s.effective
    ensures forall n: RegNo :: n < 15 ==> Reg(t, n) == Reg(s, n)
  {
    hide Bank;
    forall n: RegNo | n < 15 ensures Reg(t, n) == Reg(s, n) {
      PlacesApart(s, false, n, n);
    }
  }

  lemma SingleIs(s: State, i: Instruction)
    requires i.Single?
    requires var a := Accessed(s, i); a < 0x400_0000 && !Refused(s.mem, s.r15.mode, i.load, i.byte, a)
    ensures var a := Accessed(s, i);
            Exec(s, i) == Done(UpdateBase(TransferSingle(s.(mem := PagedIn(s.mem, a)), i, a), i, a,
                                          Operand2(s, i.offset).value))
  {
    hide Operand2, Reg, Touch, LoadInto, StoreFrom, UpdateBase, PagedIn;
    TouchIs(s.mem, Accessed(s, i));
  }

  /**
   * LDR and STR that are not refused: the access is at the place said, the base ends up moved if it is written back or
   * post-indexed and as it was if not, a loaded register holds what was read unless it is the base written, and nothing
   * else has changed.
   */
  lemma SingleMoves(s: State, i: Instruction)
    requires i.Single? && Banked(s) && (i.rn < 15 || !WritesBase(i))
    requires var a := Accessed(s, i); a < 0x400_0000 && !Refused(s.mem, s.r15.mode, i.load, i.byte, a)
    ensures Exec(s, i).Done?
    ensures var t, a := Exec(s, i).s, Accessed(s, i);
            var m := PagedIn(s.mem, a);
            var value := Load(m, a, i.byte).0;
            && (forall n: RegNo :: n < 15 ==>
                  Reg(t, n) == if n == i.rn && WritesBase(i) then Moved(s, i)
                               else if i.load && n == i.rd then value else Reg(s, n))
            && t.mem == MemoryAfter(m, i, a, Stored(s, i.rd))
            && (if i.load && i.rd == 15 then
                  t.r15 == s.r15.(addr := Align(value)) && (t.pc + 4) % 0x400_0000 == value % 0x400_0000
                else t.r15 == s.r15 && t.pc == s.pc)
            && t.watch == (s.watch || a / 4 in if i.load then s.stops.loads else s.stops.stores)
            && t == s.(regs := t.regs, r15 := t.r15, pc := t.pc, mem := t.mem, watch := t.watch)
  {
    hide Bank, Pack, Unpack, Reg, SetReg, Load, TransferSingle, UpdateBase, Operand2, PagedIn, Stored, Align, Exec,
         Wrap;
    var a := Accessed(s, i);
    var u := s.(mem := PagedIn(s.mem, a));
    SingleIs(s, i);
    SameRegisters(s, u);
    StoredSame(s, u, i.rd);
    if i.load {
      LoadTransfers(u, i, a);
      BackFour(Load(u.mem, a, i.byte).0);
    } else {
      StoreTransfers(u, i, a);
    }
    BaseUpdated(TransferSingle(u, i, a), i, a, Operand2(s, i.offset).value);
  }

  lemma JumpsTo(s: State, t: State, i: Instruction)
    requires i.Single? && i.rn == 15 && WritesBase(i)
    ensures UpdateBase(t, i, Accessed(s, i), Operand2(s, i.offset).value) == Jump(t, Moved(s, i))
  {
    hide Operand2, Jump, Reg;
    MovedIs(s, i);
  }

  /** With r15 as a base that is written the program goes on at the moved base, even if r15 is loaded as well. */
  lemma SingleJumps(s: State, i: Instruction)
    requires i.Single? && Banked(s) && i.rn == 15 && WritesBase(i)
    requires var a := Accessed(s, i); a < 0x400_0000 && !Refused(s.mem, s.r15.mode, i.load, i.byte, a)
    ensures Exec(s, i).Done?
    ensures var t, a := Exec(s, i).s, Accessed(s, i);
            var m := PagedIn(s.mem, a);
            && t.r15 == s.r15.(addr := Align(Moved(s, i))) && (t.pc + 4) % 0x400_0000 == Moved(s, i) % 0x400_0000
            && (forall n: RegNo :: n < 15 ==>
                  Reg(t, n) == if i.load && n == i.rd then Load(m, a, i.byte).0 else Reg(s, n))
            && t.mem == MemoryAfter(m, i, a, Stored(s, i.rd))
            && t == s.(regs := t.regs, r15 := t.r15, pc := t.pc, mem := t.mem, watch := t.watch)
  {
    hide Banked, Pack, Unpack, Reg, SetReg, Load, TransferSingle, Operand2, PagedIn, Stored, Align, Exec, Wrap, Moved,
         UpdateBase, Accessed, Protected, NoPage, Store, StoreByte;
    var a := Accessed(s, i);
    var u := s.(mem := PagedIn(s.mem, a));
    SingleIs(s, i);
    StillBanked(s, u);
    SameRegisters(s, u);
    StoredSame(s, u, i.rd);
    if i.load {
      LoadTransfers(u, i, a);
    } else {
      StoreTransfers(u, i, a);
      StillBanked(u, TransferSingle(u, i, a));
    }
    JumpsTo(s, TransferSingle(u, i, a), i);
    BackFour(Moved(s, i));
    JumpIs(TransferSingle(u, i, a), Moved(s, i));
  }

  lemma StoredSame(s: State, u: State, rd: RegNo)
    requires u == s.(mem := u.mem)
    ensures Stored(u, rd) == Stored(s, rd)
  {
  }

  // ----- swaps -----

  /** The address of a swap; r15 counts with its flags and mode. */
  function SwapBase(s: State, i: Instruction): Word
    requires i.Swap?
  {
    if i.rn == 15 then PcBase(s) else Reg(s, i.rn)
  }

  /** Exactly when SWP raises which exception; the byte of a device is not swapped. */
  lemma {:induction false} SwapOutcome(s: State, i: Instruction)
    requires i.Swap?
    ensures var a := SwapBase(s, i);
            var refused := a < 0x400_0000 && Refused(s.mem, s.r15.mode, false, i.byte, a);
            && (a >= 0x400_0000 ==> Exec(s, i) == Raise(s, AddressException))
            && (refused ==> Exec(s, i) == Raise(s.(mem := AfterRefusal(s.mem, a)), DataAbort))
            && (a < 0x400_0000 && !refused ==>
                  if i.byte && PagedIn(s.mem, a).pages[PageOf(a)].Mapped? then Exec(s, i).Crash? else Exec(s, i).Done?)
  {
    hide PcBase, Reg, Touch, SwapWord, SwapByte, PagedIn;
    var a := SwapBase(s, i);
    if a < 0x400_0000 {
      TouchIs(s.mem, a);
      if NoPage(s.mem, a) {
        assert s.(mem := s.mem) == s;
      }
    }
  }

  /** The swap itself. */
  function SwapIn(s: State, i: Instruction, a: Word): State
    requires i.Swap? && PageOf(a) in s.mem.pages && (i.byte ==> s.mem.pages[PageOf(a)].Ram?)
  {
    if i.byte then SwapByte(s, i, a) else SwapWord(s, i, a)
  }

  lemma LoadPages(m: Memory, a: Word)
    requires PageOf(a) in m.pages
    ensures PageOf(a) in Load(m, a, false).1.pages
    ensures m.pages[PageOf(a)].Ram? ==> Load(m, a, true).1 == m
  {
  }

  /** What a swap leaves of the memory. */
  function MemorySwapped(m: Memory, i: Instruction, a: Word, value: Word): Memory
    requires i.Swap? && PageOf(a) in m.pages
  {
    LoadPages(m, a);
    if i.byte then StoreByte(m, a, value % 0x100) else Store(Load(m, a, false).1, a, value)
  }

  lemma {:induction false} SwapInIs(s: State, i: Instruction, a: Word)
    requires i.Swap? && Banked(s) && PageOf(a) in s.mem.pages && (i.byte ==> s.mem.pages[PageOf(a)].Ram?)
    ensures var t, value := SwapIn(s, i, a), Load(s.mem, a, i.byte).0;
            && t == s.(regs := t.regs, r15 := t.r15, pc := t.pc, watch := t.watch,
                       mem := MemorySwapped(s.mem, i, a, Stored(s, i.rm)))
            && t.watch == (s.watch || a / 4 in s.stops.loads || a / 4 in s.stops.stores)
            && (forall n: RegNo :: n < 15 ==> Reg(t, n) == if n == i.rd then value else Reg(s, n))
            && (if i.rd == 15 then t.r15 == s.r15.(addr := Align(value)) && t.pc == Wrap(value - 4)
                else t.r15 == s.r15 && t.pc == s.pc)
  {
    hide Banked, Pack, Unpack, Reg, SetReg, Load, Align, Wrap, Store, StoreByte;
    var (value, m) := Load(s.mem, a, i.byte);
    var u := if i.byte then s else s.(mem := m);
    LoadPages(s.mem, a);
    StillBanked(s, u);
    SameRegisters(s, u);
    var v := if i.rd == 15 then Jump(u, value) else SetReg(u, i.rd, value);
    if i.rd == 15 {
      JumpIs(u, value);
    } else {
      OneRegister(u, i.rd, value);
    }
    SameRegisters(v, SwapIn(s, i, a));
  }

  /**
   * SWP that is not refused: the register gets the word or byte from before, memory the value of the other register
   * from before, and nothing else changes.
   */
  lemma {:induction false} SwapMoves(s: State, i: Instruction)
    requires i.Swap? && Banked(s)
    requires var a := SwapBase(s, i); a < 0x400_0000 && !Refused(s.mem, s.r15.mode, false, i.byte, a)
    requires var a := SwapBase(s, i); i.byte ==> PagedIn(s.mem, a).pages[PageOf(a)].Ram?
    ensures Exec(s, i).Done?
    ensures var t, a := Exec(s, i).s, SwapBase(s, i);
            var m := PagedIn(s.mem, a);
            var value := Load(m, a, i.byte).0;
            && (forall n: RegNo :: n < 15 ==> Reg(t, n) == if n == i.rd then value else Reg(s, n))
            && t.mem == MemorySwapped(m, i, a, Stored(s, i.rm))
            && (if i.rd == 15 then
                  t.r15 == s.r15.(addr := Align(value)) && (t.pc + 4) % 0x400_0000 == value % 0x400_0000
                else t.r15 == s.r15 && t.pc == s.pc)
            && t.watch == (s.watch || a / 4 in s.stops.loads || a / 4 in s.stops.stores)
            && t == s.(regs := t.regs, r15 := t.r15, pc := t.pc, mem := t.mem, watch := t.watch)
  {
    hide Bank, Pack, Unpack, Reg, SetReg, Load, PcBase, PagedIn, Stored, Align, Exec, Wrap, SwapIn, MemorySwapped;
    var a := SwapBase(s, i);
    var u := s.(mem := PagedIn(s.mem, a));
    SwapIs(s, i);
    SameRegisters(s, u);
    StoredSame(s, u, i.rm);
    StillBanked(s, u);
    SwapInIs(u, i, a);
    BackFour(Load(u.mem, a, i.byte).0);
  }

  lemma {:induction false} SwapIs(s: State, i: Instruction)
    requires i.Swap?
    requires var a := SwapBase(s, i); a < 0x400_0000 && !Refused(s.mem, s.r15.mode, false, i.byte, a)
    requires var a := SwapBase(s, i); i.byte ==> PagedIn(s.mem, a).pages[PageOf(a)].Ram?
    ensures var a := SwapBase(s, i); Exec(s, i) == Done(SwapIn(s.(mem := PagedIn(s.mem, a)), i, a))
  {
    hide Reg, PcBase, Touch, SwapByte, SwapWord, PagedIn;
    TouchIs(s.mem, SwapBase(s, i));
  }
}
