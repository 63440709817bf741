/**
 * Interrupts are invisible to a user program (step.c:54-77, step.c:245-276, instructions.c:347-363): with the handler
 * `subs pc, lr, #4` at 0x18, any interleaving of interrupt() and turns of the loop takes it through the states it goes
 * through by itself.
 */
module ArmTransparency {
  import opened Prelude
  import opened ArmWords
  import opened ArmMemory
  import opened ArmState
  import opened ArmDecode
  import opened ArmExecute
  import opened ArmStep
  import opened ArmFrame
  import opened ArmBanking
  import opened ArmIsolation

  /** The same but for the link register of interrupts, the pin and the last interrupt. */
  predicate Like(s: State, t: State) {
    && t == s.(regs := t.regs, hw := t.hw, pinI := t.pinI) && t.hw.regs == s.hw.regs
    && forall k: Index :: k != LR_IRQ ==> t.regs[k] == s.regs[k]
  }

  /** Like, in user mode. */
  predicate Twins(s: State, t: State) {
    Like(s, t) && User(s)
  }

  predicate LikeEffects(e: Effect, f: Effect) {
    match e
    case Done(s) => f.Done? && Like(s, f.s)
    case Raise(s, x) => f.Raise? && f.e == x && Like(s, f.s)
    case Crash => f == Crash
  }

  // ----- reading and writing -----

  lemma {:induction false} SameReg(s: State, t: State, n: RegNo)
    requires Twins(s, t)
    ensures Reg(s, n) == Reg(t, n) && At(s, n) == At(t, n) && PlainReg(s, n) == PlainReg(t, n)
    ensures s.r15 == t.r15 && s.mem == t.mem && s.pc == t.pc && s.stops == t.stops && s.watch == t.watch
    ensures s.effective == t.effective
  {
    hide Pack, Valid;
    assert Bank(USR)[n] == Slot(USR, n);
  }

  lemma {:induction false} SameOperand(s: State, t: State, op: Operand)
    requires Twins(s, t)
    ensures Operand2(s, op) == Operand2(t, op)
  {
    hide Twins, Barrel, Reg;
    SameReg(s, t, 0);
    match op
    case Immediate(_) =>
    case ByAmount(rm, _, _) => SameReg(s, t, rm);
    case ByRegister(rm, _, rs) => SameReg(s, t, rm); SameReg(s, t, rs);
  }

  lemma {:induction false} LikeWrites(s: State, t: State, n: RegNo, v: Word)
    requires Twins(s, t) && n < 15
    ensures Like(SetReg(s, n, v), SetReg(t, n, v)) && Like(Put(s, n, v), Put(t, n, v)) && Like(s, t)
  {
    hide Valid;
    assert Bank(USR)[n] == Slot(USR, n);
  }

  lemma {:induction false} LikeStatus(s: State, t: State, st: Status, pc: Word, m: Memory, watch: bool)
    requires Like(s, t)
    ensures Like(s.(r15 := st), t.(r15 := st)) && Like(s.(pc := pc), t.(pc := pc))
    ensures Like(s.(r15 := st, pc := pc), t.(r15 := st, pc := pc))
    ensures Like(s.(mem := m), t.(mem := m)) && Like(s.(mem := m, watch := watch), t.(mem := m, watch := watch))
  {
  }

  lemma {:induction false} LikePc(s: State, t: State, w: Word, flags: bool)
    requires Like(s, t)
    ensures Like(WritePc(s, w, flags), WritePc(t, w, flags)) && Like(Jump(s, w), Jump(t, w))
  {
    hide Unpack;
  }

  lemma {:induction false} LikeMemory(s: State, t: State, m: Memory, hit: bool)
    requires Like(s, t)
    ensures Like(s.(mem := m), t.(mem := m)) && Like(Watched(s.(mem := m), hit), Watched(t.(mem := m), hit))
  {
  }

  // ----- instructions -----

  lemma {:induction false} AluLike(s: State, t: State, i: Instruction)
    requires Twins(s, t) && i.Alu?
    ensures Like(ExecAlu(s, i), ExecAlu(t, i))
  {
    hide Twins, Like, User, Operand2, PlainReg, Compute, SetReg, WritePc;
    SameReg(s, t, i.rn);
    SameOperand(s, t, i.operand);
    var r := AluResult(s, i);
    assert AluResult(t, i) == r;
    TwinsAre(s, t);
    LikePc(s, t, r.value, i.setFlags);
    var s', t' := SetFlags(s, r), SetFlags(t, r);
    LikeStatus(s, t, s'.r15, s.pc, s.mem, false);
    FlagsConfined(s, Top(r.value), r.value == 0, r.c, r.v, 0, false);
    ConfinedUser(s, s');
    AreTwins(s', t');
    if i.rd < 15 {
      LikeWrites(s, t, i.rd, r.value);
      LikeWrites(s', t', i.rd, r.value);
    }
  }

  lemma TwinsAre(s: State, t: State)
    requires Twins(s, t)
    ensures Like(s, t) && User(s)
  {
  }

  lemma AreTwins(s: State, t: State)
    requires Like(s, t) && User(s)
    ensures Twins(s, t)
  {
  }

  lemma {:induction false} MultiplyLike(s: State, t: State, i: Instruction)
    requires Twins(s, t) && i.Multiply?
    ensures Like(ExecMultiply(s, i), ExecMultiply(t, i))
  {
    hide Twins, Like, User, PlainReg, Product, SetReg, Reg;
    SameReg(s, t, i.rn);
    SameReg(s, t, i.rs);
    SameReg(s, t, i.rm);
    var r := MultiplyResult(s, i);
    assert MultiplyResult(t, i) == r;
    TwinsAre(s, t);
    var s' := if i.rd == 15 then s else SetReg(s, i.rd, r);
    var t' := if i.rd == 15 then t else SetReg(t, i.rd, r);
    if i.rd < 15 {
      LikeWrites(s, t, i.rd, r);
    }
    assert Like(s', t');
    assert s'.r15 == t'.r15 by { LikeSame(s', t'); }
    LikeStatus(s', t', s'.r15.(n := Top(r), z := r == 0), 0, s.mem, false);
  }

  lemma LikeSame(s: State, t: State)
    requires Like(s, t)
    ensures s.r15 == t.r15 && s.mem == t.mem && s.pc == t.pc && s.stops == t.stops && s.watch == t.watch
    ensures s.effective == t.effective && s.wait == t.wait && s.pinF == t.pinF
  {
  }

  lemma {:induction false} BranchLike(s: State, t: State, i: Instruction)
    requires Twins(s, t) && i.Branch?
    ensures Like(ExecBranch(s, i), ExecBranch(t, i))
  {
    hide Twins, Like, User, SetReg, Pack;
    SameReg(s, t, 14);
    TwinsAre(s, t);
    var s' := if i.link then SetReg(s, 14, LinkWord(s)) else s;
    var t' := if i.link then SetReg(t, 14, LinkWord(t)) else t;
    LikeWrites(s, t, 14, LinkWord(s));
    LikeStatus(s', t', s.r15, (s.pc + 4 + 4 * i.words) % 0x400_0000, s.mem, false);
  }

  lemma {:induction false} LoadLike(s: State, t: State, rd: RegNo, addr: Word, byte: bool)
    requires Twins(s, t) && PageOf(addr) in s.mem.pages
    ensures PageOf(addr) in t.mem.pages && Like(LoadInto(s, rd, addr, byte), LoadInto(t, rd, addr, byte))
  {
    hide Twins, Like, User, SetReg, Jump, Load, ZeroKept, Valid;
    SameReg(s, t, 0);
    TwinsAre(s, t);
    UserMode(s);
    var (value, m) := Load(s.mem, addr, byte);
    var hit := addr / 4 in s.stops.loads;
    LoadZero(s.mem, addr, byte);
    MemoryConfined(s, m, hit);
    LikeMemory(s, t, m, hit);
    var s', t' := Watched(s.(mem := m), hit), Watched(t.(mem := m), hit);
    AreTwins(s', t');
    LikePc(s', t', value, false);
    if rd < 15 {
      LikeWrites(s', t', rd, value);
    }
  }

  lemma {:induction false} StoreLike(s: State, t: State, rd: RegNo, addr: Word, byte: bool)
    requires Twins(s, t) && PageOf(addr) in s.mem.pages
    ensures PageOf(addr) in t.mem.pages && Like(StoreFrom(s, rd, addr, byte), StoreFrom(t, rd, addr, byte))
  {
    hide Twins, Like, User, Reg, Store, StoreByte, Pack;
    SameReg(s, t, rd);
    TwinsAre(s, t);
    var value := if rd == 15 then LinkWord(s) else Reg(s, rd);
    LikeMemory(s, t, if byte then StoreByte(s.mem, addr, value % 0x100) else Store(s.mem, addr, value),
               addr / 4 in s.stops.stores);
  }

  lemma {:induction false} UpdateBaseLike(s: State, t: State, i: Instruction, addr: Word, offset: Word)
    requires Twins(s, t) && i.Single?
    ensures Like(UpdateBase(s, i, addr, offset), UpdateBase(t, i, addr, offset))
  {
    hide Twins, Like, User, SetReg, Jump;
    var moved := if i.pre then addr else Offset(i.add, addr, offset);
    TwinsAre(s, t);
    LikePc(s, t, moved, false);
    if i.rn < 15 {
      LikeWrites(s, t, i.rn, moved);
    }
  }

  lemma {:induction false} SingleLike(s: State, t: State, i: Instruction)
    requires Twins(s, t) && i.Single?
    ensures LikeEffects(ExecSingle(s, i), ExecSingle(t, i))
  {
    hide Twins, Like, User, Operand2, PlainReg, LoadInto, StoreFrom, UpdateBase, Writable, Touch, ZeroKept, Valid;
    SameReg(s, t, i.rn);
    SameOperand(s, t, i.offset);
    TwinsAre(s, t);
    UserMode(s);
    var offset := Operand2(s, i.offset).value;
    var base := PlainReg(s, i.rn);
    var addr := if i.pre then Offset(i.add, base, offset) else base;
    if addr < 0x400_0000 && Touch(s.mem, addr).Some? {
      TouchPresent(s.mem, addr);
      TouchZero(s.mem, addr);
      var m := Touch(s.mem, addr).value;
      var s', t' := s.(mem := m), t.(mem := m);
      MemoryConfined(s, m, false);
      LikeMemory(s, t, m, false);
      AreTwins(s', t');
      if i.load {
        LoadLike(s', t', i.rd, addr, i.byte);
        LoadConfined(s', i.rd, addr, i.byte);
        var u, v := LoadInto(s', i.rd, addr, i.byte), LoadInto(t', i.rd, addr, i.byte);
        ConfinedUser(s', u);
        AreTwins(u, v);
        UpdateBaseLike(u, v, i, addr, offset);
      } else if !NoStore(s', addr, i.byte) {
        StoreLike(s', t', i.rd, addr, i.byte);
        StoreConfined(s', i.rd, addr, i.byte);
        var u, v := StoreFrom(s', i.rd, addr, i.byte), StoreFrom(t', i.rd, addr, i.byte);
        ConfinedUser(s', u);
        AreTwins(u, v);
        UpdateBaseLike(u, v, i, addr, offset);
      }
    }
  }

  lemma {:induction false} SwapEndLike(s: State, t: State, rd: RegNo, value: Word, m: Memory, hit: bool)
    requires Twins(s, t)
    ensures var u := if rd == 15 then Jump(s, value) else SetReg(s, rd, value);
            var v := if rd == 15 then Jump(t, value) else SetReg(t, rd, value);
            Like(Watched(u.(mem := m), hit), Watched(v.(mem := m), hit))
  {
    hide Twins, Like, User, SetReg, Jump;
    TwinsAre(s, t);
    LikePc(s, t, value, false);
    if rd < 15 {
      LikeWrites(s, t, rd, value);
    }
    var u := if rd == 15 then Jump(s, value) else SetReg(s, rd, value);
    var v := if rd == 15 then Jump(t, value) else SetReg(t, rd, value);
    LikeMemory(u, v, m, hit);
  }

  lemma {:induction false} SwapWordLike(s: State, t: State, i: Instruction, addr: Word)
    requires Twins(s, t) && i.Swap? && PageOf(addr) in s.mem.pages
    ensures PageOf(addr) in t.mem.pages && Like(SwapWord(s, i, addr), SwapWord(t, i, addr))
  {
    hide Twins, Like, User, SetReg, Jump, Reg, Load, Store, Pack, ZeroKept, Valid;
    SameReg(s, t, 0);
    TwinsAre(s, t);
    UserMode(s);
    var (value, m) := Load(s.mem, addr, false);
    LoadZero(s.mem, addr, false);
    LoadKeepsPages(s.mem, addr);
    MemoryConfined(s, m, false);
    LikeMemory(s, t, m, false);
    var s', t' := s.(mem := m), t.(mem := m);
    AreTwins(s', t');
    SameReg(s', t', i.rm);
    var stored := if i.rm == 15 then LinkWord(s') else Reg(s', i.rm);
    SwapEndLike(s', t', i.rd, value, Store(m, addr, stored), addr / 4 in s.stops.stores || addr / 4 in s.stops.loads);
  }

  lemma {:induction false} SwapByteLike(s: State, t: State, i: Instruction, addr: Word)
    requires Twins(s, t) && i.Swap? && PageOf(addr) in s.mem.pages && s.mem.pages[PageOf(addr)].Ram?
    ensures t.mem == s.mem && Like(SwapByte(s, i, addr), SwapByte(t, i, addr))
  {
    hide Twins, Like, User, SetReg, Jump, Reg, Load, StoreByte, Pack;
    SameReg(s, t, i.rm);
    var stored := if i.rm == 15 then LinkWord(s) else Reg(s, i.rm);
    SwapEndLike(s, t, i.rd, Load(s.mem, addr, true).0, StoreByte(s.mem, addr, stored % 0x100),
                addr / 4 in s.stops.stores || addr / 4 in s.stops.loads);
  }

  lemma {:induction false} SwapLike(s: State, t: State, i: Instruction)
    requires Twins(s, t) && i.Swap?
    ensures LikeEffects(ExecSwap(s, i), ExecSwap(t, i))
  {
    hide Twins, Like, User, Reg, Or, Pack, SwapWord, SwapByte, Writable, Touch, ZeroKept, Valid;
    SameReg(s, t, i.rn);
    TwinsAre(s, t);
    UserMode(s);
    var addr := if i.rn == 15 then PcBase(s) else Reg(s, i.rn);
    if addr < 0x400_0000 && Touch(s.mem, addr).Some? {
      TouchPresent(s.mem, addr);
      TouchZero(s.mem, addr);
      var m := Touch(s.mem, addr).value;
      MemoryConfined(s, m, false);
      LikeMemory(s, t, m, false);
      AreTwins(s.(mem := m), t.(mem := m));
      SwapWordLike(s.(mem := m), t.(mem := m), i, addr);
      if m.pages[PageOf(addr)].Ram? {
        SwapByteLike(s.(mem := m), t.(mem := m), i, addr);
      }
    }
  }

  // ----- block transfers -----

  lemma {:induction false} BlockLoadLike(s: State, t: State, p: Plan, rs: RegNo, addr: Word)
    requires Twins(s, t) && PageOf(addr) in s.mem.pages
    ensures PageOf(addr) in t.mem.pages && Like(BlockLoad(s, p, rs, addr), BlockLoad(t, p, rs, addr))
  {
    hide Twins, Like, User, SetReg, Put, WritePc, Load, ZeroKept, Valid;
    SameReg(s, t, 0);
    TwinsAre(s, t);
    UserMode(s);
    var (value, m) := Load(s.mem, addr, false);
    var hit := addr / 4 in s.stops.loads;
    LoadZero(s.mem, addr, false);
    MemoryConfined(s, m, hit);
    LikeMemory(s, t, m, hit);
    var s', t' := Watched(s.(mem := m), hit), Watched(t.(mem := m), hit);
    AreTwins(s', t');
    LikePc(s', t', value, p.flags);
    if rs < 15 {
      LikeWrites(s', t', rs, value);
    }
  }

  lemma {:induction false} BlockStoreLike(s: State, t: State, p: Plan, rs: RegNo, addr: Word)
    requires Twins(s, t) && PageOf(addr) in s.mem.pages
    ensures PageOf(addr) in t.mem.pages && Like(BlockStore(s, p, rs, addr), BlockStore(t, p, rs, addr))
  {
    hide Twins, Like, User, Reg, At, Store, Pack, Count;
    SameReg(s, t, rs);
    TwinsAre(s, t);
    assert BlockValue(s, p, rs) == BlockValue(t, p, rs);
    LikeMemory(s, t, Store(s.mem, addr, BlockValue(s, p, rs)), addr / 4 in s.stops.stores);
  }

  lemma {:induction false} TransferLike(s: State, t: State, p: Plan, rs: nat, abort: bool)
    requires Twins(s, t) && rs <= 16
    ensures LikeEffects(Transfer(s, p, rs, abort), Transfer(t, p, rs, abort))
    decreases 16 - rs, 1
  {
    hide Twins, Like, User, Touch, BlockLoad, BlockStore, AddressOf, ZeroKept, Writable, Valid;
    TwinsAre(s, t);
    UserMode(s);
    SameReg(s, t, 0);
    if rs == 16 {
    } else if !BitAt(p.list, rs) {
      TransferLike(s, t, p, rs + 1, abort);
    } else {
      var addr := AddressOf(p, rs);
      if PageOf(addr) < NUM_PAGE_TABLES && Touch(s.mem, addr).Some? {
        TouchZero(s.mem, addr);
        TouchPresent(s.mem, addr);
        var m := Touch(s.mem, addr).value;
        MemoryConfined(s, m, false);
        LikeMemory(s, t, m, false);
        AreTwins(s.(mem := m), t.(mem := m));
        TransferOneLike(s.(mem := m), t.(mem := m), p, rs, addr, abort);
      }
    }
  }

  lemma {:induction false} TransferOneLike(s: State, t: State, p: Plan, rs: RegNo, addr: Word, abort: bool)
    requires Twins(s, t) && PageOf(addr) in s.mem.pages
    ensures PageOf(addr) in t.mem.pages
    ensures LikeEffects(Transfer(s, p, rs + 1, true), Transfer(t, p, rs + 1, true))
    ensures LikeEffects(Transfer(BlockLoad(s, p, rs, addr), p, rs + 1, abort),
                        Transfer(BlockLoad(t, p, rs, addr), p, rs + 1, abort))
    ensures Writable(s.mem, addr) ==> LikeEffects(Transfer(BlockStore(s, p, rs, addr), p, rs + 1, false),
                                                  Transfer(BlockStore(t, p, rs, addr), p, rs + 1, false))
    decreases 16 - rs, 0
  {
    hide Twins, Like, LikeEffects, Transfer, BlockLoad, BlockStore, Writable, User;
    TwinsAre(s, t);
    TransferLike(s, t, p, rs + 1, true);
    BlockLoadLike(s, t, p, rs, addr);
    BlockLoadConfined(s, p, rs, addr);
    ConfinedUser(s, BlockLoad(s, p, rs, addr));
    AreTwins(BlockLoad(s, p, rs, addr), BlockLoad(t, p, rs, addr));
    TransferLike(BlockLoad(s, p, rs, addr), BlockLoad(t, p, rs, addr), p, rs + 1, abort);
    if Writable(s.mem, addr) {
      BlockStoreLike(s, t, p, rs, addr);
      BlockStoreConfined(s, p, rs, addr);
      ConfinedUser(s, BlockStore(s, p, rs, addr));
      AreTwins(BlockStore(s, p, rs, addr), BlockStore(t, p, rs, addr));
      TransferLike(BlockStore(s, p, rs, addr), BlockStore(t, p, rs, addr), p, rs + 1, false);
    }
  }

  lemma {:induction false} BlockLike(s: State, t: State, i: Instruction)
    requires Twins(s, t) && i.Block?
    ensures LikeEffects(ExecBlock(s, i), ExecBlock(t, i))
  {
    hide Twins, Like, User, Transfer, SetReg, Put, BlockEnd, BlockStart, Reg, At, Or, Pack;
    SameReg(s, t, i.rn);
    TwinsAre(s, t);
    assert BlockPlan(s, i) == BlockPlan(t, i);
    var s', t' := WriteBack(s, i), WriteBack(t, i);
    if i.rn < 15 {
      LikeWrites(s, t, i.rn, BlockEnd(i, Reg(s, i.rn)));
      RegConfined(s, i.rn, BlockEnd(i, Reg(s, i.rn)));
      ConfinedUser(s, s');
    }
    AreTwins(s', t');
    TransferLike(s', t', BlockPlan(s, i), 0, false);
  }

  lemma {:induction false} ExecLike(s: State, t: State, i: Instruction)
    requires Twins(s, t) && !Cop(i)
    ensures LikeEffects(Exec(s, i), Exec(t, i))
  {
    hide Twins, Like, User, ExecAlu, ExecMultiply, ExecSwap, ExecSingle, ExecBranch, ExecBlock;
    TwinsAre(s, t);
    match i
    case Alu(_, _, _, _, _) => AluLike(s, t, i);
    case Multiply(_, _, _, _, _, _) => MultiplyLike(s, t, i);
    case Swap(_, _, _, _) => SwapLike(s, t, i);
    case Single(_, _, _, _, _, _, _, _) => SingleLike(s, t, i);
    case Branch(_, _) => BranchLike(s, t, i);
    case Block(_, _, _, _, _, _, _) => BlockLike(s, t, i);
    case Swi(_) =>
  }
}
