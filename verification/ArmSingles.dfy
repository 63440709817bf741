/** LDR, STR and SWP on RAM (instructions.c:438-589, 786-863): what is stored is loaded, and a swap exchanges. */
module ArmSingles {
  import opened Prelude
  import opened ArmWords
  import opened ArmMemory
  import opened ArmState
  import opened ArmDecode
  import opened ArmExecute
  import opened ArmBlocks

  /** An access at base plus or minus an immediate offset, without write-back, to RAM the mode may write. */
  predicate Direct(s: State, i: Instruction, addr: Word) {
    && i.Single? && i.pre && !i.writeBack && i.rn < 15 && i.rd < 15 && i.offset.Immediate?
    && addr == Offset(i.add, Reg(s, i.rn), i.offset.value) && addr < 0x400_0000 && (addr % 4 == 0 || i.byte)
    && Banked(s) && RoomAt(s.mem, s.r15.mode, addr)
  }

  lemma {:induction false} StoreHappens(s: State, i: Instruction, addr: Word)
    requires Direct(s, i, addr) && !i.load
    ensures PageOf(addr) in s.mem.pages && Exec(s, i) == Done(StoreFrom(s, i.rd, addr, i.byte))
  {
    hide Bank, Pack, StoreFrom;
    assert Touch(s.mem, addr) == Some(s.mem) && s.(mem := s.mem) == s;
    PlacesApart(s, false, i.rn, i.rn);
  }

  lemma {:induction false} LoadHappens(s: State, i: Instruction, addr: Word)
    requires Direct(s, i, addr) && i.load
    ensures PageOf(addr) in s.mem.pages && Exec(s, i) == Done(LoadInto(s, i.rd, addr, i.byte))
  {
    hide Bank, Pack, LoadInto;
    assert Touch(s.mem, addr) == Some(s.mem) && s.(mem := s.mem) == s;
    PlacesApart(s, false, i.rn, i.rn);
  }

  /** The word at the aligned address of a byte. */
  function Around(m: Memory, addr: Word): Word
    requires HasWord(m, addr)
  {
    m.pages[PageOf(addr)].words[WordOf(addr)]
  }

  /** STR and then LDR of the same address: the register's value comes back, and nothing but that word has changed. */
  lemma {:induction false} StoreThenLoadWord(s: State, i: Instruction, addr: Word, rd: RegNo, b: nat)
    requires Direct(s, i, addr) && !i.load && !i.byte && rd < 15
    ensures Exec(s, i).Done? && Exec(Exec(s, i).s, i.(load := true, rd := rd)).Done?
    ensures var t := Exec(s, i).s;
            && t == s.(mem := t.mem, watch := t.watch)
            && (HasWord(s.mem, b) && b % 4 == 0 && b != addr ==>
                HasWord(t.mem, b) && WordAt(t.mem, b) == WordAt(s.mem, b))
            && Reg(Exec(t, i.(load := true, rd := rd)).s, rd) == Reg(s, i.rd)
  {
    hide Exec, Bank, Pack, Banked, PageOf, WordOf;
    StoreHappens(s, i, addr);
    StoredWord(s, i.rd, addr, b);
    var t := StoreFrom(s, i.rd, addr, false);
    StillBanked(s, t);
    LoadHappens(t, i.(load := true, rd := rd), addr);
    LoadedWord(t, rd, addr);
  }

  lemma {:induction false} StoredWord(s: State, rd: RegNo, addr: Word, b: nat)
    requires RoomAt(s.mem, s.r15.mode, addr) && addr % 4 == 0 && rd < 15
    ensures PageOf(addr) in s.mem.pages
    ensures var t := StoreFrom(s, rd, addr, false);
            && t == s.(mem := t.mem, watch := t.watch) && RoomAt(t.mem, t.r15.mode, addr)
            && WordAt(t.mem, addr) == Reg(s, rd)
            && (HasWord(s.mem, b) && b % 4 == 0 && b != addr ==>
                HasWord(t.mem, b) && WordAt(t.mem, b) == WordAt(s.mem, b))
  {
    hide Pack, WordOf, PageOf;
    PutWordIs(s.mem, addr, Reg(s, rd), b);
  }

  lemma {:induction false} LoadedWord(s: State, rd: RegNo, addr: Word)
    requires Banked(s) && HasWord(s.mem, addr) && rd < 15
    ensures Reg(LoadInto(s, rd, addr, false), rd) == WordAt(s.mem, addr)
  {
    hide Pack, WordOf, PageOf, Bank;
    var t := Watched(s, addr / 4 in s.stops.loads);
    assert s.(mem := s.mem) == s;
    StillBanked(s, t);
    OneRegister(t, rd, WordAt(s.mem, addr));
  }

  /** STRB and then LDRB: the low byte comes back, and the other bytes of the word stay. */
  lemma {:induction false} StoreThenLoadByte(s: State, i: Instruction, addr: Word, rd: RegNo, k: nat)
    requires Direct(s, i, addr) && !i.load && i.byte && rd < 15 && k < 4
    ensures Exec(s, i).Done? && Exec(Exec(s, i).s, i.(load := true, rd := rd)).Done?
    ensures var t := Exec(s, i).s;
            && HasWord(t.mem, addr) && Reg(Exec(t, i.(load := true, rd := rd)).s, rd) == Reg(s, i.rd) % 0x100
            && (k != addr % 4 ==> ByteOf(Around(t.mem, addr), k) == ByteOf(Around(s.mem, addr), k))
  {
    hide Exec, Bank, Pack, Banked, PageOf, WordOf, ByteOf;
    StoreHappens(s, i, addr);
    StoredByte(s, i.rd, addr, k);
    StoredByte(s, i.rd, addr, addr % 4);
    var t := StoreFrom(s, i.rd, addr, true);
    StillBanked(s, t);
    LoadHappens(t, i.(load := true, rd := rd), addr);
    LoadedByte(t, rd, addr);
  }

  lemma {:induction false} StoredByte(s: State, rd: RegNo, addr: Word, k: nat)
    requires RoomAt(s.mem, s.r15.mode, addr) && rd < 15 && k < 4
    ensures PageOf(addr) in s.mem.pages
    ensures var t := StoreFrom(s, rd, addr, true);
            && t == s.(mem := t.mem, watch := t.watch) && RoomAt(t.mem, t.r15.mode, addr)
            && ByteOf(Around(t.mem, addr), k) ==
               if k == addr % 4 then Reg(s, rd) % 0x100 else ByteOf(Around(s.mem, addr), k)
  {
    hide Pack, WordOf, PageOf, ByteOf, PutByte;
    BytesOfPut(Around(s.mem, addr), addr % 4, Reg(s, rd) % 0x100, k);
    BytesOfPut(Around(s.mem, addr), addr % 4, Reg(s, rd) % 0x100, addr % 4);
  }

  lemma {:induction false} LoadedByte(s: State, rd: RegNo, addr: Word)
    requires Banked(s) && HasWord(s.mem, addr) && rd < 15
    ensures Reg(LoadInto(s, rd, addr, true), rd) == ByteOf(Around(s.mem, addr), addr % 4)
  {
    hide Pack, WordOf, PageOf, Bank, ByteOf;
    var t := Watched(s, addr / 4 in s.stops.loads);
    assert s.(mem := s.mem) == s;
    StillBanked(s, t);
    OneRegister(t, rd, ByteOf(Around(s.mem, addr), addr % 4));
  }

  /** STR and then LDRB at one of the four bytes: the k-th byte is the k-th lowest, that is, memory is little-endian. */
  lemma {:induction false} BytesOfStoredWord(s: State, i: Instruction, addr: Word, j: Instruction, k: nat)
    requires Direct(s, i, addr) && !i.load && !i.byte && k < 4
    requires Exec(s, i).Done? && Direct(Exec(s, i).s, j, addr + k) && j.load && j.byte
    ensures Exec(Exec(s, i).s, j).Done?
    ensures Reg(Exec(Exec(s, i).s, j).s, j.rd) == Reg(s, i.rd) / Span(8 * k) % 0x100
  {
    hide Exec, Bank, Pack, PageOf, WordOf, Reg;
    StoreHappens(s, i, addr);
    StoredWord(s, i.rd, addr, 0);
    var t := StoreFrom(s, i.rd, addr, false);
    LoadHappens(t, j, addr + k);
    LoadedByte(t, j.rd, addr + k);
    SameWordAround(addr, k);
    ByteIsQuotient(Reg(s, i.rd), k);
  }

  lemma SameWordAround(addr: Word, k: nat)
    requires addr % 4 == 0 && k < 4
    ensures PageOf(addr + k) == PageOf(addr) && WordOf(addr + k) == WordOf(addr) && (addr + k) % 4 == k
  {
    WordPlace(addr);
    PlaceInPage(PageOf(addr), WordOf(addr), k);
  }

  lemma {:induction false} PlaceInPage(p: nat, w: nat, k: nat)
    requires w < 0x400 && k < 4
    ensures PageOf(0x1000 * p + 4 * w + k) == p && WordOf(0x1000 * p + 4 * w + k) == w
    ensures (0x1000 * p + 4 * w + k) % 4 == k
  {
    var x := 0x1000 * p + 4 * w + k;
    Quotient(x, 0x1000, p, 4 * w + k);
    assert x % 0x1000 == x - 0x1000 * p;
    Quarter(w, k);
    Quarter(0x400 * p + w, k);
  }

  lemma ByteIsQuotient(w: Word, k: nat)
    requires k < 4
    ensures ByteOf(w, k) == w / Span(8 * k) % 0x100
  {
    assert Span(8) == 0x100;
    assert Span(16) == 0x1_0000;
    assert Span(24) == 0x100_0000;
  }

  /** SWP of a word: the register gets the word, the word gets the other register's value from before. */
  lemma {:induction false} SwapExchanges(s: State, i: Instruction)
    requires i.Swap? && !i.byte && i.rn < 15 && i.rd < 15 && i.rm < 15 && Banked(s)
    requires Reg(s, i.rn) % 4 == 0 && Reg(s, i.rn) < 0x400_0000 && RoomAt(s.mem, s.r15.mode, Reg(s, i.rn))
    ensures Exec(s, i).Done?
    ensures var t, a := Exec(s, i).s, Reg(s, i.rn);
            && Reg(t, i.rd) == WordAt(s.mem, a)
            && HasWord(t.mem, a) && WordAt(t.mem, a) == Reg(s, i.rm)
  {
    hide Pack, Unpack, WordOf, PageOf, Bank;
    var a := Reg(s, i.rn);
    assert Touch(s.mem, a) == Some(s.mem) && s.(mem := s.mem) == s;
    PlacesApart(s, false, i.rd, i.rd);
    PutWordIs(s.mem, a, Reg(s, i.rm), a);
    OneRegister(s, i.rd, WordAt(s.mem, a));
  }

  // ----- the registers of coprocessor 1 -----

  /** MCR and then MRC: the value comes back, and the state is that before but for the two registers written. */
  lemma {:induction false} MoveThereAndBack(s: State, rd: RegNo, crn: HwNo, rd': RegNo)
    requires Banked(s) && rd < 15 && rd' < 15
    ensures var there, back := CopRegister(1, rd, crn, 0), CopRegister(1, rd', crn, 1);
            && Exec(s, there).Done? && Exec(Exec(s, there).s, back).Done?
            && var t := Exec(s, there).s;
               var u := Exec(t, back).s;
               && HwReg(t, crn) == Reg(s, rd) && t == s.(hw := t.hw) && Reg(u, rd') == Reg(s, rd)
               && (forall k: HwNo :: k != crn ==> HwReg(t, k) == HwReg(s, k))
               && u == t.(regs := u.regs)
               && (forall n: RegNo :: n < 15 && n != rd' ==> Reg(u, n) == Reg(s, n))
               && (rd' == rd ==> u == t)
  {
    hide Pack, Unpack, Bank, Reg, SetReg;
    var t := Exec(s, CopRegister(1, rd, crn, 0)).s;
    OneRegister(t, rd', Reg(s, rd));
    SameRegisters(s, t);
    if rd' == rd {
      SetToItself(t, rd);
    }
  }

  lemma SameRegisters(s: State, t: State)
    requires t == s.(hw := t.hw)
    ensures forall n: RegNo :: Reg(t, n) == Reg(s, n)
  {
  }

  lemma SetToItself(s: State, n: RegNo)
    requires Banked(s) && n < 15
    ensures SetReg(s, n, Reg(s, n)) == s
  {
    hide Bank;
    PlacesApart(s, false, n, n);
    var k := s.effective[n];
    assert s.regs[k := s.regs[k]] == s.regs;
  }
}
