/**
 * What a program learns of the hardware through coprocessor 1 (hw_manager.c:31-149): a CDP and then MRC of its
 * registers; waiting for an interrupt; and memory mapped to a device (init.c:301-381, instructions.c:161-222).
 */
module ArmManager {
  import opened Prelude
  import opened ArmWords
  import opened ArmBits
  import opened ArmMemory
  import opened ArmState
  import opened ArmDecode
  import opened ArmExecute
  import opened ArmStep
  import opened ArmBlocks
  import opened ArmTransfers
  import opened ArmMacros
  import opened ArmTraps

  const NUM_DEVICES: RegNo := 0
  const MAP_MEMORY: RegNo := 1
  const GET_DEVICE_ID: RegNo := 2
  const INTERRUPT_DATA: RegNo := 3
  const WAIT_FOR_INTERRUPT: RegNo := 4
  const GETTIME: RegNo := 5
  const DEVICE_OPERATION: RegNo := 6

  /** An operation of coprocessor 1 all of whose registers exist. */
  predicate Manages(i: Instruction, opcode: RegNo) {
    i.CopData? && i.proc == 1 && i.opcode == opcode && i.crd < 4 && i.crn < 4 && i.crm < 4 && i.aux < 4
  }

  /** A device that has an operation. */
  predicate Operates(s: State, d: Word) {
    d < |s.mem.devices| && s.mem.devices[d].operates
  }

  // ----- what is read afterwards -----

  /** MRC: the register is that of the coprocessor, and nothing else changes. */
  lemma {:induction false} ReadBack(s: State, k: HwNo, rd: RegNo)
    requires Banked(s) && rd < 15
    ensures Exec(s, CopRegister(1, rd, k, 1)).Done?
    ensures var t := Exec(s, CopRegister(1, rd, k, 1)).s;
            && t == s.(regs := t.regs) && Reg(t, rd) == HwReg(s, k)
            && forall n: RegNo :: n < 15 && n != rd ==> Reg(t, n) == Reg(s, n)
  {
    hide Banked, Reg, SetReg;
    OneRegister(s, rd, HwReg(s, k));
  }

  /**
   * The state of an operation and then MRC of register k of the coprocessor into rd: rd is `value`, no other register
   * of the processor changes, and memory is m.
   */
  predicate Reads(s: State, i: Instruction, k: HwNo, rd: RegNo, value: Word, m: Memory) {
    var e := Exec(s, i);
    e.Done? &&
    var f := Exec(e.s, CopRegister(1, rd, k, 1));
    f.Done? &&
    var t := f.s;
    && Reg(t, rd) == value && t == s.(regs := t.regs, hw := t.hw, mem := m)
    && forall n: RegNo :: n < 15 && n != rd ==> Reg(t, n) == Reg(s, n)
  }

  lemma {:induction false} ThenRead(s: State, i: Instruction, k: HwNo, rd: RegNo)
    requires Banked(s) && rd < 15 && Exec(s, i).Done?
    requires var t := Exec(s, i).s; t == s.(hw := t.hw, mem := t.mem)
    ensures Reads(s, i, k, rd, HwReg(Exec(s, i).s, k), Exec(s, i).s.mem)
  {
    hide Bank, Reg, Exec;
    var t := Exec(s, i).s;
    StillBanked(s, t);
    SameRegisters(s, t);
    ReadBack(t, k, rd);
  }

  /** The number of devices is read from the register named. */
  lemma {:induction false} DevicesCounted(s: State, i: Instruction, k: HwNo, rd: RegNo)
    requires Manages(i, NUM_DEVICES) && Banked(s) && rd < 15
    ensures Reads(s, i, k, rd, if k == i.crd then Wrap(|s.mem.devices|) else HwReg(s, k), s.mem)
  {
    hide Banked, Reads, Wrap;
    ThenRead(s, i, k, rd);
  }

  /** The id of the device whose number is in crd is read from cr0; without such a device nothing has changed. */
  lemma {:induction false} DeviceIdentified(s: State, i: Instruction, k: HwNo, rd: RegNo)
    requires Manages(i, GET_DEVICE_ID) && Banked(s) && rd < 15
    ensures var d := HwReg(s, i.crd);
            Reads(s, i, k, rd, if k == 0 && d < |s.mem.devices| then s.mem.devices[d].id else HwReg(s, k), s.mem)
  {
    hide Banked, Reads;
    ThenRead(s, i, k, rd);
  }

  /** Id and code of the last interrupt accepted are read from cr0 and cr1. */
  lemma {:induction false} InterruptIdentified(s: State, i: Instruction, k: HwNo, rd: RegNo)
    requires Manages(i, INTERRUPT_DATA) && Banked(s) && rd < 15
    ensures Reads(s, i, k, rd, if k == 0 then s.hw.lastId else if k == 1 then s.hw.lastCode else HwReg(s, k), s.mem)
  {
    hide Banked, Reads;
    ThenRead(s, i, k, rd);
  }

  /** GETTIME leaves two fixed words in cr0 and cr1. */
  lemma {:induction false} TimeRead(s: State, i: Instruction, k: HwNo, rd: RegNo)
    requires Manages(i, GETTIME) && Banked(s) && rd < 15
    ensures Reads(s, i, k, rd, if k == 0 then 0x617a_6977 else if k == 1 then 0x7972_6472 else HwReg(s, k), s.mem)
  {
    hide Banked, Reads;
    ThenRead(s, i, k, rd);
  }

  /**
   * The device whose number is in crd, if it has an operation, is given the words in crn and crm, and its answer is
   * read from crd; no other device is accessed. Without such a device nothing has changed.
   */
  lemma {:induction false} OperationAnswered(s: State, i: Instruction, k: HwNo, rd: RegNo, answer: Word,
                                             rest: seq<Word>)
    requires Manages(i, DEVICE_OPERATION) && Banked(s) && rd < 15 && s.mem.answers == [answer] + rest
    ensures var d := HwReg(s, i.crd);
            var call := Access(d, Operate(HwReg(s, i.crn)), 0, HwReg(s, i.crm));
            if Operates(s, d) then
              Reads(s, i, k, rd, if k == i.crd then answer else HwReg(s, k),
                    s.mem.(bus := s.mem.bus + [call], answers := rest))
            else Reads(s, i, k, rd, HwReg(s, k), s.mem)
  {
    hide Banked, Reads;
    ThenRead(s, i, k, rd);
  }

  /** A register that does not exist or another opcode does nothing. */
  lemma Ignored(s: State, i: Instruction)
    requires i.CopData? && (i.proc != 1 || i.crd >= 4 || i.crn >= 4 || i.crm >= 4 || i.aux >= 4 || i.opcode > 6)
    ensures Exec(s, i) == Done(s)
  {
  }

  /**
   * MRC into r15: the flags and the interrupt masks become those of the word, the other bits are or-ed into those of
   * address and mode, and the next instruction is fetched from where it would have been.
   */
  lemma {:induction false} FlagsTransferred(s: State, c: HwNo)
    ensures Exec(s, CopRegister(1, 15, c, 1)).Done?
    ensures var t, w := Exec(s, CopRegister(1, 15, c, 1)).s, HwReg(s, c);
            && t == s.(r15 := t.r15)
            && forall k: nat :: k < 32 ==> StatusBit(t.r15, k) == (BitAt(w, k) || (k < 26 && StatusBit(s.r15, k)))
  {
    hide Or, Unpack, BitAt, StatusBit;
    var x, w := s.r15.addr + s.r15.mode, HwReg(s, c);
    forall k: nat | k < 32
      ensures StatusBit(Unpack(Or(x, w)), k) == (BitAt(w, k) || (k < 26 && StatusBit(s.r15, k)))
    {
      BitOfUnpack(Or(x, w), k);
      BitOr(x, w, k);
      BitOfPlace(s.r15, k);
    }
  }

  lemma BitOfPlace(st: Status, k: nat)
    ensures BitAt(st.addr + st.mode, k) == (k < 26 && StatusBit(st, k))
  {
    hide BitAt;
    BitOfAddr(st.addr, st.mode, k);
  }

  // ----- waiting -----

  /**
   * The wait starts exactly if neither kind of interrupt is masked; the next turn then waits, and executes nothing,
   * exactly if no interrupt is pending.
   */
  lemma {:induction false} WaitStarts(s: State, w: Word)
    requires Fetches(s, w) && Holds(w / 0x1000_0000, s.r15) && Manages(Decode(w), WAIT_FOR_INTERRUPT) && Banked(s)
    requires !s.watch
    ensures var u := Fetched(s).(wait := s.wait || (!s.r15.i && !s.r15.f));
            && Step(s) == Running(u)
            && (Step(u) == Waiting(u) <==> !s.r15.i && !s.r15.f && !s.pinI && !s.pinF)
            && (Step(u).Waiting? ==> Step(u) == Waiting(u))
  {
    hide Bank, Decode, Align, Step, Holds, Exec;
    var u := Fetched(s);
    Executes(s, w);
    WaitSet(u, Decode(w));
    WaitsIff(Fetched(s).(wait := s.wait || (!s.r15.i && !s.r15.f)));
  }

  lemma WaitSet(u: State, i: Instruction)
    requires Manages(i, WAIT_FOR_INTERRUPT)
    ensures Exec(u, i) == Done(u.(wait := u.wait || (!u.r15.i && !u.r15.f)))
  {
  }

  lemma {:induction false} WaitsIff(u: State)
    ensures Step(u).Waiting? <==> u.wait && !u.pinI && !u.pinF
    ensures Step(u).Waiting? ==> Step(u) == Waiting(u)
  {
    hide Exec, Decode, Touch, Advance, Rebank, Trap, EnterFiq, EnterIrq, Holds;
  }

  // ----- memory mapped to a device -----

  /** Exactly when a range is mapped. */
  lemma {:induction false} MappedIff(m: Memory, d: Word, start: Word, end: Word)
    ensures MapMemory(m, d, start, end).1 == Ok <==>
            && d < |m.devices| && 0x1000 <= start < end < 0x400_0000 && start % 0x1000 == 0 && end % 0x1000 == 0
            && forall p: nat :: start / 0x1000 <= p < end / 0x1000 ==> p !in m.pages
  {
  }

  /**
   * In a range that has been mapped every load and store goes to the device, at the distance from the start; a load
   * gets its answer. Every other page is as before.
   */
  lemma {:induction false} MappedAccess(m: Memory, d: Word, start: Word, end: Word, a: Word, byte: bool, v: Byte)
    requires MapMemory(m, d, start, end).1 == Ok && start <= a < end
    ensures var t := MapMemory(m, d, start, end).0;
            && PageOf(a) in t.pages && Touch(t, a) == Some(t) && Writable(t, a)
            && Load(t, a, byte).1.bus == m.bus + [Access(d, if byte then ReadByte else ReadWord, a - start, 0)]
            && (m.answers != [] ==> Load(t, a, byte).0 == m.answers[0])
            && Store(t, a, v) == t.(bus := m.bus + [Access(d, WriteWord, a - start, v)])
            && StoreByte(t, a, v) == t.(bus := m.bus + [Access(d, WriteByte, a - start, v)])
            && (forall p :: p in m.pages ==> p in t.pages && t.pages[p] == m.pages[p])
            && t.free == m.free
  {
    var t := MapMemory(m, d, start, end).0;
    assert Within(PageOf(a), PageOf(start), PageOf(end));
    assert t.pages[PageOf(a)] == Mapped(d);
  }

  /**
   * MAP_MEMORY maps the device whose number is in crd from the address in crn up to that in crm, if that can be; if not
   * nothing changes.
   */
  lemma {:induction false} RangeMapped(s: State, i: Instruction)
    requires Manages(i, MAP_MEMORY)
    ensures Exec(s, i).Done?
    ensures var t, d, start, end := Exec(s, i).s, HwReg(s, i.crd), HwReg(s, i.crn), HwReg(s, i.crm);
            if d < |s.mem.devices| && 0x1000 <= start < end < 0x400_0000 && start % 0x1000 == 0 && end % 0x1000 == 0
               && forall p: nat :: start / 0x1000 <= p < end / 0x1000 ==> p !in s.mem.pages
            then
              && t == s.(mem := t.mem) && MapMemory(s.mem, d, start, end) == (t.mem, Ok)
              && forall a: Word :: start <= a < end ==> MapsTo(t.mem, a, d, start)
            else t == s
  {
    hide HwReg, MapMemory;
    var d, start, end := HwReg(s, i.crd), HwReg(s, i.crn), HwReg(s, i.crm);
    MappedIff(s.mem, d, start, end);
    MapMemoryGrows(s.mem, d, start, end);
    if MapMemory(s.mem, d, start, end).1 == Ok {
      forall a: Word | start <= a < end ensures MapsTo(MapMemory(s.mem, d, start, end).0, a, d, start) {
        MappedTo(s.mem, d, start, end, a);
      }
    } else {
      assert s.(mem := s.mem) == s;
    }
  }

  /** An address belongs to a device whose range begins at start. */
  predicate MapsTo(m: Memory, a: Word, d: Word, start: Word) {
    PageOf(a) in m.pages && m.pages[PageOf(a)] == Mapped(d) && d < |m.devices| && m.devices[d].base == start
  }

  lemma MappedTo(m: Memory, d: Word, start: Word, end: Word, a: Word)
    requires MapMemory(m, d, start, end).1 == Ok && start <= a < end
    ensures MapsTo(MapMemory(m, d, start, end).0, a, d, start)
  {
    assert Within(PageOf(a), PageOf(start), PageOf(end));
  }
}
