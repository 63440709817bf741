/**
 * The emulator itself: struct armv2 and the functions that work on it, with their arrays, packed words, masks and loops
 * (armv2.h:46-240, step.c, instructions.c, init.c, hw_manager.c), proved to do what the functions of ArmExecute,
 * ArmMemory and ArmStep say. `State` is what the struct stands for: r15 is unpacked, the page table is a map of the
 * pages present, the bitmasks are sets of addresses.
 */
module ArmMachine {
  import opened Prelude
  import opened ArmWords
  import opened ArmBits
  import opened ArmMemory
  import opened ArmState
  import opened ArmDecode
  import opened ArmExecute
  import opened ArmStep
  import opened ArmAlu
  import opened ArmMacros
  import opened ArmDispatch
  import opened ArmOperand
  import opened ArmBytes
  import opened ArmStops

  const MAX_MEMORY: nat := 0x400_0000

  /** `(memsize + PAGE_MASK) & ~PAGE_MASK` in 32 bits. */
  function RoundedSize(memsize: Word): Word {
    var m := Wrap(memsize + 0xfff);
    m - m % 0x1000
  }

  datatype RunStatus = Finished | AtBreakpoint | WaitForInterrupt

  type DeviceCount = n: nat | n <= 64

  // ----- the page table as an array -----

  /** The pages a table holds. */
  ghost function TableMap(t: seq<Option<Page>>): (m: map<nat, Page>)
    ensures forall p: nat :: p in m <==> p < |t| && t[p].Some?
    ensures forall p: nat :: p in m ==> m[p] == t[p].value
  {
    map p: nat | p < |t| && t[p].Some? :: t[p].value
  }

  lemma TablePut(t: seq<Option<Page>>, p: nat, page: Page)
    requires p < |t|
    ensures TableMap(t[p := Some(page)]) == TableMap(t)[p := page]
  {
  }

  class Armv2 {
    const actual: array<Word>
    const effective: array<Index>
    const pageTables: array<Option<Page>>
    const hardwareDevices: array<Device>
    const hwRegs: array<Word>
    const breakpoints: Bitmask
    const readWatchpoints: Bitmask
    const writeWatchpoints: Bitmask
    var numDevices: DeviceCount
    var freeRam: Word
    var lastId: Word
    var lastCode: Word
    var pc: Word
    var flags: Word
    var pins: Word
    var bus: seq<Access>
    var answers: seq<Word>

    predicate Valid() {
      && actual.Length == 27 && effective.Length == 16 && pageTables.Length == NUM_PAGE_TABLES
      && hardwareDevices.Length == HW_DEVICES_MAX && hwRegs.Length == 4
      && breakpoints.Valid() && readWatchpoints.Valid() && writeWatchpoints.Valid()
      && Apart()
    }

    /** No two of the arrays are the same. */
    predicate Apart() {
      && (actual as object) !in {effective as object, pageTables, hardwareDevices, hwRegs, breakpoints.words,
                                 readWatchpoints.words, writeWatchpoints.words}
      && (effective as object) !in {pageTables as object, hardwareDevices, hwRegs, breakpoints.words,
                                    readWatchpoints.words, writeWatchpoints.words}
      && (pageTables as object) !in {hardwareDevices as object, hwRegs, breakpoints.words, readWatchpoints.words,
                                     writeWatchpoints.words}
      && (hardwareDevices as object) !in {hwRegs as object, breakpoints.words, readWatchpoints.words,
                                          writeWatchpoints.words}
      && (hwRegs as object) !in {breakpoints.words as object, readWatchpoints.words, writeWatchpoints.words}
      && breakpoints.words != readWatchpoints.words && breakpoints.words != writeWatchpoints.words
      && readWatchpoints.words != writeWatchpoints.words
    }

    // ----- what the fields stand for -----

    ghost function Registers(): Regs
      requires Valid()
      reads actual
    {
      actual[..][15 := 0]
    }

    ghost function R15(): Status
      requires Valid()
      reads actual
    {
      Unpack(actual[15])
    }

    ghost function Pages(): map<nat, Page>
      requires Valid()
      reads pageTables
    {
      TableMap(pageTables[..])
    }

    ghost function Devices(): seq<Device>
      requires Valid()
      reads this`numDevices, hardwareDevices
    {
      hardwareDevices[..numDevices]
    }

    ghost function Mem(): Memory
      requires Valid()
      reads this`freeRam, this`numDevices, this`bus, this`answers, pageTables, hardwareDevices
    {
      Memory(Pages(), freeRam, Devices(), bus, answers)
    }

    ghost function Hw(): Manager
      requires Valid()
      reads this`lastId, this`lastCode, hwRegs
    {
      Manager(hwRegs[..], lastId, lastCode)
    }

    ghost function Marks(): Stops
      requires Valid()
      reads breakpoints.words, readWatchpoints.words, writeWatchpoints.words
    {
      Stops(breakpoints.Marked(), readWatchpoints.Marked(), writeWatchpoints.Marked())
    }

    ghost function State(): State
      requires Valid()
      reads this, actual, effective, pageTables, hardwareDevices, hwRegs
      reads breakpoints.words, readWatchpoints.words, writeWatchpoints.words
    {
      ArmState.State.State(Registers(), R15(), effective[..], pc, Mem(), Hw(), Has(pins, PIN_I), Has(pins, PIN_F),
                           Has(flags, FLAG_WAIT), Has(flags, FLAG_WATCHPOINT), Marks())
    }

    /** CPU_INITIALISED */
    predicate Initialised()
      reads this`flags
    {
      Has(flags, FLAG_INIT)
    }

    /** What an instruction has led to, given the exception it returns. */
    ghost function Result(e: Option<Exception>): Effect
      requires Valid()
      reads this, actual, effective, pageTables, hardwareDevices, hwRegs
      reads breakpoints.words, readWatchpoints.words, writeWatchpoints.words
    {
      if e.None? then Done(State()) else Raise(State(), e.value)
    }

    constructor ()
      ensures Valid() && fresh(actual) && fresh(effective) && fresh(pageTables) && fresh(hardwareDevices)
      ensures fresh(hwRegs) && fresh(breakpoints.words) && fresh(readWatchpoints.words) && fresh(writeWatchpoints.words)
    {
      actual := new Word[27](i => 0);
      effective := new Index[16](i => 0);
      pageTables := new Option<Page>[NUM_PAGE_TABLES](i => None);
      hardwareDevices := new Device[HW_DEVICES_MAX](i => Device(0, 0, false));
      hwRegs := new Word[4](i => 0);
      breakpoints := new Bitmask();
      readWatchpoints := new Bitmask();
      writeWatchpoints := new Bitmask();
      numDevices, freeRam, lastId, lastCode, pc, flags, pins := 0, 0, 0, 0, 0, 0, 0;
      bus, answers := [], [];
    }

    // ----- registers -----

    /** actual[PC] is overwritten. */
    method PutPacked(w: Word)
      requires Valid()
      modifies actual
      ensures State() == old(State()).(r15 := Unpack(w)) && actual[15] == w
    {
      hide Unpack;
      actual[15] := w;
      assert Registers() == old(Registers());
    }

    /** GETMODE */
    function ModeNow(): (m: Mode)
      requires Valid()
      reads actual
      ensures m == R15().mode
    {
      GetModeGets(actual[15]);
      GetMode(actual[15])
    }

    /** GETPC */
    function PcNow(): (a: Addr)
      requires Valid()
      reads actual
      ensures a == R15().addr
    {
      GetPcGets(actual[15]);
      GetPc(actual[15])
    }

    /** Entries from..to of the table, one after the other. */
    method SetEntries(from: nat, to: nat, target: nat)
      requires Valid() && from <= to <= 16 && target + (to - from) <= 27
      modifies effective
      ensures State() == old(State()).(effective := Entries(old(effective[..]), from, to, target))
    {
      ghost var e: Table := effective[..];
      for i := from to to
        invariant effective[..] == Entries(e, from, i, target)
      {
        effective[i] := target + (i - from);
      }
    }

    /** The end of the loop of run_armv2: the table follows the mode. */
    method Bank(was: Mode)
      requires Valid()
      modifies effective
      ensures State() == Rebank(old(State()), was)
    {
      hide Entries, Unpack, GetMode;
      if ModeNow() != was {
        if was == FIQ {
          SetEntries(8, 16, 8);
        }
        if ModeNow() == SUP {
          SetEntries(13, 15, 16);
        } else if ModeNow() == IRQ {
          SetEntries(13, 15, 18);
        } else if ModeNow() == FIQ {
          SetEntries(8, 15, 20);
        } else {
          SetEntries(13, 15, 13);
        }
      }
    }

    method GetActual(k: Index) returns (v: Word)
      requires Valid()
      ensures v == At(State(), k)
    {
      hide Pack, Unpack;
      PackUnpack(actual[15]);
      v := actual[k];
    }

    method PutActual(k: Index, v: Word)
      requires Valid()
      modifies actual
      ensures State() == Put(old(State()), k, v)
    {
      hide Unpack;
      actual[k] := v;
      assert Registers() == if k == 15 then old(Registers()) else old(Registers())[k := v];
    }

    method GetReg(n: RegNo) returns (v: Word)
      requires Valid()
      ensures v == Reg(State(), n)
    {
      v := GetActual(effective[n]);
    }

    method PutReg(n: RegNo, v: Word)
      requires Valid()
      modifies actual
      ensures State() == SetReg(old(State()), n, v)
    {
      PutActual(effective[n], v);
    }

    method JumpTo(target: Word)
      requires Valid()
      modifies this`pc, actual
      ensures State() == Jump(old(State()), target)
    {
      hide Unpack, SetPc, Align;
      pc := Wrap(target - 4);
      SetPcSets(actual[15], target);
      PutPacked(SetPc(actual[15], target));
    }

    /** r15 as the destination of an operation or of LDM. */
    method PutPc(w: Word, whole: bool)
      requires Valid()
      modifies this`pc, actual
      ensures State() == WritePc(old(State()), w, whole)
    {
      hide Unpack, SetPc, Align, Overwritten, Restored, GetPc;
      if whole {
        OverwrittenIsRestored(actual[15], w);
        PutPacked(Overwritten(actual[15], w));
      } else {
        SetPcSets(actual[15], w);
        PutPacked(SetPc(actual[15], w));
      }
      pc := Wrap(PcNow() - 4);
    }

    // ----- memory -----

    predicate Present(addr: nat)
      requires Valid()
      reads pageTables
    {
      PageOf(addr) < NUM_PAGE_TABLES && pageTables[PageOf(addr)].Some?
    }

    /** `cpu->page_tables[PAGEOF(addr)]`, where it is not NULL. */
    function PageNow(addr: nat): (page: Page)
      requires Valid() && Present(addr)
      reads pageTables
      ensures PageOf(addr) in Pages() && page == Pages()[PageOf(addr)]
    {
      pageTables[PageOf(addr)].value
    }

    method PutPage(p: nat, page: Page)
      requires Valid() && p < NUM_PAGE_TABLES
      modifies pageTables
      ensures State() == old(State()).(mem := old(Mem()).(pages := old(Pages())[p := page]))
      ensures Pages() == old(Pages())[p := page]
    {
      TablePut(pageTables[..], p, page);
      pageTables[p] := Some(page);
      assert pageTables[..] == old(pageTables[..])[p := Some(page)];
    }

    /** fault */
    method FaultIn(addr: Word) returns (code: Code)
      requires Valid()
      modifies this`freeRam, pageTables
      ensures State() == old(State()).(mem := Fault(old(Mem()), addr).0) && code == Fault(old(Mem()), addr).1
    {
      hide TableMap, ZeroPage, Unpack, Has;
      if PageOf(addr) >= NUM_PAGE_TABLES {
        return InvalidArgs;
      }
      assert PageOf(addr) in Pages() <==> pageTables[PageOf(addr)].Some?;
      if pageTables[PageOf(addr)].Some? {
        return FaultFault;
      }
      if freeRam < PAGE_SIZE {
        return MemoryError;
      }
      PutPage(PageOf(addr), Ram(ZeroPage(), PageOf(addr) != 0));
      freeRam := freeRam - PAGE_SIZE;
      return Ok;
    }

    /** The page of an address, paged in if it has to be. */
    method FindPage(addr: Word) returns (ok: bool)
      requires Valid() && PageOf(addr) < NUM_PAGE_TABLES
      modifies this`freeRam, pageTables
      ensures ok == Touch(old(Mem()), addr).Some?
      ensures ok ==> State() == old(State()).(mem := Touch(old(Mem()), addr).value) && Present(addr)
      ensures !ok ==> State() == old(State())
    {
      ok := true;
      if pageTables[PageOf(addr)].None? {
        var code := FaultIn(addr);
        ok := code == Ok;
        assert ok ==> PageOf(addr) in Pages();
      }
    }

    method TellDevice(d: nat, kind: Kind, offset: Word, value: Word)
      requires Valid()
      modifies this`bus
      ensures State() == old(State()).(mem := Tell(old(Mem()), d, kind, offset, value))
    {
      bus := bus + [Access(d, kind, offset, value)];
    }

    method AskDevice(d: nat, kind: Kind, offset: Word, value: Word) returns (answer: Word)
      requires Valid()
      modifies this`bus, this`answers
      ensures State() == old(State()).(mem := Ask(old(Mem()), d, kind, offset, value).1)
      ensures answer == Ask(old(Mem()), d, kind, offset, value).0
    {
      bus := bus + [Access(d, kind, offset, value)];
      answer := 0;
      if answers != [] {
        answer, answers := answers[0], answers[1..];
      }
    }

    /** `page->mapped_device->mapped.start` */
    method BaseOf(d: nat) returns (base: Word)
      requires Valid()
      ensures base == Base(Mem(), d)
    {
      base := 0;
      if d < numDevices {
        base := hardwareDevices[d].base;
      }
    }

    method PerformLoad(addr: Word, byte: bool) returns (value: Word)
      requires Valid() && Present(addr)
      modifies this`bus, this`answers
      ensures PageOf(addr) in old(Mem()).pages
      ensures State() == old(State()).(mem := Load(old(Mem()), addr, byte).1)
      ensures value == Load(old(Mem()), addr, byte).0
    {
      hide Registers, R15, Marks, Hw, Base, Ask, ByteOf, And, ShiftRight, TableMap;
      match PageNow(addr)
      case Mapped(d) =>
        var base := BaseOf(d);
        value := AskDevice(d, if byte then ReadByte else ReadWord, Wrap(addr - base), 0);
      case Ram(words, _) =>
        value := words[WordOf(addr)];
        if byte {
          ByteByShift(value, addr % 4);
          value := And(ShiftRight(value, 8 * (addr % 4)), 0xff);
        }
    }

    method PerformStore(addr: Word, value: Word)
      requires Valid() && Present(addr)
      modifies this`bus, pageTables
      ensures PageOf(addr) in old(Mem()).pages && State() == old(State()).(mem := Store(old(Mem()), addr, value))
    {
      hide Base, Tell, TableMap;
      match PageNow(addr)
      case Mapped(d) =>
        var base := BaseOf(d);
        TellDevice(d, WriteWord, Wrap(addr - base), value);
      case Ram(words, writable) =>
        PutPage(PageOf(addr), Ram(words[WordOf(addr) := value], writable));
    }

    method PerformStoreByte(addr: Word, b: Byte)
      requires Valid() && Present(addr)
      modifies this`bus, pageTables
      ensures PageOf(addr) in old(Mem()).pages && State() == old(State()).(mem := StoreByte(old(Mem()), addr, b))
    {
      hide Base, Tell, PutByte, ByteMasked, TableMap;
      match PageNow(addr)
      case Mapped(d) =>
        var base := BaseOf(d);
        TellDevice(d, WriteByte, Wrap(addr - base), b);
      case Ram(words, _) =>
        ByteByMask(words[WordOf(addr)], addr % 4, b);
        PerformStore(addr, ByteMasked(words[WordOf(addr)], 8 * (addr % 4), b));
    }

    /** map_memory: first a look at all the pages, then all of them. */
    method MapDevice(d: Word, start: Word, end: Word) returns (code: Code)
      requires Valid()
      modifies pageTables, hardwareDevices
      ensures State() == old(State()).(mem := MapMemory(old(Mem()), d, start, end).0)
      ensures code == MapMemory(old(Mem()), d, start, end).1
    {
      hide Registers, R15, Marks, Hw, WithRange, RangeFree, TableMap, Unpack, Has;
      if end <= start {
        return InvalidArgs;
      }
      if d >= numDevices {
        return NoSuchDevice;
      }
      var from, to := PageOf(start), PageOf(end);
      if start % PAGE_SIZE != 0 || end % PAGE_SIZE != 0 || from == 0 || to == 0 || from >= NUM_PAGE_TABLES
         || to >= NUM_PAGE_TABLES {
        return InvalidArgs;
      }
      var free := CheckRange(from, to);
      if !free {
        return AlreadyMapped;
      }
      FillRange(d, from, to);
      SetBase(d, start);
      return Ok;
    }

    method CheckRange(from: nat, to: nat) returns (free: bool)
      requires Valid() && from <= to <= NUM_PAGE_TABLES
      ensures free == RangeFree(Mem(), from, to)
    {
      for p: nat := from to to
        invariant forall q: nat :: from <= q < p ==> q !in Pages()
      {
        if pageTables[p].Some? {
          assert p in Mem().pages;
          return false;
        }
      }
      return true;
    }

    method SetBase(d: nat, start: Word)
      requires Valid() && d < numDevices
      modifies hardwareDevices
      ensures State() == old(State()).(mem := old(Mem()).(
                           devices := old(Devices())[d := old(Devices())[d].(base := start)]))
    {
      hardwareDevices[d] := hardwareDevices[d].(base := start);
      assert Devices() == old(Devices())[d := old(Devices())[d].(base := start)];
    }

    method FillRange(d: nat, from: nat, to: nat)
      requires Valid() && from <= to <= NUM_PAGE_TABLES
      modifies pageTables
      ensures State() == old(State()).(mem := old(Mem()).(pages := WithRange(old(Mem()), d, from, to)))
    {
      hide WithRange, TableMap;
      ghost var m := Mem();
      EmptyRange(m, d, from);
      for p: nat := from to to
        invariant Pages() == WithRange(m, d, from, p)
      {
        PutPage(p, Mapped(d));
        OneMore(m, d, from, p);
      }
    }

    static lemma EmptyRange(m: Memory, d: nat, from: nat)
      ensures WithRange(m, d, from, from) == m.pages
    {
    }

    static lemma {:induction false} OneMore(m: Memory, d: nat, from: nat, p: nat)
      requires from <= p
      ensures WithRange(m, d, from, p + 1) == WithRange(m, d, from, p)[p := Mapped(d)]
    {
      var a, b := WithRange(m, d, from, p + 1), WithRange(m, d, from, p)[p := Mapped(d)];
      forall q ensures q in a <==> q in b {
        assert Within(q, from, p + 1) <==> Within(q, from, p) || q == p;
      }
    }

    // ----- set-up and interrupts -----

    /** init */
    method Init(memsize: Word) returns (ok: bool)
      requires Valid()
      modifies this, actual, effective, pageTables, hardwareDevices, hwRegs
      modifies breakpoints.words, readWatchpoints.words, writeWatchpoints.words
      ensures ok == (RoundedSize(memsize) <= MAX_MEMORY)
      ensures State() == if ok then Initial(RoundedSize(memsize), [], old(answers)) else old(State())
      ensures ok ==> Initialised()
    {
      hide ClearState, Initial;
      var size := RoundedSize(memsize);
      if size > MAX_MEMORY {
        return false;
      }
      Clear();
      Boot(size);
      return true;
    }

    /** What init sets up once everything is zero. */
    method Boot(size: Word)
      requires Valid() && State() == ClearState(effective[..], answers)
      modifies this, actual, effective
      ensures State() == Initial(size, [], old(answers)) && Initialised()
    {
      hide Entries, ArmState.Bank, Unpack, Or, Has, Pages, Devices, Hw, Marks;
      InitialTable(effective[..]);
      InitialFlags();
      freeRam := size;
      flags := FLAG_INIT;
      PutPacked(Or(SUP, FLAG_I));
      pc := 0xffff_fffc;
      SetEntries(0, 16, 0);
      SetEntries(13, 15, 16);
    }

    /** Everything zero. */
    static ghost function ClearState(e: Table, answers: seq<Word>): State {
      ArmState.State.State(seq(27, i => 0), Unpack(0), e, 0, InitialMemory(0, [], answers),
                           Manager([0, 0, 0, 0], 0, 0), false, false, false, false, Stops({}, {}, {}))
    }

    /** `memset(cpu, 0, sizeof(struct armv2))`, reset_breakpoints and reset_watchpoints. */
    method Clear()
      requires Valid()
      modifies this, actual, pageTables, hwRegs, breakpoints.words, readWatchpoints.words, writeWatchpoints.words
      ensures State() == ClearState(old(effective[..]), old(answers)) && answers == old(answers)
    {
      hide Has, TableMap, Unpack;
      ZeroRegisters();
      ZeroManager();
      ZeroPages();
      ZeroMasks();
      ZeroFields();
      NoFlags();
    }

    method ZeroFields()
      requires Valid()
      modifies this
      ensures numDevices == 0 && freeRam == 0 && lastId == 0 && lastCode == 0 && pc == 0 && flags == 0 && pins == 0
      ensures bus == [] && answers == old(answers)
    {
      numDevices, freeRam, lastId, lastCode, pc, flags, pins := 0, 0, 0, 0, 0, 0, 0;
      bus := [];
    }

    method ZeroMasks()
      requires Valid()
      modifies breakpoints.words, readWatchpoints.words, writeWatchpoints.words
      ensures Marks() == Stops({}, {}, {})
    {
      breakpoints.Reset();
      readWatchpoints.Reset();
      writeWatchpoints.Reset();
    }

    static lemma NoFlags()
      ensures !Has(0, PIN_I) && !Has(0, PIN_F) && !Has(0, FLAG_WAIT) && !Has(0, FLAG_WATCHPOINT)
    {
    }

    static lemma InitialFlags()
      ensures Has(FLAG_INIT, FLAG_INIT) && !Has(FLAG_INIT, FLAG_WAIT) && !Has(FLAG_INIT, FLAG_WATCHPOINT)
      ensures Unpack(Or(SUP, FLAG_I)) == Status(false, false, false, false, true, false, 0, SUP)
    {
      hide Unpack, Or, Has, Without, With;
      NoFlags();
      NoInit();
      CpuFlags(0, FLAG_INIT, FLAG_INIT);
      CpuFlags(0, FLAG_INIT, FLAG_WAIT);
      CpuFlags(0, FLAG_INIT, FLAG_WATCHPOINT);
      InitialR15();
    }

    static lemma NoInit()
      ensures With(0, FLAG_INIT) == FLAG_INIT
    {
    }

    static lemma InitialR15()
      ensures Unpack(Or(SUP, FLAG_I)) == Status(false, false, false, false, true, false, 0, SUP)
    {
      hide Unpack, Or, Bits;
      SupWord();
      SetFlagSets(SUP);
    }

    static lemma SupWord()
      ensures Unpack(SUP) == Status(false, false, false, false, false, false, 0, SUP)
    {
      var st := Status(false, false, false, false, false, false, 0, SUP);
      assert FlagBits(st) == 0 by {
        assert Number([false, false, false]) == 0;
      }
      assert Pack(st) == 3;
      UnpackPack(st);
    }

    method ZeroRegisters()
      requires Valid()
      modifies actual
      ensures actual[15] == 0 && Registers() == seq(27, i => 0)
    {
      forall k | 0 <= k < 27 {
        actual[k] := 0;
      }
      assert actual[..] == seq(27, i => 0);
    }

    method ZeroManager()
      requires Valid()
      modifies hwRegs
      ensures hwRegs[..] == [0, 0, 0, 0]
    {
      forall k | 0 <= k < 4 {
        hwRegs[k] := 0;
      }
    }

    method ZeroPages()
      requires Valid()
      modifies pageTables
      ensures Pages() == map[]
    {
      forall p | 0 <= p < pageTables.Length {
        pageTables[p] := None;
      }
    }

    static lemma {:induction false} InitialTable(e: Table)
      ensures Entries(Entries(e, 0, 16, 0), 13, 15, 16) == ArmState.Bank(SUP)
    {
      forall n | 0 <= n < 16 ensures Entries(Entries(e, 0, 16, 0), 13, 15, 16)[n] == ArmState.Bank(SUP)[n] {
        assert ArmState.Bank(SUP)[n] == Slot(SUP, n);
      }
    }

    /** add_hardware */
    method AddHardware(d: Device) returns (code: Code)
      requires Valid()
      modifies this`numDevices, hardwareDevices
      ensures code == Ok <==> Initialised() && |old(Devices())| < HW_DEVICES_MAX
      ensures State() == old(State()).(mem := if Initialised() then Attach(old(Mem()), d) else old(Mem()))
    {
      if !Initialised() {
        return InvalidArgs;
      }
      if numDevices >= HW_DEVICES_MAX {
        return MemoryError;
      }
      hardwareDevices[numDevices] := d;
      numDevices := numDevices + 1;
      assert Devices() == old(Devices()) + [d];
      return Ok;
    }

    /** interrupt */
    method RaiseInterrupt(id: Word, code: Word) returns (ok: bool)
      requires Valid()
      modifies this`lastId, this`lastCode, this`pins
      ensures ok == Initialised()
      ensures State() == if ok then Interrupt(old(State()), id, code) else old(State())
    {
      hide Has, With, Unpack;
      ok := Initialised();
      if !ok {
        return;
      }
      FlagsRead(actual[15]);
      Pins(pins);
      if !Has(pins, PIN_I) && !Has(actual[15], FLAG_I) {
        lastId := id;
        lastCode := code;
        pins := With(pins, PIN_I);
      }
    }

    /** set_breakpoint and unset_breakpoint */
    method SetBreakpoint(addr: nat, on: bool) returns (ok: bool)
      requires Valid() && addr < 0x400_0000
      modifies breakpoints.words
      ensures ok == Initialised()
      ensures State() == if ok then old(State()).(stops := old(Marks()).(
                                      breaks := Marking(old(Marks()).breaks, addr / 4, on)))
                         else old(State())
    {
      ok := Initialised();
      if ok {
        Mark(breakpoints, addr, on);
      }
    }

    /** set_watchpoint and unset_watchpoint */
    method SetWatch(kind: Watchpoint, addr: nat, on: bool) returns (ok: bool)
      requires Valid() && addr < 0x400_0000
      modifies readWatchpoints.words, writeWatchpoints.words
      ensures ok == Initialised()
      ensures !ok ==> State() == old(State())
      ensures ok ==> State() == old(State()).(stops := old(Marks()).(
                       loads := if kind != WriteWatch then Marking(old(Marks()).loads, addr / 4, on)
                                else old(Marks()).loads,
                       stores := if kind != ReadWatch then Marking(old(Marks()).stores, addr / 4, on)
                                 else old(Marks()).stores))
    {
      ok := Initialised();
      if ok {
        SetWatchpoint(readWatchpoints, writeWatchpoints, kind, addr, on);
      }
    }

    // ----- instructions -----

    /** The second operand: an immediate, or operand_shift. */
    method OperandShift(op: Operand) returns (value: Word, shiftC: Word)
      requires Valid()
      ensures Shifted(value, shiftC != 0) == Operand2(State(), op)
    {
      hide Barrel, Unpack, And, Reg;
      match op
      case Immediate(v) =>
        FlagOfR15(actual[15]);
        value, shiftC := v, And(actual[15], FLAG_C);
      case ByAmount(rm, kind, n) =>
        var x := GetReg(rm);
        value, shiftC := ShiftOperand(x, kind, n, false, actual[15]);
      case ByRegister(rm, kind, rs) =>
        var amount := GetAmount(rs);
        var x := GetReg(rm);
        value, shiftC := ShiftOperand(x, kind, amount, true, actual[15]);
    }

    static lemma FlagOfR15(r15: Word)
      ensures And(r15, FLAG_C) != 0 <==> Unpack(r15).c
    {
      hide And, Unpack;
      FlagsRead(r15);
    }

    /** The amount of a shift by a register. */
    method GetAmount(rs: RegNo) returns (amount: Word)
      requires Valid()
      ensures amount == ShiftAmount(State(), rs)
    {
      hide And, Reg;
      amount := GetReg(rs);
      AmountMasks(amount);
      amount := And(amount, 0xff);
      if rs == 15 {
        AmountMasks(amount + 8);
        amount := And(amount + 8, 0xfc);
      }
    }

    method GetPlain(n: RegNo) returns (v: Word)
      requires Valid()
      ensures v == PlainReg(State(), n)
    {
      hide Unpack, GetPc;
      if n == 15 {
        v := PcNow();
      } else {
        v := GetReg(n);
      }
    }

    /** `(actual[PC] >> 29) & 1` */
    method CarryIn() returns (carry: nat)
      requires Valid()
      ensures carry == Low(R15().c)
    {
      hide BitAt, Unpack, ShiftedOut;
      BitOfUnpack(actual[15], 29);
      carry := ShiftedOut(actual[15], 29);
    }

    method AluInstruction(i: Instruction)
      requires Valid() && i.Alu?
      modifies this`pc, actual
      ensures State() == ExecAlu(old(State()), i)
    {
      hide AluResult, SetFlags, WritePc, SetReg;
      var r := ComputeOperands(i);
      if i.rd == 15 {
        PutPc(r.value, i.setFlags);
      } else {
        if i.setFlags {
          PutFlags(r);
        }
        if !Compares(i.op) {
          PutReg(i.rd, r.value);
        }
      }
    }

    method PutFlags(r: ArmExecute.Result)
      requires Valid()
      modifies actual
      ensures State() == SetFlags(old(State()), r)
    {
      hide Unpack, FlagsPut;
      FlagsPutSets(actual[15], r.value, r.c, r.v);
      PutPacked(FlagsPut(actual[15], r.value, r.c, r.v));
    }

    /** The operands of data processing and what the switch over the opcodes computes from them. */
    method ComputeOperands(i: Instruction) returns (r: ArmExecute.Result)
      requires Valid() && i.Alu?
      ensures r == AluResult(State(), i)
    {
      hide Operand2, Compute, PlainReg, Unpack, And, Has;
      var source, shiftC := OperandShift(i.operand);
      var rn := GetPlain(i.rn);
      var carry := CarryIn();
      FlagsRead(actual[15]);
      r := ComputeAlu(i.op, rn, source, carry, shiftC != 0, Has(actual[15], FLAG_V));
    }

    method MultiplyInstruction(i: Instruction)
      requires Valid() && i.Multiply?
      modifies actual
      ensures State() == ExecMultiply(old(State()), i)
    {
      hide Pack, Unpack, Product, SignPut, SetReg, Reg, PlainReg;
      var rn: Word := 0;
      if i.accumulate {
        rn := GetReg(i.rn);
      }
      var rs := GetPlain(i.rs);
      var rm := GetMultiplicand(i.rm);
      var result: Word := 0;
      if i.rd != 15 {
        result := Product(rm, rs, rn);
        PutReg(i.rd, result);
      }
      if i.setFlags {
        SignPutSets(actual[15], result);
        PutPacked(SignPut(actual[15], result));
      }
    }

    /** r15 as rm reads twelve bytes ahead. */
    method GetMultiplicand(rm: RegNo) returns (v: Word)
      requires Valid()
      ensures v == if rm == 15 then Align(R15().addr + 4) else Reg(State(), rm)
    {
      hide Unpack, GetPc;
      if rm == 15 {
        GetPcGets(PcNow() + 4);
        AddressOfUnpacked(PcNow() + 4);
        v := GetPc(PcNow() + 4);
      } else {
        v := GetReg(rm);
      }
    }

    static lemma AddressOfUnpacked(w: Word)
      ensures Unpack(w).addr == Align(w)
    {
    }

    method BranchInstruction(i: Instruction)
      requires Valid() && i.Branch?
      modifies this`pc, actual
      ensures State() == ExecBranch(old(State()), i)
    {
      hide Pack, Unpack, Link, SetReg, Align;
      if i.link {
        LinkIsPacked(actual[15], pc);
        PutReg(14, Link(actual[15], pc));
      }
      pc := (pc + 8 + 4 * i.words - 4) % 0x400_0000;
    }

    /** What is stored for a register: r15 reads as the link word. */
    method StoredValue(n: RegNo) returns (v: Word)
      requires Valid()
      ensures v == if n == 15 then LinkWord(State()) else Reg(State(), n)
    {
      hide Pack, Unpack, Link, Align, Reg;
      if n == 15 {
        LinkIsPacked(actual[15], pc);
        v := Link(actual[15], pc);
      } else {
        v := GetReg(n);
      }
    }

    /** A word loaded by LDR or SWP; loading r15 is a jump. */
    method PutLoaded(rd: RegNo, value: Word)
      requires Valid()
      modifies this`pc, actual
      ensures State() == if rd == 15 then Jump(old(State()), value) else SetReg(old(State()), rd, value)
    {
      hide Jump, SetReg;
      if rd == 15 {
        JumpTo(value);
      } else {
        PutReg(rd, value);
      }
    }

    /** `SETCPUFLAG(cpu, WATCHPOINT)` where a watchpoint is hit. */
    method Notice(hit: bool)
      requires Valid()
      modifies this`flags
      ensures State() == Watched(old(State()), hit)
      ensures Initialised() == old(Initialised())
    {
      hide Has, With;
      if hit {
        SetCpuFlag(FLAG_WATCHPOINT);
      }
    }

    /** SETCPUFLAG */
    method SetCpuFlag(flag: Word)
      requires Valid() && flag in {FLAG_WAIT, FLAG_WATCHPOINT}
      modifies this`flags
      ensures State() == if flag == FLAG_WAIT then old(State()).(wait := true) else old(State()).(watch := true)
      ensures Initialised() == old(Initialised())
    {
      hide Has, With;
      CpuFlags(flags, flag, FLAG_WAIT);
      CpuFlags(flags, flag, FLAG_WATCHPOINT);
      CpuFlags(flags, flag, FLAG_INIT);
      flags := With(flags, flag);
    }

    /** CLEARCPUFLAG */
    method ClearCpuFlag(flag: Word)
      requires Valid() && flag in {FLAG_WAIT, FLAG_WATCHPOINT}
      modifies this`flags
      ensures State() == if flag == FLAG_WAIT then old(State()).(wait := false) else old(State()).(watch := false)
      ensures Initialised() == old(Initialised())
    {
      hide Has, Without;
      CpuFlags(flags, flag, FLAG_WAIT);
      CpuFlags(flags, flag, FLAG_WATCHPOINT);
      CpuFlags(flags, flag, FLAG_INIT);
      flags := Without(flags, flag);
    }

    method LoadRegister(rd: RegNo, addr: Word, byte: bool)
      requires Valid() && Present(addr)
      modifies this`bus, this`answers, this`flags, this`pc, actual
      ensures PageOf(addr) in old(Mem()).pages && State() == LoadInto(old(State()), rd, addr, byte)
      ensures Initialised() == old(Initialised())
    {
      hide Load, SetReg, Jump, TableMap;
      var value := PerformLoad(addr, byte);
      InSpace(addr);
      var hit := readWatchpoints.Test(addr);
      Notice(hit);
      PutLoaded(rd, value);
    }

    method StoreRegister(rd: RegNo, addr: Word, byte: bool)
      requires Valid() && Present(addr)
      modifies this`bus, this`flags, pageTables
      ensures PageOf(addr) in old(Mem()).pages && State() == StoreFrom(old(State()), rd, addr, byte)
      ensures Initialised() == old(Initialised())
    {
      hide Registers, R15, Hw, Store, StoreByte, LinkWord, Reg, TableMap;
      var value := StoredValue(rd);
      if byte {
        PerformStoreByte(addr, value % 0x100);
      } else {
        PerformStore(addr, value);
      }
      InSpace(addr);
      var hit := writeWatchpoints.Test(addr);
      Notice(hit);
    }

    /** PERM_WRITE of the page, which user mode needs. */
    predicate MayWrite(addr: nat)
      requires Valid() && Present(addr)
      reads actual, pageTables
    {
      ModeNow() != USR || PageNow(addr).Mapped? || PageNow(addr).writable
    }

    method MoveBase(i: Instruction, addr: Word, offset: Word)
      requires Valid() && i.Single?
      modifies this`pc, actual
      ensures State() == UpdateBase(old(State()), i, addr, offset)
    {
      hide Pack, Unpack, Jump, SetReg;
      var moved := addr;
      if !i.pre {
        moved := Offset(i.add, addr, offset);
      }
      if !i.pre || i.writeBack {
        if i.rn == 15 {
          JumpTo(moved);
        } else {
          PutReg(i.rn, moved);
        }
      }
    }

    /** The load or store of LDR and STR, unless it is refused. */
    method TransferSingle(i: Instruction, addr: Word) returns (ok: bool)
      requires Valid() && i.Single? && Present(addr)
      modifies this`bus, this`answers, this`flags, this`pc, actual, pageTables
      ensures PageOf(addr) in old(Mem()).pages
      ensures !ok <==> if i.load then addr % 4 != 0 && !i.byte else NoStore(old(State()), addr, i.byte)
      ensures State() == if !ok then old(State())
                         else if i.load then LoadInto(old(State()), i.rd, addr, i.byte)
                         else StoreFrom(old(State()), i.rd, addr, i.byte)
      ensures Initialised() == old(Initialised())
    {
      hide LoadInto, StoreFrom, Unpack, TableMap, GetMode;
      ghost var page := PageNow(addr);
      if i.load {
        if addr % 4 != 0 && !i.byte {
          return false;
        }
        LoadRegister(i.rd, addr, i.byte);
      } else {
        if !MayWrite(addr) || (addr % 4 != 0 && !i.byte) {
          return false;
        }
        StoreRegister(i.rd, addr, i.byte);
      }
      return true;
    }

    method SingleDataTransferInstruction(i: Instruction) returns (e: Option<Exception>)
      requires Valid() && i.Single?
      modifies this`freeRam, this`bus, this`answers, this`flags, this`pc, actual, pageTables
      ensures Result(e) == ExecSingle(old(State()), i)
      ensures Initialised() == old(Initialised())
    {
      hide And, Registers, R15, Marks, Hw, Operand2, PlainReg, Touch, LoadInto, StoreFrom, NoStore,
           UpdateBase, Unpack, TableMap;
      var offset, shiftC := OperandShift(i.offset);
      var addr := GetPlain(i.rn);
      if i.pre {
        addr := Offset(i.add, addr, offset);
      }
      HighMask(addr);
      if And(addr, 0xfc00_0000) != 0 {
        return Some(AddressException);
      }
      var ok := FindPage(addr);
      if !ok {
        return Some(DataAbort);
      }
      ok := TransferSingle(i, addr);
      if !ok {
        return Some(DataAbort);
      }
      MoveBase(i, addr, offset);
      return None;
    }

    /** r15 as a base: `cpu->pc | GETMODEPSR(cpu)` */
    method BaseRegister(rn: RegNo) returns (v: Word)
      requires Valid()
      ensures v == if rn == 15 then PcBase(State()) else Reg(State(), rn)
    {
      hide Pack, Unpack, Or, GetModePsr, Reg;
      if rn == 15 {
        GetModePsrGets(actual[15]);
        v := Or(pc, GetModePsr(actual[15]));
      } else {
        v := GetReg(rn);
      }
    }

    method SwapInstruction(i: Instruction) returns (e: Option<Exception>)
      requires Valid() && i.Swap? && ExecSwap(State(), i) != Crash
      modifies this`freeRam, this`bus, this`answers, this`flags, this`pc, actual, pageTables
      ensures Result(e) == ExecSwap(old(State()), i)
      ensures Initialised() == old(Initialised())
    {
      hide And, Touch, SwapWord, SwapByte, Pack, Unpack, Or, PcBase, Reg, TableMap, GetMode;
      var addr := BaseRegister(i.rn);
      HighMask(addr);
      if And(addr, 0xfc00_0000) != 0 {
        return Some(AddressException);
      }
      var ok := FindPage(addr);
      if !ok {
        return Some(DataAbort);
      }
      if (addr % 4 != 0 && !i.byte) || !MayWrite(addr) {
        return Some(DataAbort);
      }
      if i.byte {
        ExchangeByte(i, addr);
      } else {
        ExchangeWord(i, addr);
      }
      return None;
    }

    method ExchangeWord(i: Instruction, addr: Word)
      requires Valid() && i.Swap? && Present(addr)
      modifies this`bus, this`answers, this`flags, this`pc, actual, pageTables
      ensures PageOf(addr) in old(Mem()).pages && State() == SwapWord(old(State()), i, addr)
      ensures Initialised() == old(Initialised())
    {
      hide Load, Store, LinkWord, Reg, Jump, SetReg, TableMap, Watched;
      ghost var page := PageNow(addr);
      LoadKeepsPages(Mem(), addr);
      var value := PerformLoad(addr, false);
      var stored := StoredValue(i.rm);
      PutLoaded(i.rd, value);
      PerformStore(addr, stored);
      NoticeSwap(addr);
    }

    /** The byte is loaded into rd; what is to be stored has been taken from rm before. */
    method LoadSwapped(i: Instruction, addr: Word) returns (stored: Word)
      requires Valid() && i.Swap? && Present(addr) && PageNow(addr).Ram?
      modifies this`bus, this`answers, this`pc, actual
      ensures PageOf(addr) in old(Mem()).pages
      ensures stored == if i.rm == 15 then LinkWord(old(State())) else Reg(old(State()), i.rm)
      ensures var value := Load(old(Mem()), addr, true).0;
              State() == if i.rd == 15 then Jump(old(State()), value) else SetReg(old(State()), i.rd, value)
    {
      hide LinkWord, Reg, Jump, SetReg, ByteOf, TableMap;
      ghost var page := PageNow(addr);
      var value := PerformLoad(addr, true);
      assert State() == old(State());
      stored := StoredValue(i.rm);
      PutLoaded(i.rd, value);
    }

    method ExchangeByte(i: Instruction, addr: Word)
      requires Valid() && i.Swap? && Present(addr) && PageNow(addr).Ram?
      modifies this`bus, this`answers, this`flags, this`pc, actual, pageTables
      ensures PageOf(addr) in old(Mem()).pages && old(Mem()).pages[PageOf(addr)].Ram?
      ensures State() == SwapByte(old(State()), i, addr)
      ensures Initialised() == old(Initialised())
    {
      hide Load, StoreByte, LinkWord, Reg, Jump, SetReg, TableMap, Watched;
      ghost var page := PageNow(addr);
      var stored := LoadSwapped(i, addr);
      SwapKeepsMemory(old(State()), i.rd, Load(old(Mem()), addr, true).0);
      PerformStoreByte(addr, stored % 0x100);
      NoticeSwap(addr);
    }

    static lemma SwapKeepsMemory(s: State, rd: RegNo, value: Word)
      ensures Jump(s, value).mem == s.mem && SetReg(s, rd, value).mem == s.mem
    {
    }

    method NoticeSwap(addr: Word)
      requires Valid() && PageOf(addr) < NUM_PAGE_TABLES
      modifies this`flags
      ensures State() == Watched(old(State()), addr / 4 in Marks().stores || addr / 4 in Marks().loads)
      ensures Initialised() == old(Initialised())
    {
      InSpace(addr);
      var written := writeWatchpoints.Test(addr);
      var read := readWatchpoints.Test(addr);
      Notice(written || read);
    }

    // ----- block transfers -----

    method GetBank(userBank: bool, n: RegNo) returns (v: Word)
      requires Valid()
      ensures v == BankReg(State(), userBank, n)
    {
      if userBank {
        v := GetActual(n);
      } else {
        v := GetReg(n);
      }
    }

    method PutBank(userBank: bool, n: RegNo, v: Word)
      requires Valid()
      modifies actual
      ensures State() == SetBankReg(old(State()), userBank, n, v)
    {
      if userBank {
        PutActual(n, v);
      } else {
        PutReg(n, v);
      }
    }

    method LoadListed(p: Plan, rs: RegNo, addr: Word)
      requires Valid() && Present(addr)
      modifies this`bus, this`answers, this`flags, this`pc, actual
      ensures PageOf(addr) in old(Mem()).pages && State() == BlockLoad(old(State()), p, rs, addr)
      ensures Initialised() == old(Initialised())
    {
      hide Load, WritePc, SetBankReg, TableMap;
      var value := PerformLoad(addr, false);
      InSpace(addr);
      var hit := readWatchpoints.Test(addr);
      Notice(hit);
      if rs == 15 {
        PutPc(value, p.flags);
      } else {
        PutBank(p.userBank, rs, value);
      }
    }

    method StoreListed(p: Plan, rs: RegNo, addr: Word, first: bool)
      requires Valid() && Present(addr) && (first <==> Count(p.list, rs) == 0)
      modifies this`bus, this`flags, pageTables
      ensures PageOf(addr) in old(Mem()).pages && State() == BlockStore(old(State()), p, rs, addr)
      ensures Initialised() == old(Initialised())
    {
      hide Store, BlockValue, TableMap;
      var value := ListedValue(p, rs, first);
      PerformStore(addr, value);
      InSpace(addr);
      var hit := writeWatchpoints.Test(addr);
      Notice(hit);
    }

    method ListedValue(p: Plan, rs: RegNo, first: bool) returns (value: Word)
      requires Valid() && (first <==> Count(p.list, rs) == 0)
      ensures value == BlockValue(State(), p, rs)
    {
      hide LinkWord, BankReg, Reg;
      if rs == 15 {
        value := StoredValue(15);
      } else {
        value := GetBank(p.userBank, rs);
        if p.writeBack && first && rs == p.base {
          value := p.was;
        }
      }
    }

    /** Whether the user's registers are meant, and whether the flags are loaded with r15. */
    method ChooseBank(i: Instruction) returns (userBank: bool, setFlags: bool)
      requires Valid() && i.Block?
      ensures userBank == UserBank(State(), i) && setFlags == BlockFlags(State(), i)
    {
      hide Unpack, GetMode, BitAt;
      var pcListed := BitAt(i.list, 15);
      userBank, setFlags := false, false;
      if ModeNow() != USR {
        if !i.load || !pcListed {
          userBank := i.hat;
        } else {
          setFlags := i.hat;
        }
      } else {
        userBank, setFlags := true, i.hat;
      }
    }

    /** The lowest address of the block, and the base moved past it. */
    static method BlockRange(i: Instruction, base: Word) returns (address: Word, moved: Word)
      requires i.Block?
      ensures address == BlockStart(i, base) && moved == BlockEnd(i, base)
    {
      hide Count;
      address := base;
      var size := 4 * Count(i.list, 16);
      if i.add {
        moved := Wrap(address + size);
      } else {
        address := Wrap(address - size);
        moved := address;
      }
      if i.pre == i.add {
        address := Wrap(address + 4);
      }
    }

    /** The local variables of multi_data_transfer_instruction when its loop starts, and the base written back. */
    method PlanBlock(i: Instruction) returns (p: Plan)
      requires Valid() && i.Block?
      modifies actual
      ensures p == BlockPlan(old(State()), i) && State() == WriteBack(old(State()), i)
    {
      hide PcBase, BlockStart, BlockEnd, UserBank, BlockFlags, BankReg, SetBankReg, Reg;
      var userBank, setFlags := ChooseBank(i);
      var base := BaseRegister(i.rn);
      var address, moved := BlockRange(i, base);
      var was := GetBank(userBank, i.rn);
      var writeBack := i.writeBack && i.rn != 15;
      if writeBack {
        PutBank(userBank, i.rn, moved);
      }
      p := Plan(i.load, userBank, setFlags, i.list, address, i.rn, writeBack, was);
    }

    method MultiDataTransferInstruction(i: Instruction) returns (e: Option<Exception>)
      requires Valid() && i.Block? && ExecBlock(State(), i) != Crash
      modifies this`freeRam, this`bus, this`answers, this`flags, this`pc, actual, pageTables
      ensures Result(e) == ExecBlock(old(State()), i)
      ensures Initialised() == old(Initialised())
    {
      hide And, BlockPlan, WriteBack, TableMap, Unpack, Touch, BlockLoad, BlockStore, Transfer;
      var p := PlanBlock(i);
      HighMask(p.start);
      if And(p.start, 0xfc00_0000) != 0 {
        return Some(AddressException);
      }
      ghost var effect := Transfer(State(), p, 0, false);
      var address: int := p.start - 4;
      var abort := false;
      var first: Option<RegNo> := None;
      var rs := 0;
      while rs < 16
        invariant rs <= 16 && address == p.start + 4 * Count(p.list, rs) - 4
        invariant first.None? <==> Count(p.list, rs) == 0
        invariant first.Some? ==> first.value < rs
        invariant Transfer(State(), p, rs, abort) == effect
        invariant Initialised() == old(Initialised())
      {
        if BitAt(p.list, rs) {
          if first.None? {
            first := Some(rs);
          }
          address := address + 4;
          var ok;
          ok, abort := MoveListed(p, rs, address, abort, first == Some(rs));
          if !ok {
            return Some(DataAbort);
          }
        } else {
          Skip(State(), p, rs, abort);
        }
        rs := rs + 1;
      }
      Last(State(), p, abort);
      if abort {
        return Some(DataAbort);
      }
      return None;
    }

    static lemma Skip(s: State, p: Plan, rs: nat, abort: bool)
      requires rs < 16 && !BitAt(p.list, rs)
      ensures Transfer(s, p, rs, abort) == Transfer(s, p, rs + 1, abort)
    {
    }

    static lemma Last(s: State, p: Plan, abort: bool)
      ensures Transfer(s, p, 16, abort) == if abort then Raise(s, DataAbort) else Done(s)
    {
    }

    /** One register of the list. */
    method MoveListed(p: Plan, rs: RegNo, address: nat, abort: bool, first: bool) returns (ok: bool, abort': bool)
      requires Valid() && BitAt(p.list, rs) && address == AddressOf(p, rs)
      requires first <==> Count(p.list, rs) == 0
      requires Transfer(State(), p, rs, abort) != Crash
      modifies this`freeRam, this`bus, this`answers, this`flags, this`pc, actual, pageTables
      ensures ok ==> Transfer(State(), p, rs + 1, abort') == Transfer(old(State()), p, rs, abort)
      ensures !ok ==> Raise(State(), DataAbort) == Transfer(old(State()), p, rs, abort)
      ensures Initialised() == old(Initialised())
    {
      hide Touch, BlockLoad, BlockStore, AddressOf, Count, BitAt, TableMap, Unpack, GetMode;
      abort' := abort;
      assert PageOf(address) < NUM_PAGE_TABLES;
      InSpace(address);
      ok := FindPage(address);
      if !ok {
        return;
      }
      if address % 4 != 0 {
        abort' := true;
      } else if p.load {
        LoadListed(p, rs, address);
      } else if !MayWrite(address) || abort {
        abort' := true;
      } else {
        StoreListed(p, rs, address, first);
      }
    }

    static lemma InSpace(a: nat)
      requires PageOf(a) < NUM_PAGE_TABLES
      ensures a < 0x400_0000
    {
    }

    // ----- coprocessor 1 -----

    method PutHw(k: HwNo, v: Word)
      requires Valid()
      modifies hwRegs
      ensures State() == SetHw(old(State()), k, v)
    {
      hwRegs[k] := v;
      assert hwRegs[..] == old(hwRegs[..])[k := v];
    }

    method GetHw(k: HwNo) returns (v: Word)
      requires Valid()
      ensures v == HwReg(State(), k)
    {
      v := hwRegs[k];
    }

    /** hw_manager_register_transfer */
    method HwRegisterTransfer(i: Instruction)
      requires Valid() && i.CopRegister?
      modifies actual, hwRegs
      ensures State() == ManagerTransfer(old(State()), i)
    {
      hide Unpack, Or, And, HwReg, SetHw, Reg, SetReg, SetPsr;
      if i.crn >= 4 || i.opcode / 2 != 0 {
        return;
      }
      if i.opcode % 2 == 1 {
        var value := GetHw(i.crn);
        if i.rd == 15 {
          PsrPut(actual[15], value);
          PutPacked(SetPsr(actual[15], value));
        } else {
          PutReg(i.rd, value);
        }
      } else {
        var value := GetReg(i.rd);
        PutHw(i.crn, value);
      }
    }

    static lemma PsrPut(r15: Word, value: Word)
      ensures Unpack(SetPsr(r15, value)) == OrIntoPc(Unpack(r15), value)
    {
      hide Unpack, Or, And;
      SetPsrKeeps(r15);
    }

    /** hw_manager_data_operation */
    method HwDataOperation(i: Instruction)
      requires Valid() && i.CopData?
      modifies this`bus, this`answers, this`flags, hwRegs, pageTables, hardwareDevices
      ensures State() == ManagerOperation(old(State()), i)
      ensures Initialised() == old(Initialised())
    {
      hide MapMemory, DeviceOperation, SetHw, Unpack, Has;
      if i.crd >= 4 || i.crm >= 4 || i.crn >= 4 || i.aux >= 4 {
        return;
      }
      if i.opcode == 0 {
        PutHw(i.crd, numDevices);
      } else if i.opcode == 1 {
        var code := MapDevice(hwRegs[i.crd], hwRegs[i.crn], hwRegs[i.crm]);
      } else if i.opcode == 2 {
        if hwRegs[i.crd] < numDevices {
          PutHw(0, hardwareDevices[hwRegs[i.crd]].id);
        }
      } else if i.opcode == 3 {
        PutBoth(lastId, lastCode);
      } else if i.opcode == 4 {
        FlagsRead(actual[15]);
        if !Has(actual[15], FLAG_I) && !Has(actual[15], FLAG_F) {
          SetCpuFlag(FLAG_WAIT);
        }
      } else if i.opcode == 5 {
        PutBoth(0x617a_6977, 0x7972_6472);
      } else if i.opcode == 6 {
        OperateDevice(i.crd, hwRegs[i.crn], hwRegs[i.crm]);
      }
    }

    method PutBoth(v: Word, w: Word)
      requires Valid()
      modifies hwRegs
      ensures State() == SetHw(SetHw(old(State()), 0, v), 1, w)
    {
      PutHw(0, v);
      PutHw(1, w);
    }

    /** device_operation */
    method OperateDevice(crd: HwNo, arg0: Word, arg1: Word)
      requires Valid()
      modifies this`bus, this`answers, hwRegs
      ensures State() == DeviceOperation(old(State()), crd, arg0, arg1)
    {
      hide Ask, TableMap;
      var d := hwRegs[crd];
      if d < numDevices && hardwareDevices[d].operates {
        var r := AskDevice(d, Operate(arg0), 0, arg1);
        PutHw(crd, r);
      }
    }

    // ----- the loop of run_armv2 -----

    /** The switch over the condition, with FLAG_SET and FLAG_CLEAR on the packed word. */
    method TestCondition(cond: RegNo) returns (holds: bool)
      requires Valid()
      ensures holds == Holds(cond, R15())
    {
      hide Has, Unpack;
      var r15 := actual[15];
      FlagsRead(r15);
      holds := if cond == 0x0 then Has(r15, FLAG_Z)
               else if cond == 0x1 then !Has(r15, FLAG_Z)
               else if cond == 0x2 then Has(r15, FLAG_C)
               else if cond == 0x3 then !Has(r15, FLAG_C)
               else if cond == 0x4 then Has(r15, FLAG_N)
               else if cond == 0x5 then !Has(r15, FLAG_N)
               else if cond == 0x6 then Has(r15, FLAG_V)
               else if cond == 0x7 then !Has(r15, FLAG_V)
               else if cond == 0x8 then Has(r15, FLAG_C) && !Has(r15, FLAG_Z)
               else if cond == 0x9 then !Has(r15, FLAG_C) || Has(r15, FLAG_Z)
               else if cond == 0xa then Has(r15, FLAG_N) == Has(r15, FLAG_V)
               else if cond == 0xb then Has(r15, FLAG_N) != Has(r15, FLAG_V)
               else if cond == 0xc then !Has(r15, FLAG_Z) && Has(r15, FLAG_N) == Has(r15, FLAG_V)
               else if cond == 0xd then Has(r15, FLAG_Z) || Has(r15, FLAG_N) != Has(r15, FLAG_V)
               else cond == 0xe;
    }

    /** The handler the masks choose for an instruction word; what a coprocessor handler returns is dropped. */
    method Execute(w: Word) returns (e: Option<Exception>)
      requires Valid() && Exec(State(), Decode(w)) != Crash
      modifies this`freeRam, this`bus, this`answers, this`flags, this`pc, actual, pageTables, hwRegs, hardwareDevices
      ensures Result(e) == Exec(old(State()), Decode(w))
      ensures Initialised() == old(Initialised())
    {
      hide ExecAlu, ExecMultiply, ExecSwap, ExecSingle, ExecBranch, ExecBlock, ManagerTransfer, ManagerOperation;
      hide Decode, ByMasks;
      e := None;
      ByMasksIsDecode(w);
      var i := ByMasks(w);
      match i
      case Alu(_, _, _, _, _) => AluInstruction(i);
      case Multiply(_, _, _, _, _, _) => MultiplyInstruction(i);
      case Swap(_, _, _, _) => e := SwapInstruction(i);
      case Single(_, _, _, _, _, _, _, _) => e := SingleDataTransferInstruction(i);
      case Branch(_, _) => BranchInstruction(i);
      case Block(_, _, _, _, _, _, _) => e := MultiDataTransferInstruction(i);
      case Swi(comment) => e := Some(if comment == SWI_BREAKPOINT then Breakpoint else SoftwareInterrupt);
      case CopTransfer =>
      case CopRegister(proc, _, _, _) => if proc == 1 { HwRegisterTransfer(i); }
      case CopData(proc, _, _, _, _, _) => if proc == 1 { HwDataOperation(i); }
    }

    /** SETMODE */
    method PutMode(mode: Mode)
      requires Valid()
      modifies actual
      ensures State() == old(State()).(r15 := old(R15()).(mode := mode))
    {
      hide Unpack, SetMode;
      SetModeSets(actual[15], mode);
      PutPacked(SetMode(actual[15], mode));
    }

    /** `SETFLAG(cpu, I)` */
    method MaskInterrupts()
      requires Valid()
      modifies actual
      ensures State() == old(State()).(r15 := old(R15()).(i := true))
    {
      hide Unpack, With;
      SetFlagSets(actual[15]);
      PutPacked(With(actual[15], FLAG_I));
    }

    /** `SETFLAG(cpu, F)` */
    method MaskFast()
      requires Valid()
      modifies actual
      ensures State() == old(State()).(r15 := old(R15()).(f := true))
    {
      hide Unpack, With;
      SetFastSets(actual[15]);
      PutPacked(With(actual[15], FLAG_F));
    }

    /** `CLEARPIN(cpu, I)` */
    method LowerPin()
      requires Valid()
      modifies this`pins
      ensures State() == old(State()).(pinI := false)
    {
      hide Has, Without, With;
      Pins(pins);
      pins := Without(pins, PIN_I);
    }

    /** `actual[k] = actual[PC] - back` */
    method SaveR15(k: Index, back: Word)
      requires Valid() && k != 15
      modifies actual
      ensures State() == old(State()).(regs := old(Registers())[k := Wrap(Pack(old(R15())) - back)])
    {
      hide Pack, Unpack;
      PackUnpack(actual[15]);
      actual[k] := Wrap(actual[15] - back);
      assert Registers() == old(Registers())[k := Wrap(Pack(old(R15())) - back)];
    }

    method TakeFiq()
      requires Valid()
      modifies this`pc, actual, effective
      ensures State() == EnterFiq(old(State()))
    {
      hide Pack, Entries, Unpack;
      SaveR15(LR_FIQ, 4);
      PutMode(FIQ);
      MaskFast();
      MaskInterrupts();
      SetEntries(8, 15, 20);
      pc := 0x1c - 4;
    }

    method TakeIrq()
      requires Valid()
      modifies this`pc, this`pins, this`flags, actual, effective
      ensures State() == EnterIrq(old(State()))
      ensures Initialised() == old(Initialised())
    {
      hide Pack, Entries, Unpack, Has;
      SaveR15(LR_IRQ, 4);
      PutMode(IRQ);
      LowerPin();
      MaskInterrupts();
      ClearCpuFlag(FLAG_WAIT);
      pc := 0x18 - 4;
      SetEntries(8, 13, 8);
      SetEntries(13, 15, 18);
    }

    method HandleException(x: Exception)
      requires Valid()
      modifies this`pc, actual
      ensures State() == Trap(old(State()), x)
    {
      hide Pack, Unpack, Trapped;
      SaveR15(LR_SUP, 0);
      TrappedIs(actual[15]);
      PutPacked(Trapped(actual[15]));
      pc := Vector(x) - 4;
    }

    /** From `handle_exception` on; true if the emulator is to stop. */
    method Conclude(was: Mode, e: Option<Exception>) returns (stopped: bool)
      requires Valid() && (e.None? ==> !State().watch)
      modifies this`pc, actual, effective
      ensures Settle(was, old(Result(e))) == if stopped then Stopped(State()) else Running(State())
    {
      hide Rebank, Trap, Has, Unpack;
      assert e.None? ==> old(State()).(watch := false) == old(State());
      stopped := false;
      if e.Some? {
        if e.value == Breakpoint {
          pc := Wrap(pc - 4);
          return true;
        }
        HandleException(e.value);
      }
      Bank(was);
    }

    /** The handler, the watchpoint it may have hit, and what follows. */
    method Obeyed(w: Word) returns (stopped: bool)
      requires Valid() && Settle(R15().mode, Exec(State(), Decode(w))) != Broken
      modifies this`freeRam, this`bus, this`answers, this`flags, this`pc, actual, pageTables, hwRegs, hardwareDevices
      modifies effective
      ensures Settle(old(R15().mode), Exec(old(State()), Decode(w))) ==
              if stopped then Stopped(State()) else Running(State())
      ensures Initialised() == old(Initialised())
    {
      hide Exec, Decode, Settle, Unpack, GetMode;
      var was := ModeNow();
      CrashSettles(was);
      var e := Execute(w);
      WatchSettles(was, Result(e));
      if Has(flags, FLAG_WATCHPOINT) && e.None? {
        e := Some(Breakpoint);
        ClearCpuFlag(FLAG_WATCHPOINT);
      }
      stopped := Conclude(was, e);
    }

    /** The condition, the instruction and what follows it. */
    method ObeyIfHolds(w: Word) returns (stopped: bool)
      requires Valid() && Obey(State(), w) != Broken
      modifies this`freeRam, this`bus, this`answers, this`flags, this`pc, actual, pageTables, hwRegs, hardwareDevices
      modifies effective
      ensures Obey(old(State()), w) == if stopped then Stopped(State()) else Running(State())
      ensures Initialised() == old(Initialised())
    {
      hide Exec, Decode, Holds, Settle, Unpack;
      var holds := TestCondition(Condition(w));
      if !holds {
        return false;
      }
      stopped := Obeyed(w);
    }

    /** The fetch, and what follows it. */
    method FetchAndExecute() returns (stopped: bool)
      requires Valid() && pc < 0x400_0000 && FetchAndObey(State()) != Broken
      modifies this`freeRam, this`bus, this`answers, this`flags, this`pc, actual, pageTables, hwRegs, hardwareDevices
      modifies effective
      ensures FetchAndObey(old(State())) == if stopped then Stopped(State()) else Running(State())
      ensures Initialised() == old(Initialised())
    {
      hide Touch, Obey, Settle, TableMap, Unpack, GetMode;
      var ok := FindPage(pc);
      if !ok {
        stopped := Conclude(ModeNow(), Some(PrefetchAbort));
        return;
      }
      var hit := breakpoints.Test(pc);
      if hit {
        pc := Wrap(pc - 4);
        return true;
      }
      assert PageNow(pc).Ram?;
      stopped := ObeyIfHolds(PageNow(pc).words[WordOf(pc)]);
    }

    static lemma CrashSettles(was: Mode)
      ensures Settle(was, Crash) == Broken
    {
    }

    /** A watchpoint that was hit is a breakpoint. */
    static lemma WatchSettles(was: Mode, e: Effect)
      ensures e.Done? && e.s.watch ==> Settle(was, e) == Settle(was, Raise(e.s.(watch := false), Breakpoint))
    {
    }

    /** The program counter moves on, and r15 with it. */
    method MoveOn()
      requires Valid()
      modifies this`pc, actual
      ensures State() == Advance(old(State())) && pc < 0x400_0000
    {
      hide Unpack, SetPc, Align;
      pc := (pc + 4) % 0x400_0000;
      SetPcSets(actual[15], pc + 8);
      PutPacked(SetPc(actual[15], pc + 8));
    }

    /** One turn of the loop after the test for waiting. */
    method Turn() returns (stopped: bool)
      requires Valid() && !(State().wait && !State().pinI && !State().pinF) && Step(State()) != Broken
      modifies this, actual, effective, pageTables, hwRegs, hardwareDevices
      ensures Step(old(State())) == if stopped then Stopped(State()) else Running(State())
      ensures Initialised() == old(Initialised())
    {
      hide FetchAndObey, EnterFiq, EnterIrq, Advance, Has, Unpack;
      MoveOn();
      FlagsRead(actual[15]);
      stopped := false;
      if !Has(actual[15], FLAG_F) && Has(pins, PIN_F) {
        TakeFiq();
      } else if !Has(actual[15], FLAG_I) && Has(pins, PIN_I) {
        TakeIrq();
      } else {
        stopped := FetchAndExecute();
      }
    }

    /** run_armv2 with a budget. */
    method RunArmv2(budget: nat) returns (status: RunStatus, left: nat)
      requires Valid() && RunFor(State(), budget).0 != Broken
      modifies this, actual, effective, pageTables, hwRegs, hardwareDevices
      ensures left == RunFor(old(State()), budget).1
      ensures RunFor(old(State()), budget).0 ==
                match status {
                  case Finished => Running(State())
                  case AtBreakpoint => Stopped(State())
                  case WaitForInterrupt => Waiting(State())
                }
      ensures Initialised() == old(Initialised())
    {
      hide Advance, FetchAndObey, EnterFiq, EnterIrq, Has, Unpack;
      left := budget;
      while left != 0
        invariant RunFor(State(), left) == RunFor(old(State()), budget)
        invariant Initialised() == old(Initialised())
        decreases left
      {
        if Has(flags, FLAG_WAIT) && !Has(pins, PIN_I) && !Has(pins, PIN_F) {
          return WaitForInterrupt, left;
        }
        left := left - 1;
        var stopped := Turn();
        if stopped {
          return AtBreakpoint, left;
        }
      }
      status := Finished;
    }
  }
}
