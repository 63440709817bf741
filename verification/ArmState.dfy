/**
 * The state of the emulated processor (armv2.h:219-240) as a value, and its registers: 27 of them, of which
 * sixteen at a time are reached through the table `effective`. r15 is kept as its fields.
 */
module ArmState {
  import opened Prelude
  import opened ArmWords
  import opened ArmMemory

  type Index = k: nat | k < 27
  type RegNo = k: nat | k < 16
  type Regs = r: seq<Word> | |r| == 27 witness seq(27, i => 0)
  type HwNo = k: nat | k < 4
  type HwRegs = r: seq<Word> | |r| == 4 witness [0, 0, 0, 0]
  type Table = e: seq<Index> | |e| == 16 witness seq(16, i => 0)

  const LR_SUP: Index := 17
  const LR_IRQ: Index := 19
  const LR_FIQ: Index := 26

  /** The registers of coprocessor 1 and the last interrupt accepted. */
  datatype Manager = Manager(regs: HwRegs, lastId: Word, lastCode: Word)

  /** Addresses of words at which the emulator stops. */
  datatype Stops = Stops(breaks: set<nat>, loads: set<nat>, stores: set<nat>)

  /** Slot 15 of `regs` is not used. */
  datatype State = State(regs: Regs, r15: Status, effective: Table, pc: Word, mem: Memory, hw: Manager,
                         pinI: bool, pinF: bool, wait: bool, watch: bool, stops: Stops)

  datatype Exception = SoftwareInterrupt | PrefetchAbort | DataAbort | AddressException | Breakpoint

  /** What executing an instruction leads to; Crash is an access outside the page table or to no memory at all. */
  datatype Effect = Done(s: State) | Raise(s: State, e: Exception) | Crash

  // ----- registers -----

  function At(s: State, k: Index): Word {
    if k == 15 then Pack(s.r15) else s.regs[k]
  }

  function Put(s: State, k: Index, v: Word): State {
    if k == 15 then s.(r15 := Unpack(v)) else s.(regs := s.regs[k := v])
  }

  /** GETREG */
  function Reg(s: State, n: RegNo): Word {
    At(s, s.effective[n])
  }

  function SetReg(s: State, n: RegNo, v: Word): State {
    Put(s, s.effective[n], v)
  }

  /** Where a register is kept in a mode. */
  function Slot(mode: Mode, n: RegNo): Index {
    if mode == FIQ && 8 <= n < 15 then 20 + (n - 8)
    else if mode == IRQ && 13 <= n < 15 then 18 + (n - 13)
    else if mode == SUP && 13 <= n < 15 then 16 + (n - 13)
    else n
  }

  function Bank(mode: Mode): Table {
    seq(16, n requires 0 <= n < 16 => Slot(mode, n))
  }

  /** The table is that of the current mode. */
  predicate Banked(s: State) {
    s.effective == Bank(s.r15.mode)
  }

  /** `cpu->pc = target - 4; SETPC(cpu, target)` */
  function Jump(s: State, target: Word): State {
    s.(pc := Wrap(target - 4), r15 := s.r15.(addr := Align(target)))
  }

  /** r15 written whole, except for what user mode may not change. */
  function Restored(st: Status, w: Word): Status {
    var u := Unpack(w);
    if st.mode == USR then u.(i := st.i, f := st.f, mode := USR) else u
  }

  /** r15 written, with the flags or without; the next instruction is fetched from there. */
  function WritePc(s: State, w: Word, flags: bool): State {
    var st := if flags then Restored(s.r15, w) else s.r15.(addr := Align(w));
    s.(r15 := st, pc := Wrap(st.addr - 4))
  }

  /** What is stored for r15, and what a branch leaves in the link register. */
  function LinkWord(s: State): Word {
    Pack(s.r15.(addr := Align(s.pc + 4)))
  }

  /** r15 as a base: the address of the instruction with the flags and mode. */
  function PcBase(s: State): Word {
    Or(s.pc, Pack(s.r15.(addr := 0)))
  }

  predicate Writable(m: Memory, addr: Word)
    requires PageOf(addr) in m.pages
  {
    m.pages[PageOf(addr)].Mapped? || m.pages[PageOf(addr)].writable
  }

  function Watched(s: State, hit: bool): State {
    s.(watch := s.watch || hit)
  }

  /** interrupt() */
  function Interrupt(s: State, id: Word, code: Word): State {
    if !s.pinI && !s.r15.i then s.(hw := s.hw.(lastId := id, lastCode := code), pinI := true) else s
  }
}
