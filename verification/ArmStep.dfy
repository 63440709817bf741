/**
 * One turn of the loop of run_armv2 (step.c:14-278) as a function, the initial state (init.c:25-124), and runs:
 * turns of the loop mixed with what happens between them.
 */
module ArmStep {
  import opened Prelude
  import opened ArmWords
  import opened ArmMemory
  import opened ArmState
  import opened ArmDecode
  import opened ArmExecute

  /** Broken is a turn whose behaviour C leaves undefined. */
  datatype Outcome = Running(s: State) | Stopped(s: State) | Waiting(s: State) | Broken

  // ----- the table of registers -----

  /** Entries from..to of the table set to consecutive registers. */
  function Entries(e: Table, from: nat, to: nat, target: nat): (r: Table)
    requires from <= to <= 16 && target + (to - from) <= 27
  {
    seq(16, n requires 0 <= n < 16 => Entry(e, from, to, target, n))
  }

  function Entry(e: Table, from: nat, to: nat, target: nat, n: RegNo): Index
    requires from <= to <= 16 && target + (to - from) <= 27
  {
    if from <= n < to then target + (n - from) else e[n]
  }

  /** The end of the loop: registers are banked if the mode has changed. */
  function Rebanked(e: Table, was: Mode, mode: Mode): Table {
    if mode == was then e
    else
      var b := if was == FIQ then Entries(e, 8, 16, 8) else e;
      if mode == SUP then Entries(b, 13, 15, 16)
      else if mode == IRQ then Entries(b, 13, 15, 18)
      else if mode == FIQ then Entries(b, 8, 15, 20)
      else Entries(b, 13, 15, 13)
  }

  function Rebank(s: State, was: Mode): State {
    s.(effective := Rebanked(s.effective, was, s.r15.mode))
  }

  // ----- interrupts and exceptions -----

  function EnterFiq(s: State): State {
    s.(regs := s.regs[LR_FIQ := Wrap(Pack(s.r15) - 4)], r15 := s.r15.(mode := FIQ, f := true, i := true),
       effective := Entries(s.effective, 8, 15, 20), pc := 0x1c - 4)
  }

  function EnterIrq(s: State): State {
    s.(regs := s.regs[LR_IRQ := Wrap(Pack(s.r15) - 4)], r15 := s.r15.(mode := IRQ, i := true),
       pinI := false, wait := false, pc := 0x18 - 4,
       effective := Entries(Entries(s.effective, 8, 13, 8), 13, 15, 18))
  }

  function Vector(e: Exception): Word {
    match e
    case SoftwareInterrupt => 0x8
    case PrefetchAbort => 0xc
    case DataAbort => 0x10
    case AddressException => 0x14
    case Breakpoint => 0x8
  }

  function Trap(s: State, e: Exception): State {
    s.(regs := s.regs[LR_SUP := Pack(s.r15)], r15 := Status(false, false, false, false, true, false, s.r15.addr, SUP),
       pc := Vector(e) - 4)
  }

  // ----- one turn -----

  /** The program counter moves on, and r15 reads eight bytes further. */
  function Advance(s: State): State {
    var pc := (s.pc + 4) % 0x400_0000;
    s.(pc := pc, r15 := s.r15.(addr := Align(pc + 8)))
  }

  /** Stopping at this instruction: it is not to be skipped when the run is resumed. */
  function Halt(s: State): Outcome {
    Stopped(s.(pc := Wrap(s.pc - 4)))
  }

  /** What follows the instruction: watchpoints, exceptions and banking. */
  function Settle(was: Mode, effect: Effect): Outcome {
    match effect
    case Done(s) => if s.watch then Halt(s.(watch := false)) else Running(Rebank(s, was))
    case Raise(s, e) => if e == Breakpoint then Halt(s) else Running(Rebank(Trap(s, e), was))
    case Crash => Broken
  }

  function Obey(s: State, w: Word): Outcome {
    if Holds(Condition(w), s.r15) then Settle(s.r15.mode, Exec(s, Decode(w))) else Running(s)
  }

  function FetchAndObey(s: State): Outcome {
    match Touch(s.mem, s.pc)
    case None => Settle(s.r15.mode, Raise(s, PrefetchAbort))
    case Some(m) =>
      var t := s.(mem := m);
      if s.pc / 4 in s.stops.breaks then Halt(t)
      else match m.pages[PageOf(s.pc)]
        case Mapped(_) => Broken
        case Ram(words, _) => Obey(t, words[WordOf(s.pc)])
  }

  predicate TakesFiq(s: State) {
    s.pinF && !s.r15.f
  }

  predicate TakesIrq(s: State) {
    !TakesFiq(s) && s.pinI && !s.r15.i
  }

  function Step(s: State): Outcome {
    if s.wait && !s.pinI && !s.pinF then Waiting(s)
    else
      var t := Advance(s);
      if TakesFiq(t) then Running(EnterFiq(t))
      else if TakesIrq(t) then Running(EnterIrq(t))
      else FetchAndObey(t)
  }

  /** The instruction a turn executes, and the state in which it does; None if it executes none. */
  function Issue(s: State): Option<(State, Instruction)> {
    var t := Advance(s);
    if (s.wait && !s.pinI && !s.pinF) || TakesFiq(t) || TakesIrq(t) || t.pc / 4 in t.stops.breaks then None
    else match Touch(t.mem, t.pc)
      case None => None
      case Some(m) =>
        match m.pages[PageOf(t.pc)]
        case Mapped(_) => None
        case Ram(words, _) =>
          var w := words[WordOf(t.pc)];
          if Holds(Condition(w), t.r15) then Some((t.(mem := m), Decode(w))) else None
  }

  /** run_armv2 with a budget of n turns, and what is left of it. */
  function RunFor(s: State, n: nat): (Outcome, nat)
    decreases n
  {
    if n == 0 then (Running(s), 0)
    else match Step(s)
      case Running(t) => RunFor(t, n - 1)
      case Stopped(t) => (Stopped(t), n - 1)
      case Waiting(t) => (Waiting(t), n)
      case Broken => (Broken, 0)
  }

  // ----- runs -----

  /**
   * A turn of the loop, a call of interrupt(), a change of the fast interrupt pin, or a call of map_memory, fault or
   * add_hardware by the host.
   */
  datatype Event = Tick | Signal(id: Word, code: Word) | Pin(on: bool) | Map(device: Word, start: Word, end: Word)
                 | PageIn(addr: Word) | Plug(unit: Device)

  /** A stopped or waiting run may be resumed. */
  function After(s: State, e: Event): Outcome {
    match e
    case Tick => Step(s)
    case Signal(id, code) => Running(Interrupt(s, id, code))
    case Pin(on) => Running(s.(pinF := on))
    case Map(d, start, end) => Running(s.(mem := MapMemory(s.mem, d, start, end).0))
    case PageIn(addr) => Running(s.(mem := Fault(s.mem, addr).0))
    case Plug(d) => Running(s.(mem := Attach(s.mem, d)))
  }

  /** The state a turn leaves, whether the run goes on or not. */
  function Remains(o: Outcome): Option<State> {
    match o
    case Running(t) => Some(t)
    case Stopped(t) => Some(t)
    case Waiting(t) => Some(t)
    case Broken => None
  }

  /** The state after a sequence of events; None once behaviour is undefined. */
  function Run(s: State, es: seq<Event>): Option<State>
    decreases |es|
  {
    if es == [] then Some(s)
    else
      var o := Remains(After(s, es[0]));
      if o.None? then None else Run(o.value, es[1..])
  }

  // ----- the initial state -----

  function InitialMemory(size: Word, devices: seq<Device>, answers: seq<Word>): Memory {
    Memory(map[], size, devices, [], answers)
  }

  /** init, for a size already rounded up to whole pages. */
  function Initial(size: Word, devices: seq<Device>, answers: seq<Word>): State {
    State(seq(27, i => 0), Status(false, false, false, false, true, false, 0, SUP), Bank(SUP), 0xffff_fffc,
          InitialMemory(size, devices, answers), Manager([0, 0, 0, 0], 0, 0), false, false, false, false,
          Stops({}, {}, {}))
  }
}
