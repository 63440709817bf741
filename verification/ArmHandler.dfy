/** Transparency of interrupts over whole runs: entry, the one-instruction handler, and every interleaving. */
module ArmHandler {
  import opened Prelude
  import opened ArmWords
  import opened ArmMemory
  import opened ArmState
  import opened ArmDecode
  import opened ArmExecute
  import opened ArmStep
  import opened ArmFrame
  import opened ArmBanking
  import opened ArmIsolation
  import opened ArmTransparency
  import opened ArmEncode

  /** `subs pc, lr, #4` */
  const HANDLER: Word := 0xe25e_f004

  predicate HandlerAt18(m: Memory) {
    0 in m.pages && m.pages[0].Ram? && m.pages[0].words[6] == HANDLER
  }

  /** Where the next instruction is fetched. */
  function NextPc(s: State): nat {
    (s.pc + 4) % 0x400_0000
  }

  /**
   * A user program by itself: interrupts enabled but none raised, the handler in page zero, nothing to stop at, the
   * next instruction a whole word below the last two of the address space, and no coprocessor instruction.
   */
  predicate Plain(u: State) {
    && User(u) && !u.r15.i && !u.pinI && !u.pinF && !u.wait && NoWatch(u) && u.stops.breaks == {}
    && HandlerAt18(u.mem) && NextPc(u) % 4 == 0 && NextPc(u) + 8 < 0x400_0000
    && (Issue(u).Some? ==> !Cop(Issue(u).value.1))
  }

  /** Between instructions of the program: only the interrupt pin and what Like leaves out may differ. */
  predicate Between(u: State, t: State) {
    Like(Advance(u), Advance(t))
  }

  /** About to execute the handler, entered where the program is. */
  predicate InHandler(u: State, t: State) {
    var s := Advance(u);
    && Like(s, t.(r15 := s.r15, pc := s.pc, effective := s.effective))
    && t.r15 == s.r15.(mode := IRQ, i := true) && t.pc == 0x14 && t.effective == Bank(IRQ)
    && t.regs[LR_IRQ] == Wrap(Pack(s.r15) - 4) && !t.pinI
  }

  predicate Tracks(u: State, t: State) {
    if t.r15.mode == USR then Between(u, t) else InHandler(u, t)
  }

  // ----- an instruction of the program -----

  lemma {:induction false} LikeSettle(s: State, t: State, e: Effect, f: Effect)
    requires LikeEffects(e, f)
    ensures Settle(USR, e).Running? && Settle(USR, e).s.r15.mode == USR ==>
              Settle(USR, f).Running? && Like(Settle(USR, e).s, Settle(USR, f).s)
  {
    hide Rebanked, Pack;
  }

  lemma {:induction false} FetchLike(s: State, t: State)
    requires Twins(s, t) && s.stops.breaks == {}
    requires Touch(s.mem, s.pc).Some? ==>
               var m := Touch(s.mem, s.pc).value;
               m.pages[PageOf(s.pc)].Ram? ==>
                 var w := m.pages[PageOf(s.pc)].words[WordOf(s.pc)];
                 Holds(Condition(w), s.r15) ==> !Cop(Decode(w))
    requires FetchAndObey(s).Running? && FetchAndObey(s).s.r15.mode == USR
    ensures FetchAndObey(t).Running? && Like(FetchAndObey(s).s, FetchAndObey(t).s)
  {
    hide Twins, Like, User, Exec, Decode, Settle, Holds, Touch, Cop, ZeroKept, Valid;
    SameReg(s, t, 0);
    TwinsAre(s, t);
    UserMode(s);
    if Touch(s.mem, s.pc).None? {
      PrefetchLeaves(s);
    } else {
      TouchZero(s.mem, s.pc);
      TouchPresent(s.mem, s.pc);
      var m := Touch(s.mem, s.pc).value;
      MemoryConfined(s, m, false);
      LikeMemory(s, t, m, false);
      AreTwins(s.(mem := m), t.(mem := m));
      if m.pages[PageOf(s.pc)].Ram? {
        var w := m.pages[PageOf(s.pc)].words[WordOf(s.pc)];
        if Holds(Condition(w), s.r15) {
          ExecLike(s.(mem := m), t.(mem := m), Decode(w));
          LikeSettle(s, t, Exec(s.(mem := m), Decode(w)), Exec(t.(mem := m), Decode(w)));
        }
      }
    }
  }

  lemma {:induction false} PrefetchLeaves(s: State)
    ensures Settle(s.r15.mode, Raise(s, PrefetchAbort)).Running?
    ensures Settle(s.r15.mode, Raise(s, PrefetchAbort)).s.r15.mode == SUP
  {
    hide Rebanked, Pack;
  }

  /** A turn of the program is the same turn beside it, and leaves the two alike. */
  lemma {:induction false} TurnLike(u: State, t: State)
    requires Plain(u) && Between(u, t) && !t.pinI && t.r15.mode == USR
    requires Step(u).Running? && Plain(Step(u).s)
    ensures Step(t).Running? && Step(t).s.r15.mode == USR && Between(Step(u).s, Step(t).s)
  {
    hide Like, User, FetchAndObey, Decode, Holds, Touch, Cop, HandlerAt18, NoWatch, Pack;
    var a, b := Advance(u), Advance(t);
    AdvanceConfined(u);
    AreTwins(a, b);
    SameReg(a, b, 0);
    LikeSame(a, b);
    UserMode(Step(u).s);
    FetchLike(a, b);
    LikeSame(Step(u).s, Step(t).s);
    LikeAdvance(Step(u).s, Step(t).s);
  }

  lemma {:induction false} LikeAdvance(s: State, t: State)
    requires Like(s, t)
    ensures Like(Advance(s), Advance(t))
  {
  }

  // ----- interrupts -----

  lemma {:induction false} EntryTracks(u: State, t: State)
    requires Plain(u) && Between(u, t) && t.pinI
    ensures Step(t).Running? && Step(t).s.r15.mode == IRQ && InHandler(u, Step(t).s)
  {
    hide Pack, FetchAndObey, NoWatch, HandlerAt18, Valid;
    EntryTables(USR);
  }

  /** The link word less eight is the word of the instruction to return to. */
  lemma {:induction false} ReturnWord(st: Status, a: Addr)
    requires st.addr == a + 8
    ensures Wrap(Wrap(Pack(st) - 4) - 4) == Pack(st.(addr := a))
  {
    hide Number;
    FlagsBelow(st);
    Split(FlagBits(st), st.addr + st.mode);
    Split(FlagBits(st), a + st.mode);
  }

  lemma {:induction false} FlagsBelow(st: Status)
    ensures FlagBits(st) < 64
  {
    hide Number, Bits;
    var bits := [st.f, st.i, st.v, st.c, st.z, st.n];
    BitsOfNumber(bits);
    SpanOfFlags();
    assert |bits| == FLAG_BITS;
  }

  lemma {:induction false} HandlerDecoded()
    ensures Condition(HANDLER) == 14
    ensures Decode(HANDLER) == Alu(2, true, 14, 15, Immediate(4))
  {
    hide Decode;
    DpImmDecodes(14, 2, true, 14, 15, 0, 4);
    assert RotatedImmediate(4, 0) == 4;
  }

  /** What `subs pc, lr, #4` does in IRQ mode. */
  lemma {:induction false} HandlerReturns(t: State, st: Status, a: Addr)
    requires t.r15.mode == IRQ && t.effective == Bank(IRQ) && t.regs[LR_IRQ] == Wrap(Pack(st) - 4)
    requires st.addr == a + 8
    ensures Exec(t, Alu(2, true, 14, 15, Immediate(4))) == Done(t.(r15 := st.(addr := a), pc := Wrap(a - 4)))
  {
    hide Pack, Unpack;
    assert Bank(IRQ)[14] == Slot(IRQ, 14);
    ReturnWord(st, a);
    UnpackPack(st.(addr := a));
    var link: int := t.regs[LR_IRQ];
    assert Sum(link, Not(4), true).value == Wrap(link - 4);
  }

  lemma {:induction false} AlignedSum(p: nat)
    requires p % 4 == 0 && p + 8 < 0x400_0000
    ensures Align(p + 8) == p + 8 && (Wrap(p - 4) + 4) % 0x400_0000 == p
  {
    assert (p + 8) / 4 * 4 == p + 8;
  }

  lemma {:induction false} SettleReturn(t: State)
    requires t.effective == Bank(IRQ) && !t.watch && t.r15.mode == USR
    ensures Settle(IRQ, Done(t)) == Running(t.(effective := Bank(USR)))
  {
    hide Bank, Rebanked;
    RebankedIsBank(IRQ, USR);
  }

  /** The turn that executes the handler. */
  lemma {:induction false} HandlerTurn(u: State, t: State)
    requires Plain(u) && InHandler(u, t)
    ensures var s := Advance(u);
            Step(t) == Running(t.(r15 := s.r15.(addr := NextPc(u)), pc := Wrap(NextPc(u) - 4), effective := Bank(USR)))
  {
    hide Pack, Bank, Exec, Decode, Settle, Valid, Issue;
    var s := Advance(u);
    var a: int := NextPc(u);
    AlignedSum(a);
    HandlerDecoded();
    var b := Advance(t);
    assert b.pc == 0x18 && Touch(b.mem, b.pc) == Some(b.mem) && b.(mem := b.mem) == b;
    HandlerReturns(b, s.r15, a);
    var v := b.(r15 := s.r15.(addr := a), pc := Wrap(a - 4));
    SettleReturn(v);
  }

  lemma {:induction false} ReturnTracks(u: State, t: State)
    requires Plain(u) && InHandler(u, t)
    ensures Step(t).Running? && Step(t).s.r15.mode == USR && Between(u, Step(t).s)
  {
    hide Pack, Bank, Valid, Issue, FetchAndObey;
    HandlerTurn(u, t);
    AlignedSum(NextPc(u));
  }

  // ----- runs -----

  /** Turns of the loop and calls of interrupt(). */
  predicate Interleaving(es: seq<Event>) {
    forall k :: 0 <= k < |es| ==> es[k].Tick? || es[k].Signal?
  }

  /** The program executes an instruction. */
  predicate Works(t: State, e: Event) {
    e.Tick? && t.r15.mode == USR && !t.pinI
  }

  /** How many instructions of the program are executed in a run. */
  function Worked(t: State, es: seq<Event>): nat
    decreases |es|
  {
    if es == [] then 0
    else
      var o := Remains(After(t, es[0]));
      Low(Works(t, es[0])) + if o.None? then 0 else Worked(o.value, es[1..])
  }

  /** The program after n instructions without interrupts. */
  function Alone(u: State, n: nat): Outcome
    decreases n
  {
    if n == 0 || !Step(u).Running? then Running(u) else Alone(Step(u).s, n - 1)
  }

  /** For n instructions the program stays what Plain says, without stopping. */
  predicate PlainFor(u: State, n: nat)
    decreases n
  {
    Plain(u) && (n > 0 ==> Step(u).Running? && PlainFor(Step(u).s, n - 1))
  }

  lemma {:induction false} SignalTracks(u: State, t: State, id: Word, code: Word)
    requires Plain(u) && Tracks(u, t)
    ensures Tracks(u, Interrupt(t, id, code)) && Interrupt(t, id, code).r15 == t.r15
  {
    hide Pack, Bank, Valid, Issue, FetchAndObey;
  }

  /** One event: the run beside the program keeps up with it, or is on its way through the handler. */
  lemma {:induction false} EventTracks(u: State, t: State, e: Event)
    requires Plain(u) && Tracks(u, t) && (e.Tick? || e.Signal?)
    requires Works(t, e) ==> Step(u).Running? && Plain(Step(u).s)
    ensures After(t, e).Running?
    ensures Tracks(if Works(t, e) then Step(u).s else u, After(t, e).s)
  {
    hide Plain, Between, InHandler, Step;
    match e
    case Signal(id, code) => SignalTracks(u, t, id, code);
    case Tick =>
      if t.r15.mode != USR {
        ReturnTracks(u, t);
      } else if t.pinI {
        EntryTracks(u, t);
      } else {
        TurnLike(u, t);
      }
  }

  /**
   * However turns and interrupts interleave, the run is where the program by itself is after as many of its
   * instructions, or in the handler on the way back to there.
   */
  lemma {:induction false} InterruptsTransparent(u: State, t: State, es: seq<Event>, n: nat)
    requires Tracks(u, t) && Interleaving(es) && PlainFor(u, n) && Worked(t, es) <= n
    ensures Run(t, es).Some? && Alone(u, Worked(t, es)).Running?
    ensures Tracks(Alone(u, Worked(t, es)).s, Run(t, es).value)
    decreases |es|
  {
    hide Plain, PlainFor, Tracks, Works, After, Run, Alone, Worked, Step;
    PlainForStep(u, n);
    AloneStep(u, 0);
    RunStep(t, es);
    if es != [] {
      var o := After(t, es[0]);
      var works := Works(t, es[0]);
      assert es[0].Tick? || es[0].Signal?;
      EventTracks(u, t, es[0]);
      if works {
        InterruptsTransparent(Step(u).s, o.s, es[1..], n - 1);
        AloneStep(u, Worked(o.s, es[1..]));
      } else {
        InterruptsTransparent(u, o.s, es[1..], n);
      }
    }
  }

  lemma {:induction false} RunStep(t: State, es: seq<Event>)
    ensures es == [] ==> Run(t, es) == Some(t) && Worked(t, es) == 0
    ensures es != [] ==> Low(Works(t, es[0])) <= Worked(t, es)
    ensures es != [] && After(t, es[0]).Running? ==>
              var v := After(t, es[0]).s;
              Run(t, es) == Run(v, es[1..]) && Worked(t, es) == Low(Works(t, es[0])) + Worked(v, es[1..])
  {
    hide After, Works;
  }

  lemma {:induction false} AloneStep(u: State, n: nat)
    ensures Alone(u, 0) == Running(u)
    ensures Step(u).Running? ==> Alone(u, n + 1) == Alone(Step(u).s, n)
  {
    hide Step;
  }

  lemma {:induction false} PlainForStep(u: State, n: nat)
    requires PlainFor(u, n)
    ensures Plain(u)
    ensures n > 0 ==> Step(u).Running? && PlainFor(Step(u).s, n - 1) && Plain(Step(u).s)
  {
    hide Step, Plain;
  }

  /** What the program can see of itself is what it would see without interrupts: registers, flags, place, memory. */
  lemma {:induction false} ProgramSeesNoInterrupts(u: State, es: seq<Event>, n: nat)
    requires PlainFor(u, n) && Interleaving(es) && Worked(u, es) <= n
    requires Run(u, es).Some? ==> Run(u, es).value.r15.mode == USR
    ensures Run(u, es).Some? && Alone(u, Worked(u, es)).Running?
    ensures var v, w := Alone(u, Worked(u, es)).s, Run(u, es).value;
            && w.regs[..16] == v.regs[..16] && w.mem == v.mem && NextPc(w) == NextPc(v)
            && w.r15.n == v.r15.n && w.r15.z == v.r15.z && w.r15.c == v.r15.c && w.r15.v == v.r15.v
            && w.r15.i == v.r15.i && w.r15.f == v.r15.f && w.r15.mode == v.r15.mode && w.effective == v.effective
  {
    hide Run, Alone, Worked, Step, PlainFor;
    PlainMode(u, n);
    InterruptsTransparent(u, u, es, n);
    SeenAlike(Alone(u, Worked(u, es)).s, Run(u, es).value);
  }

  lemma {:induction false} PlainMode(u: State, n: nat)
    requires PlainFor(u, n)
    ensures Plain(u) && u.r15.mode == USR && Tracks(u, u)
  {
    hide Issue, Valid, Bank, Step;
  }

  lemma {:induction false} SeenAlike(v: State, w: State)
    requires Between(v, w)
    ensures w.regs[..16] == v.regs[..16] && w.mem == v.mem && NextPc(w) == NextPc(v)
    ensures w.r15.n == v.r15.n && w.r15.z == v.r15.z && w.r15.c == v.r15.c && w.r15.v == v.r15.v
    ensures w.r15.i == v.r15.i && w.r15.f == v.r15.f && w.r15.mode == v.r15.mode && w.effective == v.effective
  {
    var a, b := Advance(v), Advance(w);
    assert forall k: Index :: k < 16 ==> b.regs[k] == a.regs[k];
    forall k | 0 <= k < 16 ensures w.regs[k] == v.regs[k] {
      var j: Index := k;
      assert b.regs[j] == a.regs[j];
    }
  }
}
