/**
 * Runs of the emulator: what every turn keeps, the accounting of interrupts, waiting for them, and the conservation
 * of RAM (init.c:301-407, step.c:24-77, step.c:284-333, hw_manager.c:75-86).
 */
module ArmInterrupts {
  import opened Prelude
  import opened ArmWords
  import opened ArmMemory
  import opened ArmState
  import opened ArmDecode
  import opened ArmExecute
  import opened ArmStep
  import opened ArmFrame

  predicate Enabled(st: Status) {
    !st.i && !st.f
  }

  /** What a turn that takes no interrupt keeps. A wait only starts with interrupts enabled. */
  predicate Turn(s: State, t: State) {
    && Grows(s.mem, t.mem)
    && t.pinI == s.pinI && t.pinF == s.pinF
    && t.hw.lastId == s.hw.lastId && t.hw.lastCode == s.hw.lastCode
    && (t.wait && !s.wait ==> Enabled(t.r15))
  }

  predicate TurnEffect(s: State, e: Effect) {
    match e
    case Done(t) => Turn(s, t)
    case Raise(t, x) => Turn(s, t) && t.wait == s.wait
    case Crash => true
  }

  lemma {:induction false} ExecTurn(s: State, i: Instruction)
    ensures TurnEffect(s, Exec(s, i))
  {
    hide Exec, Grows, Cop;
    if Cop(i) {
      CopCalm(s, i);
    } else {
      ExecCalm(s, i);
    }
  }

  lemma {:induction false} SettleTurn(s: State, was: Mode, e: Effect)
    requires TurnEffect(s, e)
    ensures Settle(was, e) != Broken ==> Turn(s, Settle(was, e).s)
  {
    hide Grows, Rebanked, Pack;
  }

  lemma {:induction false} FetchTurn(s: State)
    ensures FetchAndObey(s) != Broken ==> Turn(s, FetchAndObey(s).s)
  {
    hide Grows, Exec, Decode, Settle, Holds, Touch, TurnEffect;
    SamePagesGrow(s.mem, s.mem);
    assert TurnEffect(s, Raise(s, PrefetchAbort)) by { RaiseTurn(s); }
    SettleTurn(s, s.r15.mode, Raise(s, PrefetchAbort));
    if Touch(s.mem, s.pc).Some? {
      TouchPresent(s.mem, s.pc);
      TouchGrows(s.mem, s.pc);
      var t := s.(mem := Touch(s.mem, s.pc).value);
      if t.mem.pages[PageOf(s.pc)].Ram? {
        var i := Decode(t.mem.pages[PageOf(s.pc)].words[WordOf(s.pc)]);
        ExecTurn(t, i);
        SettleTurn(t, t.r15.mode, Exec(t, i));
        if Settle(t.r15.mode, Exec(t, i)) != Broken {
          GrowsTransitive(s.mem, t.mem, Settle(t.r15.mode, Exec(t, i)).s.mem);
        }
      }
    }
  }

  lemma {:induction false} RaiseTurn(s: State)
    ensures TurnEffect(s, Raise(s, PrefetchAbort))
  {
    hide Grows;
    SamePagesGrow(s.mem, s.mem);
  }

  // ----- budgets -----

  function Ticks(n: nat): seq<Event> {
    seq(n, i => Tick)
  }

  /** run_armv2 with a budget is that many turns, less those that are left. */
  lemma {:induction false} BudgetIsTicks(s: State, n: nat)
    requires RunFor(s, n).0 != Broken
    ensures RunFor(s, n).1 <= n && Run(s, Ticks(n - RunFor(s, n).1)) == Some(RunFor(s, n).0.s)
    decreases n
  {
    hide Step;
    WaitingStays(s);
    if n > 0 {
      match Step(s)
      case Running(t) =>
        BudgetIsTicks(t, n - 1);
        var k := n - RunFor(s, n).1;
        assert Ticks(k)[1..] == Ticks(k - 1);
      case Stopped(t) => assert Ticks(1)[1..] == [];
      case Waiting(t) =>
      case Broken =>
    }
  }

  lemma {:induction false} WaitingStays(s: State)
    ensures Step(s).Waiting? ==> Step(s).s == s
  {
    hide Exec, Decode, Holds, Touch, Entries, Pack, Rebanked;
  }

  // ----- accounting -----

  /** This turn enters the handler of interrupts. */
  predicate Enters(s: State) {
    !(s.wait && !s.pinI && !s.pinF) && TakesIrq(Advance(s))
  }

  /** Every turn, with the two kinds of interrupt. */
  lemma {:induction false} StepTurn(s: State)
    requires Step(s) != Broken
    ensures Grows(s.mem, Step(s).s.mem)
    ensures Step(s).s.pinF == s.pinF
    ensures Step(s).s.hw.lastId == s.hw.lastId && Step(s).s.hw.lastCode == s.hw.lastCode
    ensures Low(s.pinI) == Low(Step(s).s.pinI) + Low(Enters(s))
    ensures s.wait && Enabled(s.r15) && !s.pinF ==>
              if s.pinI then Enters(s) && !Step(s).s.wait && Step(s).s.r15.mode == IRQ else Step(s) == Waiting(s)
    ensures !s.wait ==> (Step(s).s.wait ==> Enabled(Step(s).s.r15))
  {
    hide Grows, FetchAndObey, Entries, Pack;
    SamePagesGrow(s.mem, s.mem);
    FetchTurn(Advance(s));
  }

  predicate Accepts(s: State, e: Event) {
    e.Signal? && !s.pinI && !s.r15.i
  }

  function Accepted(s: State, es: seq<Event>): nat
    decreases |es|
  {
    if es == [] then 0
    else
      var o := Remains(After(s, es[0]));
      Low(Accepts(s, es[0])) + if o.None? then 0 else Accepted(o.value, es[1..])
  }

  function Entered(s: State, es: seq<Event>): nat
    decreases |es|
  {
    if es == [] then 0
    else
      var o := Remains(After(s, es[0]));
      Low(es[0].Tick? && Enters(s)) + if o.None? then 0 else Entered(o.value, es[1..])
  }

  lemma {:induction false} EventAccounts(s: State, e: Event)
    requires Remains(After(s, e)).Some?
    ensures Low(s.pinI) + Low(Accepts(s, e)) == Low(Remains(After(s, e)).value.pinI) + Low(e.Tick? && Enters(s))
  {
    hide Step, Enters, MapMemory;
    if e.Tick? {
      StepTurn(s);
    }
  }

  /** Every interrupt accepted is taken once or still pending. */
  lemma {:induction false} InterruptsAccounted(s: State, es: seq<Event>)
    requires Run(s, es).Some?
    ensures Low(s.pinI) + Accepted(s, es) == Entered(s, es) + Low(Run(s, es).value.pinI)
    decreases |es|
  {
    hide After, Enters, Accepts;
    if es != [] {
      EventAccounts(s, es[0]);
      InterruptsAccounted(Remains(After(s, es[0])).value, es[1..]);
    }
  }

  // ----- which interrupt it was -----

  /** Pending, or in its handler with interrupts masked. */
  predicate Held(s: State) {
    s.pinI || s.r15.i
  }

  predicate HeldThroughout(s: State, es: seq<Event>)
    decreases |es|
  {
    && Held(s)
    && (es == [] || Remains(After(s, es[0])).None? || HeldThroughout(Remains(After(s, es[0])).value, es[1..]))
  }

  lemma {:induction false} LastKept(s: State, es: seq<Event>)
    requires HeldThroughout(s, es) && Run(s, es).Some?
    ensures Run(s, es).value.hw.lastId == s.hw.lastId && Run(s, es).value.hw.lastCode == s.hw.lastCode
    decreases |es|
  {
    hide Step, MapMemory;
    if es != [] {
      if es[0].Tick? {
        StepTurn(s);
      }
      LastKept(Remains(After(s, es[0])).value, es[1..]);
    }
  }

  /** INTERRUPT_DATA tells which interrupt was accepted, as long as interrupts stay masked once it has been taken. */
  lemma {:induction false} DataIsThatOfTheCause(s: State, id: Word, code: Word, es: seq<Event>, i: Instruction)
    requires Accepts(s, Signal(id, code))
    requires HeldThroughout(Interrupt(s, id, code), es) && Run(Interrupt(s, id, code), es).Some?
    requires i.CopData? && i.opcode == 3 && i.crd < 4 && i.crm < 4 && i.crn < 4 && i.aux < 4
    ensures var t := Run(Interrupt(s, id, code), es).value;
            ManagerOperation(t, i).hw.regs[..2] == [id, code]
  {
    hide Run, HeldThroughout;
    LastKept(Interrupt(s, id, code), es);
  }

  // ----- waiting -----

  /** A waiting processor can be woken. */
  predicate Wakeable(s: State) {
    !s.pinF && (s.wait ==> Enabled(s.r15))
  }

  predicate PinStaysOff(es: seq<Event>) {
    forall k :: 0 <= k < |es| ==> es[k] != Pin(true)
  }

  lemma {:induction false} WakeableRun(s: State, es: seq<Event>)
    requires Wakeable(s) && PinStaysOff(es)
    ensures Run(s, es).Some? ==> Wakeable(Run(s, es).value)
    decreases |es|
  {
    hide Step, MapMemory, Enters;
    if es != [] && Remains(After(s, es[0])).Some? {
      if es[0].Tick? {
        StepTurn(s);
      }
      assert es[0] != Pin(true);
      WakeableRun(Remains(After(s, es[0])).value, es[1..]);
    }
  }

  /** No wakeup is lost: the next interrupt() is accepted, and the next turn enters its handler and ends the wait. */
  lemma {:induction false} InterruptWakes(s: State, es: seq<Event>, id: Word, code: Word)
    requires Wakeable(s) && PinStaysOff(es) && Run(s, es).Some?
    requires Step(Run(s, es).value).Waiting?
    ensures var t := Run(s, es).value;
            && Accepts(t, Signal(id, code))
            && var u := Step(Interrupt(t, id, code));
               u.Running? && u.s.r15.mode == IRQ && u.s.r15.i && !u.s.wait && !u.s.pinI
               && u.s.hw.lastId == id && u.s.hw.lastCode == code
  {
    hide Run, FetchAndObey, Entries, Pack;
    WakeableRun(s, es);
    OnlyWaits(Run(s, es).value);
  }

  lemma {:induction false} OnlyWaits(s: State)
    ensures Step(s).Waiting? ==> s.wait && !s.pinI && !s.pinF
  {
    hide Exec, Decode, Holds, Touch, Entries, Pack, Rebanked;
  }

  /**
   * Exactly when a waiting processor can be woken: when interrupts are not masked. Then the next interrupt() is
   * accepted and the next turn enters its handler and ends the wait; else turns and interrupts change nothing at all.
   */
  lemma {:induction false} WakesUnlessMasked(s: State, id: Word, code: Word, es: seq<Event>)
    requires Step(s).Waiting?
    ensures !s.r15.i <==>
              var t := Interrupt(s, id, code);
              && Accepts(s, Signal(id, code)) && Enters(t)
              && Step(t).Running? && Step(t).s.r15.mode == IRQ && !Step(t).s.wait && Step(t).s.hw.lastId == id
    ensures s.r15.i && TicksAndSignals(es) ==> Run(s, es) == Some(s)
  {
    hide Entries, Pack, FetchAndObey;
    OnlyWaits(s);
    if s.r15.i && TicksAndSignals(es) {
      StaysStuck(s, es);
    }
  }

  /** Interrupts enabled, no pin raised, waiting. */
  predicate Asleep(s: State) {
    s.wait && Enabled(s.r15) && !s.pinI && !s.pinF
  }

  predicate TicksAndSignals(es: seq<Event>) {
    forall k :: 0 <= k < |es| ==> es[k].Tick? || es[k].Signal?
  }

  /**
   * How a wait comes to be masked: the handler of the fast interrupt is entered with the wait still set, so if its pin
   * falls before the handler has run, nothing that interrupt() does is accepted any more.
   */
  lemma {:induction false} FastInterruptLosesWakeup(s: State, es: seq<Event>)
    requires Asleep(s) && TicksAndSignals(es)
    ensures var stuck := EnterFiq(Advance(s.(pinF := true))).(pinF := false);
            && Run(s, [Pin(true), Tick, Pin(false)]) == Some(stuck)
            && Run(stuck, es) == Some(stuck)
  {
    hide Entries, Pack, FetchAndObey;
    var u := s.(pinF := true);
    var v := EnterFiq(Advance(u));
    var stuck := v.(pinF := false);
    var es0, es1, es2 := [Pin(true), Tick, Pin(false)], [Tick, Pin(false)], [Pin(false)];
    assert es0[1..] == es1 && es1[1..] == es2 && es2[1..] == [];
    assert Step(u) == Running(v);
    assert Run(v, es2) == Some(stuck);
    assert Run(u, es1) == Run(v, es2);
    StaysStuck(stuck, es);
  }

  lemma {:induction false} StaysStuck(s: State, es: seq<Event>)
    requires s.wait && s.r15.i && !s.pinI && !s.pinF && TicksAndSignals(es)
    ensures Run(s, es) == Some(s)
    decreases |es|
  {
    hide FetchAndObey;
    if es != [] {
      assert es[0].Tick? || es[0].Signal?;
      assert Remains(After(s, es[0])) == Some(s);
      StaysStuck(s, es[1..]);
    }
  }

  // ----- RAM -----

  /** Over any run, RAM is conserved, pages stay what they are and page zero is no device and not writable. */
  lemma {:induction false} PagingRun(s: State, es: seq<Event>)
    ensures Run(s, es).Some? ==> Grows(s.mem, Run(s, es).value.mem)
    decreases |es|
  {
    hide Step, Grows, MapMemory, Enters;
    SamePagesGrow(s.mem, s.mem);
    if es != [] && Remains(After(s, es[0])).Some? {
      var t := Remains(After(s, es[0])).value;
      if es[0].Tick? {
        StepTurn(s);
      } else if es[0].Map? {
        MapMemoryGrows(s.mem, es[0].device, es[0].start, es[0].end);
      } else if es[0].PageIn? {
        FaultGrows(s.mem, es[0].addr);
      } else if es[0].Plug? {
        SamePagesGrow(s.mem, t.mem);
      }
      PagingRun(t, es[1..]);
      if Run(t, es[1..]).Some? {
        GrowsTransitive(s.mem, t.mem, Run(t, es[1..]).value.mem);
      }
    }
  }

  lemma {:induction false} RamConserved(size: Word, devices: seq<Device>, answers: seq<Word>, es: seq<Event>)
    ensures var o := Run(Initial(size, devices, answers), es);
            o.Some? ==> RamBytes(o.value.mem) == size && Valid(o.value.mem)
  {
    hide Run;
    var s := Initial(size, devices, answers);
    assert RamPages(s.mem) == {};
    PagingRun(s, es);
  }

  /** Two mappings that succeed, with any run in between, are of disjoint ranges. */
  lemma {:induction false} MappedRangesDisjoint(s: State, first: Event, es: seq<Event>, second: Event)
    requires first.Map? && MapMemory(s.mem, first.device, first.start, first.end).1 == Ok
    requires second.Map? && Run(After(s, first).s, es).Some?
    requires MapMemory(Run(After(s, first).s, es).value.mem, second.device, second.start, second.end).1 == Ok
    ensures first.end <= second.start || second.end <= first.start
  {
    hide Run, MapMemory, Grows, Step;
    var t := Run(After(s, first).s, es).value;
    PagingRun(After(s, first).s, es);
    MappingsDisjoint(s.mem, first.device, first.start, first.end, t.mem, second.device, second.start, second.end);
  }
}
