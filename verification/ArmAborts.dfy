/**
 * When LDM and STM are refused (instructions.c:653-780): a block that starts beyond the address space, that is not
 * aligned, that needs more pages than there is RAM for, or that user mode may not write to.
 */
module ArmAborts {
  import opened Prelude
  import opened ArmWords
  import opened ArmMemory
  import opened ArmState
  import opened ArmDecode
  import opened ArmExecute
  import opened ArmBlocks

  // ----- the pages a block needs -----

  /** A register of the list, at rs or above, whose page is not there. */
  predicate Lacks(m: Memory, p: Plan, rs: nat, n: RegNo) {
    Listed(p, rs, n) && PageOf(AddressOf(p, n)) !in m.pages
  }

  /** The pages that are not there. */
  function Missing(m: Memory, p: Plan, rs: nat): set<nat> {
    set n: RegNo | 0 <= n < 16 && Lacks(m, p, rs, n) :: PageOf(AddressOf(p, n))
  }

  /** No word of the block is beyond the address space. */
  predicate Inside(p: Plan) {
    forall n: RegNo :: BitAt(p.list, n) ==> AddressOf(p, n) < 0x400_0000
  }

  lemma NoneMissing(m: Memory, p: Plan)
    ensures Missing(m, p, 16) == {}
  {
  }

  lemma {:induction false} SkipMissing(m: Memory, p: Plan, rs: RegNo)
    requires !Lacks(m, p, rs, rs)
    ensures Missing(m, p, rs) == Missing(m, p, rs + 1)
  {
    hide BitAt, AddressOf, PageOf;
    forall n: RegNo ensures Lacks(m, p, rs, n) <==> Lacks(m, p, rs + 1, n) {
    }
  }

  /** Touching the page of the next word. */
  lemma {:induction false} TouchMissing(m: Memory, p: Plan, rs: RegNo)
    requires Lacks(m, p, rs, rs) && AddressOf(p, rs) < 0x400_0000
    ensures PageOf(AddressOf(p, rs)) in Missing(m, p, rs)
    ensures var t := Touch(m, AddressOf(p, rs));
            && (t.Some? <==> m.free >= 0x1000)
            && (t.Some? ==> t.value.free == m.free - 0x1000 &&
                            Missing(t.value, p, rs + 1) == Missing(m, p, rs) - {PageOf(AddressOf(p, rs))})
  {
    hide BitAt, AddressOf, Missing, ZeroPage;
    var a := AddressOf(p, rs);
    assert Lacks(m, p, rs, rs);
    MissingIs(m, p, rs, PageOf(a));
    if m.free >= 0x1000 {
      var t := Touch(m, a).value;
      forall q: nat ensures q in Missing(t, p, rs + 1) <==> q in Missing(m, p, rs) - {PageOf(a)} {
        MissingIs(m, p, rs, q);
        MissingIs(t, p, rs + 1, q);
        Touched(m, t, p, rs, q);
      }
    }
  }

  lemma MissingIs(m: Memory, p: Plan, rs: nat, q: nat)
    ensures q in Missing(m, p, rs) <==> exists n: RegNo :: Lacks(m, p, rs, n) && PageOf(AddressOf(p, n)) == q
  {
  }

  lemma Touched(m: Memory, t: Memory, p: Plan, rs: RegNo, q: nat)
    requires t.pages.Keys == m.pages.Keys + {PageOf(AddressOf(p, rs))}
    ensures (exists n: RegNo :: Lacks(t, p, rs + 1, n) && PageOf(AddressOf(p, n)) == q) <==>
            q != PageOf(AddressOf(p, rs)) && exists n: RegNo :: Lacks(m, p, rs, n) && PageOf(AddressOf(p, n)) == q
  {
    hide BitAt, AddressOf, PageOf;
    if n: RegNo :| Lacks(t, p, rs + 1, n) && PageOf(AddressOf(p, n)) == q {
      assert Lacks(m, p, rs, n);
    }
    if n: RegNo :| q != PageOf(AddressOf(p, rs)) && Lacks(m, p, rs, n) && PageOf(AddressOf(p, n)) == q {
      assert Lacks(t, p, rs + 1, n);
    }
  }

  /** A block can be paged in exactly if the pages it lacks need no more RAM than is free. */
  lemma {:induction false} PagedIff(m: Memory, p: Plan, rs: nat)
    requires rs <= 16 && Inside(p)
    ensures Paged(m, p, rs).Some? <==> 0x1000 * |Missing(m, p, rs)| <= m.free
    decreases 16 - rs
  {
    hide BitAt, AddressOf, Touch, Missing, PageOf, Inside;
    if rs == 16 {
      NoneMissing(m, p);
    } else if !BitAt(p.list, rs) {
      SkipMissing(m, p, rs);
      PagedIff(m, p, rs + 1);
    } else {
      NextInside(p, rs);
      var t := Touch(m, AddressOf(p, rs));
      if Lacks(m, p, rs, rs) {
        TouchMissing(m, p, rs);
      } else {
        SkipMissing(m, p, rs);
        Present(m, AddressOf(p, rs));
      }
      if t.Some? {
        PagedIff(t.value, p, rs + 1);
      }
    }
  }

  lemma NextInside(p: Plan, rs: RegNo)
    requires Inside(p) && BitAt(p.list, rs)
    ensures AddressOf(p, rs) < 0x400_0000 && PageOf(AddressOf(p, rs)) < NUM_PAGE_TABLES
  {
  }

  lemma Present(m: Memory, a: Word)
    requires PageOf(a) in m.pages
    ensures Touch(m, a) == Some(m)
  {
  }

  // ----- what a transfer leads to -----

  /** User mode may not write there: to RAM that is read-only, or to page zero once it is there. */
  predicate Denied(m: Memory, mode: Mode, a: nat) {
    mode == USR &&
    if PageOf(a) in m.pages then m.pages[PageOf(a)].Ram? && !m.pages[PageOf(a)].writable else PageOf(a) == 0
  }

  /** The word of a register of the list, at rs or above, may not be accessed. */
  predicate Bars(m: Memory, mode: Mode, p: Plan, rs: nat, n: RegNo) {
    Listed(p, rs, n) && AddressOf(p, n) < 0x400_0000 &&
    (p.start % 4 != 0 || (!p.load && Denied(m, mode, AddressOf(p, n))))
  }

  predicate Barred(m: Memory, mode: Mode, p: Plan, rs: nat) {
    exists n: RegNo :: Bars(m, mode, p, rs, n)
  }

  /** Nothing but registers other than r15, memory and the watch flag differs. */
  predicate KeepsR15(s: State, t: State) {
    t == s.(regs := t.regs, mem := t.mem, watch := t.watch)
  }

  /** The same pages for a transfer: there, writable or not, and with the same RAM free. */
  predicate SameAccess(m: Memory, t: Memory) {
    && t.pages.Keys == m.pages.Keys && t.free == m.free
    && forall q :: q in m.pages ==> SameKind(m.pages[q], t.pages[q])
  }

  lemma {:induction false} SameBarred(m: Memory, t: Memory, mode: Mode, p: Plan, rs: nat)
    requires SameAccess(m, t)
    ensures Barred(t, mode, p, rs) <==> Barred(m, mode, p, rs)
    ensures Missing(t, p, rs) == Missing(m, p, rs)
  {
    hide BitAt, AddressOf, PageOf;
    forall n: RegNo
      ensures Bars(t, mode, p, rs, n) <==> Bars(m, mode, p, rs, n)
      ensures Lacks(t, p, rs, n) <==> Lacks(m, p, rs, n)
    {
    }
  }

  lemma {:induction false} TouchBarred(m: Memory, a: Word, mode: Mode, p: Plan, rs: nat)
    requires Touch(m, a).Some?
    ensures Barred(Touch(m, a).value, mode, p, rs) <==> Barred(m, mode, p, rs)
  {
    hide BitAt, AddressOf, PageOf, ZeroPage;
    var t := Touch(m, a).value;
    forall n: RegNo ensures Bars(t, mode, p, rs, n) <==> Bars(m, mode, p, rs, n) {
    }
  }

  lemma {:induction false} NextBarred(m: Memory, mode: Mode, p: Plan, rs: RegNo)
    ensures Barred(m, mode, p, rs) <==> Barred(m, mode, p, rs + 1) || Bars(m, mode, p, rs, rs)
    ensures !Barred(m, mode, p, 16)
  {
    hide BitAt, AddressOf, PageOf, Denied;
    if n: RegNo :| Bars(m, mode, p, rs, n) {
      assert n == rs || Bars(m, mode, p, rs + 1, n);
    }
    var next := rs + 1;
    if n: RegNo :| Bars(m, mode, p, next, n) {
      assert Bars(m, mode, p, rs, n);
    }
  }

  /** The access for one register whose page can be had. */
  lemma {:induction false} OneAccess(s: State, p: Plan, rs: RegNo, abort: bool) returns (u: State, refused: bool)
    requires Inside(p) && Banked(s) && BitAt(p.list, rs) && (abort && p.load ==> p.start % 4 != 0)
    requires AddressOf(p, rs) < 0x400_0000 && Touch(s.mem, AddressOf(p, rs)).Some?
    ensures Transfer(s, p, rs, abort) == Transfer(u, p, rs + 1, refused)
    ensures refused == (abort || Bars(s.mem, s.r15.mode, p, rs, rs)) && (refused && p.load ==> p.start % 4 != 0)
    ensures SameAccess(Touch(s.mem, AddressOf(p, rs)).value, u.mem)
    ensures KeepsR15(s, u) || (rs == 15 && p.load && !refused)
  {
    hide Banked, Touch, BlockLoad, BlockStore, AddressOf, Inside, PageOf, Denied, SameAccess, Writable, BitAt, KeepsR15;
    NextInside(p, rs);
    var a := AddressOf(p, rs);
    var m := Touch(s.mem, a).value;
    var t := s.(mem := m);
    TouchDenied(s.mem, s.r15.mode, a);
    MayWrite(m, s.r15.mode, a);
    Aligned(p, rs);
    Kept(s, m);
    if a % 4 != 0 {
      u, refused := t, true;
    } else if p.load {
      u, refused := BlockLoad(t, p, rs, a), abort;
      LoadKeeps(s, t, p, rs);
    } else if abort || Denied(s.mem, s.r15.mode, a) {
      u, refused := t, true;
    } else {
      u, refused := BlockStore(t, p, rs, a), false;
      StoreKeeps(s, t, p, rs);
    }
  }

  lemma Kept(s: State, m: Memory)
    ensures KeepsR15(s, s.(mem := m)) && SameAccess(m, m)
  {
  }

  lemma Aligned(p: Plan, rs: RegNo)
    ensures AddressOf(p, rs) % 4 == 0 <==> p.start % 4 == 0
  {
    hide Count;
  }

  lemma TouchDenied(m: Memory, mode: Mode, a: Word)
    requires Touch(m, a).Some?
    ensures Denied(Touch(m, a).value, mode, a) <==> Denied(m, mode, a)
  {
    hide ZeroPage;
  }

  lemma MayWrite(m: Memory, mode: Mode, a: Word)
    requires PageOf(a) in m.pages
    ensures Denied(m, mode, a) <==> mode == USR && !Writable(m, a)
  {
  }

  lemma {:induction false} LoadKeeps(s: State, t: State, p: Plan, rs: RegNo)
    requires Banked(s) && AddressOf(p, rs) < 0x400_0000
    requires t == s.(mem := t.mem) && PageOf(AddressOf(p, rs)) in t.mem.pages
    ensures var u := BlockLoad(t, p, rs, AddressOf(p, rs));
            SameAccess(t.mem, u.mem) && (KeepsR15(s, u) || rs == 15)
  {
    hide Banked, AddressOf, PageOf, Load, WritePc, SetBankReg;
    var (value, m) := Load(t.mem, AddressOf(p, rs), false);
    LoadShape(t.mem, AddressOf(p, rs));
    var u := Watched(t.(mem := m), AddressOf(p, rs) / 4 in t.stops.loads);
    if rs < 15 {
      StillBanked(s, u);
      SetKeeps(u, p.userBank, rs, value);
    } else {
      WriteKeeps(u, value, p.flags);
    }
  }

  lemma WriteKeeps(u: State, value: Word, flags: bool)
    ensures WritePc(u, value, flags).mem == u.mem
  {
  }

  lemma LoadShape(m: Memory, a: Word)
    requires PageOf(a) in m.pages
    ensures SameAccess(m, Load(m, a, false).1)
  {
    hide WordOf, PageOf;
  }

  lemma SetKeeps(u: State, userBank: bool, n: RegNo, value: Word)
    requires Banked(u) && n < 15
    ensures var t := SetBankReg(u, userBank, n, value); t == u.(regs := t.regs)
  {
    hide Banked;
    PlacesApart(u, userBank, n, n);
  }

  lemma {:induction false} StoreKeeps(s: State, t: State, p: Plan, rs: RegNo)
    requires AddressOf(p, rs) < 0x400_0000 && t == s.(mem := t.mem) && PageOf(AddressOf(p, rs)) in t.mem.pages
    ensures var u := BlockStore(t, p, rs, AddressOf(p, rs)); SameAccess(t.mem, u.mem) && KeepsR15(s, u)
  {
    hide AddressOf, BlockValue, WordOf, PageOf;
  }

  /**
   * The rest of a transfer, from register rs on, inside the address space: it is done exactly if nothing has been
   * refused, all pages can be had and no word is barred; if not it ends in a data abort with r15 and the place kept.
   */
  lemma {:induction false} TransferOutcome(s: State, p: Plan, rs: nat, abort: bool)
    requires rs <= 16 && Inside(p) && Banked(s) && (abort && p.load ==> p.start % 4 != 0)
    ensures !Transfer(s, p, rs, abort).Crash?
    ensures Transfer(s, p, rs, abort).Done? <==>
            !abort && Paged(s.mem, p, rs).Some? && !Barred(s.mem, s.r15.mode, p, rs)
    ensures var e := Transfer(s, p, rs, abort); e.Raise? ==> e.e == DataAbort && KeepsR15(s, e.s)
    decreases 16 - rs
  {
    hide Banked, Touch, BlockLoad, BlockStore, AddressOf, Inside, PageOf, Barred, Bars, Denied, SameAccess, Writable;
    if rs == 16 {
      NextBarred(s.mem, s.r15.mode, p, 15);
    } else {
      NextBarred(s.mem, s.r15.mode, p, rs);
      if !BitAt(p.list, rs) {
        assert !Bars(s.mem, s.r15.mode, p, rs, rs) by { NotListed(s.mem, s.r15.mode, p, rs); }
        TransferOutcome(s, p, rs + 1, abort);
      } else {
        NextInside(p, rs);
        if Touch(s.mem, AddressOf(p, rs)).Some? {
          var u, refused := OneAccess(s, p, rs, abort);
          var m := Touch(s.mem, AddressOf(p, rs)).value;
          TouchBarred(s.mem, AddressOf(p, rs), s.r15.mode, p, rs + 1);
          SameBarred(m, u.mem, s.r15.mode, p, rs + 1);
          PagedIff(m, p, rs + 1);
          PagedIff(u.mem, p, rs + 1);
          FreeSame(m, u.mem);
          if rs < 15 {
            StillBanked(s, u);
            TransferOutcome(u, p, rs + 1, refused);
          } else {
            NextBarred(s.mem, s.r15.mode, p, rs);
          }
        }
      }
    }
  }

  lemma FreeSame(m: Memory, t: Memory)
    requires SameAccess(m, t)
    ensures t.free == m.free
  {
  }

  lemma NotListed(m: Memory, mode: Mode, p: Plan, rs: RegNo)
    requires !BitAt(p.list, rs)
    ensures !Bars(m, mode, p, rs, rs)
  {
  }

  // ----- the instruction -----

  /** The base; r15 counts with its flags and mode. */
  function BaseWord(s: State, i: Instruction): Word
    requires i.Block?
  {
    if i.rn == 15 then PcBase(s) else Reg(s, i.rn)
  }

  /** Where the block of n words starts, for IA, IB, DA and DB. */
  function Lowest(s: State, i: Instruction): Word
    requires i.Block?
  {
    var base, n := BaseWord(s, i), |Listing(i.list, 16)|;
    (if i.add && !i.pre then base
     else if i.add then base + 4
     else if !i.pre then base - 4 * n + 4
     else base - 4 * n) % 0x1_0000_0000
  }

  lemma LowestIs(s: State, i: Instruction)
    requires i.Block?
    ensures BlockPlan(s, i).start == Lowest(s, i)
  {
    hide Count, Listing, PcBase, Reg;
    CountIsCard(i.list, 16);
  }

  /** Where the word of register r is. */
  function WordOfReg(s: State, i: Instruction, r: nat): nat
    requires i.Block?
  {
    Lowest(s, i) + 4 * |Listing(i.list, r)|
  }

  lemma WordOfRegIs(s: State, i: Instruction, r: RegNo)
    requires i.Block?
    ensures AddressOf(BlockPlan(s, i), r) == WordOfReg(s, i, r)
  {
    hide Count, Listing, PcBase, Reg, BlockStart, Lowest;
    LowestIs(s, i);
    CountIsCard(i.list, r);
  }

  /** The pages of the block that are not there. */
  function Absent(s: State, i: Instruction): set<nat>
    requires i.Block?
  {
    set r: RegNo | 0 <= r < 16 && BitAt(i.list, r) && PageOf(WordOfReg(s, i, r)) !in s.mem.pages ::
      PageOf(WordOfReg(s, i, r))
  }

  /** No word of the block is beyond the address space. */
  predicate InsideSpace(s: State, i: Instruction)
    requires i.Block?
  {
    Listing(i.list, 16) == {} || WordOfReg(s, i, 16) <= 0x400_0000 + Lowest(s, i) % 4
  }

  /**
   * Refused: a block that is not aligned, that lacks more pages than there is RAM for, or that is stored where user
   * mode may not write.
   */
  predicate Refuses(s: State, i: Instruction)
    requires i.Block?
  {
    || 0x1000 * |Absent(s, i)| > s.mem.free
    || exists r: RegNo :: BitAt(i.list, r) &&
         (Lowest(s, i) % 4 != 0 || (!i.load && Denied(s.mem, s.r15.mode, WordOfReg(s, i, r))))
  }

  /** The state with the base written back. */
  function WithBase(s: State, i: Instruction): State
    requires i.Block?
  {
    if i.writeBack && i.rn < 15 then s.(regs := BaseMoved(s, i)) else s
  }

  lemma WithBaseIs(s: State, i: Instruction)
    requires i.Block? && Banked(s)
    ensures WriteBack(s, i) == WithBase(s, i) && Banked(WithBase(s, i))
  {
    hide Bank, BlockEnd, Beyond;
    PlacesApart(s, UserBank(s, i), i.rn, i.rn);
    BeyondIs(i, Reg(s, i.rn));
  }

  lemma InsideIs(s: State, i: Instruction)
    requires i.Block? && InsideSpace(s, i)
    ensures Inside(BlockPlan(s, i))
  {
    hide Count, Listing, PcBase, Reg, BlockStart, Lowest;
    LowestIs(s, i);
    CountIsCard(i.list, 16);
    forall n: RegNo | BitAt(i.list, n) ensures AddressOf(BlockPlan(s, i), n) < 0x400_0000 {
      CountGrows(i.list, n, 16);
    }
  }

  lemma {:induction false} RefusesIs(s: State, i: Instruction)
    requires i.Block? && InsideSpace(s, i)
    ensures var p := BlockPlan(s, i);
            Refuses(s, i) <==> 0x1000 * |Missing(s.mem, p, 0)| > s.mem.free || Barred(s.mem, s.r15.mode, p, 0)
  {
    hide BlockPlan, BitAt, PageOf, WordOfReg, Lowest, InsideSpace, Denied, AddressOf;
    var p := BlockPlan(s, i);
    PlanIs(s, i);
    InsideIs(s, i);
    LowestIs(s, i);
    forall r: RegNo
      ensures AddressOf(p, r) == WordOfReg(s, i, r)
      ensures Listed(p, 0, r) <==> BitAt(i.list, r)
    {
      WordOfRegIs(s, i, r);
    }
    SameSets(s, i);
    if r: RegNo :|
      BitAt(i.list, r) && (Lowest(s, i) % 4 != 0 || (!i.load && Denied(s.mem, s.r15.mode, WordOfReg(s, i, r))))
    {
      assert Bars(s.mem, s.r15.mode, p, 0, r);
    }
    if r: RegNo :| Bars(s.mem, s.r15.mode, p, 0, r) {
      assert BitAt(i.list, r);
    }
  }

  lemma PlanIs(s: State, i: Instruction)
    requires i.Block?
    ensures var p := BlockPlan(s, i); p.list == i.list && p.load == i.load
  {
  }

  lemma {:induction false} SameSets(s: State, i: Instruction)
    requires i.Block?
    ensures Absent(s, i) == Missing(s.mem, BlockPlan(s, i), 0)
  {
    hide BlockPlan, BitAt, PageOf, WordOfReg, AddressOf;
    var p := BlockPlan(s, i);
    PlanIs(s, i);
    forall r: RegNo
      ensures AddressOf(p, r) == WordOfReg(s, i, r)
      ensures Lacks(s.mem, p, 0, r) <==> BitAt(i.list, r) && PageOf(WordOfReg(s, i, r)) !in s.mem.pages
    {
      WordOfRegIs(s, i, r);
    }
  }

  /**
   * Exactly when LDM and STM raise which exception. The base is written back first; r15 and the place are kept. A block
   * that starts inside the address space and runs over its end is never transferred: without a data abort before that
   * the page table is read beyond its end.
   */
  lemma {:induction false} BlockOutcome(s: State, i: Instruction)
    requires i.Block? && Banked(s)
    ensures var e := Exec(s, i);
            && (Lowest(s, i) >= 0x400_0000 ==> e == Raise(WithBase(s, i), AddressException))
            && (Lowest(s, i) < 0x400_0000 && InsideSpace(s, i) && Refuses(s, i) ==>
                  e.Raise? && e.e == DataAbort && KeepsR15(s, e.s))
            && (Lowest(s, i) < 0x400_0000 && InsideSpace(s, i) && !Refuses(s, i) ==> e.Done?)
            && (Lowest(s, i) < 0x400_0000 && !InsideSpace(s, i) ==> !e.Done?)
  {
    hide Banked, BlockPlan, WriteBack, Lowest, InsideSpace, Refuses, WithBase, Transfer, Missing, Barred, Inside, Paged;
    var p := BlockPlan(s, i);
    LowestIs(s, i);
    WithBaseIs(s, i);
    if p.start < 0x400_0000 && InsideSpace(s, i) {
      InsideIs(s, i);
      RefusesIs(s, i);
      PagedIff(s.mem, p, 0);
      WithBaseKeeps(s, i);
      TransferOutcome(WithBase(s, i), p, 0, false);
    } else if p.start < 0x400_0000 {
      var n := HighestBeyond(s, i);
      PlanIs(s, i);
      NeverDone(WithBase(s, i), p, 0, false, n);
    }
  }

  /** The highest register of a block that runs over the end of the address space. */
  lemma {:induction false} HighestBeyond(s: State, i: Instruction) returns (n: RegNo)
    requires i.Block? && !InsideSpace(s, i)
    ensures BitAt(i.list, n) && AddressOf(BlockPlan(s, i), n) >= 0x400_0000
  {
    hide BitAt, Lowest, BlockStart, PcBase, Reg;
    var k := Highest(i.list, 16);
    n := k;
    LowestIs(s, i);
    CountIsCard(i.list, 16);
    CountIsCard(i.list, n);
  }

  lemma {:induction false} Highest(list: nat, k: nat) returns (n: nat)
    requires Listing(list, k) != {}
    ensures n < k && BitAt(list, n) && Count(list, k) == Count(list, n) + 1
    decreases k
  {
    hide BitAt;
    if BitAt(list, k - 1) {
      n := k - 1;
    } else {
      assert Listing(list, k) == Listing(list, k - 1);
      n := Highest(list, k - 1);
    }
  }

  lemma {:induction false} NeverDone(s: State, p: Plan, rs: nat, abort: bool, n: RegNo)
    requires rs <= n && BitAt(p.list, n) && AddressOf(p, n) >= 0x400_0000
    ensures !Transfer(s, p, rs, abort).Done?
    decreases n - rs
  {
    hide BitAt, AddressOf, Touch, BlockLoad, BlockStore, Writable;
    var next := rs + 1;
    if rs < n {
      forall t: State, refused: bool ensures !Transfer(t, p, next, refused).Done? {
        NeverDone(t, p, next, refused, n);
      }
    }
  }

  lemma WithBaseKeeps(s: State, i: Instruction)
    requires i.Block?
    ensures WithBase(s, i) == s.(regs := WithBase(s, i).regs)
  {
    hide BaseMoved;
  }
}
