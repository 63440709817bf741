/**
 * STM and LDM (instructions.c:608-783): where the registers go, and that storing with one addressing mode and loading
 * with its inverse brings everything back.
 */
module ArmBlocks {
  import opened Prelude
  import opened ArmWords
  import opened ArmMemory
  import opened ArmState
  import opened ArmDecode
  import opened ArmExecute

  // ----- words of memory -----

  predicate HasWord(m: Memory, a: nat) {
    PageOf(a) in m.pages && m.pages[PageOf(a)].Ram?
  }

  function WordAt(m: Memory, a: nat): Word
    requires HasWord(m, a)
  {
    m.pages[PageOf(a)].words[WordOf(a)]
  }

  lemma {:induction false} WordsApart(a: nat, b: nat)
    requires a % 4 == 0 && b % 4 == 0 && PageOf(a) == PageOf(b) && WordOf(a) == WordOf(b)
    ensures a == b
  {
    WordPlace(a);
    WordPlace(b);
  }

  lemma {:induction false} WordPlace(a: nat)
    requires a % 4 == 0
    ensures a == 0x1000 * PageOf(a) + 4 * WordOf(a)
  {
    var q := a / 4;
    assert a == 4 * q;
    assert a % 0x1000 == 4 * (q % 0x400);
  }

  /** The same pages of the same kinds. */
  predicate SameShape(m: Memory, t: Memory) {
    && t == m.(pages := t.pages) && t.pages.Keys == m.pages.Keys
    && forall p :: p in m.pages ==> SameKind(m.pages[p], t.pages[p])
  }

  lemma {:induction false} PutWordIs(m: Memory, a: Word, v: Word, b: nat)
    requires HasWord(m, a) && a % 4 == 0
    ensures SameShape(m, PutWord(m, a, v)) && HasWord(PutWord(m, a, v), a) && WordAt(PutWord(m, a, v), a) == v
    ensures HasWord(m, b) && b % 4 == 0 && b != a ==>
              HasWord(PutWord(m, a, v), b) && WordAt(PutWord(m, a, v), b) == WordAt(m, b)
  {
    hide WordOf, PageOf;
    if HasWord(m, b) && b % 4 == 0 && b != a && PageOf(a) == PageOf(b) && WordOf(a) == WordOf(b) {
      WordsApart(a, b);
    }
  }

  /** Aligned, inside the address space, and RAM the mode may write. */
  predicate Room(m: Memory, mode: Mode, start: nat, n: nat) {
    && start % 4 == 0 && start + 4 * n <= 0x400_0000
    && forall k: nat :: k < n ==> RoomAt(m, mode, start + 4 * k)
  }

  predicate RoomAt(m: Memory, mode: Mode, a: nat) {
    HasWord(m, a) && (mode == USR ==> m.pages[PageOf(a)].writable)
  }

  lemma {:induction false} RoomKept(m: Memory, t: Memory, mode: Mode, start: nat, n: nat)
    requires Room(m, mode, start, n) && SameShape(m, t)
    ensures Room(t, mode, start, n)
  {
    hide PageOf;
    forall k: nat | k < n ensures RoomAt(t, mode, start + 4 * k) {
      assert RoomAt(m, mode, start + 4 * k);
    }
  }

  // ----- registers -----

  /** Where a register of the list is kept. */
  function Place(s: State, userBank: bool, n: RegNo): Index {
    if userBank then n else s.effective[n]
  }

  lemma {:induction false} PlacesApart(s: State, userBank: bool, n: RegNo, k: RegNo)
    requires Banked(s)
    ensures n < 15 ==> Place(s, userBank, n) != 15
    ensures n != k ==> Place(s, userBank, n) != Place(s, userBank, k)
  {
    var m := s.r15.mode;
    assert Bank(m)[n] == Slot(m, n) && Bank(m)[k] == Slot(m, k);
  }

  /**
   * With `^` it is the registers of user mode that are transferred, unless r15 is loaded, which then takes its flags
   * along; without, those of the current mode.
   */
  lemma BanksUsed(s: State, i: Instruction, n: RegNo)
    requires i.Block? && Banked(s) && n < 15
    ensures Place(s, UserBank(s, i), n) == if i.hat && !(i.load && BitAt(i.list, 15)) then n else s.effective[n]
    ensures BankReg(s, UserBank(s, i), n) == if i.hat && !(i.load && BitAt(i.list, 15)) then s.regs[n] else Reg(s, n)
    ensures i.load && BitAt(i.list, 15) ==> (BlockFlags(s, i) <==> i.hat)
  {
    hide BitAt;
    assert Bank(s.r15.mode)[n] == Slot(s.r15.mode, n);
  }

  /** Writing one register writes that register. */
  lemma {:induction false} OneRegister(s: State, n: RegNo, v: Word)
    requires Banked(s) && n < 15
    ensures var t := SetReg(s, n, v);
            && t == s.(regs := t.regs) && Reg(t, n) == v && Banked(t)
            && forall k: RegNo :: k < 15 && k != n ==> Reg(t, k) == Reg(s, k)
  {
    hide Bank, Pack, Unpack;
    PlacesApart(s, false, n, n);
    forall k: RegNo | k < 15 && k != n ensures Reg(SetReg(s, n, v), k) == Reg(s, k) {
      PlacesApart(s, false, n, k);
    }
  }

  /** Register n is in the list, at rs or above. */
  predicate Listed(p: Plan, rs: nat, n: nat) {
    rs <= n < 16 && BitAt(p.list, n)
  }

  lemma {:induction false} CountGrows(list: nat, j: nat, k: nat)
    requires j <= k
    ensures Count(list, j) <= Count(list, k)
    ensures j < k && BitAt(list, j) ==> Count(list, j) < Count(list, k)
    decreases k
  {
    if j < k {
      CountGrows(list, j, k - 1);
    }
  }

  /** The mode whose permission a transfer needs; loads need none. */
  function Needs(load: bool, mode: Mode): Mode {
    if load then SUP else mode
  }

  predicate Simple(s: State, p: Plan) {
    && Banked(s) && Room(s.mem, Needs(p.load, s.r15.mode), p.start, Count(p.list, 16))
  }

  lemma {:induction false} AddressIn(s: State, p: Plan, rs: RegNo)
    requires Simple(s, p) && BitAt(p.list, rs)
    ensures var a := AddressOf(p, rs);
            && a % 4 == 0 && a < 0x400_0000 && PageOf(a) < NUM_PAGE_TABLES
            && RoomAt(s.mem, Needs(p.load, s.r15.mode), a)
            && Touch(s.mem, a) == Some(s.mem) && p.start <= a
  {
    hide Banked, RoomAt;
    CountGrows(p.list, rs, 16);
    var k := Count(p.list, rs);
    assert RoomAt(s.mem, Needs(p.load, s.r15.mode), p.start + 4 * k);
    RoomPresent(s.mem, Needs(p.load, s.r15.mode), AddressOf(p, rs));
  }

  lemma RoomPresent(m: Memory, mode: Mode, a: Word)
    requires RoomAt(m, mode, a)
    ensures Touch(m, a) == Some(m)
  {
  }

  /** The word of a register of the list, at rs or above, is watched. */
  predicate Watches(stops: set<nat>, p: Plan, rs: nat) {
    exists n: RegNo :: Listed(p, rs, n) && AddressOf(p, n) / 4 in stops
  }

  lemma {:induction false} NextWatches(stops: set<nat>, p: Plan, rs: RegNo)
    ensures Watches(stops, p, rs) <==> Watches(stops, p, rs + 1) || (BitAt(p.list, rs) && AddressOf(p, rs) / 4 in stops)
    ensures !Watches(stops, p, 16)
  {
    hide BitAt, AddressOf;
    var next := rs + 1;
    if n: RegNo :| Listed(p, rs, n) && AddressOf(p, n) / 4 in stops {
      assert n == rs || Listed(p, next, n);
    }
    if n: RegNo :| Listed(p, next, n) && AddressOf(p, n) / 4 in stops {
      assert Listed(p, rs, n);
    }
    if BitAt(p.list, rs) {
      assert Listed(p, rs, rs);
    }
  }

  // ----- storing -----

  /** What the rest of a store leads to, from register rs on. */
  ghost predicate Stored(s: State, p: Plan, rs: nat, t: State)
    requires Simple(s, p)
  {
    && t == s.(mem := t.mem, watch := s.watch || Watches(s.stops.stores, p, rs)) && SameShape(s.mem, t.mem)
    && (forall n: RegNo :: Listed(p, rs, n) ==>
          HasWord(t.mem, AddressOf(p, n)) && WordAt(t.mem, AddressOf(p, n)) == BlockValue(s, p, n))
    && (forall b: nat :: OutsideOf(s.mem, p, rs, b) ==> HasWord(t.mem, b) && WordAt(t.mem, b) == WordAt(s.mem, b))
  }

  /** A word that no register from rs on is stored to. */
  predicate OutsideOf(m: Memory, p: Plan, rs: nat, b: nat) {
    b % 4 == 0 && HasWord(m, b) && (b < p.start + 4 * Count(p.list, rs) || b >= p.start + 4 * Count(p.list, 16))
  }

  lemma {:induction false} StoresAll(s: State, p: Plan, rs: nat) returns (t: State)
    requires Simple(s, p) && !p.load && rs <= 16
    ensures Transfer(s, p, rs, false) == Done(t) && Stored(s, p, rs, t)
    decreases 16 - rs
  {
    hide Banked, Room, Touch, BlockValue, BlockStore, AddressOf, BitAt, Watches;
    if rs == 16 {
      t := s;
      NextWatches(s.stops.stores, p, 15);
    } else if !BitAt(p.list, rs) {
      t := StoresAll(s, p, rs + 1);
      SkipStored(s, p, rs, t);
    } else {
      AddressIn(s, p, rs);
      var a := AddressOf(p, rs);
      var u := BlockStore(s, p, rs, a);
      OneStored(s, p, rs);
      t := StoresAll(u, p, rs + 1);
      assert s.(mem := s.mem) == s;
      TransferStore(s, p, rs);
      ThenStored(s, p, rs, u, t);
    }
  }

  lemma {:induction false} TransferStore(s: State, p: Plan, rs: RegNo)
    requires Simple(s, p) && !p.load && BitAt(p.list, rs)
    ensures PageOf(AddressOf(p, rs)) in s.mem.pages
    ensures Transfer(s, p, rs, false) == Transfer(BlockStore(s, p, rs, AddressOf(p, rs)), p, rs + 1, false)
  {
    hide Banked, Room, Touch, BlockStore, AddressOf, BitAt;
    AddressIn(s, p, rs);
    assert s.(mem := s.mem) == s;
  }

  lemma {:induction false} SkipStored(s: State, p: Plan, rs: RegNo, t: State)
    requires Simple(s, p) && !BitAt(p.list, rs) && Stored(s, p, rs + 1, t)
    ensures Stored(s, p, rs, t)
  {
    hide Banked, Room, BlockValue, AddressOf, BitAt, SameShape, HasWord, Watches;
    NextWatches(s.stops.stores, p, rs);
    assert Count(p.list, rs + 1) == Count(p.list, rs);
    forall n: RegNo | Listed(p, rs, n)
      ensures HasWord(t.mem, AddressOf(p, n)) && WordAt(t.mem, AddressOf(p, n)) == BlockValue(s, p, n)
    {
      assert Listed(p, rs + 1, n);
    }
    forall b: nat | OutsideOf(s.mem, p, rs, b)
      ensures HasWord(t.mem, b) && WordAt(t.mem, b) == WordAt(s.mem, b)
    {
      assert OutsideOf(s.mem, p, rs + 1, b);
    }
  }

  /** The store of one register. */
  lemma {:induction false} OneStored(s: State, p: Plan, rs: RegNo)
    requires Simple(s, p) && BitAt(p.list, rs)
    ensures PageOf(AddressOf(p, rs)) in s.mem.pages
    ensures var a := AddressOf(p, rs);
            var u := BlockStore(s, p, rs, a);
            && HasWord(s.mem, a) && u.mem == PutWord(s.mem, a, BlockValue(s, p, rs))
            && u == s.(mem := u.mem, watch := s.watch || a / 4 in s.stops.stores) && Simple(u, p)
  {
    hide Banked, Room, BlockValue, AddressOf, Touch, Bank;
    AddressIn(s, p, rs);
    var a := AddressOf(p, rs);
    PutWordIs(s.mem, a, BlockValue(s, p, rs), 0);
    RoomKept(s.mem, PutWord(s.mem, a, BlockValue(s, p, rs)), Needs(p.load, s.r15.mode), p.start,
             Count(p.list, 16));
    StillBanked(s, BlockStore(s, p, rs, a));
  }

  lemma StillBanked(s: State, t: State)
    requires Banked(s) && t.effective == s.effective && t.r15.mode == s.r15.mode
    ensures Banked(t)
  {
  }

  lemma {:induction false} ShapeTransitive(a: Memory, b: Memory, c: Memory)
    requires SameShape(a, b) && SameShape(b, c)
    ensures SameShape(a, c)
  {
  }

  lemma {:induction false} ThenStored(s: State, p: Plan, rs: RegNo, u: State, t: State)
    requires Simple(s, p) && Simple(u, p) && BitAt(p.list, rs) && HasWord(s.mem, AddressOf(p, rs))
    requires u == s.(mem := u.mem, watch := s.watch || AddressOf(p, rs) / 4 in s.stops.stores)
    requires u.mem == PutWord(s.mem, AddressOf(p, rs), BlockValue(s, p, rs)) && Stored(u, p, rs + 1, t)
    ensures Stored(s, p, rs, t)
  {
    hide Banked, Room, AddressOf, SameShape, HasWord, WordAt, PutWord, BlockValue, Watches;
    NextWatches(s.stops.stores, p, rs);
    var a := AddressOf(p, rs);
    AddressIn(s, p, rs);
    PutWordIs(s.mem, a, BlockValue(s, p, rs), 0);
    ShapeTransitive(s.mem, u.mem, t.mem);
    NextAddress(p, rs);
    assert OutsideOf(u.mem, p, rs + 1, a);
    forall n: RegNo | Listed(p, rs, n)
      ensures HasWord(t.mem, AddressOf(p, n)) && WordAt(t.mem, AddressOf(p, n)) == BlockValue(s, p, n)
    {
      assert n == rs || Listed(p, rs + 1, n);
      ValueKept(s, p, n, u);
    }
    forall b: nat | OutsideOf(s.mem, p, rs, b)
      ensures HasWord(t.mem, b) && WordAt(t.mem, b) == WordAt(s.mem, b)
    {
      PutWordIs(s.mem, a, BlockValue(s, p, rs), b);
      assert OutsideOf(u.mem, p, rs + 1, b);
    }
  }

  lemma ValueKept(s: State, p: Plan, n: RegNo, u: State)
    requires u == s.(mem := u.mem, watch := u.watch)
    ensures BlockValue(u, p, n) == BlockValue(s, p, n)
  {
    hide Pack;
  }

  lemma {:induction false} NextAddress(p: Plan, rs: RegNo)
    requires BitAt(p.list, rs)
    ensures AddressOf(p, rs) == p.start + 4 * Count(p.list, rs)
    ensures p.start + 4 * Count(p.list, rs + 1) == AddressOf(p, rs) + 4
    ensures AddressOf(p, rs) < p.start + 4 * Count(p.list, 16)
  {
    CountGrows(p.list, rs, 16);
  }

  // ----- loading -----

  /** The register kept in slot k, not r15, is loaded at rs or later. */
  predicate Hit(s: State, p: Plan, rs: nat, k: Index) {
    exists n: RegNo :: n < 15 && Listed(p, rs, n) && Place(s, p.userBank, n) == k
  }

  /** What loading r15 does, if it is in the list. */
  function PcLoaded(s: State, p: Plan): State
    requires BitAt(p.list, 15) ==> HasWord(s.mem, AddressOf(p, 15))
  {
    if BitAt(p.list, 15) then WritePc(s, WordAt(s.mem, AddressOf(p, 15)), p.flags) else s
  }

  /** What the rest of a load leads to, from register rs on. */
  predicate Loaded(s: State, p: Plan, rs: nat, t: State)
    requires Simple(s, p)
  {
    && (forall n: RegNo :: Listed(p, rs, n) ==> HasWord(s.mem, AddressOf(p, n)))
    && t == s.(regs := t.regs, watch := s.watch || Watches(s.stops.loads, p, rs), r15 := t.r15, pc := t.pc)
    && (forall n: RegNo :: n < 15 && Listed(p, rs, n) ==>
          t.regs[Place(s, p.userBank, n)] == WordAt(s.mem, AddressOf(p, n)))
    && (forall k: Index :: !Hit(s, p, rs, k) ==> t.regs[k] == s.regs[k])
    && (if rs < 16 && BitAt(p.list, 15) then
          t.r15 == PcLoaded(s, p).r15 && t.pc == PcLoaded(s, p).pc
        else t.r15 == s.r15 && t.pc == s.pc)
  }

  lemma {:induction false} LoadsAll(s: State, p: Plan, rs: nat) returns (t: State)
    requires Simple(s, p) && p.load && rs <= 16
    ensures Transfer(s, p, rs, false) == Done(t) && Loaded(s, p, rs, t)
    decreases 16 - rs
  {
    hide Banked, Room, Touch, BankReg, BlockLoad, AddressOf, BitAt, Place, Loaded;
    if rs == 16 {
      t := s;
      NothingLoaded(s, p);
    } else if !BitAt(p.list, rs) {
      t := LoadsAll(s, p, rs + 1);
      SkipLoaded(s, p, rs, t);
    } else {
      AddressIn(s, p, rs);
      TransferLoad(s, p, rs);
      var u := BlockLoad(s, p, rs, AddressOf(p, rs));
      if rs == 15 {
        t := u;
        LastLoaded(s, p);
      } else {
        OneLoaded(s, p, rs);
        t := LoadsAll(u, p, rs + 1);
        ThenLoaded(s, p, rs, u, t);
      }
    }
  }

  lemma NothingLoaded(s: State, p: Plan)
    requires Simple(s, p)
    ensures Loaded(s, p, 16, s)
  {
    hide Watches;
    NextWatches(s.stops.loads, p, 15);
  }

  lemma {:induction false} TransferLoad(s: State, p: Plan, rs: RegNo)
    requires Simple(s, p) && p.load && BitAt(p.list, rs)
    ensures PageOf(AddressOf(p, rs)) in s.mem.pages
    ensures Transfer(s, p, rs, false) == Transfer(BlockLoad(s, p, rs, AddressOf(p, rs)), p, rs + 1, false)
  {
    hide Banked, Room, Touch, BlockLoad, AddressOf, BitAt;
    AddressIn(s, p, rs);
    assert s.(mem := s.mem) == s;
  }

  /** r15 is the last of the list. */
  lemma LastLoaded(s: State, p: Plan)
    requires Simple(s, p) && p.load && BitAt(p.list, 15)
    ensures PageOf(AddressOf(p, 15)) in s.mem.pages
    ensures var u := BlockLoad(s, p, 15, AddressOf(p, 15));
            Loaded(s, p, 15, u) && Transfer(u, p, 16, false) == Done(u)
  {
    hide Banked, Room, AddressOf, Touch, Unpack, Align, BitAt, Watches;
    AddressIn(s, p, 15);
    NextWatches(s.stops.loads, p, 15);
    assert s.(mem := s.mem) == s;
    assert forall k: Index :: !Hit(s, p, 15, k);
  }

  lemma {:induction false} SkipLoaded(s: State, p: Plan, rs: RegNo, t: State)
    requires Simple(s, p) && !BitAt(p.list, rs) && Loaded(s, p, rs + 1, t)
    ensures Loaded(s, p, rs, t)
  {
    hide Banked, Room, AddressOf, BitAt, HasWord, Place, PcLoaded, Watches;
    NextWatches(s.stops.loads, p, rs);
    assert forall n: RegNo :: Listed(p, rs, n) ==> Listed(p, rs + 1, n);
    forall k: Index | !Hit(s, p, rs, k) ensures t.regs[k] == s.regs[k] {
      assert forall n: RegNo :: Listed(p, rs + 1, n) ==> Listed(p, rs, n);
      assert !Hit(s, p, rs + 1, k);
    }
  }

  /** The load of one register. */
  lemma {:induction false} OneLoaded(s: State, p: Plan, rs: RegNo)
    requires Simple(s, p) && BitAt(p.list, rs) && rs < 15
    ensures HasWord(s.mem, AddressOf(p, rs))
    ensures var u := BlockLoad(s, p, rs, AddressOf(p, rs));
            && u == s.(regs := s.regs[Place(s, p.userBank, rs) := WordAt(s.mem, AddressOf(p, rs))],
                       watch := s.watch || AddressOf(p, rs) / 4 in s.stops.loads)
            && Place(s, p.userBank, rs) != 15 && Simple(u, p)
  {
    hide Banked, Room, AddressOf, Touch, Bank;
    AddressIn(s, p, rs);
    PlacesApart(s, p.userBank, rs, rs);
    assert s.(mem := s.mem) == s;
    StillBanked(s, BlockLoad(s, p, rs, AddressOf(p, rs)));
  }

  lemma {:induction false} ThenLoaded(s: State, p: Plan, rs: RegNo, u: State, t: State)
    requires Simple(s, p) && Simple(u, p) && rs < 15 && BitAt(p.list, rs) && HasWord(s.mem, AddressOf(p, rs))
    requires Place(s, p.userBank, rs) != 15
    requires u == s.(regs := s.regs[Place(s, p.userBank, rs) := WordAt(s.mem, AddressOf(p, rs))],
                     watch := s.watch || AddressOf(p, rs) / 4 in s.stops.loads)
    requires Loaded(u, p, rs + 1, t)
    ensures Loaded(s, p, rs, t)
  {
    hide Banked, Room, AddressOf, HasWord, WordAt, BitAt, Unpack, Align, Watches;
    NextWatches(s.stops.loads, p, rs);
    var place := Place(s, p.userBank, rs);
    PlaceNotHit(s, u, p, rs);
    forall n: RegNo | Listed(p, rs, n)
      ensures HasWord(s.mem, AddressOf(p, n))
      ensures n < 15 ==> t.regs[Place(s, p.userBank, n)] == WordAt(s.mem, AddressOf(p, n))
    {
      assert n == rs || Listed(p, rs + 1, n);
      assert Place(u, p.userBank, n) == Place(s, p.userBank, n);
    }
    forall k: Index | !Hit(s, p, rs, k) ensures t.regs[k] == s.regs[k] {
      assert Listed(p, rs, rs) && k != place;
      NotHitLater(s, u, p, rs, k);
    }
  }

  lemma PlaceNotHit(s: State, u: State, p: Plan, rs: RegNo)
    requires Banked(s) && u.effective == s.effective
    ensures !Hit(u, p, rs + 1, Place(s, p.userBank, rs))
  {
    hide Banked, BitAt;
    forall n: RegNo | Listed(p, rs + 1, n) ensures Place(u, p.userBank, n) != Place(s, p.userBank, rs) {
      PlacesApart(s, p.userBank, rs, n);
    }
  }

  lemma {:induction false} NotHitLater(s: State, u: State, p: Plan, rs: RegNo, k: Index)
    requires u.effective == s.effective && !Hit(s, p, rs, k)
    ensures !Hit(u, p, rs + 1, k)
  {
    assert forall n: RegNo :: Listed(p, rs + 1, n) ==>
      Listed(p, rs, n) && Place(u, p.userBank, n) == Place(s, p.userBank, n);
  }

  // ----- paging in on the way -----

  /** The memory once the words for the registers from rs on have all been touched. */
  function Paged(m: Memory, p: Plan, rs: nat): Option<Memory>
    requires rs <= 16
    decreases 16 - rs
  {
    if rs == 16 then Some(m)
    else if !BitAt(p.list, rs) then Paged(m, p, rs + 1)
    else
      var a := AddressOf(p, rs);
      if PageOf(a) >= NUM_PAGE_TABLES then None
      else
        var t := Touch(m, a);
        if t.None? then None else Paged(t.value, p, rs + 1)
  }

  /** What touching adds leaves everything else alone. */
  predicate Extends(m: Memory, t: Memory) {
    && t == m.(pages := t.pages, free := t.free)
    && forall p :: p in m.pages ==> p in t.pages && t.pages[p] == m.pages[p]
  }

  lemma {:induction false} TouchExtends(m: Memory, a: Word)
    requires Touch(m, a).Some?
    ensures Extends(m, Touch(m, a).value) && PageOf(a) in Touch(m, a).value.pages
  {
  }

  lemma InSpace(a: nat)
    ensures PageOf(a) < NUM_PAGE_TABLES ==> a < 0x400_0000
  {
  }

  lemma {:induction false} PagedExtends(m: Memory, p: Plan, rs: nat)
    requires rs <= 16 && Paged(m, p, rs).Some?
    ensures Extends(m, Paged(m, p, rs).value)
    decreases 16 - rs
  {
    hide Touch, AddressOf, PageOf;
    if rs < 16 {
      if BitAt(p.list, rs) {
        InSpace(AddressOf(p, rs));
        var t := Touch(m, AddressOf(p, rs)).value;
        TouchExtends(m, AddressOf(p, rs));
        PagedExtends(t, p, rs + 1);
      } else {
        PagedExtends(m, p, rs + 1);
      }
    }
  }

  /** The accesses of a transfer: a word read, or written. */
  function Access(m: Memory, load: bool, a: Word, v: Word): Memory
    requires PageOf(a) in m.pages
  {
    if load then Load(m, a, false).1 else Store(m, a, v)
  }

  lemma {:induction false} TouchCommutes(m: Memory, load: bool, a: Word, v: Word, b: Word)
    requires PageOf(a) in m.pages
    ensures Touch(m, b).Some? ==>
              && PageOf(a) in Touch(m, b).value.pages
              && Touch(Access(m, load, a, v), b) == Some(Access(Touch(m, b).value, load, a, v))
  {
    hide WordOf, ZeroPage, PageOf;
    if Touch(m, b).Some? {
      var x, y := Touch(Access(m, load, a, v), b), Access(Touch(m, b).value, load, a, v);
      assert x.value.pages == y.pages;
    }
  }

  lemma {:induction false} PagedCommutes(m: Memory, p: Plan, rs: nat, load: bool, a: Word, v: Word)
    requires rs <= 16 && PageOf(a) in m.pages && Paged(m, p, rs).Some?
    ensures PageOf(a) in Paged(m, p, rs).value.pages
    ensures Paged(Access(m, load, a, v), p, rs) == Some(Access(Paged(m, p, rs).value, load, a, v))
    decreases 16 - rs
  {
    hide Touch, AddressOf, PageOf, Access;
    if rs < 16 {
      if BitAt(p.list, rs) {
        var b := AddressOf(p, rs);
        InSpace(b);
        TouchCommutes(m, load, a, v, b);
        PagedCommutes(Touch(m, b).value, p, rs + 1, load, a, v);
      } else {
        PagedCommutes(m, p, rs + 1, load, a, v);
      }
    }
  }

  /** Paging everything in first makes no difference to a transfer. */
  lemma {:induction false} TransferPaged(s: State, p: Plan, rs: nat, abort: bool)
    requires rs <= 16 && Paged(s.mem, p, rs).Some?
    ensures Transfer(s, p, rs, abort) == Transfer(s.(mem := Paged(s.mem, p, rs).value), p, rs, abort)
    decreases 16 - rs
  {
    hide Touch, BlockLoad, BlockStore, AddressOf, PageOf, Writable, Extends;
    if rs == 16 {
      assert s.(mem := s.mem) == s;
    } else if !BitAt(p.list, rs) {
      TransferPaged(s, p, rs + 1, abort);
    } else {
      var a := AddressOf(p, rs);
      InSpace(a);
      var t := s.(mem := Touch(s.mem, a).value);
      var all := Paged(s.mem, p, rs).value;
      var u := s.(mem := all);
      TouchExtends(s.mem, a);
      PagedExtends(t.mem, p, rs + 1);
      PresentIn(t.mem, all, a);
      assert u.(mem := u.mem) == u;
      TransferPaged(t, p, rs + 1, true);
      LoadPaged(t, p, rs, a, all);
      StorePaged(t, p, rs, a, all);
      TransferPaged(BlockLoad(t, p, rs, a), p, rs + 1, abort);
      TransferPaged(BlockStore(t, p, rs, a), p, rs + 1, false);
    }
  }

  lemma {:induction false} PresentIn(m: Memory, t: Memory, a: Word)
    requires Extends(m, t) && PageOf(a) in m.pages
    ensures PageOf(a) in t.pages && Touch(t, a) == Some(t) && Writable(t, a) == Writable(m, a)
  {
  }

  lemma {:induction false} LoadPaged(t: State, p: Plan, rs: RegNo, a: Word, all: Memory)
    requires PageOf(a) in t.mem.pages && Paged(t.mem, p, rs + 1) == Some(all)
    ensures PageOf(a) in all.pages
    ensures var x := BlockLoad(t, p, rs, a);
            && Paged(x.mem, p, rs + 1).Some?
            && x.(mem := Paged(x.mem, p, rs + 1).value) == BlockLoad(t.(mem := all), p, rs, a)
  {
    hide PageOf, WordOf, Paged, Load, WritePc, SetBankReg, Extends, Access;
    PagedExtends(t.mem, p, rs + 1);
    PagedCommutes(t.mem, p, rs + 1, true, a, 0);
    LoadSame(t.mem, all, a);
    var (value, m) := Load(t.mem, a, false);
    var m' := Load(all, a, false).1;
    assert Access(t.mem, true, a, 0) == m && Access(all, true, a, 0) == m' by {
      AccessLoads(t.mem, a);
      AccessLoads(all, a);
    }
    var w := Watched(t.(mem := m), a / 4 in t.stops.loads);
    assert w.(mem := m') == Watched(t.(mem := all).(mem := m'), a / 4 in t.stops.loads);
    RegistersOnly(w, m', p.userBank, rs, value, p.flags);
  }

  lemma AccessLoads(m: Memory, a: Word)
    requires PageOf(a) in m.pages
    ensures Access(m, true, a, 0) == Load(m, a, false).1
  {
  }

  lemma {:induction false} LoadSame(m: Memory, t: Memory, a: Word)
    requires Extends(m, t) && PageOf(a) in m.pages
    ensures PageOf(a) in t.pages && Load(t, a, false).0 == Load(m, a, false).0
  {
    hide WordOf, PageOf;
  }

  lemma {:induction false} RegistersOnly(s: State, m: Memory, userBank: bool, n: RegNo, v: Word, flags: bool)
    ensures WritePc(s.(mem := m), v, flags) == WritePc(s, v, flags).(mem := m)
    ensures SetBankReg(s.(mem := m), userBank, n, v) == SetBankReg(s, userBank, n, v).(mem := m)
    ensures WritePc(s, v, flags).mem == s.mem && SetBankReg(s, userBank, n, v).mem == s.mem
  {
    hide Put, Unpack, Align;
    PutOnly(s, m, n, v);
    PutOnly(s, m, s.effective[n], v);
  }

  lemma {:induction false} PutOnly(s: State, m: Memory, k: Index, v: Word)
    ensures Put(s.(mem := m), k, v) == Put(s, k, v).(mem := m) && Put(s, k, v).mem == s.mem
  {
    hide Unpack;
  }

  lemma {:induction false} StorePaged(t: State, p: Plan, rs: RegNo, a: Word, all: Memory)
    requires PageOf(a) in t.mem.pages && Paged(t.mem, p, rs + 1) == Some(all)
    ensures PageOf(a) in all.pages
    ensures var x := BlockStore(t, p, rs, a);
            && Paged(x.mem, p, rs + 1).Some?
            && x.(mem := Paged(x.mem, p, rs + 1).value) == BlockStore(t.(mem := all), p, rs, a)
  {
    hide PageOf, WordOf, Pack, Paged, Store;
    PagedCommutes(t.mem, p, rs + 1, false, a, BlockValue(t, p, rs));
    assert BlockValue(t.(mem := all), p, rs) == BlockValue(t, p, rs);
  }

  // ----- where the block lies -----

  /** The registers of a list below k. */
  function Listing(list: nat, k: nat): set<nat> {
    set r: nat | r < k && BitAt(list, r)
  }

  lemma {:induction false} CountIsCard(list: nat, k: nat)
    ensures Count(list, k) == |Listing(list, k)|
  {
    if k == 0 {
      assert Listing(list, 0) == {};
    } else {
      CountIsCard(list, k - 1);
      assert Listing(list, k) == Listing(list, k - 1) + if BitAt(list, k - 1) then {k - 1} else {};
    }
  }

  /**
   * Where register r of the list goes, for a base and n registers of which r is the k-th lowest, counted from 0:
   * IA, IB, DA and DB.
   */
  function Spot(i: Instruction, base: Word, r: nat): Word
    requires i.Block?
  {
    var n, k := |Listing(i.list, 16)|, |Listing(i.list, r)|;
    (if i.add && !i.pre then base + 4 * k
     else if i.add then base + 4 + 4 * k
     else if !i.pre then base - 4 * n + 4 + 4 * k
     else base - 4 * n + 4 * k) % 0x1_0000_0000
  }

  /** The base moved by four bytes a register. */
  function Beyond(i: Instruction, base: Word): Word
    requires i.Block?
  {
    var n := |Listing(i.list, 16)|;
    (if i.add then base + 4 * n else base - 4 * n) % 0x1_0000_0000
  }

  lemma BeyondIs(i: Instruction, base: Word)
    requires i.Block?
    ensures BlockEnd(i, base) == Beyond(i, base)
  {
    hide Count, Listing;
    CountIsCard(i.list, 16);
  }

  lemma StartIs(i: Instruction, base: Word)
    requires i.Block?
    ensures BlockStart(i, base) == Wrap(Wrap(if i.add then base else base - 4 * Count(i.list, 16)) +
                                        if i.pre == i.add then 4 else 0)
  {
    hide Count;
  }

  lemma SpotIs(i: Instruction, base: Word, r: RegNo)
    requires i.Block? && BitAt(i.list, r)
    requires BlockStart(i, base) + 4 * Count(i.list, 16) <= 0x400_0000
    ensures Spot(i, base, r) == BlockStart(i, base) + 4 * Count(i.list, r)
  {
    hide Count, Listing, BlockStart;
    CountIsCard(i.list, 16);
    CountIsCard(i.list, r);
    CountGrows(i.list, r, 16);
    StartIs(i, base);
    var n, k := Count(i.list, 16), Count(i.list, r);
    SpotWraps(if i.add then base else base - 4 * n, if i.pre == i.add then 4 else 0, 4 * k, BlockStart(i, base));
  }

  lemma SpotWraps(low: int, up: int, far: nat, start: Word)
    requires start == Wrap(Wrap(low) + up) && start + far < 0x1_0000_0000
    ensures (low + up + far) % 0x1_0000_0000 == start + far
  {
  }

  // ----- both -----

  /** A block transfer to or from RAM that is present or can be paged in; m is the memory with the block paged in. */
  predicate InRam(s: State, i: Instruction, m: Memory) {
    && i.Block? && i.rn < 15 && Banked(s)
    && BlockStart(i, Reg(s, i.rn)) < 0x400_0000 && Paged(s.mem, BlockPlan(s, i), 0) == Some(m)
    && Room(m, Needs(i.load, s.r15.mode), BlockStart(i, Reg(s, i.rn)), Count(i.list, 16))
  }

  /** With write-back, and neither the base nor r15 in the list. */
  predicate Regular(s: State, i: Instruction, m: Memory) {
    InRam(s, i, m) && i.writeBack && !BitAt(i.list, i.rn) && !BitAt(i.list, 15)
  }

  /** Where the base is written back to. */
  function BasePlace(s: State, i: Instruction): Index
    requires i.Block?
  {
    Place(s, UserBank(s, i), i.rn)
  }

  /** The inverse addressing mode: IA and DB, IB and DA. */
  predicate Inverse(i: Instruction, j: Instruction)
    requires i.Block?
  {
    j == i.(load := !i.load, add := !i.add, pre := !i.pre)
  }

  /** The registers with the base written back. */
  function BaseMoved(s: State, i: Instruction): Regs
    requires i.Block?
  {
    if i.writeBack then s.regs[BasePlace(s, i) := Beyond(i, Reg(s, i.rn))] else s.regs
  }

  lemma {:induction false} BaseWritten(s: State, i: Instruction, m: Memory)
    requires InRam(s, i, m)
    ensures var t, p := s.(regs := BaseMoved(s, i), mem := m), BlockPlan(s, i);
            && BasePlace(s, i) != 15 && Simple(t, p) && ExecBlock(s, i) == Transfer(t, p, 0, false)
  {
    hide Room, BlockEnd, BlockStart, Bank, Transfer, PcBase, Paged, Beyond;
    PlacesApart(s, UserBank(s, i), i.rn, i.rn);
    BeyondIs(i, Reg(s, i.rn));
    var u := WriteBack(s, i);
    StillBanked(s, u.(mem := m));
    TransferPaged(u, BlockPlan(s, i), 0, false);
  }

  /**
   * What STM stores for a register: r15 as a branch would leave it in r14; the base as it was only if it is the lowest
   * register of the list, and as it is written back if not; of the others the value.
   */
  function ValueStored(s: State, i: Instruction, n: RegNo): Word
    requires i.Block?
  {
    if n == 15 then Pack(s.r15.(addr := Align(s.pc + 4)))
    else if n == i.rn && i.writeBack && Listing(i.list, n) != {} then Beyond(i, Reg(s, i.rn))
    else BankReg(s, UserBank(s, i), n)
  }

  lemma {:induction false} ValueStoredIs(s: State, i: Instruction, n: RegNo, u: State)
    requires i.Block? && i.rn < 15 && Banked(s) && u.regs == BaseMoved(s, i)
    requires u == s.(regs := u.regs, mem := u.mem)
    ensures BlockValue(u, BlockPlan(s, i), n) == ValueStored(s, i, n)
  {
    hide Bank, Pack, Beyond, BlockStart, PcBase, Align, Count;
    CountIsCard(i.list, n);
    PlacesApart(s, UserBank(s, i), n, i.rn);
    PlacesApart(s, UserBank(s, i), i.rn, i.rn);
  }

  /**
   * STM: the registers of the list go to the words of the block in ascending order, the base is moved past the block if
   * it is to be written back, and no other word and no other register changes.
   */
  lemma {:induction false} BlockStored(s: State, i: Instruction, m: Memory) returns (t: State)
    requires InRam(s, i, m) && !i.load
    ensures Exec(s, i) == Done(t)
    ensures t == s.(regs := BaseMoved(s, i), mem := t.mem, watch := t.watch)
    ensures t.watch <==> s.watch || AnyWatched(s, i, s.stops.stores)
    ensures SameShape(m, t.mem)
    ensures forall n: RegNo :: BitAt(i.list, n) ==>
              var a := Spot(i, Reg(s, i.rn), n);
              HasWord(t.mem, a) && WordAt(t.mem, a) == ValueStored(s, i, n)
    ensures forall b: nat :: OutsideOf(m, BlockPlan(s, i), 0, b) ==>
              HasWord(t.mem, b) && WordAt(t.mem, b) == WordAt(m, b)
  {
    hide Room, BlockEnd, Banked, Transfer, PcBase, Paged, HasWord, WordAt, SameShape, Simple, Spot, Beyond, ValueStored,
         BlockValue, Count, BaseMoved, Watches, AnyWatched;
    BaseWritten(s, i, m);
    AnyWatchedIs(s, i, m, s.stops.stores);
    var u := s.(regs := BaseMoved(s, i), mem := m);
    var p := BlockPlan(s, i);
    t := StoresAll(u, p, 0);
    RoomEnds(m, Needs(i.load, s.r15.mode), p.start, Count(i.list, 16));
    forall n: RegNo | BitAt(i.list, n)
      ensures var a := Spot(i, Reg(s, i.rn), n);
              HasWord(t.mem, a) && WordAt(t.mem, a) == ValueStored(s, i, n)
    {
      assert Listed(p, 0, n);
      SpotIs(i, Reg(s, i.rn), n);
      ValueStoredIs(s, i, n, u);
    }
  }

  /**
   * r15 is written with w in t: the next instruction is fetched from the address in w. With the flags w replaces these
   * as well, and outside user mode the interrupt masks and the mode.
   */
  predicate Landed(s: State, t: State, w: Word, flags: bool) {
    var st := Unpack(w);
    && (t.pc + 4) % 0x400_0000 == st.addr
    && t.r15 == if !flags then s.r15.(addr := st.addr)
                else if s.r15.mode == USR then st.(i := s.r15.i, f := s.r15.f, mode := USR)
                else st
  }

  lemma WritePcLands(s: State, w: Word, flags: bool)
    ensures Landed(s, WritePc(s, w, flags), w, flags)
  {
    hide Align, Bits;
    BackFour(Align(w));
  }

  lemma BackFour(value: Word)
    ensures (Wrap(value - 4) + 4) % 0x400_0000 == value % 0x400_0000
  {
  }

  lemma LoadLands(s: State, u: State, i: Instruction, w: Word)
    requires i.Block? && i.load && BitAt(i.list, 15) && u.r15 == s.r15
    ensures Landed(s, WritePc(u, w, BlockFlags(s, i)), w, i.hat)
  {
    hide WritePc, BitAt, Unpack;
    WritePcLands(u, w, BlockFlags(s, i));
  }

  /** A word of the block is watched. */
  predicate AnyWatched(s: State, i: Instruction, stops: set<nat>)
    requires i.Block?
  {
    exists n: RegNo :: BitAt(i.list, n) && Spot(i, Reg(s, i.rn), n) / 4 in stops
  }

  lemma {:induction false} AnyWatchedIs(s: State, i: Instruction, m: Memory, stops: set<nat>)
    requires InRam(s, i, m)
    ensures Watches(stops, BlockPlan(s, i), 0) <==> AnyWatched(s, i, stops)
  {
    hide BitAt, Room, BlockEnd, Banked, PcBase, Paged, Spot, Count;
    var p := BlockPlan(s, i);
    RoomEnds(m, Needs(i.load, s.r15.mode), p.start, Count(i.list, 16));
    forall n: RegNo | BitAt(i.list, n) ensures Spot(i, Reg(s, i.rn), n) == AddressOf(p, n) && Listed(p, 0, n) {
      SpotIs(i, Reg(s, i.rn), n);
    }
    if n: RegNo :| Listed(p, 0, n) && AddressOf(p, n) / 4 in stops {
      assert BitAt(i.list, n);
    }
    if n: RegNo :| BitAt(i.list, n) && Spot(i, Reg(s, i.rn), n) / 4 in stops {
      assert Listed(p, 0, n);
    }
  }

  lemma RoomEnds(m: Memory, mode: Mode, start: nat, n: nat)
    requires Room(m, mode, start, n)
    ensures start + 4 * n <= 0x400_0000
  {
  }

  /**
   * LDM: those words come into the registers of the list, the base moves unless it is loaded, r15 is loaded with its
   * flags if the instruction says so, and no other register and no word of memory changes.
   */
  lemma {:induction false} BlockLoaded(s: State, i: Instruction, m: Memory) returns (t: State)
    requires InRam(s, i, m) && i.load
    ensures Exec(s, i) == Done(t)
    ensures t == s.(regs := t.regs, mem := m, watch := t.watch, r15 := t.r15, pc := t.pc)
    ensures t.watch <==> s.watch || AnyWatched(s, i, s.stops.loads)
    ensures forall n: RegNo :: BitAt(i.list, n) ==> HasWord(m, Spot(i, Reg(s, i.rn), n))
    ensures forall n: RegNo :: n < 15 && BitAt(i.list, n) ==>
              t.regs[Place(s, UserBank(s, i), n)] == WordAt(m, Spot(i, Reg(s, i.rn), n))
    ensures !BitAt(i.list, i.rn) ==> t.regs[BasePlace(s, i)] == BaseMoved(s, i)[BasePlace(s, i)]
    ensures forall k: Index :: k != BasePlace(s, i) && !Hit(s, BlockPlan(s, i), 0, k) ==> t.regs[k] == s.regs[k]
    ensures if BitAt(i.list, 15) then Landed(s, t, WordAt(m, Spot(i, Reg(s, i.rn), 15)), i.hat)
            else t.r15 == s.r15 && t.pc == s.pc
  {
    hide Room, BlockEnd, Banked, Transfer, PcBase, Paged, HasWord, WordAt, Simple, Spot, Beyond, Count, Unpack, Align,
         Watches, AnyWatched;
    BaseWritten(s, i, m);
    AnyWatchedIs(s, i, m, s.stops.loads);
    var u := s.(regs := BaseMoved(s, i), mem := m);
    var p := BlockPlan(s, i);
    t := LoadsAll(u, p, 0);
    RoomEnds(m, Needs(i.load, s.r15.mode), p.start, Count(i.list, 16));
    forall n: RegNo | BitAt(i.list, n)
      ensures HasWord(m, Spot(i, Reg(s, i.rn), n)) && Spot(i, Reg(s, i.rn), n) == AddressOf(p, n)
    {
      assert Listed(p, 0, n);
      SpotIs(i, Reg(s, i.rn), n);
    }
    forall n: RegNo | n < 15 && BitAt(i.list, n)
      ensures t.regs[Place(s, UserBank(s, i), n)] == WordAt(m, Spot(i, Reg(s, i.rn), n))
    {
      assert Listed(p, 0, n) && Place(u, p.userBank, n) == Place(s, p.userBank, n);
    }
    SamePlaces(s, u, p);
    if BitAt(i.list, 15) {
      LoadLands(s, u, i, WordAt(m, Spot(i, Reg(s, i.rn), 15)));
    }
    if !BitAt(i.list, i.rn) {
      BaseNotHit(s, i, m);
    }
  }

  lemma {:induction false} SamePlaces(s: State, u: State, p: Plan)
    requires u.effective == s.effective
    ensures forall k: Index :: Hit(s, p, 0, k) <==> Hit(u, p, 0, k)
  {
    assert forall n: RegNo :: Place(s, p.userBank, n) == Place(u, p.userBank, n);
  }

  lemma {:induction false} BaseNotHit(s: State, i: Instruction, m: Memory)
    requires InRam(s, i, m) && !BitAt(i.list, i.rn)
    ensures !Hit(s, BlockPlan(s, i), 0, BasePlace(s, i))
  {
    hide Room, BlockEnd, BlockStart, PcBase, Banked, Paged;
    var p := BlockPlan(s, i);
    forall n: RegNo | Listed(p, 0, n) ensures Place(s, p.userBank, n) != BasePlace(s, i) {
      PlacesApart(s, p.userBank, n, i.rn);
    }
  }

  // ----- the inverse -----

  /** STM and LDM with write-back and without base and r15 in the list, by the start and end of the block. */
  lemma {:induction false} RegularStored(s: State, i: Instruction, m: Memory) returns (t: State)
    requires Regular(s, i, m) && !i.load
    ensures Exec(s, i) == Done(t)
    ensures t == s.(regs := s.regs[BasePlace(s, i) := BlockEnd(i, Reg(s, i.rn))], mem := t.mem, watch := t.watch)
    ensures SameShape(m, t.mem)
    ensures forall n: RegNo :: BitAt(i.list, n) ==>
              var a := BlockStart(i, Reg(s, i.rn)) + 4 * Count(i.list, n);
              HasWord(t.mem, a) && WordAt(t.mem, a) == BankReg(s, UserBank(s, i), n)
  {
    hide Room, BlockEnd, BlockStart, Exec, HasWord, WordAt, SameShape, Banked, Spot, Beyond, Paged, Count, OutsideOf;
    t := BlockStored(s, i, m);
    BeyondIs(i, Reg(s, i.rn));
    RoomEnds(m, Needs(i.load, s.r15.mode), BlockStart(i, Reg(s, i.rn)), Count(i.list, 16));
    forall n: RegNo | BitAt(i.list, n)
      ensures Spot(i, Reg(s, i.rn), n) == BlockStart(i, Reg(s, i.rn)) + 4 * Count(i.list, n)
    {
      SpotIs(i, Reg(s, i.rn), n);
    }
  }

  lemma {:induction false} RegularLoaded(s: State, i: Instruction, m: Memory) returns (t: State)
    requires Regular(s, i, m) && i.load
    ensures Exec(s, i) == Done(t)
    ensures t == s.(regs := t.regs, mem := m, watch := t.watch)
    ensures BankReg(t, UserBank(s, i), i.rn) == BlockEnd(i, Reg(s, i.rn))
    ensures forall n: RegNo :: BitAt(i.list, n) ==>
              var a := BlockStart(i, Reg(s, i.rn)) + 4 * Count(i.list, n);
              HasWord(m, a) && BankReg(t, UserBank(s, i), n) == WordAt(m, a)
    ensures forall k: Index :: k != BasePlace(s, i) && !Hit(s, BlockPlan(s, i), 0, k) ==> t.regs[k] == s.regs[k]
  {
    hide Room, BlockEnd, BlockStart, Exec, HasWord, WordAt, Bank, Spot, Beyond, Paged, Count, Hit, Pack, BlockPlan;
    t := BlockLoaded(s, i, m);
    BeyondIs(i, Reg(s, i.rn));
    RoomEnds(m, Needs(i.load, s.r15.mode), BlockStart(i, Reg(s, i.rn)), Count(i.list, 16));
    PlacesApart(s, UserBank(s, i), i.rn, i.rn);
    forall n: RegNo | BitAt(i.list, n)
      ensures Spot(i, Reg(s, i.rn), n) == BlockStart(i, Reg(s, i.rn)) + 4 * Count(i.list, n)
      ensures Place(s, UserBank(s, i), n) != 15
    {
      SpotIs(i, Reg(s, i.rn), n);
      PlacesApart(s, UserBank(s, i), n, n);
    }
  }

  lemma {:induction false} WrapBack(x: Word, n: nat)
    requires n <= 64
    ensures Wrap(Wrap(x + n) - n) == x && Wrap(Wrap(x - n) + n) == x
    ensures Wrap(x - n) == x <==> n == 0
    ensures Wrap(Wrap(x - n) + 4) == Wrap(x + 4) <==> n == 0
  {
    hide Wrap;
    NearWraps(x + n);
    NearWraps(x - n);
    NearWraps(Wrap(x + n) - n);
    NearWraps(Wrap(x - n) + n);
    NearWraps(Wrap(x - n) + 4);
    NearWraps(x + 4);
  }

  lemma NearWraps(x: int)
    requires -0x1_0000_0000 <= x < 0x2_0000_0000
    ensures Wrap(x) == if x < 0 then x + 0x1_0000_0000 else if x >= 0x1_0000_0000 then x - 0x1_0000_0000 else x
  {
  }

  lemma {:induction false} InverseAddresses(i: Instruction, j: Instruction, base: Word)
    requires i.Block? && Inverse(i, j)
    ensures BlockEnd(j, BlockEnd(i, base)) == base
    ensures BlockStart(j, BlockEnd(i, base)) == BlockStart(i, base)
    ensures BlockStart(j, base) == BlockStart(i, base) <==> Count(i.list, 16) == 0
  {
    hide Count;
    WrapBack(base, 4 * Count(i.list, 16));
  }

  /** The base is read and written in the same place: not so for `^` with a banked base in a privileged mode. */
  predicate OneBase(s: State, i: Instruction)
    requires i.Block?
  {
    BasePlace(s, i) == s.effective[i.rn]
  }

  /** Exactly when the inverse mode finds the block again. */
  lemma {:induction false} InverseFindsBlock(s: State, i: Instruction, m: Memory, after: State, j: Instruction)
    requires Regular(s, i, m) && !i.load && Inverse(i, j) && Exec(s, i) == Done(after)
    ensures BlockStart(j, Reg(after, i.rn)) == BlockStart(i, Reg(s, i.rn)) <==>
            OneBase(s, i) || Count(i.list, 16) == 0
  {
    hide Room, BlockEnd, BlockStart, Exec, HasWord, WordAt, SameShape, Pack, Hit, BlockPlan, Bank, Paged, Count;
    var done := RegularStored(s, i, m);
    RegularSlots(s, i, m);
    InverseAddresses(i, j, Reg(s, i.rn));
    if Count(i.list, 16) == 0 {
      NothingMoves(i, Reg(s, i.rn));
    }
  }

  lemma {:induction false} NothingMoves(i: Instruction, base: Word)
    requires i.Block? && Count(i.list, 16) == 0
    ensures BlockEnd(i, base) == base
  {
    hide Count;
  }

  /**
   * Storing and then, whatever has happened to the registers but the base in between, loading with the inverse mode:
   * every register of the list and the base are as they were before the store.
   */
  lemma {:induction false} StoreThenLoad(s: State, i: Instruction, m: Memory, after: State, t: State, j: Instruction)
    returns (u: State)
    requires Regular(s, i, m) && !i.load && Inverse(i, j) && OneBase(s, i)
    requires Exec(s, i) == Done(after)
    requires t.mem == after.mem && t.effective == s.effective && t.r15.mode == s.r15.mode
    requires Reg(t, i.rn) == Reg(after, i.rn)
    ensures Exec(t, j) == Done(u) && u == t.(regs := u.regs, watch := u.watch)
    ensures Reg(u, i.rn) == Reg(s, i.rn)
    ensures forall n: RegNo :: BitAt(i.list, n) ==> BankReg(u, UserBank(s, i), n) == BankReg(s, UserBank(s, i), n)
    ensures forall k: Index :: k != s.effective[i.rn] && !Hit(s, BlockPlan(s, i), 0, k) ==> u.regs[k] == t.regs[k]
  {
    hide Room, BlockEnd, BlockStart, Exec, HasWord, WordAt, SameShape, Pack, Regular, Hit, BlockPlan, Bank,
         Count, Paged, Unpack;
    var done := RegularStored(s, i, m);
    RegularSlots(s, i, m);
    InverseAddresses(i, j, Reg(s, i.rn));
    InverseRegular(s, i, m, t, j);
    u := RegularLoaded(t, j, t.mem);
    HitSame(s, i, m, t, j);
  }

  lemma {:induction false} RegularSlots(s: State, i: Instruction, m: Memory)
    requires Regular(s, i, m)
    ensures i.Block? && i.rn < 15 && s.effective[i.rn] != 15 && BasePlace(s, i) != 15
  {
    hide Room, BlockStart, Paged, BlockPlan;
    PlacesApart(s, false, i.rn, i.rn);
    PlacesApart(s, UserBank(s, i), i.rn, i.rn);
  }

  /** A block that is present needs no paging. */
  lemma {:induction false} PresentPaged(m: Memory, mode: Mode, p: Plan, rs: nat)
    requires rs <= 16 && Room(m, mode, p.start, Count(p.list, 16))
    ensures Paged(m, p, rs) == Some(m)
    decreases 16 - rs
  {
    hide RoomAt, Touch, PageOf;
    if rs < 16 {
      if BitAt(p.list, rs) {
        CountGrows(p.list, rs, 16);
        assert RoomAt(m, mode, p.start + 4 * Count(p.list, rs));
        PageInSpace(AddressOf(p, rs));
        RoomPresent(m, mode, AddressOf(p, rs));
      }
      PresentPaged(m, mode, p, rs + 1);
    }
  }

  lemma PageInSpace(a: nat)
    requires a < 0x400_0000
    ensures PageOf(a) < NUM_PAGE_TABLES
  {
  }

  lemma RoomForLoads(m: Memory, mode: Mode, start: nat, n: nat)
    requires Room(m, mode, start, n)
    ensures Room(m, SUP, start, n)
  {
    forall k: nat | k < n ensures RoomAt(m, SUP, start + 4 * k) {
      assert RoomAt(m, mode, start + 4 * k);
    }
  }

  lemma {:induction false} InverseRegular(s: State, i: Instruction, m: Memory, t: State, j: Instruction)
    requires Regular(s, i, m) && !i.load && Inverse(i, j) && Reg(t, i.rn) == BlockEnd(i, Reg(s, i.rn))
    requires SameShape(m, t.mem) && t.effective == s.effective && t.r15.mode == s.r15.mode
    ensures Regular(t, j, t.mem) && UserBank(t, j) == UserBank(s, i)
  {
    hide Room, BlockEnd, BlockStart, Reg, SameShape, Paged;
    var start, n := BlockStart(i, Reg(s, i.rn)), Count(i.list, 16);
    InverseAddresses(i, j, Reg(s, i.rn));
    RoomKept(m, t.mem, s.r15.mode, start, n);
    RoomForLoads(t.mem, s.r15.mode, start, n);
    PresentPaged(t.mem, SUP, BlockPlan(t, j), 0);
    StillBanked(s, t);
  }

  lemma {:induction false} HitSame(s: State, i: Instruction, m: Memory, t: State, j: Instruction)
    requires Regular(s, i, m) && Inverse(i, j) && t.effective == s.effective && t.r15.mode == s.r15.mode
    ensures forall k: Index :: Hit(s, BlockPlan(s, i), 0, k) <==> Hit(t, BlockPlan(t, j), 0, k)
    ensures BasePlace(s, i) == BasePlace(t, j)
  {
    hide Room, BlockEnd, BlockStart, PcBase, Banked, Paged;
    var p, q := BlockPlan(s, i), BlockPlan(t, j);
    assert forall n: RegNo :: Place(s, p.userBank, n) == Place(t, q.userBank, n);
    assert forall n: RegNo :: Listed(p, 0, n) <==> Listed(q, 0, n);
  }
}
