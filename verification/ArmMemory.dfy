/**
 * The page table and demand paging of the emulator (step.c:284-333, init.c:301-381, instructions.c:161-222).
 * A device is an environment: the accesses made to it are recorded on `bus`, and what it answers is the next of
 * `answers`, a sequence every statement leaves open.
 */
module ArmMemory {
  import opened Prelude

  const PAGE_SIZE: nat := 0x1000
  const NUM_PAGE_TABLES: nat := 0x4000
  const WORDS_PER_PAGE: nat := 0x400

  type Words = w: seq<Word> | |w| == 0x400 witness seq(0x400, i => 0)

  /** A page of RAM, or one that a device is mapped to. */
  datatype Page = Ram(words: Words, writable: bool) | Mapped(device: nat)

  datatype Device = Device(id: Word, base: Word, operates: bool)

  datatype Kind = ReadWord | ReadByte | WriteWord | WriteByte | Operate(arg0: Word)

  datatype Access = Access(device: nat, kind: Kind, offset: Word, value: Word)

  datatype Memory = Memory(pages: map<nat, Page>, free: Word, devices: seq<Device>, bus: seq<Access>,
                           answers: seq<Word>)

  datatype Code = Ok | InvalidArgs | FaultFault | MemoryError | NoSuchDevice | AlreadyMapped

  function PageOf(addr: nat): nat {
    addr / 0x1000
  }

  function WordOf(addr: nat): (k: nat)
    ensures k < WORDS_PER_PAGE
  {
    addr % 0x1000 / 4
  }

  function ZeroPage(): Words {
    seq(0x400, i => 0)
  }

  // ----- demand paging -----

  /** fault: a page of RAM where there was none, if there is RAM left. */
  function Fault(m: Memory, addr: Word): (Memory, Code) {
    var p := PageOf(addr);
    if p >= NUM_PAGE_TABLES then (m, InvalidArgs)
    else if p in m.pages then (m, FaultFault)
    else if m.free < PAGE_SIZE then (m, MemoryError)
    else (m.(pages := m.pages[p := Ram(ZeroPage(), p != 0)], free := m.free - PAGE_SIZE), Ok)
  }

  /** The memory in which the page of an address is present, unless that fails. */
  function Touch(m: Memory, addr: Word): (r: Option<Memory>)
    ensures r.Some? ==> PageOf(addr) in r.value.pages
  {
    if PageOf(addr) in m.pages then Some(m)
    else
      var (t, code) := Fault(m, addr);
      if code == Ok then Some(t) else None
  }

  // ----- bytes of a word -----

  function ByteOf(w: Word, k: nat): Byte {
    if k == 0 then w % 0x100
    else if k == 1 then w / 0x100 % 0x100
    else if k == 2 then w / 0x1_0000 % 0x100
    else w / 0x100_0000
  }

  function FromBytes(b0: Byte, b1: Byte, b2: Byte, b3: Byte): Word {
    b0 + 0x100 * b1 + 0x1_0000 * b2 + 0x100_0000 * b3
  }

  /** The word with byte k replaced. */
  function PutByte(w: Word, k: nat, b: Byte): Word {
    FromBytes(if k == 0 then b else ByteOf(w, 0), if k == 1 then b else ByteOf(w, 1),
              if k == 2 then b else ByteOf(w, 2), if k == 3 then b else ByteOf(w, 3))
  }

  lemma {:induction false} BytesOfWord(b0: Byte, b1: Byte, b2: Byte, b3: Byte)
    ensures var w := FromBytes(b0, b1, b2, b3);
            ByteOf(w, 0) == b0 && ByteOf(w, 1) == b1 && ByteOf(w, 2) == b2 && ByteOf(w, 3) == b3
  {
    var w := FromBytes(b0, b1, b2, b3);
    assert w == b0 + 0x100 * (b1 + 0x100 * b2 + 0x1_0000 * b3);
    assert w / 0x100 == b1 + 0x100 * (b2 + 0x100 * b3);
    assert w == (b0 + 0x100 * b1) + 0x1_0000 * (b2 + 0x100 * b3);
    assert w / 0x1_0000 == b2 + 0x100 * b3;
    assert w == (b0 + 0x100 * b1 + 0x1_0000 * b2) + 0x100_0000 * b3;
  }

  // ----- devices -----

  function Base(m: Memory, d: nat): Word {
    if d < |m.devices| then m.devices[d].base else 0
  }

  function Tell(m: Memory, d: nat, kind: Kind, offset: Word, value: Word): Memory {
    m.(bus := m.bus + [Access(d, kind, offset, value)])
  }

  function Ask(m: Memory, d: nat, kind: Kind, offset: Word, value: Word): (Word, Memory) {
    if m.answers == [] then (0, Tell(m, d, kind, offset, value))
    else (m.answers[0], Tell(m, d, kind, offset, value).(answers := m.answers[1..]))
  }

  // ----- loads and stores -----

  /** perform_load */
  function Load(m: Memory, addr: Word, byte: bool): (Word, Memory)
    requires PageOf(addr) in m.pages
  {
    match m.pages[PageOf(addr)]
    case Ram(words, _) => (if byte then ByteOf(words[WordOf(addr)], addr % 4) else words[WordOf(addr)], m)
    case Mapped(d) => Ask(m, d, if byte then ReadByte else ReadWord, Wrap(addr - Base(m, d)), 0)
  }

  function PutWord(m: Memory, addr: Word, value: Word): Memory
    requires PageOf(addr) in m.pages && m.pages[PageOf(addr)].Ram?
  {
    var page := m.pages[PageOf(addr)];
    m.(pages := m.pages[PageOf(addr) := page.(words := page.words[WordOf(addr) := value])])
  }

  /** perform_store of a word */
  function Store(m: Memory, addr: Word, value: Word): Memory
    requires PageOf(addr) in m.pages
  {
    match m.pages[PageOf(addr)]
    case Ram(_, _) => PutWord(m, addr, value)
    case Mapped(d) => Tell(m, d, WriteWord, Wrap(addr - Base(m, d)), value)
  }

  /** The store of a byte in single_data_transfer_instruction. */
  function StoreByte(m: Memory, addr: Word, b: Byte): Memory
    requires PageOf(addr) in m.pages
  {
    match m.pages[PageOf(addr)]
    case Ram(words, _) => PutWord(m, addr, PutByte(words[WordOf(addr)], addr % 4, b))
    case Mapped(d) => Tell(m, d, WriteByte, Wrap(addr - Base(m, d)), b)
  }

  // ----- devices in the address space -----

  predicate MapArgs(start: Word, end: Word) {
    && start % PAGE_SIZE == 0 && end % PAGE_SIZE == 0
    && 0 < PageOf(start) < NUM_PAGE_TABLES && 0 < PageOf(end) < NUM_PAGE_TABLES
  }

  predicate RangeFree(m: Memory, from: nat, to: nat) {
    forall p: nat :: from <= p < to ==> p !in m.pages
  }

  predicate Within(p: nat, from: nat, to: nat) {
    from <= p < to
  }

  function WithRange(m: Memory, d: nat, from: nat, to: nat): map<nat, Page> {
    m.pages + map p: nat | from <= p < to && Within(p, from, to) :: Mapped(d)
  }

  /** map_memory */
  function MapMemory(m: Memory, d: Word, start: Word, end: Word): (Memory, Code) {
    if end <= start then (m, InvalidArgs)
    else if d >= |m.devices| then (m, NoSuchDevice)
    else if !MapArgs(start, end) then (m, InvalidArgs)
    else if !RangeFree(m, PageOf(start), PageOf(end)) then (m, AlreadyMapped)
    else (m.(pages := WithRange(m, d, PageOf(start), PageOf(end)),
             devices := m.devices[d := m.devices[d].(base := start)]), Ok)
  }

  const HW_DEVICES_MAX: nat := 64

  /** add_hardware */
  function Attach(m: Memory, d: Device): Memory {
    if |m.devices| < HW_DEVICES_MAX then m.(devices := m.devices + [d]) else m
  }

  // ----- what paging keeps -----

  function RamPages(m: Memory): set<nat> {
    set p | p in m.pages && m.pages[p].Ram?
  }

  function RamBytes(m: Memory): int {
    m.free + 0x1000 * |RamPages(m)|
  }

  /** The page table holds no page outside the address space, and page zero is neither a device nor writable. */
  predicate Valid(m: Memory) {
    && (forall p :: p in m.pages ==> p < NUM_PAGE_TABLES)
    && (0 in m.pages ==> m.pages[0].Ram? && !m.pages[0].writable)
  }

  predicate SameKind(a: Page, b: Page) {
    if a.Ram? then b.Ram? && b.writable == a.writable else b == a
  }

  /** Pages stay what they are, RAM is only moved from free to paged in, and validity is kept. */
  predicate Grows(m: Memory, t: Memory) {
    && (forall p :: p in m.pages ==> p in t.pages && SameKind(m.pages[p], t.pages[p]))
    && RamBytes(t) == RamBytes(m)
    && |m.devices| <= |t.devices|
    && (Valid(m) ==> Valid(t))
  }

  lemma {:induction false} SamePagesGrow(m: Memory, t: Memory)
    requires t.pages == m.pages && t.free == m.free && |m.devices| <= |t.devices|
    ensures Grows(m, t)
  {
    assert RamPages(t) == RamPages(m);
  }

  lemma {:induction false} FaultGrows(m: Memory, addr: Word)
    ensures Grows(m, Fault(m, addr).0)
  {
    hide RamBytes, ZeroPage;
    var (t, code) := Fault(m, addr);
    if code == Ok {
      FaultKeepsRam(m, addr);
    }
  }

  lemma {:induction false} FaultKeepsRam(m: Memory, addr: Word)
    requires Fault(m, addr).1 == Ok
    ensures RamBytes(Fault(m, addr).0) == RamBytes(m)
  {
    hide ZeroPage;
    var t := Fault(m, addr).0;
    assert RamPages(t) == RamPages(m) + {PageOf(addr)};
    assert PageOf(addr) !in RamPages(m);
  }

  lemma {:induction false} PutWordGrows(m: Memory, addr: Word, value: Word)
    requires PageOf(addr) in m.pages && m.pages[PageOf(addr)].Ram?
    ensures Grows(m, PutWord(m, addr, value))
  {
    assert RamPages(PutWord(m, addr, value)) == RamPages(m);
  }

  lemma {:induction false} TellGrows(m: Memory, d: nat, kind: Kind, offset: Word, value: Word)
    ensures Grows(m, Tell(m, d, kind, offset, value)) && Grows(m, Ask(m, d, kind, offset, value).1)
  {
    SamePagesGrow(m, Tell(m, d, kind, offset, value));
    SamePagesGrow(m, Ask(m, d, kind, offset, value).1);
  }

  lemma {:induction false} GrowsTransitive(a: Memory, b: Memory, c: Memory)
    requires Grows(a, b) && Grows(b, c)
    ensures Grows(a, c)
  {
  }

  lemma {:induction false} TouchGrows(m: Memory, addr: Word)
    requires Touch(m, addr).Some?
    ensures Grows(m, Touch(m, addr).value)
  {
    FaultGrows(m, addr);
  }

  lemma {:induction false} LoadGrows(m: Memory, addr: Word, byte: bool)
    requires PageOf(addr) in m.pages
    ensures Grows(m, Load(m, addr, byte).1)
  {
    match m.pages[PageOf(addr)]
    case Ram(_, _) =>
    case Mapped(d) => TellGrows(m, d, if byte then ReadByte else ReadWord, Wrap(addr - Base(m, d)), 0);
  }

  lemma {:induction false} StoreGrows(m: Memory, addr: Word, value: Word)
    requires PageOf(addr) in m.pages
    ensures Grows(m, Store(m, addr, value))
  {
    match m.pages[PageOf(addr)]
    case Ram(_, _) => PutWordGrows(m, addr, value);
    case Mapped(d) => TellGrows(m, d, WriteWord, Wrap(addr - Base(m, d)), value);
  }

  lemma {:induction false} StoreByteGrows(m: Memory, addr: Word, b: Byte)
    requires PageOf(addr) in m.pages
    ensures Grows(m, StoreByte(m, addr, b))
  {
    match m.pages[PageOf(addr)]
    case Ram(words, _) => PutWordGrows(m, addr, PutByte(words[WordOf(addr)], addr % 4, b));
    case Mapped(d) => TellGrows(m, d, WriteByte, Wrap(addr - Base(m, d)), b);
  }

  lemma {:induction false} MapMemoryGrows(m: Memory, d: Word, start: Word, end: Word)
    ensures Grows(m, MapMemory(m, d, start, end).0)
    ensures MapMemory(m, d, start, end).1 != Ok ==> MapMemory(m, d, start, end).0 == m
  {
    var (t, code) := MapMemory(m, d, start, end);
    if code == Ok {
      assert RamPages(t) == RamPages(m);
    }
  }

  /** Ranges mapped successfully one after the other, with any paging in between, do not overlap. */
  lemma MappingsDisjoint(m: Memory, d: Word, start: Word, end: Word, t: Memory, d': Word, start': Word, end': Word)
    requires MapMemory(m, d, start, end).1 == Ok
    requires Grows(MapMemory(m, d, start, end).0, t) && MapMemory(t, d', start', end').1 == Ok
    ensures end <= start' || end' <= start
  {
    MappedStays(m, d, start, end, t, start');
    MappedStays(m, d, start, end, t, start);
    WasFree(t, d', start', end', start');
    WasFree(t, d', start', end', start);
  }

  lemma {:induction false} MappedStays(m: Memory, d: Word, start: Word, end: Word, t: Memory, a: Word)
    requires MapMemory(m, d, start, end).1 == Ok && Grows(MapMemory(m, d, start, end).0, t)
    ensures a % PAGE_SIZE == 0 && start <= a < end ==> PageOf(a) in t.pages
  {
    var first := MapMemory(m, d, start, end).0;
    if a % PAGE_SIZE == 0 && start <= a < end {
      PageInRange(start, a, end);
      assert PageOf(a) in first.pages;
    }
  }

  lemma {:induction false} WasFree(m: Memory, d: Word, start: Word, end: Word, a: Word)
    requires MapMemory(m, d, start, end).1 == Ok
    ensures a % PAGE_SIZE == 0 && start <= a < end ==> PageOf(a) !in m.pages
  {
    if a % PAGE_SIZE == 0 && start <= a < end {
      PageInRange(start, a, end);
    }
  }

  lemma {:induction false} PageInRange(a: Word, b: Word, c: Word)
    requires a % PAGE_SIZE == 0 && b % PAGE_SIZE == 0 && c % PAGE_SIZE == 0
    ensures a <= b < c ==> PageOf(a) <= PageOf(b) < PageOf(c)
  {
  }

  /** A byte put into a word is there, and the other three stay. */
  lemma {:induction false} BytesOfPut(w: Word, k: nat, b: Byte, j: nat)
    requires k < 4 && j < 4
    ensures ByteOf(PutByte(w, k, b), j) == if j == k then b else ByteOf(w, j)
  {
    BytesOfWord(if k == 0 then b else ByteOf(w, 0), if k == 1 then b else ByteOf(w, 1),
                if k == 2 then b else ByteOf(w, 2), if k == 3 then b else ByteOf(w, 3));
  }
}
