// The state behind mm/memory.c and mm/swap.c, seen as a value: page-table entries laid out flat
// over the 4 GB linear space, physical pages, the reference bytes of mem_map[], and the swap area.

module VmState {
  import opened Kernel

  const TABLE_SIZE: nat := 1024          // entries in one page table, and tables in the directory
  const VM_SIZE: nat := 1048576          // pages in the linear address space
  const TASK_PAGES: nat := 16384         // pages of one task (64 MB)
  const TASK_DIRS: nat := 16             // directory slots of one task
  const LIBRARY_PAGE: nat := 15360       // LIBRARY_OFFSET, in pages
  const LOW_PAGE: nat := 256             // LOW_MEM, in pages
  const PAGING_PAGES: nat := 3840        // length of mem_map[]
  const SWAP_BITS: nat := 32768
  const USED: byte := 100

  type Page = p: seq<byte> | |p| == 4096 witness seq(4096, _ => 0)

  function Zeros(n: nat): (s: seq<byte>)
    ensures |s| == n && forall i: nat | i < n :: s[i] == 0
  {
    seq(n, _ => 0)
  }

  function ZeroPage(): Page { Zeros(4096) }

  // ---------------------------------------------------------------- what a page fault loads

  /** An executable or library, reduced to its inode number, the end_data of its header and its blocks
      (a hole is None). exec.c refuses an image above 48 MB, hence the bound. */
  datatype FileImage = FileImage(inode: nat, endData: nat, blocks: seq<Option<Block>>)
  type File = f: FileImage | f.endData <= 0x3000000 witness FileImage(0, 0, [])

  datatype Program = Program(executable: Option<File>, library: Option<File>)

  function FileBlock(f: File, k: nat): Block {
    if k < |f.blocks| && f.blocks[k].Some? then f.blocks[k].value else Zeros(1024)
  }

  /** Four consecutive blocks of a file, starting at block k. */
  function FilePage(f: File, k: nat): Page {
    FileBlock(f, k) + FileBlock(f, k + 1) + FileBlock(f, k + 2) + FileBlock(f, k + 3)
  }

  /** Everything from byte n on is zero. */
  function Clipped(p: Page, n: nat): Page {
    if n >= 4096 then p else p[..n] + Zeros(4096 - n)
  }

  /** The page a demand load produces at logical page lp of a task running program g. */
  function Content(g: Program, lp: nat): Page {
    if lp >= LIBRARY_PAGE then
      if g.library.Some? then FilePage(g.library.value, 1 + (lp - LIBRARY_PAGE) * 4) else ZeroPage()
    else if g.executable.Some? && lp * 4096 < g.executable.value.endData then
      Clipped(FilePage(g.executable.value, 1 + lp * 4), g.executable.value.endData - lp * 4096)
    else
      ZeroPage()
  }

  /** The file logical page lp of program g is loaded from, if any. */
  function FileAt(g: Program, lp: nat): Option<File> {
    if lp >= LIBRARY_PAGE then g.library
    else if g.executable.Some? && lp * 4096 < g.executable.value.endData then g.executable
    else None
  }

  /** The first block of logical page lp in that file. */
  function BlockAt(lp: nat): nat {
    if lp >= LIBRARY_PAGE then 1 + (lp - LIBRARY_PAGE) * 4 else 1 + lp * 4
  }

  function EndData(g: Program): nat {
    if g.executable.Some? then g.executable.value.endData else 0
  }

  lemma ContentIs(g: Program, lp: nat)
    ensures match FileAt(g, lp)
            case None => Content(g, lp) == ZeroPage()
            case Some(f) =>
              Content(g, lp) == if lp * 4096 < EndData(g)
                                then Clipped(FilePage(f, BlockAt(lp)), EndData(g) - lp * 4096)
                                else FilePage(f, BlockAt(lp))
  {
  }

  /** Byte o of logical page lp is that of the file behind its header, which is one block; from the end of the
      data on it is zero, and a library has no end of data of its own. */
  lemma ContentAt(g: Program, lp: nat, o: nat)
    requires o < PAGE_SIZE
    ensures lp < LIBRARY_PAGE ==>
      Content(g, lp)[o] == match g.executable
        case Some(f) => if lp * 4096 + o < f.endData then FileByte(f, 1024 + lp * 4096 + o) else 0
        case None => 0
    ensures lp >= LIBRARY_PAGE ==>
      Content(g, lp)[o] == match g.library
        case Some(f) => FileByte(f, 1024 + (lp - LIBRARY_PAGE) * 4096 + o)
        case None => 0
  {
    if g.executable.Some? { FilePageAt(g.executable.value, 1 + lp * 4, o); }
    if g.library.Some? && lp >= LIBRARY_PAGE { FilePageAt(g.library.value, 1 + (lp - LIBRARY_PAGE) * 4, o); }
  }

  /** The byte at this position of a file; a hole reads as zero. */
  function FileByte(f: File, pos: nat): byte {
    if pos / 1024 < |f.blocks| && f.blocks[pos / 1024].Some? then f.blocks[pos / 1024].value[pos % 1024] else 0
  }

  lemma FilePageAt(f: File, k: nat, o: nat)
    requires o < PAGE_SIZE
    ensures FilePage(f, k)[o] == FileByte(f, k * 1024 + o)
  {
    var i, r := o / 1024, o % 1024;
    assert (k * 1024 + o) / 1024 == k + i && (k * 1024 + o) % 1024 == r;
    assert FilePage(f, k)[o] == FileBlock(f, k + i)[r];
  }

  // ---------------------------------------------------------------- page-table entries

  datatype Pte = Absent | Present(page: nat, rw: bool, dirty: bool) | Swapped(slot: nat)

  /** What an entry holds on to: a physical page or a swap slot. */
  datatype Key = Nothing | PageKey(p: nat) | SlotKey(s: nat)

  function KeyOf(e: Pte): Key {
    match e
    case Absent => Nothing
    case Present(p, _, _) => PageKey(p)
    case Swapped(s) => SlotKey(s)
  }

  ghost function Refs(pte: seq<Pte>, k: Key): set<nat> {
    set v: nat | v < |pte| && KeyOf(pte[v]) == k
  }

  ghost function Tables(dir: seq<Option<nat>>, p: nat): set<nat> {
    set d: nat | d < |dir| && dir[d] == Some(p)
  }

  lemma RefsUpdate(pte: seq<Pte>, v: nat, e: Pte, k: Key)
    requires v < |pte|
    ensures |Refs(pte[v := e], k)| + (if KeyOf(pte[v]) == k then 1 else 0)
         == |Refs(pte, k)| + (if KeyOf(e) == k then 1 else 0)
  {
    var pte' := pte[v := e];
    var rest := Refs(pte, k) - {v};
    forall w: nat ensures w in Refs(pte', k) <==> w in rest || (w == v && KeyOf(e) == k) {
      if w < |pte| { assert w != v ==> pte'[w] == pte[w]; }
    }
    if KeyOf(pte[v]) == k { assert Refs(pte, k) == rest + {v}; } else { assert Refs(pte, k) == rest; }
    if KeyOf(e) == k { assert Refs(pte', k) == rest + {v}; } else { assert Refs(pte', k) == rest; }
  }

  lemma TwoMembers(s: set<nat>, a: nat, b: nat)
    requires a in s && b in s && a != b
    ensures |s| >= 2
  {
    assert |{a, b}| == 2 && s == {a, b} + (s - {a, b});
  }

  lemma RefsOf(pte: seq<Pte>, v: nat)
    requires v < |pte|
    ensures |Refs(pte, KeyOf(pte[v]))| >= 1
    ensures |Refs(pte, KeyOf(pte[v]))| == 1 ==> forall w: nat | w < |pte| && w != v :: KeyOf(pte[w]) != KeyOf(pte[v])
  {
    var k := KeyOf(pte[v]);
    assert v in Refs(pte, k);
    forall w: nat | w < |pte| && w != v ensures KeyOf(pte[w]) == k ==> |Refs(pte, k)| >= 2 {
      if KeyOf(pte[w]) == k { TwoMembers(Refs(pte, k), v, w); }
    }
  }

  lemma NoRefs(pte: seq<Pte>, k: Key)
    requires |Refs(pte, k)| == 0
    ensures forall v: nat | v < |pte| :: KeyOf(pte[v]) != k
  {
    forall v: nat | v < |pte| ensures KeyOf(pte[v]) != k {
      assert v !in Refs(pte, k);
    }
  }

  lemma TablesUpdate(dir: seq<Option<nat>>, d: nat, o: Option<nat>, p: nat)
    requires d < |dir|
    ensures |Tables(dir[d := o], p)| + (if dir[d] == Some(p) then 1 else 0)
         == |Tables(dir, p)| + (if o == Some(p) then 1 else 0)
  {
    var rest := Tables(dir, p) - {d};
    assert Tables(dir, p) == if dir[d] == Some(p) then rest + {d} else rest;
    assert Tables(dir[d := o], p) == if o == Some(p) then rest + {d} else rest;
  }

  lemma NoTables(dir: seq<Option<nat>>, p: nat)
    requires |Tables(dir, p)| == 0
    ensures forall d: nat | d < |dir| :: dir[d] != Some(p)
  {
    forall d: nat | d < |dir| ensures dir[d] != Some(p) {
      assert d !in Tables(dir, p);
    }
  }

  lemma TablesOf(dir: seq<Option<nat>>, d: nat, p: nat)
    requires d < |dir| && dir[d] == Some(p)
    ensures |Tables(dir, p)| >= 1
    ensures |Tables(dir, p)| == 1 ==> forall c: nat | c < |dir| && c != d :: dir[c] != Some(p)
  {
    assert d in Tables(dir, p);
    forall c: nat | c < |dir| && c != d ensures dir[c] == Some(p) ==> |Tables(dir, p)| >= 2 {
      if dir[c] == Some(p) { TwoMembers(Tables(dir, p), d, c); }
    }
  }

  // ---------------------------------------------------------------- the whole state

  /** count is mem_map[]; holds says how many of those references belong to the kernel itself (task
      structures, pages just allocated, the reserved pages); slots is the swap bit map (true = free). */
  datatype VmData = Vm(
    dir: seq<Option<nat>>,
    pte: seq<Pte>,
    frames: seq<Page>,
    count: seq<byte>,
    holds: seq<nat>,
    slots: seq<bool>,
    reserved: set<nat>,
    disk: seq<Page>,
    programs: seq<Program>)

  predicate Shape(m: VmData) {
    && |m.dir| == TABLE_SIZE && |m.pte| == VM_SIZE
    && LOW_PAGE <= |m.frames| <= LOW_PAGE + PAGING_PAGES
    && |m.count| == |m.holds| == PAGING_PAGES
    && |m.slots| == |m.disk| == SWAP_BITS
    && |m.programs| == NR_TASKS
  }

  function Blank(): VmData {
    Vm(seq(TABLE_SIZE, _ => None), seq(VM_SIZE, _ => Absent), seq(LOW_PAGE, _ => ZeroPage()),
       seq(PAGING_PAGES, _ => USED), seq(PAGING_PAGES, _ => 100), seq(SWAP_BITS, _ => false), {},
       seq(SWAP_BITS, _ => ZeroPage()), seq(NR_TASKS, _ => Program(None, None)))
  }

  /** A byte of mem_map[] incremented and decremented. */
  function Up(c: byte): byte {
    if c == 255 then 0 else c + 1
  }

  function Down(c: byte): byte {
    if c == 0 then 255 else c - 1
  }

  type Vm = m: VmData | Shape(m) witness Blank()

  predicate IsSlot(s: nat) { s < SWAP_BITS }

  ghost predicate EntryOk(m: Vm, v: nat)
    requires v < VM_SIZE
  {
    match m.pte[v]
    case Absent => true
    case Present(p, rw, _) => m.dir[v / 1024].Some? && p < |m.frames| && (p < LOW_PAGE ==> !rw)
    case Swapped(s) => m.dir[v / 1024].Some? && 0 < s < SWAP_BITS
  }

  /** Entries live in existing tables and name existing things; pages below 1 MB stay read-only. */
  ghost predicate EntriesOk(m: Vm)
  {
    forall v: nat | v < VM_SIZE :: EntryOk(m, v)
  }

  /** Tables sit in main memory; the first 16 directory slots (task 0) hold no user table. */
  ghost predicate TablesOk(m: Vm)
  {
    forall d: nat | d < TABLE_SIZE && m.dir[d].Some? :: TASK_DIRS <= d && LOW_PAGE <= m.dir[d].value < |m.frames|
  }

  /** A page serves one purpose: table, user data, or kernel. */
  ghost predicate OnePurpose(m: Vm)
  {
    forall p: nat | LOW_PAGE <= p < LOW_PAGE + PAGING_PAGES ::
      && |Tables(m.dir, p)| <= 1
      && (m.holds[p - LOW_PAGE] > 0 ==> |Refs(m.pte, PageKey(p))| == 0 && |Tables(m.dir, p)| == 0)
      && (|Refs(m.pte, PageKey(p))| > 0 ==> |Tables(m.dir, p)| == 0)
      && (p >= |m.frames| ==> m.holds[p - LOW_PAGE] > 0)
  }

  /** Conservation of pages. */
  ghost predicate CountsOk(m: Vm)
  {
    forall p: nat | LOW_PAGE <= p < LOW_PAGE + PAGING_PAGES ::
      m.count[p - LOW_PAGE] == |Refs(m.pte, PageKey(p))| + |Tables(m.dir, p)| + m.holds[p - LOW_PAGE]
  }

  /** Conservation of swap slots: an occupied usable slot has exactly one holder. */
  ghost predicate SlotsOk(m: Vm)
  {
    && (forall s: nat | s < SWAP_BITS && s in m.reserved :: !m.slots[s])
    && 0 in m.reserved
    && (forall s: nat | s < SWAP_BITS ::
         |Refs(m.pte, SlotKey(s))| == if m.slots[s] || s in m.reserved then 0 else 1)
  }

  /** A page with more than one user is read-only in every entry. */
  ghost predicate SharedReadOnly(m: Vm)
  {
    forall v: nat | v < VM_SIZE && m.pte[v].Present? && m.pte[v].rw :: |Refs(m.pte, KeyOf(m.pte[v]))| == 1
  }

  /** All users of a main-memory page have it at the same logical page. */
  ghost predicate OneOffset(m: Vm)
  {
    forall v: nat, w: nat | v < VM_SIZE && w < VM_SIZE
        && m.pte[v].Present? && m.pte[w].Present? && m.pte[v].page == m.pte[w].page && m.pte[v].page >= LOW_PAGE ::
      v % TASK_PAGES == w % TASK_PAGES
  }

  function Backing(m: Vm, v: nat): Page
    requires v < VM_SIZE
  {
    Content(m.programs[v / TASK_PAGES], v % TASK_PAGES)
  }

  /** Entry v, if clean and in main memory, holds what a demand load would bring back. */
  ghost predicate CleanAt(m: Vm, v: nat)
    requires v < VM_SIZE
  {
    m.pte[v].Present? && !m.pte[v].dirty && LOW_PAGE <= m.pte[v].page < |m.frames| ==>
      m.frames[m.pte[v].page] == Backing(m, v)
  }

  /** The invariant, except that entry `but` may be clean without being reloadable. */
  ghost predicate InvBut(m: Vm, but: int) {
    && EntriesOk(m) && TablesOk(m) && OnePurpose(m) && CountsOk(m) && SlotsOk(m)
    && SharedReadOnly(m) && OneOffset(m)
    && (forall v: nat | v < VM_SIZE && v != but :: CleanAt(m, v))
  }

  ghost predicate Inv(m: Vm) {
    InvBut(m, -1)
  }

  /** The page a task finds at linear page v, wherever it is kept at the moment. */
  function View(m: Vm, v: nat): Page
    requires v < VM_SIZE
  {
    match m.pte[v]
    case Absent => Backing(m, v)
    case Present(p, _, _) => if p < |m.frames| then m.frames[p] else ZeroPage()
    case Swapped(s) => if s < SWAP_BITS then m.disk[s] else ZeroPage()
  }

  ghost predicate SameViews(m: Vm, n: Vm)
  {
    forall v: nat | v < VM_SIZE :: View(m, v) == View(n, v)
  }
}
