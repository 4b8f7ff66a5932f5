// mm/memory.c and mm/swap.c: the page directory and page tables, mem_map[] and the swap area,
// updated in place. Every method is specified by what it does to the state of VmState.

module PagedMemory {
  import opened Kernel
  import opened VmState
  import opened VmSteps
  import opened VmRelations
  import opened VmSweep
  import opened VmRoom
  import opened PageTables

  ghost function UsableSlots(image: seq<bool>, size: nat): set<nat>
    requires |image| == SWAP_BITS && size <= SWAP_BITS
  {
    set s: nat | 0 < s < size && s < 32688 && image[s]
  }

  class Memory {
    const memMap: array<byte>            // mem_map[]
    const phys: array<Frame>              // physical pages 0 .. HIGH_MEMORY
    const pgDir: array<Option<nat>>       // the page directory: which page holds each table
    const swapBitmap: array<bool>         // true: slot is free
    const swapDev: array<Page>            // the swap device
    const tasks: array<Program>           // what each task runs; an empty task slot runs nothing
    var dirEntry: nat                     // static cursors of swap_out
    var pageEntry: int
    ghost var holds: seq<nat>             // references of the kernel's own
    ghost var reserved: set<nat>          // slots that are no swap space

    /** The arrays have their proper sizes and the directory leads to page tables. */
    ghost predicate Wired()
      reads this, memMap, phys, pgDir, swapBitmap, swapDev, tasks
    {
      && memMap.Length == |holds| == PAGING_PAGES
      && LOW_PAGE <= phys.Length <= LOW_PAGE + PAGING_PAGES
      && swapBitmap.Length == swapDev.Length == SWAP_BITS
      && tasks.Length == NR_TASKS
      && Wellformed(pgDir[..], phys[..])
    }

    ghost function Abs(): Vm
      requires Wired()
      reads this, memMap, phys, pgDir, swapBitmap, swapDev, tasks
    {
      Vm(pgDir[..], Flatten(pgDir[..], phys[..]), AllBytes(phys[..]), memMap[..], holds,
         swapBitmap[..], reserved, swapDev[..], tasks[..])
    }

    ghost predicate Valid()
      reads this, memMap, phys, pgDir, swapBitmap, swapDev, tasks
    {
      Wired() && Inv(Abs()) && TASK_DIRS <= dirEntry < TABLE_SIZE && -1 <= pageEntry < TABLE_SIZE
    }

    /** The machine before mem_init: memory up to page `high`, nothing mapped, no swap space. */
    constructor (high: nat, dev: seq<Page>)
      requires LOW_PAGE <= high <= LOW_PAGE + PAGING_PAGES && |dev| == SWAP_BITS
      ensures Wired() && phys.Length == high && dirEntry == TASK_DIRS && pageEntry == -1
      ensures forall d: nat | d < TABLE_SIZE :: pgDir[d] == None
      ensures forall t: nat | t < NR_TASKS :: tasks[t] == Program(None, None)
      ensures forall s: nat | s < SWAP_BITS :: !swapBitmap[s]
      ensures fresh(memMap) && fresh(phys) && fresh(pgDir) && fresh(swapBitmap) && fresh(swapDev) && fresh(tasks)
    {
      memMap := new byte[PAGING_PAGES](_ => 0);
      phys := new Frame[high](_ => Data(ZeroPage()));
      pgDir := new Option<nat>[TABLE_SIZE](_ => None);
      swapBitmap := new bool[SWAP_BITS](_ => false);
      swapDev := new Page[SWAP_BITS](i requires 0 <= i < SWAP_BITS && |dev| == SWAP_BITS => dev[i]);
      tasks := new Program[NR_TASKS](_ => Program(None, None));
      dirEntry := TASK_DIRS;
      pageEntry := -1;
      holds := seq(PAGING_PAGES, _ => 0);
    }

    /** mem_init: every page is marked used, then those from `start` to the end of memory are freed. */
    method MemInit(start: nat)
      requires Wired() && LOW_PAGE <= start <= phys.Length && dirEntry == TASK_DIRS && pageEntry == -1
      requires forall d: nat | d < TABLE_SIZE :: pgDir[d] == None
      requires forall s: nat | s < SWAP_BITS :: !swapBitmap[s]
      modifies memMap, this`holds, this`reserved
      ensures Valid() && Initial(Abs()) && Abs().programs == old(Abs()).programs
      ensures forall i: nat | i < PAGING_PAGES :: memMap[i] == if start <= LOW_PAGE + i < phys.Length then 0 else USED
    {
      for i := 0 to PAGING_PAGES
        invariant forall j: nat | j < i :: memMap[j] == USED
      {
        memMap[i] := USED;
      }
      var i := start - LOW_PAGE;
      var left := phys.Length - start;
      while left > 0
        invariant 0 <= left && i + left == phys.Length - LOW_PAGE
        invariant forall j: nat | j < PAGING_PAGES :: memMap[j] == if start - LOW_PAGE <= j < i then 0 else USED
      {
        left := left - 1;
        memMap[i] := 0;
        i := i + 1;
      }
      holds := seq(PAGING_PAGES, j requires 0 <= j < PAGING_PAGES =>
                     if start - LOW_PAGE <= j < phys.Length - LOW_PAGE then 0 else 100);
      reserved := set s: nat | s < SWAP_BITS && IsSlot(s);
      InitialInv(Abs());
    }

    // -------------------------------------------------------------- single memory accesses

    method ReadEntry(v: nat) returns (e: Pte)
      requires Wired() && v < VM_SIZE
      ensures e == Abs().pte[v]
    {
      if pgDir[v / 1024].None? {
        e := Absent;
      } else {
        var t := phys[pgDir[v / 1024].value];
        e := t.entries[v % 1024];
      }
    }

    method ReadByte(p: nat, o: nat) returns (b: byte)
      requires Wired() && p < phys.Length && o < PAGE_SIZE
      ensures b == Abs().frames[p][o]
    {
      b := Bytes(phys[p])[o];
    }

    method WriteEntry(v: nat, e: Pte)
      requires Wired() && v < VM_SIZE && pgDir[v / 1024].Some?
      modifies phys
      ensures Wired() && Abs() == old(Abs()).(pte := old(Abs()).pte[v := e])
    {
      FlattenEntry(pgDir[..], phys[..], v, e);
      var t := pgDir[v / 1024].value;
      ghost var was := phys[..];
      phys[t] := Table(phys[t].entries[v % 1024 := e]);
      assert phys[..] == was[t := Table(was[t].entries[v % 1024 := e])];
    }

    method WritePage(p: nat, x: Page)
      requires Wired() && p < phys.Length && forall d: nat | d < TABLE_SIZE :: pgDir[d] != Some(p)
      modifies phys
      ensures Wired() && Abs() == old(Abs()).(frames := old(Abs()).frames[p := x]) && phys[p] == Data(x)
    {
      FlattenData(pgDir[..], phys[..], p, x);
      ghost var was := phys[..];
      phys[p] := Data(x);
      assert phys[..] == was[p := Data(x)];
    }

    method SetCount(i: nat, c: byte)
      requires Wired() && i < PAGING_PAGES
      modifies memMap
      ensures Wired() && Abs() == old(Abs()).(count := old(Abs()).count[i := c])
    {
      ghost var was := memMap[..];
      memMap[i] := c;
      assert memMap[..] == was[i := c];
    }

    method SetSlot(s: nat, free: bool)
      requires Wired() && s < SWAP_BITS
      modifies swapBitmap
      ensures Wired() && Abs() == old(Abs()).(slots := old(Abs()).slots[s := free])
    {
      ghost var was := swapBitmap[..];
      swapBitmap[s] := free;
      assert swapBitmap[..] == was[s := free];
    }

    method WriteSwapPage(s: nat, p: nat)
      requires Wired() && s < SWAP_BITS && p < phys.Length
      modifies swapDev
      ensures Wired() && Abs() == old(Abs()).(disk := old(Abs()).disk[s := old(Abs()).frames[p]])
    {
      ghost var was := swapDev[..];
      swapDev[s] := Bytes(phys[p]);
      assert swapDev[..] == was[s := Bytes(phys[p])];
    }

    method ReadSwapPage(s: nat, p: nat)
      requires Wired() && s < SWAP_BITS && p < phys.Length && forall d: nat | d < TABLE_SIZE :: pgDir[d] != Some(p)
      modifies phys
      ensures Wired() && Abs() == old(Abs()).(frames := old(Abs()).frames[p := old(Abs()).disk[s]])
    {
      WritePage(p, swapDev[s]);
    }

    ghost method Hold(p: nat, n: nat)
      requires Wired() && LOW_PAGE <= p < LOW_PAGE + PAGING_PAGES
      modifies this`holds
      ensures Wired() && Abs() == old(Abs()).(holds := old(Abs()).holds[p - LOW_PAGE := n])
    {
      holds := holds[p - LOW_PAGE := n];
    }

    /** Enters a fresh table, whose page was allocated zeroed, in the directory. */
    method InstallTable(d: nat, p: nat)
      requires Valid() && IsHeld(Abs(), p) && TASK_DIRS <= d < TABLE_SIZE && pgDir[d].None?
      requires phys[p] == Data(ZeroPage())
      modifies phys, pgDir, this`holds
      ensures Valid() && Abs() == SetTable(old(Abs()), d, p)
    {
      HeldUnused(Abs(), p);
      SetTableOk(Abs(), d, p);
      assert forall c: nat | c < TABLE_SIZE :: Abs().dir[c] != Some(p);
      FlattenNew(pgDir[..], phys[..], d, p);
      ghost var dir0, phys0 := pgDir[..], phys[..];
      pgDir[d] := Some(p);
      phys[p] := EmptyTable();
      assert pgDir[..] == dir0[d := Some(p)] && phys[..] == phys0[p := EmptyTable()];
      Hold(p, 0);
    }

    // -------------------------------------------------------------- a few accesses in a row

    /** A held page is entered at v. */
    method EnterPage(v: nat, p: nat, dirty: bool)
      requires Wired() && IsHeld(Abs(), p) && Mappable(Abs(), v)
      modifies phys, this`holds
      ensures Wired() && Abs() == MapHeld(old(Abs()), v, p, dirty)
      ensures dirEntry == old(dirEntry) && pageEntry == old(pageEntry)
    {
      WriteEntry(v, Present(p, true, dirty));
      Hold(p, 0);
    }

    /** The swapped page of entry v is read into held page p, its slot freed and the entry rewritten. */
    method BringIn(v: nat, p: nat)
      requires Wired() && IsHeld(Abs(), p) && v < VM_SIZE && pgDir[v / 1024].Some?
      requires Abs().pte[v].Swapped? && Abs().pte[v].slot < SWAP_BITS && Abs().pte[v].slot != 0
      requires forall d: nat | d < TABLE_SIZE :: Abs().dir[d] != Some(p)
      modifies phys, swapBitmap, this`holds
      ensures Wired() && Abs() == SwapInTo(old(Abs()), v, p)
    {
      ghost var pte := Abs().pte;
      var e := ReadEntry(v);
      ReadSwapPage(e.slot, p);
      var multiply := SwapFree(e.slot);
      EnterPageOver(v, p, true);
      assert pte[v := Absent][v := Present(p, true, true)] == pte[v := Present(p, true, true)];
    }

    method EnterPageOver(v: nat, p: nat, dirty: bool)
      requires Wired() && IsHeld(Abs(), p) && v < VM_SIZE && pgDir[v / 1024].Some?
      modifies phys, this`holds
      ensures Wired()
      ensures Abs() == old(Abs()).(pte := old(Abs()).pte[v := Present(p, true, dirty)],
                                   holds := old(Abs()).holds[p - LOW_PAGE := 0])
    {
      WriteEntry(v, Present(p, true, dirty));
      Hold(p, 0);
    }

    // -------------------------------------------------------------- mm/memory.c: free_page

    /** The two panics of the source, a page beyond memory and a free page, are the precondition. */
    method FreePage(p: nat)
      requires Wired()
      requires LOW_PAGE <= p ==> p < phys.Length && memMap[p - LOW_PAGE] > 0
      modifies memMap
      ensures Wired()
      ensures Abs() == if p < LOW_PAGE then old(Abs())
                       else old(Abs()).(count := old(Abs()).count[p - LOW_PAGE := old(Abs()).count[p - LOW_PAGE] - 1])
    {
      if p < LOW_PAGE { return; }
      SetCount(p - LOW_PAGE, memMap[p - LOW_PAGE] - 1);
    }

    /** free_page on a page the kernel holds. */
    method GiveBack(p: nat)
      requires Valid() && IsHeld(Abs(), p)
      modifies memMap, this`holds
      ensures Valid() && SameViews(old(Abs()), Abs())
      ensures old(Abs()).count[p - LOW_PAGE] > 0 && Abs() == Release(old(Abs()), p)
    {
      ReleaseOk(Abs(), p);
      FreePage(p);
      Hold(p, 0);
    }

    // -------------------------------------------------------------- mm/swap.c

    /** get_swap_page: the lowest free slot from 1 on is taken; 0 means there is none. */
    method GetSwapPage() returns (nr: nat)
      requires Wired()
      modifies swapBitmap
      ensures Wired()
      ensures nr == 0 ==> Abs() == old(Abs()) && forall s: nat | 0 < s < SWAP_BITS :: !Abs().slots[s]
      ensures nr != 0 ==> LowestSlot(old(Abs()), nr) && Abs() == old(Abs()).(slots := old(Abs()).slots[nr := false])
    {
      nr := 1;
      while nr < SWAP_BITS
        invariant 1 <= nr <= SWAP_BITS
        invariant forall s: nat | 0 < s < nr :: !swapBitmap[s]
      {
        if swapBitmap[nr] {
          SetSlot(nr, false);
          return;
        }
        nr := nr + 1;
      }
      nr := 0;
    }

    /** swap_free: the bit is set; complain when it was set already or the slot is out of range. */
    method SwapFree(nr: nat) returns (bad: bool)
      requires Wired()
      modifies swapBitmap
      ensures Wired()
      ensures bad <==> nr != 0 && (nr >= SWAP_BITS || old(Abs()).slots[nr])
      ensures Abs() == if nr == 0 || nr >= SWAP_BITS then old(Abs())
                       else old(Abs()).(slots := old(Abs()).slots[nr := true])
    {
      if nr == 0 { return false; }
      bad := true;
      if nr < SWAP_BITS {
        bad := swapBitmap[nr];
        SetSlot(nr, true);
      }
    }

    /** The part of try_to_swap_out for a modified page. */
    method SwapOutDirty(v: nat, p: nat) returns (done: bool)
      requires Valid() && v < VM_SIZE && Abs().pte[v].Present? && Abs().pte[v].dirty && Abs().pte[v].page == p
      requires LOW_PAGE <= p < phys.Length && Abs().dir[v / 1024].Some?
      modifies memMap, phys, swapBitmap, swapDev
      ensures Valid()
      ensures done <==> Swappable(old(Abs()), v)
      ensures if done then SwappedOut(old(Abs()), v, Abs()) else Abs() == old(Abs())
    {
      hide InvBut;
      ghost var m := Abs();
      if memMap[p - LOW_PAGE] != 1 { return false; }
      var nr := GetSwapPage();
      if nr == 0 { return false; }
      SwapOutToOk(m, v, nr);
      WriteEntry(v, Swapped(nr));
      WriteSwapPage(nr, p);
      FreePage(p);
      assert Abs() == SwapOutTo(m, v, nr);
      return true;
    }

    /** The two scans of the bit map in init_swapping: 0 if bit 0 or a bit from `size` on is set (the ten
        bytes of the signature count as clear), otherwise the number of usable slots. */
    method CheckBitmap(image: seq<bool>, size: nat) returns (slots: nat)
      requires |image| == SWAP_BITS && size <= SWAP_BITS
      ensures slots == if image[0] || exists s: nat :: size <= s < 32688 && image[s] then 0
                       else |UsableSlots(image, size)|
    {
      slots := 0;
      if image[0] { return; }
      for i := size to SWAP_BITS
        invariant forall s: nat | size <= s < i && s < 32688 :: !image[s]
      {
        if i < 32688 && image[i] { return; }
      }
      assert UsableSlots(image, 1) == {};
      for i := 1 to if size < 1 then 1 else size
        invariant slots == |UsableSlots(image, i)|
      {
        if i < 32688 && image[i] {
          assert UsableSlots(image, i + 1) == UsableSlots(image, i) + {i as nat};
          slots := slots + 1;
        } else {
          assert UsableSlots(image, i + 1) == UsableSlots(image, i);
        }
      }
      assert size == 0 ==> UsableSlots(image, 0) == {};
    }

    /** The bit map read from the device, its last ten bytes cleared, becomes the kernel's. */
    method LoadBitmap(image: seq<bool>)
      requires Wired() && |image| == SWAP_BITS
      modifies swapBitmap
      ensures Wired() && Abs() == old(Abs()).(slots := Abs().slots)
      ensures forall s: nat | s < SWAP_BITS :: Abs().slots[s] == (s < 32688 && image[s])
    {
      ghost var m := Abs();
      for s := 0 to SWAP_BITS
        invariant Wired() && Abs() == m.(slots := Abs().slots)
        invariant forall r: nat | r < s :: Abs().slots[r] == (r < 32688 && image[r])
      {
        SetSlot(s, s < 32688 && image[s]);
      }
    }

    /** From here on the free bits are swap space. */
    method OpenSwapSpace(image: seq<bool>)
      requires Valid() && |image| == SWAP_BITS && !image[0] && forall s: nat | s < SWAP_BITS :: s in Abs().reserved
      modifies this`reserved, swapBitmap
      ensures Valid() && SameViews(old(Abs()), Abs())
      ensures Abs().programs == old(Abs()).programs && Abs().holds == old(Abs()).holds
      ensures forall s: nat | s < SWAP_BITS ::
        Abs().slots[s] == (s < 32688 && image[s]) && (s in Abs().reserved <==> !Abs().slots[s])
    {
      hide InvBut;
      ghost var m := Abs();
      LoadBitmap(image);
      reserved := set s: nat | s < SWAP_BITS && IsSlot(s) && !swapBitmap[s];
      NewSwapSpace(m, Abs());
    }

    /** init_swapping: accepts the bit map read from a device of `blocks` blocks if bit 0 and the bits past
        its end are clear and some slot is usable; its last ten bytes, the signature, are cleared first.
        Returns the number of usable slots, 0 if the device is refused. */
    method InitSwapping(blocks: nat, image: seq<bool>, signed: bool) returns (slots: nat)
      requires Valid() && |image| == SWAP_BITS && forall s: nat | s < SWAP_BITS :: s in Abs().reserved
      modifies this, memMap, phys, swapBitmap, swapDev
      ensures Valid() && SameViews(old(Abs()), Abs()) && Abs().programs == old(Abs()).programs
      ensures var size := if blocks / 4 > SWAP_BITS then SWAP_BITS else blocks / 4;
        slots == if blocks < 100 || !signed || old(NoPage()) || image[0] ||
                    (exists s: nat :: size <= s < 32688 && image[s]) then 0
                 else |UsableSlots(image, size)|
      ensures slots > 0 ==> var size := if blocks / 4 > SWAP_BITS then SWAP_BITS else blocks / 4;
        forall s: nat | s < SWAP_BITS ::
          Abs().slots[s] == (0 < s < size && s < 32688 && image[s]) && (s in Abs().reserved <==> !Abs().slots[s])
      ensures slots == 0 ==> Abs().reserved == old(Abs()).reserved && Abs().holds == old(Abs()).holds
    {
      hide InvBut, View, CountOne, IsFree, GetPage, SomeCandidate, Swappable, Pinned;
      ghost var m := Abs();
      slots := 0;
      if blocks < 100 { return; }
      var size := if blocks / 4 > SWAP_BITS then SWAP_BITS else blocks / 4;
      var p := GetFreePage();
      if p == 0 { return; }
      ghost var a := Abs();
      if signed { slots := CheckBitmap(image, size); }
      if slots == 0 {
        GiveBack(p);
        SameViewsTransitive(m, a, Abs());
        assert Abs().holds == m.holds;
        return;
      }
      OpenSwapSpace(image);
      SameViewsTransitive(m, a, Abs());
    }

    /** try_to_swap_out: succeeds exactly on the entries that can be swapped out. */
    method TryToSwapOut(v: nat) returns (done: bool)
      requires Valid() && v < VM_SIZE
      modifies memMap, phys, swapBitmap, swapDev
      ensures Valid()
      ensures done <==> Swappable(old(Abs()), v)
      ensures if done then SwappedOut(old(Abs()), v, Abs()) else Abs() == old(Abs())
    {
      hide InvBut;
      ghost var m := Abs();
      var e := ReadEntry(v);
      if !e.Present? { return false; }
      var p := e.page;
      PresentEntry(m, v);
      if p < LOW_PAGE || p - LOW_PAGE > PAGING_PAGES { return false; }
      if e.dirty {
        done := SwapOutDirty(v, p);
        return;
      }
      DropCleanOk(m, v);
      WriteEntry(v, Absent);
      FreePage(p);
      assert Abs() == Unmap(m, v);
      return true;
    }

    /** swap_out: scan on from where the last call stopped until one page could be swapped out. It succeeds
        exactly if there is a candidate, takes the first, and leaves the cursor there. */
    method SwapOut() returns (done: bool)
      requires Valid()
      modifies this, memMap, phys, swapBitmap, swapDev
      ensures Valid() && Evicted(old(Abs()), Abs())
      ensures done <==> SomeCandidate(old(Abs()), old(dirEntry), old(pageEntry))
      ensures done ==> TookFirst(old(Abs()), old(dirEntry), old(pageEntry))
      ensures !done ==> Abs() == old(Abs())
    {
      hide InvBut, Evicted, View, SomeCandidate, TookFirst, Scanning;
      ghost var m, d, e := Abs(), dirEntry, pageEntry;
      var counter := FindTable();
      done := ScanTables(m, d, e, counter);
    }

    /** The first loop of swap_out, from the cursor to a table. */
    method FindTable() returns (counter: int)
      requires Valid()
      modifies this`dirEntry
      ensures Valid()
      ensures if counter > 0 then Scanning(Abs(), old(dirEntry), pageEntry, counter)
              else !SomeCandidate(Abs(), old(dirEntry), pageEntry)
    {
      hide InvBut, Scanned, Past, Candidate, SomeCandidate;
      ghost var m, d := Abs(), dirEntry;
      ghost var k: nat := 0;
      counter := VM_SIZE - TASK_PAGES;
      while counter > 0
        invariant Wired() && Abs() == m && IsCursor(dirEntry, pageEntry)
        invariant counter == ROUND - 1024 * k && 0 <= counter
        invariant counter > 0 ==> Ahead(d, dirEntry) == k
        invariant forall g: nat | TASK_DIRS <= g < TABLE_SIZE && Ahead(d, g) < k :: m.dir[g].None?
      {
        if pgDir[dirEntry].Some? { break; }
        counter := counter - 1024;
        dirEntry := dirEntry + 1;
        if dirEntry >= TABLE_SIZE { dirEntry := TASK_DIRS; }
        k := k + 1;
      }
      if counter > 0 { ScanStarts(m, d, pageEntry, dirEntry, k); } else { NothingMapped(m, d, pageEntry); }
    }

    /** Swapping from cursor d, e in state m has taken the first candidate, where the cursor now is. */
    ghost predicate TookFirst(m: Vm, d: nat, e: int)
      requires Wired() && Inv(m) && IsCursor(d, e)
      reads this, memMap, phys, pgDir, swapBitmap, swapDev, tasks
    {
      && IsCursor(dirEntry, pageEntry) && 0 <= pageEntry
      && var v: nat := dirEntry * 1024 + pageEntry; Takes(m, d, e, v) && SwappedOut(m, v, Abs())
    }

    /** The round that began at cursor d, e has `counter` left, the cursor in a table. */
    ghost predicate Scanning(m: Vm, d: nat, e: int, counter: int)
      requires Wired()
      reads this, memMap, phys, pgDir, swapBitmap, swapDev, tasks
    {
      && IsCursor(d, e) && IsCursor(dirEntry, pageEntry) && pgDir[dirEntry].Some? && 0 < counter
      && (pageEntry == -1 ==> counter >= 1024)
      && var n := Limit(m.dir, d, e) - counter;
      && 0 <= n && Scanned(m, d, e, n) && Past(m.dir, d, e, n)
      && AtPlace(From(m.dir, d, e), dirEntry * 1024 + pageEntry + 1, n)
    }

    /** The second loop of swap_out. */
    method ScanTables(ghost m: Vm, ghost d: nat, ghost e: int, start: int) returns (done: bool)
      requires Valid() && Abs() == m && IsCursor(d, e)
      requires if start > 0 then Scanning(m, d, e, start) else !SomeCandidate(m, d, e)
      modifies this, memMap, phys, swapBitmap, swapDev
      ensures Valid() && Evicted(m, Abs())
      ensures done <==> SomeCandidate(m, d, e)
      ensures done ==> TookFirst(m, d, e)
      ensures !done ==> Abs() == m
    {
      hide InvBut, Evicted, Swappable, SwappedOut, View;
      EvictedReflexive(m);
      var counter := start;
      done := false;
      while counter > 0
        invariant Valid() && Abs() == m
        invariant if counter > 0 then Scanning(m, d, e, counter) else !SomeCandidate(m, d, e)
      {
        done, counter := ScanOne(m, d, e, counter);
        if done { return; }
      }
    }

    /** One round of that loop. */
    method ScanOne(ghost m: Vm, ghost d: nat, ghost e: int, n: int) returns (done: bool, counter: int)
      requires Valid() && Abs() == m && Scanning(m, d, e, n)
      modifies this, memMap, phys, swapBitmap, swapDev
      ensures Valid() && counter < n
      ensures done ==> Evicted(m, Abs()) && SomeCandidate(m, d, e) && TookFirst(m, d, e)
      ensures !done ==> Abs() == m
      ensures !done ==> if counter > 0 then Scanning(m, d, e, counter) else !SomeCandidate(m, d, e)
    {
      counter := Advance(m, d, e, n);
      if pgDir[dirEntry].None? { return false, counter; }
      done := TryEntry(m, d, e, counter);
    }

    /** The entry at the cursor is tried, with `counter` left after it. */
    method TryEntry(ghost m: Vm, ghost d: nat, ghost e: int, ghost counter: int) returns (done: bool)
      requires Valid() && Abs() == m && Trying(m, d, e, counter)
      modifies memMap, phys, swapBitmap, swapDev
      ensures Valid()
      ensures done ==> Evicted(m, Abs()) && SomeCandidate(m, d, e) && TookFirst(m, d, e)
      ensures !done ==> Abs() == m
      ensures !done ==> if counter > 0 then Scanning(m, d, e, counter) else !SomeCandidate(m, d, e)
    {
      hide InvBut, Swappable, SwappedOut, Evicted, View, Scanned, Past, Takes, Candidate, SomeCandidate;
      var v: nat := dirEntry * 1024 + pageEntry;
      done := TryToSwapOut(v);
      ghost var place := Limit(m.dir, d, e) - counter - 1;
      if done {
        SwappedOutOk(m, v, Abs());
        ScanTakes(m, d, e, place, v);
      } else {
        ScannedOne(m, d, e, place, v);
        PastOn(m.dir, d, e, place, 1);
        if counter <= 0 { ScanEnds(m, d, e, place + 1, dirEntry); }
      }
    }

    /** The round has come to the entry at the cursor, and `counter` is left after it. */
    ghost predicate Trying(m: Vm, d: nat, e: int, counter: int)
      requires Wired()
      reads this, memMap, phys, pgDir, swapBitmap, swapDev, tasks
    {
      && IsCursor(d, e) && IsCursor(dirEntry, pageEntry) && 0 <= pageEntry && pgDir[dirEntry].Some?
      && 0 <= counter && (pageEntry == 0 && pgDir[PrevDir(dirEntry)].None? ==> 0 < counter)
      && var place := Limit(m.dir, d, e) - counter - 1;
      && 0 <= place && Scanned(m, d, e, place) && Past(m.dir, d, e, place)
      && AtPlace(From(m.dir, d, e), dirEntry * 1024 + pageEntry, place)
    }

    /** The cursor moves to the next entry, past missing tables; none is left when it rests on one. */
    method Advance(ghost m: Vm, ghost d: nat, ghost e: int, n: int) returns (counter: int)
      requires Wired() && Inv(Abs()) && Abs() == m && Scanning(m, d, e, n)
      modifies this`dirEntry, this`pageEntry
      ensures IsCursor(dirEntry, pageEntry) && 0 <= pageEntry && counter < n
      ensures pgDir[dirEntry].Some? ==> Trying(m, d, e, counter)
      ensures pgDir[dirEntry].None? ==> counter <= 0 && !SomeCandidate(m, d, e)
    {
      hide InvBut, Scanned, Past;
      counter := n - 1;
      pageEntry := pageEntry + 1;
      if pageEntry >= TABLE_SIZE {
        pageEntry := 0;
        counter := NextTable(m, d, e, counter);
      }
    }

    /** The inner loop of swap_out: move on to the next table, or stop when the count is used up. */
    method NextTable(ghost m: Vm, ghost d: nat, ghost e: int, n: int) returns (counter: int)
      requires Wired() && Inv(Abs()) && Abs() == m && IsCursor(d, e) && TASK_DIRS <= dirEntry < TABLE_SIZE && 0 <= n
      requires var place := Limit(m.dir, d, e) - n - 1;
        && 0 <= place && Scanned(m, d, e, place) && Past(m.dir, d, e, place)
        && AtPlace(From(m.dir, d, e), (dirEntry + 1) * 1024, place)
      requires pgDir[dirEntry].Some?
      modifies this`dirEntry
      ensures TASK_DIRS <= dirEntry < TABLE_SIZE && counter <= n
      ensures pgDir[dirEntry].Some? ==>
        && 0 <= counter && (pgDir[PrevDir(dirEntry)].None? ==> 0 < counter)
        && var place := Limit(m.dir, d, e) - counter - 1;
        && 0 <= place && Scanned(m, d, e, place) && Past(m.dir, d, e, place)
        && AtPlace(From(m.dir, d, e), dirEntry * 1024, place)
      ensures pgDir[dirEntry].None? ==> counter <= 0 && !SomeCandidate(m, d, e)
    {
      hide InvBut, Scanned, Past, Candidate;
      counter := n;
      while true
        invariant TASK_DIRS <= dirEntry < TABLE_SIZE && 0 <= counter <= n
        invariant pgDir[dirEntry].None? ==> 0 < counter
        invariant var place := Limit(m.dir, d, e) - counter - 1;
          && 0 <= place && Scanned(m, d, e, place) && Past(m.dir, d, e, place)
          && AtPlace(From(m.dir, d, e), (dirEntry + 1) * 1024, place)
        decreases counter
      {
        dirEntry := dirEntry + 1;
        if dirEntry >= TABLE_SIZE { dirEntry := TASK_DIRS; }
        if pgDir[dirEntry].Some? { return; }
        ghost var place := Limit(m.dir, d, e) - counter - 1;
        ScannedTable(m, d, e, place, dirEntry);
        PastOn(m.dir, d, e, place, 1024);
        counter := counter - 1024;
        if counter <= 0 {
          ScanEnds(m, d, e, place + 1024, dirEntry);
          return;
        }
      }
    }

    /** get_free_page: the highest free page, zeroed; when there is none, swap and try again.
        0 means that swap_out found no candidate any more. */
    method GetFreePage() returns (p: nat)
      requires Valid()
      modifies this, memMap, phys, swapBitmap, swapDev
      ensures Valid()
      ensures var r := GetPage(old(Abs()), old(dirEntry), old(pageEntry));
        Abs() == r.m && p == r.page && (p != 0 ==> dirEntry == r.d && pageEntry == r.e)
      ensures p == 0 ==> Evicted(old(Abs()), Abs()) && !SomeFree(old(Abs())) && !SomeFree(Abs())
      ensures p == 0 ==> exists d: nat, e: int :: IsCursor(d, e) && !SomeCandidate(Abs(), d, e)
      ensures p != 0 ==> Allocated(old(Abs()), Abs(), p) && phys[p] == Data(ZeroPage())
      ensures SomeFree(old(Abs())) ==> HighestFree(old(Abs()), p) && Abs() == Alloc(old(Abs()), p)
      ensures SomeFree(old(Abs())) ==> dirEntry == old(dirEntry) && pageEntry == old(pageEntry)
    {
      hide InvBut, Evicted, View, Allocated, SomeCandidate, GetPage;
      ghost var m := Abs();
      EvictedReflexive(m);
      while true
        invariant Valid() && Evicted(m, Abs())
        invariant SomeFree(m) ==> Abs() == m && dirEntry == old(dirEntry) && pageEntry == old(pageEntry)
        invariant GetPage(Abs(), dirEntry, pageEntry) == GetPage(m, old(dirEntry), old(pageEntry))
        decreases Resident(Abs())
      {
        ghost var k := Abs();
        p := LastFree();
        if p != 0 {
          AllocatedOk(m, k, p);
          GetPageFree(k, dirEntry, pageEntry, p);
          Claim(p);
          return;
        }
        var swapped := MakeRoom();
        if !swapped { return; }
        EvictedTransitive(m, k, Abs());
      }
    }

    /** The call of swap_out in get_free_page. */
    method MakeRoom() returns (done: bool)
      requires Valid() && !SomeFree(Abs())
      modifies this, memMap, phys, swapBitmap, swapDev
      ensures Valid() && Evicted(old(Abs()), Abs())
      ensures done ==> Resident(Abs()) < Resident(old(Abs()))
      ensures done ==>
        GetPage(Abs(), dirEntry, pageEntry) == GetPage(old(Abs()), old(dirEntry), old(pageEntry))
      ensures !done ==> Abs() == old(Abs()) && !SomeCandidate(Abs(), old(dirEntry), old(pageEntry))
      ensures !done ==> GetPage(Abs(), old(dirEntry), old(pageEntry)) == Got(Abs(), 0, old(dirEntry), old(pageEntry))
    {
      hide InvBut, Evicted, View, Swappable, SwappedOut, Takes, SomeCandidate, GetPage, SomeFree;
      ghost var k, d, e := Abs(), dirEntry, pageEntry;
      done := SwapOut();
      if !done {
        GetPageNone(k, d, e);
        return;
      }
      ghost var v: nat := dirEntry * 1024 + pageEntry;
      TakesSwappable(k, d, e, v);
      GetPageStep(k, d, e, v);
      SwappedOutOk(k, v, Abs());
      EvictIs(k, v, Abs());
    }

    /** Free page p becomes the kernel's. */
    method Claim(p: nat)
      requires Valid() && IsFree(Abs(), p)
      modifies memMap, phys, this`holds
      ensures Valid() && Abs() == Alloc(old(Abs()), p) && phys[p] == Data(ZeroPage())
    {
      hide InvBut;
      AllocOk(Abs(), p);
      FreePageUnused(Abs(), p);
      SetCount(p - LOW_PAGE, 1);
      WritePage(p, ZeroPage());
      Hold(p, 1);
    }

    /** The scan of mem_map[] from its end; 0 when no byte is zero. */
    method LastFree() returns (p: nat)
      requires Valid()
      ensures p != 0 <==> SomeFree(Abs())
      ensures p != 0 ==> HighestFree(Abs(), p)
    {
      var i: int := PAGING_PAGES - 1;
      while i >= 0
        invariant -1 <= i < PAGING_PAGES
        invariant forall q: nat | LOW_PAGE + i < q < |Abs().frames| :: !IsFree(Abs(), q)
      {
        if memMap[i] == 0 {
          p := i + LOW_PAGE;
          FreeUnused(Abs(), p);
          assert p < phys.Length ==> IsFree(Abs(), p);
          assert |Refs(Abs().pte, PageKey(p))| >= 0;
          return;
        }
        i := i - 1;
      }
      p := 0;
    }

    /** get_free_page would find no page. */
    ghost predicate NoPage()
      requires Valid()
      reads this, memMap, phys, pgDir, swapBitmap, swapDev, tasks
    {
      GetPage(Abs(), dirEntry, pageEntry).page == 0
    }

    /** The same for a page with contents x at v, or for the table that it needs. */
    ghost predicate NoneFor(v: nat, x: Page)
      requires Valid() && v < VM_SIZE
      reads this, memMap, phys, pgDir, swapBitmap, swapDev, tasks
    {
      NoPageFor(Abs(), dirEntry, pageEntry, v, x)
    }

    /** swap_in: a page fault on a swapped entry. False means out of memory. */
    method SwapIn(v: nat) returns (ok: bool)
      requires Valid() && v < VM_SIZE && Abs().pte[v].Swapped?
      modifies this, memMap, phys, swapBitmap, swapDev
      ensures Valid() && SameViews(old(Abs()), Abs())
      ensures Abs().programs == old(Abs()).programs && Abs().holds == old(Abs()).holds && Abs().dir == old(Abs()).dir
      ensures ok <==> Abs().pte[v].Present?
      ensures ok ==> Abs().pte[v].rw && Abs().pte[v].dirty
      ensures !ok <==> old(NoPage())
      ensures SomeFree(old(Abs())) ==> ok
    {
      hide InvBut, View, GetPage, SomeCandidate;
      ghost var m := Abs();
      var p := GetFreePage();
      if p == 0 { return false; }
      ghost var a := Abs();
      SwappedSlot(a, v);
      SwapInToOk(a, v, p);
      HeldPageUnused(a, p);
      BringIn(v, p);
      SameViewsTransitive(m, a, Abs());
      return true;
    }

    // -------------------------------------------------------------- mm/memory.c: mapping

    /** put_page and put_dirty_page: page p, which the kernel holds, becomes the page of entry v.
        False means there was no memory for a page table; p is then still the kernel's. */
    method PutPage(p: nat, v: nat, dirty: bool) returns (ok: bool)
      requires Valid() && IsHeld(Abs(), p) && TASK_PAGES <= v < VM_SIZE && Abs().pte[v] == Absent
      requires dirty || Abs().frames[p] == Backing(Abs(), v)
      modifies this, memMap, phys, pgDir, swapBitmap, swapDev
      ensures Valid()
      ensures ok ==> Mapped(old(Abs()), Abs(), v, p, dirty)
      ensures !ok ==> Evicted(old(Abs()), Abs())
      ensures !ok <==> old(pgDir[v / 1024].None? && NoPage())
      ensures old(pgDir[v / 1024].Some?) || SomeFree(old(Abs())) ==> ok
    {
      hide InvBut, Evicted, Tabled, Mapped, MapHeld, Backing, GetPage;
      ghost var m := Abs();
      var d := v / 1024;
      if pgDir[d].None? {
        ok := NewTable(d);
        if !ok { return; }
      } else {
        TabledSame(m, d);
      }
      TabledMap(m, Abs(), v, p, dirty);
      EnterPage(v, p, dirty);
      return true;
    }

    /** get_empty_page: a zeroed page at v. */
    method GetEmptyPage(v: nat) returns (ok: bool)
      requires Valid() && TASK_PAGES <= v < VM_SIZE && Abs().pte[v] == Absent && Backing(Abs(), v) == ZeroPage()
      modifies this, memMap, phys, pgDir, swapBitmap, swapDev
      ensures Valid() && SameViews(old(Abs()), Abs())
      ensures Abs().programs == old(Abs()).programs && Abs().holds == old(Abs()).holds
      ensures ok <==> Abs().pte[v].Present?
      ensures ok ==> Abs().pte[v].rw && !Abs().pte[v].dirty
      ensures !ok <==> old(NoneFor(v, ZeroPage()))
      ensures Room(old(Abs())) >= 2 ==> ok
    {
      hide InvBut, GetPage, SomeCandidate, View, Backing, SomeFree;
      ghost var m := Abs();
      var tmp := GetFreePage();
      RoomIsFree(m);
      if tmp == 0 { return false; }
      RoomAfter(m, Abs(), tmp);
      FillZero(Abs(), tmp);
      ok := PutNew(tmp, v, m);
    }

    /** Page p, just allocated and filled with what entry v is backed by, is mapped there or given back. */
    method PutNew(p: nat, v: nat, ghost m: Vm) returns (ok: bool)
      requires Valid() && SameViews(m, Abs()) && TASK_PAGES <= v < VM_SIZE && m.pte[v] == Absent
      requires IsHeld(Abs(), p) && Abs().frames[p] == Backing(m, v) && Abs().pte[v] == Absent
      requires Abs().programs == m.programs && Abs().holds[p - LOW_PAGE := 0] == m.holds
      modifies this, memMap, phys, pgDir, swapBitmap, swapDev
      ensures Valid() && SameViews(m, Abs())
      ensures Abs().programs == m.programs && Abs().holds == m.holds
      ensures ok <==> Abs().pte[v].Present?
      ensures ok ==> Abs().pte[v].rw && !Abs().pte[v].dirty
      ensures !ok <==> old(pgDir[v / 1024].None? && NoPage())
      ensures SomeFree(old(Abs())) ==> ok
    {
      hide InvBut, NoPage;
      ghost var b := Abs();
      ok := PutPage(p, v, false);
      ghost var c := Abs();
      if ok {
        assert View(c, v) == View(m, v);
        SameViewsBut(m, b, c, v);
      } else {
        SameViewsTransitive(m, b, c);
        GiveBack(p);
        SameViewsTransitive(m, c, Abs());
        assert Abs().pte[v] == Absent;
      }
    }

    // -------------------------------------------------------------- mm/memory.c: write protection

    /** Valid, except that entry v may be clean without being reloadable. */
    ghost predicate ValidBut(v: nat)
      reads this, memMap, phys, pgDir, swapBitmap, swapDev, tasks
    {
      Wired() && InvBut(Abs(), v) && TASK_DIRS <= dirEntry < TABLE_SIZE && -1 <= pageEntry < TABLE_SIZE
    }

    /** The page of entry v has no other user, so un_wp_page only sets the R/W bit. */
    ghost predicate Unshared(v: nat)
      requires Wired() && v < VM_SIZE
      reads this, memMap, phys, pgDir, swapBitmap, swapDev, tasks
    {
      CountOne(Abs(), v)
    }

    /** get_free_page would leave entry v alone. */
    ghost predicate Kept(v: nat)
      requires Valid() && v < VM_SIZE
      reads this, memMap, phys, pgDir, swapBitmap, swapDev, tasks
    {
      Keeps(Abs(), dirEntry, pageEntry, v)
    }

    /** un_wp_page. False means out of memory, and the task is killed. It remembers the old page while it
        asks for a new one: if that page is shared and lost meanwhile, and only then, its reference byte is
        wrong in the end. The copy is not marked dirty: the invariant survives only if the copied page
        happens to be what a demand load would bring back. */
    method UnWpPage(v: nat) returns (ok: bool)
      requires Valid() && v < VM_SIZE && Abs().pte[v].Present?
      modifies this, memMap, phys, swapBitmap, swapDev
      ensures Wired() && IsCursor(dirEntry, pageEntry)
      ensures ok ==> (CountsOk(Abs()) <==> old(Unshared(v) || Kept(v)))
      ensures ok ==> old(Unshared(v) || Kept(v)) || OneShort(Abs(), old(Abs()).pte[v].page)
      ensures !ok <==> old(!Unshared(v) && NoPage())
      ensures ok && old(Unshared(v) || Kept(v)) ==> ValidBut(v) && SameViews(old(Abs()), Abs()) && Writable(Abs(), v)
      ensures Abs().programs == old(Abs()).programs && Abs().holds == old(Abs()).holds
      ensures !ok ==> Valid() && SameViews(old(Abs()), Abs())
      ensures !ok && old(Kept(v)) ==> Abs().pte[v] == old(Abs()).pte[v]
      ensures old(Unshared(v) || SomeFree(Abs())) ==> ok
      ensures old(Unshared(v)) ==> Valid() && Abs() == Unprotect(old(Abs()), v)
      ensures !old(Unshared(v)) && old(SomeFree(Abs())) ==> CopiedAlone(old(Abs()), v, Abs())
      ensures !old(Unshared(v)) && old(Kept(v)) && ok ==> (Valid() <==> View(old(Abs()), v) == Backing(old(Abs()), v))
    {
      hide InvBut, Keeps;
      ghost var m := Abs();
      var e := ReadEntry(v);
      var q := e.page;
      PresentEntry(m, v);
      if q >= LOW_PAGE && memMap[q - LOW_PAGE] == 1 {
        UnprotectOk(m, v);
        InvWeaken(Unprotect(m, v), v);
        InvCounts(Unprotect(m, v), -1);
        WriteEntry(v, e.(rw := true));
        return true;
      }
      ok := BreakSharing(v, q);
    }

    /** The rest of un_wp_page: entry v gets a copy of shared page q. */
    method BreakSharing(v: nat, q: nat) returns (ok: bool)
      requires Valid() && v < VM_SIZE && Abs().pte[v].Present? && Abs().pte[v].page == q
      modifies this, memMap, phys, swapBitmap, swapDev
      ensures Wired() && IsCursor(dirEntry, pageEntry)
      ensures ok ==> (CountsOk(Abs()) <==> old(Kept(v)))
      ensures ok ==> old(Kept(v)) || OneShort(Abs(), q)
      ensures !ok <==> old(NoPage())
      ensures ok && old(Kept(v)) ==> ValidBut(v) && SameViews(old(Abs()), Abs()) && Writable(Abs(), v)
      ensures Abs().programs == old(Abs()).programs && Abs().holds == old(Abs()).holds
      ensures !ok ==> Valid() && SameViews(old(Abs()), Abs())
      ensures !ok && old(Kept(v)) ==> Abs().pte[v] == old(Abs()).pte[v]
      ensures old(SomeFree(Abs())) ==> ok && CopiedAlone(old(Abs()), v, Abs())
      ensures old(Kept(v)) && ok ==> (Valid() <==> View(old(Abs()), v) == Backing(old(Abs()), v))
    {
      hide InvBut, View, Backing, CountOne, SomeCandidate, GetPage, CopiedAlone, CountsOk, OneShort, KeepsPinned;
      hide SomeFree, Writable;
      ghost var m, d, e := Abs(), dirEntry, pageEntry;
      PresentEntry(m, v);
      var p := GetFreePage();
      ghost var a := Abs();
      if p == 0 { return false; }
      HeldPageUnused(a, p);
      if q >= LOW_PAGE { SetCount(q - LOW_PAGE, Down(memMap[q - LOW_PAGE])); }
      WritePage(p, Bytes(phys[q]));
      EnterPageOver(v, p, false);
      CopyResult(m, d, e, a, p, v, q, Abs());
      if SomeFree(m) { CopyAlone(m, a, p, v, q, Abs()); }
      ok := true;
    }

    /** do_wp_page: the fault on a present, read-only page. */
    method DoWpPage(v: nat) returns (ok: bool)
      requires Valid() && TASK_PAGES <= v < VM_SIZE && Abs().pte[v].Present?
      requires Unshared(v) || Kept(v)
      modifies this, memMap, phys, swapBitmap, swapDev
      ensures ValidBut(v) && SameViews(old(Abs()), Abs())
      ensures Abs().programs == old(Abs()).programs && Abs().holds == old(Abs()).holds
      ensures if ok then Writable(Abs(), v) else Valid() && Abs().pte[v] == old(Abs()).pte[v]
      ensures !ok <==> old(!Unshared(v) && NoPage())
      ensures old(Unshared(v) || SomeFree(Abs())) ==> ok
    {
      hide InvBut, Keeps;
      ok := UnWpPage(v);
      if !ok { InvWeaken(Abs(), v); }
    }

    /** write_verify: like do_wp_page, but for any page; absent and writable pages are left alone. */
    method WriteVerify(v: nat) returns (ok: bool)
      requires Valid() && v < VM_SIZE
      requires Abs().pte[v].Present? && !Abs().pte[v].rw ==> Unshared(v) || Kept(v)
      modifies this, memMap, phys, swapBitmap, swapDev
      ensures ValidBut(v) && SameViews(old(Abs()), Abs())
      ensures Abs().programs == old(Abs()).programs
      ensures ok && Abs().pte[v].Present? ==> Abs().pte[v].rw
      ensures ok ==> (Valid() <==>
        old(!(Abs().pte[v].Present? && !Abs().pte[v].rw) || Unshared(v) || View(Abs(), v) == Backing(Abs(), v)))
      ensures !ok <==> old(Abs().pte[v].Present? && !Abs().pte[v].rw && !Unshared(v) && NoPage())
    {
      hide InvBut, Keeps, View, Backing;
      InvWeaken(Abs(), v);
      var e := ReadEntry(v);
      ok := true;
      if e.Present? && !e.rw {
        ok := UnWpPage(v);
        if !ok { InvWeaken(Abs(), v); }
      }
    }

    /** One store by a task to a page it may write: the processor writes and sets the dirty bit. */
    method Write(v: nat, o: nat, b: byte)
      requires ValidBut(v) && v < VM_SIZE && Writable(Abs(), v) && o < PAGE_SIZE
      modifies phys
      ensures Valid() && Abs() == StoreByte(old(Abs()), v, o, b)
    {
      ghost var m := Abs();
      StoreByteOk(m, v, o, b);
      WritableUnused(m, v);
      var e := ReadEntry(v);
      WritePage(e.page, Bytes(phys[e.page])[o := b]);
      WriteEntry(v, e.(dirty := true));
    }

    // -------------------------------------------------------------- mm/memory.c: demand loading

    /** try_to_share: current task t takes the page that task q has at logical page lp, if that page is
        present, clean and in main memory. The entry of t is known to be absent (a panic otherwise); oom means
        that there was no page for a table, and the task is killed. The entry of q is read before the table is
        allocated: if the page is lost meanwhile, and only then, its reference byte is wrong in the end. */
    method TryToShare(lp: nat, q: nat, t: nat) returns (done: bool, oom: bool)
      requires Valid() && lp < TASK_PAGES && 0 < q < NR_TASKS && 0 < t < NR_TASKS && q != t
      requires Abs().pte[t * TASK_PAGES + lp] == Absent
      requires Content(Abs().programs[q], lp) == Content(Abs().programs[t], lp)
      modifies this, memMap, phys, pgDir, swapBitmap, swapDev
      ensures Wired() && IsCursor(dirEntry, pageEntry)
      ensures done || oom <==> CleanIn(old(Abs()), q * TASK_PAGES + lp)
      ensures !(done && oom) && (oom ==> !old(SomeFree(Abs())))
      ensures done || oom ==> (oom <==> (Place(t, lp); old(pgDir[(t * TASK_PAGES + lp) / 1024].None? && NoPage())))
      ensures done ==> (CountsOk(Abs()) <==> !old(ShareLost(lp, q, t)))
      ensures done && old(ShareLost(lp, q, t)) ==> OneOver(Abs(), old(Abs()).pte[q * TASK_PAGES + lp].page)
      ensures !done || !old(ShareLost(lp, q, t)) ==> Valid() && SameViews(old(Abs()), Abs())
      ensures Abs().programs == old(Abs()).programs && Abs().holds == old(Abs()).holds
      ensures !done && !oom ==> Abs() == old(Abs()) && dirEntry == old(dirEntry) && pageEntry == old(pageEntry)
      ensures oom ==> Abs().pte[t * TASK_PAGES + lp] == Absent
      ensures done && !old(ShareLost(lp, q, t)) ==>
        SharedAt(Abs(), t * TASK_PAGES + lp) && (Place(t, lp); TableSpent(old(Abs()), Abs(), t * TASK_PAGES + lp))
    {
      hide InvBut, View, Content, Keeps, CountsOk, SomeFree, OneOver, NoPage;
      ghost var m := Abs();
      Place(q, lp);
      Place(t, lp);
      var v, w := q * TASK_PAGES + lp, t * TASK_PAGES + lp;
      var e := ReadEntry(v);
      done, oom := false, false;
      if !e.Present? || e.dirty { return; }
      PresentEntry(m, v);
      if e.page >= phys.Length || e.page < LOW_PAGE { return; }
      done := ShareFound(v, w, e.page);
      oom := !done;
    }

    /** The rest of try_to_share, once page q of entry v has been found fit to be shared. */
    method ShareFound(v: nat, w: nat, q: nat) returns (ok: bool)
      requires Valid() && v < VM_SIZE && CleanIn(Abs(), v) && Abs().pte[v].page == q < phys.Length
      requires TASK_PAGES <= w < VM_SIZE && Abs().pte[w] == Absent && Backing(Abs(), v) == Backing(Abs(), w)
      requires v % TASK_PAGES == w % TASK_PAGES
      modifies this, memMap, phys, pgDir, swapBitmap, swapDev
      ensures Wired() && IsCursor(dirEntry, pageEntry)
      ensures Abs().programs == old(Abs()).programs && Abs().holds == old(Abs()).holds
      ensures !ok ==> Valid() && SameViews(old(Abs()), Abs()) && Abs().pte[w] == Absent && !old(SomeFree(Abs()))
      ensures !ok <==> old(pgDir[w / 1024].None? && NoPage())
      ensures ok ==> (CountsOk(Abs()) <==> old(pgDir[w / 1024].Some? || Kept(v)))
      ensures ok ==> old(pgDir[w / 1024].Some? || Kept(v)) || OneOver(Abs(), q)
      ensures ok && old(pgDir[w / 1024].Some? || Kept(v)) ==>
        && Valid() && SameViews(old(Abs()), Abs())
        && SharedAt(Abs(), w) && TableSpent(old(Abs()), Abs(), w)
    {
      hide InvBut, View, Backing, Keeps, GetPage, SomeCandidate, CountsOk, OneOver, KeepsPinned, SomeFree;
      ghost var m, d, e := Abs(), dirEntry, pageEntry;
      PresentEntry(m, v);
      if pgDir[w / 1024].None? {
        KeepsClean(m, d, e, v);
        ok := NewTable(w / 1024);
        RoomIsFree(m);
        if !ok { return; }
      }
      ghost var b := Abs();
      LinkNow(v, w, q);
      ShareResult(m, b, v, w, q, Abs());
      ok := true;
    }

    /** The end of try_to_share, on the entries as they are now. */
    method LinkNow(v: nat, w: nat, q: nat)
      requires Wired() && v < VM_SIZE && w < VM_SIZE && pgDir[v / 1024].Some? && pgDir[w / 1024].Some?
      requires LOW_PAGE <= q < LOW_PAGE + PAGING_PAGES
      modifies memMap, phys
      ensures Wired() && Abs() == ShareNow(old(Abs()), v, w, q)
    {
      var e := ReadEntry(v);
      e := if e.Present? then e.(rw := false) else e;
      WriteEntry(v, e);
      WriteEntry(w, e);
      SetCount(q - LOW_PAGE, Up(memMap[q - LOW_PAGE]));
    }

    /** A table for directory slot d; false if there is no page for it. */
    method NewTable(d: nat) returns (ok: bool)
      requires Valid() && TASK_DIRS <= d < TABLE_SIZE && pgDir[d].None?
      modifies this, memMap, phys, pgDir, swapBitmap, swapDev
      ensures Valid() && (ok ==> Tabled(old(Abs()), Abs(), d)) && (!ok ==> Evicted(old(Abs()), Abs()))
      ensures Abs().pte == GetPage(old(Abs()), old(dirEntry), old(pageEntry)).m.pte && (!ok <==> old(NoPage()))
      ensures old(SomeFree(Abs())) ==> ok && Room(Abs()) == Room(old(Abs())) - 1
    {
      hide InvBut, Evicted, Tabled, View, GetPage, SomeCandidate;
      ghost var m := Abs();
      var p := GetFreePage();
      ghost var a := Abs();
      if p == 0 { return false; }
      TabledNew(m, a, d, p);
      if SomeFree(m) { RoomAlloc(m, p); }
      RoomSame(a, SetTable(a, d, p));
      InstallTable(d, p);
      ok := true;
    }

    /** try_to_share needs a table, and get_free_page takes the page to be shared away. */
    ghost predicate ShareLost(lp: nat, q: nat, t: nat)
      requires Valid() && lp < TASK_PAGES && q < NR_TASKS && t < NR_TASKS
      reads this, memMap, phys, pgDir, swapBitmap, swapDev, tasks
    {
      Place(q, lp);
      Place(t, lp);
      pgDir[(t * TASK_PAGES + lp) / 1024].None? && !Kept(q * TASK_PAGES + lp)
    }

    /** Entry w becomes a second, read-only user of the page of entry v. */
    method ShareEntries(v: nat, w: nat)
      requires Valid() && Shareable(Abs(), v, w)
      requires !Abs().pte[v].dirty && Abs().pte[v].page >= LOW_PAGE ==> Backing(Abs(), v) == Backing(Abs(), w)
      modifies memMap, phys
      ensures Valid()
      ensures Shared(old(Abs()), v, w, Abs())
      ensures forall u: nat | u < VM_SIZE :: View(Abs(), u) == View(old(Abs()), if u == w then v else u)
    {
      hide InvBut;
      ghost var m := Abs();
      ShareOk(m, v, w);
      PresentEntry(m, v);
      LinkEntries(v, w);
    }

    method LinkEntries(v: nat, w: nat)
      requires Wired() && Shareable(Abs(), v, w) && pgDir[v / 1024].Some?
      requires Abs().pte[v].page >= LOW_PAGE ==> Abs().count[Abs().pte[v].page - LOW_PAGE] < 255
      modifies memMap, phys
      ensures Wired() && Abs() == Share(old(Abs()), v, w)
    {
      var e := ReadEntry(v);
      e := e.(rw := false);
      if e.page >= LOW_PAGE {
        WriteEntry(v, e);
        SetCount(e.page - LOW_PAGE, memMap[e.page - LOW_PAGE] + 1);
      }
      WriteEntry(w, e);
    }

    /** share_page: look, from the last task down, for one that runs the same file and has the page
        clean in memory. users is the reference count of the file's inode. */
    method SharePage(f: File, users: nat, lp: nat, t: nat) returns (done: bool, oom: bool)
      requires Valid() && lp < TASK_PAGES && 0 < t < NR_TASKS
      requires Abs().pte[t * TASK_PAGES + lp] == Absent
      requires pgDir[(t * TASK_PAGES + lp) / 1024].None? && users >= 2 ==>
        ShareKept(Abs(), dirEntry, pageEntry, f, lp, t)
      requires RunsFrom(tasks[t], f, lp)
      modifies this, memMap, phys, pgDir, swapBitmap, swapDev
      ensures Valid() && SameViews(old(Abs()), Abs())
      ensures Abs().programs == old(Abs()).programs && Abs().holds == old(Abs()).holds
      ensures done || oom <==> users >= 2 && exists q: nat :: CanShareFrom(old(Abs()), f, lp, t, q)
      ensures !(done && oom) && (oom ==> !old(SomeFree(Abs())))
      ensures done || oom ==> (oom <==> (Place(t, lp); old(pgDir[(t * TASK_PAGES + lp) / 1024].None? && NoPage())))
      ensures done ==>
        SharedAt(Abs(), t * TASK_PAGES + lp) && (Place(t, lp); TableSpent(old(Abs()), Abs(), t * TASK_PAGES + lp))
      ensures oom ==> Abs().pte[t * TASK_PAGES + lp] == Absent
      ensures !done && !oom ==> Abs() == old(Abs()) && dirEntry == old(dirEntry) && pageEntry == old(pageEntry)
    {
      hide InvBut, Content, View, Keeps, SomeFree;
      ghost var m := Abs();
      done, oom := false, false;
      if users < 2 { return; }
      var q := NR_TASKS - 1;
      while q > 0
        invariant 0 <= q < NR_TASKS && Valid() && Abs() == m && !done && !oom
        invariant dirEntry == old(dirEntry) && pageEntry == old(pageEntry)
        invariant forall r: nat | q < r < NR_TASKS :: !CanShareFrom(m, f, lp, t, r)
      {
        assert CanShareFrom(m, f, lp, t, q) ==> FirstSharer(m, f, lp, t, q);
        done, oom := ShareWith(f, lp, q, t);
        if done || oom { return; }
        q := q - 1;
      }
    }

    /** One round of its loop: task q is tried if it runs the same file. */
    method ShareWith(f: File, lp: nat, q: nat, t: nat) returns (done: bool, oom: bool)
      requires Valid() && lp < TASK_PAGES && 0 < t < NR_TASKS && 0 < q < NR_TASKS
      requires Abs().pte[t * TASK_PAGES + lp] == Absent
      requires CanShareFrom(Abs(), f, lp, t, q) ==> !ShareLost(lp, q, t)
      requires RunsFrom(tasks[t], f, lp)
      modifies this, memMap, phys, pgDir, swapBitmap, swapDev
      ensures Valid() && SameViews(old(Abs()), Abs())
      ensures Abs().programs == old(Abs()).programs && Abs().holds == old(Abs()).holds
      ensures done || oom <==> CanShareFrom(old(Abs()), f, lp, t, q)
      ensures !(done && oom) && (oom ==> !old(SomeFree(Abs())))
      ensures done || oom ==> (oom <==> (Place(t, lp); old(pgDir[(t * TASK_PAGES + lp) / 1024].None? && NoPage())))
      ensures done ==>
        SharedAt(Abs(), t * TASK_PAGES + lp) && (Place(t, lp); TableSpent(old(Abs()), Abs(), t * TASK_PAGES + lp))
      ensures oom ==> Abs().pte[t * TASK_PAGES + lp] == Absent
      ensures !done && !oom ==> Abs() == old(Abs()) && dirEntry == old(dirEntry) && pageEntry == old(pageEntry)
    {
      hide InvBut, Content, View, Keeps, SomeFree, CountsOk;
      ghost var m := Abs();
      done, oom := false, false;
      if q != t && RunsFrom(tasks[q], f, lp) {
        SameContent(m.programs[q], m.programs[t], f, lp);
        Place(q, lp);
        done, oom := TryToShare(lp, q, t);
      }
    }

    /** bread_page: four blocks of the file. */
    method BreadPage(f: File, block: nat) returns (bytes: seq<byte>)
      ensures |bytes| == 4096 && bytes == FilePage(f, block)
    {
      bytes := [];
      for k := 0 to 4
        invariant |bytes| == k * 1024
        invariant bytes == FilePage(f, block)[..k * 1024]
      {
        bytes := bytes + FileBlock(f, block + k);
      }
    }

    /** The part of do_no_page that reads a page: whatever of it lies beyond end_data (by less than a
        page) is cleared byte by byte from its end. */
    method LoadPage(f: File, block: nat, lp: nat, endData: nat) returns (x: Page)
      ensures x == if lp * 4096 < endData then Clipped(FilePage(f, block), endData - lp * 4096) else FilePage(f, block)
    {
      hide FilePage;
      var bytes := BreadPage(f, block);
      ghost var whole := FilePage(f, block);
      var i := lp * 4096 + 4096 - endData;
      if i > 4095 { i := 0; }
      ghost var n := if i > 0 then i else 0;
      var tmp := 4096;
      assert whole[..4096] + Zeros(0) == whole;
      while i > 0
        invariant |bytes| == 4096 && 0 <= tmp <= 4096 && tmp - (if i > 0 then i else 0) == 4096 - n
        invariant bytes == whole[..tmp] + Zeros(4096 - tmp)
      {
        i := i - 1;
        tmp := tmp - 1;
        bytes := bytes[tmp := 0];
      }
      x := bytes;
    }

    /** Should do_no_page share a page and need a table for that, get_free_page would not take the page away. */
    ghost predicate ShareSafe(t: nat, v: nat, users: nat)
      requires Valid() && t < NR_TASKS && v < VM_SIZE
      reads this, memMap, phys, pgDir, swapBitmap, swapDev, tasks
    {
      pgDir[v / 1024].None? && users >= 2 && FileAt(tasks[t], v % TASK_PAGES).Some? ==>
        ShareKept(Abs(), dirEntry, pageEntry, FileAt(tasks[t], v % TASK_PAGES).value, v % TASK_PAGES, t)
    }

    /** do_no_page: task t touched linear page v, which is not present. False means out of memory, and
        the task is killed. users is the reference count of the inode, should one be asked for. */
    method DoNoPage(t: nat, v: nat, users: nat) returns (ok: bool)
      requires Valid() && 0 < t < NR_TASKS && v / TASK_PAGES == t && !Abs().pte[v].Present?
      requires ShareSafe(t, v, users)
      modifies this, memMap, phys, pgDir, swapBitmap, swapDev
      ensures Valid() && SameViews(old(Abs()), Abs())
      ensures Abs().programs == old(Abs()).programs && Abs().holds == old(Abs()).holds
      ensures ok <==> Abs().pte[v].Present?
      ensures Room(old(Abs())) >= 2 ==> ok
      ensures !ok <==> FaultFails(old(Abs()), old(dirEntry), old(pageEntry), t, v, users)
      ensures ok ==> BroughtIn(old(Abs()), Abs(), t, v, users)
    {
      hide InvBut, View, Backing, Content, Shares, SomeFree, ShareKept, GetPage, NoPageFor;
      RoomIsFree(Abs());
      var e := ReadEntry(v);
      if e == Absent { SharesFile(Abs(), t, v, users); } else { SwappedAlone(Abs(), t, v, users); }
      if e.Swapped? {
        ok := SwapIn(v);
        return;
      }
      var lp := v % TASK_PAGES;
      var g := tasks[t];
      var endData := if g.executable.Some? then g.executable.value.endData else 0;
      if lp >= LIBRARY_PAGE {
        if g.library.None? {
          ZeroBacked(Abs(), v);
          ok := GetEmptyPage(v);
        } else {
          ok := LoadOrShare(t, v, users, g.library.value, 1 + (lp - LIBRARY_PAGE) * 4, endData);
        }
      } else if lp * 4096 < endData {
        ok := LoadOrShare(t, v, users, g.executable.value, 1 + lp * 4, endData);
      } else {
        ZeroBacked(Abs(), v);
        ok := GetEmptyPage(v);
      }
    }

    lemma ZeroBacked(m: Vm, v: nat)
      requires v < VM_SIZE && FileAt(m.programs[v / TASK_PAGES], v % TASK_PAGES).None?
      ensures Backing(m, v) == ZeroPage()
    {
      ContentIs(m.programs[v / TASK_PAGES], v % TASK_PAGES);
    }

    /** The rest of do_no_page, for a page that comes from file f. */
    method LoadOrShare(t: nat, v: nat, users: nat, f: File, block: nat, endData: nat) returns (ok: bool)
      requires Valid() && 0 < t < NR_TASKS && v / TASK_PAGES == t && Abs().pte[v] == Absent
      requires ShareSafe(t, v, users)
      requires FileAt(tasks[t], v % TASK_PAGES) == Some(f)
      requires block == BlockAt(v % TASK_PAGES) && endData == EndData(tasks[t])
      modifies this, memMap, phys, pgDir, swapBitmap, swapDev
      ensures Valid() && SameViews(old(Abs()), Abs())
      ensures Abs().programs == old(Abs()).programs && Abs().holds == old(Abs()).holds
      ensures ok <==> Abs().pte[v].Present?
      ensures Room(old(Abs())) >= 2 ==> ok
      ensures !ok <==> FaultFails(old(Abs()), old(dirEntry), old(pageEntry), t, v, users)
      ensures ok ==> BroughtIn(old(Abs()), Abs(), t, v, users)
    {
      hide InvBut, View, Content, Clipped, FilePage, CanShareFrom, ShareKept, SomeFree, Shares, GetPage, NoPageFor;
      SharesFile(Abs(), t, v, users);
      var lp := v % TASK_PAGES;
      Place(t, lp);
      assert v == t * TASK_PAGES + lp;
      ContentIs(tasks[t], lp);
      RoomIsFree(Abs());
      var oom;
      ok, oom := SharePage(f, users, lp, t);
      RoomIsFree(Abs());
      if !ok && !oom { ok := DemandLoad(v, lp, f, block, endData); }
    }

    /** A page for entry v is read from file f. */
    method DemandLoad(v: nat, lp: nat, f: File, block: nat, endData: nat) returns (ok: bool)
      requires Valid() && TASK_PAGES <= v < VM_SIZE && Abs().pte[v] == Absent
      requires Backing(Abs(), v) == if lp * 4096 < endData
        then Clipped(FilePage(f, block), endData - lp * 4096) else FilePage(f, block)
      modifies this, memMap, phys, pgDir, swapBitmap, swapDev
      ensures Valid() && SameViews(old(Abs()), Abs())
      ensures Abs().programs == old(Abs()).programs && Abs().holds == old(Abs()).holds
      ensures ok <==> Abs().pte[v].Present?
      ensures ok ==> Abs().pte[v].rw && !Abs().pte[v].dirty
      ensures !ok <==> old(NoneFor(v, Backing(Abs(), v)))
      ensures Room(old(Abs())) >= 2 ==> ok
    {
      hide InvBut, View, Backing, Clipped, FilePage, GetPage, SomeCandidate;
      ghost var m := Abs();
      var p := GetFreePage();
      RoomIsFree(m);
      if p == 0 { return false; }
      RoomAfter(m, Abs(), p);
      var x := LoadPage(f, block, lp, endData);
      ok := FillAndPut(p, v, x, m);
    }

    /** Page p, just allocated, is filled with what entry v is backed by and mapped there. */
    method FillAndPut(p: nat, v: nat, x: Page, ghost m: Vm) returns (ok: bool)
      requires Valid() && Allocated(m, Abs(), p) && TASK_PAGES <= v < VM_SIZE && m.pte[v] == Absent
      requires x == Backing(m, v)
      modifies this, memMap, phys, pgDir, swapBitmap, swapDev
      ensures Valid() && SameViews(m, Abs())
      ensures Abs().programs == m.programs && Abs().holds == m.holds
      ensures ok <==> Abs().pte[v].Present?
      ensures ok ==> Abs().pte[v].rw && !Abs().pte[v].dirty
      ensures Inv(Fill(old(Abs()), p, x))
      ensures !ok <==>
        old(pgDir[v / 1024]).None? && GetPage(Fill(old(Abs()), p, x), old(dirEntry), old(pageEntry)).page == 0
      ensures SomeFree(old(Abs())) ==> ok
    {
      hide InvBut, View, Backing, GetPage, KeepsPinned;
      ghost var a := Abs();
      assert a.holds[p - LOW_PAGE := 0] == m.holds;
      FillOk(a, p, x);
      HeldPageUnused(a, p);
      WritePage(p, x);
      StillFree(a, Abs());
      SameViewsTransitive(m, a, Abs());
      ok := PutNew(p, v, m);
    }

    // -------------------------------------------------------------- teardown and fork

    /** free_page_tables on n directory slots from d0 on; task 0 cannot be freed (a panic otherwise). */
    method FreePageTables(d0: nat, n: nat)
      requires Valid() && TASK_DIRS <= d0 && d0 + n <= TABLE_SIZE
      modifies memMap, phys, pgDir, swapBitmap
      ensures Valid() && Freed(old(Abs()), Abs(), d0, n)
    {
      hide InvBut;
      ghost var m := Abs();
      ClearNothing(m, d0);
      for d := d0 to d0 + n
        invariant Valid() && Clearing(m, Abs(), d0, d, d * 1024)
      {
        if pgDir[d].None? {
          ClearNoTable(m, Abs(), d0, d);
        } else {
          FreeTable(m, d0, d);
        }
      }
    }

    /** One round of free_page_tables: the entries of one table, then the table itself. */
    method FreeTable(ghost m: Vm, d0: nat, d: nat)
      requires Valid() && d0 <= d < TABLE_SIZE && Clearing(m, Abs(), d0, d, d * 1024) && pgDir[d].Some?
      modifies memMap, phys, pgDir, swapBitmap
      ensures Valid() && Clearing(m, Abs(), d0, d + 1, (d + 1) * 1024)
    {
      hide InvBut;
      FreeEntries(m, d0, d);
      ClearTable(m, Abs(), d0, d);
      DropEmptyTable(d);
    }

    method FreeEntries(ghost m: Vm, d0: nat, d: nat)
      requires Valid() && d0 <= d < TABLE_SIZE && Clearing(m, Abs(), d0, d, d * 1024) && pgDir[d].Some?
      modifies memMap, phys, swapBitmap
      ensures Valid() && Clearing(m, Abs(), d0, d, (d + 1) * 1024)
    {
      hide InvBut;
      for nr := 0 to 1024
        invariant Valid() && Clearing(m, Abs(), d0, d, d * 1024 + nr)
      {
        FreeNext(m, d0, d, d * 1024 + nr);
      }
    }

    method FreeNext(ghost m: Vm, d0: nat, d: nat, v: nat)
      requires Valid() && d0 <= d < TABLE_SIZE && v / 1024 == d && Clearing(m, Abs(), d0, d, v) && pgDir[d].Some?
      modifies memMap, phys, swapBitmap
      ensures Valid() && Clearing(m, Abs(), d0, d, v + 1)
    {
      hide InvBut;
      ClearEntry(m, Abs(), d0, d, v);
      FreeEntry(v);
    }

    method FreeEntry(v: nat)
      requires Wired() && v < VM_SIZE && pgDir[v / 1024].Some?
      requires Abs().pte[v].Present? && LOW_PAGE <= Abs().pte[v].page ==>
        Abs().pte[v].page < phys.Length && Abs().count[Abs().pte[v].page - LOW_PAGE] > 0
      requires Abs().pte[v].Swapped? ==> 0 < Abs().pte[v].slot < SWAP_BITS
      modifies memMap, phys, swapBitmap
      ensures Wired()
      ensures Abs() == match old(Abs()).pte[v]
                       case Absent => old(Abs())
                       case Present(_, _, _) => Unmap(old(Abs()), v)
                       case Swapped(_) => FreeSlot(old(Abs()), v)
    {
      var e := ReadEntry(v);
      if e != Absent {
        if e.Present? {
          FreePage(e.page);
        } else {
          var bad := SwapFree(e.slot);
        }
        WriteEntry(v, Absent);
      }
    }

    method DropEmptyTable(d: nat)
      requires Wired() && d < TABLE_SIZE && pgDir[d].Some? && TableEmpty(Abs(), d)
      requires LOW_PAGE <= pgDir[d].value < phys.Length && Abs().count[pgDir[d].value - LOW_PAGE] > 0
      modifies memMap, pgDir
      ensures Wired() && Abs() == DropTable(old(Abs()), d)
    {
      FreePage(pgDir[d].value);
      FlattenDrop(pgDir[..], phys[..], d);
      ghost var was := pgDir[..];
      pgDir[d] := None;
      assert pgDir[..] == was[d := None];
    }

    /** copy_page_tables: the child's n directory slots from td on come to share everything below the
        parent's slots from fd on. False means that memory ran out half-way. */
    method CopyPageTables(fd: nat, td: nat, n: nat) returns (ok: bool)
      requires Valid() && CopyRange(Abs(), fd, td, n)
      requires forall d: nat | td <= d < td + n :: pgDir[d].None?
      modifies this, memMap, phys, pgDir, swapBitmap, swapDev
      ensures Valid()
      ensures ok ==> Copying(old(Abs()), Abs(), fd, td, n, (td + n) * 1024)
      ensures !ok ==> OutOfMemory(old(Abs()), Abs(), fd, td, n) && Starved(old(Abs()), fd, td, n)
    {
      hide InvBut, Progress, Copying, OutOfMemory, Starved;
      ghost var m := Abs();
      ProgressStart(m, fd, td, n);
      for d := 0 to n
        invariant Valid() && Progress(m, Abs(), fd, td, n, (td + d) * 1024, n - d)
        invariant forall c: nat | td + d <= c < td + n :: pgDir[c].None?
      {
        if pgDir[fd + d].None? {
          ProgressNoTable(m, Abs(), fd, td, n, td + d, n - d - 1);
        } else {
          ok := CopyTable(m, fd, td, n, d);
          if !ok { return; }
        }
      }
      ProgressEnd(m, Abs(), fd, td, n);
      ok := true;
    }

    /** One round of copy_page_tables: a table for the child, then entry by entry. */
    method CopyTable(ghost m: Vm, fd: nat, td: nat, n: nat, d: nat) returns (ok: bool)
      requires Valid() && d < n && TASK_DIRS <= td && td + n <= TABLE_SIZE
      requires Progress(m, Abs(), fd, td, n, (td + d) * 1024, n - d)
      requires forall c: nat | td + d <= c < td + n :: pgDir[c].None?
      modifies this, memMap, phys, pgDir, swapBitmap, swapDev
      ensures Valid() && forall c: nat | td + d < c < td + n :: pgDir[c].None?
      ensures ok ==> Progress(m, Abs(), fd, td, n, (td + d + 1) * 1024, n - d - 1)
      ensures !ok ==> OutOfMemory(m, Abs(), fd, td, n) && Starved(m, fd, td, n)
    {
      hide InvBut, Progress, Copying, OutOfMemory, Starved;
      ok := GiveTable(m, fd, td, n, d);
      if !ok { return; }
      for nr := 0 to 1024
        invariant Valid() && Progress(m, Abs(), fd, td, n, (td + d) * 1024 + nr, n - d - 1)
        invariant pgDir[td + d].Some? && forall c: nat | td + d < c < td + n :: pgDir[c].None?
      {
        ok := CopyEntry(m, fd, td, n, (td + d) * 1024 + nr, n - d - 1);
        if !ok { return; }
      }
      ok := true;
    }

    method GiveTable(ghost m: Vm, fd: nat, td: nat, n: nat, d: nat) returns (ok: bool)
      requires Valid() && d < n && TASK_DIRS <= td && td + n <= TABLE_SIZE && pgDir[td + d].None?
      requires Progress(m, Abs(), fd, td, n, (td + d) * 1024, n - d)
      modifies this, memMap, phys, pgDir, swapBitmap, swapDev
      ensures Valid() && (if ok then pgDir[td + d].Some? else pgDir[td + d].None?)
      ensures forall c: nat | c < TABLE_SIZE && c != td + d :: pgDir[c] == old(pgDir[c])
      ensures ok ==> Progress(m, Abs(), fd, td, n, (td + d) * 1024, n - d - 1)
      ensures !ok ==> OutOfMemory(m, Abs(), fd, td, n) && Starved(m, fd, td, n)
    {
      hide InvBut, Progress, Copying, OutOfMemory, Starved, GetPage, SomeCandidate;
      ghost var k := Abs();
      var p := GetFreePage();
      if p == 0 {
        ProgressFails(m, k, Abs(), fd, td, n, (td + d) * 1024, n - d);
        ProgressCopying(m, k, fd, td, n, (td + d) * 1024, n - d);
        StarvedNow(m, k, fd, td, n, (td + d) * 1024, old(dirEntry), old(pageEntry));
        return false;
      }
      ProgressTable(m, k, Abs(), p, fd, td, n, td + d, n - d - 1);
      InstallTable(td + d, p);
      ok := true;
    }

    /** One entry of copy_page_tables. */
    method CopyEntry(ghost m: Vm, fd: nat, td: nat, n: nat, w: nat, ghost left: nat) returns (ok: bool)
      requires Valid() && w < (td + n) * 1024 && w < VM_SIZE && pgDir[w / 1024].Some?
      requires Progress(m, Abs(), fd, td, n, w, left)
      modifies this, memMap, phys, swapBitmap, swapDev
      ensures Valid()
      ensures ok ==> Progress(m, Abs(), fd, td, n, w + 1, left)
      ensures !ok ==> OutOfMemory(m, Abs(), fd, td, n) && Starved(m, fd, td, n)
    {
      hide InvBut, Progress, Copying, OutOfMemory, Starved, Shared, Shareable, Backing, View;
      ProgressSource(m, Abs(), fd, td, n, w, left);
      var v: nat := w + fd * 1024 - td * 1024;
      var e := ReadEntry(v);
      match e
      case Absent =>
        ProgressAbsent(m, Abs(), fd, td, n, w, left);
        ok := true;
      case Present(_, _, _) =>
        ghost var k := Abs();
        ProgressShareable(m, k, fd, td, n, w, v, left);
        ShareEntries(v, w);
        ProgressShare(m, k, Abs(), fd, td, n, w, v, left);
        ok := true;
      case Swapped(slot) =>
        ok := CopySwappedEntry(m, fd, td, n, v, w, slot, left);
    }

    method CopySwappedEntry(ghost m: Vm, fd: nat, td: nat, n: nat, v: nat, w: nat, slot: nat, ghost left: nat)
      returns (ok: bool)
      requires Valid() && w < (td + n) * 1024 && w < VM_SIZE && pgDir[w / 1024].Some?
      requires Progress(m, Abs(), fd, td, n, w, left)
      requires v == Source(w, fd, td) && v < VM_SIZE && Abs().pte[v] == Swapped(slot)
      modifies this, memMap, phys, swapBitmap, swapDev
      ensures Valid()
      ensures ok ==> Progress(m, Abs(), fd, td, n, w + 1, left)
      ensures !ok ==> OutOfMemory(m, Abs(), fd, td, n) && Starved(m, fd, td, n)
    {
      hide InvBut, Progress, Copying, OutOfMemory, Starved, GetPage, SomeCandidate;
      ghost var k := Abs();
      var p := GetFreePage();
      if p == 0 {
        ProgressFails(m, k, Abs(), fd, td, n, w, left);
        ProgressCopying(m, k, fd, td, n, w, left);
        StarvedNow(m, k, fd, td, n, w, old(dirEntry), old(pageEntry));
        return false;
      }
      ProgressSwapped(m, k, Abs(), p, fd, td, n, w, left);
      GiveSlotOk(Abs(), v, w, p);
      GiveSlotTo(v, w, p, slot);
      ok := true;
    }

    method GiveSlotTo(v: nat, w: nat, p: nat, slot: nat)
      requires Valid() && IsHeld(Abs(), p) && Mappable(Abs(), w) && v < VM_SIZE && pgDir[v / 1024].Some?
      requires Abs().pte[v].Swapped? && Abs().pte[v].slot == slot < SWAP_BITS
      modifies phys, this`holds
      ensures Wired() && Abs() == GiveSlot(old(Abs()), v, w, p)
      ensures dirEntry == old(dirEntry) && pageEntry == old(pageEntry)
    {
      ghost var m := Abs();
      HeldPageUnused(m, p);
      SwappedSlot(m, v);
      ReadSwapPage(slot, p);
      WriteEntry(w, Swapped(slot));
      EnterPageOver(v, p, true);
      assert m.pte[w := Swapped(slot)][v := Present(p, true, true)]
          == m.pte[v := Absent][v := Present(p, true, true)][w := Swapped(slot)];
      assert m.slots[slot := true][slot := false] == m.slots;
    }

    /** Copies the first 160 pages of the kernel's own table, where entry i names page i, for the fork of
        task 0; those pages lie below 1 MB, stay writable for the kernel and are not counted. */
    method CopyKernelPages(td: nat, dirtyBits: seq<bool>) returns (ok: bool)
      requires Valid() && TASK_DIRS <= td < TABLE_SIZE && pgDir[td].None? && |dirtyBits| == 160
      modifies this, memMap, phys, pgDir, swapBitmap, swapDev
      ensures Valid()
      ensures Abs().programs == old(Abs()).programs && Abs().holds == old(Abs()).holds
      ensures !ok <==> old(NoPage())
      ensures !ok ==> SameViews(old(Abs()), Abs()) && !SomeFree(old(Abs()))
      ensures ok ==> forall v: nat | v < VM_SIZE ::
        View(Abs(), v) == if td * 1024 <= v < td * 1024 + 160 then old(Abs()).frames[v - td * 1024]
          else View(old(Abs()), v)
    {
      hide InvBut, GetPage, SomeCandidate;
      ghost var m := Abs();
      TableAbsent(m, td);
      var p := GetFreePage();
      if p == 0 { return false; }
      ghost var a := Abs();
      assert a.holds[p - LOW_PAGE := 0] == m.holds;
      SetTableOk(a, td, p);
      InstallTable(td, p);
      SameViewsTransitive(m, a, Abs());
      assert KernelCopied(m, Abs(), td, 0);
      for i := 0 to 160
        invariant Valid() && KernelCopied(m, Abs(), td, i)
      {
        CopyKernelPage(m, td, i, dirtyBits[i]);
      }
      ok := true;
    }

    method CopyKernelPage(ghost m: Vm, td: nat, i: nat, dirty: bool)
      requires Valid() && TASK_DIRS <= td < TABLE_SIZE && i < 160 && KernelCopied(m, Abs(), td, i)
      modifies phys
      ensures Valid() && KernelCopied(m, Abs(), td, i + 1)
    {
      hide InvBut;
      MapLowOk(Abs(), td * 1024 + i, i, dirty);
      WriteEntry(td * 1024 + i, Present(i, false, dirty));
    }

    method LowPages() returns (pages: seq<Page>)
      requires Wired()
      ensures pages == Abs().frames[..160]
    {
      pages := [];
      for i := 0 to 160
        invariant pages == Abs().frames[..i]
      {
        pages := pages + [Bytes(phys[i])];
      }
    }

    method SetTask(t: nat, g: Program)
      requires Wired() && t < NR_TASKS
      modifies tasks
      ensures Wired() && Abs() == SetProgram(old(Abs()), t, g)
    {
      ghost var was := tasks[..];
      tasks[t] := g;
      assert tasks[..] == was[t := g];
    }

    /** No table in the 16 directory slots of task t. */
    ghost predicate Idle(t: nat)
      requires Wired() && t < NR_TASKS
      reads this, memMap, phys, pgDir, swapBitmap, swapDev, tasks
    {
      forall d: nat | t * TASK_DIRS <= d < (t + 1) * TASK_DIRS :: pgDir[d].None?
    }

    /** copy_mem: child c gets copies of the first n directory slots of task t, and its program.
        If memory runs out everything the child got so far is given back: all or nothing. */
    method CopyMem(t: nat, c: nat, n: nat) returns (ok: bool)
      requires Valid() && 0 < t < NR_TASKS && 0 < c < NR_TASKS && t != c && n <= TASK_DIRS && Idle(c)
      modifies this, memMap, phys, pgDir, swapBitmap, swapDev, tasks
      ensures Valid()
      ensures Abs().holds == old(Abs()).holds
      ensures Abs().programs == old(Abs()).programs[c := old(Abs()).programs[t]]
      ensures forall v: nat | v < VM_SIZE && v / TASK_PAGES != c :: View(Abs(), v) == View(old(Abs()), v)
      ensures forall v: nat | v < VM_SIZE && v / TASK_PAGES == c ::
        View(Abs(), v) == ForkView(old(Abs()), t, if ok then n else 0, v % TASK_PAGES)
      ensures !ok ==> Idle(c)
      ensures Fits(old(Abs()), t * TASK_DIRS, n) ==> ok
      ensures !ok ==> Starved(SetProgram(old(Abs()), c, old(Abs()).programs[t]), t * TASK_DIRS, c * TASK_DIRS, n)
    {
      hide InvBut, Slack, Copying, Starved;
      ghost var m := Abs();
      IdleEmpty(m, c);
      SetProgramOk(m, c, m.programs[t]);
      SetTask(c, tasks[t]);
      ghost var k := Abs();
      SlackProgram(m, k, t * TASK_DIRS * 1024, (t * TASK_DIRS + n) * 1024);
      ForkRange(m, t, c, n);
      ok := CopyPageTables(t * TASK_DIRS, c * TASK_DIRS, n);
      if ok {
        CopiedViews(m, k, Abs(), t, c, n);
      } else {
        ghost var h := Abs();
        FreePageTables(c * TASK_DIRS, n);
        UncopiedViews(m, k, h, Abs(), t, c, n);
      }
    }
  }
}
