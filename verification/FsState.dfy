// A MINIX file system as fs/bitmap.c, fs/inode.c and fs/truncate.c see it: i_zone[] of every inode,
// the blocks of the device, and the zone bit map.

module FsState {
  import opened Kernel

  function ZeroBlock(): (b: Block)
    ensures forall i: nat | i < 1024 :: b[i] == 0
  {
    seq(1024, _ => 0)
  }

  type U16 = w: nat | w < 65536
  type Row = r: seq<U16> | |r| == 9 witness [0, 0, 0, 0, 0, 0, 0, 0, 0]

  const MAX_BLOCKS: nat := 7 + 512 + 512 * 512

  // ---------------------------------------------------------------- 16-bit block numbers in a block

  function Word(b: Block, i: nat): U16
    requires i < 512
  {
    b[2 * i] as nat + 256 * b[2 * i + 1] as nat
  }

  function SetWord(b: Block, i: nat, w: U16): (b': Block)
    requires i < 512
    ensures forall j: nat | j < 512 :: Word(b', j) == if j == i then w else Word(b, j)
  {
    b[2 * i := w % 256][2 * i + 1 := w / 256]
  }

  lemma ZeroWords()
    ensures forall i: nat | i < 512 :: Word(ZeroBlock(), i) == 0
  {
  }

  // ---------------------------------------------------------------- where block numbers are kept

  /** Every place that can hold a zone number: i_zone[k]; the indirect block of an inode; its
      double-indirect block; and the blocks that one points to. */
  datatype Slot =
    | Top(ino: nat, k: nat)
    | Ind(ino: nat, i: nat)
    | Dind(ino: nat, i: nat)
    | Leaf(ino: nat, i: nat, j: nat)

  function Parent(s: Slot): Slot
    requires !s.Top?
  {
    match s
    case Ind(ino, _) => Top(ino, 7)
    case Dind(ino, _) => Top(ino, 8)
    case Leaf(ino, i, _) => Dind(ino, i)
  }

  /** The position of slot s in the block its parent names. */
  function Index(s: Slot): nat
    requires !s.Top?
  {
    match s
    case Ind(_, i) => i
    case Dind(_, i) => i
    case Leaf(_, _, j) => j
  }

  function Depth(s: Slot): nat {
    match s
    case Top(_, _) => 0
    case Ind(_, _) => 1
    case Dind(_, _) => 1
    case Leaf(_, _, _) => 2
  }

  /** The slot that names block n of a file. */
  function DataSlot(ino: nat, n: nat): Slot
    requires n < MAX_BLOCKS
  {
    if n < 7 then Top(ino, n)
    else if n < 519 then Ind(ino, n - 7)
    else Leaf(ino, (n - 519) / 512, (n - 519) % 512)
  }

  lemma DataSlotInjective(ino: nat, n: nat, ino': nat, n': nat)
    requires n < MAX_BLOCKS && n' < MAX_BLOCKS && (ino != ino' || n != n')
    ensures DataSlot(ino, n) != DataSlot(ino', n')
  {
  }

  // ---------------------------------------------------------------- the state

  /** bits is the zone map; bit j stands for zone j + first - 1. */
  datatype FsData = Fs(first: nat, nzones: nat, izone: seq<Row>, blocks: seq<Block>, bits: seq<bool>)

  predicate FsShape(f: FsData) {
    && 1 <= f.first <= f.nzones < 65536 && f.nzones <= |f.blocks|
    && f.nzones - f.first + 1 <= |f.bits|
  }

  type Fs = f: FsData | FsShape(f) witness Fs(1, 1, [], [ZeroBlock()], [true])

  predicate IsSlot(f: Fs, s: Slot) {
    match s
    case Top(ino, k) => ino < |f.izone| && k < 9
    case Ind(ino, i) => ino < |f.izone| && i < 512
    case Dind(ino, i) => ino < |f.izone| && i < 512
    case Leaf(ino, i, j) => ino < |f.izone| && i < 512 && j < 512
  }

  /** The zone number in slot s, 0 if there is none. */
  function Ptr(f: Fs, s: Slot): U16
    requires IsSlot(f, s)
    decreases Depth(s)
  {
    if s.Top? then f.izone[s.ino][s.k]
    else
      var p := Ptr(f, Parent(s));
      if p == 0 || p >= |f.blocks| then 0 else Word(f.blocks[p], Index(s))
  }

  function IsZone(f: Fs, z: nat): bool {
    f.first <= z < f.nzones
  }

  function Allocated(f: Fs, z: nat): bool
    requires IsZone(f, z)
  {
    f.bits[z - f.first + 1]
  }

  ghost predicate Owns(f: Fs, s: Slot, z: nat) {
    IsSlot(f, s) && Ptr(f, s) == z && z != 0
  }

  ghost predicate InZones(f: Fs) {
    forall s: Slot | IsSlot(f, s) && Ptr(f, s) != 0 :: IsZone(f, Ptr(f, s))
  }

  /** No zone is named twice. */
  ghost predicate Disjoint(f: Fs) {
    forall s: Slot, t: Slot | IsSlot(f, s) && IsSlot(f, t) && Ptr(f, s) != 0 && Ptr(f, s) == Ptr(f, t) :: s == t
  }

  ghost predicate Used(f: Fs, z: nat) {
    exists s: Slot :: Owns(f, s, z)
  }

  /** The zone map is exactly the set of named zones; the bits that stand for no zone are set. */
  ghost predicate MapExact(f: Fs) {
    && (forall z: nat | IsZone(f, z) :: Allocated(f, z) <==> Used(f, z))
    && f.bits[0]
    && (forall j: nat | f.nzones - f.first + 1 <= j < |f.bits| :: f.bits[j])
  }

  ghost predicate Inv(f: Fs) {
    InZones(f) && Disjoint(f) && MapExact(f)
  }

  /** No inode names any zone. */
  ghost predicate Blank(f: Fs) {
    && (forall ino: nat, k: nat | ino < |f.izone| && k < 9 :: f.izone[ino][k] == 0)
    && (forall j: nat | j < |f.bits| :: f.bits[j] == !(1 <= j <= f.nzones - f.first))
  }

  lemma BlankInv(f: Fs)
    requires Blank(f)
    ensures Inv(f) && forall s: Slot | IsSlot(f, s) :: Ptr(f, s) == 0
  {
    forall s: Slot | IsSlot(f, s) ensures Ptr(f, s) == 0 { BlankPtr(f, s); }
  }

  lemma BlankPtr(f: Fs, s: Slot)
    requires Blank(f) && IsSlot(f, s)
    ensures Ptr(f, s) == 0
    decreases Depth(s)
  {
    if !s.Top? { BlankPtr(f, Parent(s)); }
  }

  // ---------------------------------------------------------------- writing a slot

  /** Slot s gets zone number z. */
  function SetPtr(f: Fs, s: Slot, z: U16): Fs
    requires IsSlot(f, s)
  {
    if s.Top? then
      var row: seq<U16> := f.izone[s.ino][s.k := z];
      f.(izone := f.izone[s.ino := row])
    else
      var p := Ptr(f, Parent(s));
      if p >= |f.blocks| then f else f.(blocks := f.blocks[p := SetWord(f.blocks[p], Index(s), z)])
  }

  /** No slot below s holds anything. */
  ghost predicate Childless(f: Fs, s: Slot) {
    forall t: Slot | IsSlot(f, t) && !t.Top? && Parent(t) == s :: Ptr(f, t) == 0
  }

  ghost predicate Unnamed(f: Fs, z: nat) {
    forall u: Slot | IsSlot(f, u) :: Ptr(f, u) != z
  }

  lemma ZoneInRange(f: Fs, s: Slot)
    requires InZones(f) && IsSlot(f, s) && Ptr(f, s) != 0
    ensures IsZone(f, Ptr(f, s))
  {
  }

  lemma SameSlot(f: Fs, s: Slot, t: Slot)
    requires Disjoint(f) && IsSlot(f, s) && IsSlot(f, t) && Ptr(f, s) == Ptr(f, t) != 0
    ensures s == t
  {
  }

  /** Writing one slot changes that slot only, if neither its old nor its new block names zones. */
  lemma SetPtrFrame(f: Fs, s: Slot, z: U16, t: Slot)
    requires InZones(f) && Disjoint(f) && IsSlot(f, s) && IsSlot(f, t)
    requires !s.Top? ==> Ptr(f, Parent(s)) != 0
    requires Childless(f, s)
    requires z != 0 ==> z < |f.blocks| && f.blocks[z] == ZeroBlock() && Unnamed(f, z)
    ensures Ptr(SetPtr(f, s, z), t) == if t == s then z else Ptr(f, t)
    decreases Depth(t)
  {
    ZeroWords();
    hide Word, SetWord, InZones, Disjoint;
    var g := SetPtr(f, s, z);
    if !s.Top? { ZoneInRange(f, Parent(s)); }
    if !t.Top? {
      var p := Ptr(f, Parent(t));
      SetPtrFrame(f, s, z, Parent(t));
      if Parent(t) == s {
        assert z != 0 ==> g.blocks[z] == ZeroBlock();
      } else if !s.Top? && p == Ptr(f, Parent(s)) {
        SameSlot(f, Parent(t), Parent(s));
      }
    }
  }

  /** Overwriting a block that no inode uses for zone numbers changes no slot. */
  lemma BlockFrame(f: Fs, z: nat, b: Block, t: Slot)
    requires IsSlot(f, t) && z < |f.blocks|
    requires forall u: Slot | IsSlot(f, u) && !u.Top? :: Ptr(f, Parent(u)) != z
    ensures Ptr(f.(blocks := f.blocks[z := b]), t) == Ptr(f, t)
    decreases Depth(t)
  {
    if !t.Top? {
      BlockFrame(f, z, b, Parent(t));
      assert Ptr(f, Parent(t)) != z;
    }
  }

  lemma BitsFrame(f: Fs, bits: seq<bool>, t: Slot)
    requires |bits| == |f.bits| && IsSlot(f, t)
    ensures Ptr(f.(bits := bits), t) == Ptr(f, t)
    decreases Depth(t)
  {
    if !t.Top? { BitsFrame(f, bits, Parent(t)); }
  }

  /** Slot s changed to z, which no other slot names, and the zone map followed. */
  lemma InvUpdate(f: Fs, g: Fs, s: Slot, z: nat)
    requires Inv(f) && IsSlot(f, s) && (z != 0 ==> IsZone(f, z))
    requires g.first == f.first && g.nzones == f.nzones && |g.izone| == |f.izone| && |g.bits| == |f.bits|
    requires forall t: Slot | IsSlot(f, t) :: Ptr(g, t) == if t == s then z else Ptr(f, t)
    requires forall t: Slot | IsSlot(f, t) && t != s && z != 0 :: Ptr(f, t) != z
    requires forall y: nat | IsZone(f, y) :: Allocated(g, y) == (y == z || (Allocated(f, y) && y != Ptr(f, s)))
    requires g.bits[0] && forall j: nat | f.nzones - f.first + 1 <= j < |f.bits| :: g.bits[j]
    ensures Inv(g)
  {
    forall y: nat | IsZone(g, y) ensures Allocated(g, y) <==> Used(g, y) {
      if y == z { assert Owns(g, s, y); }
      if Used(f, y) && y != Ptr(f, s) {
        var t: Slot :| Owns(f, t, y);
        assert Owns(g, t, y);
      }
      if Used(g, y) && y != z {
        var t: Slot :| Owns(g, t, y);
        assert Owns(f, t, y);
        assert y == Ptr(f, s) ==> t == s;
      }
    }
  }

  // ---------------------------------------------------------------- allocation

  lemma FreeUnowned(f: Fs, z: nat)
    requires Inv(f) && IsZone(f, z) && !Allocated(f, z)
    ensures Unnamed(f, z)
  {
    forall s: Slot | IsSlot(f, s) ensures Ptr(f, s) != z {
      if Ptr(f, s) == z { assert Owns(f, s, z); }
    }
  }

  /** The block of zone z is zeroed. */
  function Zeroed(f: Fs, z: nat): Fs
    requires IsZone(f, z)
  {
    f.(blocks := f.blocks[z := ZeroBlock()])
  }

  /** new_block and the pointer stored: a free zone, zeroed and marked, goes into empty slot s. */
  function Attach(f: Fs, s: Slot, z: nat): Fs
    requires IsSlot(f, s) && IsZone(f, z)
  {
    var h := SetPtr(Zeroed(f, z), s, z);
    h.(bits := h.bits[z - f.first + 1 := true])
  }

  /** Zeroing a free block disturbs no zone number. */
  lemma ZeroedOk(f: Fs, z: nat)
    requires Inv(f) && IsZone(f, z) && !Allocated(f, z)
    ensures var k := Zeroed(f, z);
      && (forall u: Slot | IsSlot(f, u) :: Ptr(k, u) == Ptr(f, u))
      && InZones(k) && Disjoint(k) && Unnamed(k, z)
  {
    FreeUnowned(f, z);
    forall u: Slot | IsSlot(f, u) ensures Ptr(Zeroed(f, z), u) == Ptr(f, u) { BlockFrame(f, z, ZeroBlock(), u); }
  }

  lemma AttachFrame(f: Fs, s: Slot, z: nat, t: Slot)
    requires Inv(f) && IsSlot(f, s) && IsZone(f, z) && !Allocated(f, z) && Ptr(f, s) == 0 && IsSlot(f, t)
    requires !s.Top? ==> Ptr(f, Parent(s)) != 0
    ensures Ptr(Attach(f, s, z), t) == if t == s then z else Ptr(f, t)
  {
    ZeroedOk(f, z);
    hide Inv;
    var k := Zeroed(f, z);
    SetPtrFrame(k, s, z, t);
    var h := SetPtr(k, s, z);
    BitsFrame(h, h.bits[z - f.first + 1 := true], t);
  }

  lemma AttachOk(f: Fs, s: Slot, z: nat)
    requires Inv(f) && IsSlot(f, s) && IsZone(f, z) && !Allocated(f, z) && Ptr(f, s) == 0
    requires !s.Top? ==> Ptr(f, Parent(s)) != 0
    ensures Inv(Attach(f, s, z))
    ensures forall t: Slot | IsSlot(f, t) :: Ptr(Attach(f, s, z), t) == if t == s then z else Ptr(f, t)
  {
    FreeUnowned(f, z);
    forall t: Slot | IsSlot(f, t) ensures Ptr(Attach(f, s, z), t) == if t == s then z else Ptr(f, t) {
      AttachFrame(f, s, z, t);
    }
    InvUpdate(f, Attach(f, s, z), s, z);
  }

  /** free_block and the pointer to it cleared: the zone of slot s is free again. */
  function Detach(f: Fs, s: Slot): Fs
    requires IsSlot(f, s) && IsZone(f, Ptr(f, s))
  {
    var h := SetPtr(f, s, 0);
    h.(bits := h.bits[Ptr(f, s) - f.first + 1 := false])
  }

  lemma DetachFrame(f: Fs, s: Slot, t: Slot)
    requires Inv(f) && IsSlot(f, s) && Ptr(f, s) != 0 && Childless(f, s) && IsSlot(f, t)
    ensures IsZone(f, Ptr(f, s)) && Ptr(Detach(f, s), t) == if t == s then 0 else Ptr(f, t)
  {
    var h := SetPtr(f, s, 0);
    SetPtrFrame(f, s, 0, t);
    BitsFrame(h, h.bits[Ptr(f, s) - f.first + 1 := false], t);
  }

  lemma DetachOk(f: Fs, s: Slot)
    requires Inv(f) && IsSlot(f, s) && Ptr(f, s) != 0 && Childless(f, s)
    ensures IsZone(f, Ptr(f, s)) && Allocated(f, Ptr(f, s))
    ensures Inv(Detach(f, s))
    ensures forall t: Slot | IsSlot(f, t) :: Ptr(Detach(f, s), t) == if t == s then 0 else Ptr(f, t)
  {
    assert Owns(f, s, Ptr(f, s));
    forall t: Slot | IsSlot(f, t) ensures Ptr(Detach(f, s), t) == if t == s then 0 else Ptr(f, t) {
      DetachFrame(f, s, t);
    }
    InvUpdate(f, Detach(f, s), s, 0);
  }

  // ---------------------------------------------------------------- files

  /** The zone of block n of file ino, 0 for a hole. */
  function Bmap(f: Fs, ino: nat, n: nat): U16
    requires ino < |f.izone| && n < MAX_BLOCKS
  {
    Ptr(f, DataSlot(ino, n))
  }

  /** How the zones of a file are found: seven in i_zone[], 512 in the block of i_zone[7], and 512 in each of
      the 512 blocks that the block of i_zone[8] names; numbers have two bytes, the lower first. */
  lemma BmapLayout(f: Fs, ino: nat, n: nat)
    requires InZones(f) && ino < |f.izone| && n < MAX_BLOCKS
    ensures n < 7 ==> Bmap(f, ino, n) == f.izone[ino][n]
    ensures 7 <= n < 519 && f.izone[ino][7] != 0 ==>
      f.izone[ino][7] < |f.blocks| && Bmap(f, ino, n) == Short(f.blocks[f.izone[ino][7]], n - 7)
    ensures n >= 519 && f.izone[ino][8] != 0 ==>
      f.izone[ino][8] < |f.blocks| &&
      var p := Short(f.blocks[f.izone[ino][8]], (n - 519) / 512);
      if p == 0 then Bmap(f, ino, n) == 0
      else p < |f.blocks| && Bmap(f, ino, n) == Short(f.blocks[p], (n - 519) % 512)
    ensures n >= 7 && f.izone[ino][if n < 519 then 7 else 8] == 0 ==> Bmap(f, ino, n) == 0
  {
    var s := DataSlot(ino, n);
    if n >= 7 {
      var p := Parent(s);
      assert Ptr(f, Top(ino, 7)) != 0 ==> IsZone(f, Ptr(f, Top(ino, 7)));
      assert Ptr(f, Top(ino, 8)) != 0 ==> IsZone(f, Ptr(f, Top(ino, 8)));
      assert Ptr(f, p) != 0 ==> IsZone(f, Ptr(f, p));
    }
  }

  function Short(b: Block, i: nat): nat
    requires i < 512
  {
    b[2 * i] as nat + 256 * b[2 * i + 1] as nat
  }

  /** The byte at position pos of file ino; holes read as zero. */
  function ByteAt(f: Fs, ino: nat, pos: nat): byte
    requires ino < |f.izone| && pos < MAX_BLOCKS * 1024
  {
    var z := Bmap(f, ino, pos / 1024);
    if z == 0 || z >= |f.blocks| then 0 else f.blocks[z][pos % 1024]
  }

  ghost predicate SameBytes(f: Fs, g: Fs) {
    && |g.izone| == |f.izone|
    && forall ino: nat, pos: nat | ino < |f.izone| && pos < MAX_BLOCKS * 1024 ::
      ByteAt(g, ino, pos) == ByteAt(f, ino, pos)
  }

  predicate IsDataSlot(s: Slot) {
    match s
    case Top(_, k) => k < 7
    case Ind(_, _) => true
    case Dind(_, _) => false
    case Leaf(_, _, _) => true
  }

  /** Allocation is invisible to readers: the new block is a zero block where there was a hole. */
  lemma AttachBytes(f: Fs, s: Slot, z: nat)
    requires Inv(f) && IsSlot(f, s) && IsZone(f, z) && !Allocated(f, z) && Ptr(f, s) == 0
    requires !s.Top? ==> Ptr(f, Parent(s)) != 0
    ensures SameBytes(f, Attach(f, s, z))
  {
    var g := Attach(f, s, z);
    FreeUnowned(f, z);
    forall ino: nat, pos: nat | ino < |f.izone| && pos < MAX_BLOCKS * 1024
      ensures ByteAt(g, ino, pos) == ByteAt(f, ino, pos)
    {
      var d := DataSlot(ino, pos / 1024);
      AttachFrame(f, s, z, d);
      AttachBlocks(f, s, z, d);
    }
  }

  /** What Attach does to the block named by data slot d. */
  lemma AttachBlocks(f: Fs, s: Slot, z: nat, d: Slot)
    requires Inv(f) && IsSlot(f, s) && IsZone(f, z) && !Allocated(f, z) && Ptr(f, s) == 0
    requires !s.Top? ==> Ptr(f, Parent(s)) != 0
    requires IsSlot(f, d) && IsDataSlot(d)
    ensures d == s ==> Attach(f, s, z).blocks[z] == ZeroBlock()
    ensures Ptr(f, d) != 0 ==> Attach(f, s, z).blocks[Ptr(f, d)] == f.blocks[Ptr(f, d)]
  {
    FreeUnowned(f, z);
    if !s.Top? {
      ZeroedPtr(f, z, Parent(s));
      assert Parent(s) != d;
    }
  }

  lemma ZeroedPtr(f: Fs, z: nat, t: Slot)
    requires Inv(f) && IsSlot(f, t) && IsZone(f, z) && !Allocated(f, z)
    ensures Ptr(Zeroed(f, z), t) == Ptr(f, t)
  {
    ZeroedOk(f, z);
  }

  /** Rewriting the contents of a data block. */
  function WriteData(f: Fs, ino: nat, n: nat, b: Block): Fs
    requires ino < |f.izone| && n < MAX_BLOCKS && Bmap(f, ino, n) < |f.blocks|
  {
    f.(blocks := f.blocks[Bmap(f, ino, n) := b])
  }

  lemma WriteDataInv(f: Fs, ino: nat, n: nat, b: Block)
    requires Inv(f) && ino < |f.izone| && n < MAX_BLOCKS && Bmap(f, ino, n) != 0
    ensures IsZone(f, Bmap(f, ino, n))
    ensures Inv(WriteData(f, ino, n, b))
    ensures forall t: Slot | IsSlot(f, t) :: Ptr(WriteData(f, ino, n, b), t) == Ptr(f, t)
  {
    var d, z := DataSlot(ino, n), Bmap(f, ino, n);
    var g := WriteData(f, ino, n, b);
    DataApart(f, d);
    assert Owns(f, d, z);
    hide Inv;
    forall t: Slot | IsSlot(f, t) ensures Ptr(g, t) == Ptr(f, t) { BlockFrame(f, z, b, t); }
    ZonesMarked(f, d);
    InvUpdate(f, g, d, z);
  }

  /** The zone of a data slot holds no zone numbers. */
  lemma DataApart(f: Fs, d: Slot)
    requires Inv(f) && IsSlot(f, d) && IsDataSlot(d) && Ptr(f, d) != 0
    ensures forall u: Slot | IsSlot(f, u) && !u.Top? :: Ptr(f, Parent(u)) != Ptr(f, d)
  {
    hide MapExact;
    forall u: Slot | IsSlot(f, u) && !u.Top? ensures Ptr(f, Parent(u)) != Ptr(f, d) { assert Parent(u) != d; }
  }

  lemma ZonesMarked(f: Fs, d: Slot)
    requires Inv(f) && IsSlot(f, d) && Ptr(f, d) != 0
    ensures IsZone(f, Ptr(f, d)) && Allocated(f, Ptr(f, d)) && f.bits[0]
    ensures forall j: nat | f.nzones - f.first + 1 <= j < |f.bits| :: f.bits[j]
    ensures forall t: Slot | IsSlot(f, t) && t != d :: Ptr(f, t) != Ptr(f, d)
  {
    assert Owns(f, d, Ptr(f, d));
  }

  lemma WriteDataBytes(f: Fs, ino: nat, n: nat, b: Block)
    requires Inv(f) && ino < |f.izone| && n < MAX_BLOCKS && Bmap(f, ino, n) != 0
    ensures IsZone(f, Bmap(f, ino, n))
    ensures forall i: nat, pos: nat | i < |f.izone| && pos < MAX_BLOCKS * 1024 ::
      ByteAt(WriteData(f, ino, n, b), i, pos) == if i == ino && pos / 1024 == n then b[pos % 1024]
        else ByteAt(f, i, pos)
  {
    WriteDataInv(f, ino, n, b);
    var g := WriteData(f, ino, n, b);
    forall i: nat, pos: nat | i < |f.izone| && pos < MAX_BLOCKS * 1024
      ensures ByteAt(g, i, pos) == if i == ino && pos / 1024 == n then b[pos % 1024] else ByteAt(f, i, pos)
    {
      assert Bmap(g, i, pos / 1024) == Bmap(f, i, pos / 1024);
      if i != ino || pos / 1024 != n { DistinctZones(f, ino, n, i, pos / 1024); }
    }
  }

  lemma DistinctZones(f: Fs, ino: nat, n: nat, i: nat, k: nat)
    requires Inv(f) && ino < |f.izone| && n < MAX_BLOCKS && i < |f.izone| && k < MAX_BLOCKS && (i != ino || k != n)
    requires Bmap(f, ino, n) != 0
    ensures Bmap(f, i, k) != Bmap(f, ino, n)
  {
    DataSlotInjective(ino, n, i, k);
  }

  // ---------------------------------------------------------------- relations for the operations

  ghost predicate SameDevice(f: Fs, g: Fs) {
    && g.first == f.first && g.nzones == f.nzones
    && |g.izone| == |f.izone| && |g.bits| == |f.bits| && |g.blocks| == |f.blocks|
  }

  /** Slot s is the one for block n of file ino, or leads to it. */
  predicate OnPath(s: Slot, ino: nat, n: nat)
    requires n < MAX_BLOCKS
  {
    var d := DataSlot(ino, n);
    s == d || (!d.Top? && (s == Parent(d) || (d.Leaf? && s == Parent(Parent(d)))))
  }

  /** create_block on block n of ino, or part of it: at most that one mapping came into being, and zones were
      taken only for the way to it. */
  ghost predicate Grown(f: Fs, g: Fs, ino: nat, n: nat) {
    && Inv(f) && Inv(g) && SameDevice(f, g) && SameBytes(f, g)
    && n < MAX_BLOCKS
    && (forall s: Slot | IsSlot(f, s) && (Ptr(f, s) != 0 || !OnPath(s, ino, n)) :: Ptr(g, s) == Ptr(f, s))
    && (forall i: nat, k: nat | i < |f.izone| && k < MAX_BLOCKS && (i != ino || k != n) ::
        Bmap(g, i, k) == Bmap(f, i, k))
  }

  lemma GrownRefl(f: Fs, ino: nat, n: nat)
    requires Inv(f) && n < MAX_BLOCKS
    ensures Grown(f, f, ino, n)
  {
  }

  lemma GrownTrans(f: Fs, g: Fs, h: Fs, ino: nat, n: nat)
    requires Grown(f, g, ino, n) && Grown(g, h, ino, n)
    ensures Grown(f, h, ino, n)
  {
    forall s: Slot | IsSlot(f, s) && (Ptr(f, s) != 0 || !OnPath(s, ino, n)) ensures Ptr(h, s) == Ptr(f, s) {
      assert Ptr(g, s) == Ptr(f, s);
    }
    forall i: nat, k: nat | i < |f.izone| && k < MAX_BLOCKS && (i != ino || k != n)
      ensures Bmap(h, i, k) == Bmap(f, i, k)
    {
      assert Bmap(g, i, k) == Bmap(f, i, k);
    }
    forall i: nat, pos: nat | i < |f.izone| && pos < MAX_BLOCKS * 1024 ensures ByteAt(h, i, pos) == ByteAt(f, i, pos) {
      assert ByteAt(g, i, pos) == ByteAt(f, i, pos);
    }
  }

  lemma GrownAttach(f: Fs, g: Fs, ino: nat, n: nat, s: Slot, z: nat)
    requires Grown(f, g, ino, n) && IsSlot(g, s) && IsZone(g, z) && !Allocated(g, z) && Ptr(g, s) == 0
    requires !s.Top? ==> Ptr(g, Parent(s)) != 0
    requires n < MAX_BLOCKS && OnPath(s, ino, n)
    ensures Grown(f, Attach(g, s, z), ino, n)
    ensures Ptr(Attach(g, s, z), s) == z
  {
    hide Inv;
    AttachOk(g, s, z);
    AttachBytes(g, s, z);
    var h := Attach(g, s, z);
    forall i: nat, k: nat | i < |f.izone| && k < MAX_BLOCKS && (i != ino || k != n)
      ensures Bmap(h, i, k) == Bmap(f, i, k)
    {
      DataSlotInjective(ino, n, i, k);
      assert Bmap(g, i, k) == Bmap(f, i, k);
    }
    forall t: Slot | IsSlot(f, t) && (Ptr(f, t) != 0 || !OnPath(t, ino, n)) ensures Ptr(h, t) == Ptr(f, t) {
      assert Ptr(g, t) == Ptr(f, t);
    }
    forall i: nat, pos: nat | i < |f.izone| && pos < MAX_BLOCKS * 1024 ensures ByteAt(h, i, pos) == ByteAt(f, i, pos) {
      assert ByteAt(g, i, pos) == ByteAt(f, i, pos);
    }
  }

  ghost predicate Full(f: Fs) {
    forall z: nat | IsZone(f, z) :: Allocated(f, z)
  }

  // ---------------------------------------------------------------- truncation

  /** Part of file ino was given back; other files are untouched, bytes included. */
  ghost predicate Shrunk(f: Fs, g: Fs, ino: nat) {
    && Inv(f) && Inv(g) && SameDevice(f, g) && ino < |f.izone|
    && (forall s: Slot | IsSlot(f, s) && s.ino != ino :: Ptr(g, s) == Ptr(f, s))
    && (forall s: Slot | IsSlot(f, s) && s.ino == ino :: Ptr(g, s) == 0 || Ptr(g, s) == Ptr(f, s))
    && (forall i: nat, pos: nat | i < |f.izone| && i != ino && pos < MAX_BLOCKS * 1024 ::
         ByteAt(g, i, pos) == ByteAt(f, i, pos))
  }

  lemma ShrunkRefl(f: Fs, ino: nat)
    requires Inv(f) && ino < |f.izone|
    ensures Shrunk(f, f, ino)
  {
  }

  lemma ShrunkDetach(f: Fs, g: Fs, s: Slot)
    requires Shrunk(f, g, s.ino) && IsSlot(g, s) && Ptr(g, s) != 0 && Childless(g, s)
    ensures IsZone(g, Ptr(g, s)) && Shrunk(f, Detach(g, s), s.ino)
    ensures forall t: Slot | IsSlot(g, t) :: Ptr(Detach(g, s), t) == if t == s then 0 else Ptr(g, t)
  {
    hide Inv, Ptr, ByteAt, Childless;
    DetachOk(g, s);
    var h := Detach(g, s);
    forall i: nat, pos: nat | i < |f.izone| && i != s.ino && pos < MAX_BLOCKS * 1024
      ensures ByteAt(h, i, pos) == ByteAt(f, i, pos)
    {
      DetachBytes(g, s, i, pos);
    }
    assert SameDevice(f, h);
    forall t: Slot | IsSlot(f, t) ensures t.ino != s.ino ==> Ptr(h, t) == Ptr(f, t) {
      assert Ptr(h, t) == if t == s then 0 else Ptr(g, t);
    }
  }

  lemma DetachBytes(f: Fs, s: Slot, i: nat, pos: nat)
    requires Inv(f) && IsSlot(f, s) && Ptr(f, s) != 0 && Childless(f, s)
    requires i < |f.izone| && i != s.ino && pos < MAX_BLOCKS * 1024
    ensures IsZone(f, Ptr(f, s)) && ByteAt(Detach(f, s), i, pos) == ByteAt(f, i, pos)
  {
    var d := DataSlot(i, pos / 1024);
    DetachFrame(f, s, d);
    if Ptr(f, d) != 0 { DetachBlocks(f, s, d); }
  }

  /** Giving back a zone of one file rewrites no data block of another. */
  lemma DetachBlocks(f: Fs, s: Slot, d: Slot)
    requires Inv(f) && IsSlot(f, s) && IsZone(f, Ptr(f, s)) && IsSlot(f, d) && IsDataSlot(d) && d.ino != s.ino
    requires Ptr(f, d) != 0
    ensures Ptr(f, d) < |f.blocks| && Detach(f, s).blocks[Ptr(f, d)] == f.blocks[Ptr(f, d)]
  {
    assert IsZone(f, Ptr(f, d));
    if !s.Top? { assert Parent(s) != d; }
  }

  /** The slot in position i below an indirect block. */
  function Child(s: Slot, i: nat): Slot
    requires s == Top(s.ino, 7) || s == Top(s.ino, 8) || s.Dind?
  {
    match s
    case Top(ino, k) => if k == 7 then Ind(ino, i) else Dind(ino, i)
    case Dind(ino, j) => Leaf(ino, j, i)
  }

  predicate IsIndirect(s: Slot) {
    s == Top(s.ino, 7) || s == Top(s.ino, 8) || s.Dind?
  }

  /** Every zone of file ino is free; by MapExact exactly the other files' zones are marked. */
  ghost predicate Empty(f: Fs, ino: nat) {
    forall s: Slot | IsSlot(f, s) && s.ino == ino :: Ptr(f, s) == 0
  }

  lemma EmptyIf(f: Fs, ino: nat)
    requires ino < |f.izone| && forall k: nat | k < 9 :: Ptr(f, Top(ino, k)) == 0
    ensures Empty(f, ino)
  {
    forall s: Slot | IsSlot(f, s) && s.ino == ino ensures Ptr(f, s) == 0 {
      match s
      case Top(_, k) =>
      case Ind(_, _) => assert Ptr(f, Top(ino, 7)) == 0;
      case Dind(_, _) => assert Ptr(f, Top(ino, 8)) == 0;
      case Leaf(_, i, _) => assert Ptr(f, Top(ino, 8)) == 0; assert Ptr(f, Dind(ino, i)) == 0;
    }
  }

  /** truncate frees exactly the zones of its file: a zone is marked afterwards if and only if it was
      marked before and some other file names it. */
  lemma TruncateFreesExactly(f: Fs, g: Fs, ino: nat, z: nat)
    requires Shrunk(f, g, ino) && Empty(g, ino) && IsZone(f, z)
    ensures Allocated(g, z) <==> exists s: Slot :: Owns(f, s, z) && s.ino != ino
  {
    if Allocated(g, z) {
      var s: Slot :| Owns(g, s, z);
      assert Owns(f, s, z) && s.ino != ino;
    }
    if s: Slot :| Owns(f, s, z) && s.ino != ino {
      assert Owns(g, s, z);
    }
  }
}
