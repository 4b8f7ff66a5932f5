// fs/bitmap.c, fs/inode.c, fs/truncate.c and fs/file_dev.c: the operations on the state of FsState,
// in place. Reading a block through the buffer cache is reading blocks[]; block reads succeed.

module Minix {
  import opened Kernel
  import opened FsState
  import opened Truncation

  const MAP_BITS: nat := 8192      // bits in one block of the zone map
  const MAP_BLOCKS: nat := 8       // blocks of the zone map in memory

  class FileSystem {
    const first: nat                 // s_firstdatazone
    const nzones: nat                // s_nzones
    const blocks: array<Block>
    const maps: nat                  // how many of s_zmap[] are present
    const zmap: array<bool>          // their bits
    const izone: array<Row>          // i_zone[] of each inode
    const isize: array<nat>          // i_size of each inode

    ghost predicate Wired()
      reads this, blocks, zmap, izone, isize
    {
      && 1 <= first <= nzones < 65536 && nzones <= blocks.Length
      && nzones - first + 1 <= zmap.Length == maps * MAP_BITS && maps <= MAP_BLOCKS
      && isize.Length == izone.Length
    }

    ghost function Abs(): Fs
      requires Wired()
      reads this, blocks, zmap, izone, isize
    {
      Fs(first, nzones, izone[..], blocks[..], zmap[..])
    }

    ghost predicate Valid()
      reads this, blocks, zmap, izone, isize
    {
      Wired() && Inv(Abs())
    }

    /** An empty file system, as mkfs leaves it: every file is empty, every zone free. */
    constructor (first: nat, nzones: nat, device: seq<Block>, maps: nat, inodes: nat)
      requires 1 <= first <= nzones < 65536 && nzones <= |device|
      requires nzones - first + 1 <= maps * MAP_BITS && maps <= MAP_BLOCKS
      ensures Valid() && blocks[..] == device && izone.Length == inodes
      ensures forall z: nat | IsZone(Abs(), z) :: !Allocated(Abs(), z)
      ensures forall s: Slot | IsSlot(Abs(), s) :: Ptr(Abs(), s) == 0
      ensures forall ino: nat | ino < inodes :: isize[ino] == 0
      ensures fresh(blocks) && fresh(zmap) && fresh(izone) && fresh(isize)
    {
      this.first, this.nzones, this.maps := first, nzones, maps;
      blocks := new Block[|device|](i requires 0 <= i < |device| => device[i]);
      zmap := new bool[maps * MAP_BITS](j => !(1 <= j <= nzones - first));
      izone := new Row[inodes](_ => [0, 0, 0, 0, 0, 0, 0, 0, 0]);
      isize := new nat[inodes](_ => 0);
      new;
      assert blocks[..] == device;
      BlankInv(Abs());
    }

    // -------------------------------------------------------------- single accesses

    method WriteBlock(z: nat, b: Block)
      requires Wired() && z < blocks.Length
      modifies blocks
      ensures Wired() && Abs() == old(Abs()).(blocks := old(Abs()).blocks[z := b])
    {
      ghost var was := blocks[..];
      blocks[z] := b;
      assert blocks[..] == was[z := b];
    }

    method WriteBit(j: nat, b: bool)
      requires Wired() && j < zmap.Length
      modifies zmap
      ensures Wired() && Abs() == old(Abs()).(bits := old(Abs()).bits[j := b])
    {
      ghost var was := zmap[..];
      zmap[j] := b;
      assert zmap[..] == was[j := b];
    }

    method WriteTop(ino: nat, k: nat, z: U16)
      requires Wired() && ino < izone.Length && k < 9
      modifies izone
      ensures Wired() && Abs() == SetPtr(old(Abs()), Top(ino, k), z)
    {
      ghost var was := izone[..];
      var row: Row := izone[ino][k := z];
      izone[ino] := row;
      assert izone[..] == was[ino := row];
    }

    /** A 16-bit store into the block that the parent of slot s names. */
    method WriteWord(p: nat, i: nat, z: U16, ghost s: Slot)
      requires Wired() && IsSlot(Abs(), s) && !s.Top? && p == Ptr(Abs(), Parent(s)) < blocks.Length && i == Index(s)
      modifies blocks
      ensures Wired() && Abs() == SetPtr(old(Abs()), s, z)
    {
      WriteBlock(p, SetWord(blocks[p], i, z));
    }

    // -------------------------------------------------------------- fs/bitmap.c

    /** find_first_zero: the first clear bit of one block of the map, or at least 8192. */
    method FindFirstZero(base: nat) returns (j: nat)
      requires base + MAP_BITS <= zmap.Length
      ensures j < MAP_BITS ==> !zmap[base + j] && forall k: nat | base <= k < base + j :: zmap[k]
      ensures j >= MAP_BITS ==> forall k: nat | base <= k < base + MAP_BITS :: zmap[k]
    {
      j := 0;
      while j < MAP_BITS
        invariant j <= MAP_BITS && j % 32 == 0
        invariant forall k: nat | base <= k < base + j :: zmap[k]
      {
        var bit := 0;
        while bit < 32
          invariant bit <= 32
          invariant forall k: nat | base <= k < base + j + bit :: zmap[k]
        {
          if !zmap[base + j + bit] {
            j := j + bit;
            return;
          }
          bit := bit + 1;
        }
        j := j + 32;
      }
    }

    /** new_block: the first free zone, marked and zeroed; 0 if there is none. */
    method NewBlock() returns (z: U16)
      requires Valid()
      modifies zmap, blocks
      ensures Wired()
      ensures z == 0 ==> Abs() == old(Abs()) && Full(old(Abs()))
      ensures z != 0 ==>
        && IsZone(old(Abs()), z) && !Allocated(old(Abs()), z)
        && Abs() == Zeroed(old(Abs()), z).(bits := old(Abs()).bits[z - first + 1 := true])
      ensures z != 0 ==> forall y: nat | IsZone(old(Abs()), y) && y < z :: Allocated(old(Abs()), y)
    {
      ghost var f := Abs();
      var i := 0;
      var j := MAP_BITS;
      while i < MAP_BLOCKS
        invariant 0 <= i <= MAP_BLOCKS && j >= MAP_BITS && Abs() == f
        invariant forall k: nat | k < i * MAP_BITS && k < zmap.Length :: zmap[k]
      {
        if i < maps {
          j := FindFirstZero(i * MAP_BITS);
          if j < MAP_BITS { break; }
        }
        i := i + 1;
      }
      if i >= MAP_BLOCKS || j >= MAP_BITS {
        assert forall k: nat | k < zmap.Length :: zmap[k] == f.bits[k];
        assert forall y: nat | IsZone(f, y) :: f.bits[y - first + 1];
        return 0;
      }
      ghost var bit := i * MAP_BITS + j;
      assert zmap[bit] == f.bits[bit];
      assert !f.bits[bit] && forall k: nat | k < bit :: f.bits[k];
      WriteBit(i * MAP_BITS + j, true);
      j := j + i * MAP_BITS + first - 1;
      assert j < nzones;
      WriteBlock(j, ZeroBlock());
      z := j;
    }

    /** free_block: fails, changing nothing, if the block's buffer is in use elsewhere. That the zone is
        in range (a panic otherwise) and its bit set (a message otherwise) is the precondition. */
    method FreeBlock(z: nat, busy: set<nat>) returns (ok: bool)
      requires Wired() && IsZone(Abs(), z) && Allocated(Abs(), z)
      modifies zmap
      ensures Wired() && ok == (z !in busy)
      ensures Abs() == if ok then old(Abs()).(bits := old(Abs()).bits[z - first + 1 := false]) else old(Abs())
    {
      if z in busy { return false; }
      WriteBit(z - first + 1, false);
      ok := true;
    }

    // -------------------------------------------------------------- fs/inode.c

    /** _bmap with `create`, on i_zone[k]: an empty entry gets a new block. */
    method FillTop(ino: nat, k: nat, ghost n: nat)
      requires Valid() && ino < izone.Length && k < 9 && n < MAX_BLOCKS
      requires OnPath(Top(ino, k), ino, n)
      modifies zmap, blocks, izone
      ensures Valid() && Grown(old(Abs()), Abs(), ino, n)
      ensures Ptr(Abs(), Top(ino, k)) == 0 ==> Full(Abs())
    {
      ghost var f := Abs();
      GrownRefl(f, ino, n);
      if izone[ino][k] == 0 {
        var z := NewBlock();
        if z != 0 {
          ghost var s := Top(ino, k);
          GrownAttach(f, f, ino, n, s, z);
          WriteTop(ino, k, z);
          assert Abs() == Attach(f, s, z);
        }
      }
    }

    /** _bmap with `create`, on word i of indirect block p, the block of the parent of slot s. */
    method FillWord(ino: nat, p: nat, i: nat, ghost n: nat, ghost s: Slot) returns (z: U16)
      requires Valid() && ino < izone.Length && n < MAX_BLOCKS && IsSlot(Abs(), s) && !s.Top?
      requires p == Ptr(Abs(), Parent(s)) && p != 0 && i == Index(s) && s.ino == ino
      requires OnPath(s, ino, n)
      modifies zmap, blocks
      ensures Valid() && Grown(old(Abs()), Abs(), ino, n)
      ensures z == Ptr(Abs(), s) && (z == 0 ==> Full(Abs()))
    {
      ghost var f := Abs();
      GrownRefl(f, ino, n);
      assert IsZone(f, Ptr(f, Parent(s)));
      z := Word(blocks[p], i);
      if z == 0 {
        z := NewBlock();
        if z != 0 {
          GrownAttach(f, f, ino, n, s, z);
          FillFrame(f, s, z);
          WriteWord(p, i, z, s);
          assert Abs() == Attach(f, s, z);
        }
      }
    }

    /** _bmap: the zone of block n of file ino; with `create`, missing blocks on the way to it and the
        block itself are allocated. That n is in range (panics otherwise) is the precondition. */
    method Map(ino: nat, n: nat, create: bool) returns (z: U16)
      requires Valid() && ino < izone.Length && n < MAX_BLOCKS
      modifies zmap, blocks, izone
      ensures Valid() && z == Bmap(Abs(), ino, n)
      ensures Grown(old(Abs()), Abs(), ino, n)
      ensures !create ==> Abs() == old(Abs())
      ensures create && z == 0 ==> Full(Abs())
    {
      hide Inv, Grown, Full;
      ghost var f := Abs();
      GrownRefl(f, ino, n);
      if n < 7 {
        if create { FillTop(ino, n, n); }
        return izone[ino][n];
      }
      var b := n - 7;
      var k := if b < 512 then 7 else 8;
      if create { FillTop(ino, k, n); }
      ghost var g := Abs();
      if izone[ino][k] == 0 {
        NoDouble(g, ino, b);
        return 0;
      }
      var p := izone[ino][k];
      InRange(g, Top(ino, k));
      if b < 512 {
        z := MapWord(ino, p, b, n, Ind(ino, b), create);
        GrownTrans(f, g, Abs(), ino, n);
        return;
      }
      b := b - 512;
      var i := MapWord(ino, p, b / 512, n, Dind(ino, b / 512), create);
      GrownTrans(f, g, Abs(), ino, n);
      if i == 0 { return 0; }
      ghost var h := Abs();
      InRange(h, Dind(ino, b / 512));
      z := MapWord(ino, i, b % 512, n, Leaf(ino, b / 512, b % 512), create);
      GrownTrans(f, h, Abs(), ino, n);
    }

    /** _bmap's step through one indirect block. */
    method MapWord(ino: nat, p: nat, i: nat, ghost n: nat, ghost s: Slot, create: bool) returns (z: U16)
      requires Valid() && ino < izone.Length && n < MAX_BLOCKS && IsSlot(Abs(), s) && !s.Top?
      requires p == Ptr(Abs(), Parent(s)) && p != 0 && i == Index(s) && s.ino == ino && p < blocks.Length
      requires OnPath(s, ino, n)
      modifies zmap, blocks
      ensures Valid() && Grown(old(Abs()), Abs(), ino, n)
      ensures z == Ptr(Abs(), s) && (create && z == 0 ==> Full(Abs()))
      ensures !create ==> Abs() == old(Abs())
    {
      hide Inv;
      GrownRefl(Abs(), ino, n);
      if create {
        z := FillWord(ino, p, i, n, s);
      } else {
        z := Word(blocks[p], i);
      }
    }

    /** bmap */
    method ReadMap(ino: nat, n: nat) returns (z: U16)
      requires Valid() && ino < izone.Length && n < MAX_BLOCKS
      ensures z == Bmap(Abs(), ino, n)
    {
      if n < 7 { return izone[ino][n]; }
      var b := n - 7;
      var k := if b < 512 then 7 else 8;
      var p := izone[ino][k];
      if p == 0 {
        NoDouble(Abs(), ino, b);
        return 0;
      }
      InRange(Abs(), Top(ino, k));
      if b < 512 { return Word(blocks[p], b); }
      b := b - 512;
      var i := Word(blocks[p], b / 512);
      assert Ptr(Abs(), Dind(ino, b / 512)) == i;
      if i == 0 { return 0; }
      InRange(Abs(), Dind(ino, b / 512));
      z := Word(blocks[i], b % 512);
    }

    /** create_block */
    method CreateBlock(ino: nat, n: nat) returns (z: U16)
      requires Valid() && ino < izone.Length && n < MAX_BLOCKS
      modifies zmap, blocks, izone
      ensures Valid() && z == Bmap(Abs(), ino, n) && Grown(old(Abs()), Abs(), ino, n)
      ensures z == 0 ==> Full(Abs())
    {
      z := Map(ino, n, true);
    }

    // -------------------------------------------------------------- fs/truncate.c

    /** free_ind: gives back the zones that block p, named by slot s, holds, then p itself; p's bit is
        already clear when it succeeds, the caller clears the slot. It fails exactly if something stays. */
    method FreeInd(p: nat, busy: set<nat>, ghost s: Slot, ghost f: Fs) returns (ok: bool, ghost g: Fs)
      requires Valid() && IsSlot(Abs(), s) && (s == Top(s.ino, 7) || s.Dind?) && p == Ptr(Abs(), s)
      requires Shrunk(f, Abs(), s.ino)
      modifies zmap, blocks
      ensures Wired() && Shrunk(f, g, s.ino) && Swept(old(Abs()), g, busy, s, 512)
      ensures ok <==> !Stays(old(Abs()), busy, s)
      ensures GivenUp(p, s, ok, g)
    {
      hide Inv, Shrunk, Swept, Only, Childless, Ptr, Stays;
      ghost var h := Abs();
      g := h;
      if p == 0 {
        BelowNothing(h, busy, s);
        return true, g;
      }
      SweptNothing(h, busy, s);
      var blockBusy := false;
      for i := 0 to 512
        invariant Valid() && Shrunk(f, Abs(), s.ino) && Swept(h, Abs(), busy, s, i) && IsSlot(Abs(), s)
        invariant blockBusy <==> exists j: nat :: j < i && Stays(h, busy, Child(s, j))
      {
        SweptSelf(h, Abs(), busy, s, i);
        InRange(Abs(), s);
        ghost var k := Abs();
        var freed := FreeWord(p, i, busy, s, f);
        SweptNext(h, k, Abs(), busy, s, i);
        blockBusy := blockBusy || !freed;
      }
      g := Abs();
      ok := FreeSelf(p, busy, blockBusy, s, h);
    }

    /** What free_ind and free_dind leave to their caller. */
    ghost predicate GivenUp(p: nat, s: Slot, ok: bool, g: Fs)
      requires Wired()
      reads this, blocks, zmap, izone, isize
    {
      && (!ok || p == 0 ==> Abs() == g)
      && (ok && p != 0 ==> g.first == first && IsZone(g, p) && Childless(g, s))
      && (ok && p != 0 ==> Abs() == g.(bits := g.bits[p - first + 1 := false]))
    }

    /** The end of free_ind and free_dind. */
    method FreeSelf(p: nat, busy: set<nat>, blockBusy: bool, ghost s: Slot, ghost h: Fs) returns (ok: bool)
      requires Valid() && Swept(h, Abs(), busy, s, 512) && IsSlot(h, s) && IsIndirect(s) && p == Ptr(h, s) && p != 0
      requires blockBusy <==> exists j: nat :: j < 512 && Stays(h, busy, Child(s, j))
      modifies zmap
      ensures Wired() && (ok <==> !Stays(h, busy, s)) && GivenUp(p, s, ok, old(Abs()))
    {
      hide Inv, Swept, Childless, Ptr;
      SweptSelf(h, Abs(), busy, s, 512);
      if blockBusy { return false; }
      SweptChildless(h, Abs(), busy, s);
      InRange(Abs(), s);
      ok := FreeBlock(p, busy);
    }

    /** One entry of an indirect block of data zones. */
    method FreeWord(p: nat, i: nat, busy: set<nat>, ghost s: Slot, ghost f: Fs) returns (freed: bool)
      requires Valid() && IsSlot(Abs(), s) && (s == Top(s.ino, 7) || s.Dind?) && i < 512
      requires p == Ptr(Abs(), s) && p != 0 && p < blocks.Length && Shrunk(f, Abs(), s.ino)
      modifies zmap, blocks
      ensures Valid() && Shrunk(f, Abs(), s.ino) && Only(old(Abs()), Abs(), busy, Child(s, i))
      ensures freed <==> !Stays(old(Abs()), busy, Child(s, i))
    {
      hide Inv, Shrunk, Only, Childless, Ptr, Word, Stays;
      ghost var g := Abs();
      ghost var c := Child(s, i);
      ChildWord(g, s, i);
      var z := Word(blocks[p], i);
      freed := true;
      if z == 0 {
        BelowNothing(g, busy, c);
      } else {
        InRange(g, c);
        DataChild(g, s, i);
        freed := FreeBlock(z, busy);
        if freed {
          ClearChild(p, i, z, s, f, g);
          DataFreed(g, Abs(), busy, c);
        } else {
          DataKept(g, busy, c);
        }
      }
    }

    /** free_dind: the same one level up; p is the double-indirect block of file ino. */
    method FreeDind(p: nat, busy: set<nat>, ghost ino: nat, ghost f: Fs) returns (ok: bool, ghost g: Fs)
      requires Valid() && ino < izone.Length && p == Ptr(Abs(), Top(ino, 8)) && Shrunk(f, Abs(), ino)
      modifies zmap, blocks
      ensures Wired() && Shrunk(f, g, ino) && Swept(old(Abs()), g, busy, Top(ino, 8), 512)
      ensures ok <==> !Stays(old(Abs()), busy, Top(ino, 8))
      ensures GivenUp(p, Top(ino, 8), ok, g)
    {
      hide Inv, Shrunk, Swept, Only, Childless, Ptr, Stays;
      ghost var s, h := Top(ino, 8), Abs();
      g := h;
      if p == 0 {
        BelowNothing(h, busy, s);
        return true, g;
      }
      SweptNothing(h, busy, s);
      var blockBusy := false;
      for i := 0 to 512
        invariant Valid() && Shrunk(f, Abs(), ino) && Swept(h, Abs(), busy, s, i) && IsSlot(Abs(), s)
        invariant blockBusy <==> exists j: nat :: j < i && Stays(h, busy, Child(s, j))
      {
        SweptSelf(h, Abs(), busy, s, i);
        InRange(Abs(), s);
        ghost var k := Abs();
        var freed := FreeBranch(p, i, busy, ino, f);
        SweptNext(h, k, Abs(), busy, s, i);
        blockBusy := blockBusy || !freed;
      }
      g := Abs();
      ok := FreeSelf(p, busy, blockBusy, s, h);
    }

    /** One entry of the double-indirect block. */
    method FreeBranch(p: nat, i: nat, busy: set<nat>, ghost ino: nat, ghost f: Fs) returns (freed: bool)
      requires Valid() && ino < izone.Length && i < 512 && p == Ptr(Abs(), Top(ino, 8)) && p != 0 && p < blocks.Length
      requires Shrunk(f, Abs(), ino)
      modifies zmap, blocks
      ensures Valid() && Shrunk(f, Abs(), ino) && Only(old(Abs()), Abs(), busy, Dind(ino, i))
      ensures freed <==> !Stays(old(Abs()), busy, Dind(ino, i))
    {
      hide Inv, Shrunk, Swept, Only, Childless, Ptr, Word, Stays;
      ghost var h := Abs();
      ghost var c := Dind(ino, i);
      ChildWord(h, Top(ino, 8), i);
      var z := Word(blocks[p], i);
      freed := true;
      if z == 0 {
        BelowNothing(h, busy, c);
      } else {
        ghost var g;
        freed, g := FreeInd(z, busy, c, f);
        if freed {
          BranchNames(h, g, busy, ino, i);
          ClearChild(p, i, z, Top(ino, 8), f, g);
          SweptFreed(h, g, Abs(), busy, c);
        } else {
          ShrunkInv(f, g, ino);
          SweptKept(h, g, busy, c);
        }
      }
    }

    /** The caller's part after zone z, which entry i of indirect block p names, was freed. */
    method ClearChild(p: nat, i: nat, ghost z: nat, ghost s: Slot, ghost f: Fs, ghost g: Fs)
      requires Wired() && |g.izone| == izone.Length && g.first == first && Names(g, s, p, i, z) && p < blocks.Length
      requires Shrunk(f, g, s.ino) && Childless(g, Child(s, i))
      requires Abs() == g.(bits := g.bits[z - first + 1 := false])
      modifies blocks
      ensures Valid() && Shrunk(f, Abs(), s.ino) && |Abs().izone| == |g.izone|
      ensures forall t: Slot | IsSlot(g, t) :: Ptr(Abs(), t) == if t == Child(s, i) then 0 else Ptr(g, t)
    {
      hide Inv, Shrunk, Childless, Ptr, Detach;
      ShrunkInv(f, g, s.ino);
      DetachChild(f, g, s, i);
      DetachWord(g, Child(s, i));
      WriteWord(p, i, 0, Child(s, i));
      ShrunkInv(f, Abs(), s.ino);
    }

    /** truncate: passes over the file until one finds no block in use; busy[r] are the zones in use
        during pass r. Not done means that the passes given were not enough. */
    method Truncate(ino: nat, regular: bool, busy: seq<set<nat>>) returns (done: bool)
      requires Valid() && ino < izone.Length
      modifies zmap, blocks, izone, isize
      ensures Valid() && Shrunk(old(Abs()), Abs(), ino)
      ensures !regular ==> !done && Abs() == old(Abs())
      ensures regular ==>
        exists gs: seq<Fs> :: Passes(gs, busy, ino, done) && gs[0] == old(Abs()) && gs[|gs| - 1] == Abs()
      ensures done ==> Empty(Abs(), ino) && isize[ino] == 0
      ensures forall i: nat | i < izone.Length && (i != ino || !done) :: isize[i] == old(isize[i])
      ensures regular && (exists r: nat :: r < |busy| && Idle(old(Abs()), busy[r], ino)) ==> done
    {
      hide Inv, Shrunk, Pass, AnyStays, Idle;
      ghost var f := Abs();
      ghost var gs := [f];
      ShrunkRefl(f, ino);
      done := false;
      if !regular { return; }
      for r := 0 to |busy|
        invariant Valid() && Shrunk(f, Abs(), ino) && |gs| == r + 1 && gs[0] == f && gs[r] == Abs()
        invariant Passes(gs, busy[..r], ino, false)
        invariant forall q: nat | q < r :: !Idle(f, busy[q], ino)
        invariant forall i: nat | i < izone.Length :: isize[i] == old(isize[i])
      {
        ShrunkIdle(f, Abs(), busy[r], ino);
        var blockBusy := TruncatePass(ino, busy[r], f);
        gs := gs + [Abs()];
        if !blockBusy {
          PassedAll(gs[r], Abs(), busy[r], ino);
          isize[ino] := 0;
          assert Passes(gs, busy, ino, true);
          return true;
        }
        assert busy[..r + 1] == busy[..r] + [busy[r]];
      }
      assert busy[..|busy|] == busy;
    }

    /** One pass of truncate: exactly what is in use stays, and the blocks that lead to it. */
    method TruncatePass(ino: nat, busy: set<nat>, ghost f: Fs) returns (blockBusy: bool)
      requires Valid() && ino < izone.Length && Shrunk(f, Abs(), ino)
      modifies zmap, blocks, izone
      ensures Valid() && Shrunk(f, Abs(), ino) && Pass(old(Abs()), Abs(), busy, ino)
      ensures blockBusy <==> AnyStays(old(Abs()), busy, ino, 9)
    {
      hide Inv, Shrunk, Passed, Only, Swept, Stays, AnyStays;
      ghost var h := Abs();
      PassedNothing(h, busy, ino);
      NoneStays(h, busy, ino);
      blockBusy := false;
      for i := 0 to 7
        invariant Valid() && Shrunk(f, Abs(), ino) && Passed(h, Abs(), busy, ino, i)
        invariant blockBusy <==> AnyStays(h, busy, ino, i)
      {
        ghost var k := Abs();
        var freed := FreeDirect(ino, i, busy, f);
        PassedNext(h, k, Abs(), busy, ino, i);
        blockBusy := blockBusy || !freed;
      }
      ghost var k := Abs();
      var freed := FreeIndirect(ino, busy, f);
      PassedNext(h, k, Abs(), busy, ino, 7);
      blockBusy := blockBusy || !freed;
      k := Abs();
      freed := FreeDouble(ino, busy, f);
      PassedNext(h, k, Abs(), busy, ino, 8);
      blockBusy := blockBusy || !freed;
    }

    method FreeDirect(ino: nat, k: nat, busy: set<nat>, ghost f: Fs) returns (freed: bool)
      requires Valid() && ino < izone.Length && k < 7 && Shrunk(f, Abs(), ino)
      modifies zmap, izone
      ensures Valid() && Shrunk(f, Abs(), ino) && Only(old(Abs()), Abs(), busy, Top(ino, k))
      ensures freed <==> !Stays(old(Abs()), busy, Top(ino, k))
    {
      hide Inv, Only, Stays;
      ghost var g := Abs();
      ghost var s := Top(ino, k);
      freed := true;
      if izone[ino][k] == 0 {
        BelowNothing(g, busy, s);
      } else {
        InRange(g, s);
        ShrunkDetach(f, g, s);
        freed := FreeBlock(izone[ino][k], busy);
        if freed {
          WriteTop(ino, k, 0);
          assert Abs() == Detach(g, s);
          DataFreed(g, Abs(), busy, s);
        } else {
          DataKept(g, busy, s);
        }
      }
    }

    /** The call of free_ind in truncate. */
    method FreeIndirect(ino: nat, busy: set<nat>, ghost f: Fs) returns (freed: bool)
      requires Valid() && ino < izone.Length && Shrunk(f, Abs(), ino)
      modifies zmap, blocks, izone
      ensures Valid() && Shrunk(f, Abs(), ino) && Only(old(Abs()), Abs(), busy, Top(ino, 7))
      ensures freed <==> !Stays(old(Abs()), busy, Top(ino, 7))
    {
      hide Inv, Shrunk, Swept, Only, Stays;
      ghost var g;
      freed, g := FreeInd(izone[ino][7], busy, Top(ino, 7), f);
      ClearTop(ino, 7, izone[ino][7], freed, busy, f, old(Abs()), g);
    }

    /** The call of free_dind. */
    method FreeDouble(ino: nat, busy: set<nat>, ghost f: Fs) returns (freed: bool)
      requires Valid() && ino < izone.Length && Shrunk(f, Abs(), ino)
      modifies zmap, blocks, izone
      ensures Valid() && Shrunk(f, Abs(), ino) && Only(old(Abs()), Abs(), busy, Top(ino, 8))
      ensures freed <==> !Stays(old(Abs()), busy, Top(ino, 8))
    {
      hide Inv, Shrunk, Swept, Only, Stays;
      ghost var g;
      freed, g := FreeDind(izone[ino][8], busy, ino, f);
      ClearTop(ino, 8, izone[ino][8], freed, busy, f, old(Abs()), g);
    }

    /** The caller's part after free_ind or free_dind: the pointer is cleared. */
    method ClearTop(ino: nat, k: nat, z: nat, freed: bool, ghost busy: set<nat>, ghost f: Fs, ghost h: Fs, ghost g: Fs)
      requires Wired() && ino < izone.Length && 7 <= k < 9 && Shrunk(f, g, ino)
      requires |h.izone| == izone.Length && z == Ptr(h, Top(ino, k)) && Swept(h, g, busy, Top(ino, k), 512)
      requires g.first == first && (freed <==> !Stays(h, busy, Top(ino, k)))
      requires GivenUp(z, Top(ino, k), freed, g)
      modifies izone
      ensures Valid() && Shrunk(f, Abs(), ino) && Only(h, Abs(), busy, Top(ino, k))
    {
      hide Inv, Swept, Only, Stays;
      ghost var s := Top(ino, k);
      SweptSelf(h, g, busy, s, 512);
      if freed {
        if z != 0 {
          ShrunkDetach(f, g, s);
        } else {
          ClearZero(g, ino, k);
        }
        WriteTop(ino, k, 0);
        assert z != 0 ==> Abs() == Detach(g, s);
        SweptFreed(h, g, Abs(), busy, s);
      } else {
        SweptKept(h, g, busy, s);
      }
    }

    // -------------------------------------------------------------- fs/file_dev.c

    /** file_read: count bytes from pos on; holes read as zeros. That the blocks asked for are in range
        (a panic of bmap otherwise) is the precondition. */
    method FileRead(ino: nat, pos: nat, count: int) returns (data: seq<byte>, n: int, newPos: nat)
      requires Valid() && ino < izone.Length
      requires count > 0 ==> pos + count <= MAX_BLOCKS * 1024
      ensures n == if count > 0 then count else 0
      ensures |data| == n && newPos == pos + n
      ensures forall k: nat | k < n :: data[k] == ByteAt(Abs(), ino, pos + k)
    {
      hide Inv, ByteAt;
      data, newPos := [], pos;
      if count <= 0 { return [], 0, pos; }
      var left := count;
      while left > 0
        invariant 0 <= left <= count && newPos == pos + count - left && |data| == count - left
        invariant forall k: nat | k < |data| :: data[k] == ByteAt(Abs(), ino, pos + k)
      {
        var z := ReadMap(ino, newPos / 1024);
        var nr := newPos % 1024;
        var chars := if 1024 - nr < left then 1024 - nr else left;
        var bytes := CopyOut(ino, z, newPos, chars);
        data := data + bytes;
        newPos := newPos + chars;
        left := left - chars;
      }
      n := count - left;
    }

    /** The copying loops of file_read: chars bytes from block z, which holds position pos, or zeros. */
    method CopyOut(ino: nat, z: nat, pos: nat, chars: nat) returns (bytes: seq<byte>)
      requires Valid() && ino < izone.Length && chars <= 1024 - pos % 1024 && pos + chars <= MAX_BLOCKS * 1024
      requires pos / 1024 < MAX_BLOCKS && z == Bmap(Abs(), ino, pos / 1024)
      ensures |bytes| == chars && forall k: nat | k < chars :: bytes[k] == ByteAt(Abs(), ino, pos + k)
    {
      if z != 0 { InRange(Abs(), DataSlot(ino, pos / 1024)); }
      hide Inv, Ptr;
      bytes := [];
      while |bytes| < chars
        invariant |bytes| <= chars && forall k: nat | k < |bytes| :: bytes[k] == ByteAt(Abs(), ino, pos + k)
      {
        var k := |bytes|;
        assert (pos + k) / 1024 == pos / 1024 && (pos + k) % 1024 == pos % 1024 + k;
        bytes := bytes + [if z != 0 then blocks[z][pos % 1024 + k] else 0];
      }
    }

    /** file_write: writes buf at the position of the file, or at its end with O_APPEND, until done or no
        block can be had. Returns how much was written, -1 for nothing, and the new file position. */
    method FileWrite(ino: nat, append: bool, fpos: nat, buf: seq<byte>) returns (n: int, newPos: nat)
      requires Valid() && ino < izone.Length
      requires (if append then isize[ino] else fpos) + |buf| <= MAX_BLOCKS * 1024
      modifies zmap, blocks, izone, isize
      ensures Valid() && SameDevice(old(Abs()), Abs())
      ensures n == -1 || 0 < n <= |buf|
      ensures var start := if append then old(isize[ino]) else fpos; var m := if n == -1 then 0 else n;
        && Written(old(Abs()), Abs(), ino, start, buf[..m])
        && isize[ino] == (if m > 0 && start + m > old(isize[ino]) then start + m else old(isize[ino]))
        && newPos == (if append then fpos else start + m)
        && (m < |buf| ==> Full(Abs()) && Bmap(Abs(), ino, (start + m) / 1024) == 0)
      ensures forall i: nat | i < isize.Length && i != ino :: isize[i] == old(isize[i])
    {
      hide Inv, Grown, Written;
      ghost var f := Abs();
      var start := if append then isize[ino] else fpos;
      var pos := start;
      var i := 0;
      WrittenNothing(f, ino, start);
      while i < |buf|
        invariant 0 <= i <= |buf| && pos == start + i
        invariant Valid() && SameDevice(f, Abs()) && Written(f, Abs(), ino, start, buf[..i])
        invariant isize[ino] == if i > 0 && pos > old(isize[ino]) then pos else old(isize[ino])
        invariant forall j: nat | j < isize.Length && j != ino :: isize[j] == old(isize[j])
      {
        ghost var g := Abs();
        var z := CreateBlock(ino, pos / 1024);
        WrittenGrown(f, g, Abs(), ino, start, buf[..i], pos / 1024);
        if z == 0 { break; }
        var c := 1024 - pos % 1024;
        if c > |buf| - i { c := |buf| - i; }
        CopyIn(ino, z, pos, buf, i, c, start, f);
        pos := pos + c;
        if pos > isize[ino] { isize[ino] := pos; }
        i := i + c;
      }
      n := if i != 0 then i else -1;
      newPos := if append then fpos else pos;
    }

    /** The copying loop of file_write: c bytes into block z, which holds position pos. */
    method CopyIn(ino: nat, z: nat, pos: nat, buf: seq<byte>, i: nat, c: nat, ghost start: nat, ghost f: Fs)
      requires Valid() && ino < izone.Length && i + c <= |buf| && pos == start + i && c <= 1024 - pos % 1024
      requires pos + c <= MAX_BLOCKS * 1024 && pos / 1024 < MAX_BLOCKS && z == Bmap(Abs(), ino, pos / 1024) && z != 0
      requires SameDevice(f, Abs()) && Written(f, Abs(), ino, start, buf[..i])
      modifies blocks
      ensures Valid() && SameDevice(f, Abs()) && Written(f, Abs(), ino, start, buf[..i + c])
    {
      hide Inv;
      InRange(Abs(), DataSlot(ino, pos / 1024));
      var o := pos % 1024;
      var b := blocks[z];
      var k := 0;
      while k < c
        invariant 0 <= k <= c
        invariant forall j: nat | j < 1024 :: b[j] == if o <= j < o + k then buf[i + j - o] else blocks[z][j]
      {
        b := b[o + k := buf[i + k]];
        k := k + 1;
      }
      WriteDataInv(Abs(), ino, pos / 1024, b);
      WriteDataBytes(Abs(), ino, pos / 1024, b);
      WrittenMore(f, Abs(), ino, start, buf, i, c, b);
      WriteBlock(z, b);
    }
  }

  /** After new_block the pointer to the indirect block is where it was. */
  lemma FillFrame(f: Fs, s: Slot, z: nat)
    requires Inv(f) && IsSlot(f, s) && !s.Top? && IsZone(f, z) && !Allocated(f, z) && Ptr(f, Parent(s)) != 0
    ensures var g := Zeroed(f, z).(bits := f.bits[z - f.first + 1 := true]);
      Ptr(g, Parent(s)) == Ptr(f, Parent(s)) && SetPtr(g, s, z) == Attach(f, s, z)
  {
    ZeroedOk(f, z);
    BitsFrame(Zeroed(f, z), f.bits[z - f.first + 1 := true], Parent(s));
  }

  lemma InRange(f: Fs, s: Slot)
    requires Inv(f) && IsSlot(f, s) && Ptr(f, s) != 0
    ensures IsZone(f, Ptr(f, s)) && Allocated(f, Ptr(f, s))
  {
    assert Owns(f, s, Ptr(f, s));
  }

  /** After free_block the pointer to the block of the slot is where it was. */
  lemma DetachWord(f: Fs, s: Slot)
    requires Inv(f) && IsSlot(f, s) && !s.Top? && Ptr(f, s) != 0
    ensures IsZone(f, Ptr(f, s)) && IsZone(f, Ptr(f, Parent(s)))
    ensures var g := f.(bits := f.bits[Ptr(f, s) - f.first + 1 := false]);
      Ptr(g, Parent(s)) == Ptr(f, Parent(s)) && SetPtr(g, s, 0) == Detach(f, s)
  {
    BitsFrame(f, f.bits[Ptr(f, s) - f.first + 1 := false], Parent(s));
  }

  lemma NoDouble(f: Fs, ino: nat, b: nat)
    requires ino < |f.izone| && b < 512 + 512 * 512
    ensures b < 512 && Ptr(f, Top(ino, 7)) == 0 ==> Bmap(f, ino, b + 7) == 0
    ensures b >= 512 && Ptr(f, Top(ino, 8)) == 0 ==> Bmap(f, ino, b + 7) == 0
  {
    if b >= 512 && Ptr(f, Top(ino, 8)) == 0 { assert Ptr(f, Dind(ino, (b - 512) / 512)) == 0; }
  }

  /** The children of a block of data zones have none themselves. */
  lemma DataChild(f: Fs, s: Slot, i: nat)
    requires s == Top(s.ino, 7) || s.Dind?
    ensures Childless(f, Child(s, i))
  {
  }

  lemma ChildWord(f: Fs, s: Slot, i: nat)
    requires IsSlot(f, s) && IsIndirect(s) && i < 512 && Ptr(f, s) != 0 && Ptr(f, s) < |f.blocks|
    ensures IsSlot(f, Child(s, i)) && Ptr(f, Child(s, i)) == Word(f.blocks[Ptr(f, s)], i)
  {
  }

  /** Indirect block p, which slot s names, has zone z in place i. */
  ghost predicate Names(f: Fs, s: Slot, p: nat, i: nat, z: nat) {
    && IsIndirect(s) && IsSlot(f, s) && i < 512 && p == Ptr(f, s) && p != 0
    && z == Ptr(f, Child(s, i)) && z != 0 && IsZone(f, z)
  }

  lemma ShrunkInv(f: Fs, g: Fs, ino: nat)
    requires Shrunk(f, g, ino)
    ensures Inv(g)
  {
  }

  /** One zone below s given back. */
  lemma DetachChild(f: Fs, g: Fs, s: Slot, i: nat)
    requires Shrunk(f, g, s.ino) && IsSlot(g, s) && IsIndirect(s) && i < 512
    requires Ptr(g, Child(s, i)) != 0 && Childless(g, Child(s, i))
    ensures IsZone(g, Ptr(g, Child(s, i)))
    ensures var h := Detach(g, Child(s, i));
      Shrunk(f, h, s.ino) && forall t: Slot | IsSlot(g, t) :: Ptr(h, t) == if t == Child(s, i) then 0 else Ptr(g, t)
  {
    hide Inv;
    ShrunkDetach(f, g, Child(s, i));
  }

  /** Below an entry of the double-indirect block nothing moves the double-indirect block or that entry. */
  lemma BranchNames(h: Fs, g: Fs, busy: set<nat>, ino: nat, i: nat)
    requires ino < |h.izone| && i < 512 && Swept(h, g, busy, Dind(ino, i), 512)
    ensures Ptr(g, Top(ino, 8)) == Ptr(h, Top(ino, 8)) && Ptr(g, Dind(ino, i)) == Ptr(h, Dind(ino, i))
  {
  }

  /** None of the zones of the file is in use. */
  ghost predicate Idle(f: Fs, busy: set<nat>, ino: nat) {
    forall t: Slot | IsSlot(f, t) && t.ino == ino :: Ptr(f, t) == 0 || Ptr(f, t) !in busy
  }

  lemma ShrunkIdle(f: Fs, g: Fs, busy: set<nat>, ino: nat)
    requires Shrunk(f, g, ino)
    ensures Idle(f, busy, ino) ==> !AnyStays(g, busy, ino, 9)
  {
    hide Inv;
    if Idle(f, busy, ino) {
      forall k: nat | k < 9 ensures !Stays(g, busy, Top(ino, k)) {
        forall t: Slot | IsSlot(g, t) && t.ino == ino ensures Ptr(g, t) == 0 || Ptr(g, t) !in busy {}
        IdleGoes(g, busy, Top(ino, k));
      }
    }
  }

  lemma NoneStays(f: Fs, busy: set<nat>, ino: nat)
    requires ino < |f.izone|
    ensures !AnyStays(f, busy, ino, 0)
  {
  }

  lemma PassedAll(f: Fs, g: Fs, busy: set<nat>, ino: nat)
    requires ino < |f.izone| && Pass(f, g, busy, ino) && !AnyStays(f, busy, ino, 9)
    ensures Empty(g, ino)
  {
    forall k: nat | k < 9 ensures Ptr(g, Top(ino, k)) == 0 {
      assert !Stays(f, busy, Top(ino, k));
    }
    EmptyIf(g, ino);
  }

  lemma ClearZero(f: Fs, ino: nat, k: nat)
    requires ino < |f.izone| && k < 9 && f.izone[ino][k] == 0
    ensures SetPtr(f, Top(ino, k), 0) == f
  {
    assert f.izone[ino][k := 0] == f.izone[ino];
  }

  /** g shows data at position start of file ino, and otherwise what f shows. */
  ghost predicate Written(f: Fs, g: Fs, ino: nat, start: nat, data: seq<byte>) {
    && ino < |f.izone| && |g.izone| == |f.izone| && start + |data| <= MAX_BLOCKS * 1024
    && (forall i: nat, pos: nat | i < |f.izone| && pos < MAX_BLOCKS * 1024 ::
         ByteAt(g, i, pos) == if i == ino && start <= pos < start + |data| then data[pos - start]
           else ByteAt(f, i, pos))
  }

  lemma WrittenNothing(f: Fs, ino: nat, start: nat)
    requires ino < |f.izone| && start <= MAX_BLOCKS * 1024
    ensures Written(f, f, ino, start, [])
  {
  }

  lemma WrittenGrown(f: Fs, g: Fs, h: Fs, ino: nat, start: nat, data: seq<byte>, n: nat)
    requires Written(f, g, ino, start, data) && Grown(g, h, ino, n)
    ensures Written(f, h, ino, start, data)
  {
    hide Inv;
    assert SameBytes(g, h);
  }

  lemma WrittenMore(f: Fs, g: Fs, ino: nat, start: nat, buf: seq<byte>, i: nat, c: nat, b: Block)
    requires i + c <= |buf| && Written(f, g, ino, start, buf[..i]) && start + i + c <= MAX_BLOCKS * 1024
    requires (start + i) / 1024 < MAX_BLOCKS && c <= 1024 - (start + i) % 1024
    requires Inv(g) && Bmap(g, ino, (start + i) / 1024) != 0 && Bmap(g, ino, (start + i) / 1024) < |g.blocks|
    requires forall j: nat | j < 1024 :: var o := (start + i) % 1024;
      b[j] == if o <= j < o + c then buf[i + j - o] else g.blocks[Bmap(g, ino, (start + i) / 1024)][j]
    ensures Written(f, WriteData(g, ino, (start + i) / 1024, b), ino, start, buf[..i + c])
  {
    WriteDataBytes(g, ino, (start + i) / 1024, b);
    hide Inv;
    var pos0 := start + i;
    var h := WriteData(g, ino, pos0 / 1024, b);
    forall k: nat, pos: nat | k < |f.izone| && pos < MAX_BLOCKS * 1024
      ensures ByteAt(h, k, pos) == if k == ino && start <= pos < pos0 + c then buf[pos - start] else ByteAt(f, k, pos)
    {
      if k == ino && pos / 1024 == pos0 / 1024 {
        assert ByteAt(g, k, pos) == g.blocks[Bmap(g, ino, pos0 / 1024)][pos % 1024];
        assert pos - pos0 == pos % 1024 - pos0 % 1024;
      }
    }
  }
}
