// copy_strings, create_tables and the placing of the argument pages of fs/exec.c.

module ArgStack {
  import opened Kernel
  import opened ArgSpec

  /** The byte at offset a of the argument pages; what is not there reads as 0. */
  function ByteAt(pages: seq<seq<byte>>, a: int): byte {
    if 0 <= a && a / PAGE_SIZE < |pages| && a % PAGE_SIZE < |pages[a / PAGE_SIZE]|
    then pages[a / PAGE_SIZE][a % PAGE_SIZE] else 0
  }

  /** How many pages there are. */
  function Present(pages: seq<seq<byte>>): (n: nat)
    ensures n <= |pages|
    ensures (exists i: nat :: i < |pages| && |pages[i]| == 0) ==> n < |pages|
  {
    if pages == [] then 0 else (if |pages[0]| == 0 then 0 else 1) + Present(pages[1..])
  }

  lemma {:induction false} PresentSet(pages: seq<seq<byte>>, i: nat, x: seq<byte>)
    requires i < |pages|
    ensures Present(pages[i := x]) == Present(pages) - (if |pages[i]| == 0 then 0 else 1) + (if |x| == 0 then 0 else 1)
  {
    if i == 0 {
      assert pages[i := x][1..] == pages[1..];
    } else {
      PresentSet(pages[1..], i - 1, x);
      assert pages[i := x][1..] == pages[1..][i - 1 := x];
    }
  }

  /** Where do_execve starts to copy. */
  const TOP: nat := ARG_SIZE - 4

  /** The pages that strings from q up to TOP take. */
  function Needed(q: nat): nat {
    if q >= TOP then 0 else MAX_ARG_PAGES - q / PAGE_SIZE
  }

  /** Exactly those are there. */
  ghost predicate Down(pages: seq<seq<byte>>, q: nat) {
    |pages| == MAX_ARG_PAGES && forall i: nat | i < MAX_ARG_PAGES :: |pages[i]| != 0 <==> q < TOP && i >= q / PAGE_SIZE
  }

  lemma NeededIs(pages: seq<seq<byte>>, q: nat)
    requires Down(pages, q)
    ensures Present(pages) == Needed(q)
  {
    Suffix(pages, if q < TOP then q / PAGE_SIZE else MAX_ARG_PAGES);
  }

  lemma {:induction false} Suffix(pages: seq<seq<byte>>, k: nat)
    requires k <= |pages| && forall i: nat | i < |pages| :: |pages[i]| != 0 <==> i >= k
    ensures Present(pages) == |pages| - k
  {
    if pages != [] { Suffix(pages[1..], if k == 0 then 0 else k - 1); }
  }

  class ArgPages {
    /** Empty where there is no page yet. */
    const page: array<seq<byte>>
    /** How many pages get_free_page can still give. */
    var free: nat

    ghost predicate Valid()
      reads page
    {
      page.Length == MAX_ARG_PAGES && forall i: nat | i < MAX_ARG_PAGES :: |page[i]| == 0 || |page[i]| == PAGE_SIZE
    }

    ghost function Bytes(a: int): byte
      reads page
    {
      ByteAt(page[..], a)
    }

    /** Pages in use and still to be had. */
    ghost function Total(): nat
      reads this, page
    {
      free + Present(page[..])
    }

    constructor (n: nat)
      ensures Valid() && fresh(page) && Total() == n && Down(page[..], TOP) && forall a: int :: Bytes(a) == 0
    {
      page := new seq<byte>[MAX_ARG_PAGES](_ => []);
      free := n;
      new;
      NonePresent(page[..]);
    }

    /** offset says where in the page at hand the last byte went; at 0 the next one needs the page below. */
    ghost predicate AtOffset(p: int, offset: int)
      reads page
    {
      && page.Length == MAX_ARG_PAGES && 0 <= p <= ARG_SIZE && 0 <= offset < PAGE_SIZE
      && (offset != 0 ==> p < ARG_SIZE && offset == p % PAGE_SIZE && |page[p / PAGE_SIZE]| == PAGE_SIZE)
    }

    /** The body of the innermost loop: byte b goes to p - 1. It fails if a page is needed and there is none. */
    method CopyByte(p0: nat, offset0: nat, b: byte) returns (p: nat, offset: nat, ok: bool)
      requires Valid() && AtOffset(p0, offset0) && 0 < p0 <= TOP && Down(page[..], p0)
      modifies page, `free
      ensures Valid() && p == p0 - 1
      ensures ok ==> AtOffset(p, offset) && forall a: int :: Bytes(a) == if a == p then b else old(Bytes(a))
      ensures Total() == old(Total()) && (ok ==> Down(page[..], p))
      ensures ok <==> Total() >= Needed(p)
    {
      NeededIs(page[..], p0);
      p := p0 - 1;
      ok := true;
      ghost var was := page[..];
      var o := offset0 - 1;
      if o < 0 {
        o := p % PAGE_SIZE;
        if |page[p / PAGE_SIZE]| == 0 {
          if free == 0 {
            return p, 0, false;
          }
          PresentSet(page[..], p / PAGE_SIZE, seq(PAGE_SIZE, _ => 0));
          free := free - 1;
          page[p / PAGE_SIZE] := seq(PAGE_SIZE, _ => 0);
        }
      }
      offset := o;
      ghost var mid := page[..];
      assert forall a: int :: ByteAt(mid, a) == ByteAt(was, a);
      PresentSet(mid, p / PAGE_SIZE, page[p / PAGE_SIZE][offset := b]);
      page[p / PAGE_SIZE] := page[p / PAGE_SIZE][offset := b];
      Written(mid, page[..], p, b);
      NeededIs(page[..], p);
    }

    /** Copies one string with its zero byte to below p. */
    method CopyString(user: seq<byte>, q: nat, ghost s: seq<byte>, p0: nat, offset0: nat)
      returns (p: nat, offset: nat, ok: bool)
      requires Valid() && AtOffset(p0, offset0) && p0 <= TOP && StringAt(user, q, s) && |s| + 1 <= p0
      requires Down(page[..], p0)
      modifies page, `free
      ensures Valid()
      ensures ok ==> p == p0 - (|s| + 1) && AtOffset(p, offset) && Down(page[..], p)
      ensures ok ==> forall a: int :: Bytes(a) == if p <= a < p0 then (s + [0])[a - p] else old(Bytes(a))
      ensures Total() == old(Total()) && (ok <==> Total() >= Needed(p0 - (|s| + 1)))
    {
      var tmp, len := q, 0;
      StringBytes(user, q, s);
      while user[tmp] != 0
        invariant q <= tmp <= q + |s| && len == tmp - q
        decreases q + |s| - tmp
      {
        len := len + 1;
        tmp := tmp + 1;
      }
      len := len + 1;
      tmp := tmp + 1;
      p, offset, ok := p0, offset0, true;
      ghost var all := s + [0];
      while len > 0
        invariant 0 <= len <= |s| + 1 && tmp == q + len && p == p0 - (|all| - len)
        invariant Valid() && AtOffset(p, offset) && Total() == old(Total()) && Down(page[..], p)
        invariant forall a: int :: Bytes(a) == if p <= a < p0 then all[a - (p0 - |all|)] else old(Bytes(a))
      {
        tmp := tmp - 1;
        len := len - 1;
        assert user[tmp] == all[len];
        p, offset, ok := CopyByte(p, offset, user[tmp]);
        if !ok { return; }
      }
      NeededIs(page[..], p);
    }

    /** copy_strings: the strings come one after the other just below p0, in their order. The result is
        where they begin, 0 exactly if there are fewer pages than they need. */
    method CopyStrings(user: seq<byte>, argv: seq<nat>, ghost strs: seq<seq<byte>>, p0: nat) returns (p: nat)
      requires Valid() && p0 <= TOP && |Packed(strs)| < p0 && Down(page[..], p0)
      requires |argv| == |strs| && forall i: nat | i < |argv| :: StringAt(user, argv[i], strs[i])
      modifies page, `free
      ensures Valid()
      ensures Total() == old(Total()) && (p == 0 <==> Total() < Needed(p0 - |Packed(strs)|))
      ensures p != 0 ==> Down(page[..], p)
      ensures p != 0 ==> p == p0 - |Packed(strs)|
      ensures p != 0 ==> forall a: int :: Bytes(a) == if p <= a < p0 then Packed(strs)[a - p] else old(Bytes(a))
    {
      p := p0;
      var offset, argc := 0, |argv|;
      assert strs[argc..] == [];
      while argc > 0
        invariant 0 <= argc <= |argv| && p == p0 - |Packed(strs[argc..])| && p > 0
        invariant Valid() && AtOffset(p, offset) && Total() == old(Total()) && Down(page[..], p)
        invariant forall a: int :: Bytes(a) == if p <= a < p0 then Packed(strs[argc..])[a - p] else old(Bytes(a))
      {
        argc := argc - 1;
        ghost var rest, s := Packed(strs[argc + 1..]), strs[argc];
        PackedSuffix(strs, argc);
        var ok;
        p, offset, ok := CopyString(user, argv[argc], s, p, offset);
        if !ok { return 0; }
      }
      assert strs[0..] == strs;
      NeededIs(page[..], p);
    }
  }

  /** Words that do not overlap do not disturb each other. */
  ghost predicate OnlyAt(m: seq<byte>, n: seq<byte>, a: int, size: nat) {
    |m| == |n| && forall x: nat | x < |m| && !(a <= x < a + size) :: n[x] == m[x]
  }

  class Segment {
    /** The data segment below the library area. */
    const mem: array<byte>

    constructor ()
      ensures mem.Length == DATA_TOP && fresh(mem) && forall x: nat | x < DATA_TOP :: mem[x] == 0
    {
      mem := new byte[DATA_TOP](_ => 0);
    }

    /** The loop of change_ldt: the argument pages go to the end of the segment. */
    method PlacePages(pages: ArgPages)
      requires pages.Valid() && mem.Length == DATA_TOP && forall x: nat | x < DATA_TOP :: mem[x] == 0
      modifies mem
      ensures forall x: nat | DATA_TOP - ARG_SIZE <= x < DATA_TOP :: mem[x] == pages.Bytes(x - (DATA_TOP - ARG_SIZE))
    {
      var dataBase: nat := DATA_TOP;
      var i: nat := MAX_ARG_PAGES;
      while i > 0
        invariant i <= MAX_ARG_PAGES && dataBase == DATA_TOP - (MAX_ARG_PAGES - i) * PAGE_SIZE
        invariant forall x: nat | x < dataBase :: mem[x] == 0
        invariant forall x: nat | dataBase <= x < DATA_TOP :: mem[x] == pages.Bytes(x - (DATA_TOP - ARG_SIZE))
      {
        i := i - 1;
        dataBase := dataBase - PAGE_SIZE;
        if |pages.page[i]| != 0 {
          var page := pages.page[i];
          forall k: nat | k < PAGE_SIZE {
            mem[dataBase + k] := page[k];
          }
        }
        forall x: nat | dataBase <= x < dataBase + PAGE_SIZE ensures mem[x] == pages.Bytes(x - (DATA_TOP - ARG_SIZE)) {
          PageByte(pages.page[..], i, dataBase, x);
        }
      }
    }

    method PutLong(v: int, a: nat)
      requires 0 <= v < 0x1_0000_0000 && a + 4 <= mem.Length
      modifies mem
      ensures Word(mem[..], a) == v && OnlyAt(old(mem[..]), mem[..], a, 4)
    {
      var b := v / 0x100;
      var c := b / 0x100;
      var d := c / 0x100;
      mem[a], mem[a + 1], mem[a + 2], mem[a + 3] := v % 0x100, b % 0x100, c % 0x100, d;
    }

    /** One of the two last loops of create_tables: the addresses of n strings, and then 0. */
    method FillTable(table0: nat, p0: nat, n: nat, ghost strs: seq<seq<byte>>) returns (p: nat)
      requires n == |strs| && table0 + 4 * n + 4 <= p0 && mem.Length <= 0x1_0000_0000
      requires Strings(strs) && Holds(mem[..], p0, Packed(strs))
      modifies mem
      ensures p == p0 + |Packed(strs)|
      ensures OnlyAt(old(mem[..]), mem[..], table0, 4 * n + 4)
      ensures forall i: nat | i < n :: Word(mem[..], table0 + 4 * i) == p0 + Offset(strs, i)
      ensures Word(mem[..], table0 + 4 * n) == 0
    {
      ghost var m0 := mem[..];
      var table, i := table0, 0;
      p := p0;
      hide Word, OnlyAt, Packed, Offset, StringAt, Holds;
      OffsetZero(strs);
      NothingFilled(m0, table0, p0, strs);
      while i < n
        invariant 0 <= i <= n && table == table0 + 4 * i && p == p0 + Offset(strs, i) && mem.Length == |m0|
        invariant TableTo(m0, mem[..], table0, p0, strs, i)
      {
        FoundAt(m0, p0, strs, i);
        PackedAt(strs, i);
        ghost var m1 := mem[..];
        AddressFits(m0, p, strs[i]);
        TableFits(m0, p0, strs);
        PutLong(p, table);
        TableNext(m0, m1, mem[..], table0, p0, strs, i);
        StringStays(m0, mem[..], p, strs[i], table0, 4 * (i + 1));
        table := table + 4;
        p := SkipString(p, strs[i]);
        i := i + 1;
      }
      OffsetEnd(strs);
      ghost var m1 := mem[..];
      TableFits(m0, p0, strs);
      PutLong(0, table);
      TableEnd(m0, m1, mem[..], table0, p0, strs);
    }

    /** while (get_fs_byte(p++)). */
    method SkipString(p0: nat, ghost s: seq<byte>) returns (p: nat)
      requires StringAt(mem[..], p0, s)
      ensures p == p0 + |s| + 1
    {
      p := p0;
      StringBytes(mem[..], p0, s);
      assert forall x: int | p0 <= x < p0 + |s| :: mem[x] != 0;
      while mem[p] != 0
        invariant p0 <= p <= p0 + |s|
        decreases p0 + |s| - p
      {
        p := p + 1;
      }
      p := p + 1;
    }

    /** create_tables. Nothing at p or above is touched. */
    method CreateTables(p: nat, argc: nat, envc: nat, ghost argv: seq<seq<byte>>, ghost envp: seq<seq<byte>>)
      returns (sp: nat)
      requires argc == |argv| && envc == |envp| && Strings(argv) && Strings(envp)
      requires 4 * (argc + envc + 5) + 4 <= p && mem.Length <= 0x1_0000_0000
      requires Holds(mem[..], p, Packed(argv + envp))
      modifies mem
      ensures StackOk(mem[..], sp, argv, envp)
      ensures sp <= p && OnlyAt(old(mem[..]), mem[..], sp, p - sp)
    {
      SplitStrings(mem[..], p, argv, envp);
      TableFits(mem[..], p, argv + envp);
      sp := BuildTables(p, argc, envc, argv, envp);
    }

    /** The same, for strings known to be one after the other. */
    method BuildTables(p: nat, argc: nat, envc: nat, ghost argv: seq<seq<byte>>, ghost envp: seq<seq<byte>>)
      returns (sp: nat)
      requires argc == |argv| && envc == |envp| && Strings(argv) && Strings(envp)
      requires 4 * (argc + envc + 5) + 4 <= p <= mem.Length <= 0x1_0000_0000
      requires Holds(mem[..], p, Packed(argv)) && Holds(mem[..], p + |Packed(argv)|, Packed(envp))
      modifies mem
      ensures StackOk(mem[..], sp, argv, envp)
      ensures sp <= p && OnlyAt(old(mem[..]), mem[..], sp, p - sp)
    {
      hide Word, OnlyAt, Packed, Strings, Table, Holds;
      ghost var m0 := mem[..];
      sp := p / 4 * 4;
      sp := sp - 4 * (envc + 1);
      var envTable := sp;
      sp := sp - 4 * (argc + 1);
      var argTable := sp;
      sp := PushHeader(sp, argc, argTable, envTable);
      ghost var m1, size := mem[..], 4 * (argc + envc + 2);
      HoldsStays(m0, m1, sp, 12, p, Packed(argv));
      HoldsStays(m0, m1, sp, 12, p + |Packed(argv)|, Packed(envp));
      FillTables(argTable, p, argc, envc, argv, envp);
      BeforeStays(m1, mem[..], sp, size, 0);
      BeforeStays(m1, mem[..], sp, size, 4);
      BeforeStays(m1, mem[..], sp, size, 8);
      OnlyBoth(m0, m1, mem[..], sp, 12, size);
      OnlyMore(m0, mem[..], sp, 12 + size, p - sp);
    }

    /** The two loops of create_tables, the table of the environment behind that of the arguments. */
    method FillTables(argTable: nat, p: nat, argc: nat, envc: nat, ghost argv: seq<seq<byte>>,
        ghost envp: seq<seq<byte>>)
      requires argc == |argv| && envc == |envp| && Strings(argv) && Strings(envp)
      requires argTable + 4 * (argc + envc + 2) <= p && mem.Length <= 0x1_0000_0000
      requires Holds(mem[..], p, Packed(argv)) && Holds(mem[..], p + |Packed(argv)|, Packed(envp))
      modifies mem
      ensures Table(mem[..], argTable, argv) && Table(mem[..], argTable + 4 * (argc + 1), envp)
      ensures OnlyAt(old(mem[..]), mem[..], argTable, 4 * (argc + envc + 2))
    {
      hide Word, OnlyAt, Packed, StringAt, Table, Strings, Offset, Holds;
      ghost var m0 := mem[..];
      var envTable := argTable + 4 * (argc + 1);
      var q := FillTable(argTable, p, argc, argv);
      ghost var m1 := mem[..];
      HoldsStays(m0, m1, argTable, 4 * argc + 4, q, Packed(envp));
      HoldsStays(m0, m1, argTable, 4 * argc + 4, p, Packed(argv));
      ghost var r := FillTable(envTable, q, envc, envp);
      ghost var m2 := mem[..];
      HoldsStays(m1, m2, envTable, 4 * envc + 4, q, Packed(envp));
      HoldsStays(m1, m2, envTable, 4 * envc + 4, p, Packed(argv));
      OnlyBoth(m0, m1, m2, argTable, 4 * argc + 4, 4 * envc + 4);
      forall i: nat | i <= argc ensures Word(m2, argTable + 4 * i) == Word(m1, argTable + 4 * i) {
        WordStays(m1, m2, argTable + 4 * i, envTable, 4 * envc + 4);
      }
      TableFrom(m2, argTable, p, argv);
      TableFrom(m2, envTable, q, envp);
    }

    /** The three words at the top of the stack. */
    method PushHeader(top: nat, argc: nat, argTable: nat, envTable: nat) returns (sp: nat)
      requires 12 <= top <= mem.Length && argc < 0x1_0000_0000 && argTable < 0x1_0000_0000 && envTable < 0x1_0000_0000
      modifies mem
      ensures sp == top - 12 && OnlyAt(old(mem[..]), mem[..], sp, 12)
      ensures Word(mem[..], sp) == argc && Word(mem[..], sp + 4) == argTable && Word(mem[..], sp + 8) == envTable
    {
      sp := top - 4;
      PutLong(envTable, sp);
      ghost var m1 := mem[..];
      sp := sp - 4;
      PutLong(argTable, sp);
      ghost var m2 := mem[..];
      sp := sp - 4;
      PutLong(argc, sp);
      WordStays(m1, m2, sp + 8, sp + 4, 4);
      WordStays(m2, mem[..], sp + 8, sp, 4);
      WordStays(m2, mem[..], sp + 4, sp, 4);
    }
  }

  lemma {:induction false} NonePresent(pages: seq<seq<byte>>)
    requires forall i: nat | i < |pages| :: pages[i] == []
    ensures Present(pages) == 0
  {
    if pages != [] { NonePresent(pages[1..]); }
  }

  lemma Written(old_: seq<seq<byte>>, new_: seq<seq<byte>>, p: nat, b: byte)
    requires |old_| == |new_| == MAX_ARG_PAGES && p < ARG_SIZE
    requires |old_[p / PAGE_SIZE]| == |new_[p / PAGE_SIZE]| == PAGE_SIZE
    requires forall i: nat | i < MAX_ARG_PAGES && i != p / PAGE_SIZE :: new_[i] == old_[i]
    requires forall k: nat | k < PAGE_SIZE ::
      new_[p / PAGE_SIZE][k] == if k == p % PAGE_SIZE then b else old_[p / PAGE_SIZE][k]
    ensures forall a: int :: ByteAt(new_, a) == if a == p then b else ByteAt(old_, a)
  {
    forall a: int ensures ByteAt(new_, a) == if a == p then b else ByteAt(old_, a) {
      if a / PAGE_SIZE == p / PAGE_SIZE && a % PAGE_SIZE == p % PAGE_SIZE { assert a == p; }
    }
  }

  lemma {:induction false} PackedSuffix(strs: seq<seq<byte>>, i: nat)
    requires i < |strs|
    ensures Packed(strs[i..]) == strs[i] + [0] + Packed(strs[i + 1..])
    ensures |Packed(strs[i..])| <= |Packed(strs)|
  {
    assert strs[i..][1..] == strs[i + 1..];
    assert strs == strs[..i] + strs[i..];
    OffsetSum(strs[..i], strs[i..], 0);
  }

  // ---------------------------------------------------------------- what stays

  lemma WordStays(m: seq<byte>, n: seq<byte>, b: int, a: int, size: nat)
    requires OnlyAt(m, n, a, size) && (b + 4 <= a || a + size <= b)
    ensures Word(n, b) == Word(m, b)
  {
  }

  /** The first i addresses are in the table, and nothing else has changed. */
  ghost predicate TableTo(m: seq<byte>, n: seq<byte>, table: nat, p: nat, strs: seq<seq<byte>>, i: nat) {
    && i <= |strs| && OnlyAt(m, n, table, 4 * i)
    && forall k: nat | k < i :: Word(n, table + 4 * k) == p + Offset(strs, k)
  }

  lemma OffsetZero(strs: seq<seq<byte>>)
    ensures Offset(strs, 0) == 0
  {
  }

  lemma NothingFilled(m: seq<byte>, table: nat, p: nat, strs: seq<seq<byte>>)
    ensures TableTo(m, m, table, p, strs, 0)
  {
  }

  lemma AddressFits(m: seq<byte>, q: int, s: seq<byte>)
    requires StringAt(m, q, s)
    ensures 0 <= q < |m|
  {
  }

  lemma TableNext(m: seq<byte>, n: seq<byte>, o: seq<byte>, table: nat, p: nat, strs: seq<seq<byte>>, i: nat)
    requires TableTo(m, n, table, p, strs, i) && i < |strs|
    requires OnlyAt(n, o, table + 4 * i, 4) && Word(o, table + 4 * i) == p + Offset(strs, i)
    ensures TableTo(m, o, table, p, strs, i + 1) && OnlyAt(m, o, table, 4 * (i + 1))
  {
    forall k: nat | k < i ensures Word(o, table + 4 * k) == p + Offset(strs, k) {
      WordStays(n, o, table + 4 * k, table + 4 * i, 4);
    }
  }

  lemma TableEnd(m: seq<byte>, n: seq<byte>, o: seq<byte>, table: nat, p: nat, strs: seq<seq<byte>>)
    requires TableTo(m, n, table, p, strs, |strs|)
    requires OnlyAt(n, o, table + 4 * |strs|, 4)
    ensures OnlyAt(m, o, table, 4 * |strs| + 4)
    ensures forall i: nat | i < |strs| :: Word(o, table + 4 * i) == p + Offset(strs, i)
  {
    forall k: nat | k < |strs| ensures Word(o, table + 4 * k) == p + Offset(strs, k) {
      WordStays(n, o, table + 4 * k, table + 4 * |strs|, 4);
    }
  }

  lemma StringStays(m: seq<byte>, n: seq<byte>, q: int, s: seq<byte>, a: int, size: nat)
    requires StringAt(m, q, s) && OnlyAt(m, n, a, size) && a + size <= q
    ensures StringAt(n, q, s)
  {
  }

  lemma SplitStrings(m: seq<byte>, p: nat, a: seq<seq<byte>>, b: seq<seq<byte>>)
    requires Holds(m, p, Packed(a + b))
    ensures Holds(m, p, Packed(a)) && Holds(m, p + |Packed(a)|, Packed(b))
  {
    hide Packed, Holds, Offset;
    OffsetSum(a, b, 0);
    SplitBytes(m, p, Packed(a), Packed(b));
  }

  lemma SplitBytes(m: seq<byte>, p: nat, a: seq<byte>, b: seq<byte>)
    requires Holds(m, p, a + b)
    ensures Holds(m, p, a) && Holds(m, p + |a|, b)
  {
    forall x: int | p <= x < p + |a| ensures m[x] == a[x - p] {
      assert m[x] == (a + b)[x - p];
    }
    forall x: int | p + |a| <= x < p + |a| + |b| ensures m[x] == b[x - (p + |a|)] {
      assert m[x] == (a + b)[x - p];
    }
  }

  lemma TableFits(m: seq<byte>, p: nat, strs: seq<seq<byte>>)
    requires Holds(m, p, Packed(strs))
    ensures p <= |m|
  {
  }

  lemma HoldsStays(m: seq<byte>, n: seq<byte>, a: int, size: nat, p: nat, data: seq<byte>)
    requires Holds(m, p, data) && OnlyAt(m, n, a, size) && a + size <= p
    ensures Holds(n, p, data)
  {
  }

  lemma OnlyMore(m: seq<byte>, n: seq<byte>, a: int, size: nat, more: nat)
    requires OnlyAt(m, n, a, size) && size <= more
    ensures OnlyAt(m, n, a, more)
  {
  }

  lemma PageByte(pages: seq<seq<byte>>, i: nat, dataBase: nat, x: nat)
    requires |pages| == MAX_ARG_PAGES && i < MAX_ARG_PAGES && (|pages[i]| == 0 || |pages[i]| == PAGE_SIZE)
    requires dataBase == DATA_TOP - (MAX_ARG_PAGES - i) * PAGE_SIZE && dataBase <= x < dataBase + PAGE_SIZE
    ensures ByteAt(pages, x - (DATA_TOP - ARG_SIZE)) == if |pages[i]| == 0 then 0 else pages[i][x - dataBase]
  {
    var a := x - (DATA_TOP - ARG_SIZE);
    assert a == i * PAGE_SIZE + (x - dataBase);
    assert a / PAGE_SIZE == i && a % PAGE_SIZE == x - dataBase;
  }

  /** Addresses of packed strings make a table. */
  lemma TableFrom(m: seq<byte>, table: int, p: nat, strs: seq<seq<byte>>)
    requires Strings(strs) && Holds(m, p, Packed(strs))
    requires forall i: nat | i < |strs| :: Word(m, table + 4 * i) == p + Offset(strs, i)
    requires Word(m, table + 4 * |strs|) == 0
    ensures Table(m, table, strs)
  {
    hide Word, Packed, Offset, StringAt, Holds, Strings;
    forall i: nat | i < |strs| ensures StringAt(m, Word(m, table + 4 * i), strs[i]) {
      FoundAt(m, p, strs, i);
    }
  }

  lemma OnlyBoth(m: seq<byte>, n: seq<byte>, o: seq<byte>, a: int, size: nat, more: nat)
    requires OnlyAt(m, n, a, size) && OnlyAt(n, o, a + size, more)
    ensures OnlyAt(m, o, a, size + more)
  {
  }

  /** The words of the header are below the tables. */
  lemma BeforeStays(m: seq<byte>, n: seq<byte>, sp: nat, size: nat, b: nat)
    requires OnlyAt(m, n, sp + 12, size) && b <= 8
    ensures Word(n, sp + b) == Word(m, sp + b)
  {
    WordStays(m, n, sp + b, sp + 12, size);
  }

  // ---------------------------------------------------------------- the whole of it

  /** The part of do_execve that builds the stack: the strings are collected, the environment first,
      placed at the end of the new data segment, and described by tables. For all strings that fit, main
      finds exactly them, in their order. It fails exactly if there are fewer pages than the strings need. */
  method ExecStack(user: seq<byte>, argv: seq<nat>, envp: seq<nat>, freePages: nat,
      ghost args: seq<seq<byte>>, ghost envs: seq<seq<byte>>)
    returns (ok: bool, segment: Segment, sp: nat)
    requires |argv| == |args| && forall i: nat | i < |argv| :: StringAt(user, argv[i], args[i])
    requires |envp| == |envs| && forall i: nat | i < |envp| :: StringAt(user, envp[i], envs[i])
    requires |Packed(args)| + |Packed(envs)| < ARG_SIZE - 4
    ensures ok ==> StackOk(segment.mem[..], sp, args, envs)
    ensures ok <==> freePages >= Needed(TOP - |Packed(args)| - |Packed(envs)|)
  {
    var pages := new ArgPages(freePages);
    segment := new Segment();
    sp := 0;
    var p := pages.CopyStrings(user, envp, envs, TOP);
    if p == 0 { return false, segment, 0; }
    ghost var top := p;
    p := pages.CopyStrings(user, argv, args, p);
    if p == 0 { return false, segment, 0; }
    segment.PlacePages(pages);
    ghost var base := p;
    p := p + TASK_SIZE;
    p := p - (LIBRARY_SIZE + MAX_ARG_PAGES * PAGE_SIZE);
    OffsetSum(args, envs, 0);
    PackedLong(args);
    PackedLong(envs);
    ghost var all := Packed(args + envs);
    forall x: int | p <= x < p + |all| ensures segment.mem[..][x] == all[x - p] {
      assert segment.mem[x] == pages.Bytes(x - (DATA_TOP - ARG_SIZE));
      assert x - (DATA_TOP - ARG_SIZE) == base + (x - p);
    }
    AllStrings(user, argv, args);
    AllStrings(user, envp, envs);
    sp := segment.CreateTables(p, |argv|, |envp|, args, envs);
    ok := true;
  }

  lemma AllStrings(user: seq<byte>, argv: seq<nat>, strs: seq<seq<byte>>)
    requires |argv| == |strs| && forall i: nat | i < |argv| :: StringAt(user, argv[i], strs[i])
    ensures Strings(strs)
  {
    forall i: nat | i < |strs| ensures 0 !in strs[i] {
      assert StringAt(user, argv[i], strs[i]);
    }
  }
}
