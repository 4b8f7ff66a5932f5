// How the flat page-table entries of VmState are laid out in memory: a directory of page tables,
// each table occupying one physical page.

module PageTables {
  import opened Kernel
  import opened VmState

  /** A physical page holds either bytes or a page table. */
  datatype Frame = Data(bytes: Page) | Table(entries: seq<Pte>)

  function Bytes(f: Frame): Page {
    if f.Data? then f.bytes else ZeroPage()
  }

  function EmptyTable(): (f: Frame)
    ensures f.Table? && |f.entries| == 1024 && forall i: nat | i < 1024 :: f.entries[i] == Absent
  {
    Table(seq(1024, _ => Absent))
  }

  ghost predicate Wellformed(dir: seq<Option<nat>>, phys: seq<Frame>) {
    && |dir| == TABLE_SIZE
    && (forall d: nat | d < TABLE_SIZE && dir[d].Some? ::
         dir[d].value < |phys| && phys[dir[d].value].Table? && |phys[dir[d].value].entries| == 1024)
    && (forall c: nat, d: nat | c < d < TABLE_SIZE && dir[c].Some? && dir[d].Some? :: dir[c] != dir[d])
  }

  /** The entry the processor reaches for linear page v. */
  function Lookup(dir: seq<Option<nat>>, phys: seq<Frame>, v: nat): Pte
    requires Wellformed(dir, phys) && v < VM_SIZE
  {
    if dir[v / 1024].None? then Absent else phys[dir[v / 1024].value].entries[v % 1024]
  }

  function Flatten(dir: seq<Option<nat>>, phys: seq<Frame>): (pte: seq<Pte>)
    requires Wellformed(dir, phys)
    ensures |pte| == VM_SIZE && forall v: nat | v < VM_SIZE :: pte[v] == Lookup(dir, phys, v)
  {
    seq(VM_SIZE, v requires 0 <= v < VM_SIZE && Wellformed(dir, phys) => Lookup(dir, phys, v))
  }

  function AllBytes(phys: seq<Frame>): (b: seq<Page>)
    ensures |b| == |phys| && forall p: nat | p < |phys| :: b[p] == Bytes(phys[p])
  {
    seq(|phys|, p requires 0 <= p < |phys| => Bytes(phys[p]))
  }

  /** Writing one slot of one table changes exactly one flat entry. */
  lemma FlattenEntry(dir: seq<Option<nat>>, phys: seq<Frame>, v: nat, e: Pte)
    requires Wellformed(dir, phys) && v < VM_SIZE && dir[v / 1024].Some?
    ensures var t := dir[v / 1024].value;
      var phys' := phys[t := Table(phys[t].entries[v % 1024 := e])];
      && Wellformed(dir, phys') && Flatten(dir, phys') == Flatten(dir, phys)[v := e]
      && AllBytes(phys') == AllBytes(phys)
  {
    var t := dir[v / 1024].value;
    var phys' := phys[t := Table(phys[t].entries[v % 1024 := e])];
    forall w: nat | w < VM_SIZE ensures Lookup(dir, phys', w) == if w == v then e else Lookup(dir, phys, w) {
      if dir[w / 1024] == Some(t) { assert w / 1024 == v / 1024; }
    }
  }

  /** Writing bytes into a page that is no table changes no entry. */
  lemma FlattenData(dir: seq<Option<nat>>, phys: seq<Frame>, p: nat, x: Page)
    requires Wellformed(dir, phys) && p < |phys| && forall d: nat | d < TABLE_SIZE :: dir[d] != Some(p)
    ensures var phys' := phys[p := Data(x)];
      Wellformed(dir, phys') && Flatten(dir, phys') == Flatten(dir, phys) && AllBytes(phys') == AllBytes(phys)[p := x]
  {
    var phys' := phys[p := Data(x)];
    assert forall w: nat | w < VM_SIZE :: Lookup(dir, phys', w) == Lookup(dir, phys, w);
  }

  /** A zeroed page entered in the directory is an empty table: no entry changes. */
  lemma FlattenNew(dir: seq<Option<nat>>, phys: seq<Frame>, d: nat, p: nat)
    requires Wellformed(dir, phys) && d < TABLE_SIZE && dir[d].None? && p < |phys| && phys[p] == Data(ZeroPage())
    requires forall c: nat | c < TABLE_SIZE :: dir[c] != Some(p)
    ensures var dir' := dir[d := Some(p)]; var phys' := phys[p := EmptyTable()];
      Wellformed(dir', phys') && Flatten(dir', phys') == Flatten(dir, phys) && AllBytes(phys') == AllBytes(phys)
  {
    var dir' := dir[d := Some(p)];
    var phys' := phys[p := EmptyTable()];
    assert forall w: nat | w < VM_SIZE :: Lookup(dir', phys', w) == Lookup(dir, phys, w);
  }

  /** Clearing the directory slot of an all-absent table changes no entry. */
  lemma FlattenDrop(dir: seq<Option<nat>>, phys: seq<Frame>, d: nat)
    requires Wellformed(dir, phys) && d < TABLE_SIZE
    requires forall v: nat | d * 1024 <= v < d * 1024 + 1024 :: Flatten(dir, phys)[v] == Absent
    ensures Wellformed(dir[d := None], phys) && Flatten(dir[d := None], phys) == Flatten(dir, phys)
  {
    var dir' := dir[d := None];
    forall w: nat | w < VM_SIZE ensures Lookup(dir', phys, w) == Lookup(dir, phys, w) {
      if w / 1024 == d { assert Flatten(dir, phys)[w] == Absent; }
    }
  }
}
