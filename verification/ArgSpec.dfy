// The strings of an exec, one after the other, and where they are found.

module ArgSpec {
  import opened Kernel

  const MAX_ARG_PAGES: nat := 32
  const ARG_SIZE: nat := 131072
  const TASK_SIZE: nat := 0x0400_0000
  const LIBRARY_SIZE: nat := 0x0040_0000
  const DATA_TOP: nat := 0x03c0_0000

  /** These bytes are at p. */
  ghost predicate Holds(m: seq<byte>, p: int, data: seq<byte>) {
    0 <= p && p + |data| <= |m| && forall x: int | p <= x < p + |data| :: m[x] == data[x - p]
  }

  /** s, ended by a zero byte, is at address q. */
  ghost predicate StringAt(m: seq<byte>, q: int, s: seq<byte>) {
    Holds(m, q, s + [0]) && 0 !in s
  }

  lemma StringBytes(m: seq<byte>, q: int, s: seq<byte>)
    requires StringAt(m, q, s)
    ensures 0 <= q && q + |s| < |m| && m[q + |s|] == 0
    ensures forall x: int | q <= x < q + |s| :: m[x] == s[x - q] != 0
  {
    var all := s + [0];
    assert m[q + |s|] == all[|s|];
    forall x: int | q <= x < q + |s| ensures m[x] == s[x - q] != 0 {
      assert m[x] == all[x - q];
      assert s[x - q] in s;
    }
  }

  ghost predicate Strings(strs: seq<seq<byte>>) {
    forall i: nat | i < |strs| :: 0 !in strs[i]
  }

  /** All strings with their zero bytes. */
  function Packed(strs: seq<seq<byte>>): seq<byte> {
    if strs == [] then [] else strs[0] + [0] + Packed(strs[1..])
  }

  /** Where string i begins in them. */
  function Offset(strs: seq<seq<byte>>, i: nat): (o: nat)
    requires i <= |strs|
  {
    if i == 0 then 0 else |strs[0]| + 1 + Offset(strs[1..], i - 1)
  }

  lemma {:induction false} PackedAt(strs: seq<seq<byte>>, i: nat)
    requires i < |strs|
    ensures Offset(strs, i + 1) == Offset(strs, i) + |strs[i]| + 1 <= |Packed(strs)|
    ensures Packed(strs)[Offset(strs, i)..Offset(strs, i) + (|strs[i]| + 1)] == strs[i] + [0]
  {
    var rest := strs[1..];
    var p := strs[0] + [0];
    assert Packed(strs) == p + Packed(rest);
    if i > 0 {
      PackedAt(rest, i - 1);
      var o, k := Offset(rest, i - 1), |strs[i]| + 1;
      assert Packed(strs)[|p| + o..|p| + o + k] == Packed(rest)[o..o + k];
    } else {
      assert Offset(strs, 1) == |strs[0]| + 1 + Offset(rest, 0);
    }
  }

  lemma {:induction false} OffsetEnd(strs: seq<seq<byte>>)
    ensures Offset(strs, |strs|) == |Packed(strs)|
  {
    if strs != [] { OffsetEnd(strs[1..]); }
  }

  lemma {:induction false} OffsetSum(a: seq<seq<byte>>, b: seq<seq<byte>>, i: nat)
    requires i <= |b|
    ensures Packed(a + b) == Packed(a) + Packed(b)
    ensures Offset(a + b, |a| + i) == |Packed(a)| + Offset(b, i)
    decreases |a|
  {
    if a == [] {
      assert a + b == b;
    } else {
      OffsetSum(a[1..], b, i);
      assert (a + b)[1..] == a[1..] + b && (a + b)[0] == a[0];
    }
  }

  /** At least one byte for each string. */
  lemma {:induction false} PackedLong(strs: seq<seq<byte>>)
    ensures |Packed(strs)| >= |strs|
  {
    if strs != [] { PackedLong(strs[1..]); }
  }

  lemma HoldsPart(m: seq<byte>, p: nat, data: seq<byte>, o: nat, k: nat)
    requires Holds(m, p, data) && o + k <= |data|
    ensures Holds(m, p + o, data[o..o + k])
  {
    var part := data[o..o + k];
    forall x: int | p + o <= x < p + o + k ensures m[x] == part[x - (p + o)] {
      assert m[x] == data[x - p];
    }
  }

  /** Each string of a packed run is found where its offset says. */
  lemma FoundAt(m: seq<byte>, p: nat, strs: seq<seq<byte>>, i: nat)
    requires Strings(strs) && i < |strs| && Holds(m, p, Packed(strs))
    ensures StringAt(m, p + Offset(strs, i), strs[i])
  {
    PackedAt(strs, i);
    HoldsPart(m, p, Packed(strs), Offset(strs, i), |strs[i]| + 1);
  }

  // ---------------------------------------------------------------- words on the stack

  /** The lowest byte comes first. */
  function Four(a: int, b: int, c: int, d: int): int {
    a + b * 0x100 + c * 0x1_0000 + d * 0x100_0000
  }

  function Word(m: seq<byte>, a: int): int {
    if 0 <= a && a + 4 <= |m| then Four(m[a], m[a + 1], m[a + 2], m[a + 3]) else 0
  }

  /** The words from a on are the addresses of these strings, and then 0. */
  ghost predicate Table(m: seq<byte>, a: int, strs: seq<seq<byte>>) {
    && (forall i: nat | i < |strs| :: StringAt(m, Word(m, a + 4 * i), strs[i]))
    && Word(m, a + 4 * |strs|) == 0
  }

  /** What main finds: the number of arguments, and the tables of arguments and environment. */
  ghost predicate StackOk(m: seq<byte>, sp: int, argv: seq<seq<byte>>, envp: seq<seq<byte>>) {
    && sp % 4 == 0 && 0 <= sp
    && Word(m, sp) == |argv|
    && Table(m, Word(m, sp + 4), argv)
    && Table(m, Word(m, sp + 8), envp)
  }
}
