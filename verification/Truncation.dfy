// What one pass of truncate leaves of a file: the zones in use, and the blocks that lead to them.

module Truncation {
  import opened FsState

  /** Slot s keeps its zone in a pass: the zone is in use, or holds the number of one that stays. */
  ghost predicate Stays(f: Fs, busy: set<nat>, s: Slot)
    requires IsSlot(f, s)
    decreases 3 - Depth(s)
  {
    Ptr(f, s) != 0 && (Ptr(f, s) in busy || (IsIndirect(s) && exists i: nat :: i < 512 && Stays(f, busy, Child(s, i))))
  }

  predicate Below(t: Slot, s: Slot) {
    !t.Top? && (Parent(t) == s || (t.Leaf? && Parent(Parent(t)) == s))
  }

  /** t is one of the first n children of s, or below one. */
  predicate InPart(t: Slot, s: Slot, n: nat) {
    !t.Top? && ((Parent(t) == s && Index(t) < n) || (t.Leaf? && Parent(Parent(t)) == s && Index(Parent(t)) < n))
  }

  /** Which entry of i_zone[] a slot hangs from. */
  function Root(s: Slot): nat {
    match s
    case Top(_, k) => k
    case Ind(_, _) => 7
    case _ => 8
  }

  /** The pass has dealt with slot c and all below. */
  ghost predicate Only(f: Fs, g: Fs, busy: set<nat>, c: Slot) {
    && |g.izone| == |f.izone|
    && forall t: Slot | IsSlot(f, t) ::
      Ptr(g, t) == if (t == c || Below(t, c)) && !Stays(f, busy, t) then 0 else Ptr(f, t)
  }

  /** The pass has dealt with the first n children of s and all below. */
  ghost predicate Swept(f: Fs, g: Fs, busy: set<nat>, s: Slot, n: nat) {
    && |g.izone| == |f.izone|
    && forall t: Slot | IsSlot(f, t) :: Ptr(g, t) == if InPart(t, s, n) && !Stays(f, busy, t) then 0 else Ptr(f, t)
  }

  /** The pass has dealt with the first k entries of i_zone[] and all below. */
  ghost predicate Passed(f: Fs, g: Fs, busy: set<nat>, ino: nat, k: nat) {
    && |g.izone| == |f.izone|
    && forall t: Slot | IsSlot(f, t) ::
      Ptr(g, t) == if t.ino == ino && Root(t) < k && !Stays(f, busy, t) then 0 else Ptr(f, t)
  }

  ghost predicate AnyStays(f: Fs, busy: set<nat>, ino: nat, k: nat)
    requires ino < |f.izone| && k <= 9
  {
    exists j: nat :: j < k && Stays(f, busy, Top(ino, j))
  }

  // ---------------------------------------------------------------- what stays

  lemma {:induction false} StaysSame(f: Fs, g: Fs, busy: set<nat>, t: Slot)
    requires IsSlot(f, t) && |g.izone| == |f.izone|
    requires forall u: Slot | IsSlot(f, u) && (u == t || Below(u, t)) :: Ptr(g, u) == Ptr(f, u)
    ensures Stays(g, busy, t) == Stays(f, busy, t)
    decreases 3 - Depth(t)
  {
    if IsIndirect(t) {
      forall i: nat | i < 512 ensures Stays(g, busy, Child(t, i)) == Stays(f, busy, Child(t, i)) {
        StaysSame(f, g, busy, Child(t, i));
      }
    }
  }

  /** Of a file that nobody uses nothing stays. */
  lemma {:induction false} IdleGoes(f: Fs, busy: set<nat>, s: Slot)
    requires IsSlot(f, s) && forall t: Slot | IsSlot(f, t) && t.ino == s.ino :: Ptr(f, t) == 0 || Ptr(f, t) !in busy
    ensures !Stays(f, busy, s)
    decreases 3 - Depth(s)
  {
    if IsIndirect(s) {
      forall i: nat | i < 512 ensures !Stays(f, busy, Child(s, i)) { IdleGoes(f, busy, Child(s, i)); }
    }
  }

  /** What stays after a pass is a zone in use, or leads to one. */
  lemma {:induction false} StaysFor(f: Fs, busy: set<nat>, s: Slot) returns (t: Slot)
    requires IsSlot(f, s) && Stays(f, busy, s)
    ensures IsSlot(f, t) && (t == s || Below(t, s)) && Ptr(f, t) != 0 && Ptr(f, t) in busy
    decreases 3 - Depth(s)
  {
    t := s;
    if Ptr(f, s) !in busy {
      var i: nat :| i < 512 && Stays(f, busy, Child(s, i));
      t := StaysFor(f, busy, Child(s, i));
    }
  }

  // ---------------------------------------------------------------- the progress of a pass

  lemma BelowNothing(f: Fs, busy: set<nat>, s: Slot)
    requires IsSlot(f, s) && Ptr(f, s) == 0
    ensures Swept(f, f, busy, s, 512) && Only(f, f, busy, s) && !Stays(f, busy, s)
  {
    forall t: Slot | IsSlot(f, t) && Below(t, s) ensures Ptr(f, t) == 0 {
      if Parent(t) != s { assert Ptr(f, Parent(t)) == 0; }
    }
  }

  lemma SweptNothing(f: Fs, busy: set<nat>, s: Slot)
    ensures Swept(f, f, busy, s, 0)
  {
  }

  lemma NextPart(t: Slot, s: Slot, i: nat)
    requires IsIndirect(s) && i < 512
    ensures InPart(t, s, i + 1) <==> InPart(t, s, i) || t == Child(s, i) || Below(t, Child(s, i))
    ensures InPart(t, s, i) ==> t != Child(s, i) && !Below(t, Child(s, i))
  {
  }

  /** What the pass has not come to yet is as it was. */
  lemma SweptRest(f: Fs, g: Fs, busy: set<nat>, s: Slot, i: nat, t: Slot)
    requires IsSlot(f, s) && IsIndirect(s) && i < 512 && Swept(f, g, busy, s, i)
    requires IsSlot(f, t) && (t == Child(s, i) || Below(t, Child(s, i)))
    ensures Ptr(g, t) == Ptr(f, t) && Stays(g, busy, t) == Stays(f, busy, t)
  {
    hide Stays, Ptr;
    forall u: Slot | IsSlot(f, u) && (u == t || Below(u, t)) ensures Ptr(g, u) == Ptr(f, u) { NextPart(u, s, i); }
    StaysSame(f, g, busy, t);
  }

  lemma SweptNext(f: Fs, g: Fs, h: Fs, busy: set<nat>, s: Slot, i: nat)
    requires IsSlot(f, s) && IsIndirect(s) && i < 512 && Swept(f, g, busy, s, i) && Only(g, h, busy, Child(s, i))
    ensures Swept(f, h, busy, s, i + 1) && Stays(g, busy, Child(s, i)) == Stays(f, busy, Child(s, i))
  {
    hide Stays, Ptr, InPart, Below;
    forall t: Slot | IsSlot(f, t)
      ensures Ptr(h, t) == if InPart(t, s, i + 1) && !Stays(f, busy, t) then 0 else Ptr(f, t)
    {
      NextPart(t, s, i);
      if t == Child(s, i) || Below(t, Child(s, i)) { SweptRest(f, g, busy, s, i, t); }
    }
    SweptRest(f, g, busy, s, i, Child(s, i));
  }

  /** The slot whose children are being swept keeps its own zone. */
  lemma SweptSelf(f: Fs, g: Fs, busy: set<nat>, s: Slot, i: nat)
    requires IsSlot(f, s) && Swept(f, g, busy, s, i)
    ensures IsSlot(g, s) && Ptr(g, s) == Ptr(f, s)
  {
  }

  lemma SweptChildless(f: Fs, g: Fs, busy: set<nat>, s: Slot)
    requires IsSlot(f, s) && IsIndirect(s) && Swept(f, g, busy, s, 512)
    requires forall i: nat | i < 512 :: !Stays(f, busy, Child(s, i))
    ensures Childless(g, s)
  {
    forall t: Slot | IsSlot(g, t) && !t.Top? && Parent(t) == s ensures Ptr(g, t) == 0 {
      assert t == Child(s, Index(t));
    }
  }

  /** All below s is dealt with, and s stays, */
  lemma SweptKept(f: Fs, g: Fs, busy: set<nat>, s: Slot)
    requires IsSlot(f, s) && IsIndirect(s) && Swept(f, g, busy, s, 512) && Stays(f, busy, s)
    ensures Only(f, g, busy, s)
  {
    assert forall t: Slot | IsSlot(f, t) :: InPart(t, s, 512) <==> Below(t, s);
  }

  /** or is given back. */
  lemma SweptFreed(f: Fs, g: Fs, h: Fs, busy: set<nat>, s: Slot)
    requires IsSlot(f, s) && IsIndirect(s) && Swept(f, g, busy, s, 512) && !Stays(f, busy, s)
    requires |h.izone| == |g.izone| && forall t: Slot | IsSlot(g, t) :: Ptr(h, t) == if t == s then 0 else Ptr(g, t)
    ensures Only(f, h, busy, s)
  {
    assert forall t: Slot | IsSlot(f, t) :: InPart(t, s, 512) <==> Below(t, s);
  }

  /** The zone of a data slot is given back. */
  lemma DataFreed(f: Fs, h: Fs, busy: set<nat>, s: Slot)
    requires IsSlot(f, s) && !IsIndirect(s) && Ptr(f, s) !in busy
    requires |h.izone| == |f.izone| && forall t: Slot | IsSlot(f, t) :: Ptr(h, t) == if t == s then 0 else Ptr(f, t)
    ensures Only(f, h, busy, s) && !Stays(f, busy, s)
  {
  }

  lemma DataKept(f: Fs, busy: set<nat>, s: Slot)
    requires IsSlot(f, s) && !IsIndirect(s) && Ptr(f, s) != 0 && Ptr(f, s) in busy
    ensures Only(f, f, busy, s) && Stays(f, busy, s)
  {
  }

  lemma PassedNothing(f: Fs, busy: set<nat>, ino: nat)
    ensures Passed(f, f, busy, ino, 0)
  {
  }

  lemma PassedNext(f: Fs, g: Fs, h: Fs, busy: set<nat>, ino: nat, k: nat)
    requires ino < |f.izone| && k < 9 && Passed(f, g, busy, ino, k) && Only(g, h, busy, Top(ino, k))
    ensures Passed(f, h, busy, ino, k + 1)
    ensures AnyStays(f, busy, ino, k + 1) <==> AnyStays(f, busy, ino, k) || Stays(g, busy, Top(ino, k))
  {
    var c := Top(ino, k);
    forall t: Slot | IsSlot(f, t) && (t == c || Below(t, c)) ensures Stays(g, busy, t) == Stays(f, busy, t) {
      StaysSame(f, g, busy, t);
    }
    forall t: Slot | IsSlot(f, t)
      ensures Ptr(h, t) == if t.ino == ino && Root(t) < k + 1 && !Stays(f, busy, t) then 0 else Ptr(f, t)
    {
      assert t.ino == ino && Root(t) == k <==> t == c || Below(t, c);
      assert Ptr(h, t) == if (t == c || Below(t, c)) && !Stays(g, busy, t) then 0 else Ptr(g, t);
    }
    assert AnyStays(f, busy, ino, k + 1) ==> AnyStays(f, busy, ino, k) || Stays(f, busy, c);
  }

  /** A whole pass: every slot of the file is cleared or stays, other files keep theirs. */
  ghost predicate Pass(f: Fs, g: Fs, busy: set<nat>, ino: nat) {
    Passed(f, g, busy, ino, 9)
  }

  /** gs are the states between the passes: they end with the first that leaves nothing, or with the last. */
  ghost predicate Passes(gs: seq<Fs>, busy: seq<set<nat>>, ino: nat, done: bool) {
    && 0 < |gs| <= |busy| + 1 && (!done ==> |gs| == |busy| + 1)
    && (forall r: nat | r < |gs| :: ino < |gs[r].izone|)
    && (forall r: nat | r < |gs| - 1 :: Pass(gs[r], gs[r + 1], busy[r], ino))
    && (forall r: nat | r < |gs| - 1 :: AnyStays(gs[r], busy[r], ino, 9) <==> !(done && r == |gs| - 2))
    && (done ==> |gs| > 1)
  }
}
