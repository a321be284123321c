/** Doubly linked free lists whose links live in the free pages themselves:
    what it means for one to be well linked, and what a push and a removal do
    to it, on the arrays of links. */
module FreeLists {
  const NIL := 0xFFFF_FFFF

  /** The element at `i`, or NIL off either end. */
  function At(s: seq<nat>, i: int): nat {
    if 0 <= i < |s| then s[i] else NIL
  }

  predicate Distinct(s: seq<nat>) {
    forall i, j :: 0 <= i < j < |s| ==> s[i] != s[j]
  }

  /** The links spell exactly the list `s`, from the head `h` on, in both directions. */
  ghost predicate Linked(next: seq<nat>, prev: seq<nat>, h: nat, s: seq<nat>) {
    && |next| == |prev| <= NIL && Distinct(s) && h == At(s, 0)
    && forall i :: 0 <= i < |s| ==> s[i] < |next| && next[s[i]] == At(s, i + 1) && prev[s[i]] == At(s, i - 1)
  }

  /** Links outside a list do not matter to it. */
  lemma {:induction false} LinkedFrame(next: seq<nat>, prev: seq<nat>, next': seq<nat>, prev': seq<nat>, h: nat,
      s: seq<nat>)
    requires Linked(next, prev, h, s) && |next'| == |prev'| == |next|
    requires forall i :: 0 <= i < |s| ==> next'[s[i]] == next[s[i]] && prev'[s[i]] == prev[s[i]]
    ensures Linked(next', prev', h, s)
  {
  }

  lemma {:induction false} PushLinked(next: seq<nat>, prev: seq<nat>, h: nat, s: seq<nat>, x: nat)
    requires Linked(next, prev, h, s) && x < |next| && x !in s
    ensures h == NIL ==> Linked(next[x := h], prev[x := NIL], x, [x] + s)
    ensures h != NIL ==> h < |next| && Linked(next[x := h], prev[x := NIL][h := x], x, [x] + s)
  {
    var t := [x] + s;
    assert forall i :: 0 < i < |t| ==> t[i] == s[i - 1];
    if s != [] {
      assert h == s[0];
    }
  }

  /** The two link updates of a removal, each made only where there is a neighbour. */
  function UnlinkNext(next: seq<nat>, before: nat, after: nat): (r: seq<nat>)
    ensures |r| == |next|
  {
    if before < |next| then next[before := after] else next
  }

  function UnlinkPrev(prev: seq<nat>, before: nat, after: nat): (r: seq<nat>)
    ensures |r| == |prev|
  {
    if after < |prev| then prev[after := before] else prev
  }

  function Without(s: seq<nat>, k: nat): (t: seq<nat>)
    requires k < |s|
    ensures |t| == |s| - 1
    ensures forall i :: 0 <= i < |t| ==> t[i] == if i < k then s[i] else s[i + 1]
  {
    s[..k] + s[k + 1..]
  }

  lemma {:induction false} AtWithout(s: seq<nat>, k: nat, i: int)
    requires k < |s|
    ensures At(Without(s, k), i) == if i < k then At(s, i) else At(s, i + 1)
  {
  }

  lemma {:induction false} AtIs(s: seq<nat>, i: int)
    ensures At(s, i) == if 0 <= i < |s| then s[i] else NIL
  {
  }

  lemma {:induction false} NextWithout(next: seq<nat>, s: seq<nat>, k: nat, i: nat)
    requires k < |s| && Distinct(s) && |next| <= NIL && i < |s| - 1
    requires forall i :: 0 <= i < |s| ==> s[i] < |next| && next[s[i]] == At(s, i + 1)
    ensures UnlinkNext(next, At(s, k - 1), At(s, k + 1))[Without(s, k)[i]] == At(Without(s, k), i + 1)
  {
    hide At;
    AtWithout(s, k, i + 1);
    AtIs(s, k - 1);
    if k > 0 && i != k - 1 {
      assert Without(s, k)[i] != s[k - 1];
    }
  }

  lemma {:induction false} PrevWithout(prev: seq<nat>, s: seq<nat>, k: nat, i: nat)
    requires k < |s| && Distinct(s) && |prev| <= NIL && i < |s| - 1
    requires forall i :: 0 <= i < |s| ==> s[i] < |prev| && prev[s[i]] == At(s, i - 1)
    ensures UnlinkPrev(prev, At(s, k - 1), At(s, k + 1))[Without(s, k)[i]] == At(Without(s, k), i - 1)
  {
    hide At;
    AtWithout(s, k, i - 1);
    AtIs(s, k + 1);
    if k < |s| - 1 && i != k {
      assert Without(s, k)[i] != s[k + 1];
    }
  }

  lemma {:induction false} RemoveLinked(next: seq<nat>, prev: seq<nat>, h: nat, s: seq<nat>, k: nat)
    requires Linked(next, prev, h, s) && k < |s|
    ensures var x := s[k];
      Linked(UnlinkNext(next, prev[x], next[x]), UnlinkPrev(prev, prev[x], next[x]),
             if prev[x] == NIL then next[x] else h, Without(s, k))
  {
    hide At, UnlinkNext, UnlinkPrev;
    var x := s[k];
    var t := Without(s, k);
    forall i | 0 <= i < |t|
      ensures UnlinkNext(next, prev[x], next[x])[t[i]] == At(t, i + 1)
      ensures UnlinkPrev(prev, prev[x], next[x])[t[i]] == At(t, i - 1)
    {
      NextWithout(next, s, k, i);
      PrevWithout(prev, s, k, i);
    }
    AtWithout(s, k, 0);
    AtIs(s, k - 1);
  }
}
