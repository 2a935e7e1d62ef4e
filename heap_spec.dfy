/**
 * What `heapPermutation(a, size, ...)` does to its array, as functions on the
 * array's contents: the state it leaves behind (After), and the candidates it
 * checks at `size == 1`, in order (Leaves). This is the recursive variant that
 * swaps after every recursive call, the last one included: for odd `size` the
 * first `size` elements end where they started, for even `size` they end
 * rotated right by one.
 */
module HeapSpec {

  /** `w` is `s` with its first `k` elements rearranged and the rest untouched. */
  predicate IsArrangement(w: seq<char>, s: seq<char>, k: nat)
  {
    k <= |s| && |w| == |s| && w[k..] == s[k..] && multiset(w[..k]) == multiset(s[..k])
  }

  function Factorial(n: nat): nat
  {
    if n == 0 then 1 else n * Factorial(n - 1)
  }

  /** The swap of two array elements, as `heapPermutation` writes it with a temporary. */
  function Swap(s: seq<char>, i: nat, j: nat): (r: seq<char>)
    requires i < |s| && j < |s|
    ensures |r| == |s|
  {
    s[i := s[j]][j := s[i]]
  }

  /** The swap after the `i`-th recursive call: first and last for odd `k`, `i`-th and last for even `k`. */
  function Step(s: seq<char>, k: nat, i: nat): (r: seq<char>)
    requires i < k <= |s|
    ensures |r| == |s|
  {
    if k % 2 == 1 then Swap(s, 0, k - 1) else Swap(s, i, k - 1)
  }

  /** The array after `heapPermutation(s, k)` returns without finding a match. */
  function After(s: seq<char>, k: nat): (r: seq<char>)
    requires k <= |s|
    ensures |r| == |s|
    decreases k, 1, 0
  {
    if k == 0 then s else StateAt(s, k, k)
  }

  /** The array at the start of iteration `i` of the loop of `heapPermutation(s, k)`. */
  function StateAt(s: seq<char>, k: nat, i: nat): (r: seq<char>)
    requires 0 < k <= |s| && i <= k
    ensures |r| == |s|
    decreases k, 0, i
  {
    if i == 0 then s else Step(After(StateAt(s, k, i - 1), k - 1), k, i - 1)
  }

  /** The arrays checked at `size == 1` during `heapPermutation(s, k)`, in order. */
  function Leaves(s: seq<char>, k: nat): seq<seq<char>>
    requires k <= |s|
    decreases k, 3, 0
  {
    if k == 0 then [] else (if k == 1 then [s] else []) + IterLeaves(s, k, k)
  }

  /** The arrays checked during the first `n` iterations of the loop of `heapPermutation(s, k)`. */
  function IterLeaves(s: seq<char>, k: nat, n: nat): seq<seq<char>>
    requires 0 < k <= |s| && n <= k
    decreases k, 2, n
  {
    if n == 0 then [] else IterLeaves(s, k, n - 1) + Leaves(StateAt(s, k, n - 1), k - 1)
  }

  // ----- arrangements -----

  lemma ArrangementRefl(s: seq<char>, k: nat)
    requires k <= |s|
    ensures IsArrangement(s, s, k)
  {
  }

  lemma ArrangementTrans(u: seq<char>, v: seq<char>, w: seq<char>, k: nat)
    requires IsArrangement(u, v, k) && IsArrangement(v, w, k)
    ensures IsArrangement(u, w, k)
  {
  }

  lemma ArrangementWiden(u: seq<char>, v: seq<char>, k: nat, k': nat)
    requires IsArrangement(u, v, k) && k <= k' <= |v|
    ensures IsArrangement(u, v, k')
  {
    assert u[..k'] == u[..k] + u[k..k'];
    assert v[..k'] == v[..k] + v[k..k'];
    assert u[k..k'] == u[k..][..k' - k];
    assert v[k..k'] == v[k..][..k' - k];
    assert u[k'..] == u[k..][k' - k..];
    assert v[k'..] == v[k..][k' - k..];
  }

  lemma SwapArrangement(s: seq<char>, i: nat, j: nat, k: nat)
    requires i < k && j < k && k <= |s|
    ensures IsArrangement(Swap(s, i, j), s, k)
  {
    var r := Swap(s, i, j);
    assert r[k..] == s[k..];
    assert r[..k] == s[..k][i := s[j]][j := s[i]];
  }

  /**
   * heapPermutation only swaps elements below `size`: a full call keeps the
   * multiset of the first `size` elements and never writes from `size` on.
   */
  lemma {:induction false} AfterIsArrangement(s: seq<char>, k: nat)
    requires k <= |s|
    ensures IsArrangement(After(s, k), s, k)
    decreases k, 1, 0
  {
    if k == 0 {
      ArrangementRefl(s, 0);
    } else {
      StateAtIsArrangement(s, k, k);
    }
  }

  lemma {:induction false} StateAtIsArrangement(s: seq<char>, k: nat, i: nat)
    requires 0 < k <= |s| && i <= k
    ensures IsArrangement(StateAt(s, k, i), s, k)
    decreases k, 0, i
  {
    if i == 0 {
      ArrangementRefl(s, k);
    } else {
      var prev := StateAt(s, k, i - 1);
      StateAtIsArrangement(s, k, i - 1);
      AfterIsArrangement(prev, k - 1);
      StepKeepsArrangement(After(prev, k - 1), prev, s, k, i - 1);
    }
  }

  /** Rearranging below `k - 1` and then swapping below `k` keeps an arrangement of `s` below `k`. */
  lemma StepKeepsArrangement(inner: seq<char>, prev: seq<char>, s: seq<char>, k: nat, i: nat)
    requires i < k <= |s| && IsArrangement(prev, s, k) && IsArrangement(inner, prev, k - 1)
    ensures IsArrangement(Step(inner, k, i), s, k)
  {
    ArrangementWiden(inner, prev, k - 1, k);
    ArrangementTrans(inner, prev, s, k);
    StepIsArrangement(inner, k, i);
    ArrangementTrans(Step(inner, k, i), inner, s, k);
  }

  lemma StepIsArrangement(s: seq<char>, k: nat, i: nat)
    requires i < k <= |s|
    ensures IsArrangement(Step(s, k, i), s, k)
  {
    if k % 2 == 1 {
      assert Step(s, k, i) == Swap(s, 0, k - 1);
      SwapArrangement(s, 0, k - 1, k);
    } else {
      assert Step(s, k, i) == Swap(s, i, k - 1);
      SwapArrangement(s, i, k - 1, k);
    }
  }

  // ----- the effect of one full call -----

  /** `s` with its first `k` elements rotated right by `i` places. */
  function RotateRight(s: seq<char>, k: nat, i: nat): (r: seq<char>)
    requires i <= k <= |s|
  {
    seq(|s|, j requires 0 <= j < |s| => if j < i then s[k - i + j] else if j < k then s[j - i] else s[j])
  }

  /** For even `k`, the array at the start of iteration `i` (0 < i < k). */
  function EvenState(s: seq<char>, k: nat, i: nat): (r: seq<char>)
    requires 0 < i < k <= |s|
  {
    seq(|s|, j requires 0 <= j < |s| =>
      if j == 0 then s[k - 1]
      else if j < i then s[j - 1]
      else if j < k - 1 then s[j]
      else if j == k - 1 then s[i - 1]
      else s[j])
  }

  /**
   * A full call leaves the first `k` elements as they were for odd `k`, and
   * rotated right by one for even `k`.
   */
  lemma AfterEffect(s: seq<char>, k: nat)
    requires 0 < k <= |s|
    ensures After(s, k) == if k % 2 == 1 then s else RotateRight(s, k, 1)
  {
    if k % 2 == 1 {
      AfterOdd(s, k);
    } else {
      AfterEven(s, k);
    }
  }

  lemma {:induction false} AfterOdd(s: seq<char>, k: nat)
    requires 0 < k <= |s| && k % 2 == 1
    ensures After(s, k) == s
    decreases k, 1, 0
  {
    OddStates(s, k, k);
    assert RotateRight(s, k, k) == s;
  }

  lemma {:induction false} AfterEven(s: seq<char>, k: nat)
    requires 0 < k <= |s| && k % 2 == 0
    ensures After(s, k) == RotateRight(s, k, 1)
    decreases k, 1, 0
  {
    EvenStates(s, k, k - 1);
    var x := EvenState(s, k, k - 1);
    AfterOdd(x, k - 1);
    StateAtUnfold(s, k, k);
    assert StateAt(s, k, k) == Swap(x, k - 1, k - 1);
    EvenLast(s, k);
  }

  /** For odd `k`, every iteration rotates the first `k` elements right by one. */
  lemma {:induction false} OddStates(s: seq<char>, k: nat, i: nat)
    requires 0 < k <= |s| && k % 2 == 1 && i <= k
    ensures StateAt(s, k, i) == RotateRight(s, k, i)
    decreases k, 0, i
  {
    if i == 0 {
      assert RotateRight(s, k, 0) == s;
    } else {
      OddStates(s, k, i - 1);
      var x := RotateRight(s, k, i - 1);
      StateAtUnfold(s, k, i);
      var inner := After(x, k - 1);
      assert StateAt(s, k, i) == Step(inner, k, i - 1);
      assert Step(inner, k, i - 1) == Swap(inner, 0, k - 1);
      if k == 1 {
        assert inner == x;
        assert RotateRight(s, k, 0) == s && RotateRight(s, k, k) == s;
        assert i == 1;
      } else {
        AfterEven(x, k - 1);
        OddStep(s, k, i);
      }
    }
  }

  /** For even `k`, the state before iteration `i` as the `i` earlier swaps leave it. */
  lemma {:induction false} EvenStates(s: seq<char>, k: nat, i: nat)
    requires 0 < i < k <= |s| && k % 2 == 0
    ensures StateAt(s, k, i) == EvenState(s, k, i)
    decreases k, 0, i
  {
    if i == 1 {
      EvenFirstState(s, k);
    } else {
      EvenStates(s, k, i - 1);
      EvenNextState(s, k, i);
    }
  }

  /** For even `k`, iteration 0 leaves the first and last elements swapped. */
  lemma {:induction false} EvenFirstState(s: seq<char>, k: nat)
    requires 1 < k <= |s| && k % 2 == 0
    ensures StateAt(s, k, 1) == EvenState(s, k, 1)
    decreases k, 0, 0
  {
    AfterOdd(s, k - 1);
    StateAtUnfold(s, k, 1);
    EvenFirst(s, k);
  }

  /** For even `k`, iteration `i - 1` takes the state before it to the next one. */
  lemma {:induction false} EvenNextState(s: seq<char>, k: nat, i: nat)
    requires 1 < i < k <= |s| && k % 2 == 0
    requires StateAt(s, k, i - 1) == EvenState(s, k, i - 1)
    ensures StateAt(s, k, i) == EvenState(s, k, i)
    decreases k, 0, 0
  {
    var x := EvenState(s, k, i - 1);
    AfterOdd(x, k - 1);
    StateAtUnfold(s, k, i);
    EvenStep(s, k, i);
  }

  lemma StateAtUnfold(s: seq<char>, k: nat, i: nat)
    requires 0 < i <= k <= |s|
    ensures StateAt(s, k, i) == Step(After(StateAt(s, k, i - 1), k - 1), k, i - 1)
  {
  }


  lemma OddStep(s: seq<char>, k: nat, i: nat)
    requires 1 < k <= |s| && 0 < i <= k
    ensures Swap(RotateRight(RotateRight(s, k, i - 1), k - 1, 1), 0, k - 1) == RotateRight(s, k, i)
  {
    var x := RotateRight(s, k, i - 1);
    var y := RotateRight(x, k - 1, 1);
    var z := Swap(y, 0, k - 1);
    var r := RotateRight(s, k, i);
    forall j | 0 <= j < |s|
      ensures z[j] == r[j]
    {
      if j == 0 {
        assert z[0] == y[k - 1] == x[k - 1];
      } else if j < k - 1 {
        assert z[j] == y[j] == x[j - 1];
      } else if j == k - 1 {
        assert z[j] == y[0] == x[k - 2];
      }
    }
  }

  lemma EvenFirst(s: seq<char>, k: nat)
    requires 1 < k <= |s|
    ensures Swap(s, 0, k - 1) == EvenState(s, k, 1)
  {
  }

  lemma EvenStep(s: seq<char>, k: nat, i: nat)
    requires 1 < i < k <= |s|
    ensures Swap(EvenState(s, k, i - 1), i - 1, k - 1) == EvenState(s, k, i)
  {
  }

  lemma EvenLast(s: seq<char>, k: nat)
    requires 1 < k <= |s|
    ensures Swap(EvenState(s, k, k - 1), k - 1, k - 1) == RotateRight(s, k, 1)
  {
  }

  // ----- what the leaf check sees -----

  /** Every candidate checked is an arrangement of the first `k` elements, the rest untouched. */
  lemma {:induction false} LeavesSound(s: seq<char>, k: nat, w: seq<char>)
    requires k <= |s| && w in Leaves(s, k)
    ensures IsArrangement(w, s, k)
    decreases k, 1, 0
  {
    if k == 1 && w == s {
      ArrangementRefl(s, 1);
    } else {
      assert w in IterLeaves(s, k, k);
      IterLeavesSound(s, k, k, w);
    }
  }

  /** A checked candidate agrees with the array from position `k` on. */
  lemma LeavesFixFrom(s: seq<char>, k: nat, w: seq<char>, j: nat)
    requires k <= j < |s| && w in Leaves(s, k)
    ensures |w| == |s| && w[j] == s[j]
  {
    LeavesSound(s, k, w);
    ArrangementRest(w, s, k, j);
  }

  lemma {:induction false} IterLeavesSound(s: seq<char>, k: nat, n: nat, w: seq<char>)
    requires 0 < k <= |s| && n <= k && w in IterLeaves(s, k, n)
    ensures IsArrangement(w, s, k)
    decreases k, 0, n
  {
    assert n > 0;
    if w in IterLeaves(s, k, n - 1) {
      IterLeavesSound(s, k, n - 1, w);
    } else {
      assert w in Leaves(StateAt(s, k, n - 1), k - 1);
      IterationLeafSound(s, k, n - 1, w);
    }
  }

  /** A candidate checked during iteration `i` is an arrangement of the first `k` elements. */
  lemma {:induction false} IterationLeafSound(s: seq<char>, k: nat, i: nat, w: seq<char>)
    requires 0 < k <= |s| && i < k && w in Leaves(StateAt(s, k, i), k - 1)
    ensures IsArrangement(w, s, k)
    decreases k, 0, 0
  {
    var t := StateAt(s, k, i);
    LeavesSound(t, k - 1, w);
    ArrangementWiden(w, t, k - 1, k);
    StateAtIsArrangement(s, k, i);
    ArrangementTrans(w, t, s, k);
  }

  /** Without an early exit the leaf check runs `k!` times. */
  lemma {:induction false} LeafCount(s: seq<char>, k: nat)
    requires 0 < k <= |s|
    ensures |Leaves(s, k)| == Factorial(k)
    decreases k, 1, 0
  {
    IterLeafCount(s, k, k);
  }

  lemma {:induction false} IterLeafCount(s: seq<char>, k: nat, n: nat)
    requires 0 < k <= |s| && n <= k
    ensures |IterLeaves(s, k, n)| == if k == 1 then 0 else n * Factorial(k - 1)
    decreases k, 0, n
  {
    if n > 0 {
      var t := StateAt(s, k, n - 1);
      assert IterLeaves(s, k, n) == IterLeaves(s, k, n - 1) + Leaves(t, k - 1);
      IterLeafCount(s, k, n - 1);
      if k > 1 {
        LeafCount(t, k - 1);
        assert (n - 1) * Factorial(k - 1) + Factorial(k - 1) == n * Factorial(k - 1);
      }
    }
  }

  /** Every candidate of iteration `i` is among the candidates of the first `n` iterations. */
  lemma {:induction false} IterLeavesContain(s: seq<char>, k: nat, n: nat, i: nat, w: seq<char>)
    requires 0 < k <= |s| && i < n <= k
    requires w in Leaves(StateAt(s, k, i), k - 1)
    ensures w in IterLeaves(s, k, n)
    decreases n
  {
    var earlier := IterLeaves(s, k, n - 1);
    var last := Leaves(StateAt(s, k, n - 1), k - 1);
    assert IterLeaves(s, k, n) == earlier + last;
    if i < n - 1 {
      IterLeavesContain(s, k, n - 1, i, w);
      assert w in earlier;
    } else {
      assert w in last;
    }
  }

  /** Each of the first `k` elements sits at position `k - 1` during some iteration. */
  lemma LastDuring(s: seq<char>, k: nat, j: nat) returns (i: nat)
    requires 1 < k <= |s| && j < k
    ensures i < k && StateAt(s, k, i)[k - 1] == s[j]
  {
    if k % 2 == 1 {
      i := k - 1 - j;
      OddStates(s, k, i);
    } else if j == k - 1 {
      i := 0;
    } else {
      i := j + 1;
      EvenStates(s, k, i);
    }
  }

  /** Every arrangement of the first `k` elements is checked (for `k` at least 1). */
  lemma {:induction false} LeavesComplete(s: seq<char>, k: nat, w: seq<char>)
    requires 0 < k <= |s| && IsArrangement(w, s, k)
    ensures w in Leaves(s, k)
    decreases k
  {
    if k == 1 {
      SingleArrangement(s, w);
    } else {
      var i := StepDown(s, k, w);
      LeavesComplete(StateAt(s, k, i), k - 1, w);
      IterLeavesContain(s, k, k, i, w);
    }
  }

  /** With one element to arrange, the only arrangement is the array itself. */
  lemma SingleArrangement(s: seq<char>, w: seq<char>)
    requires 0 < |s| && IsArrangement(w, s, 1)
    ensures w == s
  {
    assert w[..1] == [w[0]] && s[..1] == [s[0]];
    assert w[0] in multiset(s[..1]);
    assert w == w[..1] + w[1..] && s == s[..1] + s[1..];
  }

  /** Some iteration of the loop starts from an array that `w` rearranges below `k - 1`. */
  lemma StepDown(s: seq<char>, k: nat, w: seq<char>) returns (i: nat)
    requires 1 < k <= |s| && IsArrangement(w, s, k)
    ensures i < k && IsArrangement(w, StateAt(s, k, i), k - 1)
  {
    i := LastFrom(s, k, w);
    StateAtIsArrangement(s, k, i);
    ArrangementVia(w, s, StateAt(s, k, i), k);
  }

  /** The element `w` puts last sits at position `k - 1` at the start of some iteration. */
  lemma LastFrom(s: seq<char>, k: nat, w: seq<char>) returns (i: nat)
    requires 1 < k <= |s| && IsArrangement(w, s, k)
    ensures i < k && StateAt(s, k, i)[k - 1] == w[k - 1]
  {
    var v := w[k - 1];
    assert w[..k][k - 1] == v;
    assert v in multiset(s[..k]);
    var j :| 0 <= j < k && s[..k][j] == v;
    i := LastDuring(s, k, j);
  }

  /** Two arrangements of `s` that agree at position `k - 1` are arrangements of each other below it. */
  lemma ArrangementVia(w: seq<char>, s: seq<char>, t: seq<char>, k: nat)
    requires 0 < k && IsArrangement(w, s, k) && IsArrangement(t, s, k) && w[k - 1] == t[k - 1]
    ensures IsArrangement(w, t, k - 1)
  {
    ArrangementSym(t, s, k);
    ArrangementTrans(w, s, t, k);
    ArrangementDrop(w, t, k);
  }

  /** An arrangement below `k` leaves every position from `k` on as it was. */
  lemma ArrangementRest(w: seq<char>, s: seq<char>, k: nat, j: nat)
    requires IsArrangement(w, s, k) && k <= j < |s|
    ensures w[j] == s[j]
  {
    assert w[k..][j - k] == s[k..][j - k];
  }

  lemma ArrangementSym(u: seq<char>, v: seq<char>, k: nat)
    requires IsArrangement(u, v, k)
    ensures IsArrangement(v, u, k)
  {
  }

  lemma ArrangementDrop(u: seq<char>, v: seq<char>, k: nat)
    requires 0 < k && IsArrangement(u, v, k) && u[k - 1] == v[k - 1]
    ensures IsArrangement(u, v, k - 1)
  {
    assert u[..k] == u[..k - 1] + [u[k - 1]];
    assert v[..k] == v[..k - 1] + [v[k - 1]];
    assert u[k - 1..] == [u[k - 1]] + u[k..];
    assert v[k - 1..] == [v[k - 1]] + v[k..];
    var x := u[k - 1];
    assert multiset(u[..k]) == multiset(u[..k - 1]) + multiset{x};
    assert multiset(v[..k]) == multiset(v[..k - 1]) + multiset{x};
    assert multiset(u[..k - 1]) == multiset(u[..k]) - multiset{x};
    assert multiset(v[..k - 1]) == multiset(v[..k]) - multiset{x};
  }
}
