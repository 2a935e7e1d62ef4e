/**
 * The worker's brute force: for a hint (a hash and a character set), try the
 * arrangements of the set's characters that Heap's algorithm produces, and
 * stop at the first whose SHA-256 hex digest equals the hash.
 *
 * SHA-256 and the UTF-8 encoding before it are a parameter (`digest`); the
 * hex formatting of its result is modelled.
 */
module Worker {
  import opened Wrappers
  import opened Bytes
  import opened Hex
  import opened HeapSpec
  import opened CharSets

  datatype Hint = Hint(personID: int, hash: string, charSet: set<char>)

  /** The text `hasHash` compares with the hash: the hex form of a candidate's digest. */
  function HexDigest(digest: string -> seq<int8>): string -> string
  {
    w => HexString(digest(w))
  }

  /** `candidate` hashes to `hash`, for `hexOf` the hex digest (HexDigest) of the hash function. */
  predicate Matches(candidate: string, hash: string, hexOf: string -> string)
  {
    hash == hexOf(candidate)
  }

  /** The first candidate that hashes to `hash`: where the `Finished` throw stops the search. */
  function FirstMatch(candidates: seq<string>, hash: string, hexOf: string -> string): Option<string>
  {
    if candidates == [] then None
    else if Matches(candidates[0], hash, hexOf) then Some(candidates[0])
    else FirstMatch(candidates[1..], hash, hexOf)
  }

  /**
   * A found candidate is the earliest one that matches; nothing is found
   * exactly when no candidate matches.
   */
  lemma {:induction false} FirstMatchSpec(candidates: seq<string>, hash: string, hexOf: string -> string)
    ensures FirstMatch(candidates, hash, hexOf).Some? ==>
              exists j :: 0 <= j < |candidates| && candidates[j] == FirstMatch(candidates, hash, hexOf).value
                          && Matches(candidates[j], hash, hexOf)
                          && forall m :: 0 <= m < j ==> !Matches(candidates[m], hash, hexOf)
    ensures FirstMatch(candidates, hash, hexOf).None? <==>
              forall w :: w in candidates ==> !Matches(w, hash, hexOf)
  {
    if candidates != [] && !Matches(candidates[0], hash, hexOf) {
      var rest := candidates[1..];
      FirstMatchSpec(rest, hash, hexOf);
      if FirstMatch(rest, hash, hexOf).Some? {
        var j :| 0 <= j < |rest| && rest[j] == FirstMatch(rest, hash, hexOf).value
                 && Matches(rest[j], hash, hexOf)
                 && forall m :: 0 <= m < j ==> !Matches(rest[m], hash, hexOf);
        assert candidates[j + 1] == rest[j];
        assert forall m :: 0 <= m < j + 1 ==> !Matches(candidates[m], hash, hexOf) by {
          forall m | 0 <= m < j + 1 ensures !Matches(candidates[m], hash, hexOf) {
            if m > 0 { assert candidates[m] == rest[m - 1]; }
          }
        }
      } else {
        forall w | w in candidates ensures !Matches(w, hash, hexOf) {
          if w != candidates[0] { assert w in rest; }
        }
      }
    }
  }

  /** Searching two lists in turn finds the first list's match if it has one, else the second's. */
  lemma {:induction false} FirstMatchAppend(xs: seq<string>, ys: seq<string>, hash: string, hexOf: string -> string)
    ensures FirstMatch(xs + ys, hash, hexOf) ==
              if FirstMatch(xs, hash, hexOf).Some? then FirstMatch(xs, hash, hexOf) else FirstMatch(ys, hash, hexOf)
  {
    if xs != [] {
      assert (xs + ys)[1..] == xs[1..] + ys;
      FirstMatchAppend(xs[1..], ys, hash, hexOf);
    } else {
      assert xs + ys == ys;
    }
  }

  /**
   * The outcome of `heapPermutation(s, k)`: the array at the first check at
   * size 1 that matches, which the `Finished` throw carries out of every
   * enclosing call.
   */
  function Search(s: seq<char>, k: nat, hash: string, hexOf: string -> string): Option<string>
    requires k <= |s|
    decreases k, 1, 0
  {
    if k == 0 then None
    else if k == 1 && Matches(s, hash, hexOf) then Some(s)
    else SearchIter(s, k, k, hash, hexOf)
  }

  /** The outcome of the first `n` iterations of the loop of `heapPermutation(s, k)`. */
  function SearchIter(s: seq<char>, k: nat, n: nat, hash: string, hexOf: string -> string): Option<string>
    requires 0 < k <= |s| && n <= k
    decreases k, 0, n
  {
    if n == 0 then None
    else
      var found := SearchIter(s, k, n - 1, hash, hexOf);
      if found.Some? then found else Search(StateAt(s, k, n - 1), k - 1, hash, hexOf)
  }

  /** Once an iteration has found the match, the remaining iterations never run. */
  lemma {:induction false} SearchIterStable(s: seq<char>, k: nat, n: nat, n': nat, hash: string, hexOf: string -> string)
    requires 0 < k <= |s| && n <= n' <= k
    requires SearchIter(s, k, n, hash, hexOf).Some?
    ensures SearchIter(s, k, n', hash, hexOf) == SearchIter(s, k, n, hash, hexOf)
    decreases n' - n
  {
    if n < n' {
      SearchIterStable(s, k, n, n' - 1, hash, hexOf);
    }
  }

  /** A search whose leaf check (when `k == 1`) and iterations all miss finds nothing. */
  lemma SearchExhausted(s: seq<char>, k: nat, hash: string, hexOf: string -> string, leafMatched: bool)
    requires k <= |s| && leafMatched == (k == 1 && Matches(s, hash, hexOf)) && !leafMatched
    requires 0 < k ==> SearchIter(s, k, k, hash, hexOf) == None
    ensures Search(s, k, hash, hexOf) == None
  {
  }

  /** One more iteration after a run of misses yields what its recursive search yields. */
  lemma SearchIterNext(s: seq<char>, k: nat, i: nat, t: seq<char>, r: Option<string>, hash: string, hexOf: string -> string)
    requires 0 < k <= |s| && i < k
    requires SearchIter(s, k, i, hash, hexOf) == None
    requires t == StateAt(s, k, i) && r == Search(t, k - 1, hash, hexOf)
    ensures SearchIter(s, k, i + 1, hash, hexOf) == r
  {
  }

  /** The early-exit recursion finds the first matching array in the order HeapSpec.Leaves lists them. */
  lemma {:induction false} SearchIsFirstMatch(s: seq<char>, k: nat, hash: string, hexOf: string -> string)
    requires k <= |s|
    ensures Search(s, k, hash, hexOf) == FirstMatch(Leaves(s, k), hash, hexOf)
    decreases k, 1, 0
  {
    if k > 0 {
      var checked: seq<string> := if k == 1 then [s] else [];
      assert Leaves(s, k) == checked + IterLeaves(s, k, k);
      FirstMatchAppend(checked, IterLeaves(s, k, k), hash, hexOf);
      SearchIterIsFirstMatch(s, k, k, hash, hexOf);
    }
  }

  lemma {:induction false} SearchIterIsFirstMatch(s: seq<char>, k: nat, n: nat, hash: string, hexOf: string -> string)
    requires 0 < k <= |s| && n <= k
    ensures SearchIter(s, k, n, hash, hexOf) == FirstMatch(IterLeaves(s, k, n), hash, hexOf)
    decreases k, 0, n
  {
    if n > 0 {
      var t := StateAt(s, k, n - 1);
      SearchIsFirstMatch(t, k - 1, hash, hexOf);
      SearchIterIsFirstMatch(s, k, n - 1, hash, hexOf);
      SearchIterCombine(s, k, n, t, hash, hexOf);
    }
  }

  /** Iteration `n - 1`'s leaves follow the earlier ones, so its search runs only when theirs found nothing. */
  lemma SearchIterCombine(s: seq<char>, k: nat, n: nat, t: seq<char>, hash: string, hexOf: string -> string)
    requires 0 < n <= k <= |s| && t == StateAt(s, k, n - 1)
    requires SearchIter(s, k, n - 1, hash, hexOf) == FirstMatch(IterLeaves(s, k, n - 1), hash, hexOf)
    requires Search(t, k - 1, hash, hexOf) == FirstMatch(Leaves(t, k - 1), hash, hexOf)
    ensures SearchIter(s, k, n, hash, hexOf) == FirstMatch(IterLeaves(s, k, n), hash, hexOf)
  {
    FirstMatchAppend(IterLeaves(s, k, n - 1), Leaves(t, k - 1), hash, hexOf);
  }

  /**
   * What `heapPermutation(s, k)` promises: a found array matches and is an
   * arrangement of `s` moving only its first `k` characters; for `k > 0`,
   * nothing is found exactly when no such arrangement matches.
   */
  lemma SearchOutcome(s: seq<char>, k: nat, hash: string, hexOf: string -> string)
    requires k <= |s|
    ensures Search(s, k, hash, hexOf).Some? ==>
              Matches(Search(s, k, hash, hexOf).value, hash, hexOf) && IsArrangement(Search(s, k, hash, hexOf).value, s, k)
    ensures 0 < k ==>
              (Search(s, k, hash, hexOf).None? <==> forall w :: IsArrangement(w, s, k) ==> !Matches(w, hash, hexOf))
  {
    SearchIsFirstMatch(s, k, hash, hexOf);
    FirstMatchSpec(Leaves(s, k), hash, hexOf);
    var r := Search(s, k, hash, hexOf);
    if r.Some? {
      var j :| 0 <= j < |Leaves(s, k)| && Leaves(s, k)[j] == r.value && Matches(Leaves(s, k)[j], hash, hexOf);
      LeavesSound(s, k, r.value);
    } else if 0 < k {
      forall w | IsArrangement(w, s, k)
        ensures !Matches(w, hash, hexOf)
      {
        LeavesComplete(s, k, w);
      }
    }
  }

  /**
   * hash: hex-encodes the digest of `line`, appending, per byte, the last two
   * digits of `(b & 0xff) + 0x100` in base 16.
   */
  method Hash(line: string, digest: string -> seq<int8>) returns (r: string)
    ensures r == HexString(digest(line))
    ensures |r| == 2 * |digest(line)|
  {
    var hashedBytes := digest(line);
    var buffer := "";
    for i := 0 to |hashedBytes|
      invariant buffer == HexString(hashedBytes[..i])
    {
      ByteTextDigits(hashedBytes[i]);
      assert hashedBytes[..i + 1][..i] == hashedBytes[..i];
      buffer := buffer + ToStringRadix16(Unsigned(hashedBytes[i]) + 0x100)[1..];
    }
    assert hashedBytes[..|hashedBytes|] == hashedBytes;
    HexStringShape(hashedBytes);
    r := buffer;
  }

  /** hasHash: compares the hash with the hex digest of the string. */
  method HasHash(str: string, hash: string, digest: string -> seq<int8>) returns (b: bool)
    ensures b == Matches(str, hash, HexDigest(digest))
  {
    var hashed := Hash(str, digest);
    b := hash == hashed;
  }

  /** A negative `size` behaves as 0: no leaf check and no iteration. */
  function Clamp(size: int): nat
  {
    if size < 0 then 0 else size
  }

  /**
   * heapPermutation: permutes `a[0..size)` in place by swaps, checking the
   * whole array whenever `size` reaches 1, and stops everything at the first
   * match (the `Finished` throw, here the `Some` result, which is the array at
   * that moment). Without a match the array is left as After describes.
   */
  method HeapPermutation(a: array<char>, size: int, hash: string, digest: string -> seq<int8>)
    returns (solution: Option<string>)
    requires size <= a.Length
    modifies a
    ensures solution == Search(old(a[..]), Clamp(size), hash, HexDigest(digest))
    ensures solution.Some? ==> a[..] == solution.value
    ensures solution.None? ==> a[..] == After(old(a[..]), Clamp(size))
    decreases Clamp(size)
  {
    ghost var s0 := a[..];
    ghost var hexOf := HexDigest(digest);
    var k := Clamp(size);
    if size == 1 {
      var permutation := a[..];
      var found := HasHash(permutation, hash, digest);
      if found {
        return Some(permutation);
      }
    }
    var i := 0;
    while i < size
      invariant 0 <= i <= k
      invariant k == 0 ==> a[..] == s0
      invariant 0 < k ==> a[..] == StateAt(s0, k, i)
      invariant 0 < k ==> SearchIter(s0, k, i, hash, hexOf) == None
    {
      assert 0 < k == size;
      ghost var before := a[..];
      var r := HeapPermutation(a, size - 1, hash, digest);
      SearchIterNext(s0, k, i, before, r, hash, hexOf);
      if r.Some? {
        SearchIterStable(s0, k, i + 1, k, hash, hexOf);
        return r;
      }
      SwapAfterCall(a, size, i);
      StateAtUnfold(s0, k, i + 1);
      i := i + 1;
    }
    SearchExhausted(s0, k, hash, hexOf, size == 1 && Matches(s0, hash, hexOf));
    solution := None;
  }

  /** The swap that follows the `i`-th recursive call: first and last for odd `size`, `i`-th and last for even `size`. */
  method SwapAfterCall(a: array<char>, size: nat, i: nat)
    requires i < size <= a.Length
    modifies a
    ensures a[..] == Step(old(a[..]), size, i)
  {
    if size % 2 == 1 {
      SwapElements(a, 0, size - 1);
    } else {
      SwapElements(a, i, size - 1);
    }
  }

  /** The swap through a temporary. */
  method SwapElements(a: array<char>, i: nat, j: nat)
    requires i < a.Length && j < a.Length
    modifies a
    ensures a[..] == Swap(old(a[..]), i, j)
  {
    var temp := a[i];
    a[i] := a[j];
    a[j] := temp;
  }

  /** convertCharSet: copies the set's `toArray()` enumeration into a fresh array. */
  method ConvertCharSet(charSet: set<char>) returns (chars: array<char>)
    ensures fresh(chars)
    ensures IsEnumeration(chars[..], charSet)
  {
    var characterSet := Enumerate(charSet);
    chars := new char[|charSet|];
    for i := 0 to |characterSet|
      invariant chars[..i] == characterSet[..i]
    {
      chars[i] := characterSet[i];
    }
    assert chars[..] == characterSet;
  }

  /** A `Set<Character>` object, which `resolve` updates through the caller's reference. */
  class CharacterSet {
    var elements: set<char>

    constructor (elements: set<char>)
      ensures this.elements == elements
    {
      this.elements := elements;
    }
  }

  /**
   * resolve: removes every character of `chars` from the caller's set (the
   * `charSetCopy` it works on is the same object) and returns one that is
   * left; `None` stands for the NoSuchElementException when none is left.
   */
  method Resolve(chars: array<char>, charSet: CharacterSet) returns (resolved: Option<char>)
    modifies charSet
    ensures forall c :: c in charSet.elements <==> c in old(charSet.elements) && c !in chars[..]
    ensures resolved.None? <==> charSet.elements == {}
    ensures resolved.Some? ==> resolved.value in charSet.elements
  {
    var usedChars: set<char> := {};
    var charSetCopy := charSet;
    for i := 0 to chars.Length
      invariant forall c :: c in usedChars <==> c in chars[..i]
    {
      usedChars := usedChars + {chars[i]};
    }
    assert chars[..chars.Length] == chars[..];
    charSetCopy.elements := charSetCopy.elements - usedChars;
    if charSetCopy.elements == {} {
      return None;
    }
    var c :| c in charSetCopy.elements;
    resolved := Some(c);
  }

  /** The array a successful search leaves; the empty array when the search fails. */
  function SolutionOf(found: Option<string>): string
  {
    if found.Some? then found.value else []
  }

  /**
   * handle(Hint), as written: enumerates the set into an array and searches
   * with `size = chars.length - 1`; an empty solution is reported as failure.
   */
  method HandleHint(hint: Hint, digest: string -> seq<int8>) returns (solution: string, failed: bool, ghost order: seq<char>)
    ensures IsEnumeration(order, hint.charSet)
    ensures solution == SolutionOf(FirstMatch(Leaves(order, Clamp(|order| - 1)), hint.hash, HexDigest(digest)))
    ensures failed <==> FirstMatch(Leaves(order, Clamp(|order| - 1)), hint.hash, HexDigest(digest)).None?
    ensures !failed ==> Matches(solution, hint.hash, HexDigest(digest)) && IsArrangement(solution, order, |order|)
  {
    var chars := ConvertCharSet(hint.charSet);
    order := chars[..];
    solution := [];
    var found := HeapPermutation(chars, chars.Length - 1, hint.hash, digest);
    SearchIsFirstMatch(order, Clamp(|order| - 1), hint.hash, HexDigest(digest));
    SearchOutcome(order, Clamp(|order| - 1), hint.hash, HexDigest(digest));
    if found.Some? {
      solution := found.value;
      ArrangementWiden(solution, order, Clamp(|order| - 1), |order|);
    }
    failed := |solution| == 0;
  }

  /**
   * handle(Hint) with the search size corrected to `chars.length`: it fails
   * exactly when no arrangement of the hint's characters has the hash.
   */
  method HandleHintCorrected(hint: Hint, digest: string -> seq<int8>) returns (solution: string, failed: bool, ghost order: seq<char>)
    ensures IsEnumeration(order, hint.charSet)
    ensures solution == SolutionOf(FirstMatch(Leaves(order, |order|), hint.hash, HexDigest(digest)))
    ensures !failed ==> Matches(solution, hint.hash, HexDigest(digest)) && IsArrangement(solution, order, |order|)
    ensures |order| > 0 ==>
              (failed <==> forall w :: IsArrangement(w, order, |order|) ==> !Matches(w, hint.hash, HexDigest(digest)))
  {
    var chars := ConvertCharSet(hint.charSet);
    order := chars[..];
    solution := [];
    var found := HeapPermutation(chars, chars.Length, hint.hash, digest);
    SearchIsFirstMatch(order, |order|, hint.hash, HexDigest(digest));
    SearchOutcome(order, |order|, hint.hash, HexDigest(digest));
    if found.Some? {
      solution := found.value;
    }
    failed := |solution| == 0;
  }

  /** As written, every candidate keeps the enumeration's last character in place. */
  lemma AsWrittenKeepsLast(order: seq<char>, size: nat, w: seq<char>)
    requires size + 1 == |order| && w in Leaves(order, size)
    ensures |w| == |order| && w[size] == order[size]
  {
    LeavesFixFrom(order, size, w, size);
  }

  /**
   * As written, for the set {'a', 'b'} enumerated as "ab" and a hash made from
   * "ba", the only candidate checked is "ab": the search fails although "ba"
   * is an arrangement of the hint's characters with that hash.
   */
  lemma AsWrittenMissesPassword()
    ensures var digest := (w: string) => if w == "ba" then [1] else [0];
            && FirstMatch(Leaves("ab", 1), "01", HexDigest(digest)) == None
            && Matches("ba", "01", HexDigest(digest))
            && IsArrangement("ba", "ab", 2)
  {
    var digest := (w: string) => if w == "ba" then [1] else [0];
    assert Leaves("ab", 1) == ["ab"];
    assert HexString([0]) == "00";
    assert HexString([1]) == "01";
    assert "ba"[..2] == ['b'] + ['a'] && "ab"[..2] == ['a'] + ['b'];
    assert multiset(['b'] + ['a']) == multiset(['b']) + multiset(['a']);
    assert multiset(['a'] + ['b']) == multiset(['a']) + multiset(['b']);
  }
}
