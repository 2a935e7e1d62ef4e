/**
 * A person's row of the password file and the tracking of solved hints: each
 * solved hint drops one character from the person's character set, and the
 * hints are all in once the set is down to its final size.
 */
module Persons {
  import opened Wrappers
  import opened CharSets

  /** Why a row cannot be read: a field index past the end, or a field that is not a number. */
  datatype RowError = MissingField(index: nat) | NotANumber(index: nat)

  /** getHintHashes: the fields from index 5 on, in order. */
  method GetHintHashes(list: seq<string>) returns (hints: seq<string>)
    ensures |list| <= 5 ==> hints == []
    ensures |list| > 5 ==> hints == list[5..]
  {
    hints := [];
    var i := 5;
    while i < |list|
      invariant 5 <= i
      invariant |list| >= 5 ==> i <= |list|
      invariant |list| < 5 ==> hints == []
      invariant i <= |list| ==> hints == list[5..i]
    {
      hints := hints + [list[i]];
      i := i + 1;
    }
  }

  /** The character set after `dropChar` has been called with each of `drops` in turn. */
  function DropAll(s: set<char>, drops: seq<char>): (r: set<char>)
    ensures r <= s
    ensures forall c :: c in drops ==> c !in r
  {
    if drops == [] then s else DropAll(s, drops[..|drops| - 1]) - {drops[|drops| - 1]}
  }

  /** Dropping distinct characters that are all present shrinks the set by their number. */
  lemma {:induction false} DropAllSize(s: set<char>, drops: seq<char>)
    requires Distinct(drops)
    requires forall c :: c in drops ==> c in s
    ensures |DropAll(s, drops)| == |s| - |drops|
  {
    if drops != [] {
      var init := drops[..|drops| - 1];
      var last := drops[|drops| - 1];
      assert forall c :: c in init ==> c in drops;
      DropAllSize(s, init);
      assert forall j :: 0 <= j < |init| ==> init[j] == drops[j] != last;
      DropAllKeeps(s, init, last);
    }
  }

  /** A character that is not dropped stays. */
  lemma {:induction false} DropAllKeeps(s: set<char>, drops: seq<char>, c: char)
    requires c in s && c !in drops
    ensures c in DropAll(s, drops)
  {
    if drops != [] {
      assert forall x :: x in drops[..|drops| - 1] ==> x in drops;
      DropAllKeeps(s, drops[..|drops| - 1], c);
    }
  }

  class Person {
    const id: int
    const name: string
    const passwordLength: int
    var charSet: set<char>
    const passwordHash: string
    const hints: seq<string>
    const finalCharSetSize: int

    /** The all-arguments constructor. */
    constructor (id: int, name: string, passwordLength: int, charSet: set<char>, passwordHash: string,
                 hints: seq<string>, finalCharSetSize: int)
      ensures this.id == id && this.name == name && this.passwordLength == passwordLength
      ensures this.charSet == charSet && this.passwordHash == passwordHash
      ensures this.hints == hints && this.finalCharSetSize == finalCharSetSize
    {
      this.id := id;
      this.name := name;
      this.passwordLength := passwordLength;
      this.charSet := charSet;
      this.passwordHash := passwordHash;
      this.hints := hints;
      this.finalCharSetSize := finalCharSetSize;
    }

    /**
     * fromList: reads id (field 0), name (1), characters (2), password length
     * (3), password hash (4) and the hints (5 on). The failures come in Java's
     * evaluation order; `parseInt` is the decimal parser, `None` standing for
     * its NumberFormatException.
     */
    static method FromList(list: seq<string>, parseInt: string -> Option<int>) returns (r: Result<Person, RowError>)
      ensures |list| == 0 ==> r == Failure(MissingField(0))
      ensures 0 < |list| && parseInt(list[0]).None? ==> r == Failure(NotANumber(0))
      ensures 0 < |list| <= 2 && parseInt(list[0]).Some? ==> r == Failure(MissingField(2))
      ensures |list| == 3 && parseInt(list[0]).Some? ==> r == Failure(MissingField(3))
      ensures 3 < |list| && parseInt(list[0]).Some? && parseInt(list[3]).None? ==> r == Failure(NotANumber(3))
      ensures |list| == 4 && parseInt(list[0]).Some? && parseInt(list[3]).Some? ==> r == Failure(MissingField(4))
      ensures r.Success? <==> 4 < |list| && parseInt(list[0]).Some? && parseInt(list[3]).Some?
      ensures r.Success? ==> fresh(r.value)
      ensures r.Success? ==>
                && r.value.id == parseInt(list[0]).value
                && r.value.name == list[1]
                && (forall c :: c in r.value.charSet <==> c in list[2])
                && |r.value.charSet| <= |list[2]|
                && r.value.passwordLength == parseInt(list[3]).value
                && r.value.passwordHash == list[4]
                && r.value.hints == list[5..]
                && r.value.finalCharSetSize == |r.value.charSet| - |r.value.hints|
      ensures r.Success? ==> (r.value.HasAllHints() <==> |list| == 5)
    {
      if |list| == 0 {
        return Failure(MissingField(0));
      }
      var id := parseInt(list[0]);
      if id.None? {
        return Failure(NotANumber(0));
      }
      if |list| <= 2 {
        return Failure(MissingField(2));
      }
      var charSet := ParseChars(list[2]);
      if |list| <= 3 {
        return Failure(MissingField(3));
      }
      var length := parseInt(list[3]);
      if length.None? {
        return Failure(NotANumber(3));
      }
      var hints := GetHintHashes(list);
      if |list| <= 4 {
        return Failure(MissingField(4));
      }
      var p := new Person(id.value, list[1], length.value, charSet, list[4], hints, |charSet| - |hints|);
      r := Success(p);
    }

    /** dropChar: removes `c` from the set in place. */
    method DropChar(c: char)
      modifies this
      ensures charSet == old(charSet) - {c}
      ensures |charSet| == if c in old(charSet) then |old(charSet)| - 1 else |old(charSet)|
    {
      charSet := charSet - {c};
    }

    /**
     * hasAllHints: the set is down to its final size. While the set still has
     * the size `fromList` read, that is the case exactly when there are no hints.
     */
    function HasAllHints(): (r: bool)
      reads this
      ensures finalCharSetSize == |charSet| - |hints| ==> (r <==> hints == [])
    {
      |charSet| == finalCharSetSize
    }
  }

  /**
   * A person fresh from a row has all hints once `dropChar` has been called
   * with as many distinct characters of its set as it has hints.
   */
  lemma HintsCompleteAfterDrops(charSet: set<char>, hints: seq<string>, drops: seq<char>)
    requires Distinct(drops) && |drops| == |hints|
    requires forall c :: c in drops ==> c in charSet
    ensures |DropAll(charSet, drops)| == |charSet| - |hints|
  {
    DropAllSize(charSet, drops);
  }

  /** A caller's series of `dropChar` calls, one per character of `drops`, in order. */
  method DropChars(p: Person, drops: seq<char>)
    modifies p
    ensures p.charSet == DropAll(old(p.charSet), drops)
  {
    ghost var start := p.charSet;
    for i := 0 to |drops|
      invariant p.charSet == DropAll(start, drops[..i])
    {
      assert drops[..i + 1][..i] == drops[..i];
      p.DropChar(drops[i]);
    }
    assert drops[..|drops|] == drops;
  }

  /**
   * A person whose final size is as `fromList` set it has all hints once
   * `dropChar` has been called with as many distinct characters of its set as
   * it has hints.
   */
  method DropHintChars(p: Person, drops: seq<char>)
    requires p.finalCharSetSize == |p.charSet| - |p.hints|
    requires Distinct(drops) && |drops| == |p.hints|
    requires forall c :: c in drops ==> c in p.charSet
    modifies p
    ensures p.charSet == DropAll(old(p.charSet), drops)
    ensures p.HasAllHints()
  {
    ghost var start := p.charSet;
    DropChars(p, drops);
    HintsCompleteAfterDrops(start, p.hints, drops);
  }
}
