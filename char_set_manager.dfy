/**
 * The character-subset iterator: for every character `c` of the original set
 * it holds the pair (set without `c`, `c`) and hands these pairs out one at a
 * time from the front of a list.
 */
module CharSetManagement {
  import opened Wrappers
  import opened CharSets

  /** One subset to try: the original set with `excludedChar` taken out. */
  datatype CharSet = CharSet(members: set<char>, excludedChar: char)

  /** The excluded characters of the list, in list order. */
  function Excluded(list: seq<CharSet>): (r: seq<char>)
    ensures |r| == |list|
    ensures forall j :: 0 <= j < |list| ==> r[j] == list[j].excludedChar
  {
    seq(|list|, j requires 0 <= j < |list| => list[j].excludedChar)
  }

  /**
   * Every entry leaves out one character of `chars` and keeps the rest, and no
   * character is left out twice.
   */
  predicate WellFormed(list: seq<CharSet>, chars: set<char>)
  {
    && Distinct(Excluded(list))
    && forall j :: 0 <= j < |list| ==>
         list[j].excludedChar in chars && list[j].members == chars - {list[j].excludedChar}
  }

  /** A full list: well formed, and every character of `chars` is left out by exactly one entry. */
  predicate IsSubsetList(list: seq<CharSet>, chars: set<char>)
  {
    WellFormed(list, chars) && IsEnumeration(Excluded(list), chars)
  }

  /**
   * generateSubsets: walks the set in its (unspecified) iteration order and,
   * for each character, appends a copy of the set with that character removed.
   */
  method GenerateSubsets(chars: set<char>) returns (charSets: seq<CharSet>)
    ensures IsSubsetList(charSets, chars)
  {
    var order := Enumerate(chars);
    charSets := [];
    for i := 0 to |order|
      invariant |charSets| == i
      invariant forall j :: 0 <= j < i ==> charSets[j] == CharSet(chars - {order[j]}, order[j])
    {
      var c := order[i];
      var set' := chars - {c};
      charSets := charSets + [CharSet(set', c)];
    }
    assert Excluded(charSets) == order;
  }

  /** Each entry of a full list misses exactly one character of the set, and not its own. */
  lemma SubsetShape(list: seq<CharSet>, chars: set<char>, j: nat)
    requires IsSubsetList(list, chars) && j < |list|
    ensures list[j].excludedChar !in list[j].members
    ensures |list[j].members| == |chars| - 1
  {
    var c := list[j].excludedChar;
    assert chars == list[j].members + {c};
  }

  /** Dropping the head of a well-formed list keeps it well formed. */
  lemma WellFormedTail(list: seq<CharSet>, chars: set<char>)
    requires WellFormed(list, chars) && list != []
    ensures WellFormed(list[1..], chars)
  {
    assert Excluded(list[1..]) == Excluded(list)[1..];
  }

  /** The list in reverse order, as `Collections.reverse` leaves it. */
  function Reverse<T>(s: seq<T>): (r: seq<T>)
    ensures |r| == |s|
    ensures forall j :: 0 <= j < |s| ==> r[j] == s[|s| - 1 - j]
  {
    if s == [] then [] else Reverse(s[1..]) + [s[0]]
  }

  /** Reversing a full list gives a full list. */
  lemma ReverseSubsetList(list: seq<CharSet>, chars: set<char>)
    requires IsSubsetList(list, chars)
    ensures IsSubsetList(Reverse(list), chars)
  {
    var r := Reverse(list);
    assert forall j :: 0 <= j < |r| ==> Excluded(r)[j] == Excluded(list)[|list| - 1 - j];
    forall c | c in Excluded(list)
      ensures c in Excluded(r)
    {
      var j :| 0 <= j < |list| && Excluded(list)[j] == c;
      assert Excluded(r)[|list| - 1 - j] == c;
    }
  }

  class CharSetManager {
    const originalSet: set<char>
    var charSets: seq<CharSet>

    /** The list only ever holds entries made from the original set, each character left out at most once. */
    ghost predicate Valid()
      reads this
    {
      WellFormed(charSets, originalSet)
    }

    /** The private constructor: parses the characters and generates the full list. */
    constructor (chars: string)
      ensures forall c :: c in originalSet <==> c in chars
      ensures IsSubsetList(charSets, originalSet)
      ensures Valid()
    {
      var parsed := ParseChars(chars);
      var subsets := GenerateSubsets(parsed);
      originalSet := parsed;
      charSets := subsets;
    }

    /** fromMessageLine: builds a manager from the third field; `None` is the out-of-bounds access on a shorter line. */
    static method FromMessageLine(line: seq<string>) returns (manager: Option<CharSetManager>)
      ensures manager.None? <==> |line| <= 2
      ensures manager.Some? ==> fresh(manager.value) && manager.value.Valid()
      ensures manager.Some? ==> IsSubsetList(manager.value.charSets, manager.value.originalSet)
      ensures manager.Some? ==> forall c :: c in manager.value.originalSet <==> c in line[2]
    {
      if |line| <= 2 {
        return None;
      }
      var m := new CharSetManager(line[2]);
      manager := Some(m);
    }

    /**
     * hasNext: there is an entry left. A full list (as the constructor and
     * `Reset` leave it) has one exactly when the original set is not empty,
     * and a valid list has none once the original set is empty.
     */
    function HasNext(): (r: bool)
      reads this
      ensures IsSubsetList(charSets, originalSet) ==> (r <==> originalSet != {})
      ensures WellFormed(charSets, originalSet) && originalSet == {} ==> !r
    {
      if |charSets| == 0 then false
      else
        assert WellFormed(charSets, originalSet) ==> charSets[0].excludedChar in originalSet;
        true
    }

    /**
     * next: takes the head off the list and returns it; `None` is the
     * out-of-bounds access on an empty list, which leaves the list as it was.
     */
    method Next() returns (candidate: Option<CharSet>)
      requires Valid()
      modifies this
      ensures Valid()
      ensures candidate.None? <==> !old(HasNext())
      ensures candidate.Some? ==> candidate.value == old(charSets)[0] && charSets == old(charSets)[1..]
      ensures candidate.None? ==> charSets == old(charSets)
      ensures candidate.Some? ==> candidate.value.members == originalSet - {candidate.value.excludedChar}
      ensures candidate.Some? ==> candidate.value.excludedChar !in Excluded(charSets)
    {
      if |charSets| == 0 {
        return None;
      }
      candidate := Some(charSets[0]);
      WellFormedTail(charSets, originalSet);
      assert Excluded(charSets)[1..] == Excluded(charSets[1..]);
      charSets := charSets[1..];
    }

    /** reset: regenerates the full list from the original set and reverses it. */
    method Reset()
      requires Valid()
      modifies this
      ensures Valid()
      ensures IsSubsetList(charSets, originalSet)
      ensures exists generated :: IsSubsetList(generated, originalSet) && charSets == Reverse(generated)
    {
      var subsets := GenerateSubsets(originalSet);
      ReverseSubsetList(subsets, originalSet);
      charSets := Reverse(subsets);
    }
  }
}
