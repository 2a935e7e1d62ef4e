/**
 * Character sets as the password cracker builds them from CSV fields, and the
 * enumeration of a hash set, whose iteration order Java leaves unspecified.
 */
module CharSets {

  /** No character occurs twice in `s`. */
  predicate Distinct(s: seq<char>) {
    forall i, j :: 0 <= i < j < |s| ==> s[i] != s[j]
  }

  /** `order` lists every element of `s` exactly once, in some order. */
  predicate IsEnumeration(order: seq<char>, s: set<char>) {
    |order| == |s| && Distinct(order) && forall c :: c in s <==> c in order
  }

  /**
   * parseChars: adds every character of `string` to a fresh hash set, so
   * repeated characters collapse into one element.
   */
  method ParseChars(str: string) returns (r: set<char>)
    ensures forall c :: c in r <==> c in str
    ensures |r| <= |str|
  {
    r := {};
    for i := 0 to |str|
      invariant forall c :: c in r <==> c in str[..i]
      invariant |r| <= i
    {
      r := r + {str[i]};
    }
    assert str[..|str|] == str;
  }

  /**
   * Iterating a hash set (`for (c : set)`, `toArray()`, `iterator()`): some
   * order that lists each element once.
   */
  method Enumerate(s: set<char>) returns (order: seq<char>)
    ensures IsEnumeration(order, s)
  {
    order := [];
    var rest := s;
    while rest != {}
      invariant forall c :: c in s <==> c in order || c in rest
      invariant forall c :: c in order ==> c !in rest
      invariant Distinct(order)
      invariant |order| + |rest| == |s|
      decreases |rest|
    {
      var c :| c in rest;
      order := order + [c];
      rest := rest - {c};
    }
  }
}
