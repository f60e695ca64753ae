/** Case-insensitive string equality as `strcasecmp(a, b) == 0` decides it in the C locale:
    only the ASCII letters 'A'..'Z' are folded to lower case. */
module CaseInsensitive {

  function Lower(c: char): (r: char)
    ensures 'A' <= c <= 'Z' ==> r as int == c as int + 32
    ensures !('A' <= c <= 'Z') ==> r == c
  {
    if 'A' <= c <= 'Z' then (c as int + 32) as char else c
  }

  /** `strcasecmp(a, b) == 0`: the strings are equal character by character after folding. */
  predicate SameIgnoringCase(a: string, b: string)
    ensures SameIgnoringCase(a, b) <==>
      |a| == |b| && forall i :: 0 <= i < |a| ==> Lower(a[i]) == Lower(b[i])
  {
    if a == [] then b == []
    else b != [] && Lower(a[0]) == Lower(b[0]) && SameIgnoringCase(a[1..], b[1..])
  }

  lemma Reflexive(a: string)
    ensures SameIgnoringCase(a, a)
  {
  }

  lemma Symmetric(a: string, b: string)
    requires SameIgnoringCase(a, b)
    ensures SameIgnoringCase(b, a)
  {
  }

  lemma Transitive(a: string, b: string, c: string)
    requires SameIgnoringCase(a, b) && SameIgnoringCase(b, c)
    ensures SameIgnoringCase(a, c)
  {
  }
}
