/** Case-insensitive string equality, as used for tech-stack matching
    (`StringComparer.OrdinalIgnoreCase`), restricted to an ASCII case fold. */
module OrdinalIgnoreCase {

  /** Upper-cases an ASCII lower-case letter and leaves every other character alone. */
  function UpperAscii(c: char): (r: char)
    ensures !('a' <= r <= 'z')
    ensures r == c || ('A' <= r <= 'Z' && r as int + 32 == c as int)
  {
    if 'a' <= c <= 'z' then (c as int - 32) as char else c
  }

  /** Two strings are equal ignoring case when they have the same length and
      agree character by character after folding. */
  predicate EqualsIgnoreCase(a: string, b: string)
  {
    |a| == |b| && forall i | 0 <= i < |a| :: UpperAscii(a[i]) == UpperAscii(b[i])
  }

  /** The comparer is an equivalence relation that is coarser than exact
      equality, and it never equates strings of different lengths. */
  lemma EqualsIgnoreCaseIsEquivalence(a: string, b: string, c: string)
    ensures EqualsIgnoreCase(a, a)
    ensures EqualsIgnoreCase(a, b) ==> EqualsIgnoreCase(b, a)
    ensures EqualsIgnoreCase(a, b) && EqualsIgnoreCase(b, c) ==> EqualsIgnoreCase(a, c)
    ensures EqualsIgnoreCase(a, b) ==> |a| == |b|
  {
  }
}
