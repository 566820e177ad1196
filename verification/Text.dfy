/** Text comparison shared by the settings readers. */
module Text {
  function Lower(c: char): char {
    if 'A' <= c <= 'Z' then (c as int + 32) as char else c
  }

  predicate SameIgnoringCase(a: string, b: string) {
    |a| == |b| && forall i :: 0 <= i < |a| ==> Lower(a[i]) == Lower(b[i])
  }

  /** Two characters are taken for the same exactly when they are, or when one is the capital of
      the other among the letters from a to z. */
  lemma SameLetterExactly(a: char, b: char)
    ensures Lower(a) == Lower(b) <==>
      || a == b
      || ('a' <= a <= 'z' && b as int == a as int - 32)
      || ('a' <= b <= 'z' && a as int == b as int - 32)
  {
  }
}
