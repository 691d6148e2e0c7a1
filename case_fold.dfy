/** Ordinal, case-insensitive string comparison (`StringComparer.OrdinalIgnoreCase`).
    Two strings are equal ignoring case when they have the same length and their
    characters agree one by one after folding upper-case letters to lower case. */
module CaseFold {

  /** Folds one character: an ASCII upper-case letter becomes its lower-case letter. */
  function FoldChar(c: char): (r: char)
    ensures 'A' <= c <= 'Z' ==> 'a' <= r <= 'z' && r as int - c as int == 32
    ensures !('A' <= c <= 'Z') ==> r == c
  {
    if 'A' <= c <= 'Z' then (c as int + 32) as char else c
  }

  /** Folds a whole string, character by character. */
  function Fold(s: string): (r: string)
    ensures |r| == |s|
    ensures forall i :: 0 <= i < |s| ==> r[i] == FoldChar(s[i])
  {
    if s == [] then [] else [FoldChar(s[0])] + Fold(s[1..])
  }

  /** `string.Equals(a, b, StringComparison.OrdinalIgnoreCase)`: equal strings
      ignoring case have the same length and the same folded characters. */
  predicate EqualsIgnoreCase(a: string, b: string): (r: bool)
    ensures r ==> |a| == |b|
  {
    Fold(a) == Fold(b)
  }

  /** Folding is idempotent: a folded string contains no upper-case letter. */
  lemma {:induction false} FoldIdempotent(s: string)
    ensures Fold(Fold(s)) == Fold(s)
  {
    if s != [] {
      FoldIdempotent(s[1..]);
      assert Fold(s) == [FoldChar(s[0])] + Fold(s[1..]);
    }
  }

  /** Ignoring case is a character-by-character comparison of equal-length strings,
      which makes it reflexive, symmetric and transitive. */
  lemma EqualsIgnoreCaseCharwise(a: string, b: string)
    ensures EqualsIgnoreCase(a, b) <==>
              |a| == |b| && forall i :: 0 <= i < |a| ==> FoldChar(a[i]) == FoldChar(b[i])
  {
    if |a| == |b| && forall i :: 0 <= i < |a| ==> FoldChar(a[i]) == FoldChar(b[i]) {
      assert forall i :: 0 <= i < |a| ==> Fold(a)[i] == Fold(b)[i];
    }
  }

  /** Ordinal equality implies equality ignoring case, but not the other way round. */
  lemma OrdinalIsFinerThanIgnoreCase(a: string, b: string)
    ensures a == b ==> EqualsIgnoreCase(a, b)
    ensures EqualsIgnoreCase("Foo", "foo") && "Foo" != "foo"
  {
    assert Fold("Foo")[0] == 'f';
    assert Fold("Foo") == Fold("foo");
  }
}
