/**
 * The order DEFAULT_CMP sorts directory listings by: Java's String.compareTo
 * on node names.
 */
module StringOrder {

  /**
   * String.compareTo: the difference of the first pair of characters that
   * differ, or, when one string is a prefix of the other, the difference of
   * the lengths.
   */
  function CompareTo(a: string, b: string): int
  {
    if a == [] || b == [] then |a| - |b|
    else if a[0] != b[0] then a[0] as int - b[0] as int
    else CompareTo(a[1..], b[1..])
  }

  /** Lexicographic order, stated without recursion: a proper prefix, or smaller at the first difference. */
  ghost predicate LexLess(a: string, b: string)
  {
    (|a| < |b| && a == b[..|a|])
    || exists k :: 0 <= k < |a| && k < |b| && a[..k] == b[..k] && a[k] < b[k]
  }

  /** compareTo is zero exactly on equal strings. */
  lemma {:induction false} CompareToZero(a: string, b: string)
    ensures CompareTo(a, b) == 0 <==> a == b
  {
    if a != [] && b != [] && a[0] == b[0] {
      CompareToZero(a[1..], b[1..]);
      assert a == [a[0]] + a[1..] && b == [b[0]] + b[1..];
    }
  }

  /** Swapping the arguments negates the result (Comparator's sign rule). */
  lemma {:induction false} CompareToAntisymmetric(a: string, b: string)
    ensures CompareTo(b, a) == -CompareTo(a, b)
  {
    if a != [] && b != [] && a[0] == b[0] {
      CompareToAntisymmetric(a[1..], b[1..]);
    }
  }

  /** "Not after" is transitive (Comparator's transitivity rule). */
  lemma {:induction false} CompareToTransitive(a: string, b: string, c: string)
    requires CompareTo(a, b) <= 0 && CompareTo(b, c) <= 0
    ensures CompareTo(a, c) <= 0
  {
    if a != [] && b != [] && c != [] && a[0] == b[0] && b[0] == c[0] {
      CompareToTransitive(a[1..], b[1..], c[1..]);
    }
  }

  /** A negative compareTo means exactly that a comes first lexicographically. */
  lemma {:induction false} CompareToIsLexicographic(a: string, b: string)
    ensures CompareTo(a, b) < 0 <==> LexLess(a, b)
  {
    if a == [] || b == [] {
      if LexLess(a, b) && a != [] {
        assert b == [];
      }
    } else if a[0] != b[0] {
      if a[0] < b[0] {
        assert a[..0] == b[..0];
      }
    } else {
      CompareToIsLexicographic(a[1..], b[1..]);
      if LexLess(a[1..], b[1..]) {
        if |a[1..]| < |b[1..]| && a[1..] == b[1..][..|a[1..]|] {
          assert a == b[..|a|];
        } else {
          var k :| 0 <= k < |a[1..]| && k < |b[1..]| && a[1..][..k] == b[1..][..k] && a[1..][k] < b[1..][k];
          assert a[..k + 1] == [a[0]] + a[1..][..k];
          assert b[..k + 1] == [b[0]] + b[1..][..k];
        }
      }
      if LexLess(a, b) {
        if |a| < |b| && a == b[..|a|] {
          assert a[1..] == b[1..][..|a[1..]|];
        } else {
          var k :| 0 <= k < |a| && k < |b| && a[..k] == b[..k] && a[k] < b[k];
          assert k != 0;
          assert a[1..][..k - 1] == a[..k][1..] && b[1..][..k - 1] == b[..k][1..];
        }
      }
    }
  }
}
