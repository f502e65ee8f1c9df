/** The order of strings.
    Strings are compared character by character,
    and a proper prefix of a string comes before the string itself. */
module Strings {
  predicate StringLess(a: string, b: string) {
    b != [] && (a == [] || a[0] < b[0] || (a[0] == b[0] && StringLess(a[1..], b[1..])))
  }

  /** `a` ends where `b` goes on, or has the lesser character where the two first differ. */
  ghost predicate ComesFirst(a: string, b: string, n: nat) {
    n <= |a| && n < |b| && a[..n] == b[..n] && (n == |a| || a[n] < b[n])
  }

  lemma FirstAgrees(a: string, b: string, n: nat)
    requires ComesFirst(a, b, n) && n > 0
    ensures a[0] == b[0]
  {
    assert a[..n][0] == a[0] && b[..n][0] == b[0];
  }

  lemma {:induction false} StringLessMeans(a: string, b: string)
    ensures StringLess(a, b) <==> exists n: nat :: ComesFirst(a, b, n)
  {
    if b != [] && a != [] && a[0] == b[0] {
      StringLessMeans(a[1..], b[1..]);
      if n: nat :| ComesFirst(a[1..], b[1..], n) {
        assert a[..n + 1] == [a[0]] + a[1..][..n] && b[..n + 1] == [b[0]] + b[1..][..n];
        assert ComesFirst(a, b, n + 1);
      }
      if n: nat :| ComesFirst(a, b, n) {
        assert a[1..][..n - 1] == a[..n][1..] && b[1..][..n - 1] == b[..n][1..];
        assert ComesFirst(a[1..], b[1..], n - 1);
      }
    } else if b != [] && (a == [] || a[0] < b[0]) {
      assert ComesFirst(a, b, 0);
    } else if n: nat :| ComesFirst(a, b, n) {
      FirstAgrees(a, b, n);
    }
  }

  lemma {:induction false} StringLessTotal(a: string, b: string)
    ensures a == b || StringLess(a, b) || StringLess(b, a)
    ensures !(StringLess(a, b) && StringLess(b, a)) && !StringLess(a, a)
  {
    if a != [] {
      StringLessTotal(a[1..], a[1..]);
      if b != [] && a[0] == b[0] {
        StringLessTotal(a[1..], b[1..]);
        assert a == [a[0]] + a[1..] && b == [b[0]] + b[1..];
      }
    }
  }

  lemma {:induction false} StringLessTransitive(a: string, b: string, c: string)
    requires StringLess(a, b) && StringLess(b, c)
    ensures StringLess(a, c)
  {
    if a != [] && a[0] == b[0] == c[0] { StringLessTransitive(a[1..], b[1..], c[1..]); }
  }
}
