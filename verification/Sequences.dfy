/** Sequences as the orders and logs they record:
    their members,
    and whether each of them occurs only once in the sequence. */
module Sequences {
  ghost function Members<T(!new)>(s: seq<T>): set<T> {
    set x | x in s
  }

  ghost predicate Distinct<T>(s: seq<T>) {
    forall i, j | 0 <= i < j < |s| :: s[i] != s[j]
  }

  lemma FirstIsIn<T>(s: seq<T>)
    ensures s != [] ==> s[0] in s
  {
  }

  lemma SplitLast<T>(s: seq<T>)
    requires s != []
    ensures s == s[..|s| - 1] + [s[|s| - 1]]
  {
  }

  lemma AppendedLast<T>(s: seq<T>, more: seq<T>)
    requires more != []
    ensures s + more == s + more[..|more| - 1] + [more[|more| - 1]]
  {
  }

  lemma Associative<T>(a: seq<T>, b: seq<T>, c: seq<T>)
    ensures a + b + c == a + (b + c)
  {
  }

  lemma SuffixOfConcat<T>(s: seq<T>, more: seq<T>, n: nat)
    requires n <= |s|
    ensures (s + more)[n..] == s[n..] + more
  {
  }
}
