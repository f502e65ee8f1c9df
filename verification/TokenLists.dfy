/** Sorted, duplicate-free lists of token ranges.
    Two such lists with the same elements are the same list,
    so they stand for sets. */
module TokenLists {
  import opened Sequences

  /** Token ranges are totally ordered; a range is its rank. */
  type RangeRank = int

  predicate Increasing(s: seq<RangeRank>) {
    forall i, j | 0 <= i < j < |s| :: s[i] < s[j]
  }

  function Insert(s: seq<RangeRank>, t: RangeRank): (r: seq<RangeRank>)
    requires Increasing(s)
    ensures Increasing(r) && forall u :: u in r <==> u in s || u == t
  {
    if s == [] || t < s[0] then [t] + s
    else if t == s[0] then s
    else
      var rest := Insert(s[1..], t);
      assert forall i | 0 <= i < |rest| :: rest[i] in rest;
      [s[0]] + rest
  }

  /** `sort` followed by `dedup`. */
  function SortDedup(s: seq<RangeRank>): (r: seq<RangeRank>)
    ensures Increasing(r) && forall t :: t in r <==> t in s
  {
    if s == [] then [] else Insert(SortDedup(s[1..]), s[0])
  }

  /** An increasing list is determined by its elements. */
  lemma {:induction false} IncreasingIsUnique(s: seq<RangeRank>, r: seq<RangeRank>)
    requires Increasing(s) && Increasing(r) && forall t :: t in s <==> t in r
    ensures s == r
  {
    FirstIsIn(s);
    FirstIsIn(r);
    if s != [] && r != [] {
      assert r[0] in s;
      forall t ensures t in s[1..] <==> t in r[1..] {
        assert t in s <==> t in r;
      }
      IncreasingIsUnique(s[1..], r[1..]);
    }
  }
}
