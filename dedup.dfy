/**
  Duplicate-row accounting and removal (`df.duplicated()` and
  `df.drop_duplicates()` with their default `keep="first"`). Rows are compared
  cell by cell with datatype equality, so a null cell equals a null cell.
*/
module Dedup {
  import opened Table

  /** No element occurs twice. */
  ghost predicate Distinct(s: seq<Row>) {
    forall i, j :: 0 <= i < j < |s| ==> s[i] != s[j]
  }

  /** The set of elements of a sequence. */
  function Elements(s: seq<Row>): set<Row> {
    set x | x in s
  }

  /**
    Keep the first occurrence of every element, in the original order: an
    element is kept exactly when it does not already occur earlier.
  */
  function KeepFirst(s: seq<Row>): (r: seq<Row>)
    ensures |r| <= |s|
    ensures r == [] <==> s == []
    ensures forall x :: x in r <==> x in s
  {
    if s == [] then []
    else
      var init, last := s[..|s| - 1], s[|s| - 1];
      if last in init then KeepFirst(init) else KeepFirst(init) + [last]
  }

  /** Number of elements equal to an earlier element (`duplicated().sum()`). */
  function DuplicateCount(s: seq<Row>): (n: nat)
    ensures n <= |s|
  {
    if s == [] then 0
    else
      var init, last := s[..|s| - 1], s[|s| - 1];
      DuplicateCount(init) + (if last in init then 1 else 0)
  }

  /** Index of the first occurrence of `x` in `s`. */
  function FirstIndex(s: seq<Row>, x: Row): (i: nat)
    requires x in s
    ensures i < |s| && s[i] == x && x !in s[..i]
  {
    var init := s[..|s| - 1];
    if x in init then
      var i := FirstIndex(init, x);
      assert s[..i] == init[..i];
      i
    else |s| - 1
  }

  /** The deduplicated sequence has no two equal elements. */
  lemma {:induction false} KeepFirstDistinct(s: seq<Row>)
    ensures Distinct(KeepFirst(s))
  {
    if s != [] {
      KeepFirstDistinct(s[..|s| - 1]);
    }
  }

  /**
    Duplicate accounting: the duplicate count is the number of rows before
    deduplication minus the number after it.
  */
  lemma {:induction false} DuplicateCountIsRemoved(s: seq<Row>)
    ensures DuplicateCount(s) == |s| - |KeepFirst(s)|
  {
    if s != [] {
      DuplicateCountIsRemoved(s[..|s| - 1]);
    }
  }

  /** The deduplicated sequence has one element per distinct value. */
  lemma {:induction false} KeepFirstSize(s: seq<Row>)
    ensures |KeepFirst(s)| == |Elements(s)|
  {
    if s != [] {
      var init, last := s[..|s| - 1], s[|s| - 1];
      KeepFirstSize(init);
      if last in init {
        assert Elements(s) == Elements(init);
      } else {
        assert Elements(s) == Elements(init) + {last};
      }
    }
  }

  /**
    Order: the survivors appear in the order of their first occurrences, so
    together with KeepFirstDistinct and the membership clause of KeepFirst
    this pins the result down completely.
  */
  lemma {:induction false} KeepFirstOrder(s: seq<Row>, i: nat, j: nat)
    requires i < j < |KeepFirst(s)|
    ensures FirstIndex(s, KeepFirst(s)[i]) < FirstIndex(s, KeepFirst(s)[j])
  {
    var init, last := s[..|s| - 1], s[|s| - 1];
    var r, r' := KeepFirst(s), KeepFirst(init);
    assert r[i] in r && r[j] in r;
    if last in init || j < |r'| {
      assert r[i] == r'[i] && r[j] == r'[j];
      KeepFirstOrder(init, i, j);
      FirstIndexOfPrefix(s, r[i]);
      FirstIndexOfPrefix(s, r[j]);
    } else {
      assert r[j] == last && r[i] == r'[i];
      assert r[i] in r';
      FirstIndexOfPrefix(s, r[i]);
    }
  }

  /** An element of the prefix has the same first index in the whole sequence. */
  lemma FirstIndexOfPrefix(s: seq<Row>, x: Row)
    requires s != [] && x in s[..|s| - 1]
    ensures FirstIndex(s, x) == FirstIndex(s[..|s| - 1], x)
  {
  }
}
