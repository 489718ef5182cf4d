/** The value-sequence effect of the list's positional mutators.

    A position is an integer: -1 is the sentinel (before-begin), `0 .. |s| - 1` are the
    elements, `|s|` is end. Inserting after position `i` puts the new value at index
    `i + 1`; erasing after position `i` removes the element at index `i + 1`. */
module Sequences {

  /** The values after `InsertAfter(pos, v)` with `pos` at position `i`. */
  function InsertedAfter<T>(s: seq<T>, i: int, v: T): (r: seq<T>)
    requires -1 <= i < |s|
    ensures |r| == |s| + 1
    ensures r[i + 1] == v
    ensures forall j :: 0 <= j <= i ==> r[j] == s[j]
    ensures forall j :: i + 1 <= j < |s| ==> r[j + 1] == s[j]
  {
    s[..i + 1] + [v] + s[i + 1..]
  }

  /** The values after `EraseAfter(pos)` with `pos` at position `i`; the element at
      index `i + 1` must exist. */
  function ErasedAfter<T>(s: seq<T>, i: int): (r: seq<T>)
    requires -1 <= i < |s| - 1
    ensures |r| == |s| - 1
    ensures forall j :: 0 <= j <= i ==> r[j] == s[j]
    ensures forall j :: i + 1 <= j < |r| ==> r[j] == s[j + 1]
  {
    s[..i + 1] + s[i + 2..]
  }

  /** Inserting adds exactly one occurrence of the new value and loses nothing. */
  lemma InsertedAfterMultiset<T>(s: seq<T>, i: int, v: T)
    requires -1 <= i < |s|
    ensures multiset(InsertedAfter(s, i, v)) == multiset(s) + multiset{v}
  {
    assert s == s[..i + 1] + s[i + 1..];
  }

  /** Erasing removes exactly one occurrence of the erased value and nothing else. */
  lemma ErasedAfterMultiset<T>(s: seq<T>, i: int)
    requires -1 <= i < |s| - 1
    ensures multiset(ErasedAfter(s, i)) == multiset(s) - multiset{s[i + 1]}
  {
    assert s == s[..i + 1] + [s[i + 1]] + s[i + 2..];
  }

  /** Inserting after the sentinel is pushing to the front. */
  lemma InsertedAfterBeforeBegin<T>(s: seq<T>, v: T)
    ensures InsertedAfter(s, -1, v) == [v] + s
  {
    assert InsertedAfter(s, -1, v)[1..] == s;
  }

  /** Erasing after the sentinel is popping the front. */
  lemma ErasedAfterBeforeBegin<T>(s: seq<T>)
    requires |s| > 0
    ensures ErasedAfter(s, -1) == s[1..]
  {
  }

  /** Inserting after the last position is appending. */
  lemma InsertedAfterLast<T>(s: seq<T>, v: T)
    ensures InsertedAfter(s, |s| - 1, v) == s + [v]
  {
  }

  /** A prefix of `s` followed by the next element of `s` is the prefix one longer. */
  lemma PrefixExtended<T>(s: seq<T>, k: int)
    requires 0 <= k < |s|
    ensures s[..k] + [s[k]] == s[..k + 1]
  {
  }

  /** Erasing after a position undoes inserting after it. */
  lemma ErasedAfterInsertedAfter<T>(s: seq<T>, i: int, v: T)
    requires -1 <= i < |s|
    ensures ErasedAfter(InsertedAfter(s, i, v), i) == s
  {
    var r := ErasedAfter(InsertedAfter(s, i, v), i);
    assert forall j :: 0 <= j < |s| ==> r[j] == s[j];
  }

  /** Re-inserting the erased value after the same position restores the sequence. */
  lemma InsertedAfterErasedAfter<T>(s: seq<T>, i: int)
    requires -1 <= i < |s| - 1
    ensures InsertedAfter(ErasedAfter(s, i), i, s[i + 1]) == s
  {
    var r := InsertedAfter(ErasedAfter(s, i), i, s[i + 1]);
    assert forall j :: 0 <= j < |s| ==> r[j] == s[j];
  }

  /** Positions shift by one under a new first element. */
  lemma InsertedAfterCons<T>(x: T, s: seq<T>, i: int, v: T)
    requires -1 <= i < |s|
    ensures [x] + InsertedAfter(s, i, v) == InsertedAfter([x] + s, i + 1, v)
  {
    assert ([x] + s)[..i + 2] == [x] + s[..i + 1];
    assert ([x] + s)[i + 2..] == s[i + 1..];
  }

  lemma ErasedAfterCons<T>(x: T, s: seq<T>, i: int)
    requires -1 <= i < |s| - 1
    ensures [x] + ErasedAfter(s, i) == ErasedAfter([x] + s, i + 1)
  {
    assert ([x] + s)[..i + 2] == [x] + s[..i + 1];
    assert ([x] + s)[i + 3..] == s[i + 2..];
  }

  /** The elements of `s`, as a set. */
  ghost function Elements<T>(s: seq<T>): (r: set<T>)
  {
    set x | x in s
  }

  /** The elements present after inserting: the old ones and the new one. */
  lemma ElementsInsertedAfter<T>(s: seq<T>, i: int, v: T)
    requires -1 <= i < |s|
    ensures Elements(InsertedAfter(s, i, v)) == Elements(s) + {v}
  {
    assert s == s[..i + 1] + s[i + 1..];
  }

  /** The elements present after erasing: the old ones but the erased one, provided it
      occurred only once. */
  lemma ElementsErasedAfter<T>(s: seq<T>, i: int)
    requires -1 <= i < |s| - 1
    requires s[i + 1] !in s[..i + 1] && s[i + 1] !in s[i + 2..]
    ensures Elements(ErasedAfter(s, i)) == Elements(s) - {s[i + 1]}
  {
    assert s == s[..i + 1] + [s[i + 1]] + s[i + 2..];
  }

  /** No element occurs twice. */
  ghost predicate Distinct<T>(s: seq<T>)
  {
    forall i, j :: 0 <= i < j < |s| ==> s[i] != s[j]
  }

  /** In a sequence without repetitions an element occurs neither before nor after its
      own index. */
  lemma DistinctAt<T>(s: seq<T>, k: int)
    requires Distinct(s) && 0 <= k < |s|
    ensures s[k] !in s[..k] && s[k] !in s[k + 1..]
  {
    forall j | 0 <= j < k ensures s[..k][j] != s[k] {
      assert s[..k][j] == s[j];
    }
    var t := s[k + 1..];
    forall j | 0 <= j < |t| ensures t[j] != s[k] {
      assert t[j] == s[k + 1 + j];
    }
  }
}
