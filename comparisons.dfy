/** Element-sequence algorithms behind the list's free comparison operators.

    `Equal` is the three-iterator `std::equal(first1, last1, first2)` that `operator==`
    uses, `LexLess` is `std::lexicographical_compare`, which `operator<` uses. The
    standard relations `LessEqStd`, `GreaterStd`, `GreaterEqStd` and `EqualStd` are the
    reference against which the operators as written are measured. */
module Comparisons {

  /** `std::equal(a.begin(), a.end(), b.begin())`: walks `a` and compares each element
      with the element of `b` at the same position. It never looks at `b` beyond |a|
      elements, and reading past the end of `b` is undefined, hence the precondition. */
  function Equal<T(==)>(a: seq<T>, b: seq<T>): (r: bool)
    requires |a| <= |b|
    ensures r <==> a == b[..|a|]
  {
    if a == [] then true
    else
      assert b[..|a|] == [b[0]] + b[1..][..|a| - 1];
      a[0] == b[0] && Equal(a[1..], b[1..])
  }

  /** `std::lexicographical_compare(a.begin(), a.end(), b.begin(), b.end())`, element by
      element in the order the standard algorithm takes its decisions. */
  function LexLess(a: seq<int>, b: seq<int>): (r: bool)
    ensures r ==> b != []
    ensures a == [] ==> (r <==> b != [])
  {
    if b == [] then false
    else if a == [] then true
    else if a[0] < b[0] then true
    else if b[0] < a[0] then false
    else LexLess(a[1..], b[1..])
  }

  /** Reference definition of lexicographic order: `a` and `b` agree on their first `k`
      elements, and then either `a` is exhausted while `b` is not, or `a[k] < b[k]`. */
  ghost predicate LessAt(a: seq<int>, b: seq<int>, k: nat)
  {
    && k <= |a| && k <= |b|
    && a[..k] == b[..k]
    && (if k == |a| then k < |b| else k < |b| && a[k] < b[k])
  }

  lemma {:induction false} LexLessIsLessAt(a: seq<int>, b: seq<int>)
    ensures LexLess(a, b) <==> exists k: nat :: LessAt(a, b, k)
  {
    if b == [] {
      forall k: nat ensures !LessAt(a, b, k) { }
    } else if a == [] {
      assert LessAt(a, b, 0);
    } else if a[0] < b[0] {
      assert LessAt(a, b, 0);
    } else if b[0] < a[0] {
      forall k: nat ensures !LessAt(a, b, k) {
        if 0 < k <= |a| && k <= |b| {
          assert a[..k][0] == a[0] && b[..k][0] == b[0];
        }
      }
    } else {
      LexLessIsLessAt(a[1..], b[1..]);
      if LexLess(a, b) {
        var k: nat :| LessAt(a[1..], b[1..], k);
        assert a[..k + 1] == [a[0]] + a[1..][..k];
        assert b[..k + 1] == [b[0]] + b[1..][..k];
        assert LessAt(a, b, k + 1);
      } else {
        forall k: nat ensures !LessAt(a, b, k) {
          if 0 < k <= |a| && k <= |b| {
            assert a[1..][..k - 1] == a[..k][1..];
            assert b[1..][..k - 1] == b[..k][1..];
            assert !LessAt(a[1..], b[1..], k - 1);
          }
        }
      }
    }
  }

  lemma {:induction false} LexLessIrreflexive(a: seq<int>)
    ensures !LexLess(a, a)
  {
    if a != [] {
      LexLessIrreflexive(a[1..]);
    }
  }

  lemma {:induction false} LexLessAsymmetric(a: seq<int>, b: seq<int>)
    ensures LexLess(a, b) ==> !LexLess(b, a)
  {
    if a != [] && b != [] && a[0] == b[0] {
      LexLessAsymmetric(a[1..], b[1..]);
    }
  }

  lemma {:induction false} LexLessTransitive(a: seq<int>, b: seq<int>, c: seq<int>)
    ensures LexLess(a, b) && LexLess(b, c) ==> LexLess(a, c)
  {
    if a != [] && b != [] && c != [] && a[0] == b[0] == c[0] {
      LexLessTransitive(a[1..], b[1..], c[1..]);
    }
  }

  lemma {:induction false} LexLessTrichotomy(a: seq<int>, b: seq<int>)
    ensures LexLess(a, b) || a == b || LexLess(b, a)
  {
    if a != [] && b != [] && a[0] == b[0] {
      LexLessTrichotomy(a[1..], b[1..]);
      if a[1..] == b[1..] {
        assert a == [a[0]] + a[1..] && b == [b[0]] + b[1..];
      }
    }
  }

  /** A proper prefix is less than the sequence it is a prefix of. */
  lemma {:induction false} LexLessProperPrefix(a: seq<int>, b: seq<int>)
    requires |a| < |b| && a == b[..|a|]
    ensures LexLess(a, b)
  {
    if a != [] {
      assert a[1..] == b[1..][..|a| - 1];
      LexLessProperPrefix(a[1..], b[1..]);
    }
  }

  /** Standard equality of two element sequences: the same length and equal elements. */
  function EqualStd<T(==)>(a: seq<T>, b: seq<T>): (r: bool)
    ensures r <==> a == b
  {
    |a| == |b| && Equal(a, b)
  }

  /** Standard `<=`: less than or equal. */
  predicate LessEqStd(a: seq<int>, b: seq<int>)
  {
    LexLess(a, b) || a == b
  }

  /** Standard `>`: the operands of `<` swapped. */
  predicate GreaterStd(a: seq<int>, b: seq<int>)
  {
    LexLess(b, a)
  }

  /** Standard `>=`: greater than or equal. */
  predicate GreaterEqStd(a: seq<int>, b: seq<int>)
  {
    LexLess(b, a) || a == b
  }

  /** `LessEqStd` is a total order. */
  lemma LessEqStdTotalOrder(a: seq<int>, b: seq<int>, c: seq<int>)
    ensures LessEqStd(a, a)
    ensures LessEqStd(a, b) && LessEqStd(b, a) ==> a == b
    ensures LessEqStd(a, b) && LessEqStd(b, c) ==> LessEqStd(a, c)
    ensures LessEqStd(a, b) || LessEqStd(b, a)
  {
    LexLessAsymmetric(a, b);
    LexLessTransitive(a, b, c);
    LexLessTrichotomy(a, b);
  }

  /** `GreaterStd` is a strict order, and `a > b` holds exactly when `a <= b` fails. */
  lemma GreaterStdStrict(a: seq<int>, b: seq<int>)
    ensures !GreaterStd(a, a)
    ensures GreaterStd(a, b) ==> !GreaterStd(b, a)
    ensures GreaterStd(a, b) <==> !LessEqStd(a, b)
  {
    LexLessIrreflexive(a);
    LexLessAsymmetric(a, b);
    LexLessTrichotomy(a, b);
  }

  /** `a >= b` holds exactly when `a < b` fails: the one derived operator that the
      list's `!(lhs < rhs)` states correctly. */
  lemma GreaterEqStdIsNotLess(a: seq<int>, b: seq<int>)
    ensures GreaterEqStd(a, b) <==> !LexLess(a, b)
  {
    LexLessIrreflexive(a);
    LexLessAsymmetric(a, b);
    LexLessTrichotomy(a, b);
  }
}
