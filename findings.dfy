/** Concrete inputs on which the list as written departs from what it evidently means,
    each beside the corrected member on the same input. */
module Findings {
  import opened LinkedList

  /** `PopFront` on `{7}`: the counter still says one element and `IsEmpty()` is false,
      while the chain is empty. */
  method PopFrontDrift() returns (count: nat, empty: bool, values: seq<int>)
    ensures count == 1 && !empty && values == []
  {
    var l := new SingleLinkedList.FromValues([7]);
    l.PopFront();
    count, empty, values := l.GetSize(), l.IsEmpty(), l.Values();
  }

  /** The same input with the decrement: the counter and `IsEmpty()` agree with the chain. */
  method PopFrontCountedAgrees() returns (count: nat, empty: bool, values: seq<int>)
    ensures count == 0 && empty && values == []
  {
    var l := new SingleLinkedList.FromValues([7]);
    l.PopFrontCounted();
    count, empty, values := l.GetSize(), l.IsEmpty(), l.Values();
  }

  /** `EraseAfter(begin())` on `{1, 2}`: one element is left but the counter says two. */
  method EraseAfterDrift() returns (count: nat, values: seq<int>)
    ensures count == 2 && values == [1]
  {
    var l := new SingleLinkedList.FromValues([1, 2]);
    var _ := l.EraseAfter(l.Begin(), 0);
    count, values := l.GetSize(), l.Values();
  }

  method EraseAfterCountedAgrees() returns (count: nat, values: seq<int>)
    ensures count == 1 && values == [1]
  {
    var l := new SingleLinkedList.FromValues([1, 2]);
    var _ := l.EraseAfterCounted(l.Begin(), 0);
    count, values := l.GetSize(), l.Values();
  }

  /** `{1} == {1, 2}` holds as written: only a prefix of the right operand is compared. */
  method EqualPrefix() returns (asWritten: bool, corrected: bool)
    ensures asWritten && !corrected
  {
    var a := new SingleLinkedList.FromValues([1]);
    var b := new SingleLinkedList.FromValues([1, 2]);
    asWritten, corrected := Equal(a, b), EqualCorrected(a, b);
  }

  /** `{1} <= {2}` is false as written, although `{1} < {2}`. */
  method LessEqReversed() returns (asWritten: bool, corrected: bool, less: bool)
    ensures !asWritten && corrected && less
  {
    var a := new SingleLinkedList.FromValues([1]);
    var b := new SingleLinkedList.FromValues([2]);
    asWritten, corrected, less := LessEq(a, b), LessEqCorrected(a, b), Less(a, b);
  }

  /** `{1} > {1}` holds as written: `>` is not irreflexive. */
  method GreaterReflexive() returns (asWritten: bool, corrected: bool)
    ensures asWritten && !corrected
  {
    var a := new SingleLinkedList.FromValues([1]);
    asWritten, corrected := Greater(a, a), GreaterCorrected(a, a);
  }
}
