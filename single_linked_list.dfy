/** `SingleLinkedList<Type>`: a singly linked list of heap nodes behind a valueless
    sentinel node, with an element counter that is stored separately from the chain.

    The list's abstract value is the ghost sequence `Contents`, and `nodes` is the chain of
    real nodes in order. A position is an integer: -1 is the sentinel (`before_begin()`),
    `0 .. |nodes| - 1` are the real nodes, and `|nodes|` is `end()` (a null node). The
    predicate `At(it, i)` ties an iterator to its position. */
module LinkedList {
  import Sequences
  import Comparisons

  /** One chain link: a value and the link to the next node (null at the end). The
      sentinel's value is default-initialised and never read; the element type needs a
      default value for that, as `Node() = default` needs one in C++. */
  class Node<T(0)> {
    const value: T
    var next: Node?<T>

    constructor Sentinel()
      ensures next == null
    {
      next := null;
    }

    constructor (value: T, next: Node?<T>)
      ensures this.value == value && this.next == next
    {
      this.value := value;
      this.next := next;
    }
  }

  /** A forward iterator: a non-owning reference to a node, null for `end()`. Two
      iterators are equal when they refer to the same node, which is Dafny's `==` here. */
  datatype Iterator<T(0)> = Iterator(node: Node?<T>)
  {
    /** Prefix `++`: moves to the next node; an iterator at `end()` stays there. */
    function Next(): (r: Iterator<T>)
      reads node
      ensures node != null ==> r.node == node.next
      ensures node == null ==> r.node == null
    {
      if node != null then Iterator(node.next) else this
    }

    /** `*it`: the value of the referenced node; `end()` cannot be dereferenced. */
    function Value(): (r: T)
      requires node != null
      ensures r == node.value
    {
      node.value
    }
  }

  /** Every node of `ns` links to the next one, and the last one links to `last`. */
  ghost predicate LinkedTo<T(0)>(ns: seq<Node<T>>, last: Node?<T>)
    reads ns
    decreases |ns|
  {
    |ns| > 0 ==> ns[0].next == Entry(ns[1..], last) && LinkedTo(ns[1..], last)
  }

  /** The node a link into `ns` reaches: its first node, or `last` when it is empty. */
  ghost function Entry<T(0)>(ns: seq<Node<T>>, last: Node?<T>): (r: Node?<T>)
  {
    if |ns| == 0 then last else ns[0]
  }

  /** Each node of a chain links to its successor in the chain. */
  lemma {:induction false} LinkedToAt<T(0)>(ns: seq<Node<T>>, k: int, last: Node?<T>)
    requires LinkedTo(ns, last) && 0 <= k < |ns|
    ensures ns[k].next == Entry(ns[k + 1..], last)
    decreases k
  {
    if k > 0 {
      LinkedToAt(ns[1..], k - 1, last);
      assert ns[1..][k..] == ns[k + 1..];
    }
  }

  /** A null-terminated chain cannot revisit a node: two positions holding the same
      node would have the same successor, and walking on from both would reach the
      end at two different distances. */
  lemma {:induction false} LinkedToDistinct<T(0)>(ns: seq<Node<T>>)
    requires LinkedTo(ns, null)
    ensures Sequences.Distinct(ns)
    decreases |ns|
  {
    if |ns| > 0 {
      LinkedToDistinct(ns[1..]);
      forall k | 1 <= k < |ns| ensures ns[0] != ns[k] {
        LinkedToAt(ns, 0, null);
        LinkedToAt(ns, k, null);
        if k + 1 < |ns| {
          assert ns[1..][0] != ns[1..][k];
        }
        assert ns[0].next != ns[k].next;
      }
      forall a, b | 0 <= a < b < |ns| ensures ns[a] != ns[b] {
        if a > 0 {
          assert ns[1..][a - 1] != ns[1..][b - 1];
        }
      }
    }
  }

  /** The chain condition stated node by node: each node links to the next one of `ns`,
      the last one to `last`. */
  ghost predicate Links<T(0)>(ns: seq<Node<T>>, last: Node?<T>)
    reads set n | n in ns
  {
    forall j :: 0 <= j < |ns| ==> ns[j].next == Successor(ns, j, last)
  }

  /** The node after position `j` of `ns`, or `last` after the final one. */
  function Successor<T(0)>(ns: seq<Node<T>>, j: int, last: Node?<T>): (r: Node?<T>)
    requires 0 <= j < |ns|
    ensures j + 1 < |ns| ==> r == ns[j + 1]
    ensures j + 1 == |ns| ==> r == last
  {
    if j + 1 < |ns| then ns[j + 1] else last
  }

  lemma {:induction false} LinkedToIsLinks<T(0)>(ns: seq<Node<T>>, last: Node?<T>)
    ensures LinkedTo(ns, last) <==> Links(ns, last)
    decreases |ns|
  {
    if ns != [] {
      var t := ns[1..];
      LinkedToIsLinks(t, last);
      assert forall j :: 0 <= j < |t| ==> t[j] == ns[j + 1];
      if Links(ns, last) {
        forall j | 0 <= j < |t| ensures t[j].next == Successor(t, j, last) {
          assert ns[j + 1].next == Successor(ns, j + 1, last);
        }
      }
      if LinkedTo(ns, last) {
        forall j | 0 <= j < |ns| ensures ns[j].next == Successor(ns, j, last) {
          if j > 0 {
            assert t[j - 1].next == Successor(t, j - 1, last);
          }
        }
      }
    }
  }

  /** Every node of `c` except the one at position `k` still has the link it had. */
  twostate predicate KeptLinks<T(0)>(c: seq<Node<T>>, k: int)
    reads set n | n in c
  {
    forall j :: 0 <= j < |c| && j != k ==> c[j].next == old(c[j].next)
  }

  /** Relinking for `InsertAfter`: node `k` of a chain that was null-terminated now links
      to a node `n` that links where node `k` did, and no other node of the chain has
      changed. Then the chain with `n` spliced in after position `k` is null-terminated. */
  twostate lemma LinkedToSplice<T(0)>(new c: seq<Node<T>>, k: int, new n: Node<T>)
    requires old(allocated(c)) && old(Links(c, null)) && 0 <= k < |c|
    requires c[k].next == n && n.next == old(c[k].next)
    requires KeptLinks(c, k)
    ensures Links(Sequences.InsertedAfter(c, k, n), null)
  {
    var r := Sequences.InsertedAfter(c, k, n);
    forall j | 0 <= j < |r| ensures r[j].next == Successor(r, j, null) {
      if j < k {
        assert r[j] == c[j];
        assert old(c[j].next) == Successor(c, j, null);
      } else if j > k + 1 {
        assert r[j] == c[j - 1];
        assert old(c[j - 1].next) == Successor(c, j - 1, null);
      } else if j == k + 1 {
        assert old(c[k].next) == Successor(c, k, null);
      }
    }
  }

  /** Relinking for `EraseAfter`: node `k` of a chain that was null-terminated now links
      where node `k + 1` did, and no other node of the chain has changed. Then the chain
      without node `k + 1` is null-terminated. */
  twostate lemma LinkedToUnsplice<T(0)>(new c: seq<Node<T>>, k: int)
    requires old(allocated(c)) && old(Links(c, null)) && 0 <= k < |c| - 1
    requires c[k].next == old(c[k + 1].next)
    requires KeptLinks(c, k)
    ensures Links(Sequences.ErasedAfter(c, k), null)
  {
    var r := Sequences.ErasedAfter(c, k);
    forall j | 0 <= j < |r| ensures r[j].next == Successor(r, j, null) {
      if j < k {
        assert r[j] == c[j];
        assert old(c[j].next) == Successor(c, j, null);
      } else if j > k {
        assert r[j] == c[j + 1];
        assert old(c[j + 1].next) == Successor(c, j + 1, null);
      } else {
        assert old(c[k + 1].next) == Successor(c, k + 1, null);
      }
    }
  }

  /** The values held by a sequence of nodes, in order. */
  ghost function ValuesOf<T(0)>(ns: seq<Node<T>>): (r: seq<T>)
  {
    seq(|ns|, j requires 0 <= j < |ns| => ns[j].value)
  }

  lemma ValuesOfInsertedAfter<T(0)>(ns: seq<Node<T>>, i: int, n: Node<T>)
    requires -1 <= i < |ns|
    ensures ValuesOf(Sequences.InsertedAfter(ns, i, n)) == Sequences.InsertedAfter(ValuesOf(ns), i, n.value)
  {
    var a, b := ValuesOf(Sequences.InsertedAfter(ns, i, n)), Sequences.InsertedAfter(ValuesOf(ns), i, n.value);
    forall j | 0 <= j < |a| ensures a[j] == b[j] {
      if j > i + 1 {
        assert a[j] == ns[j - 1].value;
      }
    }
  }

  lemma ValuesOfErasedAfter<T(0)>(ns: seq<Node<T>>, i: int)
    requires -1 <= i < |ns| - 1
    ensures ValuesOf(Sequences.ErasedAfter(ns, i)) == Sequences.ErasedAfter(ValuesOf(ns), i)
  {
    var a, b := ValuesOf(Sequences.ErasedAfter(ns, i)), Sequences.ErasedAfter(ValuesOf(ns), i);
    forall j | 0 <= j < |a| ensures a[j] == b[j] {
      if j > i {
        assert a[j] == ns[j + 1].value;
      }
    }
  }

  class SingleLinkedList<T(0)> {
    /** `head_`: the sentinel node. Its identity never changes, only its link. */
    const head: Node<T>
    /** `size_`: the element counter kept beside the chain. */
    var size: nat

    ghost var nodes: seq<Node<T>>
    ghost var Contents: seq<T>
    ghost var Repr: set<object>

    /** The list owns the sentinel and the null-terminated chain that starts at it, whose
        real nodes hold `Contents` in order. */
    ghost predicate WellLinked()
      reads this, Repr
      ensures WellLinked() ==> this in Repr
    {
      && Repr == {this, head} + Sequences.Elements(nodes)
      && |Contents| == |nodes|
      && Links([head] + nodes, null)
      && Contents == ValuesOf(nodes)
    }

    /** A well-linked list whose counter never under-counts the chain: the operations
        that forget to decrement it only let it drift upwards. */
    ghost predicate Valid()
      reads this, Repr
      ensures Valid() ==> this in Repr
    {
      WellLinked() && |Contents| <= size
    }

    /** The chain of a valid list never comes back to the sentinel. */
    lemma HeadNotInNodes()
      requires WellLinked()
      ensures head !in nodes
    {
      ghost var c := [head] + nodes;
      ChainFacts();
      forall j | 0 <= j < |nodes| ensures nodes[j] != head {
        assert nodes[j] == c[j + 1] && head == c[0];
      }
    }

    /** The chain of a valid list has no repetitions. */
    lemma ChainFacts()
      requires WellLinked()
      ensures Sequences.Distinct([head] + nodes)
    {
      LinkedToIsLinks([head] + nodes, null);
      LinkedToDistinct([head] + nodes);
    }

    /** The sentinel and every real node link to the node at the next position. */
    lemma NextAt(i: int)
      requires WellLinked() && -1 <= i < |nodes|
      ensures NodeAt(i).next == NodeAt(i + 1)
    {
      var c := [head] + nodes;
      assert c[i + 1].next == Successor(c, i + 1, null);
    }

    /** Every real node links to its successor in `nodes`, the last one to null. */
    lemma SuccessorAt(k: int)
      requires WellLinked() && 0 <= k < |nodes|
      ensures nodes[k].next == Successor(nodes, k, null)
    {
      NextAt(k);
    }

    /** Linking a new node `n` after position `i`, with the ghost state updated to match,
        leaves the list well linked. */
    twostate lemma InsertedAfterLinked(i: int, new n: Node<T>)
      requires old(WellLinked()) && -1 <= i < old(|nodes|)
      requires Sequences.Distinct(old([head] + nodes))
      requires n !in old(Repr) && old(NodeAt(i)).next == n && n.next == old(NodeAt(i).next)
      requires forall o: Node<T> :: o in old(Repr) && o != old(NodeAt(i)) ==> o.next == old(o.next)
      requires nodes == Sequences.InsertedAfter(old(nodes), i, n) && Repr == old(Repr) + {n}
      requires Contents == Sequences.InsertedAfter(old(Contents), i, n.value)
      ensures WellLinked()
    {
      ghost var c, ns := old([head] + nodes), old(nodes);
      forall j | 0 <= j < |c| && j != i + 1 ensures c[j].next == old(c[j].next) {
        assert c[j] in old(Repr) && c[j] != c[i + 1];
      }
      LinkedToSplice(c, i + 1, n);
      Sequences.InsertedAfterCons(head, ns, i, n);
      Sequences.ElementsInsertedAfter(ns, i, n);
      ValuesOfInsertedAfter(ns, i, n);
    }

    /** Linking the node at position `i` past its successor, with the ghost state updated
        to match, leaves the list well linked. */
    twostate lemma ErasedAfterLinked(i: int)
      requires old(WellLinked()) && -1 <= i < old(|nodes|) - 1
      requires Sequences.Distinct(old([head] + nodes))
      requires old(NodeAt(i)).next == old(nodes[i + 1].next)
      requires forall o: Node<T> :: o in old(Repr) && o != old(NodeAt(i)) ==> o.next == old(o.next)
      requires nodes == Sequences.ErasedAfter(old(nodes), i) && Repr == old(Repr) - {old(nodes[i + 1])}
      requires Contents == Sequences.ErasedAfter(old(Contents), i)
      ensures WellLinked()
    {
      ghost var c, ns := old([head] + nodes), old(nodes);
      forall j | 0 <= j < |c| && j != i + 1 ensures c[j].next == old(c[j].next) {
        assert c[j] in old(Repr) && c[j] != c[i + 1];
      }
      LinkedToUnsplice(c, i + 1);
      Sequences.ErasedAfterCons(head, ns, i);
      Sequences.DistinctAt(c, i + 2);
      assert c[..i + 2] == [head] + ns[..i + 1] && c[i + 3..] == ns[i + 2..];
      Sequences.ElementsErasedAfter(ns, i);
      ValuesOfErasedAfter(ns, i);
    }

    /** A list whose sentinel now links where the sentinel of `from` linked, and whose
        ghost state is that of `from`, is well linked, provided the nodes of that chain
        kept their links. */
    twostate lemma AdoptedChain(from: SingleLinkedList<T>)
      requires old(from.WellLinked())
      requires head !in old(from.nodes) && head.next == old(from.head.next)
      requires forall o: Node<T> :: o in old(from.nodes) ==> o.next == old(o.next)
      requires nodes == old(from.nodes) && Contents == old(from.Contents)
      requires Repr == {this, head} + Sequences.Elements(nodes)
      ensures WellLinked()
    {
      ghost var c, d := old([from.head] + from.nodes), [head] + nodes;
      forall j | 0 <= j < |d| ensures d[j].next == Successor(d, j, null) {
        assert old(c[j].next) == Successor(c, j, null);
        if j > 0 {
          assert d[j] == c[j] && d[j] in old(from.nodes);
        }
      }
    }

    /** The node at position `i`: the sentinel, a real node, or null for `end()`. */
    ghost function NodeAt(i: int): (r: Node?<T>)
      reads this
      requires -1 <= i <= |nodes|
    {
      if i == -1 then head else if i < |nodes| then nodes[i] else null
    }

    /** Iterator `it` of this list is at position `i`. */
    ghost predicate At(it: Iterator<T>, i: int)
      reads this
    {
      -1 <= i <= |nodes| && it.node == NodeAt(i)
    }

    /** The default constructor: an empty list with a zero counter. */
    constructor ()
      ensures Valid() && fresh(Repr)
      ensures Contents == [] && size == 0
    {
      head := new Node.Sentinel();
      size := 0;
      nodes, Contents := [], [];
      Repr := {this, head};
    }

    /** The initializer-list constructor: clears, then pushes the values to the front
        from the last one to the first, which leaves them in the given order. */
    constructor FromValues(values: seq<T>)
      ensures Valid() && fresh(Repr)
      ensures Contents == values && size == |values|
    {
      head := new Node.Sentinel();
      size := 0;
      nodes, Contents := [], [];
      Repr := {this, head};
      new;
      Clear();
      var i := |values|;
      while i > 0
        invariant 0 <= i <= |values|
        invariant Valid() && fresh(Repr)
        invariant Contents == values[i..] && size == |values| - i
      {
        i := i - 1;
        PushFront(values[i]);
      }
    }

    /** The copy constructor: clones the chain of `other` node by node into a temporary
        list, then swaps it in. The counter is copied verbatim when `other` has nodes;
        when it has none the temporary's zero counter is what is swapped in. */
    constructor Copy(other: SingleLinkedList<T>)
      requires other.Valid()
      ensures Valid() && fresh(Repr)
      ensures Contents == other.Contents
      ensures size == if other.Contents == [] then 0 else other.size
    {
      head := new Node.Sentinel();
      size := 0;
      nodes, Contents := [], [];
      Repr := {this, head};
      new;
      CopyFrom(other);
    }

    /** The body of the copy constructor, run on the freshly initialised empty list. */
    method CopyFrom(other: SingleLinkedList<T>)
      requires Valid() && nodes == [] && other.Valid() && Repr !! other.Repr
      modifies this, head
      ensures Valid() && fresh(Repr - old(Repr))
      ensures Contents == other.Contents
      ensures size == if other.Contents == [] then 0 else other.size
    {
      var tmp := new SingleLinkedList();
      other.NextAt(-1);
      if other.head.next != null {
        tmp.CopyNodesOf(other);
        tmp.size := other.size;
        Swap(tmp);
      } else {
        Swap(tmp);
      }
    }

    /** The cloning part of the copy constructor, run on the empty temporary list when
        `other` has nodes: a copy of the first node of `other` goes after the sentinel,
        then `CopyRest` copies the others. The counter is left alone. */
    method CopyNodesOf(other: SingleLinkedList<T>)
      requires WellLinked() && nodes == [] && other.Valid() && other.nodes != []
      requires Repr !! other.Repr
      modifies Repr
      ensures WellLinked() && fresh(Repr - old(Repr)) && Contents == other.Contents
      ensures size == old(size)
    {
      ghost var src, vals := other.nodes, other.Contents;
      var otherNext := other.head.next;
      other.NextAt(-1);
      other.ValueAt(Iterator(otherNext), 0);
      var prev := LinkLast(BeforeBegin(), otherNext.value);
      Sequences.PrefixExtended(vals, 0);
      other.NextAt(0);
      otherNext := otherNext.next;
      CopyRest(other, prev, otherNext, src, vals);
    }

    /** The copy loop: while `otherNext` is a node of `other`, a copy of its value goes
        after `prev`, the last copy so far. The list starts as a copy of a non-empty prefix
        of `other` (`src` and `vals` are the nodes and values of `other`), with `last` at its
        final node and `next` the node of `other` after that prefix. */
    method CopyRest(other: SingleLinkedList<T>, last: Iterator<T>, next: Node?<T>, ghost src: seq<Node<T>>, ghost vals: seq<T>)
      requires WellLinked()
      requires Repr !! other.Repr && other.Valid() && other.nodes == src && other.Contents == vals
      requires 1 <= |nodes| <= |src| && At(last, |nodes| - 1)
      requires next == Successor(src, |nodes| - 1, null)
      requires Contents == vals[..|nodes|]
      modifies Repr
      ensures WellLinked() && fresh(Repr - old(Repr)) && Contents == vals && size == old(size)
    {
      var prev, otherNext := last, next;
      while otherNext != null
        invariant WellLinked() && fresh(Repr - old(Repr)) && size == old(size)
        invariant Repr !! other.Repr && other.Valid() && other.nodes == src && other.Contents == vals
        invariant 1 <= |nodes| <= |src| && At(prev, |nodes| - 1)
        invariant otherNext == Successor(src, |nodes| - 1, null)
        invariant Contents == vals[..|nodes|]
        decreases |src| - |nodes|
      {
        ghost var k := |nodes|;
        other.ValueAt(Iterator(otherNext), k);
        prev := LinkLast(prev, otherNext.value);
        Sequences.PrefixExtended(vals, k);
        other.SuccessorAt(k);
        otherNext := otherNext.next;
      }
    }

    /** One step of the copy loop: a new node holding `value`, linking to null, goes after
        `pos`, the last node of the chain (the sentinel when there is none); the counter is
        left alone. */
    method LinkLast(pos: Iterator<T>, value: T) returns (r: Iterator<T>)
      requires WellLinked() && At(pos, |nodes| - 1)
      modifies this, pos.node
      ensures WellLinked() && Repr == old(Repr) + {r.node} && fresh(r.node) && size == old(size)
      ensures Contents == old(Contents) + [value] && nodes == old(nodes) + [r.node]
      ensures At(r, |nodes| - 1)
    {
      ChainFacts();
      NextAt(|nodes| - 1);
      var n := new Node(value, null);
      pos.node.next := n;
      Sequences.InsertedAfterLast(nodes, n);
      Sequences.InsertedAfterLast(Contents, value);
      nodes, Contents, Repr := nodes + [n], Contents + [value], Repr + {n};
      r := Iterator(n);
      InsertedAfterLinked(|old(nodes)| - 1, n);
    }

    /** Copy assignment: nothing happens on self-assignment; otherwise a copy of `rhs`
        is built and swapped in, so `rhs` and this list share no node afterwards. */
    method Assign(rhs: SingleLinkedList<T>)
      requires Valid() && rhs.Valid()
      requires this == rhs || Repr !! rhs.Repr
      modifies Repr
      ensures Valid() && rhs.Valid() && fresh(Repr - old(Repr))
      ensures this == rhs ==> Contents == old(Contents) && size == old(size) && Repr == old(Repr)
      ensures this == rhs ==> nodes == old(nodes)
      ensures this != rhs ==> Contents == rhs.Contents && Repr !! rhs.Repr
      ensures this != rhs ==> fresh(Repr - {this, head})
      ensures this != rhs ==> size == if rhs.Contents == [] then 0 else rhs.size
    {
      if this == rhs {
        return;
      }
      var tmp := new SingleLinkedList.Copy(rhs);
      Swap(tmp);
    }

    /** Exchanges the chains (the sentinels' links) and the counters of two lists. */
    method Swap(other: SingleLinkedList<T>)
      requires Valid() && other.Valid()
      requires this == other || Repr !! other.Repr
      modifies this, head, other, other.head
      ensures Valid() && other.Valid()
      ensures Contents == old(other.Contents) && other.Contents == old(Contents)
      ensures size == old(other.size) && other.size == old(size)
      ensures nodes == old(other.nodes) && other.nodes == old(nodes)
      ensures Repr + other.Repr == old(Repr + other.Repr)
      ensures this != other ==> Repr !! other.Repr
    {
      HeadNotInNodes();
      other.HeadNotInNodes();
      ghost var ns, ons := nodes, other.nodes;
      var s := other.size;
      other.size := size;
      size := s;
      var n := other.head.next;
      other.head.next := head.next;
      head.next := n;
      other.nodes, other.Contents, nodes, Contents := ns, Contents, ons, other.Contents;
      other.Repr := {other, other.head} + Sequences.Elements(ns);
      Repr := {this, head} + Sequences.Elements(ons);
      AdoptedChain(other);
      other.AdoptedChain(this);
    }

    /** `GetSize()`: the stored counter, which is never below the real element count. */
    function GetSize(): (r: nat)
      reads this, Repr
      requires Valid()
      ensures r == size && |Contents| <= r
    {
      size
    }

    /** `IsEmpty()`: asks the counter, so it can answer false for a list with no elements. */
    function IsEmpty(): (r: bool)
      reads this, Repr
      requires Valid()
      ensures r <==> size == 0
      ensures r ==> Contents == []
    {
      size == 0
    }

    /** `begin()`: the first real node, equal to `end()` when there is none. */
    function Begin(): (r: Iterator<T>)
      reads this, Repr
      requires Valid()
      ensures At(r, 0)
    {
      NextAt(-1);
      Iterator(head.next)
    }

    /** `end()`: the null iterator, one past the last element. */
    function End(): (r: Iterator<T>)
      reads this
      ensures At(r, |nodes|)
    {
      Iterator(null)
    }

    /** `before_begin()`: the sentinel. */
    function BeforeBegin(): (r: Iterator<T>)
      reads this
      ensures At(r, -1)
    {
      Iterator(head)
    }

    /** The element values, read by walking the chain from `begin()` to `end()`. */
    function Values(): (r: seq<T>)
      reads this, Repr
      requires Valid()
      ensures r == Contents
    {
      ValuesFrom(Begin().node, 0)
    }

    /** The values from position `k` on, reached by following the links. */
    function ValuesFrom(n: Node?<T>, ghost k: nat): (r: seq<T>)
      reads this, Repr
      requires Valid() && k <= |nodes| && n == NodeAt(k)
      ensures r == Contents[k..]
      decreases |nodes| - k
    {
      if n == null then []
      else
        NextAt(k);
        [n.value] + ValuesFrom(n.next, k + 1)
    }

    /** `PushFront(value)`: a new first node; the counter goes up by one. */
    method PushFront(value: T)
      requires Valid()
      modifies Repr
      ensures Valid() && fresh(Repr - old(Repr))
      ensures Contents == [value] + old(Contents)
      ensures size == old(size) + 1
      ensures |nodes| == |old(nodes)| + 1 && nodes[1..] == old(nodes)
    {
      ChainFacts();
      var n := new Node(value, head.next);
      head.next := n;
      size := size + 1;
      nodes, Contents, Repr := [n] + nodes, [value] + Contents, Repr + {n};
      Sequences.InsertedAfterBeforeBegin(old(nodes), n);
      Sequences.InsertedAfterBeforeBegin(old(Contents), value);
      InsertedAfterLinked(-1, n);
    }

    /** `PopFront()`: unlinks the first node if there is one; on an empty chain nothing
        happens. As written it never decrements the counter. */
    method PopFront()
      requires Valid()
      modifies Repr
      ensures Valid() && Repr <= old(Repr)
      ensures Contents == if old(Contents) == [] then [] else old(Contents)[1..]
      ensures nodes == if old(nodes) == [] then [] else old(nodes)[1..]
      ensures size == old(size)
    {
      NextAt(-1);
      if head.next != null {
        ChainFacts();
        NextAt(0);
        var first := head.next;
        var after := first.next;
        if after != null {
          head.next := after;
        } else {
          head.next := null;
        }
        nodes, Contents, Repr := nodes[1..], Contents[1..], Repr - {first};
        Sequences.ErasedAfterBeforeBegin(old(nodes));
        Sequences.ErasedAfterBeforeBegin(old(Contents));
        ErasedAfterLinked(-1);
      }
    }

    /** `PopFront()` with the decrement the counter needs: a counter that matched the
        element count still matches it afterwards. */
    method PopFrontCounted()
      requires Valid()
      modifies Repr
      ensures Valid() && Repr <= old(Repr)
      ensures Contents == if old(Contents) == [] then [] else old(Contents)[1..]
      ensures nodes == if old(nodes) == [] then [] else old(nodes)[1..]
      ensures size == if old(Contents) == [] then old(size) else old(size) - 1
      ensures old(size) == |old(Contents)| ==> size == |Contents|
    {
      NextAt(-1);
      if head.next != null {
        ChainFacts();
        NextAt(0);
        var first := head.next;
        head.next := first.next;
        size := size - 1;
        nodes, Contents, Repr := nodes[1..], Contents[1..], Repr - {first};
        Sequences.ErasedAfterBeforeBegin(old(nodes));
        Sequences.ErasedAfterBeforeBegin(old(Contents));
        ErasedAfterLinked(-1);
      }
    }

    /** `InsertAfter(pos, value)` with `pos` at position `i` (the sentinel or a real
        node): links a new node after `pos`, bumps the counter and returns the new node. */
    method InsertAfter(pos: Iterator<T>, value: T, ghost i: int) returns (r: Iterator<T>)
      requires Valid() && i < |nodes| && At(pos, i)
      modifies Repr
      ensures Valid() && fresh(Repr - old(Repr))
      ensures Contents == Sequences.InsertedAfter(old(Contents), i, value)
      ensures nodes == Sequences.InsertedAfter(old(nodes), i, r.node)
      ensures size == old(size) + 1
      ensures At(r, i + 1) && fresh(r.node)
    {
      ChainFacts();
      var n := new Node(value, pos.node.next);
      pos.node.next := n;
      size := size + 1;
      nodes, Contents, Repr := Sequences.InsertedAfter(nodes, i, n), Sequences.InsertedAfter(Contents, i, value), Repr + {n};
      r := Iterator(n);
      InsertedAfterLinked(i, n);
    }

    /** `EraseAfter(pos)` with `pos` at position `i`, which must have a successor: unlinks
        that successor and returns the position after `pos`. As written it never
        decrements the counter. */
    method EraseAfter(pos: Iterator<T>, ghost i: int) returns (r: Iterator<T>)
      requires Valid() && i < |nodes| - 1 && At(pos, i)
      modifies Repr
      ensures Valid() && Repr == old(Repr) - {old(nodes)[i + 1]}
      ensures Contents == Sequences.ErasedAfter(old(Contents), i)
      ensures nodes == Sequences.ErasedAfter(old(nodes), i)
      ensures size == old(size)
      ensures At(r, i + 1)
    {
      ChainFacts();
      NextAt(i);
      NextAt(i + 1);
      var del := pos.node.next;
      pos.node.next := pos.node.next.next;
      nodes, Contents, Repr := Sequences.ErasedAfter(nodes, i), Sequences.ErasedAfter(Contents, i), Repr - {del};
      r := Iterator(pos.node.next);
      ErasedAfterLinked(i);
    }

    /** `EraseAfter(pos)` with the decrement the counter needs. */
    method EraseAfterCounted(pos: Iterator<T>, ghost i: int) returns (r: Iterator<T>)
      requires Valid() && i < |nodes| - 1 && At(pos, i)
      modifies Repr
      ensures Valid() && Repr == old(Repr) - {old(nodes)[i + 1]}
      ensures Contents == Sequences.ErasedAfter(old(Contents), i)
      ensures nodes == Sequences.ErasedAfter(old(nodes), i)
      ensures size == old(size) - 1
      ensures old(size) == |old(Contents)| ==> size == |Contents|
      ensures At(r, i + 1)
    {
      ChainFacts();
      NextAt(i);
      NextAt(i + 1);
      var del := pos.node.next;
      pos.node.next := pos.node.next.next;
      size := size - 1;
      nodes, Contents, Repr := Sequences.ErasedAfter(nodes, i), Sequences.ErasedAfter(Contents, i), Repr - {del};
      r := Iterator(pos.node.next);
      ErasedAfterLinked(i);
    }

    /** `Clear()`: walks the chain releasing each node and decrementing the counter, then
        unlinks everything and sets the counter to zero. */
    method Clear()
      requires Valid()
      modifies Repr
      ensures Valid() && Repr == {this, head}
      ensures Contents == [] && nodes == [] && size == 0
      ensures Begin() == End()
    {
      if head.next != null {
        NextAt(-1);
        var first := head.next;
        ghost var k := 0;
        while first != null
          invariant 0 <= k <= |nodes| && first == NodeAt(k)
          invariant size + k == old(size)
          invariant WellLinked() && nodes == old(nodes)
          decreases |nodes| - k
        {
          NextAt(k);
          first := first.next;
          size := size - 1;
          k := k + 1;
        }
      }
      head.next := null;
      size := 0;
      nodes, Contents := [], [];
      Repr := {this, head};
    }

    /** `++` steps one position forward, and stays put at `end()`. */
    lemma NextAdvances(it: Iterator<T>, i: int)
      requires Valid() && At(it, i)
      ensures At(it.Next(), if i < |nodes| then i + 1 else i)
    {
      if i < |nodes| {
        NextAt(i);
      }
    }

    /** Iterators of one list are equal exactly when they are at the same position. */
    lemma IteratorEquality(a: Iterator<T>, b: Iterator<T>, i: int, j: int)
      requires Valid() && At(a, i) && At(b, j)
      ensures a == b <==> i == j
    {
      ChainFacts();
      var c := [head] + nodes;
      if i != j && i < |nodes| && j < |nodes| {
        assert a.node == c[i + 1] && b.node == c[j + 1];
      }
    }

    /** Dereferencing an iterator at a real node yields the element at that position. */
    lemma ValueAt(it: Iterator<T>, i: int)
      requires Valid() && At(it, i) && 0 <= i < |nodes|
      ensures it.node != null && it.Value() == Contents[i]
    {
    }
  }

  /** The free `swap(lhs, rhs)`. */
  method Swap<T(0)>(lhs: SingleLinkedList<T>, rhs: SingleLinkedList<T>)
    requires lhs.Valid() && rhs.Valid()
    requires lhs == rhs || lhs.Repr !! rhs.Repr
    modifies lhs, lhs.head, rhs, rhs.head
    ensures lhs.Valid() && rhs.Valid()
    ensures lhs.Contents == old(rhs.Contents) && rhs.Contents == old(lhs.Contents)
    ensures lhs.size == old(rhs.size) && rhs.size == old(lhs.size)
    ensures lhs.nodes == old(rhs.nodes) && rhs.nodes == old(lhs.nodes)
    ensures lhs.Repr + rhs.Repr == old(lhs.Repr + rhs.Repr)
    ensures lhs != rhs ==> lhs.Repr !! rhs.Repr
  {
    lhs.Swap(rhs);
  }

  /** `operator==` as written: `std::equal(lhs.begin(), lhs.end(), rhs.begin())`. It
      holds when `lhs` matches the first |lhs| elements of `rhs`, and `rhs` must be at
      least as long as `lhs` (otherwise the walk runs off the end of `rhs`). */
  function Equal<T(0,==)>(lhs: SingleLinkedList<T>, rhs: SingleLinkedList<T>): (r: bool)
    reads lhs, lhs.Repr, rhs, rhs.Repr
    requires lhs.Valid() && rhs.Valid()
    requires |lhs.Contents| <= |rhs.Contents|
    ensures r <==> lhs.Contents == rhs.Contents[..|lhs.Contents|]
  {
    Comparisons.Equal(lhs.Values(), rhs.Values())
  }

  /** `operator!=`: the negation of `operator==`, with the same demand on lengths. */
  function NotEqual<T(0,==)>(lhs: SingleLinkedList<T>, rhs: SingleLinkedList<T>): (r: bool)
    reads lhs, lhs.Repr, rhs, rhs.Repr
    requires lhs.Valid() && rhs.Valid()
    requires |lhs.Contents| <= |rhs.Contents|
    ensures r <==> lhs.Contents != rhs.Contents[..|lhs.Contents|]
  {
    !Equal(lhs, rhs)
  }

  /** `operator<`: lexicographic order of the element sequences. */
  function Less(lhs: SingleLinkedList<int>, rhs: SingleLinkedList<int>): (r: bool)
    reads lhs, lhs.Repr, rhs, rhs.Repr
    requires lhs.Valid() && rhs.Valid()
    ensures r <==> exists k: nat :: Comparisons.LessAt(lhs.Contents, rhs.Contents, k)
  {
    Comparisons.LexLessIsLessAt(lhs.Contents, rhs.Contents);
    Comparisons.LexLess(lhs.Values(), rhs.Values())
  }

  /** `operator<=` as written, `!(lhs < rhs)`: standard "greater than or equal". */
  function LessEq(lhs: SingleLinkedList<int>, rhs: SingleLinkedList<int>): (r: bool)
    reads lhs, lhs.Repr, rhs, rhs.Repr
    requires lhs.Valid() && rhs.Valid()
    ensures r <==> Comparisons.GreaterEqStd(lhs.Contents, rhs.Contents)
  {
    Comparisons.GreaterEqStdIsNotLess(lhs.Contents, rhs.Contents);
    !Comparisons.LexLess(lhs.Values(), rhs.Values())
  }

  /** `operator>` as written, `!(lhs < rhs)`: standard "greater than or equal". */
  function Greater(lhs: SingleLinkedList<int>, rhs: SingleLinkedList<int>): (r: bool)
    reads lhs, lhs.Repr, rhs, rhs.Repr
    requires lhs.Valid() && rhs.Valid()
    ensures r <==> Comparisons.GreaterEqStd(lhs.Contents, rhs.Contents)
  {
    Comparisons.GreaterEqStdIsNotLess(lhs.Contents, rhs.Contents);
    !Comparisons.LexLess(lhs.Values(), rhs.Values())
  }

  /** `operator>=`, `!(lhs < rhs)`: standard "greater than or equal", as intended. */
  function GreaterEq(lhs: SingleLinkedList<int>, rhs: SingleLinkedList<int>): (r: bool)
    reads lhs, lhs.Repr, rhs, rhs.Repr
    requires lhs.Valid() && rhs.Valid()
    ensures r <==> Comparisons.GreaterEqStd(lhs.Contents, rhs.Contents)
  {
    Comparisons.GreaterEqStdIsNotLess(lhs.Contents, rhs.Contents);
    !Comparisons.LexLess(lhs.Values(), rhs.Values())
  }

  /** `operator==` as evidently intended: the same length and element-wise equal. */
  function EqualCorrected<T(0,==)>(lhs: SingleLinkedList<T>, rhs: SingleLinkedList<T>): (r: bool)
    reads lhs, lhs.Repr, rhs, rhs.Repr
    requires lhs.Valid() && rhs.Valid()
    ensures r <==> lhs.Contents == rhs.Contents
  {
    Comparisons.EqualStd(lhs.Values(), rhs.Values())
  }

  /** `operator<=` as evidently intended, `!(rhs < lhs)`: standard "less than or equal". */
  function LessEqCorrected(lhs: SingleLinkedList<int>, rhs: SingleLinkedList<int>): (r: bool)
    reads lhs, lhs.Repr, rhs, rhs.Repr
    requires lhs.Valid() && rhs.Valid()
    ensures r <==> Comparisons.LessEqStd(lhs.Contents, rhs.Contents)
    ensures r <==> Less(lhs, rhs) || EqualCorrected(lhs, rhs)
  {
    Comparisons.GreaterEqStdIsNotLess(rhs.Contents, lhs.Contents);
    !Less(rhs, lhs)
  }

  /** `operator>` as evidently intended, `rhs < lhs`: standard "greater than", the
      complement of `<=`. */
  function GreaterCorrected(lhs: SingleLinkedList<int>, rhs: SingleLinkedList<int>): (r: bool)
    reads lhs, lhs.Repr, rhs, rhs.Repr
    requires lhs.Valid() && rhs.Valid()
    ensures r <==> Comparisons.GreaterStd(lhs.Contents, rhs.Contents)
    ensures r <==> !LessEqCorrected(lhs, rhs)
  {
    Comparisons.GreaterStdStrict(lhs.Contents, rhs.Contents);
    Less(rhs, lhs)
  }
}
