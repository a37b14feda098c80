/**
 * General facts about shapes: framing (a shape's meaning depends only on the
 * arena cells of its own nodes), subtrees inherit the invariants, and the
 * search-tree order makes the in-order walk strictly increasing.
 */
module ShapeFacts {
  import opened TreeShape

  lemma {:induction false} WithinMono(s: Shape, n: int, m: int)
    requires Within(s, n) && n <= m
    ensures Within(s, m)
  {
    match s
    case Empty =>
    case Node(l, i, r) => WithinMono(l, n, m); WithinMono(r, n, m);
  }

  lemma {:induction false} WithinNodes(s: Shape, n: int)
    requires Within(s, n)
    ensures forall i :: i in Nodes(s) ==> 0 <= i < n
  {
    match s
    case Empty =>
    case Node(l, i, r) => WithinNodes(l, n); WithinNodes(r, n);
  }

  lemma {:induction false} NodesWithin(s: Shape, n: int)
    requires forall i :: i in Nodes(s) ==> 0 <= i < n
    ensures Within(s, n)
  {
    match s
    case Empty =>
    case Node(l, i, r) =>
      assert i in Nodes(s);
      forall j | j in Nodes(l) ensures 0 <= j < n { assert j in Nodes(s); }
      forall j | j in Nodes(r) ensures 0 <= j < n { assert j in Nodes(s); }
      NodesWithin(l, n);
      NodesWithin(r, n);
  }

  /** Consistent parent links cover every node of the shape. */
  lemma {:induction false} ParentsRange(s: Shape, up: int, parent: seq<int>)
    requires ParentsOk(s, up, parent)
    ensures forall i :: i in Nodes(s) ==> 0 <= i < |parent|
  {
    match s
    case Empty =>
    case Node(l, i, r) => ParentsRange(l, i, parent); ParentsRange(r, i, parent);
  }

  lemma AgreeSub(xs: seq<int>, ys: seq<int>, ns: set<int>, ms: set<int>)
    requires Agree(xs, ys, ns) && ms <= ns
    ensures Agree(xs, ys, ms)
  {
  }

  /** Appending a cell changes none of the cells a shape already uses. */
  lemma AgreeAppend(s: Shape, xs: seq<int>, y: int)
    requires Within(s, |xs|)
    ensures Agree(xs, xs + [y], Nodes(s))
  {
    WithinNodes(s, |xs|);
  }

  /** A shape is linked by any left/right arrays that agree on its nodes. */
  lemma {:induction false} LinkedFrame(s: Shape, left: seq<int>, right: seq<int>, left': seq<int>, right': seq<int>)
    requires Linked(s, left, right)
    requires Agree(left, left', Nodes(s)) && Agree(right, right', Nodes(s))
    ensures Linked(s, left', right')
  {
    match s
    case Empty =>
    case Node(l, i, r) =>
      LinkedFrame(l, left, right, left', right');
      LinkedFrame(r, left, right, left', right');
  }

  lemma {:induction false} ParentsFrame(s: Shape, up: int, parent: seq<int>, parent': seq<int>)
    requires ParentsOk(s, up, parent) && Agree(parent, parent', Nodes(s))
    ensures ParentsOk(s, up, parent')
  {
    match s
    case Empty =>
    case Node(l, i, r) =>
      ParentsFrame(l, i, parent, parent');
      ParentsFrame(r, i, parent, parent');
  }

  /** Elements, order and in-order walk depend only on the shape's own cells. */
  lemma {:induction false} ElemsFrame(s: Shape, element: seq<int>, element': seq<int>)
    requires Wf(s, |element|) && Wf(s, |element'|) && Agree(element, element', Nodes(s))
    ensures Elems(s, element) == Elems(s, element')
    ensures Ordered(s, element) <==> Ordered(s, element')
    ensures InOrder(s, element) == InOrder(s, element')
  {
    match s
    case Empty =>
    case Node(l, i, r) =>
      ElemsFrame(l, element, element');
      ElemsFrame(r, element, element');
  }

  lemma {:induction false} ElemOf(s: Shape, n: int, element: seq<int>)
    requires Wf(s, |element|) && n in Nodes(s)
    ensures 0 <= n < |element| && element[n] in Elems(s, element)
  {
    match s
    case Node(l, i, r) =>
      if n in Nodes(l) {
        ElemOf(l, n, element);
      } else if n in Nodes(r) {
        ElemOf(r, n, element);
      }
  }

  /** A subtree keeps the invariants of the tree it is taken from. */
  lemma {:induction false} SubInherits(s: Shape, n: int, element: seq<int>, left: seq<int>, right: seq<int>)
    requires Wf(s, |element|) && n in Nodes(s)
    ensures Wf(Sub(s, n), |element|)
    ensures Elems(Sub(s, n), element) <= Elems(s, element)
    ensures Ordered(s, element) ==> Ordered(Sub(s, n), element)
    ensures Linked(s, left, right) ==> Linked(Sub(s, n), left, right)
    ensures Count(Sub(s, n)) <= Count(s)
  {
    match s
    case Node(l, i, r) =>
      if n == i {
      } else if n in Nodes(l) {
        SubInherits(l, n, element, left, right);
      } else {
        SubInherits(r, n, element, left, right);
      }
  }

  /** The subtree at `n` hangs below `n`'s parent, or below `up` at the root. */
  lemma {:induction false} SubParents(s: Shape, n: int, up: int, parent: seq<int>)
    requires Distinct(s) && n in Nodes(s) && ParentsOk(s, up, parent)
    ensures n == Ix(s) ==> ParentsOk(Sub(s, n), up, parent)
    ensures n != Ix(s) ==> ParentsOk(Sub(s, n), ParentOf(s, n), parent)
  {
    match s
    case Node(l, i, r) =>
      if n == i {
      } else if n in Nodes(l) {
        SubParents(l, n, i, parent);
      } else {
        SubParents(r, n, i, parent);
      }
  }

  /** A consistent `parent` field names, for every non-root node, the node above it. */
  lemma {:induction false} ParentField(s: Shape, n: int, up: int, parent: seq<int>)
    requires Distinct(s) && n in Nodes(s) && ParentsOk(s, up, parent)
    ensures 0 <= n < |parent|
    ensures n == Ix(s) ==> parent[n] == up
    ensures n != Ix(s) ==> parent[n] == ParentOf(s, n)
  {
    match s
    case Node(l, i, r) =>
      if n == i {
      } else if n in Nodes(l) {
        ParentField(l, n, i, parent);
      } else {
        ParentField(r, n, i, parent);
      }
  }

  /** Node `n` is the left or the right child of its parent, and not both. */
  lemma {:induction false} ChildOfParent(s: Shape, n: int, left: seq<int>, right: seq<int>)
    requires Wf(s, |left|) && Linked(s, left, right) && n in Nodes(s) && n != Ix(s)
    ensures var p := ParentOf(s, n);
      0 <= p < |left| && p < |right| && ((left[p] == n) != (right[p] == n))
  {
    match s
    case Node(l, i, r) =>
      if n == Ix(l) || n == Ix(r) {
        WithinNodes(s, |left|);
      } else if n in Nodes(l) {
        ChildOfParent(l, n, left, right);
      } else {
        ChildOfParent(r, n, left, right);
      }
  }

  /** The in-order walk of an ordered shape lists its elements in strictly increasing order. */
  lemma {:induction false} OrderedInOrder(s: Shape, element: seq<int>)
    requires Wf(s, |element|) && Ordered(s, element)
    ensures StrictlyIncreasing(InOrder(s, element))
    ensures forall y :: y in InOrder(s, element) <==> y in Elems(s, element)
    ensures |InOrder(s, element)| == Count(s)
  {
    match s
    case Empty =>
    case Node(l, i, r) =>
      OrderedInOrder(l, element);
      OrderedInOrder(r, element);
      var a, b := InOrder(l, element), InOrder(r, element);
      var q := a + [element[i]] + b;
      forall j, k | 0 <= j < k < |q| ensures q[j] < q[k] {
        if k < |a| {
        } else if j < |a| {
          assert q[j] in Elems(l, element);
          if k > |a| { assert q[k] == b[k - |a| - 1]; assert q[k] in Elems(r, element); }
        } else if j == |a| {
          assert q[k] == b[k - |a| - 1];
          assert q[k] in Elems(r, element);
        } else {
          assert q[j] == b[j - |a| - 1] && q[k] == b[k - |a| - 1];
        }
      }
  }

  /** The `left` and `right` cells of a node of the shape name its subtrees' roots. */
  lemma ChildLinks(s: Shape, n: int, left: seq<int>, right: seq<int>)
    requires Wf(s, |left|) && Linked(s, left, right) && n in Nodes(s)
    ensures 0 <= n < |left| && n < |right|
    ensures left[n] == Ix(Sub(s, n).left) && right[n] == Ix(Sub(s, n).right)
    ensures left[n] == Null <==> Sub(s, n).left == Empty
    ensures right[n] == Null <==> Sub(s, n).right == Empty
  {
    SubInherits(s, n, left, left, right);
  }

  /** In an ordered shape the search finds exactly the stored elements. */
  lemma {:induction false} SearchFacts(s: Shape, x: int, element: seq<int>)
    requires Wf(s, |element|) && Ordered(s, element)
    ensures Search(s, x, element) == Null <==> x !in Elems(s, element)
    ensures Search(s, x, element) != Null ==>
      Search(s, x, element) in Nodes(s) && 0 <= Search(s, x, element) < |element| && element[Search(s, x, element)] == x
  {
    match s
    case Empty =>
    case Node(l, i, r) =>
      WithinNodes(s, |element|);
      SearchFacts(l, x, element);
      SearchFacts(r, x, element);
  }
}
