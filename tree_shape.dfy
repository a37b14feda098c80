/**
 * The tree reachable from the root of a `BinarySearchTree`, seen as a value.
 *
 * The nodes of the tree live in an arena: node `i` is described by
 * `element[i]`, `left[i]`, `right[i]` and `parent[i]`, and a link that Java
 * holds as `null` is the index `Null`.  A `Shape` names, for the part of the
 * arena that is reachable from the root, which index sits where; the
 * predicates below tie a shape to the arena (`Linked`, `ParentsOk`) and to
 * the search-tree order (`Ordered`).
 */
module TreeShape {

  /** The arena index that stands for a `null` node reference. */
  const Null: int := -1

  datatype Shape = Empty | Node(left: Shape, id: int, right: Shape)

  /** What `preface` hands back: a node, `null`, or a NullPointerException. */
  datatype Lookup = Found(index: int) | Nil | NullPointer

  /** The reference a shape's root is held by: its index, or `Null`. */
  function Ix(s: Shape): int
  {
    if s.Empty? then Null else s.id
  }

  function Nodes(s: Shape): set<int>
  {
    match s
    case Empty => {}
    case Node(l, i, r) => Nodes(l) + {i} + Nodes(r)
  }

  /** The number of nodes of a shape. */
  function Count(s: Shape): nat
  {
    match s
    case Empty => 0
    case Node(l, _, r) => Count(l) + 1 + Count(r)
  }

  /** Every index of the shape is one of the `n` cells of the arena. */
  ghost predicate Within(s: Shape, n: int)
  {
    match s
    case Empty => true
    case Node(l, i, r) => 0 <= i < n && Within(l, n) && Within(r, n)
  }

  /** No arena index occurs twice in the shape. */
  ghost predicate Distinct(s: Shape)
  {
    match s
    case Empty => true
    case Node(l, i, r) =>
      i !in Nodes(l) && i !in Nodes(r) && Nodes(l) !! Nodes(r) && Distinct(l) && Distinct(r)
  }

  /** The shape is a tree over indices of an arena of `n` nodes. */
  ghost predicate Wf(s: Shape, n: int)
  {
    Within(s, n) && Distinct(s)
  }

  /** `xs` and `ys` are defined and equal at every index of `ns`. */
  ghost predicate Agree(xs: seq<int>, ys: seq<int>, ns: set<int>)
  {
    forall i :: i in ns ==> 0 <= i < |xs| && 0 <= i < |ys| && xs[i] == ys[i]
  }

  /** The `left` and `right` fields of the arena describe the shape. */
  ghost predicate Linked(s: Shape, left: seq<int>, right: seq<int>)
  {
    match s
    case Empty => true
    case Node(l, i, r) =>
      0 <= i < |left| && i < |right| && left[i] == Ix(l) && right[i] == Ix(r)
      && Linked(l, left, right) && Linked(r, left, right)
  }

  /** Every node's `parent` field is the node above it, `up` for the root. */
  ghost predicate ParentsOk(s: Shape, up: int, parent: seq<int>)
  {
    match s
    case Empty => true
    case Node(l, i, r) =>
      0 <= i < |parent| && parent[i] == up && ParentsOk(l, i, parent) && ParentsOk(r, i, parent)
  }

  /** The elements stored in the nodes of the shape. */
  function Elems(s: Shape, element: seq<int>): set<int>
    requires Wf(s, |element|)
  {
    match s
    case Empty => {}
    case Node(l, i, r) => Elems(l, element) + {element[i]} + Elems(r, element)
  }

  /** The search-tree order: left subtree below the node, right subtree above. */
  ghost predicate Ordered(s: Shape, element: seq<int>)
    requires Wf(s, |element|)
  {
    match s
    case Empty => true
    case Node(l, i, r) =>
      Ordered(l, element) && Ordered(r, element)
      && (forall y :: y in Elems(l, element) ==> y < element[i])
      && (forall y :: y in Elems(r, element) ==> element[i] < y)
  }

  /** The elements in in-order: left subtree, node, right subtree. */
  function InOrder(s: Shape, element: seq<int>): seq<int>
    requires Wf(s, |element|)
  {
    match s
    case Empty => []
    case Node(l, i, r) => InOrder(l, element) + [element[i]] + InOrder(r, element)
  }

  ghost predicate StrictlyIncreasing(q: seq<int>)
  {
    forall i, j :: 0 <= i < j < |q| ==> q[i] < q[j]
  }

  /** The subtree whose root is node `n`. */
  function Sub(s: Shape, n: int): (t: Shape)
    requires n in Nodes(s)
    ensures t.Node? && t.id == n && Nodes(t) <= Nodes(s)
  {
    match s
    case Node(l, i, r) =>
      if n == i then s else if n in Nodes(l) then Sub(l, n) else Sub(r, n)
  }

  /** The shape with the subtree rooted at node `n` replaced by `t`. */
  function Replace(s: Shape, n: int, t: Shape): Shape
  {
    match s
    case Empty => Empty
    case Node(l, i, r) => if i == n then t else Node(Replace(l, n, t), i, Replace(r, n, t))
  }

  /** The child that takes a removed node's place: `node.left != null ? node.left : node.right`. */
  function Survivor(s: Shape): Shape
    requires s.Node?
  {
    if s.left != Empty then s.left else s.right
  }

  /** The index of the rightmost node, the last node of the in-order walk. */
  function Rightmost(s: Shape): (q: int)
    requires s.Node?
    ensures q in Nodes(s)
  {
    if s.right.Empty? then s.id else Rightmost(s.right)
  }

  /** The shape without its rightmost node, whose left subtree moves up. */
  function RemoveMax(s: Shape): Shape
    requires s.Node?
  {
    if s.right.Empty? then s.left else Node(s.left, s.id, RemoveMax(s.right))
  }

  /** The node directly above node `n`. */
  function ParentOf(s: Shape, n: int): (p: int)
    requires n in Nodes(s) && n != Ix(s)
    ensures p in Nodes(s) && p != n
  {
    match s
    case Node(l, i, r) =>
      if n == Ix(l) || n == Ix(r) then i
      else if n in Nodes(l) then ParentOf(l, n) else ParentOf(r, n)
  }

  /** The indices from the root down to node `n`. */
  function Path(s: Shape, n: int): (p: seq<int>)
    requires n in Nodes(s)
    ensures |p| >= 1 && p[0] == Ix(s) && p[|p| - 1] == n
    ensures forall k :: 0 <= k < |p| ==> p[k] in Nodes(s)
  {
    match s
    case Node(l, i, r) =>
      if n == i then [i] else if n in Nodes(l) then [i] + Path(l, n) else [i] + Path(r, n)
  }

  /**
   * The shape `add` produces: a fresh leaf `k` at the end of the search path
   * for `x`, or the same shape when an equal element is already there.
   */
  function Attach(s: Shape, x: int, k: int, element: seq<int>): Shape
    requires Wf(s, |element|)
  {
    match s
    case Empty => Node(Empty, k, Empty)
    case Node(l, i, r) =>
      if element[i] > x then Node(Attach(l, x, k, element), i, r)
      else if element[i] < x then Node(l, i, Attach(r, x, k, element))
      else s
  }

  /** The last node that the search for `x` visits, `Null` for an empty shape. */
  function InsertionPoint(s: Shape, x: int, element: seq<int>): (p: int)
    requires Wf(s, |element|)
    ensures s != Empty ==> p in Nodes(s)
    ensures s == Empty ==> p == Null
  {
    match s
    case Empty => Null
    case Node(l, i, r) =>
      if element[i] > x then (if l.Empty? then i else InsertionPoint(l, x, element))
      else if element[i] < x then (if r.Empty? then i else InsertionPoint(r, x, element))
      else i
  }

  /** The node the search for `x` stops at, `Null` when it runs off the tree. */
  function Search(s: Shape, x: int, element: seq<int>): int
    requires Wf(s, |element|)
  {
    match s
    case Empty => Null
    case Node(l, i, r) =>
      if element[i] > x then Search(l, x, element)
      else if element[i] < x then Search(r, x, element)
      else i
  }
}
