/**
 * The in-order predecessor of a node, which `preface` looks for.
 *
 * `Predecessor` is the reference: the rightmost node of the left subtree if
 * there is one, otherwise the deepest ancestor whose right subtree holds the
 * node (`UpPred`).  `PrefaceUp` is what `preface` computes when the node has
 * no left child, walking the parent links back up the root-to-node path, with
 * the NullPointerExceptions of its `.equals` calls on missing children.
 */
module Predecessors {
  import opened TreeShape
  import opened ShapeFacts
  import opened RemoveFacts

  /** The deepest ancestor of `n` that has `n` in its right subtree, or `Nil`. */
  function UpPred(s: Shape, n: int): Lookup
    requires n in Nodes(s)
  {
    match s
    case Node(l, i, r) =>
      if n == i then Nil
      else if n in Nodes(l) then UpPred(l, n)
      else
        var u := UpPred(r, n);
        if u == Nil then Found(i) else u
  }

  /** The node holding the next smaller element, or `Nil` if `n` holds the smallest. */
  function Predecessor(s: Shape, n: int): Lookup
    requires n in Nodes(s)
  {
    var t := Sub(s, n);
    if t.left != Empty then Found(Rightmost(t.left)) else UpPred(s, n)
  }

  /** `res` names the node with the greatest element below `element[n]`, or `n` holds the least element. */
  ghost predicate IsPredecessor(s: Shape, element: seq<int>, n: int, res: Lookup)
    requires Wf(s, |element|) && 0 <= n < |element|
  {
    match res
    case Found(a) =>
      a in Nodes(s) && 0 <= a < |element| && element[a] < element[n]
      && forall y :: y in Elems(s, element) && y < element[n] ==> y <= element[a]
    case Nil => forall y :: y in Elems(s, element) ==> element[n] <= y
    case NullPointer => false
  }

  /** Every index of `path` addresses the arrays `xs`. */
  ghost predicate InRange(path: seq<int>, xs: seq<int>)
  {
    forall k :: 0 <= k < |path| ==> 0 <= path[k] < |xs|
  }

  /**
   * The loop of `preface` from `path[j]` upwards: stop with `Nil` at the root,
   * throw when the parent has no right child, answer the parent when the
   * current node is its right child, and climb otherwise.
   */
  function WalkUp(path: seq<int>, j: int, right: seq<int>): Lookup
    requires 0 <= j < |path| && InRange(path, right)
    decreases j
  {
    if j == 0 then Nil
    else
      var q := path[j - 1];
      if right[q] == Null then NullPointer
      else if right[q] == path[j] then Found(q)
      else WalkUp(path, j - 1, right)
  }

  /**
   * `preface` for a node without left child, `path` running from the root to
   * it: `null` at the root, a throw when the parent has no left child, the
   * climb when it is the parent's left child, the parent otherwise.
   */
  function PrefaceUp(path: seq<int>, left: seq<int>, right: seq<int>): Lookup
    requires |path| >= 1 && InRange(path, left) && InRange(path, right)
  {
    var k := |path| - 1;
    if k == 0 then Nil
    else
      var pp := path[k - 1];
      if left[pp] == Null then NullPointer
      else if left[pp] == path[k] then WalkUp(path, k - 1, right)
      else Found(pp)
  }

  /** Consecutive entries of a root-to-node path are parent and child. */
  lemma {:induction false} PathSteps(s: Shape, n: int, m: int)
    requires Wf(s, m) && n in Nodes(s)
    ensures forall j :: 0 < j < |Path(s, n)| ==> Path(s, n)[j] != Ix(s) && Path(s, n)[j] in Nodes(s)
    ensures forall j :: 0 < j < |Path(s, n)| ==> ParentOf(s, Path(s, n)[j]) == Path(s, n)[j - 1]
  {
    match s
    case Node(l, i, r) =>
      if n != i {
        var c := if n in Nodes(l) then l else r;
        PathSteps(c, n, m);
        WithinNodes(s, m);
        var path := Path(s, n);
        assert path == [i] + Path(c, n);
        forall j | 0 < j < |path|
          ensures path[j] != Ix(s) && path[j] in Nodes(s) && ParentOf(s, path[j]) == path[j - 1]
        {
          assert path[j] == Path(c, n)[j - 1];
          assert path[j] in Nodes(c);
          if j > 1 {
            assert path[j] != Ix(c);
            assert path[j] != Ix(l) && path[j] != Ix(r);
          }
        }
      }
  }

  /** A right child's `UpPred` is its parent; a left child's is its parent's. */
  lemma {:induction false} UpPredStep(s: Shape, c: int, left: seq<int>, right: seq<int>)
    requires Within(s, |left|) && Distinct(s) && Linked(s, left, right) && c in Nodes(s) && c != Ix(s)
    ensures var q := ParentOf(s, c);
      && 0 <= q < |left| && q < |right|
      && (right[q] == c ==> UpPred(s, c) == Found(q))
      && (left[q] == c ==> UpPred(s, c) == UpPred(s, q))
  {
    WithinNodes(s, |left|);
    match s
    case Node(l, i, r) =>
      if c == Ix(l) {
        assert right[i] != c;
      } else if c == Ix(r) {
        assert left[i] != c;
      } else if c in Nodes(l) {
        UpPredStep(l, c, left, right);
      } else {
        UpPredStep(r, c, left, right);
      }
  }

  /** Where `preface`'s climb does not throw, it finds `UpPred`. */
  lemma {:induction false} WalkUpSound(s: Shape, n: int, j: int, left: seq<int>, right: seq<int>)
    requires Wf(s, |left|) && Linked(s, left, right) && n in Nodes(s)
    requires 0 <= j < |Path(s, n)| && InRange(Path(s, n), right)
    requires WalkUp(Path(s, n), j, right) != NullPointer
    ensures Path(s, n)[j] in Nodes(s)
    ensures WalkUp(Path(s, n), j, right) == UpPred(s, Path(s, n)[j])
    decreases j
  {
    var path := Path(s, n);
    PathSteps(s, n, |left|);
    if j > 0 {
      var c, q := path[j], path[j - 1];
      UpPredStep(s, c, left, right);
      ChildOfParent(s, c, left, right);
      if right[q] != c {
        WalkUpSound(s, n, j - 1, left, right);
      }
    }
  }

  /** Where `preface`'s upward branch does not throw, it finds `UpPred`. */
  lemma PrefaceUpSound(s: Shape, n: int, left: seq<int>, right: seq<int>)
    requires Wf(s, |left|) && Linked(s, left, right) && n in Nodes(s)
    requires InRange(Path(s, n), left) && InRange(Path(s, n), right)
    requires PrefaceUp(Path(s, n), left, right) != NullPointer
    ensures PrefaceUp(Path(s, n), left, right) == UpPred(s, n)
  {
    var path := Path(s, n);
    var k := |path| - 1;
    PathSteps(s, n, |left|);
    if k > 0 {
      UpPredStep(s, n, left, right);
      ChildOfParent(s, n, left, right);
      if left[path[k - 1]] == n {
        WalkUpSound(s, n, k - 1, left, right);
      }
    }
  }

  /** With a left subtree, the predecessor is that subtree's rightmost node. */
  lemma {:induction false} RightmostIsPredecessor(s: Shape, n: int, element: seq<int>)
    requires Wf(s, |element|) && Ordered(s, element) && n in Nodes(s) && Sub(s, n).left != Empty
    ensures 0 <= n < |element| && IsPredecessor(s, element, n, Found(Rightmost(Sub(s, n).left)))
  {
    WithinNodes(s, |element|);
    var q := Rightmost(Sub(s, n).left);
    match s
    case Node(l, i, r) =>
      if n == i {
        RemoveMaxFacts(l, element);
      } else if n in Nodes(l) {
        RightmostIsPredecessor(l, n, element);
        ElemOf(l, n, element);
      } else {
        RightmostIsPredecessor(r, n, element);
        SubInherits(r, n, element, [], []);
        assert q in Nodes(Sub(r, n));
        ElemOf(r, q, element);
      }
  }

  /** Without a left subtree, the predecessor is `UpPred`. */
  lemma {:induction false} UpPredIsPredecessor(s: Shape, n: int, element: seq<int>)
    requires Wf(s, |element|) && Ordered(s, element) && n in Nodes(s) && Sub(s, n).left == Empty
    ensures 0 <= n < |element| && IsPredecessor(s, element, n, UpPred(s, n))
  {
    WithinNodes(s, |element|);
    match s
    case Node(l, i, r) =>
      if n == i {
      } else if n in Nodes(l) {
        UpPredIsPredecessor(l, n, element);
        ElemOf(l, n, element);
      } else {
        UpPredIsPredecessor(r, n, element);
        ElemOf(r, n, element);
        var u := UpPred(r, n);
        if u.Found? {
          ElemOf(r, u.index, element);
        }
      }
  }

  /** `Predecessor` meets its description. */
  lemma PredecessorMeaning(s: Shape, n: int, element: seq<int>)
    requires Wf(s, |element|) && Ordered(s, element) && n in Nodes(s)
    ensures 0 <= n < |element| && IsPredecessor(s, element, n, Predecessor(s, n))
  {
    if Sub(s, n).left != Empty {
      RightmostIsPredecessor(s, n, element);
    } else {
      UpPredIsPredecessor(s, n, element);
    }
  }

  /** Following `parent` from a node walks its root-to-node path backwards, ending in `Null`. */
  lemma PathParents(s: Shape, n: int, parent: seq<int>, m: int)
    requires Wf(s, m) && ParentsOk(s, Null, parent) && n in Nodes(s)
    ensures InRange(Path(s, n), parent)
    ensures parent[Path(s, n)[0]] == Null
    ensures forall j :: 0 < j < |Path(s, n)| ==> parent[Path(s, n)[j]] == Path(s, n)[j - 1]
  {
    var path := Path(s, n);
    PathSteps(s, n, m);
    forall j | 0 <= j < |path|
      ensures 0 <= path[j] < |parent| && parent[path[j]] == if j == 0 then Null else path[j - 1]
    {
      ParentField(s, path[j], Null, parent);
      if j > 0 {
        assert path[j] != Ix(s) && ParentOf(s, path[j]) == path[j - 1];
      }
    }
  }
}
