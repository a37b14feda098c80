/**
 * `BinarySearchTree<E>` over integer elements with their natural order.
 *
 * The Java nodes live in an arena held by the tree: node `i` has fields
 * `element[i]`, `left[i]`, `right[i]` and `parent[i]`, a `null` reference is
 * `Null`, and a node that `new Node(...)` creates is the next free index.
 * Removed nodes stay in the arena, unreachable, as they would stay on the
 * Java heap until collected.  The ghost `shape` is the tree reachable from
 * `root`; `Valid()` ties it to the arena and to the search-tree order.
 */
module BinarySearchTree {
  import opened TreeShape
  import opened ShapeFacts
  import opened InsertFacts
  import opened RemoveFacts
  import opened Predecessors

  class Tree {
    var element: seq<int>
    var left: seq<int>
    var right: seq<int>
    var parent: seq<int>
    var root: int
    var size: int
    ghost var shape: Shape

    /**
     * The arena describes `shape` from `root` down, whatever the elements.
     * The bound on `Nodes(shape)` follows from `Wf` through `WithinNodes`;
     * it is spelled out so that index bounds in the methods need no lemma call.
     */
    ghost predicate Structured()
      reads this
    {
      && |left| == |element| && |right| == |element| && |parent| == |element|
      && Wf(shape, |element|) && (forall i :: i in Nodes(shape) ==> 0 <= i < |element|)
      && root == Ix(shape) && Linked(shape, left, right)
    }

    ghost predicate Valid()
      reads this
    {
      Structured() && Ordered(shape, element)
    }

    /** Every reachable node's `parent` field names the node above it, `null` at the root. */
    ghost predicate Parented()
      reads this
    {
      ParentsOk(shape, Null, parent)
    }

    /** The set of elements reachable from the root. */
    ghost function Elements(): set<int>
      reads this
      requires Valid()
    {
      Elems(shape, element)
    }

    /** The elements in in-order. */
    ghost function Sequence(): seq<int>
      reads this
      requires Valid()
    {
      InOrder(shape, element)
    }

    lemma SequenceSorted()
      requires Valid()
      ensures StrictlyIncreasing(Sequence())
      ensures forall y :: y in Sequence() <==> y in Elements()
      ensures |Sequence()| == Count(shape)
    {
      OrderedInOrder(shape, element);
    }

    constructor ()
      ensures Valid() && Parented() && Elements() == {}
      ensures element == [] && left == [] && right == [] && parent == [] && root == Null && size == 0
    {
      element, left, right, parent := [], [], [], [];
      root, size := Null, 0;
      shape := Empty;
    }

    /** The comparison `add` and `searchNode` use: the sign says how `e1` stands to `e2`. */
    static function CompareTo(e1: int, e2: int): (r: int)
      ensures r > 0 <==> e1 > e2
      ensures r < 0 <==> e1 < e2
      ensures -1 <= r <= 1
    {
      if e1 < e2 then -1 else if e1 > e2 then 1 else 0
    }

    predicate HasTwoChild(n: int)
      reads this
      requires 0 <= n < |left| && n < |right|
    {
      left[n] != Null && right[n] != Null
    }

    /** Despite its name, `isLeft` tells whether a node is a leaf. */
    predicate IsLeft(n: int)
      reads this
      requires 0 <= n < |left| && n < |right|
    {
      left[n] == Null && right[n] == Null
    }

    lemma ChildrenMeaning(n: int)
      requires Valid() && n in Nodes(shape)
      ensures 0 <= n < |left| && n < |right|
      ensures HasTwoChild(n) <==> Sub(shape, n).left != Empty && Sub(shape, n).right != Empty
      ensures IsLeft(n) <==> Sub(shape, n).left == Empty && Sub(shape, n).right == Empty
    {
      ChildLinks(shape, n, left, right);
    }

    /** What `add` leaves behind for an element that was not yet present. */
    twostate predicate Attached(x: int)
      reads this
      requires old(Valid())
    {
      var k := old(|element|);
      var p := old(InsertionPoint(shape, x, element));
      && element == old(element) + [x] && parent == old(parent) + [p] && size == old(size) + 1
      && shape == old(Attach(shape, x, k, element))
      && if p == Null then
           root == k && left == old(left) + [Null] && right == old(right) + [Null]
         else
           && root == old(root) && 0 <= p < k
           && if old(element[p]) > x then left == (old(left) + [Null])[p := k] && right == old(right) + [Null]
              else left == old(left) + [Null] && right == (old(right) + [Null])[p := k]
    }

    /**
     * `add`: a new leaf at the end of the search path, or nothing at all when
     * an equal element is stored already; the answer is always `true`.
     */
    method Add(x: int) returns (ok: bool)
      requires Valid()
      modifies this
      ensures Valid() && ok
      ensures Elements() == old(Elements()) + {x}
      ensures x in old(Elements()) ==> unchanged(this)
      ensures x !in old(Elements()) ==> Attached(x) && Count(shape) == old(Count(shape)) + 1
      ensures old(Parented()) ==> Parented()
      ensures old(size == Count(shape)) ==> size == Count(shape)
    {
      ok := true;
      if root == Null {
        Plant(x);
        return;
      }
      var p, found := Descend(x);
      if found {
        return;
      }
      Hang(x, p);
    }

    /** `add` on an empty tree: the new node becomes the root, with no parent. */
    method Plant(x: int)
      requires Valid() && root == Null
      modifies this
      ensures Valid() && Attached(x) && Count(shape) == old(Count(shape)) + 1
      ensures Elements() == old(Elements()) + {x}
      ensures old(Parented()) ==> Parented()
      ensures old(size == Count(shape)) ==> size == Count(shape)
    {
      var k := |element|;
      ghost var s := shape;
      assert s == Empty;
      AttachNodes(s, x, k, element);
      AttachElems(s, x, k, element);
      element, left, right, parent := element + [x], left + [Null], right + [Null], parent + [Null];
      root := k;
      size := size + 1;
      shape := Attach(s, x, k, old(element));
    }

    /** `add` after the descent: the new leaf hangs in the slot of `p` on `x`'s side. */
    method Hang(x: int, p: int)
      requires Valid() && root != Null && x !in Elements() && p == InsertionPoint(shape, x, element)
      modifies this
      ensures Valid() && Attached(x) && Count(shape) == old(Count(shape)) + 1
      ensures Elements() == old(Elements()) + {x}
      ensures old(Parented()) ==> Parented()
      ensures old(size == Count(shape)) ==> size == Count(shape)
    {
      var k := |element|;
      ghost var s := shape;
      AttachInto(s, x, element, left, right, parent);
      var goLeft := CompareTo(element[p], x) > 0;
      element, left, right, parent := element + [x], left + [Null], right + [Null], parent + [p];
      if goLeft {
        left := left[p := k];
      } else {
        right := right[p := k];
      }
      size := size + 1;
      shape := Attach(s, x, k, old(element));
    }

    /** The descent of `add`: the last node visited, or the discovery that `x` is stored. */
    method Descend(x: int) returns (p: int, found: bool)
      requires Valid() && root != Null
      ensures found <==> x in Elements()
      ensures !found ==> p == InsertionPoint(shape, x, element)
    {
      var node := root;
      p := Null;
      ghost var sub := shape;
      while node != Null
        invariant node == Ix(sub) && Wf(sub, |element|) && Linked(sub, left, right) && Ordered(sub, element)
        invariant p == Null ==> sub == shape
        invariant x in Elements() <==> x in Elems(sub, element)
        invariant InsertionPoint(shape, x, element) == if sub == Empty then p else InsertionPoint(sub, x, element)
        decreases Count(sub)
      {
        p := node;
        var comp := CompareTo(element[node], x);
        if comp > 0 {
          node := left[node];
          sub := sub.left;
        } else if comp < 0 {
          node := right[node];
          sub := sub.right;
        } else {
          return p, true;
        }
      }
      found := false;
    }

    /** `searchNode`: the node holding `x`, or `null`. */
    method SearchNode(x: int) returns (r: int)
      requires Valid()
      ensures r == Search(shape, x, element)
      ensures r == Null <==> x !in Elements()
      ensures r != Null ==> r in Nodes(shape) && 0 <= r < |element| && element[r] == x
    {
      SearchFacts(shape, x, element);
      if root == Null {
        return Null;
      }
      var node := root;
      ghost var sub := shape;
      while node != Null
        invariant node == Ix(sub) && Wf(sub, |element|) && Linked(sub, left, right)
        invariant Search(shape, x, element) == Search(sub, x, element)
        decreases Count(sub)
      {
        var comp := CompareTo(element[node], x);
        if comp > 0 {
          node := left[node];
          sub := sub.left;
        } else if comp < 0 {
          node := right[node];
          sub := sub.right;
        } else {
          return node;
        }
      }
      return Null;
    }

    /** `contains`, which answers `false` whatever the tree holds. */
    function Contains(x: int): (r: bool)
      ensures !r
    {
      false
    }

    /**
     * `preface`: the rightmost node of the left subtree, or else the climb
     * along the parent links, which throws where `.equals` is called on a
     * missing child.  Where it does not throw it finds the predecessor.
     */
    method Preface(n: int) returns (res: Lookup)
      requires Valid() && Parented() && n in Nodes(shape)
      ensures Sub(shape, n).left != Empty ==> res == Found(Rightmost(Sub(shape, n).left))
      ensures Sub(shape, n).left == Empty ==> res == PrefaceUp(Path(shape, n), left, right)
      ensures res != NullPointer ==> res == Predecessor(shape, n)
    {
      ChildLinks(shape, n, left, right);
      SubInherits(shape, n, element, left, right);
      if left[n] != Null {
        var p := left[n];
        ghost var sub := Sub(shape, n).left;
        while right[p] != Null
          invariant sub.Node? && p == sub.id && Wf(sub, |element|) && Linked(sub, left, right)
          invariant Rightmost(sub) == Rightmost(Sub(shape, n).left)
          decreases Count(sub)
        {
          p := right[p];
          sub := sub.right;
        }
        return Found(p);
      }
      ghost var path := Path(shape, n);
      PathParents(shape, n, parent, |element|);
      PathSteps(shape, n, |element|);
      if parent[n] == Null {
        res := Nil;
      } else {
        var pp := parent[n];
        if left[pp] == Null {
          res := NullPointer;
        } else if left[pp] == n {
          var p := pp;
          ghost var j := |path| - 2;
          while parent[p] != Null
            invariant 0 <= j < |path| && p == path[j]
            invariant WalkUp(path, j, right) == PrefaceUp(path, left, right)
            decreases j
          {
            var q := parent[p];
            if right[q] == Null {
              res := NullPointer;
              return;
            }
            if right[q] == p {
              res := Found(q);
              PrefaceUpSound(shape, n, left, right);
              return;
            }
            p := q;
            j := j - 1;
          }
          res := Nil;
        } else {
          res := Found(pp);
        }
      }
      if res != NullPointer {
        PrefaceUpSound(shape, n, left, right);
      }
    }

    /**
     * What `remove(Node)` leaves behind: the victim's slot in its parent now
     * holds the victim's surviving child, or the whole tree is dropped when
     * the victim has no parent; no `parent` field and not `size` change.
     */
    twostate predicate Unlinked(n: int)
      reads this
      requires old(Valid()) && old(n in Nodes(shape))
    {
      var d := old(Victim(shape, n));
      var u := old(Survivor(Sub(shape, d)));
      && parent == old(parent) && size == old(size)
      && if d == old(root) then
           root == Null && shape == Empty && element == old(element) && left == old(left) && right == old(right)
         else
           var p := old(ParentOf(shape, d));
           && root == old(root) && shape == old(Replace(shape, d, u))
           && element == (if d == n then old(element) else old(element)[n := old(element)[d]])
           && if old(left)[p] == d then left == old(left)[p := Ix(u)] && right == old(right)
              else left == old(left) && right == old(right)[p := Ix(u)]
    }

    /**
     * `remove(Node)`: a node with two children takes its predecessor's
     * element and the predecessor is unlinked instead.  A parentless victim
     * empties the tree, even when it has a child.
     */
    method RemoveNode(n: int) returns (ok: bool)
      requires Valid() && Parented() && n in Nodes(shape)
      modifies this
      ensures ok && Valid() && Unlinked(n)
      ensures Elements() == if old(Victim(shape, n) == root) then {} else old(Elements()) - {old(element[n])}
      ensures Count(shape) == if old(Victim(shape, n) == root) then 0 else old(Count(shape)) - 1
      ensures Parented() <==> old(Victim(shape, n) == root || Survivor(Sub(shape, Victim(shape, n))) == Empty)
    {
      ghost var s, d := shape, Victim(shape, n);
      ghost var u := Survivor(Sub(s, d));
      ghost var element0, left0, right0, parent0 := element, left, right, parent;
      ChildrenMeaning(n);
      var node := n;
      if HasTwoChild(n) {
        var pre := Preface(n);
        if pre.Found? {
          element := element[n := element[pre.index]];
        }
        node := pre.index;
      }
      assert node == d && element == if d == n then element0 else element0[n := element0[d]];
      if Sub(s, n).left != Empty && Sub(s, n).right != Empty {
        CopySpliceShape(s, n);
      }
      Unlink(node);
      SpliceOutcome(s, n, element0, left0, right0, left, right);
      if d != Ix(s) {
        SpliceKeepsParents(s, d, parent);
      }
      ok := true;
    }

    /**
     * The unlinking half of `remove(Node)`: a parentless `node` drops the
     * whole tree; otherwise the slot of its parent that holds it gets its
     * child, `null` for a leaf.
     */
    method Unlink(node: int)
      requires Structured() && Parented() && node in Nodes(shape)
      requires Sub(shape, node).left == Empty || Sub(shape, node).right == Empty
      modifies this`root, this`left, this`right, this`shape
      ensures node == old(root) ==> root == Null && shape == Empty && left == old(left) && right == old(right)
      ensures node != old(root) ==>
        var u := old(Survivor(Sub(shape, node)));
        var p := old(ParentOf(shape, node));
        && root == old(root) && shape == old(Replace(shape, node, u))
        && if old(left)[p] == node then left == old(left)[p := Ix(u)] && right == old(right)
           else left == old(left) && right == old(right)[p := Ix(u)]
    {
      ghost var s := shape;
      ParentField(s, node, Null, parent);
      if parent[node] == Null {
        root := Null;
        shape := Empty;
        return;
      }
      ChildLinks(s, node, left, right);
      ChildOfParent(s, node, left, right);
      var pp := parent[node];
      if IsLeft(node) {
        if node == left[pp] {
          left := left[pp := Null];
        } else {
          right := right[pp := Null];
        }
      } else {
        var child := if left[node] != Null then left[node] else right[node];
        if node == left[pp] {
          left := left[pp := child];
        } else {
          right := right[pp := child];
        }
      }
      shape := Replace(s, node, Survivor(Sub(s, node)));
    }

    /** `remove(E)`: the node `searchNode` finds for `x` is removed; an absent `x` throws. */
    method Remove(x: int) returns (ok: bool)
      requires Valid() && Parented() && x in Elements()
      modifies this
      ensures old(Search(shape, x, element)) in old(Nodes(shape))
      ensures ok && Valid() && Unlinked(old(Search(shape, x, element)))
      ensures Elements() == if old(Victim(shape, Search(shape, x, element)) == root) then {} else old(Elements()) - {x}
    {
      var node := SearchNode(x);
      ok := RemoveNode(node);
    }

    /**
     * `preface` as intended: the same answer where there is a left subtree,
     * and otherwise a climb that stops at the first ancestor the node hangs
     * to the right of, without calling `.equals` on a missing child.
     */
    method PrefaceFixed(n: int) returns (res: Lookup)
      requires Valid() && Parented() && n in Nodes(shape)
      ensures res == Predecessor(shape, n)
    {
      ChildLinks(shape, n, left, right);
      if left[n] != Null {
        res := Preface(n);
        return;
      }
      ghost var path := Path(shape, n);
      PathParents(shape, n, parent, |element|);
      PathSteps(shape, n, |element|);
      var p := n;
      ghost var j := |path| - 1;
      while parent[p] != Null
        invariant 0 <= j < |path| && p == path[j]
        invariant UpPred(shape, n) == UpPred(shape, p)
        invariant forall k :: 0 <= k < |path| ==> 0 <= path[k]
        invariant j > 0 ==> parent[p] == path[j - 1]
        decreases j
      {
        var q := parent[p];
        assert j > 0 && q == path[j - 1];
        UpPredStep(shape, p, left, right);
        ChildOfParent(shape, p, left, right);
        if right[q] == p {
          return Found(q);
        }
        p := q;
        j := j - 1;
      }
      assert UpPred(shape, p) == Nil;
      return Nil;
    }

    /**
     * The unlinking half of `remove(Node)` as intended: the child that moves
     * up learns its new parent, and a parentless node hands the root to its
     * child instead of dropping the whole tree.
     */
    method UnlinkFixed(node: int)
      requires Structured() && Parented() && node in Nodes(shape)
      requires Sub(shape, node).left == Empty || Sub(shape, node).right == Empty
      modifies this`root, this`left, this`right, this`parent, this`shape
      ensures old(Survivor(Sub(shape, node))) != Empty ==> 0 <= old(Survivor(Sub(shape, node))).id < |old(parent)|
      ensures var u := old(Survivor(Sub(shape, node)));
        && shape == old(Replace(shape, node, u)) && root == (if node == old(root) then Ix(u) else old(root))
        && parent == if u == Empty then old(parent) else old(parent)[u.id := if node == old(root) then Null else old(ParentOf(shape, node))]
      ensures node == old(root) ==> left == old(left) && right == old(right)
      ensures node != old(root) ==>
        var u := old(Survivor(Sub(shape, node)));
        var p := old(ParentOf(shape, node));
        && root == old(root)
        && if old(left)[p] == node then left == old(left)[p := Ix(u)] && right == old(right)
           else left == old(left) && right == old(right)[p := Ix(u)]
    {
      ghost var s := shape;
      ghost var u := Survivor(Sub(s, node));
      ParentField(s, node, Null, parent);
      ChildLinks(s, node, left, right);
      var child := if left[node] != Null then left[node] else right[node];
      assert child == Ix(u) && (u != Empty ==> u.id in Nodes(Sub(s, node)));
      var pp := parent[node];
      if child != Null {
        parent := parent[child := pp];
      }
      if pp == Null {
        root := child;
      } else {
        ChildOfParent(s, node, left, right);
        if node == left[pp] {
          left := left[pp := child];
        } else {
          right := right[pp := child];
        }
      }
      shape := Replace(s, node, u);
    }

    /** `remove(Node)` as intended: the element goes, the rest stays, and `size` and the parent links follow. */
    method RemoveNodeFixed(n: int)
      requires Valid() && Parented() && n in Nodes(shape)
      modifies this
      ensures Valid() && Parented()
      ensures Elements() == old(Elements()) - {old(element[n])}
      ensures Count(shape) == old(Count(shape)) - 1 && size == old(size) - 1
    {
      ghost var s, d := shape, Victim(shape, n);
      ghost var u := Survivor(Sub(s, d));
      ghost var element0, left0, right0, parent0 := element, left, right, parent;
      ChildrenMeaning(n);
      var node := n;
      if HasTwoChild(n) {
        var pre := PrefaceFixed(n);
        element := element[n := element[pre.index]];
        node := pre.index;
        CopySpliceShape(s, n);
      }
      assert node == d && element == if d == n then element0 else element0[n := element0[d]];
      ParentField(s, d, Null, parent0);
      UnlinkFixed(node);
      size := size - 1;
      SpliceOutcome(s, n, element0, left0, right0, left, right);
      SpliceParents(s, d, u, Null, parent0, if d == Ix(s) then Null else ParentOf(s, d));
      if u == Empty {
        if d == Ix(s) {
        } else {
          CutParents(s, d, Null, parent0);
        }
      }
    }

    /** `remove(E)` on top of the intended `remove(Node)`. */
    method RemoveFixed(x: int)
      requires Valid() && Parented() && x in Elements()
      modifies this
      ensures Valid() && Parented()
      ensures Elements() == old(Elements()) - {x}
      ensures size == old(size) - 1
    {
      var node := SearchNode(x);
      RemoveNodeFixed(node);
    }
  }
}
