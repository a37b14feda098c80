/**
 * Concrete call sequences on the tree, each with its outcome proved.
 * `MainRun` is the sequence of `BinarySearchTree.main`; the others are the
 * smallest inputs on which the code and its evident intent part ways.
 * The literal `Attach`, `InsertionPoint`, `Elems` and `Search` facts
 * before each call let the verifier evaluate the shapes.
 */
module Scenarios {
  import opened TreeShape
  import opened BinarySearchTree
  import opened RemoveFacts

  /** One `add` of an element not yet stored, with the shape it grows into and the new node's parent. */
  method Grow(t: Tree, x: int, ghost s': Shape, ghost p: int)
    requires t.Valid() && t.Parented() && x !in t.Elements()
    requires s' == Attach(t.shape, x, |t.element|, t.element) && p == InsertionPoint(t.shape, x, t.element)
    modifies t
    ensures t.Valid() && t.Parented() && t.shape == s'
    ensures t.element == old(t.element) + [x] && t.parent == old(t.parent) + [p]
    ensures t.size == old(t.size) + 1 && t.root == if p == Null then old(|t.element|) else old(t.root)
  {
    var ok := t.Add(x);
  }

  /** The first five insertions of `main`: 10, 6, 4, 16 and 7. */
  method MainTreeHalf() returns (t: Tree)
    ensures fresh(t) && t.Valid() && t.Parented()
    ensures t.shape == Node(Node(Node(Empty, 2, Empty), 1, Node(Empty, 4, Empty)), 0, Node(Empty, 3, Empty))
    ensures t.element == [10, 6, 4, 16, 7] && t.root == 0 && t.size == 5
  {
    t := LeftChain();
    assert 16 !in Elems(Node(Node(Node(Empty, 2, Empty), 1, Empty), 0, Empty), [10, 6, 4]);
    assert Attach(Node(Node(Node(Empty, 2, Empty), 1, Empty), 0, Empty), 16, 3, [10, 6, 4]) == Node(Node(Node(Empty, 2, Empty), 1, Empty), 0, Node(Empty, 3, Empty));
    assert InsertionPoint(Node(Node(Node(Empty, 2, Empty), 1, Empty), 0, Empty), 16, [10, 6, 4]) == 0;
    Grow(t, 16, Node(Node(Node(Empty, 2, Empty), 1, Empty), 0, Node(Empty, 3, Empty)), 0);
    assert t.element == [10, 6, 4, 16];
    assert 7 !in Elems(Node(Node(Node(Empty, 2, Empty), 1, Empty), 0, Node(Empty, 3, Empty)), [10, 6, 4, 16]);
    assert Attach(Node(Node(Node(Empty, 2, Empty), 1, Empty), 0, Node(Empty, 3, Empty)), 7, 4, [10, 6, 4, 16]) == Node(Node(Node(Empty, 2, Empty), 1, Node(Empty, 4, Empty)), 0, Node(Empty, 3, Empty));
    assert InsertionPoint(Node(Node(Node(Empty, 2, Empty), 1, Empty), 0, Node(Empty, 3, Empty)), 7, [10, 6, 4, 16]) == 1;
    Grow(t, 7, Node(Node(Node(Empty, 2, Empty), 1, Node(Empty, 4, Empty)), 0, Node(Empty, 3, Empty)), 1);
    assert t.element == [10, 6, 4, 16, 7];
  }

  /** The tree `main` builds by inserting 10, 6, 4, 16, 7, 12 and 20. */
  method MainTree() returns (t: Tree)
    ensures fresh(t) && t.Valid() && t.Parented()
    ensures t.shape == Node(Node(Node(Empty, 2, Empty), 1, Node(Empty, 4, Empty)), 0, Node(Node(Empty, 5, Empty), 3, Node(Empty, 6, Empty)))
    ensures t.element == [10, 6, 4, 16, 7, 12, 20] && t.root == 0 && t.size == 7
  {
    t := MainTreeHalf();
    assert 12 !in Elems(Node(Node(Node(Empty, 2, Empty), 1, Node(Empty, 4, Empty)), 0, Node(Empty, 3, Empty)), [10, 6, 4, 16, 7]);
    assert Attach(Node(Node(Node(Empty, 2, Empty), 1, Node(Empty, 4, Empty)), 0, Node(Empty, 3, Empty)), 12, 5, [10, 6, 4, 16, 7]) == Node(Node(Node(Empty, 2, Empty), 1, Node(Empty, 4, Empty)), 0, Node(Node(Empty, 5, Empty), 3, Empty));
    assert InsertionPoint(Node(Node(Node(Empty, 2, Empty), 1, Node(Empty, 4, Empty)), 0, Node(Empty, 3, Empty)), 12, [10, 6, 4, 16, 7]) == 3;
    Grow(t, 12, Node(Node(Node(Empty, 2, Empty), 1, Node(Empty, 4, Empty)), 0, Node(Node(Empty, 5, Empty), 3, Empty)), 3);
    assert t.element == [10, 6, 4, 16, 7, 12];
    assert 20 !in Elems(Node(Node(Node(Empty, 2, Empty), 1, Node(Empty, 4, Empty)), 0, Node(Node(Empty, 5, Empty), 3, Empty)), [10, 6, 4, 16, 7, 12]);
    assert Attach(Node(Node(Node(Empty, 2, Empty), 1, Node(Empty, 4, Empty)), 0, Node(Node(Empty, 5, Empty), 3, Empty)), 20, 6, [10, 6, 4, 16, 7, 12]) == Node(Node(Node(Empty, 2, Empty), 1, Node(Empty, 4, Empty)), 0, Node(Node(Empty, 5, Empty), 3, Node(Empty, 6, Empty)));
    assert InsertionPoint(Node(Node(Node(Empty, 2, Empty), 1, Node(Empty, 4, Empty)), 0, Node(Node(Empty, 5, Empty), 3, Empty)), 20, [10, 6, 4, 16, 7, 12]) == 3;
    Grow(t, 20, Node(Node(Node(Empty, 2, Empty), 1, Node(Empty, 4, Empty)), 0, Node(Node(Empty, 5, Empty), 3, Node(Empty, 6, Empty))), 3);
    assert t.element == [10, 6, 4, 16, 7, 12, 20];
  }

  /** In `main`'s tree, 10 sits at the root; its predecessor 7 is the leaf 4, whose removal leaves the second shape. */
  lemma MainRemovalSite()
    ensures 10 in Elems(Node(Node(Node(Empty, 2, Empty), 1, Node(Empty, 4, Empty)), 0, Node(Node(Empty, 5, Empty), 3, Node(Empty, 6, Empty))), [10, 6, 4, 16, 7, 12, 20]) && Search(Node(Node(Node(Empty, 2, Empty), 1, Node(Empty, 4, Empty)), 0, Node(Node(Empty, 5, Empty), 3, Node(Empty, 6, Empty))), 10, [10, 6, 4, 16, 7, 12, 20]) == 0
    ensures Victim(Node(Node(Node(Empty, 2, Empty), 1, Node(Empty, 4, Empty)), 0, Node(Node(Empty, 5, Empty), 3, Node(Empty, 6, Empty))), 0) == 4 && Survivor(Sub(Node(Node(Node(Empty, 2, Empty), 1, Node(Empty, 4, Empty)), 0, Node(Node(Empty, 5, Empty), 3, Node(Empty, 6, Empty))), 4)) == Empty
    ensures Replace(Node(Node(Node(Empty, 2, Empty), 1, Node(Empty, 4, Empty)), 0, Node(Node(Empty, 5, Empty), 3, Node(Empty, 6, Empty))), 4, Empty) == Node(Node(Node(Empty, 2, Empty), 1, Empty), 0, Node(Node(Empty, 5, Empty), 3, Node(Empty, 6, Empty)))
  {
  }

  /** `main`'s `remove(10)`: 7, the predecessor, moves into the root and its leaf is unlinked. */
  method MainRemoved() returns (t: Tree)
    ensures fresh(t) && t.Valid()
    ensures t.shape == Node(Node(Node(Empty, 2, Empty), 1, Empty), 0, Node(Node(Empty, 5, Empty), 3, Node(Empty, 6, Empty)))
    ensures t.element == [7, 6, 4, 16, 7, 12, 20] && t.root == 0 && t.size == 7
  {
    t := MainTree();
    MainRemovalSite();
    var ok := t.Remove(10);
  }

  /** `main`: after the removal the root holds 7, 10 is gone, and `size` still counts seven. */
  method MainRun() returns (rootElement: int, has10: bool, has7: bool, count: int, ghost inOrder: seq<int>)
    ensures rootElement == 7 && !has10 && has7 && count == 7 && inOrder == [4, 6, 7, 12, 16, 20]
  {
    var t := MainRemoved();
    rootElement := t.element[t.root];
    assert Search(Node(Node(Node(Empty, 2, Empty), 1, Empty), 0, Node(Node(Empty, 5, Empty), 3, Node(Empty, 6, Empty))), 10, [7, 6, 4, 16, 7, 12, 20]) == Null;
    assert Search(Node(Node(Node(Empty, 2, Empty), 1, Empty), 0, Node(Node(Empty, 5, Empty), 3, Node(Empty, 6, Empty))), 7, [7, 6, 4, 16, 7, 12, 20]) == 0;
    var node10 := t.SearchNode(10);
    has10 := node10 != Null;
    var node7 := t.SearchNode(7);
    has7 := node7 != Null;
    count := t.size;
    assert InOrder(Node(Node(Node(Empty, 2, Empty), 1, Empty), 0, Node(Node(Empty, 5, Empty), 3, Node(Empty, 6, Empty))), [7, 6, 4, 16, 7, 12, 20]) == [4, 6, 7, 12, 16, 20];
    inOrder := t.Sequence();
  }

  /** `contains(5)` answers `false` right after `add(5)`. */
  method ContainsAfterAdd() returns (stored: bool, answered: bool)
    ensures stored && !answered
  {
    var t := new Tree();
    assert 5 !in Elems(Empty, []);
    assert Attach(Empty, 5, 0, []) == Node(Empty, 0, Empty);
    assert InsertionPoint(Empty, 5, []) == Null;
    Grow(t, 5, Node(Empty, 0, Empty), Null);
    assert t.element == [5];
    assert Search(Node(Empty, 0, Empty), 5, [5]) == 0;
    var node := t.SearchNode(5);
    stored := node != Null;
    answered := t.Contains(5);
  }

  /** The tree of `add(10)` alone. */
  method Single() returns (t: Tree)
    ensures fresh(t) && t.Valid() && t.Parented()
    ensures t.shape == Node(Empty, 0, Empty) && t.element == [10] && t.parent == [Null] && t.size == 1
  {
    t := new Tree();
    assert 10 !in Elems(Empty, []);
    assert Attach(Empty, 10, 0, []) == Node(Empty, 0, Empty);
    assert InsertionPoint(Empty, 10, []) == Null;
    Grow(t, 10, Node(Empty, 0, Empty), Null);
    assert t.element == [10];
  }

  /** The tree of `add(10)`, `add(16)`: a root with a right child. */
  method RootAndRightChild() returns (t: Tree)
    ensures fresh(t) && t.Valid() && t.Parented()
    ensures t.shape == Node(Empty, 0, Node(Empty, 1, Empty)) && t.element == [10, 16] && t.parent == [Null, 0]
  {
    t := new Tree();
    assert 10 !in Elems(Empty, []);
    assert Attach(Empty, 10, 0, []) == Node(Empty, 0, Empty);
    assert InsertionPoint(Empty, 10, []) == Null;
    Grow(t, 10, Node(Empty, 0, Empty), Null);
    assert t.element == [10];
    assert 16 !in Elems(Node(Empty, 0, Empty), [10]);
    assert Attach(Node(Empty, 0, Empty), 16, 1, [10]) == Node(Empty, 0, Node(Empty, 1, Empty));
    assert InsertionPoint(Node(Empty, 0, Empty), 16, [10]) == 0;
    Grow(t, 16, Node(Empty, 0, Node(Empty, 1, Empty)), 0);
    assert t.element == [10, 16];
  }

  /** The tree of `add(10)`, `add(6)`, `add(4)`: a chain of left children. */
  method LeftChain() returns (t: Tree)
    ensures fresh(t) && t.Valid() && t.Parented()
    ensures t.shape == Node(Node(Node(Empty, 2, Empty), 1, Empty), 0, Empty) && t.element == [10, 6, 4] && t.parent == [Null, 0, 1]
    ensures t.root == 0 && t.size == 3
  {
    t := new Tree();
    assert 10 !in Elems(Empty, []);
    assert Attach(Empty, 10, 0, []) == Node(Empty, 0, Empty);
    assert InsertionPoint(Empty, 10, []) == Null;
    Grow(t, 10, Node(Empty, 0, Empty), Null);
    assert t.element == [10];
    assert 6 !in Elems(Node(Empty, 0, Empty), [10]);
    assert Attach(Node(Empty, 0, Empty), 6, 1, [10]) == Node(Node(Empty, 1, Empty), 0, Empty);
    assert InsertionPoint(Node(Empty, 0, Empty), 6, [10]) == 0;
    Grow(t, 6, Node(Node(Empty, 1, Empty), 0, Empty), 0);
    assert t.element == [10, 6];
    assert 4 !in Elems(Node(Node(Empty, 1, Empty), 0, Empty), [10, 6]);
    assert Attach(Node(Node(Empty, 1, Empty), 0, Empty), 4, 2, [10, 6]) == Node(Node(Node(Empty, 2, Empty), 1, Empty), 0, Empty);
    assert InsertionPoint(Node(Node(Empty, 1, Empty), 0, Empty), 4, [10, 6]) == 1;
    Grow(t, 4, Node(Node(Node(Empty, 2, Empty), 1, Empty), 0, Empty), 1);
    assert t.element == [10, 6, 4];
  }

  /** Removing a root that has one child drops the child too; the intended removal keeps it. */
  method RemoveRootWithChild() returns (before: bool, after: bool, afterFixed: bool)
    ensures before && !after && afterFixed
  {
    var t := RootAndRightChild();
    assert Search(Node(Empty, 0, Node(Empty, 1, Empty)), 16, [10, 16]) == 1;
    assert Search(Node(Empty, 0, Node(Empty, 1, Empty)), 10, [10, 16]) == 0;
    assert 10 in Elems(Node(Empty, 0, Node(Empty, 1, Empty)), [10, 16]);
    var node := t.SearchNode(16);
    before := node != Null;
    var ok := t.Remove(10);
    node := t.SearchNode(16);
    after := node != Null;
    var u := RootAndRightChild();
    u.RemoveFixed(10);
    assert 16 in u.Elements();
    node := u.SearchNode(16);
    afterFixed := node != Null;
  }

  /** `size` still counts a removed element; the intended removal gives 0. */
  method SizeAfterRemove() returns (size: int, empty: bool, sizeFixed: int)
    ensures size == 1 && empty && sizeFixed == 0
  {
    var t := Single();
    assert 10 in Elems(Node(Empty, 0, Empty), [10]);
    assert Search(Node(Empty, 0, Empty), 10, [10]) == 0;
    var ok := t.Remove(10);
    size := t.size;
    empty := t.root == Null;
    var u := Single();
    u.RemoveFixed(10);
    sizeFixed := u.size;
  }

  /** After removing 6 from 10, 6, 4, the node holding 4 still names the removed node as its parent. */
  method StaleParent() returns (upElement: int, upStored: bool)
    ensures upElement == 6 && !upStored
  {
    var t := LeftChain();
    assert 6 in Elems(Node(Node(Node(Empty, 2, Empty), 1, Empty), 0, Empty), [10, 6, 4]);
    assert Search(Node(Node(Node(Empty, 2, Empty), 1, Empty), 0, Empty), 6, [10, 6, 4]) == 1;
    var ok := t.Remove(6);
    assert t.shape == Node(Node(Empty, 2, Empty), 0, Empty);
    assert Search(Node(Node(Empty, 2, Empty), 0, Empty), 4, [10, 6, 4]) == 2;
    assert Search(Node(Node(Empty, 2, Empty), 0, Empty), 6, [10, 6, 4]) == Null;
    var n4 := t.SearchNode(4);
    var up := t.parent[n4];
    upElement := t.element[up];
    var upNode := t.SearchNode(upElement);
    upStored := upNode != Null;
  }

  /** `preface` of a right child without a left sibling throws; its predecessor is the parent. */
  method PrefaceOfLoneRightChild() returns (asWritten: Lookup, intended: Lookup)
    ensures asWritten == NullPointer && intended == Found(0)
  {
    var t := RootAndRightChild();
    assert Search(Node(Empty, 0, Node(Empty, 1, Empty)), 16, [10, 16]) == 1;
    var n16 := t.SearchNode(16);
    asWritten := t.Preface(n16);
    intended := t.PrefaceFixed(n16);
  }

  /** `preface` of a left child whose parent is a left child without a right sibling throws; it holds the least element. */
  method PrefaceOfLeftChain() returns (asWritten: Lookup, intended: Lookup)
    ensures asWritten == NullPointer && intended == Nil
  {
    var t := LeftChain();
    assert Search(Node(Node(Node(Empty, 2, Empty), 1, Empty), 0, Empty), 4, [10, 6, 4]) == 2;
    var n4 := t.SearchNode(4);
    asWritten := t.Preface(n4);
    intended := t.PrefaceFixed(n4);
  }
}
