/**
 * What `add` does to the tree: `Attach` hangs exactly one new leaf at the
 * end of the search path, keeps the order, and adds exactly the new element;
 * an element that is already present leaves the shape as it was.
 */
module InsertFacts {
  import opened TreeShape
  import opened ShapeFacts

  /**
   * Adding an element equal to a stored one changes nothing.  A stand-alone
   * fact about the reference `Attach`: `Tree.Add` states its own early return
   * directly, by leaving the whole object unchanged.
   */
  lemma {:induction false} AttachPresent(s: Shape, x: int, k: int, element: seq<int>)
    requires Wf(s, |element|) && Ordered(s, element) && x in Elems(s, element)
    ensures Attach(s, x, k, element) == s
  {
    match s
    case Node(l, i, r) =>
      if element[i] > x {
        AttachPresent(l, x, k, element);
      } else if element[i] < x {
        AttachPresent(r, x, k, element);
      }
  }

  /** A new element in fresh cell `k`: the attached shape has exactly one more node, `k`. */
  lemma {:induction false} AttachNodes(s: Shape, x: int, k: int, element: seq<int>)
    requires Wf(s, |element|) && x !in Elems(s, element) && k == |element|
    ensures Wf(Attach(s, x, k, element), |element| + 1)
    ensures Nodes(Attach(s, x, k, element)) == Nodes(s) + {k}
    ensures Count(Attach(s, x, k, element)) == Count(s) + 1
    ensures s != Empty ==> Ix(Attach(s, x, k, element)) == Ix(s)
  {
    WithinNodes(s, |element|);
    match s
    case Empty =>
    case Node(l, i, r) =>
      if element[i] > x {
        AttachNodes(l, x, k, element);
        WithinMono(r, |element|, |element| + 1);
        WithinNodes(r, |element|);
      } else {
        AttachNodes(r, x, k, element);
        WithinMono(l, |element|, |element| + 1);
        WithinNodes(l, |element|);
      }
  }

  /** ... and exactly one more element, `x`, in the search-tree order. */
  lemma {:induction false} AttachElems(s: Shape, x: int, k: int, element: seq<int>)
    requires Wf(s, |element|) && x !in Elems(s, element) && k == |element|
    ensures Wf(Attach(s, x, k, element), |element + [x]|)
    ensures Elems(Attach(s, x, k, element), element + [x]) == Elems(s, element) + {x}
    ensures Ordered(s, element) ==> Ordered(Attach(s, x, k, element), element + [x])
  {
    var e' := element + [x];
    AttachNodes(s, x, k, element);
    match s
    case Empty =>
    case Node(l, i, r) =>
      if element[i] > x {
        AttachElems(l, x, k, element);
        WithinMono(r, |element|, |e'|);
        AgreeAppend(r, element, x);
        ElemsFrame(r, element, e');
      } else {
        AttachElems(r, x, k, element);
        WithinMono(l, |element|, |e'|);
        AgreeAppend(l, element, x);
        ElemsFrame(l, element, e');
      }
  }

  /** The search path for an absent `x` ends at a node whose slot on `x`'s side is empty. */
  lemma {:induction false} InsertionPointFacts(s: Shape, x: int, element: seq<int>, left: seq<int>, right: seq<int>)
    requires Wf(s, |element|) && Linked(s, left, right) && s != Empty && x !in Elems(s, element)
    ensures var p := InsertionPoint(s, x, element);
      0 <= p < |element| && p < |left| && p < |right| && element[p] != x
      && (element[p] > x ==> left[p] == Null) && (element[p] < x ==> right[p] == Null)
  {
    WithinNodes(s, |element|);
    match s
    case Node(l, i, r) =>
      if element[i] > x && l != Empty {
        InsertionPointFacts(l, x, element, left, right);
      } else if element[i] < x && r != Empty {
        InsertionPointFacts(r, x, element, left, right);
      }
  }

  /**
   * Linking the new leaf `k` into the slot of the insertion point on `x`'s
   * side (and nowhere else) links the attached shape.
   */
  lemma {:induction false} AttachLinked(s: Shape, x: int, k: int, element: seq<int>,
                                        left: seq<int>, right: seq<int>, left': seq<int>, right': seq<int>)
    requires Wf(s, |element|) && Linked(s, left, right) && s != Empty
    requires x !in Elems(s, element) && k == |element|
    requires k < |left'| && k < |right'| && left'[k] == Null && right'[k] == Null
    requires var p := InsertionPoint(s, x, element);
      && Agree(left, left', Nodes(s) - {p}) && Agree(right, right', Nodes(s) - {p})
      && 0 <= p < |element| && p < |left| && p < |right| && p < |left'| && p < |right'|
      && (element[p] > x ==> left'[p] == k && right'[p] == right[p])
      && (element[p] < x ==> right'[p] == k && left'[p] == left[p])
    ensures Linked(Attach(s, x, k, element), left', right')
  {
    WithinNodes(s, |element|);
    var p := InsertionPoint(s, x, element);
    match s
    case Node(l, i, r) =>
      if element[i] > x {
        assert p == i || p in Nodes(l);
        AgreeSub(left, left', Nodes(s) - {p}, Nodes(r));
        AgreeSub(right, right', Nodes(s) - {p}, Nodes(r));
        LinkedFrame(r, left, right, left', right');
        if l != Empty {
          AgreeSub(left, left', Nodes(s) - {p}, Nodes(l) - {p});
          AgreeSub(right, right', Nodes(s) - {p}, Nodes(l) - {p});
          AttachLinked(l, x, k, element, left, right, left', right');
          AttachNodes(l, x, k, element);
        }
      } else {
        assert p == i || p in Nodes(r);
        AgreeSub(left, left', Nodes(s) - {p}, Nodes(l));
        AgreeSub(right, right', Nodes(s) - {p}, Nodes(l));
        LinkedFrame(l, left, right, left', right');
        if r != Empty {
          AgreeSub(left, left', Nodes(s) - {p}, Nodes(r) - {p});
          AgreeSub(right, right', Nodes(s) - {p}, Nodes(r) - {p});
          AttachLinked(r, x, k, element, left, right, left', right');
          AttachNodes(r, x, k, element);
        }
      }
  }

  /** Giving the new leaf the insertion point as parent keeps the parent links consistent. */
  lemma {:induction false} AttachParents(s: Shape, x: int, k: int, element: seq<int>,
                                         up: int, parent: seq<int>, parent': seq<int>)
    requires Wf(s, |element|) && ParentsOk(s, up, parent) && x !in Elems(s, element) && k == |element|
    requires Agree(parent, parent', Nodes(s)) && k < |parent'|
    requires parent'[k] == if s == Empty then up else InsertionPoint(s, x, element)
    ensures ParentsOk(Attach(s, x, k, element), up, parent')
  {
    WithinNodes(s, |element|);
    match s
    case Empty =>
    case Node(l, i, r) =>
      if element[i] > x {
        AttachParents(l, x, k, element, i, parent, parent');
        ParentsFrame(r, i, parent, parent');
      } else {
        AttachParents(r, x, k, element, i, parent, parent');
        ParentsFrame(l, i, parent, parent');
      }
  }

  /**
   * `add` on a non-empty tree, all at once: a fresh cell for `x` whose parent
   * is the insertion point, linked into that node's slot on `x`'s side.
   */
  lemma AttachInto(s: Shape, x: int, element: seq<int>, left: seq<int>, right: seq<int>, parent: seq<int>)
    requires Wf(s, |element|) && Ordered(s, element) && Linked(s, left, right) && s != Empty
    requires |left| == |element| && |right| == |element| && |parent| == |element|
    requires x !in Elems(s, element)
    ensures var p := InsertionPoint(s, x, element);
      && 0 <= p < |element|
      && var k := |element|;
         var s' := Attach(s, x, k, element);
         var element' := element + [x];
         var left' := if element[p] > x then (left + [Null])[p := k] else left + [Null];
         var right' := if element[p] > x then right + [Null] else (right + [Null])[p := k];
         && Wf(s', |element'|) && (forall i :: i in Nodes(s') ==> 0 <= i < |element'|)
         && Ix(s') == Ix(s) && Count(s') == Count(s) + 1
         && Linked(s', left', right') && Ordered(s', element')
         && Elems(s', element') == Elems(s, element) + {x}
         && (ParentsOk(s, Null, parent) ==> ParentsOk(s', Null, parent + [p]))
  {
    var p := InsertionPoint(s, x, element);
    var k := |element|;
    InsertionPointFacts(s, x, element, left, right);
    AttachNodes(s, x, k, element);
    AttachElems(s, x, k, element);
    WithinNodes(s, |element|);
    var left' := if element[p] > x then (left + [Null])[p := k] else left + [Null];
    var right' := if element[p] > x then right + [Null] else (right + [Null])[p := k];
    AttachLinked(s, x, k, element, left, right, left', right');
    if ParentsOk(s, Null, parent) {
      AgreeAppend(s, parent, p);
      AttachParents(s, x, k, element, Null, parent, parent + [p]);
    }
  }
}
