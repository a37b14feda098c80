/**
 * What `remove` does to the tree: the node it unlinks is replaced, in its
 * parent's slot, by its surviving child.  `Replace` is that relinking on
 * shapes; the lemmas say which nodes, elements and links result.
 */
module RemoveFacts {
  import opened TreeShape
  import opened ShapeFacts

  lemma {:induction false} ReplaceAbsent(s: Shape, n: int, t: Shape)
    requires n !in Nodes(s)
    ensures Replace(s, n, t) == s
  {
    match s
    case Empty =>
    case Node(l, i, r) => ReplaceAbsent(l, n, t); ReplaceAbsent(r, n, t);
  }

  /** Replacing a subtree by `t`: the nodes outside the subtree stay, `t`'s come in. */
  lemma {:induction false} ReplaceNodes(s: Shape, n: int, t: Shape)
    requires Distinct(s) && n in Nodes(s)
    ensures Nodes(Replace(s, n, t)) == Nodes(s) - Nodes(Sub(s, n)) + Nodes(t)
    ensures Count(Replace(s, n, t)) == Count(s) - Count(Sub(s, n)) + Count(t)
    ensures n != Ix(s) ==> Ix(Replace(s, n, t)) == Ix(s)
  {
    match s
    case Node(l, i, r) =>
      if i == n {
      } else if n in Nodes(l) {
        assert Sub(s, n) == Sub(l, n);
        ReplaceNodes(l, n, t);
        ReplaceAbsent(r, n, t);
        SubCount(l, n);
        SetSplice(Nodes(l), i, Nodes(r), Nodes(Replace(l, n, t)), Nodes(Sub(s, n)), Nodes(t));
      } else {
        assert Sub(s, n) == Sub(r, n);
        ReplaceNodes(r, n, t);
        ReplaceAbsent(l, n, t);
        SubCount(r, n);
        SetSplice'(Nodes(l), i, Nodes(r), Nodes(Replace(r, n, t)), Nodes(Sub(s, n)), Nodes(t));
      }
  }

  lemma {:induction false} SubCount(s: Shape, n: int)
    requires n in Nodes(s)
    ensures Count(Sub(s, n)) <= Count(s)
  {
    match s
    case Node(l, i, r) =>
      if n == i {
      } else if n in Nodes(l) {
        SubCount(l, n);
      } else {
        SubCount(r, n);
      }
  }

  /** Replacing a subtree by a tree made of its own nodes keeps the shape well formed. */
  lemma {:induction false} ReplaceWf(s: Shape, n: int, t: Shape, m: int)
    requires Wf(s, m) && n in Nodes(s) && Distinct(t) && Nodes(t) <= Nodes(Sub(s, n))
    ensures Wf(Replace(s, n, t), m)
    ensures Nodes(Replace(s, n, t)) <= Nodes(s)
  {
    match s
    case Node(l, i, r) =>
      if i == n {
        WithinNodes(s, m);
        NodesWithin(t, m);
      } else if n in Nodes(l) {
        assert Sub(s, n) == Sub(l, n);
        ReplaceWf(l, n, t, m);
        ReplaceAbsent(r, n, t);
      } else {
        assert Sub(s, n) == Sub(r, n);
        ReplaceWf(r, n, t, m);
        ReplaceAbsent(l, n, t);
      }
  }

  lemma SetSplice(a: set<int>, e: int, b: set<int>, a': set<int>, sub: set<int>, t: set<int>)
    requires a' == a - sub + t && sub <= a && e !in sub && sub !! b
    ensures a' + {e} + b == (a + {e} + b) - sub + t
  {
  }

  lemma SetSplice'(a: set<int>, e: int, b: set<int>, b': set<int>, sub: set<int>, t: set<int>)
    requires b' == b - sub + t && sub <= b && e !in sub && sub !! a
    ensures a + {e} + b' == (a + {e} + b) - sub + t
  {
  }

  /**
   * Replacing a subtree, with element cells changed only inside it: the
   * elements outside the subtree stay and `t`'s come in.
   */
  lemma {:induction false} ReplaceElems(s: Shape, n: int, t: Shape, element: seq<int>, element': seq<int>)
    requires Wf(s, |element|) && Ordered(s, element) && n in Nodes(s)
    requires Wf(Sub(s, n), |element|) && Wf(t, |element'|) && Nodes(t) <= Nodes(Sub(s, n))
    requires |element'| == |element| && Agree(element, element', Nodes(s) - Nodes(Sub(s, n)))
    ensures Wf(Replace(s, n, t), |element'|)
    ensures Elems(Replace(s, n, t), element') == Elems(s, element) - Elems(Sub(s, n), element) + Elems(t, element')
  {
    ReplaceWf(s, n, t, |element|);
    match s
    case Node(l, i, r) =>
      if i == n {
      } else if n in Nodes(l) {
        assert Sub(s, n) == Sub(l, n);
        SubInherits(l, n, element, [], []);
        AgreeSub(element, element', Nodes(s) - Nodes(Sub(s, n)), Nodes(l) - Nodes(Sub(l, n)));
        AgreeSub(element, element', Nodes(s) - Nodes(Sub(s, n)), Nodes(r));
        assert i in Nodes(s) - Nodes(Sub(s, n));
        ReplaceElems(l, n, t, element, element');
        ReplaceAbsent(r, n, t);
        ElemsFrame(r, element, element');
        var S := Elems(Sub(s, n), element);
        assert forall y :: y in S ==> y < element[i];
        SetSplice(Elems(l, element), element[i], Elems(r, element), Elems(Replace(l, n, t), element'), S, Elems(t, element'));
      } else {
        assert Sub(s, n) == Sub(r, n);
        SubInherits(r, n, element, [], []);
        AgreeSub(element, element', Nodes(s) - Nodes(Sub(s, n)), Nodes(r) - Nodes(Sub(r, n)));
        AgreeSub(element, element', Nodes(s) - Nodes(Sub(s, n)), Nodes(l));
        assert i in Nodes(s) - Nodes(Sub(s, n));
        ReplaceElems(r, n, t, element, element');
        ReplaceAbsent(l, n, t);
        ElemsFrame(l, element, element');
        var S := Elems(Sub(s, n), element);
        assert forall y :: y in S ==> element[i] < y;
        SetSplice'(Elems(l, element), element[i], Elems(r, element), Elems(Replace(r, n, t), element'), S, Elems(t, element'));
      }
  }

  /** ... and the order survives when `t` is ordered and holds only elements of the subtree. */
  lemma {:induction false} ReplaceOrdered(s: Shape, n: int, t: Shape, element: seq<int>, element': seq<int>)
    requires Wf(s, |element|) && Ordered(s, element) && n in Nodes(s)
    requires Wf(Sub(s, n), |element|) && Wf(t, |element'|) && Nodes(t) <= Nodes(Sub(s, n))
    requires |element'| == |element| && Agree(element, element', Nodes(s) - Nodes(Sub(s, n)))
    requires Ordered(t, element') && Elems(t, element') <= Elems(Sub(s, n), element)
    ensures Wf(Replace(s, n, t), |element'|) && Ordered(Replace(s, n, t), element')
  {
    ReplaceWf(s, n, t, |element|);
    match s
    case Node(l, i, r) =>
      if i == n {
      } else if n in Nodes(l) {
        assert Sub(s, n) == Sub(l, n);
        SubInherits(l, n, element, [], []);
        AgreeSub(element, element', Nodes(s) - Nodes(Sub(s, n)), Nodes(l) - Nodes(Sub(l, n)));
        AgreeSub(element, element', Nodes(s) - Nodes(Sub(s, n)), Nodes(r));
        assert i in Nodes(s) - Nodes(Sub(s, n));
        ReplaceOrdered(l, n, t, element, element');
        ReplaceElems(l, n, t, element, element');
        ReplaceAbsent(r, n, t);
        ElemsFrame(r, element, element');
        assert Elems(Replace(l, n, t), element') <= Elems(l, element) && element'[i] == element[i];
      } else {
        assert Sub(s, n) == Sub(r, n);
        SubInherits(r, n, element, [], []);
        AgreeSub(element, element', Nodes(s) - Nodes(Sub(s, n)), Nodes(r) - Nodes(Sub(r, n)));
        AgreeSub(element, element', Nodes(s) - Nodes(Sub(s, n)), Nodes(l));
        assert i in Nodes(s) - Nodes(Sub(s, n));
        ReplaceOrdered(r, n, t, element, element');
        ReplaceElems(r, n, t, element, element');
        ReplaceAbsent(l, n, t);
        ElemsFrame(l, element, element');
        assert Elems(Replace(r, n, t), element') <= Elems(r, element) && element'[i] == element[i];
      }
  }

  /**
   * Writing the surviving child `t` into the parent's slot that held `d`,
   * and changing nothing else, links the replaced shape.
   */
  lemma {:induction false} ReplaceLinked(s: Shape, d: int, t: Shape, left: seq<int>, right: seq<int>,
                                         left': seq<int>, right': seq<int>)
    requires Wf(s, |left|) && Linked(s, left, right) && d in Nodes(s) && d != Ix(s)
    requires Nodes(t) <= Nodes(Sub(s, d)) && Linked(t, left, right)
    requires var p := ParentOf(s, d);
      && Agree(left, left', Nodes(s) - {p}) && Agree(right, right', Nodes(s) - {p})
      && 0 <= p < |left| && p < |right| && p < |left'| && p < |right'|
      && (left[p] == d ==> left'[p] == Ix(t) && right'[p] == right[p])
      && (left[p] != d ==> right'[p] == Ix(t) && left'[p] == left[p])
    ensures Linked(Replace(s, d, t), left', right')
  {
    WithinNodes(s, |left|);
    var p := ParentOf(s, d);
    match s
    case Node(l, i, r) =>
      if d == Ix(l) || d == Ix(r) {
        assert p == i;
        if d == Ix(l) {
          assert Sub(s, d) == l;
          ReplaceAbsent(r, d, t);
        } else {
          assert Sub(s, d) == r;
          ReplaceAbsent(l, d, t);
        }
        AgreeSub(left, left', Nodes(s) - {p}, Nodes(t));
        AgreeSub(right, right', Nodes(s) - {p}, Nodes(t));
        LinkedFrame(t, left, right, left', right');
        AgreeSub(left, left', Nodes(s) - {p}, Nodes(l));
        AgreeSub(right, right', Nodes(s) - {p}, Nodes(l));
        AgreeSub(left, left', Nodes(s) - {p}, Nodes(r));
        AgreeSub(right, right', Nodes(s) - {p}, Nodes(r));
        if d == Ix(l) {
          LinkedFrame(r, left, right, left', right');
        } else {
          LinkedFrame(l, left, right, left', right');
        }
      } else if d in Nodes(l) {
        assert Sub(s, d) == Sub(l, d) && p == ParentOf(l, d);
        AgreeSub(left, left', Nodes(s) - {p}, Nodes(l) - {p});
        AgreeSub(right, right', Nodes(s) - {p}, Nodes(l) - {p});
        ReplaceLinked(l, d, t, left, right, left', right');
        ReplaceNodes(l, d, t);
        ReplaceAbsent(r, d, t);
        AgreeSub(left, left', Nodes(s) - {p}, Nodes(r));
        AgreeSub(right, right', Nodes(s) - {p}, Nodes(r));
        LinkedFrame(r, left, right, left', right');
      } else {
        assert Sub(s, d) == Sub(r, d) && p == ParentOf(r, d);
        AgreeSub(left, left', Nodes(s) - {p}, Nodes(r) - {p});
        AgreeSub(right, right', Nodes(s) - {p}, Nodes(r) - {p});
        ReplaceLinked(r, d, t, left, right, left', right');
        ReplaceNodes(r, d, t);
        ReplaceAbsent(l, d, t);
        AgreeSub(left, left', Nodes(s) - {p}, Nodes(l));
        AgreeSub(right, right', Nodes(s) - {p}, Nodes(l));
        LinkedFrame(l, left, right, left', right');
      }
  }

  /** Cutting a subtree off leaves every remaining parent link as it was, so still consistent. */
  lemma {:induction false} CutParents(s: Shape, d: int, up: int, parent: seq<int>)
    requires ParentsOk(s, up, parent)
    ensures ParentsOk(Replace(s, d, Empty), up, parent)
  {
    match s
    case Empty =>
    case Node(l, i, r) =>
      if i != d {
        CutParents(l, d, i, parent);
        CutParents(r, d, i, parent);
      }
  }

  /** The rightmost node holds the maximum; without it the shape holds exactly the rest. */
  lemma {:induction false} RemoveMaxFacts(t: Shape, element: seq<int>)
    requires t.Node? && Wf(t, |element|) && Ordered(t, element)
    ensures var q := Rightmost(t);
      && 0 <= q < |element| && element[q] in Elems(t, element)
      && (forall y :: y in Elems(t, element) ==> y <= element[q])
      && Wf(RemoveMax(t), |element|)
      && Nodes(RemoveMax(t)) == Nodes(t) - {q}
      && Count(RemoveMax(t)) == Count(t) - 1
      && Ordered(RemoveMax(t), element)
      && Elems(RemoveMax(t), element) == Elems(t, element) - {element[q]}
      && (forall y :: y in Elems(RemoveMax(t), element) ==> y < element[q])
  {
    WithinNodes(t, |element|);
    match t
    case Node(a, i, b) =>
      if b != Empty {
        RemoveMaxFacts(b, element);
      }
  }

  /** Removing the maximum is splicing the rightmost node out of its parent's slot. */
  lemma {:induction false} RemoveMaxIsReplace(t: Shape)
    requires t.Node? && Distinct(t)
    ensures Sub(t, Rightmost(t)).right == Empty
    ensures RemoveMax(t) == Replace(t, Rightmost(t), Survivor(Sub(t, Rightmost(t))))
  {
    match t
    case Node(a, i, b) =>
      if b != Empty {
        var q := Rightmost(b);
        assert Sub(t, q) == Sub(b, q);
        RemoveMaxIsReplace(b);
        ReplaceAbsent(a, q, Survivor(Sub(t, q)));
      }
  }

  /** Replacing deep inside the subtree at `n` is replacing at `n` by the rebuilt subtree. */
  lemma {:induction false} ReplaceNested(s: Shape, n: int, q: int, u: Shape)
    requires Distinct(s) && n in Nodes(s) && q in Nodes(Sub(s, n))
    ensures q in Nodes(s) && Sub(s, q) == Sub(Sub(s, n), q)
    ensures Replace(s, q, u) == Replace(s, n, Replace(Sub(s, n), q, u))
  {
    match s
    case Node(l, i, r) =>
      if i == n {
      } else if n in Nodes(l) {
        ReplaceNested(l, n, q, u);
        ReplaceAbsent(r, q, u);
        ReplaceAbsent(r, n, Replace(Sub(s, n), q, u));
      } else {
        ReplaceNested(r, n, q, u);
        ReplaceAbsent(l, q, u);
        ReplaceAbsent(l, n, Replace(Sub(s, n), q, u));
      }
  }

  lemma SetCut(all: set<int>, a: set<int>, e: int, b: set<int>, u: set<int>)
    requires a + {e} + b <= all && e !in a && e !in b && ((u == a && b == {}) || (u == b && a == {}))
    ensures all - (a + {e} + b) + u == all - {e}
  {
  }

  lemma SetCopy(all: set<int>, a: set<int>, e: int, b: set<int>)
    requires a + {e} + b <= all && e !in a && e !in b
    ensures all - (a + {e} + b) + (a + b) == all - {e}
  {
  }

  /**
   * Unlinking a node with at most one child, its child taking its place:
   * the tree stays ordered and loses exactly that node's element.
   */
  lemma {:induction false} SpliceFacts(s: Shape, d: int, element: seq<int>)
    requires Wf(s, |element|) && Ordered(s, element) && d in Nodes(s)
    requires Sub(s, d).left == Empty || Sub(s, d).right == Empty
    ensures var s' := Replace(s, d, Survivor(Sub(s, d)));
      && 0 <= d < |element|
      && Wf(s', |element|) && Ordered(s', element)
      && Elems(s', element) == Elems(s, element) - {element[d]}
      && Count(s') == Count(s) - 1
      && (d != Ix(s) ==> Ix(s') == Ix(s))
  {
    WithinNodes(s, |element|);
    SubInherits(s, d, element, [], []);
    var t := Sub(s, d);
    var u := Survivor(t);
    assert Nodes(u) <= Nodes(t);
    AgreeSub(element, element, Nodes(s), Nodes(s) - Nodes(t));
    ReplaceElems(s, d, u, element, element);
    ReplaceOrdered(s, d, u, element, element);
    ReplaceNodes(s, d, u);
    SetCut(Elems(s, element), Elems(t.left, element), element[d], Elems(t.right, element), Elems(u, element));
  }

  /** The predecessor splice, seen from the node: its subtree is rebuilt without the maximum of the left side. */
  lemma {:induction false} CopySpliceShape(s: Shape, n: int)
    requires Distinct(s) && n in Nodes(s)
    requires Sub(s, n).left != Empty && Sub(s, n).right != Empty
    ensures var t0 := Sub(s, n); var q := Rightmost(t0.left);
      && q != n && q in Nodes(t0.left) && q in Nodes(s) && Sub(s, q).right == Empty
      && Replace(s, q, Survivor(Sub(s, q))) == Replace(s, n, Node(RemoveMax(t0.left), n, t0.right))
  {
    var t0 := Sub(s, n);
    var l0, r0 := t0.left, t0.right;
    var q := Rightmost(l0);
    SubDistinct(s, n);
    RemoveMaxIsReplace(l0);
    var u := Survivor(Sub(l0, q));
    assert q != n && q !in Nodes(r0);
    assert Sub(t0, q) == Sub(l0, q);
    ReplaceNested(s, n, q, u);
    ReplaceAbsent(r0, q, u);
    assert Replace(t0, q, u) == Node(RemoveMax(l0), n, r0);
  }

  lemma {:induction false} SubDistinct(s: Shape, n: int)
    requires Distinct(s) && n in Nodes(s)
    ensures Distinct(Sub(s, n))
  {
    match s
    case Node(l, i, r) =>
      if n == i {
      } else if n in Nodes(l) {
        SubDistinct(l, n);
      } else {
        SubDistinct(r, n);
      }
  }

  /**
   * The two-children case: the node takes its predecessor's element and the
   * predecessor (the rightmost node of the left subtree) is spliced out.
   * The tree stays ordered and loses exactly the node's old element.
   */
  lemma {:induction false} CopySpliceFacts(s: Shape, n: int, element: seq<int>)
    requires Wf(s, |element|) && Ordered(s, element) && n in Nodes(s)
    requires Sub(s, n).left != Empty && Sub(s, n).right != Empty
    ensures var q := Rightmost(Sub(s, n).left);
      && 0 <= n < |element| && 0 <= q < |element| && q != n
      && q in Nodes(Sub(s, n).left) && Sub(s, q).right == Empty
      && var s' := Replace(s, q, Survivor(Sub(s, q)));
         var element' := element[n := element[q]];
         && Wf(s', |element'|) && Ordered(s', element')
         && Elems(s', element') == Elems(s, element) - {element[n]}
         && Count(s') == Count(s) - 1
         && Ix(s') == Ix(s)
  {
    WithinNodes(s, |element|);
    SubInherits(s, n, element, [], []);
    CopySpliceShape(s, n);
    var t0 := Sub(s, n);
    var l0, r0 := t0.left, t0.right;
    var q := Rightmost(l0);
    CopyTree(t0, element);
    var t := Node(RemoveMax(l0), n, r0);
    var element' := element[n := element[q]];
    assert Agree(element, element', Nodes(s) - Nodes(t0));
    ReplaceElems(s, n, t, element, element');
    ReplaceOrdered(s, n, t, element, element');
    ReplaceNodes(s, n, t);
    SubCount(s, n);
    SetCopy(Elems(s, element), Elems(l0, element), element[n], Elems(r0, element));
  }

  /** The node's subtree rebuilt with the predecessor's element and without the predecessor. */
  lemma {:induction false} CopyTree(t0: Shape, element: seq<int>)
    requires t0.Node? && t0.left != Empty && Wf(t0, |element|) && Ordered(t0, element)
    ensures var q := Rightmost(t0.left);
      && 0 <= t0.id < |element| && 0 <= q < |element|
      && var t := Node(RemoveMax(t0.left), t0.id, t0.right);
         var element' := element[t0.id := element[q]];
         && Wf(t, |element'|) && Ordered(t, element')
         && Nodes(t) == Nodes(t0) - {q} && Count(t) == Count(t0) - 1
         && Elems(t, element') == Elems(t0.left, element) + Elems(t0.right, element)
         && element[t0.id] !in Elems(t0.left, element) && element[t0.id] !in Elems(t0.right, element)
  {
    var l0, n, r0 := t0.left, t0.id, t0.right;
    var q := Rightmost(l0);
    RemoveMaxFacts(l0, element);
    var m := RemoveMax(l0);
    var element' := element[n := element[q]];
    assert n !in Nodes(m) && n !in Nodes(r0);
    WriteOutside(m, element, n, element[q]);
    WriteOutside(r0, element, n, element[q]);
    assert element[q] in Elems(l0, element);
  }

  /** Writing an element cell outside a shape changes none of its elements or its order. */
  lemma WriteOutside(t: Shape, element: seq<int>, n: int, v: int)
    requires Wf(t, |element|) && 0 <= n < |element| && n !in Nodes(t)
    ensures Wf(t, |element[n := v]|)
    ensures Elems(t, element[n := v]) == Elems(t, element)
    ensures Ordered(t, element) <==> Ordered(t, element[n := v])
  {
    WithinNodes(t, |element|);
    assert Agree(element, element[n := v], Nodes(t));
    ElemsFrame(t, element, element[n := v]);
  }

  /**
   * Lifting a child subtree `u` of node `d` into `d`'s place, and recording
   * `d`'s parent (`up` at the root) as the parent of `u`'s root, keeps every
   * parent link consistent.
   */
  lemma {:induction false} SpliceParents(s: Shape, d: int, u: Shape, up: int, parent: seq<int>, np: int)
    requires Distinct(s) && d in Nodes(s) && ParentsOk(s, up, parent)
    requires u == Sub(s, d).left || u == Sub(s, d).right
    requires np == if d == Ix(s) then up else ParentOf(s, d)
    ensures u != Empty ==> 0 <= u.id < |parent| && ParentsOk(Replace(s, d, u), up, parent[u.id := np])
  {
    match s
    case Node(l, i, r) =>
      ParentsRange(s, up, parent);
      if u != Empty {
        assert u.id in Nodes(Sub(s, d));
        var parent' := parent[u.id := np];
        if i == d {
          assert u == l || u == r;
          ParentsFrame(u.left, u.id, parent, parent');
          ParentsFrame(u.right, u.id, parent, parent');
        } else if d in Nodes(l) {
          assert Sub(s, d) == Sub(l, d);
          assert u.id in Nodes(Sub(l, d));
          SpliceParents(l, d, u, i, parent, np);
          ReplaceAbsent(r, d, u);
          ParentsFrame(r, i, parent, parent');
        } else {
          assert Sub(s, d) == Sub(r, d);
          assert u.id in Nodes(Sub(r, d));
          SpliceParents(r, d, u, i, parent, np);
          ReplaceAbsent(l, d, u);
          ParentsFrame(l, i, parent, parent');
        }
      }
  }

  /** The node `remove` unlinks: the predecessor when `n` has two children, else `n` itself. */
  function Victim(s: Shape, n: int): (d: int)
    requires n in Nodes(s)
    ensures d in Nodes(s)
  {
    var t := Sub(s, n);
    if t.left != Empty && t.right != Empty then Rightmost(t.left) else n
  }

  /**
   * Removing the element of node `n`: the victim's surviving child takes the
   * victim's place (in its parent's slot, or as the whole tree at the root),
   * and when the victim is the predecessor its element moves into `n`.
   */
  lemma SpliceOutcome(s: Shape, n: int, element: seq<int>, left: seq<int>, right: seq<int>,
                      left': seq<int>, right': seq<int>)
    requires Wf(s, |element|) && Ordered(s, element) && Linked(s, left, right) && n in Nodes(s)
    requires |left| == |element| && |right| == |element|
    requires Victim(s, n) == Ix(s) ==> left' == left && right' == right
    requires Victim(s, n) != Ix(s) ==>
      var d := Victim(s, n);
      var u := Survivor(Sub(s, d));
      var p := ParentOf(s, d);
      0 <= p < |left| && p < |right|
      && if left[p] == d then left' == left[p := Ix(u)] && right' == right
         else left' == left && right' == right[p := Ix(u)]
    ensures 0 <= n < |element| && 0 <= Victim(s, n) < |element|
    ensures var d := Victim(s, n);
      var u := Survivor(Sub(s, d));
      var s' := Replace(s, d, u);
      var element' := if d == n then element else element[n := element[d]];
      && Wf(s', |element'|) && Ordered(s', element') && Linked(s', left', right')
      && Ix(s') == (if d == Ix(s) then Ix(u) else Ix(s)) && Nodes(s') <= Nodes(s)
      && Elems(s', element') == Elems(s, element) - {element[n]}
      && Count(s') == Count(s) - 1
      && (d == Ix(s) ==> s' == u)
  {
    WithinNodes(s, |element|);
    var d := Victim(s, n);
    var t := Sub(s, d);
    var u := Survivor(t);
    SubInherits(s, d, element, left, right);
    assert Linked(u, left, right) && Nodes(u) <= Nodes(t);
    if d == Ix(s) {
      assert s.id == d;
      SpliceFacts(s, d, element);
    } else {
      if d == n {
        SpliceFacts(s, d, element);
      } else {
        CopySpliceFacts(s, n, element);
      }
      ReplaceLinked(s, d, u, left, right, left', right');
    }
    ReplaceWf(s, d, u, |element|);
  }

  /** A lifted subtree's root must record `d`'s parent for the parent links to stay consistent. */
  lemma {:induction false} ReplacedParent(s: Shape, d: int, u: Shape, up: int, parent: seq<int>)
    requires Wf(s, |parent|) && d in Nodes(s) && d != Ix(s) && u.Node?
    requires ParentsOk(Replace(s, d, u), up, parent)
    ensures 0 <= u.id < |parent| && parent[u.id] == ParentOf(s, d)
  {
    match s
    case Node(l, i, r) =>
      WithinNodes(s, |parent|);
      if d in Nodes(l) {
        ReplaceAbsent(r, d, u);
        if d != Ix(l) {
          ReplacedParent(l, d, u, i, parent);
        } else {
          assert Replace(l, d, u) == u;
        }
      } else {
        ReplaceAbsent(l, d, u);
        if d != Ix(r) {
          ReplacedParent(r, d, u, i, parent);
        } else {
          assert Replace(r, d, u) == u;
        }
      }
  }

  /**
   * Splicing out a non-root node without touching any `parent` field keeps
   * the parent links consistent exactly when no child moves up.
   */
  lemma SpliceKeepsParents(s: Shape, d: int, parent: seq<int>)
    requires Wf(s, |parent|) && ParentsOk(s, Null, parent) && d in Nodes(s) && d != Ix(s)
    ensures ParentsOk(Replace(s, d, Survivor(Sub(s, d))), Null, parent) <==> Survivor(Sub(s, d)) == Empty
  {
    var u := Survivor(Sub(s, d));
    if u == Empty {
      CutParents(s, d, Null, parent);
    } else {
      SubParents(s, d, Null, parent);
      if ParentsOk(Replace(s, d, u), Null, parent) {
        ReplacedParent(s, d, u, Null, parent);
      }
    }
  }
}
