// The ten `_check_tree_children_*_recursively` traversals of utilRbTree.c.
//
// All ten share one skeleton: stop when the AbortCheck bit is set or the
// node is NULL, visit the "near" subtree, then the node, then the "far"
// subtree; Inc modes go left first, Dec modes right first.  They differ in
// how the pivot `than` cuts the walk short:
//   - Full (IncAll, DecAll): no pivot;
//   - StopAtMiss (IncLower, IncLowerEqual, DecGreater, DecGreaterEqual): a node
//     that fails the pivot returns before its far subtree;
//   - PruneNear (DecLower, DecLowerEqual, IncGreater, IncGreaterEqual): the near
//     subtree is entered only when its own root passes the pivot.
// The callback is modelled by `abortOn`: whether it calls AbortCheck.
module RbTraverse {
  import opened RbCore

  datatype Mode =
    | IncAll | DecAll
    | IncLower | IncLowerEqual | DecLower | DecLowerEqual
    | DecGreater | DecGreaterEqual | IncGreater | IncGreaterEqual

  datatype Shape = Full | StopAtMiss | PruneNear

  function ShapeOf(m: Mode): Shape
  {
    match m
    case IncAll | DecAll => Full
    case IncLower | IncLowerEqual | DecGreater | DecGreaterEqual => StopAtMiss
    case DecLower | DecLowerEqual | IncGreater | IncGreaterEqual => PruneNear
  }

  predicate Ascending(m: Mode)
  {
    m.IncAll? || m.IncLower? || m.IncLowerEqual? || m.IncGreater? || m.IncGreaterEqual?
  }

  /** The pivot relation of each mode. */
  predicate Rel(m: Mode, k: Key, than: Key)
  {
    match m
    case IncAll | DecAll => true
    case IncLower | DecLower => k < than
    case IncLowerEqual | DecLowerEqual => k <= than
    case DecGreater | IncGreater => k > than
    case DecGreaterEqual | IncGreaterEqual => k >= than
  }

  /** The callbacks fired, and whether AbortCheck is set afterwards. */
  datatype Walk = Walk(visits: seq<Item>, aborted: bool)

  /** The subtree visited before the node. */
  function Near(m: Mode, t: Tree): (r: Tree)
    requires t.Node?
    ensures r == t.left || r == t.right
  {
    if Ascending(m) then t.left else t.right
  }

  /** The subtree visited after the node. */
  function Far(m: Mode, t: Tree): (r: Tree)
    requires t.Node?
    ensures r == t.left || r == t.right
  {
    if Ascending(m) then t.right else t.left
  }

  /** A PruneNear mode does not descend into a near child that fails the pivot (or is NULL). */
  predicate SkipNear(m: Mode, t: Tree, than: Key)
    requires t.Node?
  {
    ShapeOf(m) == PruneNear && !(Near(m, t).Node? && Rel(m, Near(m, t).key, than))
  }

  function Traverse(m: Mode, t: Tree, than: Key, aborted: bool, abortOn: Item -> bool): Walk
    decreases t, 1
  {
    if aborted || t.Nil? then Walk([], aborted)
    else
      var w1 := NearWalk(m, t, than, abortOn);
      if w1.aborted then w1 else Rest(m, t, than, w1, abortOn)
  }

  function NearWalk(m: Mode, t: Tree, than: Key, abortOn: Item -> bool): Walk
    requires t.Node?
    decreases t, 0
  {
    if SkipNear(m, t, than) then Walk([], false) else Traverse(m, Near(m, t), than, false, abortOn)
  }

  /** The node itself and the far subtree, after a near walk `w1` that did not abort. */
  function Rest(m: Mode, t: Tree, than: Key, w1: Walk, abortOn: Item -> bool): Walk
    requires t.Node?
    decreases t, 0
  {
    var self := Item(t.key, t.obj);
    if Rel(m, t.key, than) then
      var w2 := Traverse(m, Far(m, t), than, abortOn(self), abortOn);
      Walk(w1.visits + [self] + w2.visits, w2.aborted)
    else if ShapeOf(m) == StopAtMiss then w1
    else
      var w2 := Traverse(m, Far(m, t), than, false, abortOn);
      Walk(w1.visits + w2.visits, w2.aborted)
  }

  /** A callback that never aborts. */
  function Never(i: Item): bool { false }

  // ---------------------------------------------------------------- soundness

  ghost predicate SoundVisits(m: Mode, t: Tree, than: Key, v: seq<Item>)
  {
    forall i :: 0 <= i < |v| ==> v[i] in Items(t) && Rel(m, v[i].key, than)
  }

  lemma SoundUnder(m: Mode, t: Tree, than: Key, v: seq<Item>, sub: Tree)
    requires t.Node? && (sub == t.left || sub == t.right)
    requires SoundVisits(m, sub, than, v)
    ensures SoundVisits(m, t, than, v)
  {
    forall i | 0 <= i < |v| ensures v[i] in Items(t) {
      assert v[i] in Items(sub);
    }
  }

  /** Every visited pair is in the tree and satisfies the mode's pivot relation. */
  lemma {:induction false} TraverseSound(m: Mode, t: Tree, than: Key, ab: bool, f: Item -> bool)
    ensures SoundVisits(m, t, than, Traverse(m, t, than, ab, f).visits)
    decreases t
  {
    if !ab && t.Node? {
      var self := Item(t.key, t.obj);
      var w1 := NearWalk(m, t, than, f);
      if !SkipNear(m, t, than) {
        TraverseSound(m, Near(m, t), than, false, f);
        SoundUnder(m, t, than, w1.visits, Near(m, t));
      }
      assert SoundVisits(m, t, than, w1.visits);
      if !w1.aborted {
        var ab2 := if Rel(m, t.key, than) then f(self) else false;
        var w2 := Traverse(m, Far(m, t), than, ab2, f);
        TraverseSound(m, Far(m, t), than, ab2, f);
        SoundUnder(m, t, than, w2.visits, Far(m, t));
        assert self in Items(t);
      }
    }
  }

  /** A traversal that starts with AbortCheck already set fires no callback. */
  lemma PresetAbortVisitsNothing(m: Mode, t: Tree, than: Key, f: Item -> bool)
    ensures Traverse(m, t, than, true, f) == Walk([], true)
  {
  }

  // ---------------------------------------------------------------- order

  function Precedes(asc: bool, a: Key, b: Key): bool
  {
    if asc then a < b else a > b
  }

  ghost predicate SortedBy(asc: bool, s: seq<Item>)
  {
    forall i, j :: 0 <= i < j < |s| ==> Precedes(asc, s[i].key, s[j].key)
  }

  lemma SortedJoin(asc: bool, a: seq<Item>, b: seq<Item>)
    requires SortedBy(asc, a) && SortedBy(asc, b)
    requires forall x, y :: x in a && y in b ==> Precedes(asc, x.key, y.key)
    ensures SortedBy(asc, a + b)
  {
    var s := a + b;
    forall i, j | 0 <= i < j < |s| ensures Precedes(asc, s[i].key, s[j].key) {
      if j < |a| {
        assert s[i] == a[i] && s[j] == a[j];
      } else if i >= |a| {
        assert s[i] == b[i - |a|] && s[j] == b[j - |a|];
      } else {
        assert s[i] == a[i] && s[j] == b[j - |a|];
        assert a[i] in a && b[j - |a|] in b;
      }
    }
  }

  /** In an ordered tree, near items come before the node and far items after it, in walk direction. */
  lemma OrderedSides(m: Mode, t: Tree)
    requires t.Node? && Ordered(t)
    ensures Ordered(Near(m, t)) && Ordered(Far(m, t))
    ensures forall x :: x in Items(Near(m, t)) ==> Precedes(Ascending(m), x.key, t.key)
    ensures forall y :: y in Items(Far(m, t)) ==> Precedes(Ascending(m), t.key, y.key)
  {
    OrderedItems(t);
  }

  /** On an ordered tree, Inc modes deliver strictly ascending keys and Dec modes strictly descending ones. */
  lemma {:induction false} TraverseOrder(m: Mode, t: Tree, than: Key, ab: bool, f: Item -> bool)
    requires Ordered(t)
    ensures SortedBy(Ascending(m), Traverse(m, t, than, ab, f).visits)
    decreases t
  {
    if !ab && t.Node? {
      var asc := Ascending(m);
      var self := Item(t.key, t.obj);
      OrderedSides(m, t);
      var w1 := NearWalk(m, t, than, f);
      if !SkipNear(m, t, than) {
        TraverseOrder(m, Near(m, t), than, false, f);
        TraverseSound(m, Near(m, t), than, false, f);
      }
      assert SortedBy(asc, w1.visits);
      assert forall x :: x in w1.visits ==> x in Items(Near(m, t));
      assert forall x :: x in w1.visits ==> Precedes(asc, x.key, self.key);
      if !w1.aborted {
        var ab2 := if Rel(m, t.key, than) then f(self) else false;
        var w2 := Traverse(m, Far(m, t), than, ab2, f);
        TraverseOrder(m, Far(m, t), than, ab2, f);
        TraverseSound(m, Far(m, t), than, ab2, f);
        assert forall y :: y in w2.visits ==> y in Items(Far(m, t));
        assert forall y :: y in w2.visits ==> Precedes(asc, self.key, y.key);
        if Rel(m, t.key, than) {
          SortedJoin(asc, w1.visits, [self]);
          SortedJoin(asc, w1.visits + [self], w2.visits);
        } else if ShapeOf(m) != StopAtMiss {
          SortedJoin(asc, w1.visits, w2.visits);
        }
      }
    }
  }

  // ---------------------------------------------------------------- abort

  /** The callback asked to abort exactly at the last visit, if `aborted`, and never before. */
  ghost predicate AbortsAtEnd(f: Item -> bool, v: seq<Item>, aborted: bool)
  {
    (aborted ==> |v| > 0) && forall i :: 0 <= i < |v| ==> (f(v[i]) <==> aborted && i == |v| - 1)
  }

  /** The visits of `w` are a prefix of `full`, and all of them when `w` did not abort. */
  ghost predicate PrefixRun(w: Walk, full: seq<Item>)
  {
    w.visits <= full && (!w.aborted ==> w.visits == full)
  }

  lemma {:induction false} NeverAborts(m: Mode, t: Tree, than: Key)
    ensures !Traverse(m, t, than, false, Never).aborted
    decreases t
  {
    if t.Node? {
      NeverAborts(m, Near(m, t), than);
      NeverAborts(m, Far(m, t), than);
    }
  }

  lemma AbortsAtEndJoin(f: Item -> bool, a: seq<Item>, b: seq<Item>, ab: bool)
    requires AbortsAtEnd(f, a, false) && AbortsAtEnd(f, b, ab)
    ensures AbortsAtEnd(f, a + b, ab)
  {
    var s := a + b;
    forall i | 0 <= i < |s| ensures f(s[i]) <==> ab && i == |s| - 1 {
      if i < |a| { assert s[i] == a[i]; } else { assert s[i] == b[i - |a|]; }
    }
  }

  lemma PrefixJoin(a: seq<Item>, w: Walk, full: seq<Item>)
    requires PrefixRun(w, full)
    ensures PrefixRun(Walk(a + w.visits, w.aborted), a + full)
  {
    assert (a + full)[..|a + w.visits|] == a + full[..|w.visits|];
  }

  /** The node and far part only extend what the near part fired. */
  lemma RestExtends(m: Mode, t: Tree, than: Key, w: Walk, f: Item -> bool)
    requires t.Node?
    ensures w.visits <= Rest(m, t, than, w, f).visits
  {
    var r := Rest(m, t, than, w, f).visits;
    assert r[..|w.visits|] == w.visits;
  }

  /** The abort step at one node, once the near part finished without aborting. */
  lemma RestAbort(m: Mode, t: Tree, than: Key, w1: Walk, f: Item -> bool)
    requires t.Node? && !w1.aborted && AbortsAtEnd(f, w1.visits, false)
    requires var w2 := Traverse(m, Far(m, t), than, false, f);
      PrefixRun(w2, Traverse(m, Far(m, t), than, false, Never).visits) && AbortsAtEnd(f, w2.visits, w2.aborted)
    ensures var r := Rest(m, t, than, w1, f);
      PrefixRun(r, Rest(m, t, than, w1, Never).visits) && AbortsAtEnd(f, r.visits, r.aborted)
  {
    var self := Item(t.key, t.obj);
    var w2 := Traverse(m, Far(m, t), than, false, f);
    var n2 := Traverse(m, Far(m, t), than, false, Never);
    if Rel(m, t.key, than) {
      if f(self) {
        assert Traverse(m, Far(m, t), than, true, f) == Walk([], true);
        RestExtends(m, t, than, Walk(w1.visits + [self], false), Never);
        assert Rest(m, t, than, w1, Never).visits == w1.visits + [self] + n2.visits;
        AbortsAtEndJoin(f, w1.visits, [self], true);
      } else {
        AbortsAtEndJoin(f, w1.visits, [self], false);
        AbortsAtEndJoin(f, w1.visits + [self], w2.visits, w2.aborted);
        PrefixJoin(w1.visits + [self], w2, n2.visits);
      }
    } else if ShapeOf(m) != StopAtMiss {
      AbortsAtEndJoin(f, w1.visits, w2.visits, w2.aborted);
      PrefixJoin(w1.visits, w2, n2.visits);
    }
  }

  /**
   * Cooperative abort: the callbacks fired are a prefix of those of a run
   * that never aborts, AbortCheck is set exactly when the last callback set
   * it, no earlier callback set it, and a run that was not aborted fired
   * them all.
   */
  lemma {:induction false} TraverseAbort(m: Mode, t: Tree, than: Key, f: Item -> bool)
    ensures var w := Traverse(m, t, than, false, f);
      PrefixRun(w, Traverse(m, t, than, false, Never).visits) && AbortsAtEnd(f, w.visits, w.aborted)
    decreases t
  {
    if t.Node? {
      var w1 := NearWalk(m, t, than, f);
      var n1 := NearWalk(m, t, than, Never);
      if !SkipNear(m, t, than) {
        TraverseAbort(m, Near(m, t), than, f);
        NeverAborts(m, Near(m, t), than);
      }
      assert PrefixRun(w1, n1.visits) && AbortsAtEnd(f, w1.visits, w1.aborted) && !n1.aborted;
      assert Traverse(m, t, than, false, Never) == Rest(m, t, than, n1, Never);
      if w1.aborted {
        RestExtends(m, t, than, n1, Never);
      } else {
        assert w1 == n1;
        TraverseAbort(m, Far(m, t), than, f);
        RestAbort(m, t, than, w1, f);
      }
    }
  }

  // ---------------------------------------------------------------- completeness

  function Reverse(s: seq<Item>): (r: seq<Item>)
    ensures |r| == |s|
  {
    if s == [] then [] else Reverse(s[1..]) + [s[0]]
  }

  lemma {:induction false} ReverseAppend(a: seq<Item>, b: seq<Item>)
    ensures Reverse(a + b) == Reverse(b) + Reverse(a)
    decreases |a|
  {
    if a == [] {
      assert a + b == b;
    } else {
      assert (a + b)[1..] == a[1..] + b;
      ReverseAppend(a[1..], b);
    }
  }

  /** The pairs of a tree in the order the mode walks them. */
  function WalkOrder(m: Mode, t: Tree): seq<Item>
  {
    if Ascending(m) then Items(t) else Reverse(Items(t))
  }

  function Qualifying(m: Mode, s: seq<Item>, than: Key): seq<Item>
  {
    if s == [] then []
    else (if Rel(m, s[0].key, than) then [s[0]] else []) + Qualifying(m, s[1..], than)
  }

  lemma {:induction false} QualifyingAppend(m: Mode, a: seq<Item>, b: seq<Item>, than: Key)
    ensures Qualifying(m, a + b, than) == Qualifying(m, a, than) + Qualifying(m, b, than)
    decreases |a|
  {
    if a == [] {
      assert a + b == b;
    } else {
      assert (a + b)[1..] == a[1..] + b;
      QualifyingAppend(m, a[1..], b, than);
    }
  }

  lemma {:induction false} QualifyingNone(m: Mode, s: seq<Item>, than: Key)
    requires forall x :: x in s ==> !Rel(m, x.key, than)
    ensures Qualifying(m, s, than) == []
    decreases |s|
  {
    if s != [] {
      assert s[0] in s;
      assert forall x :: x in s[1..] ==> x in s;
      QualifyingNone(m, s[1..], than);
    }
  }

  lemma {:induction false} ReverseMembers(s: seq<Item>, x: Item)
    ensures x in Reverse(s) <==> x in s
    decreases |s|
  {
    if s != [] {
      ReverseMembers(s[1..], x);
      assert s == [s[0]] + s[1..];
    }
  }

  lemma WalkOrderNode(m: Mode, t: Tree)
    requires t.Node?
    ensures WalkOrder(m, t) == WalkOrder(m, Near(m, t)) + [Item(t.key, t.obj)] + WalkOrder(m, Far(m, t))
  {
    if !Ascending(m) {
      var l, s, r := Items(t.left), [Item(t.key, t.obj)], Items(t.right);
      ReverseAppend(l + s, r);
      ReverseAppend(l, s);
      assert Reverse(s) == s;
    }
  }

  lemma WalkOrderMembers(m: Mode, t: Tree, x: Item)
    ensures x in WalkOrder(m, t) <==> x in Items(t)
  {
    ReverseMembers(Items(t), x);
  }

  /** For the StopAtMiss modes a key failing the pivot makes every later key fail it. */
  lemma StopAtMissMonotone(m: Mode, k: Key, k2: Key, than: Key)
    requires ShapeOf(m) == StopAtMiss && !Rel(m, k, than) && Precedes(Ascending(m), k, k2)
    ensures !Rel(m, k2, than)
  {
  }

  /**
   * IncAll, DecAll, IncLower, IncLowerEqual, DecGreater and DecGreaterEqual,
   * when no callback aborts, fire for every qualifying pair, in walk order.
   */
  lemma {:induction false} TraverseComplete(m: Mode, t: Tree, than: Key)
    requires ShapeOf(m) != PruneNear && Ordered(t)
    ensures Traverse(m, t, than, false, Never).visits == Qualifying(m, WalkOrder(m, t), than)
    decreases t
  {
    if t.Node? {
      var self := Item(t.key, t.obj);
      var near, far := Near(m, t), Far(m, t);
      OrderedSides(m, t);
      TraverseComplete(m, near, than);
      TraverseComplete(m, far, than);
      NeverAborts(m, near, than);
      var n1 := Traverse(m, near, than, false, Never);
      assert NearWalk(m, t, than, Never) == n1;
      assert Traverse(m, t, than, false, Never) == Rest(m, t, than, n1, Never);
      WalkOrderNode(m, t);
      QualifyingAppend(m, WalkOrder(m, near) + [self], WalkOrder(m, far), than);
      QualifyingAppend(m, WalkOrder(m, near), [self], than);
      assert Qualifying(m, [self], than) == if Rel(m, t.key, than) then [self] else [];
      if !Rel(m, t.key, than) {
        forall y | y in WalkOrder(m, far) ensures !Rel(m, y.key, than) {
          WalkOrderMembers(m, far, y);
          StopAtMissMonotone(m, t.key, y.key, than);
        }
        QualifyingNone(m, WalkOrder(m, far), than);
      }
    }
  }

  // ---------------------------------------------------------------- pruning skips keys

  /**
   * The pruned modes miss qualifying keys: in the red-black tree 10 / (5 with
   * red right child 7) / 15, IncGreater with pivot 6 fires for 10 and 15 but
   * not 7, because the left child 5 fails the pivot and its subtree is skipped.
   */
  lemma IncGreaterSkipsGrandchild(o: Obj)
    ensures var t := Node(Black, 10, o, Node(Black, 5, o, Nil, Node(Red, 7, o, Nil, Nil)), Node(Black, 15, o, Nil, Nil));
      RedBlack(t) && Ordered(t) &&
      Traverse(IncGreater, t, 6, false, Never).visits == [Item(10, o), Item(15, o)] &&
      Item(7, o) in Items(t) && Rel(IncGreater, 7, 6)
  {
    var leaf15 := Node(Black, 15, o, Nil, Nil);
    var t := Node(Black, 10, o, Node(Black, 5, o, Nil, Node(Red, 7, o, Nil, Nil)), leaf15);
    assert Items(t.left) == [Item(5, o), Item(7, o)];
    assert Items(t) == [Item(5, o), Item(7, o)] + [Item(10, o)] + [Item(15, o)];
    assert Keys(t) == [5, 7, 10, 15];
    assert NearWalk(IncGreater, t, 6, Never) == Walk([], false);
    assert NearWalk(IncGreater, leaf15, 6, Never) == Walk([], false);
    assert Traverse(IncGreater, Nil, 6, false, Never) == Walk([], false);
    assert Traverse(IncGreater, leaf15, 6, false, Never) == Walk([Item(15, o)], false);
  }

  /** The mirror image for DecLower: 10 / 5 / (15 with red left child 12), pivot 13 misses 12. */
  lemma DecLowerSkipsGrandchild(o: Obj)
    ensures var t := Node(Black, 10, o, Node(Black, 5, o, Nil, Nil), Node(Black, 15, o, Node(Red, 12, o, Nil, Nil), Nil));
      RedBlack(t) && Ordered(t) &&
      Traverse(DecLower, t, 13, false, Never).visits == [Item(10, o), Item(5, o)] &&
      Item(12, o) in Items(t) && Rel(DecLower, 12, 13)
  {
    var leaf5 := Node(Black, 5, o, Nil, Nil);
    var t := Node(Black, 10, o, leaf5, Node(Black, 15, o, Node(Red, 12, o, Nil, Nil), Nil));
    assert Items(t.right) == [Item(12, o), Item(15, o)];
    assert Items(t) == [Item(5, o)] + [Item(10, o)] + [Item(12, o), Item(15, o)];
    assert Keys(t) == [5, 10, 12, 15];
    assert NearWalk(DecLower, t, 13, Never) == Walk([], false);
    assert NearWalk(DecLower, leaf5, 13, Never) == Walk([], false);
    assert Traverse(DecLower, Nil, 13, false, Never) == Walk([], false);
    assert Traverse(DecLower, leaf5, 13, false, Never) == Walk([Item(5, o)], false);
  }
}
