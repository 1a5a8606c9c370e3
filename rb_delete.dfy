// `_rb_delete_node` and `_rb_check_delete_node_case_1` .. `_6`
// (utilRbTree.c) on zippers.  The C code calls exit(1) when case 5 finds no
// sibling and dereferences NULL when case 6 finds no far nephew; both are the
// `Crashed` outcome, reachable only in trees the leaf case has already
// unbalanced.
module RbDelete {
  import opened RbCore

  datatype Outcome = Done(tree: Tree) | Crashed

  /** The sibling and both its children are black, NULL counting as black. */
  predicate AllBlack(s: Tree)
  {
    BlackRooted(s) && (s.Nil? || (BlackRooted(s.left) && BlackRooted(s.right)))
  }

  function Case1(z: Zip): Outcome
    requires z.focus.Node?
    decreases PathLen(z.path), 3
  {
    if z.path == Top then Done(Whole(z)) else Case2(z)
  }

  /**
   * Red sibling: parent red, sibling black, rotate the parent toward the
   * node, which moves one level down under its (now red) parent.
   */
  function Case2(z: Zip): Outcome
    requires z.focus.Node? && z.path != Top
    decreases PathLen(z.path), 2
  {
    var s := Sibling(z.path);
    if IsRed(s) then
      var pz := Up(Zip(z.focus, WithSibling(PaintParent(z.path, Red), Paint(s, Black))));
      var z' := if z.path.LeftOf? then Left(Left(RotateLeft(pz))) else Right(Right(RotateRight(pz)));
      assert z'.path != Top && ParentColor(z'.path) == Red;
      Case3(z')
    else
      Case3(z)
  }

  /** Black parent and all-black sibling: sibling red, then start again at the parent. */
  function Case3(z: Zip): Outcome
    requires z.focus.Node? && z.path != Top
    decreases if ParentColor(z.path) == Red then 0 else PathLen(z.path), 1
  {
    var s := Sibling(z.path);
    if ParentColor(z.path) == Black && AllBlack(s) then
      Case1(Up(Zip(z.focus, WithSibling(z.path, Paint(s, Red)))))
    else
      Case4(z)
  }

  /** Red parent and all-black sibling: swap their colours and stop. */
  function Case4(z: Zip): Outcome
    requires z.focus.Node? && z.path != Top
  {
    var s := Sibling(z.path);
    if ParentColor(z.path) == Red && AllBlack(s) then
      Done(Whole(Zip(z.focus, PaintParent(WithSibling(z.path, Paint(s, Red)), Black))))
    else
      Case5(z)
  }

  /** Black sibling whose near child is red and far child black: rotate the sibling. */
  function Case5(z: Zip): Outcome
    requires z.focus.Node? && z.path != Top
  {
    var s := Sibling(z.path);
    if s.Nil? then Crashed
    else if s.color == Red then Case6(z)
    else if z.path.LeftOf? && IsRed(s.left) && BlackRooted(s.right) then
      var s' := RotateRight(Zip(Node(Red, s.key, s.obj, Paint(s.left, Black), s.right), Top)).focus;
      Case6(Zip(z.focus, WithSibling(z.path, s')))
    else if z.path.RightOf? && BlackRooted(s.left) && IsRed(s.right) then
      var s' := RotateLeft(Zip(Node(Red, s.key, s.obj, s.left, Paint(s.right, Black)), Top)).focus;
      Case6(Zip(z.focus, WithSibling(z.path, s')))
    else
      Case6(z)
  }

  /** Sibling takes the parent's colour, parent and far nephew black, rotate the parent. */
  function Case6(z: Zip): Outcome
    requires z.focus.Node? && z.path != Top
  {
    var s := Sibling(z.path);
    var pc := ParentColor(z.path);
    if s.Nil? then Crashed
    else if z.path.LeftOf? then
      if s.right.Nil? then Crashed
      else
        var s' := Node(pc, s.key, s.obj, s.left, Paint(s.right, Black));
        Done(Whole(RotateLeft(Up(Zip(z.focus, WithSibling(PaintParent(z.path, Black), s'))))))
    else
      if s.left.Nil? then Crashed
      else
        var s' := Node(pc, s.key, s.obj, Paint(s.left, Black), s.right);
        Done(Whole(RotateRight(Up(Zip(z.focus, WithSibling(PaintParent(z.path, Black), s'))))))
  }

  /**
   * `_rb_delete_node` for a node with at most one child: unlink a leaf, or
   * reconnect the only child in the node's place (`_rb_delete_node_and_reconnect_with`)
   * and rebalance when both were black.
   */
  function DeleteSingle(z: Zip): Outcome
    requires z.focus.Node? && (z.focus.left.Nil? || z.focus.right.Nil?)
  {
    var n := z.focus;
    if n.left.Nil? && n.right.Nil? then Done(Plug(z.path, Nil))
    else
      var child := if n.left.Node? then n.left else n.right;
      if n.color == Red then Done(Plug(z.path, child))
      else if child.color == Red then Done(Plug(z.path, Paint(child, Black)))
      else Case1(Zip(child, z.path))
  }

  // ---------------------------------------------------------------- the in-order items are kept

  lemma Case6Items(z: Zip)
    requires z.focus.Node? && z.path != Top
    ensures Case6(z).Done? ==> Items(Case6(z).tree) == Items(Whole(z))
  {
    var s := Sibling(z.path);
    var pc := ParentColor(z.path);
    if s.Node? {
      var s' := if z.path.LeftOf? then Node(pc, s.key, s.obj, s.left, Paint(s.right, Black))
                else Node(pc, s.key, s.obj, Paint(s.left, Black), s.right);
      var p' := WithSibling(PaintParent(z.path, Black), s');
      var pz := Up(Zip(z.focus, p'));
      if z.path.LeftOf? && s.right.Node? {
        RotateLeftItems(pz);
      } else if z.path.RightOf? && s.left.Node? {
        RotateRightItems(pz);
      }
      WithSiblingItems(PaintParent(z.path, Black), s', z.focus);
      PaintParentItems(z.path, Black, z.focus);
    }
  }

  lemma Case5Items(z: Zip)
    requires z.focus.Node? && z.path != Top
    ensures Case5(z).Done? ==> Items(Case5(z).tree) == Items(Whole(z))
  {
    var s := Sibling(z.path);
    if s.Nil? {
    } else if s.color == Red {
      Case6Items(z);
    } else if z.path.LeftOf? && IsRed(s.left) && BlackRooted(s.right) {
      var r := Zip(Node(Red, s.key, s.obj, Paint(s.left, Black), s.right), Top);
      RotateRightItems(r);
      var s' := RotateRight(r).focus;
      WithSiblingItems(z.path, s', z.focus);
      Case6Items(Zip(z.focus, WithSibling(z.path, s')));
    } else if z.path.RightOf? && BlackRooted(s.left) && IsRed(s.right) {
      var r := Zip(Node(Red, s.key, s.obj, s.left, Paint(s.right, Black)), Top);
      RotateLeftItems(r);
      var s' := RotateLeft(r).focus;
      WithSiblingItems(z.path, s', z.focus);
      Case6Items(Zip(z.focus, WithSibling(z.path, s')));
    } else {
      Case6Items(z);
    }
  }

  lemma Case4Items(z: Zip)
    requires z.focus.Node? && z.path != Top
    ensures Case4(z).Done? ==> Items(Case4(z).tree) == Items(Whole(z))
  {
    var s := Sibling(z.path);
    if ParentColor(z.path) == Red && AllBlack(s) {
      var p' := WithSibling(z.path, Paint(s, Red));
      PaintParentItems(p', Black, z.focus);
      WithSiblingItems(z.path, Paint(s, Red), z.focus);
    } else {
      Case5Items(z);
    }
  }

  /** Cases 1 to 6 only rotate and recolour, so a run that ends keeps the whole tree's items. */
  lemma {:induction false} Case1Items(z: Zip)
    requires z.focus.Node?
    ensures Case1(z).Done? ==> Items(Case1(z).tree) == Items(Whole(z))
    decreases PathLen(z.path), 3
  {
    if z.path != Top { Case2Items(z); }
  }

  lemma {:induction false} Case2Items(z: Zip)
    requires z.focus.Node? && z.path != Top
    ensures Case2(z).Done? ==> Items(Case2(z).tree) == Items(Whole(z))
    decreases PathLen(z.path), 2
  {
    var s := Sibling(z.path);
    if IsRed(s) {
      var p' := WithSibling(PaintParent(z.path, Red), Paint(s, Black));
      var pz := Up(Zip(z.focus, p'));
      var z' := if z.path.LeftOf? then Left(Left(RotateLeft(pz))) else Right(Right(RotateRight(pz)));
      if z.path.LeftOf? { RotateLeftItems(pz); } else { RotateRightItems(pz); }
      WithSiblingItems(PaintParent(z.path, Red), Paint(s, Black), z.focus);
      PaintParentItems(z.path, Red, z.focus);
      Case3Items(z');
    } else {
      Case3Items(z);
    }
  }

  lemma {:induction false} Case3Items(z: Zip)
    requires z.focus.Node? && z.path != Top
    ensures Case3(z).Done? ==> Items(Case3(z).tree) == Items(Whole(z))
    decreases if ParentColor(z.path) == Red then 0 else PathLen(z.path), 1
  {
    var s := Sibling(z.path);
    if ParentColor(z.path) == Black && AllBlack(s) {
      var z' := Zip(z.focus, WithSibling(z.path, Paint(s, Red)));
      Case1Items(Up(z'));
      WithSiblingItems(z.path, Paint(s, Red), z.focus);
    } else {
      Case4Items(z);
    }
  }

  // ---------------------------------------------------------------- the root stays black

  lemma Case6Root(z: Zip)
    requires z.focus.Node? && z.path != Top && BlackRooted(Whole(z))
    ensures Case6(z).Done? ==> BlackRooted(Case6(z).tree)
  {
    var s := Sibling(z.path);
    var pc := ParentColor(z.path);
    if s.Node? && z.path.up != Top {
      var s' := if z.path.LeftOf? then Node(pc, s.key, s.obj, s.left, Paint(s.right, Black))
                else Node(pc, s.key, s.obj, Paint(s.left, Black), s.right);
      var pz := Up(Zip(z.focus, WithSibling(PaintParent(z.path, Black), s')));
      if z.path.LeftOf? && s.right.Node? {
        RootIndependent(z.path.up, RotateLeft(pz).focus, Up(z).focus);
      } else if z.path.RightOf? && s.left.Node? {
        RootIndependent(z.path.up, RotateRight(pz).focus, Up(z).focus);
      }
    } else if s.Node? {
      assert Whole(z) == Up(z).focus;
    }
  }

  lemma SiblingRoot(z: Zip, s': Tree)
    requires z.focus.Node? && z.path != Top && BlackRooted(Whole(z))
    ensures BlackRooted(Whole(Zip(z.focus, WithSibling(z.path, s'))))
  {
    var z' := Zip(z.focus, WithSibling(z.path, s'));
    if z.path.up != Top {
      RootIndependent(z.path.up, Up(z').focus, Up(z).focus);
    } else {
      assert Whole(z) == Up(z).focus && Whole(z') == Up(z').focus;
    }
  }

  lemma Case5Root(z: Zip)
    requires z.focus.Node? && z.path != Top && BlackRooted(Whole(z))
    ensures Case5(z).Done? ==> BlackRooted(Case5(z).tree)
  {
    var s := Sibling(z.path);
    if s.Nil? {
    } else if s.color == Red {
      Case6Root(z);
    } else if z.path.LeftOf? && IsRed(s.left) && BlackRooted(s.right) {
      var s' := RotateRight(Zip(Node(Red, s.key, s.obj, Paint(s.left, Black), s.right), Top)).focus;
      SiblingRoot(z, s');
      Case6Root(Zip(z.focus, WithSibling(z.path, s')));
    } else if z.path.RightOf? && BlackRooted(s.left) && IsRed(s.right) {
      var s' := RotateLeft(Zip(Node(Red, s.key, s.obj, s.left, Paint(s.right, Black)), Top)).focus;
      SiblingRoot(z, s');
      Case6Root(Zip(z.focus, WithSibling(z.path, s')));
    } else {
      Case6Root(z);
    }
  }

  lemma Case4Root(z: Zip)
    requires z.focus.Node? && z.path != Top && BlackRooted(Whole(z))
    ensures Case4(z).Done? ==> BlackRooted(Case4(z).tree)
  {
    var s := Sibling(z.path);
    if ParentColor(z.path) == Red && AllBlack(s) {
      var z' := Zip(z.focus, PaintParent(WithSibling(z.path, Paint(s, Red)), Black));
      if z.path.up != Top {
        RootIndependent(z.path.up, Up(z').focus, Up(z).focus);
      } else {
        assert Whole(z') == Up(z').focus;
      }
    } else {
      Case5Root(z);
    }
  }

  /** A rebalance that ends leaves the root black. */
  lemma {:induction false} Case1Root(z: Zip)
    requires z.focus.Node? && BlackRooted(Whole(z))
    ensures Case1(z).Done? ==> BlackRooted(Case1(z).tree)
    decreases PathLen(z.path), 3
  {
    if z.path != Top { Case2Root(z); }
  }

  lemma {:induction false} Case2Root(z: Zip)
    requires z.focus.Node? && z.path != Top && BlackRooted(Whole(z))
    ensures Case2(z).Done? ==> BlackRooted(Case2(z).tree)
    decreases PathLen(z.path), 2
  {
    var s := Sibling(z.path);
    if IsRed(s) {
      var pz := Up(Zip(z.focus, WithSibling(PaintParent(z.path, Red), Paint(s, Black))));
      var z' := if z.path.LeftOf? then Left(Left(RotateLeft(pz))) else Right(Right(RotateRight(pz)));
      if z.path.up != Top {
        var top := if z.path.LeftOf? then RotateLeft(pz).focus else RotateRight(pz).focus;
        RootIndependent(z.path.up, top, Up(z).focus);
      }
      Case3Root(z');
    } else {
      Case3Root(z);
    }
  }

  lemma {:induction false} Case3Root(z: Zip)
    requires z.focus.Node? && z.path != Top && BlackRooted(Whole(z))
    ensures Case3(z).Done? ==> BlackRooted(Case3(z).tree)
    decreases if ParentColor(z.path) == Red then 0 else PathLen(z.path), 1
  {
    var s := Sibling(z.path);
    if ParentColor(z.path) == Black && AllBlack(s) {
      var z' := Zip(z.focus, WithSibling(z.path, Paint(s, Red)));
      SiblingRoot(z, Paint(s, Red));
      Case1Root(Up(z'));
    } else {
      Case4Root(z);
    }
  }

  // ---------------------------------------------------------------- unlinking one node

  /** Unlinking a node with at most one child removes exactly its pair from the in-order sequence. */
  lemma DeleteSingleItems(z: Zip)
    requires z.focus.Node? && (z.focus.left.Nil? || z.focus.right.Nil?)
    ensures DeleteSingle(z).Done? ==>
      Items(DeleteSingle(z).tree) == Before(z.path) + Items(z.focus.left) + Items(z.focus.right) + After(z.path)
  {
    var n := z.focus;
    if n.left.Nil? && n.right.Nil? {
      PlugItems(z.path, Nil);
    } else {
      var child := if n.left.Node? then n.left else n.right;
      assert Items(n.left) + Items(n.right) == Items(child);
      PlugItems(z.path, child);
      if n.color != Red {
        if child.color == Red {
          PlugSameItems(z.path, Paint(child, Black), child);
        } else {
          Case1Items(Zip(child, z.path));
        }
      }
    }
  }

  /** Unlinking keeps a black root black. */
  lemma DeleteSingleRoot(z: Zip)
    requires z.focus.Node? && (z.focus.left.Nil? || z.focus.right.Nil?) && BlackRooted(Whole(z))
    ensures DeleteSingle(z).Done? ==> BlackRooted(DeleteSingle(z).tree)
  {
    var n := z.focus;
    if n.left.Nil? && n.right.Nil? {
      if z.path != Top { RootIndependent(z.path, Nil, n); }
    } else {
      var child := if n.left.Node? then n.left else n.right;
      if z.path != Top {
        RootIndependent(z.path, child, n);
        RootIndependent(z.path, Paint(child, Black), n);
        if n.color != Red && child.color != Red {
          Case1Root(Zip(child, z.path));
        }
      } else if n.color != Red && child.color != Red {
        Case1Root(Zip(child, z.path));
      }
    }
  }
}
