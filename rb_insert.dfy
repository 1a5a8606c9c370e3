// `_rb_check_after_insert_by_rb_rule` (utilRbTree.c): the recolouring and
// rotations after a red leaf has been linked under its parent, on zippers.
module RbInsert {
  import opened RbCore

  /** The topmost frame of a non-empty path, that is the root, is black. */
  predicate TopBlack(p: Path)
  {
    match p
    case Top => true
    case LeftOf(c, _, _, _, up) => if up == Top then c == Black else TopBlack(up)
    case RightOf(c, _, _, _, up) => if up == Top then c == Black else TopBlack(up)
  }

  /** Paint the parent frame `pc` and the grandparent frame `gc`. */
  function PaintParents(p: Path, pc: Color, gc: Color): (r: Path)
    requires p != Top && p.up != Top
    ensures r != Top && r.up != Top && r.LeftOf? == p.LeftOf? && r.up.LeftOf? == p.up.LeftOf?
    ensures r.up.up == p.up.up && r.color == pc && r.up.color == gc
  {
    match p
    case LeftOf(_, k, o, s, up) => LeftOf(pc, k, o, s, PaintParent(up, gc))
    case RightOf(_, k, o, s, up) => RightOf(pc, k, o, s, PaintParent(up, gc))
  }

  lemma PaintParentsItems(p: Path, pc: Color, gc: Color, t: Tree)
    requires p != Top && p.up != Top
    ensures Items(Plug(PaintParents(p, pc, gc), t)) == Items(Plug(p, t))
  {
    var n := Up(Zip(t, p)).focus;
    var n' := Up(Zip(t, PaintParents(p, pc, gc))).focus;
    assert Items(n') == Items(n);
    PaintParentItems(p.up, gc, n');
    PlugSameItems(p.up, n', n);
  }

  /**
   * Step 1 of the "uncle black" case: when the node and its parent lean
   * different ways, rotate the parent so that they lean the same way, and
   * continue with the former parent (`node = node->left` / `node->right`).
   */
  function StraightenInsert(z: Zip): (r: Zip)
    requires z.focus.Node? && z.path != Top && z.path.up != Top
    ensures r.focus.Node? && r.path != Top && r.path.up != Top
    ensures (r.path.LeftOf? && r.path.up.LeftOf?) || (r.path.RightOf? && r.path.up.RightOf?)
    ensures r.path.up.up == z.path.up.up
  {
    if z.path.RightOf? && z.path.up.LeftOf? then Left(RotateLeft(Up(z)))
    else if z.path.LeftOf? && z.path.up.RightOf? then Right(RotateRight(Up(z)))
    else z
  }

  /**
   * Step 2: parent black, grandparent red, then rotate the grandparent away
   * from the node.  Returns the whole tree.
   */
  function RotateGrandparent(z: Zip): Tree
    requires z.focus.Node? && z.path != Top && z.path.up != Top
    requires (z.path.LeftOf? && z.path.up.LeftOf?) || (z.path.RightOf? && z.path.up.RightOf?)
  {
    var g := Up(Up(Zip(z.focus, PaintParents(z.path, Black, Red))));
    if z.path.LeftOf? && z.path.up.LeftOf? then Whole(RotateRight(g)) else Whole(RotateLeft(g))
  }

  /** Case 3: parent and uncle black, grandparent red; the grandparent is the new focus. */
  function RecolorUncle(z: Zip): (r: Zip)
    requires z.focus.Node? && z.path != Top && z.path.up != Top
    ensures r.focus.Node? && r.path == z.path.up.up
  {
    var up := z.path.up;
    var pz := Up(Zip(z.focus, PaintParent(z.path, Black)));
    Up(Zip(pz.focus, PaintParent(WithSibling(up, Paint(Sibling(up), Black)), Red)))
  }

  lemma TopBlackUp(p: Path)
    requires p != Top && TopBlack(p)
    ensures TopBlack(p.up)
  {
  }

  /**
   * `_rb_check_after_insert_by_rb_rule` on the node `z.focus`, returning the
   * whole tree.  `TopBlack` is what keeps the grandparent pointer non-NULL
   * whenever the parent is red.
   */
  function InsertFixup(z: Zip): Tree
    requires z.focus.Node? && TopBlack(z.path)
    decreases PathLen(z.path)
  {
    if z.path == Top then Paint(z.focus, Black)                       // case 1: root
    else if ParentColor(z.path) == Black then Whole(z)                // case 2: parent black
    else
      assert z.path.up != Top;
      if IsRed(Sibling(z.path.up)) then                               // case 3: uncle red
        TopBlackUp(z.path);
        TopBlackUp(z.path.up);
        InsertFixup(RecolorUncle(z))
      else                                                            // cases 4 and 5
        RotateGrandparent(StraightenInsert(z))
  }

  // ---------------------------------------------------------------- contents are kept

  lemma StraightenInsertItems(z: Zip)
    requires z.focus.Node? && z.path != Top && z.path.up != Top
    ensures Items(Whole(StraightenInsert(z))) == Items(Whole(z))
  {
    if z.path.RightOf? && z.path.up.LeftOf? {
      RotateLeftItems(Up(z));
    } else if z.path.LeftOf? && z.path.up.RightOf? {
      RotateRightItems(Up(z));
    }
  }

  lemma RotateGrandparentItems(z: Zip)
    requires z.focus.Node? && z.path != Top && z.path.up != Top
    requires (z.path.LeftOf? && z.path.up.LeftOf?) || (z.path.RightOf? && z.path.up.RightOf?)
    ensures Items(RotateGrandparent(z)) == Items(Whole(z))
  {
    var g := Up(Up(Zip(z.focus, PaintParents(z.path, Black, Red))));
    PaintParentsItems(z.path, Black, Red, z.focus);
    if z.path.LeftOf? && z.path.up.LeftOf? { RotateRightItems(g); } else { RotateLeftItems(g); }
  }

  lemma RecolorUncleItems(z: Zip)
    requires z.focus.Node? && z.path != Top && z.path.up != Top
    ensures Items(Whole(RecolorUncle(z))) == Items(Whole(z))
  {
    var up := z.path.up;
    var pz := Up(Zip(z.focus, PaintParent(z.path, Black)));
    var up' := WithSibling(up, Paint(Sibling(up), Black));
    PaintParentItems(up', Red, pz.focus);
    WithSiblingItems(up, Paint(Sibling(up), Black), pz.focus);
    PaintParentItems(z.path, Black, z.focus);
  }

  /** The fixup only rotates and recolours: the in-order items stay the same. */
  lemma {:induction false} InsertFixupItems(z: Zip)
    requires z.focus.Node? && TopBlack(z.path)
    ensures Items(InsertFixup(z)) == Items(Whole(z))
    decreases PathLen(z.path)
  {
    if z.path == Top {
    } else if ParentColor(z.path) == Black {
    } else if IsRed(Sibling(z.path.up)) {
      TopBlackUp(z.path);
      TopBlackUp(z.path.up);
      InsertFixupItems(RecolorUncle(z));
      RecolorUncleItems(z);
    } else {
      StraightenInsertItems(z);
      RotateGrandparentItems(StraightenInsert(z));
    }
  }

  // ---------------------------------------------------------------- red-black rules

  /** A parent frame whose other child `s` is a valid sibling for a child of black height `h`. */
  ghost predicate FrameOK(c: Color, s: Tree, h: nat, childRed: bool)
  {
    RB(s) && BH(s) == h && (c == Red ==> !childRed && BlackRooted(s))
  }

  /**
   * Plugging a valid subtree of black height `h` (red iff `childRed`) into `p`
   * gives a red-black tree.
   */
  ghost predicate PathOK(p: Path, h: nat, childRed: bool)
    decreases p
  {
    match p
    case Top => !childRed
    case LeftOf(c, _, _, s, up) => FrameOK(c, s, h, childRed) && PathOK(up, h + BlackInc(c), c == Red)
    case RightOf(c, _, _, s, up) => FrameOK(c, s, h, childRed) && PathOK(up, h + BlackInc(c), c == Red)
  }

  lemma {:induction false} PlugRB(p: Path, t: Tree)
    requires RB(t) && PathOK(p, BH(t), IsRed(t))
    ensures RedBlack(Plug(p, t))
    decreases p
  {
    match p
    case Top =>
    case LeftOf(c, k, o, s, up) => PlugRB(up, Node(c, k, o, t, s));
    case RightOf(c, k, o, s, up) => PlugRB(up, Node(c, k, o, s, t));
  }

  lemma {:induction false} UnplugRB(p: Path, t: Tree)
    requires RedBlack(Plug(p, t))
    ensures RB(t) && PathOK(p, BH(t), IsRed(t))
    decreases p
  {
    match p
    case Top =>
    case LeftOf(c, k, o, s, up) => UnplugRB(up, Node(c, k, o, t, s));
    case RightOf(c, k, o, s, up) => UnplugRB(up, Node(c, k, o, s, t));
  }

  lemma {:induction false} PathOKTopBlack(p: Path, h: nat, childRed: bool)
    requires PathOK(p, h, childRed)
    ensures TopBlack(p)
    decreases p
  {
    match p
    case Top =>
    case LeftOf(c, _, _, _, up) => if up != Top { PathOKTopBlack(up, h + BlackInc(c), c == Red); }
    case RightOf(c, _, _, _, up) => if up != Top { PathOKTopBlack(up, h + BlackInc(c), c == Red); }
  }

  /** While fixing up: a red focus whose only possible fault is a red parent. */
  ghost predicate FixInv(z: Zip)
  {
    z.focus.Node? && z.focus.color == Red && RB(z.focus) && PathOK(z.path, BH(z.focus), false)
  }

  /** A fresh red leaf hung in an empty slot of a red-black tree satisfies the fixup invariant. */
  lemma NewLeafFixInv(p: Path, k: Key, o: Obj)
    requires RedBlack(Plug(p, Nil))
    ensures FixInv(Zip(Node(Red, k, o, Nil, Nil), p)) && TopBlack(p)
  {
    UnplugRB(p, Nil);
    PathOKTopBlack(p, 0, false);
  }

  lemma FixInvTopBlack(z: Zip)
    requires FixInv(z)
    ensures TopBlack(z.path)
  {
    PathOKTopBlack(z.path, BH(z.focus), false);
  }

  lemma RecolorUncleRB(z: Zip)
    requires FixInv(z) && z.path != Top && ParentColor(z.path) == Red
    ensures z.path.up != Top && (IsRed(Sibling(z.path.up)) ==> FixInv(RecolorUncle(z)))
  {
    var h := BH(z.focus);
    assert PathOK(z.path.up, h, true);
  }

  /** Cases 4 and 5 end in a red-black tree. */
  lemma RotateGrandparentRB(z: Zip)
    requires FixInv(z) && z.path != Top && ParentColor(z.path) == Red
    requires z.path.up != Top && !IsRed(Sibling(z.path.up))
    ensures RedBlack(RotateGrandparent(StraightenInsert(z)))
  {
    var n, h := z.focus, BH(z.focus);
    var z1 := StraightenInsert(z);
    var g := Up(Up(Zip(z1.focus, PaintParents(z1.path, Black, Red))));
    assert PathOK(z.path.up, h, true);
    assert PathOK(z.path.up.up, h + 1, false);
    var top := if z1.path.LeftOf? && z1.path.up.LeftOf? then RotateRight(g).focus else RotateLeft(g).focus;
    assert RotateGrandparent(z1) == Plug(z.path.up.up, top);
    var a, b := n.left, n.right;
    var s, u := Sibling(z.path), Sibling(z.path.up);
    var p, gp := z.path, z.path.up;
    assert RB(a) && RB(b) && BH(a) == h && BH(b) == h && BlackRooted(a) && BlackRooted(b);
    assert FrameOK(p.color, s, h, false);
    assert RB(s) && BH(s) == h && BlackRooted(s);
    assert FrameOK(gp.color, u, h, true);
    assert RB(u) && BH(u) == h && BlackRooted(u);
    if p.LeftOf? && gp.LeftOf? {
      var g' := Node(Red, gp.key, gp.obj, s, u);
      assert top == Node(Black, p.key, p.obj, n, g');
      assert RB(g') && BH(g') == h && BH(n) == h;
    } else if p.RightOf? && gp.LeftOf? {
      var l, r := Node(Red, p.key, p.obj, s, a), Node(Red, gp.key, gp.obj, b, u);
      assert top == Node(Black, n.key, n.obj, l, r);
      assert RB(l) && BH(l) == h && RB(r) && BH(r) == h;
    } else if p.LeftOf? && gp.RightOf? {
      var l, r := Node(Red, gp.key, gp.obj, u, a), Node(Red, p.key, p.obj, b, s);
      assert top == Node(Black, n.key, n.obj, l, r);
      assert RB(l) && BH(l) == h && RB(r) && BH(r) == h;
    } else {
      var g' := Node(Red, gp.key, gp.obj, u, s);
      assert top == Node(Black, p.key, p.obj, g', n);
      assert RB(g') && BH(g') == h && BH(n) == h;
    }
    assert RB(top) && BH(top) == h + 1 && top.color == Black;
    PlugRB(z.path.up.up, top);
  }

  /**
   * After the fixup the tree obeys the red-black rules: the root is black, no
   * red node has a red child, and all root-to-leaf paths have equal black counts.
   */
  lemma {:induction false} InsertFixupRB(z: Zip)
    requires FixInv(z)
    ensures TopBlack(z.path) && RedBlack(InsertFixup(z))
    decreases PathLen(z.path)
  {
    FixInvTopBlack(z);
    if z.path == Top {
    } else if ParentColor(z.path) == Black {
      assert PathOK(z.path, BH(z.focus), true);
      PlugRB(z.path, z.focus);
    } else {
      RecolorUncleRB(z);
      if IsRed(Sibling(z.path.up)) {
        TopBlackUp(z.path);
        TopBlackUp(z.path.up);
        InsertFixupRB(RecolorUncle(z));
      } else {
        RotateGrandparentRB(z);
      }
    }
  }

  // ---------------------------------------------------------------- the root stays black

  /** Below a black top frame, whatever is plugged in, the root is a black node. */
  lemma {:induction false} TopBlackRoot(p: Path, t: Tree)
    requires p != Top && TopBlack(p)
    ensures Plug(p, t).Node? && Plug(p, t).color == Black
    decreases p
  {
    match p
    case LeftOf(c, k, o, r, up) => if up != Top { TopBlackRoot(up, Node(c, k, o, t, r)); }
    case RightOf(c, k, o, l, up) => if up != Top { TopBlackRoot(up, Node(c, k, o, l, t)); }
  }

  lemma RotateGrandparentRoot(z: Zip)
    requires z.focus.Node? && z.path != Top && z.path.up != Top
    requires (z.path.LeftOf? && z.path.up.LeftOf?) || (z.path.RightOf? && z.path.up.RightOf?)
    requires TopBlack(z.path.up.up)
    ensures BlackRooted(RotateGrandparent(z))
  {
    var g := Up(Up(Zip(z.focus, PaintParents(z.path, Black, Red))));
    assert g.path == z.path.up.up;
    var r := if z.path.LeftOf? && z.path.up.LeftOf? then RotateRight(g) else RotateLeft(g);
    if g.path != Top {
      TopBlackRoot(g.path, r.focus);
    } else {
      assert r.focus.color == Black;
    }
  }

  /**
   * The fixup leaves the root black in any tree whose root was black, red-black
   * or not; this is what keeps it safe after deletes have unbalanced the tree.
   */
  lemma {:induction false} InsertFixupRoot(z: Zip)
    requires z.focus.Node? && TopBlack(z.path)
    ensures BlackRooted(InsertFixup(z))
    decreases PathLen(z.path)
  {
    if z.path == Top {
    } else if ParentColor(z.path) == Black {
      TopBlackRoot(z.path, z.focus);
    } else {
      TopBlackUp(z.path);
      TopBlackUp(z.path.up);
      if IsRed(Sibling(z.path.up)) {
        InsertFixupRoot(RecolorUncle(z));
      } else {
        RotateGrandparentRoot(StraightenInsert(z));
      }
    }
  }

  /** A black root makes every slot's path start with a black top frame. */
  lemma {:induction false} RootTopBlack(p: Path, t: Tree)
    requires BlackRooted(Plug(p, t)) && Plug(p, t).Node?
    ensures TopBlack(p)
    decreases p
  {
    match p
    case Top =>
    case LeftOf(c, k, o, r, up) => if up != Top { RootTopBlack(up, Node(c, k, o, t, r)); }
    case RightOf(c, k, o, l, up) => if up != Top { RootTopBlack(up, Node(c, k, o, l, t)); }
  }
}
