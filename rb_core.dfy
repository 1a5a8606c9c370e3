// Red-black tree nodes of utilRbTree.c as values.
//
// A C node carries key, colour, object and parent/left/right pointers.  Here a
// tree is a datatype and the parent pointers are a zipper: a `Zip` is a node
// (the focus) together with the path of parent frames up to the root, each
// frame remembering the parent's colour, key, object and the other child.
// Following `node->parent` is `Up`, following a child pointer is `Left` or
// `Right`, and `Plug` rebuilds the whole tree that the pointers describe, so
// parent/child consistency holds by construction.
module RbCore {

  /** RbKey_t: an unsigned 64-bit key. */
  type Key = k: int | 0 <= k < 0x1_0000_0000_0000_0000
  /** The `void *obj` stored beside each key, as an address (0 is NULL). */
  type Obj = nat

  datatype Color = Black | Red

  datatype Tree = Nil | Node(color: Color, key: Key, obj: Obj, left: Tree, right: Tree)

  /** One key/object pair, as a traversal callback receives it. */
  datatype Item = Item(key: Key, obj: Obj)

  /** Parent frames: `LeftOf` means the focus is the parent's left child. */
  datatype Path =
    | Top
    | LeftOf(color: Color, key: Key, obj: Obj, right: Tree, up: Path)
    | RightOf(color: Color, key: Key, obj: Obj, left: Tree, up: Path)

  datatype Zip = Zip(focus: Tree, path: Path)

  // ---------------------------------------------------------------- contents

  function Items(t: Tree): seq<Item>
  {
    match t
    case Nil => []
    case Node(_, k, o, l, r) => Items(l) + [Item(k, o)] + Items(r)
  }

  function KeysOf(s: seq<Item>): (r: seq<Key>)
    ensures |r| == |s| && forall i :: 0 <= i < |s| ==> r[i] == s[i].key
  {
    seq(|s|, i requires 0 <= i < |s| => s[i].key)
  }

  /** The in-order key sequence of a tree. */
  function Keys(t: Tree): seq<Key>
  {
    KeysOf(Items(t))
  }

  lemma KeysOfAppend(a: seq<Item>, b: seq<Item>)
    ensures KeysOf(a + b) == KeysOf(a) + KeysOf(b)
  {
  }

  lemma KeysNode(c: Color, k: Key, o: Obj, l: Tree, r: Tree)
    ensures Keys(Node(c, k, o, l, r)) == Keys(l) + [k] + Keys(r)
  {
    KeysOfAppend(Items(l) + [Item(k, o)], Items(r));
    KeysOfAppend(Items(l), [Item(k, o)]);
  }

  ghost predicate Increasing(s: seq<Key>)
  {
    forall i, j :: 0 <= i < j < |s| ==> s[i] < s[j]
  }

  /** Binary-search-tree order: the in-order keys are strictly increasing. */
  ghost predicate Ordered(t: Tree)
  {
    Increasing(Keys(t))
  }

  lemma IncreasingSplit(L: seq<Key>, k: Key, R: seq<Key>)
    requires Increasing(L + [k] + R)
    ensures Increasing(L) && Increasing(R)
    ensures (forall x :: x in L ==> x < k) && (forall y :: y in R ==> k < y)
  {
    var s := L + [k] + R;
    forall i, j | 0 <= i < j < |L| ensures L[i] < L[j] {
      assert L[i] == s[i] && L[j] == s[j];
    }
    forall i, j | 0 <= i < j < |R| ensures R[i] < R[j] {
      assert R[i] == s[|L| + 1 + i] && R[j] == s[|L| + 1 + j];
    }
    forall x | x in L ensures x < k {
      var i :| 0 <= i < |L| && L[i] == x;
      assert s[i] == x && s[|L|] == k;
    }
    forall y | y in R ensures k < y {
      var i :| 0 <= i < |R| && R[i] == y;
      assert s[|L| + 1 + i] == y && s[|L|] == k;
    }
  }

  lemma IncreasingJoin(L: seq<Key>, k: Key, R: seq<Key>)
    requires Increasing(L) && Increasing(R)
    requires (forall x :: x in L ==> x < k) && (forall y :: y in R ==> k < y)
    ensures Increasing(L + [k] + R)
  {
    var s := L + [k] + R;
    forall i, j | 0 <= i < j < |s| ensures s[i] < s[j] {
      if j < |L| {
        assert s[i] == L[i] && s[j] == L[j];
      } else if j == |L| {
        assert s[i] == L[i] && L[i] in L;
      } else if i < |L| {
        assert s[i] == L[i] && L[i] in L && s[j] == R[j - |L| - 1] && R[j - |L| - 1] in R;
      } else if i == |L| {
        assert s[j] == R[j - |L| - 1] && R[j - |L| - 1] in R;
      } else {
        assert s[i] == R[i - |L| - 1] && s[j] == R[j - |L| - 1];
      }
    }
  }

  /** Ordered, stated node by node: left keys below, right keys above. */
  lemma OrderedNode(c: Color, k: Key, o: Obj, l: Tree, r: Tree)
    ensures Ordered(Node(c, k, o, l, r)) <==>
      Ordered(l) && Ordered(r) &&
      (forall x :: x in Keys(l) ==> x < k) && (forall y :: y in Keys(r) ==> k < y)
  {
    KeysNode(c, k, o, l, r);
    if Ordered(Node(c, k, o, l, r)) {
      IncreasingSplit(Keys(l), k, Keys(r));
    }
    if Ordered(l) && Ordered(r) && (forall x :: x in Keys(l) ==> x < k) && (forall y :: y in Keys(r) ==> k < y) {
      IncreasingJoin(Keys(l), k, Keys(r));
    }
  }

  lemma IncreasingMiddle(a: seq<Key>, m: seq<Key>, b: seq<Key>)
    requires Increasing(a + m + b)
    ensures Increasing(m)
  {
    var s := a + m + b;
    forall i, j | 0 <= i < j < |m| ensures m[i] < m[j] {
      assert m[i] == s[|a| + i] && m[j] == s[|a| + j];
    }
  }

  lemma ItemKeyInKeys(t: Tree, x: Item)
    requires x in Items(t)
    ensures x.key in Keys(t)
  {
    var i :| 0 <= i < |Items(t)| && Items(t)[i] == x;
    assert Keys(t)[i] == x.key;
  }

  /** In an ordered tree the left items have smaller keys than the node and the right items larger. */
  lemma OrderedItems(t: Tree)
    requires t.Node? && Ordered(t)
    ensures Ordered(t.left) && Ordered(t.right)
    ensures forall x :: x in Items(t.left) ==> x.key < t.key
    ensures forall y :: y in Items(t.right) ==> t.key < y.key
  {
    OrderedNode(t.color, t.key, t.obj, t.left, t.right);
    forall x | x in Items(t.left) ensures x.key < t.key { ItemKeyInKeys(t.left, x); }
    forall y | y in Items(t.right) ensures t.key < y.key { ItemKeyInKeys(t.right, y); }
  }

  function Size(t: Tree): nat
  {
    match t
    case Nil => 0
    case Node(_, _, _, l, r) => Size(l) + 1 + Size(r)
  }

  lemma {:induction false} SizeItems(t: Tree)
    ensures |Items(t)| == Size(t)
  {
    match t
    case Nil =>
    case Node(_, _, _, l, r) => SizeItems(l); SizeItems(r);
  }

  // ---------------------------------------------------------------- zipper

  function Plug(p: Path, t: Tree): Tree
    decreases p
  {
    match p
    case Top => t
    case LeftOf(c, k, o, r, up) => Plug(up, Node(c, k, o, t, r))
    case RightOf(c, k, o, l, up) => Plug(up, Node(c, k, o, l, t))
  }

  /** The whole tree a node pointer belongs to. */
  function Whole(z: Zip): Tree
  {
    Plug(z.path, z.focus)
  }

  function PathLen(p: Path): nat
  {
    match p
    case Top => 0
    case LeftOf(_, _, _, _, up) => 1 + PathLen(up)
    case RightOf(_, _, _, _, up) => 1 + PathLen(up)
  }

  /** Items that come before the focus in in-order. */
  function Before(p: Path): seq<Item>
  {
    match p
    case Top => []
    case LeftOf(_, _, _, _, up) => Before(up)
    case RightOf(_, k, o, l, up) => Before(up) + Items(l) + [Item(k, o)]
  }

  /** Items that come after the focus in in-order. */
  function After(p: Path): seq<Item>
  {
    match p
    case Top => []
    case LeftOf(_, k, o, r, up) => [Item(k, o)] + Items(r) + After(up)
    case RightOf(_, _, _, _, up) => After(up)
  }

  /** The focus occupies one contiguous stretch of the whole in-order sequence. */
  lemma {:induction false} PlugItems(p: Path, t: Tree)
    ensures Items(Plug(p, t)) == Before(p) + Items(t) + After(p)
    decreases p
  {
    match p
    case Top =>
    case LeftOf(c, k, o, r, up) =>
      PlugItems(up, Node(c, k, o, t, r));
    case RightOf(c, k, o, l, up) =>
      PlugItems(up, Node(c, k, o, l, t));
  }

  /** Replacing the focus by a subtree with the same items keeps the whole tree's items. */
  lemma PlugSameItems(p: Path, t1: Tree, t2: Tree)
    requires Items(t1) == Items(t2)
    ensures Items(Plug(p, t1)) == Items(Plug(p, t2))
  {
    PlugItems(p, t1);
    PlugItems(p, t2);
  }

  lemma PlugKeys(p: Path, t: Tree)
    ensures Keys(Plug(p, t)) == KeysOf(Before(p)) + Keys(t) + KeysOf(After(p))
  {
    PlugItems(p, t);
    KeysOfAppend(Before(p) + Items(t), After(p));
    KeysOfAppend(Before(p), Items(t));
  }

  /** The path `inner`, which leads from some subtree's root, continued by the path `outer` to that subtree. */
  function AppendPath(inner: Path, outer: Path): (r: Path)
    decreases inner
  {
    match inner
    case Top => outer
    case LeftOf(c, k, o, rt, up) => LeftOf(c, k, o, rt, AppendPath(up, outer))
    case RightOf(c, k, o, lt, up) => RightOf(c, k, o, lt, AppendPath(up, outer))
  }

  lemma {:induction false} AppendPathPlug(inner: Path, outer: Path, t: Tree)
    ensures Plug(AppendPath(inner, outer), t) == Plug(outer, Plug(inner, t))
    ensures Before(AppendPath(inner, outer)) == Before(outer) + Before(inner)
    ensures After(AppendPath(inner, outer)) == After(inner) + After(outer)
    decreases inner
  {
    match inner
    case Top =>
    case LeftOf(c, k, o, rt, up) =>
      AppendPathPlug(up, outer, Node(c, k, o, t, rt));
    case RightOf(c, k, o, lt, up) =>
      AppendPathPlug(up, outer, Node(c, k, o, lt, t));
  }

  /** The focus of an ordered tree is itself ordered. */
  lemma OrderedFocus(p: Path, t: Tree)
    requires Ordered(Plug(p, t))
    ensures Ordered(t)
  {
    PlugKeys(p, t);
    IncreasingMiddle(KeysOf(Before(p)), Keys(t), KeysOf(After(p)));
  }

  /** `node->parent`: move the focus to the parent, rebuilding it. */
  function Up(z: Zip): (r: Zip)
    requires z.path != Top
    ensures Whole(r) == Whole(z)
    ensures PathLen(r.path) + 1 == PathLen(z.path)
  {
    match z.path
    case LeftOf(c, k, o, r, up) => Zip(Node(c, k, o, z.focus, r), up)
    case RightOf(c, k, o, l, up) => Zip(Node(c, k, o, l, z.focus), up)
  }

  /** `node->left` of a node whose left child exists. */
  function Left(z: Zip): (r: Zip)
    requires z.focus.Node? && z.focus.left.Node?
    ensures Whole(r) == Whole(z) && r.focus == z.focus.left
    ensures PathLen(r.path) == PathLen(z.path) + 1
  {
    var n := z.focus;
    Zip(n.left, LeftOf(n.color, n.key, n.obj, n.right, z.path))
  }

  /** `node->right` of a node whose right child exists. */
  function Right(z: Zip): (r: Zip)
    requires z.focus.Node? && z.focus.right.Node?
    ensures Whole(r) == Whole(z) && r.focus == z.focus.right
    ensures PathLen(r.path) == PathLen(z.path) + 1
  {
    var n := z.focus;
    Zip(n.right, RightOf(n.color, n.key, n.obj, n.left, z.path))
  }

  predicate IsRed(t: Tree)
  {
    t.Node? && t.color == Red
  }

  /** `_node_is_black` extended to NULL children, which count as black. */
  predicate BlackRooted(t: Tree)
  {
    t.Nil? || t.color == Black
  }

  function Paint(t: Tree, c: Color): Tree
  {
    match t
    case Nil => Nil
    case Node(_, k, o, l, r) => Node(c, k, o, l, r)
  }

  function ParentColor(p: Path): Color
    requires p != Top
  {
    p.color
  }

  /** Recolour the parent frame (`_SET_BLACK(node->parent)` and friends). */
  function PaintParent(p: Path, c: Color): (r: Path)
    requires p != Top
    ensures r != Top && PathLen(r) == PathLen(p) && ParentColor(r) == c
  {
    match p
    case LeftOf(_, k, o, s, up) => LeftOf(c, k, o, s, up)
    case RightOf(_, k, o, s, up) => RightOf(c, k, o, s, up)
  }

  /** The other child of the parent: `_node_brother`. */
  function Sibling(p: Path): Tree
    requires p != Top
  {
    match p
    case LeftOf(_, _, _, r, _) => r
    case RightOf(_, _, _, l, _) => l
  }

  /** Replace the other child of the parent. */
  function WithSibling(p: Path, s: Tree): (r: Path)
    requires p != Top
    ensures r != Top && PathLen(r) == PathLen(p) && r.LeftOf? == p.LeftOf?
  {
    match p
    case LeftOf(c, k, o, _, up) => LeftOf(c, k, o, s, up)
    case RightOf(c, k, o, _, up) => RightOf(c, k, o, s, up)
  }

  lemma PaintItems(t: Tree, c: Color)
    ensures Items(Paint(t, c)) == Items(t)
  {
  }

  lemma PaintParentItems(p: Path, c: Color, t: Tree)
    requires p != Top
    ensures Items(Plug(PaintParent(p, c), t)) == Items(Plug(p, t))
  {
    PlugItems(PaintParent(p, c), t);
    PlugItems(p, t);
  }

  lemma WithSiblingItems(p: Path, s: Tree, t: Tree)
    requires p != Top && Items(s) == Items(Sibling(p))
    ensures Items(Plug(WithSibling(p, s), t)) == Items(Plug(p, t))
  {
    PlugItems(WithSibling(p, s), t);
    PlugItems(p, t);
  }

  // ---------------------------------------------------------------- rotations

  /**
   * `_rb_rotate_left`: the right child `prevRight` takes the node's place,
   * the node becomes its left child and takes over `prevRight->left`.  When
   * the node was the root (`path == Top`), `prevRight` is the new root.  The
   * focus of the result is `prevRight`, now sitting where the node was.
   */
  function RotateLeft(z: Zip): (r: Zip)
    requires z.focus.Node? && z.focus.right.Node?
    ensures r.path == z.path && r.focus.Node? && r.focus.left.Node?
  {
    var n := z.focus;
    var pr := n.right;
    Zip(Node(pr.color, pr.key, pr.obj, Node(n.color, n.key, n.obj, n.left, pr.left), pr.right), z.path)
  }

  /** `_rb_rotate_right`, the mirror image of `RotateLeft`. */
  function RotateRight(z: Zip): (r: Zip)
    requires z.focus.Node? && z.focus.left.Node?
    ensures r.path == z.path && r.focus.Node? && r.focus.right.Node?
  {
    var n := z.focus;
    var pl := n.left;
    Zip(Node(pl.color, pl.key, pl.obj, pl.left, Node(n.color, n.key, n.obj, pl.right, n.right)), z.path)
  }

  /** A left rotation keeps the in-order sequence of the whole tree. */
  lemma RotateLeftItems(z: Zip)
    requires z.focus.Node? && z.focus.right.Node?
    ensures Items(Whole(RotateLeft(z))) == Items(Whole(z))
  {
    PlugSameItems(z.path, RotateLeft(z).focus, z.focus);
  }

  /** A right rotation keeps the in-order sequence of the whole tree. */
  lemma RotateRightItems(z: Zip)
    requires z.focus.Node? && z.focus.left.Node?
    ensures Items(Whole(RotateRight(z))) == Items(Whole(z))
  {
    PlugSameItems(z.path, RotateRight(z).focus, z.focus);
  }

  /**
   * Rotating the root makes the former right child the root of the whole
   * tree (`tree->nodes = prevRight`), with the old root as its left child.
   */
  lemma RotateLeftAtRoot(z: Zip)
    requires z.focus.Node? && z.focus.right.Node? && z.path == Top
    ensures var t := Whole(RotateLeft(z));
      t.Node? && t.key == z.focus.right.key && t.left.Node? && t.left.key == z.focus.key &&
      t.left.right == z.focus.right.left && t.right == z.focus.right.right
  {
  }

  /** Rotating the root right makes the former left child the root. */
  lemma RotateRightAtRoot(z: Zip)
    requires z.focus.Node? && z.focus.left.Node? && z.path == Top
    ensures var t := Whole(RotateRight(z));
      t.Node? && t.key == z.focus.left.key && t.right.Node? && t.right.key == z.focus.key &&
      t.right.left == z.focus.left.right && t.left == z.focus.left.left
  {
  }

  /** Rotating a non-root node leaves the frames above it untouched. */
  lemma RotateBelowRoot(z: Zip)
    requires z.focus.Node? && z.focus.right.Node? && z.focus.left.Node? && z.path != Top
    ensures RotateLeft(z).path == z.path && RotateRight(z).path == z.path
  {
  }

  // ---------------------------------------------------------------- red-black rules

  function BlackInc(c: Color): nat
  {
    if c == Black then 1 else 0
  }

  /** Number of black nodes on the leftmost root-to-leaf path. */
  function BH(t: Tree): nat
  {
    match t
    case Nil => 0
    case Node(c, _, _, l, _) => BH(l) + BlackInc(c)
  }

  /** No red node has a red child, and both children of every node have the same black height. */
  ghost predicate RB(t: Tree)
  {
    match t
    case Nil => true
    case Node(c, _, _, l, r) =>
      RB(l) && RB(r) && BH(l) == BH(r) && (c == Red ==> BlackRooted(l) && BlackRooted(r))
  }

  /** The three rules the insert fixup restores: black root, no red-red, equal black height. */
  ghost predicate RedBlack(t: Tree)
  {
    RB(t) && BlackRooted(t)
  }

  /** Every root-to-leaf path: the black counts of all of them. */
  ghost function BlackCounts(t: Tree): set<nat>
  {
    match t
    case Nil => {0}
    case Node(c, _, _, l, r) => set n | n in BlackCounts(l) + BlackCounts(r) :: n + BlackInc(c)
  }

  /** Balanced black height means every root-to-leaf path has the same black count. */
  lemma {:induction false} RBBlackCounts(t: Tree)
    requires RB(t)
    ensures BlackCounts(t) == {BH(t)}
  {
    match t
    case Nil =>
    case Node(c, _, _, l, r) =>
      RBBlackCounts(l);
      RBBlackCounts(r);
  }

  /** The colour of the root of a non-empty whole tree does not depend on the focus. */
  lemma {:induction false} RootIndependent(p: Path, t1: Tree, t2: Tree)
    requires p != Top
    ensures Plug(p, t1).Node? && Plug(p, t2).Node? && Plug(p, t1).color == Plug(p, t2).color
    decreases p
  {
    match p
    case LeftOf(c, k, o, r, up) =>
      if up != Top { RootIndependent(up, Node(c, k, o, t1, r), Node(c, k, o, t2, r)); }
    case RightOf(c, k, o, l, up) =>
      if up != Top { RootIndependent(up, Node(c, k, o, l, t1), Node(c, k, o, l, t2)); }
  }
}
