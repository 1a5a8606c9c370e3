// `struct UtilRbTree` (utilRbTree.c): the root pointer, the node count and
// the status bits, with the loops that walk it (`_node_search`,
// `_rb_insert_node`, `_node_find_min_leaf`, `_rb_delete_node`) and the public
// functions that read or change it.
module RbTree {
  import opened Wrappers
  import opened Errno
  import opened RbError
  import opened RbCore
  import opened RbInsert
  import opened RbDelete
  import opened RbTraverse

  const StatusInitOK: bv32 := 1
  const StatusIsChecking: bv32 := 2
  const StatusAbortCheck: bv32 := 4

  /** `_BITS_ALL_SET`. */
  predicate AllSet(v: bv32, bits: bv32)
  {
    v & bits == bits
  }

  // ---------------------------------------------------------------- sequence specifications

  /** The in-order pairs after inserting `x` into a key-sorted sequence. */
  function InsertSorted(s: seq<Item>, x: Item): (r: seq<Item>)
    ensures |r| == |s| + 1
  {
    if s == [] || x.key < s[0].key then [x] + s else [s[0]] + InsertSorted(s[1..], x)
  }

  /** A sequence with the `i`-th pair removed. */
  function RemoveAt(s: seq<Item>, i: nat): (r: seq<Item>)
    requires i < |s|
    ensures |r| == |s| - 1
  {
    s[..i] + s[i + 1..]
  }

  /**
   * A two-child delete as `_rb_delete_node` does it: the key of pair `i + 1`
   * (the successor) moves onto pair `i`, whose object stays, and the
   * successor's pair disappears.
   */
  function SwapDelete(s: seq<Item>, i: nat): (r: seq<Item>)
    requires i + 1 < |s|
    ensures |r| == |s| - 1
  {
    s[..i] + [Item(s[i + 1].key, s[i].obj)] + s[i + 2..]
  }

  /** A key sequence without `k`. */
  function Without(s: seq<Key>, k: Key): seq<Key>
  {
    if s == [] then [] else if s[0] == k then Without(s[1..], k) else [s[0]] + Without(s[1..], k)
  }

  lemma {:induction false} InsertSortedSplit(b: seq<Item>, a: seq<Item>, x: Item)
    requires forall y :: y in b ==> y.key < x.key
    requires forall y :: y in a ==> x.key < y.key
    ensures InsertSorted(b + a, x) == b + [x] + a
    decreases |b|
  {
    if b == [] {
      assert b + a == a;
      if a != [] { assert a[0] in a; }
    } else {
      assert b[0] in b;
      assert (b + a)[1..] == b[1..] + a;
      forall y | y in b[1..] ensures y.key < x.key { assert y in b; }
      InsertSortedSplit(b[1..], a, x);
      assert b + [x] + a == [b[0]] + (b[1..] + [x] + a);
    }
  }

  lemma {:induction false} WithoutAbsent(s: seq<Key>, k: Key)
    requires k !in s
    ensures Without(s, k) == s
    decreases |s|
  {
    if s != [] {
      assert s[1..] + [] == s[1..];
      assert forall x :: x in s[1..] ==> x in s;
      WithoutAbsent(s[1..], k);
    }
  }

  lemma {:induction false} WithoutAppend(a: seq<Key>, b: seq<Key>, k: Key)
    ensures Without(a + b, k) == Without(a, k) + Without(b, k)
    decreases |a|
  {
    if a == [] {
      assert a + b == b;
    } else {
      assert (a + b)[1..] == a[1..] + b;
      WithoutAppend(a[1..], b, k);
    }
  }

  /** In a strictly increasing key sequence, removing the key at `i` is removing position `i`. */
  lemma WithoutAt(s: seq<Key>, i: nat)
    requires Increasing(s) && i < |s|
    ensures Without(s, s[i]) == s[..i] + s[i + 1..]
  {
    var k := s[i];
    assert s == s[..i] + [k] + s[i + 1..];
    assert k !in s[..i] by {
      forall j | 0 <= j < i ensures s[..i][j] != k {
        assert s[..i][j] == s[j];
      }
    }
    var tail := s[i + 1..];
    assert k !in tail by {
      forall j | 0 <= j < |tail| ensures tail[j] != k {
        assert tail[j] == s[i + 1 + j];
      }
    }
    WithoutAppend(s[..i] + [k], s[i + 1..], k);
    WithoutAppend(s[..i], [k], k);
    WithoutAbsent(s[..i], k);
    WithoutAbsent(s[i + 1..], k);
    assert Without([k], k) == [];
  }

  lemma IncreasingRemove(s: seq<Key>, i: nat)
    requires Increasing(s) && i < |s|
    ensures Increasing(s[..i] + s[i + 1..])
  {
    var r := s[..i] + s[i + 1..];
    forall a, b | 0 <= a < b < |r| ensures r[a] < r[b] {
      var a' := if a < i then a else a + 1;
      var b' := if b < i then b else b + 1;
      assert r[a] == s[a'] && r[b] == s[b'];
    }
  }

  lemma KeysRemoveAt(s: seq<Item>, i: nat)
    requires i < |s|
    ensures KeysOf(RemoveAt(s, i)) == KeysOf(s)[..i] + KeysOf(s)[i + 1..]
  {
    var l, r := KeysOf(RemoveAt(s, i)), KeysOf(s)[..i] + KeysOf(s)[i + 1..];
    forall j | 0 <= j < |l| ensures l[j] == r[j] {
      if j < i { assert RemoveAt(s, i)[j] == s[j]; } else { assert RemoveAt(s, i)[j] == s[j + 1]; }
    }
  }

  lemma KeysSwapDelete(s: seq<Item>, i: nat)
    requires i + 1 < |s|
    ensures KeysOf(SwapDelete(s, i)) == KeysOf(s)[..i] + KeysOf(s)[i + 1..]
  {
    var l, r := KeysOf(SwapDelete(s, i)), KeysOf(s)[..i] + KeysOf(s)[i + 1..];
    forall j | 0 <= j < |l| ensures l[j] == r[j] {
      if j < i { assert SwapDelete(s, i)[j] == s[j]; }
      else if j == i { assert SwapDelete(s, i)[j].key == s[i + 1].key; }
      else { assert SwapDelete(s, i)[j] == s[j + 1]; }
    }
  }

  /**
   * The object of the successor is lost in a two-child delete: its key now
   * carries the deleted node's object, so `utilRbTree_GetObject` on that key
   * returns the wrong object whenever the two objects differ.
   */
  lemma SwapDeleteMovesObject(s: seq<Item>, i: nat)
    requires i + 1 < |s| && Increasing(KeysOf(s)) && s[i].obj != s[i + 1].obj
    ensures Item(s[i + 1].key, s[i].obj) in SwapDelete(s, i)
    ensures s[i + 1] !in SwapDelete(s, i)
  {
    var r := SwapDelete(s, i);
    assert r[i] == Item(s[i + 1].key, s[i].obj);
    forall j | 0 <= j < |r| ensures r[j] != s[i + 1] {
      if j < i {
        assert r[j] == s[j] && KeysOf(s)[j] < KeysOf(s)[i + 1];
      } else if j > i {
        assert r[j] == s[j + 1] && KeysOf(s)[i + 1] < KeysOf(s)[j + 1];
      }
    }
  }

  // ---------------------------------------------------------------- the binary-search descent

  /** One step down an ordered tree, as the search and insert loops take it. */
  lemma DescendStep(n: Tree, key: Key)
    requires n.Node? && Ordered(n)
    ensures Ordered(n.left) && Ordered(n.right)
    ensures forall x :: x in Items(n.left) ==> x.key < n.key
    ensures forall y :: y in Items(n.right) ==> n.key < y.key
    ensures key < n.key ==> (key in Keys(n) <==> key in Keys(n.left))
    ensures key > n.key ==> (key in Keys(n) <==> key in Keys(n.right))
    ensures key == n.key ==> key in Keys(n)
  {
    OrderedItems(n);
    OrderedNode(n.color, n.key, n.obj, n.left, n.right);
    KeysNode(n.color, n.key, n.obj, n.left, n.right);
  }

  /** An ordered tree holds at most one pair per key. */
  lemma SameKeySameItem(t: Tree, x: Item, y: Item)
    requires Ordered(t) && x in Items(t) && y in Items(t) && x.key == y.key
    ensures x == y
  {
    var i :| 0 <= i < |Items(t)| && Items(t)[i] == x;
    var j :| 0 <= j < |Items(t)| && Items(t)[j] == y;
    assert Keys(t)[i] == x.key && Keys(t)[j] == y.key;
  }

  lemma ItemAtFocus(z: Zip)
    requires z.focus.Node?
    ensures Item(z.focus.key, z.focus.obj) in Items(Whole(z))
  {
    PlugItems(z.path, z.focus);
  }

  /** `_node_find_min_leaf`: follow left children to the leftmost node, the first in in-order. */
  method FindMinLeaf(z: Zip) returns (m: Zip)
    requires z.focus.Node?
    ensures Whole(m) == Whole(z) && m.focus.Node? && m.focus.left.Nil?
    ensures Before(m.path) == Before(z.path)
    ensures Items(z.focus)[0] == Item(m.focus.key, m.focus.obj)
  {
    m := z;
    while m.focus.left.Node?
      invariant m.focus.Node? && Whole(m) == Whole(z) && Before(m.path) == Before(z.path)
      invariant Items(z.focus)[0] == Items(m.focus)[0]
      decreases Size(m.focus)
    {
      var n := m.focus;
      assert Items(n) == Items(n.left) + ([Item(n.key, n.obj)] + Items(n.right));
      m := Zip(n.left, LeftOf(n.color, n.key, n.obj, n.right, m.path));
    }
  }

  // ---------------------------------------------------------------- the tree object

  class UtilRbTree {
    var nodes: Tree
    var count: nat
    var status: bv32

    /** What every operation keeps: BST order, `count` matching the nodes, a black root. */
    ghost predicate Valid()
      reads this
    {
      Ordered(nodes) && count == Size(nodes) && BlackRooted(nodes)
    }

    /** The `malloc` of `utilRbTree_New`, before `utilRbTree_Init`: status 0. */
    constructor ()
      ensures status == 0 && nodes == Nil && count == 0 && Valid()
    {
      nodes := Nil;
      count := 0;
      status := 0;
    }

    /** `_node_search`: the node holding `key`, as a position in the tree, or NULL. */
    method Search(key: Key) returns (found: Option<Zip>)
      ensures found.Some? ==> Whole(found.value) == nodes && found.value.focus.Node? && found.value.focus.key == key
      ensures Ordered(nodes) ==> (found.Some? <==> key in Keys(nodes))
    {
      found := None;
      var cur := Zip(nodes, Top);
      while found.None? && cur.focus.Node?
        invariant Whole(cur) == nodes
        invariant found.Some? ==> Whole(found.value) == nodes && found.value.focus.Node? && found.value.focus.key == key
        invariant Ordered(nodes) && found.None? ==> Ordered(cur.focus) && (key in Keys(nodes) <==> key in Keys(cur.focus))
        invariant Ordered(nodes) && found.Some? ==> key in Keys(nodes)
        decreases if found.None? then Size(cur.focus) + 1 else 0
      {
        var n := cur.focus;
        if Ordered(nodes) { DescendStep(n, key); }
        if key < n.key {
          cur := Zip(n.left, LeftOf(n.color, n.key, n.obj, n.right, cur.path));
        } else if key > n.key {
          cur := Zip(n.right, RightOf(n.color, n.key, n.obj, n.left, cur.path));
        } else {
          found := Some(cur);
        }
      }
    }

    /**
     * `_rb_insert_node`: a binary-search descent to the empty slot, a red
     * leaf there, then the red-black fixup.  `allocOk` is whether `malloc`
     * succeeds.
     */
    method InsertNode(key: Key, obj: Obj, allocOk: bool) returns (ret: int)
      requires Valid()
      modifies this
      ensures Valid() && status == old(status)
      ensures key in old(Keys(nodes)) ==>
        nodes == old(nodes) && count == old(count) &&
        (if Item(key, obj) in old(Items(nodes)) then ret == 0 else ret == RbErrAsWritten(RB_ERR_INSERT_CONFLICT).ret)
      ensures key !in old(Keys(nodes)) && !allocOk ==>
        nodes == old(nodes) && count == old(count) && ret == RbErrAsWritten(ENOMEM).ret
      ensures key !in old(Keys(nodes)) && allocOk ==>
        ret == 0 && count == old(count) + 1 && key in Keys(nodes) &&
        Items(nodes) == InsertSorted(old(Items(nodes)), Item(key, obj))
      ensures old(nodes) == Nil && allocOk ==> nodes == Node(Black, key, obj, Nil, Nil)
      ensures allocOk && RedBlack(old(nodes)) ==> RedBlack(nodes)
    {
      if nodes.Nil? {
        if !allocOk {
          return RbErrAsWritten(ENOMEM).ret;
        }
        nodes := Node(Black, key, obj, Nil, Nil);
        count := 1;
        assert Items(nodes) == [Item(key, obj)];
        assert Keys(nodes) == [key];
        return 0;
      }
      var cur := Zip(nodes, Top);
      while cur.focus.Node?
        invariant Whole(cur) == nodes && Ordered(cur.focus) && Valid()
        invariant nodes == old(nodes) && count == old(count) && status == old(status)
        invariant key in Keys(nodes) <==> key in Keys(cur.focus)
        invariant forall x :: x in Before(cur.path) ==> x.key < key
        invariant forall y :: y in After(cur.path) ==> key < y.key
        decreases Size(cur.focus)
      {
        var n := cur.focus;
        DescendStep(n, key);
        if key < n.key {
          cur := Zip(n.left, LeftOf(n.color, n.key, n.obj, n.right, cur.path));
        } else if key > n.key {
          cur := Zip(n.right, RightOf(n.color, n.key, n.obj, n.left, cur.path));
        } else {
          ItemAtFocus(cur);
          if obj == n.obj {
            return 0;
          } else {
            if Item(key, obj) in Items(nodes) {
              SameKeySameItem(nodes, Item(key, obj), Item(n.key, n.obj));
            }
            return RbErrAsWritten(RB_ERR_INSERT_CONFLICT).ret;
          }
        }
      }
      if !allocOk {
        return RbErrAsWritten(ENOMEM).ret;
      }
      InsertAtSlot(cur.path, key, obj);
      InsertAtSlotColors(cur.path, key, obj);
      nodes := InsertFixup(Zip(Node(Red, key, obj, Nil, Nil), cur.path));
      count := count + 1;
      return 0;
    }

    /**
     * `_rb_delete_node` on the node at `z`.  A node with two children first
     * trades keys (only keys) with the minimum of its right subtree, which
     * is then unlinked.  `crashed` is the `exit(1)` or NULL dereference of
     * the rebalancing cases; the process ends there.
     */
    method DeleteNode(z: Zip) returns (crashed: bool)
      requires Valid() && Whole(z) == nodes && z.focus.Node?
      modifies this
      ensures status == old(status)
      ensures crashed ==> nodes == old(nodes) && count == old(count)
      ensures !crashed ==> Valid() && count == old(count) - 1
      ensures !crashed ==> Keys(nodes) == Without(old(Keys(nodes)), z.focus.key)
      ensures var i := |Before(z.path)| + |Items(z.focus.left)|;
        !crashed && (z.focus.left.Nil? || z.focus.right.Nil?) ==>
          i < |old(Items(nodes))| && Items(nodes) == RemoveAt(old(Items(nodes)), i)
      ensures var i := |Before(z.path)| + |Items(z.focus.left)|;
        !crashed && z.focus.left.Node? && z.focus.right.Node? ==>
          i + 1 < |old(Items(nodes))| && Items(nodes) == SwapDelete(old(Items(nodes)), i)
    {
      var n := z.focus;
      ghost var s := Items(nodes);
      ghost var i := |Before(z.path)| + |Items(n.left)|;
      ghost var expected: seq<Item>;
      var target := z;
      if n.left.Node? && n.right.Node? {
        // swap keys with the smallest node of the right subtree, then delete that one
        var m := FindMinLeaf(Zip(n.right, Top));
        SwapTargetItems(z, m);
        SwapTargetRoot(z, m);
        target := SwapTarget(z, m);
        expected := SwapDelete(s, i);
      } else {
        SingleItems(z);
        expected := RemoveAt(s, i);
      }
      DeleteSingleItems(target);
      DeleteSingleRoot(target);
      var out := DeleteSingle(target);
      if out.Crashed? {
        return true;
      }
      DeleteKeys(s, i, n.key, n.left.Node? && n.right.Node?, Items(out.tree));
      SizeItems(nodes);
      SizeItems(out.tree);
      nodes := out.tree;
      count := count - 1;
      return false;
    }
  }

  // ---------------------------------------------------------------- helpers for the tree methods

  /** Hanging a red leaf in the empty slot at `p` and running the fixup puts its pair between `Before(p)` and `After(p)`. */
  lemma SlotItems(p: Path, key: Key, obj: Obj)
    requires TopBlack(p)
    ensures Items(Plug(p, Nil)) == Before(p) + After(p)
    ensures Items(InsertFixup(Zip(Node(Red, key, obj, Nil, Nil), p))) == Before(p) + [Item(key, obj)] + After(p)
  {
    var leaf := Node(Red, key, obj, Nil, Nil);
    PlugItems(p, Nil);
    PlugItems(p, leaf);
    InsertFixupItems(Zip(leaf, p));
  }

  /** The same insertion: contents, order and size. */
  lemma InsertAtSlot(p: Path, key: Key, obj: Obj)
    requires Ordered(Plug(p, Nil)) && BlackRooted(Plug(p, Nil)) && Plug(p, Nil).Node?
    requires forall x :: x in Before(p) ==> x.key < key
    requires forall y :: y in After(p) ==> key < y.key
    ensures TopBlack(p)
    ensures var new_ := InsertFixup(Zip(Node(Red, key, obj, Nil, Nil), p));
      Ordered(new_) && Size(new_) == Size(Plug(p, Nil)) + 1 && key in Keys(new_) &&
      Items(new_) == InsertSorted(Items(Plug(p, Nil)), Item(key, obj))
  {
    var x := Item(key, obj);
    var b, a := Before(p), After(p);
    var old_ := Plug(p, Nil);
    RootTopBlack(p, Nil);
    var new_ := InsertFixup(Zip(Node(Red, key, obj, Nil, Nil), p));
    SlotItems(p, key, obj);
    InsertSortedSplit(b, a, x);
    InsertOrdered(b, a, x, old_, new_);
    SizeItems(old_);
    SizeItems(new_);
    assert (b + [x] + a)[|b|] == x;
    ItemKeyInKeys(new_, x);
  }

  /** The same insertion: the root stays black, and a red-black tree stays red-black. */
  lemma InsertAtSlotColors(p: Path, key: Key, obj: Obj)
    requires BlackRooted(Plug(p, Nil)) && Plug(p, Nil).Node?
    ensures TopBlack(p)
    ensures var new_ := InsertFixup(Zip(Node(Red, key, obj, Nil, Nil), p));
      BlackRooted(new_) && (RedBlack(Plug(p, Nil)) ==> RedBlack(new_))
  {
    var leaf := Node(Red, key, obj, Nil, Nil);
    RootTopBlack(p, Nil);
    InsertFixupRoot(Zip(leaf, p));
    if RedBlack(Plug(p, Nil)) {
      NewLeafFixInv(p, key, obj);
      InsertFixupRB(Zip(leaf, p));
    }
  }

  /** The node `_rb_delete_node` recurses on after trading keys with the right subtree's minimum `m`. */
  function SwapTarget(z: Zip, m: Zip): (t: Zip)
    requires z.focus.Node? && m.focus.Node?
    ensures t.focus.Node? && t.focus.left.Nil?
  {
    var n := z.focus;
    Zip(Node(m.focus.color, n.key, m.focus.obj, Nil, m.focus.right),
        AppendPath(m.path, RightOf(n.color, m.focus.key, n.obj, n.left, z.path)))
  }

  lemma SplitAt(s: seq<Item>, p: seq<Item>, x: Item, q: seq<Item>)
    requires s == p + [x] + q
    ensures |p| < |s| && s[|p|] == x && RemoveAt(s, |p|) == p + q
  {
    assert s[..|p|] == p;
    assert s[|p| + 1..] == q;
  }

  lemma SplitAt2(s: seq<Item>, p: seq<Item>, x: Item, y: Item, q: seq<Item>)
    requires s == p + [x] + [y] + q
    ensures |p| + 1 < |s| && s[|p|] == x && s[|p| + 1] == y && SwapDelete(s, |p|) == p + [Item(y.key, x.obj)] + q
  {
    assert s[..|p|] == p;
    assert s[|p| + 2..] == q;
  }

  lemma Regroup(b: seq<Item>, l: seq<Item>, x: Item, y: Item, r: seq<Item>, am: seq<Item>, az: seq<Item>)
    ensures b + (l + [x] + ([y] + r + am)) + az == (b + l) + [x] + [y] + (r + am + az)
  {
  }

  /** The in-order pairs around a two-child node `z` whose right subtree's minimum is `m`. */
  lemma SwapSplit(z: Zip, m: Zip)
    requires z.focus.Node? && m.focus.Node? && m.focus.left.Nil? && Whole(m) == z.focus.right && Before(m.path) == []
    ensures Items(Whole(z)) == (Before(z.path) + Items(z.focus.left)) + [Item(z.focus.key, z.focus.obj)] +
      [Item(m.focus.key, m.focus.obj)] + (Items(m.focus.right) + After(m.path) + After(z.path))
  {
    var n := z.focus;
    var x, y := Item(n.key, n.obj), Item(m.focus.key, m.focus.obj);
    var r, am := Items(m.focus.right), After(m.path);
    assert Items(m.focus) == [] + [y] + r;
    assert Items(n.right) == [y] + r + am by {
      PlugItems(m.path, m.focus);
      assert [] + ([] + [y] + r) + am == [y] + r + am;
    }
    assert Items(n) == Items(n.left) + [x] + ([y] + r + am);
    PlugItems(z.path, n);
    Regroup(Before(z.path), Items(n.left), x, y, r, am, After(z.path));
  }

  /** The pairs around the node that `SwapTarget` leaves to unlink. */
  lemma SwapTargetPath(z: Zip, m: Zip)
    requires z.focus.Node? && m.focus.Node? && m.focus.left.Nil? && Before(m.path) == []
    ensures var t := SwapTarget(z, m);
      Before(t.path) == Before(z.path) + Items(z.focus.left) + [Item(m.focus.key, z.focus.obj)] &&
      After(t.path) == After(m.path) + After(z.path) &&
      Items(t.focus.left) == [] && Items(t.focus.right) == Items(m.focus.right)
  {
    var n := z.focus;
    var outer := RightOf(n.color, m.focus.key, n.obj, n.left, z.path);
    AppendPathPlug(m.path, outer, SwapTarget(z, m).focus);
  }

  lemma SwapSeq(s: seq<Item>, b: seq<Item>, l: seq<Item>, x: Item, y: Item, r: seq<Item>, am: seq<Item>, az: seq<Item>)
    requires s == (b + l) + [x] + [y] + (r + am + az)
    ensures |b| + |l| + 1 < |s| && s[|b| + |l|] == x &&
      (b + l + [Item(y.key, x.obj)]) + [] + r + (am + az) == SwapDelete(s, |b| + |l|)
  {
    SplitAt2(s, b + l, x, y, r + am + az);
  }

  /** What unlinking the swapped minimum leaves: the pairs `SwapDelete` describes. */
  lemma SwapTargetItems(z: Zip, m: Zip)
    requires z.focus.Node? && z.focus.left.Node? && z.focus.right.Node?
    requires m.focus.Node? && m.focus.left.Nil? && Whole(m) == z.focus.right && Before(m.path) == []
    ensures var s := Items(Whole(z));
      var i := |Before(z.path)| + |Items(z.focus.left)|;
      var t := SwapTarget(z, m);
      i + 1 < |s| && s[i] == Item(z.focus.key, z.focus.obj) &&
      Before(t.path) + Items(t.focus.left) + Items(t.focus.right) + After(t.path) == SwapDelete(s, i)
  {
    SwapSplit(z, m);
    SwapTargetPath(z, m);
    SwapSeq(Items(Whole(z)), Before(z.path), Items(z.focus.left), Item(z.focus.key, z.focus.obj),
      Item(m.focus.key, m.focus.obj), Items(m.focus.right), After(m.path), After(z.path));
  }

  /** The swap keeps the root's colour. */
  lemma SwapTargetRoot(z: Zip, m: Zip)
    requires z.focus.Node? && BlackRooted(Whole(z)) && m.focus.Node?
    ensures BlackRooted(Whole(SwapTarget(z, m)))
  {
    var n := z.focus;
    var t := SwapTarget(z, m);
    var outer := RightOf(n.color, m.focus.key, n.obj, n.left, z.path);
    AppendPathPlug(m.path, outer, t.focus);
    TwoChildRoot(z, t, outer, m.path);
  }

  lemma Regroup4(b: seq<Item>, l: seq<Item>, x: Item, r: seq<Item>, a: seq<Item>)
    ensures b + (l + [x] + r) + a == (b + l) + [x] + (r + a)
    ensures b + l + r + a == (b + l) + (r + a)
  {
  }

  lemma SingleItems(z: Zip)
    requires z.focus.Node?
    ensures var s := Items(Whole(z));
      var i := |Before(z.path)| + |Items(z.focus.left)|;
      i < |s| && s[i] == Item(z.focus.key, z.focus.obj) &&
      Before(z.path) + Items(z.focus.left) + Items(z.focus.right) + After(z.path) == RemoveAt(s, i)
  {
    var n := z.focus;
    var b, l, r, a := Before(z.path), Items(n.left), Items(n.right), After(z.path);
    var x := Item(n.key, n.obj);
    PlugItems(z.path, n);
    Regroup4(b, l, x, r, a);
    SplitAt(Items(Whole(z)), b + l, x, r + a);
  }

  lemma KeysBelow(s: seq<Item>, k: Key)
    requires forall y :: y in s ==> y.key < k
    ensures forall j :: j in KeysOf(s) ==> j < k
  {
    forall j | j in KeysOf(s) ensures j < k {
      var i :| 0 <= i < |KeysOf(s)| && KeysOf(s)[i] == j;
      assert s[i] in s;
    }
  }

  lemma KeysAbove(s: seq<Item>, k: Key)
    requires forall y :: y in s ==> k < y.key
    ensures forall j :: j in KeysOf(s) ==> k < j
  {
    forall j | j in KeysOf(s) ensures k < j {
      var i :| 0 <= i < |KeysOf(s)| && KeysOf(s)[i] == j;
      assert s[i] in s;
    }
  }

  lemma InsertIncreasing(kb: seq<Key>, ka: seq<Key>, k: Key)
    requires Increasing(kb + ka)
    requires forall j :: j in kb ==> j < k
    requires forall j :: j in ka ==> k < j
    ensures Increasing(kb + [k] + ka)
  {
    IncreasingMiddle([], kb, ka);
    IncreasingMiddle(kb, ka, []);
    assert [] + kb + ka == kb + ka + [] == kb + ka;
    IncreasingJoin(kb, k, ka);
  }

  lemma InsertOrdered(b: seq<Item>, a: seq<Item>, x: Item, before: Tree, after: Tree)
    requires Ordered(before) && Items(before) == b + a && Items(after) == b + [x] + a
    requires forall y :: y in b ==> y.key < x.key
    requires forall y :: y in a ==> x.key < y.key
    ensures Ordered(after)
  {
    assert Keys(before) == KeysOf(b) + KeysOf(a) by {
      KeysOfAppend(b, a);
    }
    assert Keys(after) == KeysOf(b) + [x.key] + KeysOf(a) by {
      KeysOfAppend(b + [x], a);
      KeysOfAppend(b, [x]);
    }
    KeysBelow(b, x.key);
    KeysAbove(a, x.key);
    InsertIncreasing(KeysOf(b), KeysOf(a), x.key);
  }

  /** The key swap keeps the root's colour, hence a black root. */
  lemma TwoChildRoot(z: Zip, target: Zip, outer: Path, inner: Path)
    requires z.focus.Node? && BlackRooted(Whole(z))
    requires outer.RightOf? && outer.up == z.path && outer.color == z.focus.color
    requires Whole(target) == Plug(outer, Plug(inner, target.focus))
    ensures BlackRooted(Whole(target))
  {
    var t := Plug(inner, target.focus);
    if z.path != Top {
      RootIndependent(z.path, z.focus, Node(outer.color, outer.key, outer.obj, outer.left, t));
    }
  }

  lemma DeleteKeys(s: seq<Item>, i: nat, k: Key, twoChildren: bool, r: seq<Item>)
    requires Increasing(KeysOf(s)) && i < |s| && s[i].key == k
    requires twoChildren ==> i + 1 < |s| && r == SwapDelete(s, i)
    requires !twoChildren ==> r == RemoveAt(s, i)
    ensures KeysOf(r) == Without(KeysOf(s), k) && Increasing(KeysOf(r))
  {
    if twoChildren { KeysSwapDelete(s, i); } else { KeysRemoveAt(s, i); }
    WithoutAt(KeysOf(s), i);
    IncreasingRemove(KeysOf(s), i);
  }

  // ---------------------------------------------------------------- public functions

  /** `utilRbTree_Init`. */
  method Init(tree: UtilRbTree?) returns (r: Report)
    modifies tree
    ensures tree == null ==> r == RbErrAsWritten(EINVAL)
    ensures tree != null && old(tree.status) != 0 ==>
      r == RbErrAsWritten(RB_ERR_ALREADY_INIT) && tree.status == old(tree.status) &&
      tree.nodes == old(tree.nodes) && tree.count == old(tree.count)
    ensures tree != null && old(tree.status) == 0 ==>
      r == Report(0, None) && tree.status == StatusInitOK && tree.count == 0 && tree.nodes == Nil && tree.Valid()
  {
    if tree == null {
      return RbErrAsWritten(EINVAL);
    }
    if tree.status != 0 {
      return RbErrAsWritten(RB_ERR_ALREADY_INIT);
    }
    tree.status := StatusInitOK;
    tree.count := 0;
    tree.nodes := Nil;
    return Report(0, None);
  }

  /** `utilRbTree_New`: NULL when `malloc` fails, else a fresh initialised tree. */
  method New(allocOk: bool) returns (tree: UtilRbTree?)
    ensures allocOk <==> tree != null
    ensures tree != null ==> fresh(tree) && tree.status == StatusInitOK && tree.count == 0 && tree.nodes == Nil
  {
    if !allocOk {
      return null;
    }
    tree := new UtilRbTree();
    var _ := Init(tree);
  }

  /** `utilRbTree_GetObject`: the object stored under `key`, NULL (0) when absent. */
  method GetObject(tree: UtilRbTree?, key: Key) returns (obj: Obj, errno: Option<int>)
    ensures tree == null ==> obj == 0 && errno == Some(EINVAL)
    ensures tree != null ==> errno == None
    ensures tree != null && Ordered(tree.nodes) && key in Keys(tree.nodes) ==> Item(key, obj) in Items(tree.nodes)
    ensures tree != null && Ordered(tree.nodes) && key !in Keys(tree.nodes) ==> obj == 0
  {
    if tree == null {
      return 0, Some(EINVAL);
    }
    var node := tree.Search(key);
    if node.Some? {
      ItemAtFocus(node.value);
      return node.value.focus.obj, None;
    }
    return 0, None;
  }

  /** The `RbCheck_t` values, in the order of the `switch` in `_check_tree_children`. */
  const RbCheckIllegalWay: int := 10

  function ModeOf(how: int): Mode
    requires 0 <= how < RbCheckIllegalWay
  {
    [IncAll, DecAll, IncLower, IncLowerEqual, DecLower, DecLowerEqual,
     DecGreater, DecGreaterEqual, IncGreater, IncGreaterEqual][how]
  }

  /** The error `utilRbTree_CheckObjects` reports before walking, 0 when it walks. */
  function CheckRefusal(treeNull: bool, how: int, callbackNull: bool, status: bv32): (e: int)
    ensures e == 0 ==> !treeNull && 0 <= how < RbCheckIllegalWay && !callbackNull
    ensures e == 0 <==> (!treeNull && 0 <= how < RbCheckIllegalWay && !callbackNull &&
                         AllSet(status, StatusInitOK) && !AllSet(status, StatusIsChecking))
  {
    if treeNull || how < 0 || how >= RbCheckIllegalWay || callbackNull then EINVAL
    else if !AllSet(status, StatusInitOK) then RB_ERR_NOT_INIT
    else if AllSet(status, StatusIsChecking) then RB_ERR_RECURSIVE_CHECK
    else 0
  }

  /** The error `utilRbTree_AbortCheck` reports, 0 when it sets the AbortCheck bit. */
  function AbortRefusal(treeNull: bool, status: bv32): (e: int)
    ensures e == 0 <==> !treeNull && AllSet(status, StatusInitOK) && AllSet(status, StatusIsChecking)
  {
    if treeNull then EINVAL
    else if !AllSet(status, StatusInitOK) then RB_ERR_NOT_INIT
    else if !AllSet(status, StatusIsChecking) then RB_ERR_NOT_CHECKING
    else 0
  }

  /** The status while a traversal runs, and after it returns. */
  function Checking(status: bv32): bv32 { status | StatusIsChecking }

  function AfterCheck(status: bv32): bv32 { status & !(StatusIsChecking | StatusAbortCheck) }

  /**
   * While a traversal runs, a callback calling `utilRbTree_AbortCheck`
   * succeeds and one calling `utilRbTree_CheckObjects` again is refused with
   * the recursive-check error; once it has returned, AbortCheck is refused.
   */
  lemma CheckingGuards(status: bv32, how: int)
    requires AllSet(status, StatusInitOK) && 0 <= how < RbCheckIllegalWay
    ensures AbortRefusal(false, Checking(status)) == 0
    ensures CheckRefusal(false, how, false, Checking(status)) == RB_ERR_RECURSIVE_CHECK
    ensures AbortRefusal(false, AfterCheck(Checking(status))) == RB_ERR_NOT_CHECKING
    ensures AllSet(AfterCheck(Checking(status)), StatusInitOK)
    ensures !AllSet(AfterCheck(Checking(status)), StatusAbortCheck)
  {
  }

  /**
   * `utilRbTree_CheckObjects`.  `callback` returns whether it called
   * `utilRbTree_AbortCheck` (which then succeeds, by `CheckingGuards`);
   * `visits` are the pairs the callback is invoked with, in order.
   */
  method CheckObjects(tree: UtilRbTree?, how: int, than: Key, callback: Option<Item -> bool>)
    returns (r: Report, visits: seq<Item>)
    modifies tree
    ensures var e := CheckRefusal(tree == null, how, callback.None?, if tree == null then 0 else old(tree.status));
      e != 0 ==> r == RbErrAsWritten(e) && visits == [] && (tree != null ==> tree.status == old(tree.status))
    ensures tree != null ==> tree.nodes == old(tree.nodes) && tree.count == old(tree.count)
    ensures tree != null && CheckRefusal(false, how, callback.None?, old(tree.status)) == 0 ==>
      r == Report(0, None) && tree.status == AfterCheck(Checking(old(tree.status))) &&
      visits == Traverse(ModeOf(how), tree.nodes, than,
                         AllSet(Checking(old(tree.status)), StatusAbortCheck), callback.value).visits
  {
    var e := CheckRefusal(tree == null, how, callback.None?, if tree == null then 0 else tree.status);
    if e != 0 {
      return RbErrAsWritten(e), [];
    }
    tree.status := Checking(tree.status);
    var w := Traverse(ModeOf(how), tree.nodes, than, AllSet(tree.status, StatusAbortCheck), callback.value);
    tree.status := AfterCheck(tree.status);
    return Report(0, None), w.visits;
  }

  /** `utilRbTree_AbortCheck`. */
  method AbortCheck(tree: UtilRbTree?) returns (r: Report)
    modifies tree
    ensures var e := AbortRefusal(tree == null, if tree == null then 0 else old(tree.status));
      (e != 0 ==> r == RbErrAsWritten(e) && (tree != null ==> tree.status == old(tree.status))) &&
      (e == 0 ==> r == Report(0, None) && tree.status == old(tree.status) | StatusAbortCheck)
    ensures tree != null ==> tree.nodes == old(tree.nodes) && tree.count == old(tree.count)
  {
    var e := AbortRefusal(tree == null, if tree == null then 0 else tree.status);
    if e != 0 {
      return RbErrAsWritten(e);
    }
    tree.status := tree.status | StatusAbortCheck;
    return Report(0, None);
  }
}
