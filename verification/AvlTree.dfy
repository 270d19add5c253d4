/** `AVLTree` of include/cmo_avltree.h: nodes are blocks of a `MemoryPool`, children are addresses.
    Every operation is proved to compute the function of `AvlTrees` it is named after.
 */
module AvlTreeArrays {
  import opened Arithmetic
  import opened AvlTrees
  import PackedLists
  import opened MemoryPools

  /** Payload of a block: the node's meta data, its key and its value. */
  datatype Cell<V> = Cell(left: int, right: int, height: int, key: int, value: V)

  /** Assignment to an int16_t. */
  function Int16(x: int): (r: int)
    ensures 0 <= x <= 0x7fff ==> r == x
  {
    var m := x % 0x1_0000;
    if m <= 0x7fff then m else m - 0x1_0000
  }

  function Root<V>(t: Tree<V>): int {
    if t.Leaf? then 0 else t.addr
  }

  /** The cells hold the tree t, with exact heights. */
  ghost predicate IsTree<V>(t: Tree<V>, c: seq<Cell<V>>)
    decreases t, 1
  {
    t.Node? ==> Linked(t, c) && c[t.addr].height == Height(t)
  }

  /** As `IsTree`, but the height stored at the root may be out of date. */
  ghost predicate Linked<V>(t: Tree<V>, c: seq<Cell<V>>)
    requires t.Node?
    decreases t, 0
  {
    && 0 < t.addr < |c|
    && c[t.addr].left == Root(t.left) && c[t.addr].right == Root(t.right)
    && c[t.addr].key == t.key && c[t.addr].value == t.value
    && IsTree(t.left, c) && IsTree(t.right, c)
  }

  ghost predicate SameOutside<V>(c: seq<Cell<V>>, c': seq<Cell<V>>, s: set<int>) {
    |c'| == |c| && forall x :: 0 <= x < |c| && x !in s ==> c'[x] == c[x]
  }

  lemma {:induction false} TreeFrame<V>(t: Tree<V>, c: seq<Cell<V>>, c': seq<Cell<V>>, s: set<int>)
    requires IsTree(t, c) && SameOutside(c, c', s) && s !! Addresses(t)
    ensures IsTree(t, c')
  {
    if t.Node? {
      TreeFrame(t.left, c, c', s);
      TreeFrame(t.right, c, c', s);
    }
  }

  function CellHeight<V>(c: seq<Cell<V>>, addr: int): int
    requires 0 <= addr < |c|
  {
    if addr == 0 then 0 else c[addr].height
  }

  function WithMeta<V>(c: seq<Cell<V>>, addr: int, left: int, right: int, height: int): (c': seq<Cell<V>>)
    requires 0 <= addr < |c|
    ensures |c'| == |c|
  {
    c[addr := c[addr].(left := Int16(left), right := Int16(right), height := height)]
  }

  /** What the accessors read at the root of a tree. */
  lemma ReadTree<V>(t: Tree<V>, c: seq<Cell<V>>)
    requires IsTree(t, c) && (t.Node? || 0 < |c|)
    ensures 0 <= Root(t) < |c| && (Root(t) == 0 <==> t.Leaf?) && CellHeight(c, Root(t)) == Height(t)
    ensures t.Node? ==> Linked(t, c)
  {}

  lemma ReadNode<V>(t: Tree<V>, c: seq<Cell<V>>)
    requires t.Node? && Linked(t, c)
    ensures 0 < t.addr < |c| && c[t.addr].left == Root(t.left) && c[t.addr].right == Root(t.right)
    ensures c[t.addr].key == t.key && c[t.addr].value == t.value
    ensures IsTree(t.left, c) && IsTree(t.right, c)
  {}

  lemma NodeSeparated<V>(t: Tree<V>)
    requires t.Node? && Separated(t)
    ensures 0 < t.addr && Separated(t.left) && Separated(t.right)
    ensures t.addr !in Addresses(t.left) && t.addr !in Addresses(t.right)
    ensures Addresses(t.left) !! Addresses(t.right)
    ensures t.addr in Addresses(t) && Addresses(t.left) <= Addresses(t) && Addresses(t.right) <= Addresses(t)
    ensures forall a :: a in Addresses(t) ==> a == t.addr || a in Addresses(t.left) || a in Addresses(t.right)
  {}

  /** Writing new children and a height into a node whose subtrees are in place. */
  lemma Relink<V>(u: Tree<V>, c: seq<Cell<V>>, h: int)
    requires u.Node? && 0 < u.addr < |c| <= 0x7fff && u.addr !in Addresses(u.left) && u.addr !in Addresses(u.right)
    requires IsTree(u.left, c) && IsTree(u.right, c) && c[u.addr].key == u.key && c[u.addr].value == u.value
    ensures Linked(u, WithMeta(c, u.addr, Root(u.left), Root(u.right), h))
    ensures h == Height(u) ==> IsTree(u, WithMeta(c, u.addr, Root(u.left), Root(u.right), h))
    ensures SameOutside(c, WithMeta(c, u.addr, Root(u.left), Root(u.right), h), {u.addr})
  {
    hide Height, Addresses;
    var c' := WithMeta(c, u.addr, Root(u.left), Root(u.right), h);
    ReadTree(u.left, c);
    ReadTree(u.right, c);
    TreeFrame(u.left, c, c', {u.addr});
    TreeFrame(u.right, c, c', {u.addr});
  }

  /** The two writes of `right_rotate`. */
  lemma RotateRightCells<V>(t: Tree<V>, c: seq<Cell<V>>)
    requires t.Node? && t.left.Node? && Separated(t) && Linked(t, c) && |c| <= 0x7fff
    ensures 0 < t.addr < |c| && 0 < t.left.addr < |c|
    ensures var l := t.left;
      var h := 1 + Max(Height(l.right), Height(t.right));
      var c' := WithMeta(WithMeta(c, t.addr, Root(l.right), Root(t.right), h), l.addr, Root(l.left), t.addr, 1 + Max(Height(l.left), h));
      IsTree(RotateRight(t), c') && SameOutside(c, c', {t.addr, l.addr})
  {
    hide Height, IsTree, Linked, Separated, Addresses, CellHeight, Int16, WithMeta;
    ReadNode(t, c);
    ReadTree(t.left, c);
    ReadTree(t.right, c);
    ReadNode(t.left, c);
    ReadTree(t.left.left, c);
    ReadTree(t.left.right, c);
    NodeSeparated(t);
    RotateRightSeparated(t);
    NodeSeparated(RotateRight(t));
    NodeSeparated(t.left);
    var l := t.left;
    var h := 1 + Max(Height(l.right), Height(t.right));
    var c' := WithMeta(WithMeta(c, t.addr, Root(l.right), Root(t.right), h), l.addr, Root(l.left), t.addr, 1 + Max(Height(l.left), h));
    var c1 := WithMeta(c, t.addr, Root(l.right), Root(t.right), h);
    Relink(t.(left := l.right), c, h);
    NodeHeightIs(t.(left := l.right));
    TreeFrame(l.left, c, c1, {t.addr});
    Relink(RotateRight(t), c1, Height(RotateRight(t)));
    NodeHeightIs(RotateRight(t));
  }

  /** The two writes of `left_rotate`. */
  lemma RotateLeftCells<V>(t: Tree<V>, c: seq<Cell<V>>)
    requires t.Node? && t.right.Node? && Separated(t) && Linked(t, c) && |c| <= 0x7fff
    ensures 0 < t.addr < |c| && 0 < t.right.addr < |c|
    ensures var r := t.right;
      var h := 1 + Max(Height(t.left), Height(r.left));
      var c' := WithMeta(WithMeta(c, t.addr, Root(t.left), Root(r.left), h), r.addr, t.addr, Root(r.right), 1 + Max(h, Height(r.right)));
      IsTree(RotateLeft(t), c') && SameOutside(c, c', {t.addr, r.addr})
  {
    hide Height, IsTree, Linked, Separated, Addresses, CellHeight, Int16, WithMeta;
    ReadNode(t, c);
    ReadTree(t.left, c);
    ReadTree(t.right, c);
    ReadNode(t.right, c);
    ReadTree(t.right.left, c);
    ReadTree(t.right.right, c);
    NodeSeparated(t);
    RotateLeftSeparated(t);
    NodeSeparated(RotateLeft(t));
    NodeSeparated(t.right);
    var r := t.right;
    var h := 1 + Max(Height(t.left), Height(r.left));
    var c' := WithMeta(WithMeta(c, t.addr, Root(t.left), Root(r.left), h), r.addr, t.addr, Root(r.right), 1 + Max(h, Height(r.right)));
    var c1 := WithMeta(c, t.addr, Root(t.left), Root(r.left), h);
    Relink(t.(right := r.left), c, h);
    NodeHeightIs(t.(right := r.left));
    TreeFrame(r.right, c, c1, {t.addr});
    Relink(RotateLeft(t), c1, Height(RotateLeft(t)));
    NodeHeightIs(RotateLeft(t));
  }

  lemma NodeHeightIs<V>(t: Tree<V>)
    requires t.Node?
    ensures Height(t) == 1 + Max(Height(t.left), Height(t.right))
  {}

  lemma HigherIsNode<V>(t: Tree<V>)
    requires t.Node?
    ensures Balance(t) == Height(t.left) - Height(t.right)
    ensures Balance(t) > 0 ==> t.left.Node?
    ensures Balance(t) < 0 ==> t.right.Node?
  {}

  lemma RotatedRoot<V>(t: Tree<V>)
    requires t.Node? && Separated(t)
    ensures t.right.Node? ==> RotateLeft(t).Node? && {t.addr, t.right.addr} <= Addresses(t)
    ensures t.left.Node? ==> RotateRight(t).Node? && {t.addr, t.left.addr} <= Addresses(t)
  {}

  lemma ExchangeChild<V>(t: Tree<V>, l: Tree<V>, r: Tree<V>)
    requires t.Node? && Separated(t) && Separated(l) && Separated(r)
    requires Addresses(l) == Addresses(t.left) && Addresses(r) == Addresses(t.right)
    ensures Separated(t.(left := l, right := r)) && Addresses(t.(left := l, right := r)) == Addresses(t)
  {}

  /** The inner grandchild that a double rotation needs is there. */
  ghost predicate CanRotate<V>(t: Tree<V>, key: int)
    requires t.Node?
  {
    && (Balance(t) > 1 ==> key < t.left.key || (key > t.left.key && t.left.right.Node?))
    && (Balance(t) < -1 ==> key > t.right.key || (key < t.right.key && t.right.left.Node?))
  }

  /** The left subtree has become l, in cells that only the left subtree used; link it in. */
  lemma RelinkLeft<V>(t: Tree<V>, l: Tree<V>, c: seq<Cell<V>>, c': seq<Cell<V>>, h: int)
    requires t.Node? && Separated(t) && Linked(t, c) && |c| <= 0x7fff
    requires IsTree(l, c') && SameOutside(c, c', Addresses(l) + Addresses(t.left))
    requires Separated(t.(left := l)) && t.addr !in Addresses(l) && Addresses(l) !! Addresses(t.right)
    ensures 0 < t.addr < |c'|
    ensures var u := t.(left := l); var c2 := WithMeta(c', t.addr, Root(l), Root(t.right), h);
      && Linked(u, c2) && (h == Height(u) ==> IsTree(u, c2))
      && SameOutside(c, c2, Addresses(l) + Addresses(t.left) + {t.addr})
  {
    hide Height, Separated, Addresses, IsTree, Linked, CellHeight;
    NodeSeparated(t);
    ReadNode(t, c);
    TreeFrame(t.right, c, c', Addresses(l) + Addresses(t.left));
    Relink(t.(left := l), c', h);
  }

  lemma RelinkRight<V>(t: Tree<V>, r: Tree<V>, c: seq<Cell<V>>, c': seq<Cell<V>>, h: int)
    requires t.Node? && Separated(t) && Linked(t, c) && |c| <= 0x7fff
    requires IsTree(r, c') && SameOutside(c, c', Addresses(r) + Addresses(t.right))
    requires Separated(t.(right := r)) && t.addr !in Addresses(r) && Addresses(r) !! Addresses(t.left)
    ensures 0 < t.addr < |c'|
    ensures var u := t.(right := r); var c2 := WithMeta(c', t.addr, Root(t.left), Root(r), h);
      && Linked(u, c2) && (h == Height(u) ==> IsTree(u, c2))
      && SameOutside(c, c2, Addresses(r) + Addresses(t.right) + {t.addr})
  {
    hide Height, Separated, Addresses, IsTree, Linked, CellHeight;
    NodeSeparated(t);
    ReadNode(t, c);
    TreeFrame(t.left, c, c', Addresses(r) + Addresses(t.right));
    Relink(t.(right := r), c', h);
  }

  lemma LeafFacts<V>(t: Tree<V>, key: int)
    requires t.Leaf?
    ensures key !in Contents(t) && Addresses(t) == {}
  {}

  lemma BoundIsNode<V>(t: Tree<V>, key: int)
    requires key in Contents(t)
    ensures t.Node?
  {}

  lemma NewNode<V>(t: Tree<V>, key: int, value: V, a: int, c: seq<Cell<V>>)
    requires t.Leaf? && 0 < a < |c| && c[a] == Cell(0, 0, 1, key, value)
    ensures Inserted(t, key, value, a) == Node(a, Leaf, key, value, Leaf)
    ensures IsTree(Inserted(t, key, value, a), c) && Addresses(Inserted(t, key, value, a)) == {a}
  {}

  lemma WellFormedChildren<V>(t: Tree<V>)
    requires t.Node? && WellFormed(t) && Balanced(t)
    ensures WellFormed(t.left) && WellFormed(t.right) && Balanced(t.left) && Balanced(t.right)
    ensures forall k :: k in Contents(t.left) ==> k < t.key
    ensures forall k :: k in Contents(t.right) ==> t.key < k
  {}

  lemma GrownCanRotate<V>(t: Tree<V>, u: Tree<V>, key: int)
    requires t.Node? && u.Node? && Balanced(t) && u.addr == t.addr && u.key == t.key
    requires (key < t.key && u.right == t.right && Grown(t.left, u.left, key))
          || (key > t.key && u.left == t.left && Grown(t.right, u.right, key))
    ensures CanRotate(u, key)
  {}

  /** The state after the recursive call of `insert_at` to the left, and after storing its result. */
  lemma InsertedLeft<V>(t: Tree<V>, key: int, value: V, a: int, c: seq<Cell<V>>, c': seq<Cell<V>>)
    requires t.Node? && WellFormed(t) && Balanced(t) && key < t.key && 0 < a && a !in Addresses(t)
    requires Linked(t, c) && |c| <= 0x7fff && IsTree(Inserted(t.left, key, value, a), c')
    requires SameOutside(c, c', Addresses(t.left) + Addresses(Inserted(t.left, key, value, a)))
    ensures var l := Inserted(t.left, key, value, a); var u := t.(left := l);
      && 0 < t.addr < |c'|
      && 0 <= Root(l) < |c'| && CellHeight(c', Root(l)) == Height(l)
      && 0 <= Root(t.right) < |c'| && CellHeight(c', Root(t.right)) == Height(t.right)
      && Separated(u) && CanRotate(u, key) && Inserted(t, key, value, a) == RebalanceInsert(u, key)
      && Addresses(Inserted(t, key, value, a)) == Addresses(u) == Addresses(t) + Addresses(l)
      && var c2 := WithMeta(c', t.addr, Root(l), Root(t.right), 1 + Max(Height(l), Height(t.right)));
         IsTree(u, c2) && SameOutside(c, c2, Addresses(t) + Addresses(l))
  {
    hide IsTree, Linked, CellHeight, Separated, Addresses, Height, Balanced, Ordered, RebalanceInsert, Contents,
         CanRotate, Grown;
    var l := Inserted(t.left, key, value, a);
    var u := t.(left := l);
    NodeSeparated(t);
    WellFormedChildren(t);
    InsertContents(t.left, key, value, a);
    AddLeft(t, l, key, value, a);
    InsertBalanced(t.left, key, value, a);
    GrownCanRotate(t, u, key);
    RebalanceInsertKeeps(u, key);
    NodeSeparated(u);
    NodeHeightIs(u);
    ReadNode(t, c);
    TreeFrame(t.right, c, c', Addresses(t.left) + Addresses(l));
    RelinkLeft(t, l, c, c', Height(u));
    ReadTree(l, c');
    ReadTree(t.right, c');
  }

  lemma InsertedRight<V>(t: Tree<V>, key: int, value: V, a: int, c: seq<Cell<V>>, c': seq<Cell<V>>)
    requires t.Node? && WellFormed(t) && Balanced(t) && key > t.key && 0 < a && a !in Addresses(t)
    requires Linked(t, c) && |c| <= 0x7fff && IsTree(Inserted(t.right, key, value, a), c')
    requires SameOutside(c, c', Addresses(t.right) + Addresses(Inserted(t.right, key, value, a)))
    ensures var r := Inserted(t.right, key, value, a); var u := t.(right := r);
      && 0 < t.addr < |c'|
      && 0 <= Root(r) < |c'| && CellHeight(c', Root(r)) == Height(r)
      && 0 <= Root(t.left) < |c'| && CellHeight(c', Root(t.left)) == Height(t.left)
      && Separated(u) && CanRotate(u, key) && Inserted(t, key, value, a) == RebalanceInsert(u, key)
      && Addresses(Inserted(t, key, value, a)) == Addresses(u) == Addresses(t) + Addresses(r)
      && var c2 := WithMeta(c', t.addr, Root(t.left), Root(r), 1 + Max(Height(t.left), Height(r)));
         IsTree(u, c2) && SameOutside(c, c2, Addresses(t) + Addresses(r))
  {
    hide IsTree, Linked, CellHeight, Separated, Addresses, Height, Balanced, Ordered, RebalanceInsert, Contents,
         CanRotate, Grown;
    var r := Inserted(t.right, key, value, a);
    var u := t.(right := r);
    NodeSeparated(t);
    WellFormedChildren(t);
    InsertContents(t.right, key, value, a);
    AddRight(t, r, key, value, a);
    InsertBalanced(t.right, key, value, a);
    GrownCanRotate(t, u, key);
    RebalanceInsertKeeps(u, key);
    NodeSeparated(u);
    NodeHeightIs(u);
    ReadNode(t, c);
    TreeFrame(t.left, c, c', Addresses(t.right) + Addresses(r));
    RelinkRight(t, r, c, c', Height(u));
    ReadTree(r, c');
    ReadTree(t.left, c');
  }

  lemma GrownBalanced<V>(t: Tree<V>, r: Tree<V>, key: int)
    requires Grown(t, r, key)
    ensures Balanced(r)
  {}

  /** What a recursive call of `remove_at` leaves behind. */
  lemma RemovedChild<V>(t: Tree<V>, key: int)
    requires WellFormed(t) && Balanced(t)
    ensures WellFormed(Removed(t, key)) && Balanced(Removed(t, key)) && Addresses(Removed(t, key)) <= Addresses(t)
    ensures key in Contents(t) ==> Taken(t, Removed(t, key), key, Freed(t, key))
    ensures key !in Contents(t) ==> Removed(t, key) == t
  {
    hide WellFormed, Balanced, Removed, Contents, Addresses;
    RemoveBalanced(t, key);
    if key in Contents(t) {
      assert Ordered(t) by { WellFormedParts(t); }
      RemoveContents(t, key);
    } else {
      WellFormedParts(t);
      RemoveAbsent(t, key);
    }
  }

  lemma WellFormedParts<V>(t: Tree<V>)
    ensures WellFormed(t) <==> Ordered(t) && Separated(t)
  {}

  /** A node is rewritten for subtrees that lost a node, or for another binding. */
  lemma RelinkShrunk<V>(t: Tree<V>, u: Tree<V>, c: seq<Cell<V>>, c': seq<Cell<V>>, h: int)
    requires t.Node? && Separated(t) && u.Node? && u.addr == t.addr && 0 < t.addr < |c| <= 0x7fff
    requires Separated(u.left) && Separated(u.right)
    requires Addresses(u.left) <= Addresses(t.left) && Addresses(u.right) <= Addresses(t.right)
    requires IsTree(u.left, c') && IsTree(u.right, c')
    requires SameOutside(c, c', Addresses(t.left)) || SameOutside(c, c', Addresses(t.right))
    ensures |c'| == |c| && c'[t.addr] == c[t.addr]
    ensures var c2 := c'[t.addr := Cell(Root(u.left), Root(u.right), h, u.key, u.value)];
      && Separated(u) && Addresses(u) <= Addresses(t) && Linked(u, c2) && SameOutside(c, c2, Addresses(t))
      && (c[t.addr].key == u.key && c[t.addr].value == u.value ==>
            WithMeta(c', t.addr, Root(u.left), Root(u.right), h) == c2)
  {
    hide Height, Separated, Addresses, IsTree, CellHeight;
    var c2 := c'[t.addr := Cell(Root(u.left), Root(u.right), h, u.key, u.value)];
    NodeSeparated(t);
    ReadTree(u.left, c');
    ReadTree(u.right, c');
    TreeFrame(u.left, c', c2, {t.addr});
    TreeFrame(u.right, c', c2, {t.addr});
    SeparatedShrunk(t, u);
  }

  lemma SeparatedShrunk<V>(t: Tree<V>, u: Tree<V>)
    requires t.Node? && Separated(t) && u.Node? && u.addr == t.addr
    requires Separated(u.left) && Separated(u.right)
    requires Addresses(u.left) <= Addresses(t.left) && Addresses(u.right) <= Addresses(t.right)
    ensures Separated(u) && Addresses(u) <= Addresses(t)
  {}

  lemma ContentsAtNode<V>(t: Tree<V>, key: int)
    requires t.Node? && Ordered(t)
    ensures key == t.key ==> key in Contents(t) && Contents(t)[key] == t.value && AddressOf(t, key) == t.addr
    ensures key < t.key ==> AddressOf(t, key) == AddressOf(t.left, key) && (key in Contents(t) <==> key in Contents(t.left))
                            && (key in Contents(t) ==> Contents(t)[key] == Contents(t.left)[key])
    ensures key > t.key ==> AddressOf(t, key) == AddressOf(t.right, key) && (key in Contents(t) <==> key in Contents(t.right))
                            && (key in Contents(t) ==> Contents(t)[key] == Contents(t.right)[key])
  {}

  lemma {:induction false} HalfPowMonotone(m: nat, n: nat)
    requires m <= n
    ensures Pow2(m / 2) <= Pow2(n / 2)
    decreases n
  {
    if m < n {
      HalfPowMonotone(m, n - 1);
      assert n / 2 == (n - 1) / 2 || n / 2 == (n - 1) / 2 + 1;
    }
  }

  lemma WithValueRoot<V>(t: Tree<V>, key: int, value: V)
    ensures Root(WithValue(t, key, value)) == Root(t)
  {}

  lemma {:induction false} WithValueCells<V>(t: Tree<V>, c: seq<Cell<V>>, key: int, value: V)
    requires WellFormed(t) && IsTree(t, c) && key in Contents(t)
    ensures 0 < AddressOf(t, key) < |c|
    ensures IsTree(WithValue(t, key, value), c[AddressOf(t, key) := c[AddressOf(t, key)].(value := value)])
  {
    hide Contents, Height;
    BoundIsNode(t, key);
    ContentsAtNode(t, key);
    AddressOfBound(t, key);
    if key < t.key {
      WithValueCells(t.left, c, key, value);
      AddressOfBound(t.left, key);
    } else if key > t.key {
      WithValueCells(t.right, c, key, value);
      AddressOfBound(t.right, key);
    }
    var a := AddressOf(t, key);
    var c' := c[a := c[a].(value := value)];
    if a !in Addresses(t.left) {
      TreeFrame(t.left, c, c', {a});
    }
    if a !in Addresses(t.right) {
      TreeFrame(t.right, c, c', {a});
    }
    NodeHeightIs(t);
    NodeHeightIs(WithValue(t, key, value));
    WithValueRoot(t.left, key, value);
    WithValueRoot(t.right, key, value);
  }

  /** Every node holds a binding of the tree, and is where that binding is found. */
  lemma {:induction false} NodeAt<V>(t: Tree<V>, c: seq<Cell<V>>, a: int)
    requires WellFormed(t) && IsTree(t, c) && a in Addresses(t)
    ensures 0 < a < |c| && c[a].key in Contents(t) && Contents(t)[c[a].key] == c[a].value
    ensures AddressOf(t, c[a].key) == a
  {
    hide Contents, Height, AddressOf;
    WellFormedKeys(t);
    if a == t.addr {
      ContentsAtNode(t, t.key);
    } else if a in Addresses(t.left) {
      NodeAt(t.left, c, a);
      ContentsAtNode(t, c[a].key);
    } else {
      NodeAt(t.right, c, a);
      ContentsAtNode(t, c[a].key);
    }
  }

  lemma WellFormedKeys<V>(t: Tree<V>)
    requires WellFormed(t) && t.Node?
    ensures WellFormed(t.left) && WellFormed(t.right)
    ensures forall k :: k in Contents(t.left) ==> k < t.key
    ensures forall k :: k in Contents(t.right) ==> t.key < k
  {}

  lemma {:induction false} AddressOfInjective<V>(t: Tree<V>, j: int, k: int)
    requires WellFormed(t) && j in Contents(t) && k in Contents(t) && AddressOf(t, j) == AddressOf(t, k)
    ensures j == k
  {
    hide Contents, AddressOf;
    BoundIsNode(t, j);
    WellFormedKeys(t);
    NodeSeparated(t);
    ContentsAtNode(t, j);
    ContentsAtNode(t, k);
    AddressOfBound(t.left, j);
    AddressOfBound(t.left, k);
    AddressOfBound(t.right, j);
    AddressOfBound(t.right, k);
    if j < t.key && k < t.key {
      AddressOfInjective(t.left, j, k);
    } else if j > t.key && k > t.key {
      AddressOfInjective(t.right, j, k);
    }
  }

  lemma MinNodeFreed<V>(t: Tree<V>)
    requires t.Node? && WellFormed(t)
    ensures var m := MinNode(t); m.key in Contents(t) && Freed(t, m.key) == AddressOf(t, m.key) == m.addr
    decreases t
  {
    hide Contents;
    MinNodeLeast(t);
    ContentsAtNode(t, MinNode(t).key);
    if t.left.Node? {
      WellFormedKeys(t);
      MinNodeLeast(t.left);
      MinNodeFreed(t.left);
    }
  }

  /** A removal leaves every other binding in its node, except that the one in the freed node, if that is not
      the node of the key, moves to the node of the key. */
  lemma {:induction false} RemoveAddressOf<V>(t: Tree<V>, key: int, k: int)
    requires WellFormed(t) && key in Contents(t) && k in Contents(t) && k != key
    ensures AddressOf(Removed(t, key), k) == if AddressOf(t, k) == Freed(t, key) then AddressOf(t, key) else AddressOf(t, k)
    decreases t
  {
    hide Contents, Addresses, RebalanceRemove, Separated;
    BoundIsNode(t, key);
    WellFormedKeys(t);
    NodeSeparated(t);
    ContentsAtNode(t, key);
    ContentsAtNode(t, k);
    AddressOfBound(t.left, k);
    AddressOfBound(t.right, k);
    if key < t.key {
      RemoveContents(t.left, key);
      FreedIsNode(t.left, key);
      TakeLeft(t, Removed(t.left, key), key, Freed(t.left, key));
      RebalanceRemoveAddressOf(t.(left := Removed(t.left, key)), k);
      if k < t.key {
        RemoveAddressOf(t.left, key, k);
      }
    } else if key > t.key {
      RemoveContents(t.right, key);
      FreedIsNode(t.right, key);
      TakeRight(t, Removed(t.right, key), key, Freed(t.right, key));
      RebalanceRemoveAddressOf(t.(right := Removed(t.right, key)), k);
      if k > t.key {
        RemoveAddressOf(t.right, key, k);
      }
    } else if t.left.Node? && t.right.Node? {
      var m := MinNode(t.right);
      var r := Removed(t.right, m.key);
      MinNodeLeast(t.right);
      MinNodeFreed(t.right);
      RemoveContents(t.right, m.key);
      FreedIsNode(t.right, m.key);
      TakeRoot(t, r);
      RebalanceRemoveAddressOf(Node(t.addr, t.left, m.key, m.value, r), k);
      if k > m.key {
        RemoveAddressOf(t.right, m.key, k);
        if AddressOf(t.right, k) == m.addr {
          AddressOfInjective(t.right, k, m.key);
        }
      }
    }
  }

  /** The keys are found in the given nodes, in this order. */
  ghost predicate Enumerates<V>(keys: seq<int>, t: Tree<V>, nodes: seq<int>) {
    |keys| == |nodes| && forall n :: 0 <= n < |keys| ==> keys[n] in Contents(t) && AddressOf(t, keys[n]) == nodes[n]
  }

  lemma RemovedAddresses<V>(t: Tree<V>, key: int)
    requires WellFormed(t) && key in Contents(t) && Contents(Removed(t, key)) == Contents(t) - {key}
    ensures forall k :: k in Contents(Removed(t, key)) ==>
      AddressOf(Removed(t, key), k) == if AddressOf(t, k) == Freed(t, key) then AddressOf(t, key) else AddressOf(t, k)
  {
    hide Ordered, Separated, Contents, Removed, AddressOf, Freed;
    forall k | k in Contents(Removed(t, key))
      ensures AddressOf(Removed(t, key), k) == if AddressOf(t, k) == Freed(t, key) then AddressOf(t, key) else AddressOf(t, k)
    {
      RemoveAddressOf(t, key, k);
    }
  }

  /** A removal keeps the order of the enumeration, except that the key of the freed node, at place i, moves to
      the place j of the removed key. */
  lemma EnumerationAfter<V>(keys: seq<int>, used: seq<int>, t: Tree<V>, key: int, keys': seq<int>, i: nat, j: nat)
    requires WellFormed(t) && Enumerates(keys, t, used) && key in Contents(t)
    requires forall m, n :: 0 <= m < n < |used| ==> used[m] != used[n]
    requires i < |used| && j < |used| && used[i] == Freed(t, key) && used[j] == AddressOf(t, key)
    requires WellFormed(Removed(t, key)) && Contents(Removed(t, key)) == Contents(t) - {key}
    requires Enumerates(keys', Removed(t, key), PackedLists.Without(used, i))
    ensures keys' == PackedLists.Without(keys[j := keys[i]], i)
  {
    hide Contents, AddressOf, Removed, Ordered, Separated, Freed;
    var expected := PackedLists.Without(keys[j := keys[i]], i);
    forall n | 0 <= n < |keys'| ensures keys'[n] == expected[n] {
      var m := if n < i then n else n + 1;
      var e := if m == j then keys[i] else keys[m];
      assert expected[n] == e && PackedLists.Without(used, i)[n] == used[m];
      assert used[m] != used[i];
      assert e != key;
      RemoveAddressOf(t, key, e);
      AddressOfInjective(Removed(t, key), keys'[n], e);
    }
  }

  lemma FreedIsNode<V>(t: Tree<V>, key: int)
    requires WellFormed(t) && key in Contents(t)
    ensures Freed(t, key) in Addresses(t)
  {
    RemoveContents(t, key);
  }

  lemma {:induction false} SizeOfContents<V>(t: Tree<V>)
    requires WellFormed(t)
    ensures |Contents(t)| == |Addresses(t)|
  {
    if t.Node? {
      SizeOfContents(t.left);
      SizeOfContents(t.right);
      SizeOfNode(t);
    }
  }

  lemma SizeOfNode<V>(t: Tree<V>)
    requires WellFormed(t) && t.Node?
    requires |Contents(t.left)| == |Addresses(t.left)| && |Contents(t.right)| == |Addresses(t.right)|
    ensures |Contents(t)| == |Addresses(t)|
  {
    hide Addresses, Join;
    AddressCount(t);
    WellFormedKeys(t);
    KeysDisjoint(Contents(t.left), Contents(t.right), t.key);
    JoinSize(Contents(t.left), t.key, t.value, Contents(t.right));
  }

  lemma KeysDisjoint<V>(l: map<int, V>, r: map<int, V>, key: int)
    requires (forall k :: k in l ==> k < key) && (forall k :: k in r ==> key < k)
    ensures l.Keys !! r.Keys && key !in l.Keys && key !in r.Keys
  {
    var a, b := l.Keys, r.Keys;
    assert forall k :: k in a ==> k < key;
    assert forall k :: k in b ==> key < k;
    assert a !! b;
  }

  lemma JoinKeys<V>(l: map<int, V>, k: int, v: V, r: map<int, V>)
    ensures Join(l, k, v, r).Keys == l.Keys + {k} + r.Keys
  {}

  lemma JoinSize<V>(l: map<int, V>, k: int, v: V, r: map<int, V>)
    requires k !in l.Keys && k !in r.Keys && l.Keys !! r.Keys
    ensures |Join(l, k, v, r)| == |l| + 1 + |r|
  {
    hide Join;
    JoinKeys(l, k, v, r);
    SizeOfKeys(l);
    SizeOfKeys(r);
    SizeOfKeys(Join(l, k, v, r));
  }

  lemma SizeOfKeys<V>(m: map<int, V>)
    ensures |m| == |m.Keys|
  {}

  class AvlTree<V(0)> {
    const mem: MemoryPool<Cell<V>>
    const extraData: array<int>  // root address, number of elements
    ghost var tree: Tree<V>

    ghost predicate Shape()
      reads this, mem
    {
      && extraData.Length == 2
      && extraData != mem.data && extraData as object != mem.blocks as object
    }

    ghost predicate Valid()
      reads this, mem, mem.data, mem.blocks, extraData
    {
      && Shape() && mem.Valid()
      && WellFormed(tree) && Balanced(tree) && IsTree(tree, mem.blocks[..])
      && Addresses(tree) == PackedLists.Elements(mem.used)
      && extraData[0] == Root(tree) && extraData[1] == |mem.used|
    }

    constructor (capacity: nat, elementBlockSize: nat)
      requires 1 <= capacity <= 0xffff && 1 <= elementBlockSize
      requires 3 + capacity * (1 + elementBlockSize) <= 0xffff
      ensures mem.capacity == capacity && mem.data.Length == 3 + capacity * (1 + elementBlockSize)
      ensures Contents(tree) == map[]
      ensures PackedLists.Hi(mem.data[0]) == mem.data.Length <==> mem.data.Length <= PackedLists.MAX_ADDR
      ensures 2 <= capacity && mem.data.Length <= PackedLists.MAX_ADDR ==> Valid() && mem.used == []
      ensures fresh(mem) && fresh(mem.data) && fresh(mem.blocks) && fresh(extraData)
    {
      mem := new MemoryPool(capacity, elementBlockSize);
      extraData := new int[2];
      tree := Leaf;
      new;
      extraData[0] := 0;
      extraData[1] := 0;
    }

    function NodeHeight(addr: int): (h: int)
      requires 0 <= addr < mem.blocks.Length
      reads mem.blocks
      ensures h == CellHeight(mem.blocks[..], addr)
    {
      if addr == 0 then 0 else mem.blocks[addr].height
    }

    method SetMeta(addr: int, left: int, right: int, height: int)
      requires 0 <= addr < mem.blocks.Length
      modifies mem.blocks
      ensures mem.blocks[..] == old(WithMeta(mem.blocks[..], addr, left, right, height))
    {
      mem.blocks[addr] := mem.blocks[addr].(left := Int16(left), right := Int16(right), height := height);
    }

    method RightRotate(addr: int, ghost t: Tree<V>) returns (r: int)
      requires t.Node? && t.left.Node? && addr == t.addr && Separated(t)
      requires Linked(t, mem.blocks[..]) && mem.blocks.Length <= 0x7fff
      modifies mem.blocks
      ensures r == Root(RotateRight(t)) && IsTree(RotateRight(t), mem.blocks[..])
      ensures SameOutside(old(mem.blocks[..]), mem.blocks[..], {t.addr, t.left.addr})
    {
      hide IsTree, Linked, Height, Separated, SameOutside, CellHeight;
      ghost var c := mem.blocks[..];
      ReadNode(t, c);
      assert mem.blocks[addr] == c[addr];
      var meta := mem.blocks[addr];
      var leftAddr := meta.left;
      ReadTree(t.left, c);
      ReadTree(t.right, c);
      ReadNode(t.left, c);
      assert mem.blocks[leftAddr] == c[leftAddr];
      var leftMeta := mem.blocks[leftAddr];
      ReadTree(t.left.left, c);
      ReadTree(t.left.right, c);
      var tmp := leftMeta.right;
      var height := 1 + Max(NodeHeight(tmp), NodeHeight(meta.right));
      var leftHeight := 1 + Max(NodeHeight(leftMeta.left), height);
      SetMeta(addr, tmp, meta.right, height);
      SetMeta(leftAddr, leftMeta.left, addr, leftHeight);
      RotateRightCells(t, c);
      r := leftAddr;
    }

    method LeftRotate(addr: int, ghost t: Tree<V>) returns (r: int)
      requires t.Node? && t.right.Node? && addr == t.addr && Separated(t)
      requires Linked(t, mem.blocks[..]) && mem.blocks.Length <= 0x7fff
      modifies mem.blocks
      ensures r == Root(RotateLeft(t)) && IsTree(RotateLeft(t), mem.blocks[..])
      ensures SameOutside(old(mem.blocks[..]), mem.blocks[..], {t.addr, t.right.addr})
    {
      hide IsTree, Linked, Height, Separated, SameOutside, CellHeight;
      ghost var c := mem.blocks[..];
      ReadNode(t, c);
      assert mem.blocks[addr] == c[addr];
      var meta := mem.blocks[addr];
      var rightAddr := meta.right;
      ReadTree(t.left, c);
      ReadTree(t.right, c);
      ReadNode(t.right, c);
      assert mem.blocks[rightAddr] == c[rightAddr];
      var rightMeta := mem.blocks[rightAddr];
      ReadTree(t.right.left, c);
      ReadTree(t.right.right, c);
      var tmp := rightMeta.left;
      var height := 1 + Max(NodeHeight(meta.left), NodeHeight(tmp));
      var rightHeight := 1 + Max(height, NodeHeight(rightMeta.right));
      SetMeta(addr, meta.left, tmp, height);
      SetMeta(rightAddr, addr, rightMeta.right, rightHeight);
      RotateLeftCells(t, c);
      r := rightAddr;
    }

    method RebalanceInserted(addr: int, key: int, ghost t: Tree<V>) returns (r: int)
      requires t.Node? && addr == t.addr && Separated(t) && CanRotate(t, key)
      requires IsTree(t, mem.blocks[..]) && mem.blocks.Length <= 0x7fff
      modifies mem.blocks
      ensures r == Root(RebalanceInsert(t, key)) && IsTree(RebalanceInsert(t, key), mem.blocks[..])
      ensures SameOutside(old(mem.blocks[..]), mem.blocks[..], Addresses(t))
    {
      hide IsTree, Linked, Height, Separated, Addresses, CellHeight, RotateLeft, RotateRight;
      ghost var c := mem.blocks[..];
      r := addr;
      ReadTree(t, c);
      ReadNode(t, c);
      assert mem.blocks[addr] == c[addr];
      var meta := mem.blocks[addr];
      ReadTree(t.left, c);
      ReadTree(t.right, c);
      NodeSeparated(t);
      HigherIsNode(t);
      var balance := NodeHeight(meta.left) - NodeHeight(meta.right);
      if balance > 1 {
        NodeSeparated(t.left);
        ReadNode(t.left, c);
        assert mem.blocks[meta.left] == c[meta.left];
        var leftKey := mem.blocks[meta.left].key;
        if key < leftKey {
          r := RightRotate(addr, t);
        } else if key > leftKey {
          var left := LeftRotate(meta.left, t.left);
          ghost var u := t.(left := RotateLeft(t.left));
          RotateLeftSeparated(t.left);
          RotatedRoot(t.left);
          NodeSeparated(u.left);
          ExchangeChild(t, u.left, t.right);
          RelinkLeft(t, u.left, c, mem.blocks[..], meta.height);
          SetMeta(addr, left, meta.right, meta.height);
          r := RightRotate(addr, u);
        }
      } else if balance < -1 {
        NodeSeparated(t.right);
        ReadNode(t.right, c);
        assert mem.blocks[meta.right] == c[meta.right];
        var rightKey := mem.blocks[meta.right].key;
        if key > rightKey {
          r := LeftRotate(addr, t);
        } else if key < rightKey {
          var right := RightRotate(meta.right, t.right);
          ghost var u := t.(right := RotateRight(t.right));
          RotateRightSeparated(t.right);
          RotatedRoot(t.right);
          NodeSeparated(u.right);
          ExchangeChild(t, t.left, u.right);
          RelinkRight(t, u.right, c, mem.blocks[..], meta.height);
          SetMeta(addr, meta.left, right, meta.height);
          r := LeftRotate(addr, u);
        }
      }
    }

    /** `insert_at` where there is no node yet. */
    method InsertNode(key: int, value: V, ghost t: Tree<V>) returns (ok: bool, r: int)
      requires Shape() && mem.Valid() && t.Leaf?
      modifies mem`free, mem`used, mem.data, mem.blocks, extraData
      ensures key !in Contents(t) && (ok <==> old(mem.free) != [])
      ensures ok ==> mem.Valid() && 0 < r && r !in PackedLists.Elements(old(mem.used))
      ensures ok ==> r == Root(Inserted(t, key, value, r)) && IsTree(Inserted(t, key, value, r), mem.blocks[..])
      ensures ok ==> SameOutside(old(mem.blocks[..]), mem.blocks[..], Addresses(t) + Addresses(Inserted(t, key, value, r)))
      ensures ok ==>
        mem.used == old(mem.used) + [r] && mem.free == old(mem.free)[1..] && extraData[1] == old(extraData[1]) + 1
      ensures extraData[0] == old(extraData[0]) && mem.data[0] == old(mem.data[0])
    {
      hide IsTree, Linked, Height, Separated, Addresses, Balanced, Ordered, Contents, PackedLists.Store;
      extraData[1] := extraData[1] + 1;
      var full := mem.Full();
      LeafFacts(t, key);
      if full {
        return false, 0;
      }
      r := mem.AllocBlock();
      mem.blocks[r] := Cell(0, 0, 1, key, value);
      ok := true;
      NewNode(t, key, value, r, mem.blocks[..]);
    }

    method InsertAt(addr: int, key: int, value: V, ghost t: Tree<V>) returns (ok: bool, r: int, ghost a: int)
      requires Shape() && mem.Valid()
      requires addr == Root(t) && IsTree(t, mem.blocks[..]) && WellFormed(t) && Balanced(t)
      requires Addresses(t) <= PackedLists.Elements(mem.used)
      modifies mem`free, mem`used, mem.data, mem.blocks, extraData
      ensures ok <==> key in Contents(t) || old(mem.free) != []
      ensures ok ==> mem.Valid() && 0 < a && a !in PackedLists.Elements(old(mem.used))
      ensures ok ==> r == Root(Inserted(t, key, value, a)) && IsTree(Inserted(t, key, value, a), mem.blocks[..])
      ensures ok ==> SameOutside(old(mem.blocks[..]), mem.blocks[..], Addresses(t) + Addresses(Inserted(t, key, value, a)))
      ensures ok && key in Contents(t) ==>
        mem.used == old(mem.used) && mem.free == old(mem.free) && extraData[1] == old(extraData[1])
      ensures ok && key !in Contents(t) ==>
        mem.used == old(mem.used) + [a] && mem.free == old(mem.free)[1..] && extraData[1] == old(extraData[1]) + 1
      ensures extraData[0] == old(extraData[0]) && mem.data[0] == old(mem.data[0])
      decreases t
    {
      hide IsTree, Linked, Height, Separated, Addresses, CellHeight, Balanced, Ordered, Contents, RebalanceInsert,
           PackedLists.Store;
      ghost var c := mem.blocks[..];
      ReadTree(t, c);
      if addr == 0 {
        ok, r := InsertNode(key, value, t);
        a := if ok then r else 1;
      } else {
        ReadNode(t, c);
        NodeSeparated(t);
        ContentsKeys(t);
        WellFormedChildren(t);
        assert mem.blocks[addr] == c[addr];
        var meta := mem.blocks[addr];
        if key < meta.key {
          var left;
          ok, left, a := InsertAt(meta.left, key, value, t.left);
          if ok {
            InsertedLeft(t, key, value, a, c, mem.blocks[..]);
            var height := 1 + Max(NodeHeight(left), NodeHeight(meta.right));
            SetMeta(addr, left, meta.right, height);
            r := RebalanceInserted(addr, key, t.(left := Inserted(t.left, key, value, a)));
          } else {
            r := 0;
          }
        } else if key > meta.key {
          var right;
          ok, right, a := InsertAt(meta.right, key, value, t.right);
          if ok {
            InsertedRight(t, key, value, a, c, mem.blocks[..]);
            var height := 1 + Max(NodeHeight(meta.left), NodeHeight(right));
            SetMeta(addr, meta.left, right, height);
            r := RebalanceInserted(addr, key, t.(right := Inserted(t.right, key, value, a)));
          } else {
            r := 0;
          }
        } else {
          ok, r := true, addr;
          a := mem.blocks.Length;
          UsedBelow();
        }
      }
    }

    lemma UsedBelow()
      requires mem.Valid()
      ensures mem.blocks.Length !in PackedLists.Elements(mem.used)
    {
      if mem.blocks.Length in mem.used {
        var k :| 0 <= k < |mem.used| && mem.used[k] == mem.blocks.Length;
        mem.UsedInRange(k);
      }
    }

    /** Inserts a binding; an existing one is kept.  Fails, which ends the run, exactly when a new node
        is needed and no block is free. */
    method Insert(key: int, value: V) returns (ok: bool)
      requires Valid()
      modifies this`tree, mem`free, mem`used, mem.data, mem.blocks, extraData
      ensures ok <==> key in old(Contents(tree)) || old(mem.free) != []
      ensures ok ==> Valid()
      ensures mem.data[0] == old(mem.data[0])
      ensures ok && key in old(Contents(tree)) ==>
        tree == old(tree) && mem.used == old(mem.used) && mem.free == old(mem.free)
      ensures ok && key !in old(Contents(tree)) ==>
        && Contents(tree) == old(Contents(tree))[key := value]
        && mem.free == old(mem.free)[1..]
        && |mem.used| == |old(mem.used)| + 1 && mem.used[..|old(mem.used)|] == old(mem.used)
        && AddressOf(tree, key) == mem.used[|old(mem.used)|]
        && forall k :: k in old(Contents(tree)) ==> AddressOf(tree, k) == old(AddressOf(tree, k))
    {
      hide IsTree, Separated, Addresses, Balanced, Ordered, Contents, Inserted, PackedLists.Store, AddressOf;
      var root;
      ghost var a;
      ok, root, a := InsertAt(extraData[0], key, value, tree);
      if ok {
        extraData[0] := root;
        InsertContents(tree, key, value, a);
        InsertBalanced(tree, key, value, a);
        GrownBalanced(tree, Inserted(tree, key, value, a), key);
        InsertAddresses(tree, key, value, a);
        if key in Contents(tree) {
          InsertPresent(tree, key, value, a);
        }
        tree := Inserted(tree, key, value, a);
      }
    }

    method RebalanceRemoved(addr: int, ghost t: Tree<V>) returns (r: int)
      requires t.Node? && addr == t.addr && Separated(t)
      requires IsTree(t, mem.blocks[..]) && mem.blocks.Length <= 0x7fff
      modifies mem.blocks
      ensures r == Root(RebalanceRemove(t)) && IsTree(RebalanceRemove(t), mem.blocks[..])
      ensures SameOutside(old(mem.blocks[..]), mem.blocks[..], Addresses(t))
    {
      hide IsTree, Linked, Height, Separated, Addresses, CellHeight, RotateLeft, RotateRight;
      ghost var c := mem.blocks[..];
      r := addr;
      ReadTree(t, c);
      ReadNode(t, c);
      assert mem.blocks[addr] == c[addr];
      var meta := mem.blocks[addr];
      ReadTree(t.left, c);
      ReadTree(t.right, c);
      NodeSeparated(t);
      HigherIsNode(t);
      var balance := NodeHeight(meta.left) - NodeHeight(meta.right);
      if balance > 1 {
        NodeSeparated(t.left);
        HigherIsNode(t.left);
        var leftBalance := NodeBalance(meta.left, t.left);
        if leftBalance >= 0 {
          r := RightRotate(addr, t);
        } else {
          var left := LeftRotate(meta.left, t.left);
          ghost var u := t.(left := RotateLeft(t.left));
          RotateLeftSeparated(t.left);
          RotatedRoot(t.left);
          NodeSeparated(u.left);
          ExchangeChild(t, u.left, t.right);
          RelinkLeft(t, u.left, c, mem.blocks[..], meta.height);
          SetMeta(addr, left, meta.right, meta.height);
          r := RightRotate(addr, u);
        }
      } else if balance < -1 {
        NodeSeparated(t.right);
        HigherIsNode(t.right);
        var rightBalance := NodeBalance(meta.right, t.right);
        if rightBalance <= 0 {
          r := LeftRotate(addr, t);
        } else {
          var right := RightRotate(meta.right, t.right);
          ghost var u := t.(right := RotateRight(t.right));
          RotateRightSeparated(t.right);
          RotatedRoot(t.right);
          NodeSeparated(u.right);
          ExchangeChild(t, t.left, u.right);
          RelinkRight(t, u.right, c, mem.blocks[..], meta.height);
          SetMeta(addr, meta.left, right, meta.height);
          r := LeftRotate(addr, u);
        }
      }
    }

    method NodeBalance(addr: int, ghost t: Tree<V>) returns (balance: int)
      requires 0 < mem.blocks.Length && addr == Root(t) && IsTree(t, mem.blocks[..])
      ensures balance == Balance(t)
    {
      hide IsTree, Linked, Height, CellHeight;
      ReadTree(t, mem.blocks[..]);
      if addr == 0 {
        return 0;
      }
      ReadNode(t, mem.blocks[..]);
      ReadTree(t.left, mem.blocks[..]);
      ReadTree(t.right, mem.blocks[..]);
      assert mem.blocks[..][addr] == mem.blocks[addr];
      balance := NodeHeight(mem.blocks[addr].left) - NodeHeight(mem.blocks[addr].right);
    }

    method FindMinKeyNode(addr: int, ghost t: Tree<V>) returns (r: int)
      requires t.Node? && addr == t.addr && IsTree(t, mem.blocks[..])
      ensures r == MinNode(t).addr && 0 < r < mem.blocks.Length
      ensures mem.blocks[r].key == MinNode(t).key && mem.blocks[r].value == MinNode(t).value
      decreases t
    {
      hide IsTree, Linked, CellHeight, Height;
      ReadTree(t, mem.blocks[..]);
      ReadNode(t, mem.blocks[..]);
      assert mem.blocks[..][addr] == mem.blocks[addr];
      ReadTree(t.left, mem.blocks[..]);
      if mem.blocks[addr].left == 0 {
        r := addr;
      } else {
        r := FindMinKeyNode(mem.blocks[addr].left, t.left);
      }
    }

    /** The common tail of `remove_at`: new height, then rebalancing. */
    method FinishRemove(addr: int, ghost u: Tree<V>) returns (r: int)
      requires u.Node? && addr == u.addr && Separated(u)
      requires Linked(u, mem.blocks[..]) && mem.blocks.Length <= 0x7fff
      modifies mem.blocks
      ensures r == Root(RebalanceRemove(u)) && IsTree(RebalanceRemove(u), mem.blocks[..])
      ensures SameOutside(old(mem.blocks[..]), mem.blocks[..], Addresses(u))
    {
      hide IsTree, Linked, CellHeight, Height, Separated, Addresses, RebalanceRemove;
      ghost var c := mem.blocks[..];
      ReadNode(u, c);
      NodeSeparated(u);
      assert mem.blocks[addr] == c[addr];
      var meta := mem.blocks[addr];
      ReadTree(u.left, c);
      ReadTree(u.right, c);
      NodeHeightIs(u);
      var height := 1 + Max(NodeHeight(meta.left), NodeHeight(meta.right));
      Relink(u, c, height);
      SetMeta(addr, meta.left, meta.right, height);
      r := RebalanceRemoved(addr, u);
    }

    /** The case of `remove_at` where the node goes: it has no child, or only one. */
    method FreeNode(addr: int, key: int, ghost t: Tree<V>) returns (r: int)
      requires Shape() && mem.Valid() && t.Node? && key == t.key && (t.left.Leaf? || t.right.Leaf?)
      requires addr == Root(t) && IsTree(t, mem.blocks[..]) && WellFormed(t) && Balanced(t)
      requires Addresses(t) <= PackedLists.Elements(mem.used)
      modifies mem`free, mem`used, mem.data, extraData
      ensures mem.Valid()
      ensures r == Root(Removed(t, key)) && IsTree(Removed(t, key), mem.blocks[..])
      ensures mem.free == [Freed(t, key)] + old(mem.free) && extraData[1] == old(extraData[1]) - 1
      ensures exists i :: 0 <= i < |old(mem.used)| && old(mem.used)[i] == Freed(t, key)
                          && mem.used == PackedLists.Without(old(mem.used), i)
      ensures extraData[0] == old(extraData[0])
    {
      hide IsTree, Linked, Height, Separated, Addresses, CellHeight, Balanced, Ordered, Contents, RebalanceRemove,
           PackedLists.Store;
      ghost var c := mem.blocks[..];
      ReadTree(t, c);
      ReadNode(t, c);
      NodeSeparated(t);
      ReadTree(t.left, c);
      ReadTree(t.right, c);
      assert mem.blocks[addr] == c[addr];
      var meta := mem.blocks[addr];
      extraData[1] := extraData[1] - 1;
      ghost var i :| 0 <= i < |mem.used| && mem.used[i] == addr;
      mem.FreeBlock(addr, i);
      r := if meta.left == 0 then meta.right else meta.left;
    }

    method RemoveAt(addr: int, key: int, ghost t: Tree<V>) returns (r: int)
      requires Shape() && mem.Valid()
      requires addr == Root(t) && IsTree(t, mem.blocks[..]) && WellFormed(t) && Balanced(t)
      requires Addresses(t) <= PackedLists.Elements(mem.used)
      modifies mem`free, mem`used, mem.data, mem.blocks, extraData
      ensures mem.Valid()
      ensures r == Root(Removed(t, key)) && IsTree(Removed(t, key), mem.blocks[..])
      ensures SameOutside(old(mem.blocks[..]), mem.blocks[..], Addresses(t))
      ensures key !in Contents(t) ==>
        mem.used == old(mem.used) && mem.free == old(mem.free) && extraData[1] == old(extraData[1])
      ensures key in Contents(t) ==>
        && mem.free == [Freed(t, key)] + old(mem.free) && extraData[1] == old(extraData[1]) - 1
        && exists i :: 0 <= i < |old(mem.used)| && old(mem.used)[i] == Freed(t, key)
                       && mem.used == PackedLists.Without(old(mem.used), i)
      ensures extraData[0] == old(extraData[0])
      decreases t
    {
      hide IsTree, Linked, Height, Separated, Addresses, CellHeight, Balanced, Ordered, Contents, RebalanceRemove,
           PackedLists.Store;
      ghost var c := mem.blocks[..];
      ReadTree(t, c);
      r := addr;
      if addr == 0 {
        LeafFacts(t, key);
        return;
      }
      ReadNode(t, c);
      NodeSeparated(t);
      ContentsKeys(t);
      WellFormedChildren(t);
      ReadTree(t.left, c);
      ReadTree(t.right, c);
      assert mem.blocks[addr] == c[addr];
      var meta := mem.blocks[addr];
      if key < meta.key {
        var left := RemoveAt(meta.left, key, t.left);
        RemovedChild(t.left, key);
        TreeFrame(t.right, c, mem.blocks[..], Addresses(t.left));
        RelinkShrunk(t, t.(left := Removed(t.left, key)), c, mem.blocks[..], meta.height);
        SetMeta(addr, left, meta.right, meta.height);
        r := FinishRemove(addr, t.(left := Removed(t.left, key)));
      } else if key > meta.key {
        var right := RemoveAt(meta.right, key, t.right);
        RemovedChild(t.right, key);
        TreeFrame(t.left, c, mem.blocks[..], Addresses(t.right));
        RelinkShrunk(t, t.(right := Removed(t.right, key)), c, mem.blocks[..], meta.height);
        SetMeta(addr, meta.left, right, meta.height);
        r := FinishRemove(addr, t.(right := Removed(t.right, key)));
      } else if meta.left == 0 || meta.right == 0 {
        r := FreeNode(addr, key, t);
      } else {
        var succ := FindMinKeyNode(meta.right, t.right);
        var node := mem.blocks[succ];
        MinNodeLeast(t.right);
        var right := RemoveAt(meta.right, node.key, t.right);
        RemovedChild(t.right, node.key);
        TreeFrame(t.left, c, mem.blocks[..], Addresses(t.right));
        RelinkShrunk(t, Node(t.addr, t.left, node.key, node.value, Removed(t.right, node.key)), c, mem.blocks[..], meta.height);
        ReadTree(Removed(t.right, node.key), mem.blocks[..]);
        mem.blocks[addr] := node.(left := Int16(meta.left), right := Int16(right), height := meta.height);
        r := FinishRemove(addr, Node(t.addr, t.left, node.key, node.value, Removed(t.right, node.key)));
      }
    }

    /** Removes the binding of a key, if there is one, and gives its node back to the pool. */
    method Remove(key: int) returns (ghost i: nat, ghost j: nat)
      requires Valid()
      modifies this`tree, mem`free, mem`used, mem.data, mem.blocks, extraData
      ensures Valid()
      ensures Contents(tree) == old(Contents(tree)) - {key}
      ensures key !in old(Contents(tree)) ==> tree == old(tree) && mem.used == old(mem.used) && mem.free == old(mem.free)
      ensures key in old(Contents(tree)) ==>
        && i < |old(mem.used)| && j < |old(mem.used)|
        && old(mem.used)[i] == old(Freed(tree, key)) && old(mem.used)[j] == old(AddressOf(tree, key))
        && mem.used == PackedLists.Without(old(mem.used), i) && mem.free == [old(mem.used)[i]] + old(mem.free)
        && EnumeratedKeys() == PackedLists.Without(old(EnumeratedKeys())[j := old(EnumeratedKeys())[i]], i)
      ensures forall k :: k in Contents(tree) && key in old(Contents(tree)) ==>
        AddressOf(tree, k) == if old(AddressOf(tree, k) == Freed(tree, key)) then old(AddressOf(tree, key)) else old(AddressOf(tree, k))
    {
      hide IsTree, Separated, Addresses, Balanced, Ordered, Contents, Removed, PackedLists.Store, AddressOf, Freed;
      mem.UsedDistinct();
      i, j := 0, 0;
      ghost var used, keys, t := mem.used, EnumeratedKeys(), tree;
      if key in Contents(tree) {
        j := PlaceOf(key);
      }
      var root := RemoveAt(extraData[0], key, tree);
      extraData[0] := root;
      RemovedChild(tree, key);
      if key in Contents(tree) {
        i :| 0 <= i < |used| && used[i] == Freed(tree, key) && mem.used == PackedLists.Without(used, i);
        PackedLists.WithoutElements(used, i);
        RemovedAddresses(tree, key);
      } else {
        RemoveAbsent(tree, key);
        assert Contents(tree) - {key} == Contents(tree);
      }
      tree := Removed(tree, key);
      if key in Contents(t) {
        EnumerationAfter(keys, used, t, key, EnumeratedKeys(), i, j);
      }
    }

    /** The place of a key in the enumeration. */
    lemma PlaceOf(key: int) returns (j: nat)
      requires Valid() && key in Contents(tree)
      ensures j < |mem.used| && mem.used[j] == AddressOf(tree, key)
    {
      hide IsTree, Separated, Ordered, Balanced, Contents, AddressOf, Height, Addresses;
      AddressOfBound(tree, key);
      j :| j < |mem.used| && mem.used[j] == AddressOf(tree, key);
    }

    method Size() returns (size: int)
      requires Valid()
      ensures size == |mem.used| == |Contents(tree)|
    {
      hide Contents, Addresses, Separated, Ordered;
      mem.BlocksConserved();
      SizeOfContents(tree);
      size := extraData[1];
    }

    /** The node of a key, 0 if it has none, in a number of steps logarithmic in the size. */
    method Find(key: int) returns (addr: int, ghost steps: nat)
      requires Valid()
      ensures addr == AddressOf(tree, key) && (addr == 0 <==> key !in Contents(tree))
      ensures addr != 0 ==> 0 < addr < mem.blocks.Length && mem.blocks[addr].key == key
                            && mem.blocks[addr].value == Contents(tree)[key]
      ensures steps <= Height(tree) && Pow2(steps / 2) <= |mem.used| + 1
    {
      hide IsTree, Linked, Height, Separated, Addresses, CellHeight, Balanced, Ordered, Contents, Pow2,
           PackedLists.Store;
      ghost var t, c := tree, mem.blocks[..];
      steps := 0;
      addr := extraData[0];
      ReadTree(t, c);
      while addr != 0
        invariant WellFormed(t) && Balanced(t) && IsTree(t, c) && addr == Root(t)
        invariant 0 <= addr < |c| && (addr == 0 <==> t.Leaf?)
        invariant AddressOf(t, key) == AddressOf(tree, key) && steps + Height(t) <= Height(tree)
        invariant key in Contents(tree) <==> key in Contents(t)
        invariant key in Contents(t) ==> Contents(t)[key] == Contents(tree)[key]
        decreases t
      {
        ReadTree(t, c);
        ReadNode(t, c);
        WellFormedChildren(t);
        ContentsAtNode(t, key);
        NodeHeightIs(t);
        assert mem.blocks[addr] == c[addr];
        var nodeKey := mem.blocks[addr].key;
        if key == nodeKey {
          break;
        }
        var meta := mem.blocks[addr];
        if key < nodeKey {
          t := t.left;
          addr := meta.left;
        } else {
          t := t.right;
          addr := meta.right;
        }
        ReadTree(t, c);
        steps := steps + 1;
      }
      AddressOfBound(tree, key);
      LeafFacts<V>(Leaf, key);
      mem.BlocksConserved();
      HeightLogarithmic(tree);
      HalfPowMonotone(steps, Height(tree));
    }

    method SetValue(addr: int, value: V, ghost key: int)
      requires Valid() && key in Contents(tree) && addr == AddressOf(tree, key)
      modifies this`tree, mem.blocks
      ensures Valid() && tree == WithValue(old(tree), key, value)
      ensures Contents(tree) == old(Contents(tree))[key := value]
    {
      hide IsTree, Height, Separated, Addresses, Balanced, Ordered, Contents, WithValue, AddressOf;
      AddressOfBound(tree, key);
      WithValueCells(tree, mem.blocks[..], key, value);
      var node := mem.blocks[addr];
      assert node == mem.blocks[..][addr];
      mem.blocks[addr] := node.(value := value);
      WithValueContents(tree, key, value);
      WithValueBalanced(tree, key, value);
      WithValueRoot(tree, key, value);
      tree := WithValue(tree, key, value);
    }

    /** Key and value of the i-th node of the enumeration. */
    method GetElement(addr: int, ghost i: nat) returns (key: int, value: V)
      requires Valid() && i < |mem.used| && mem.used[i] == addr
      ensures key == EnumeratedKey(i) && value == Contents(tree)[key]
    {
      hide IsTree, Separated, Ordered, Balanced, Contents, AddressOf, Height, Addresses;
      mem.UsedInRange(i);
      NodeAt(tree, mem.blocks[..], addr);
      key, value := mem.blocks[addr].key, mem.blocks[addr].value;
    }

    /** The key in the i-th block of the used list. */
    ghost function EnumeratedKey(i: nat): (key: int)
      requires Valid() && i < |mem.used|
      reads this, mem, mem.data, mem.blocks, extraData
      ensures key in Contents(tree) && AddressOf(tree, key) == mem.used[i] && 0 < mem.used[i] < mem.blocks.Length
      ensures mem.blocks[mem.used[i]].key == key && mem.blocks[mem.used[i]].value == Contents(tree)[key]
    {
      mem.UsedInRange(i);
      NodeAt(tree, mem.blocks[..], mem.used[i]);
      mem.blocks[mem.used[i]].key
    }

    ghost function EnumeratedKeys(): (keys: seq<int>)
      requires Valid()
      reads this, mem, mem.data, mem.blocks, extraData
      ensures Enumerates(keys, tree, mem.used)
      ensures forall i :: 0 <= i < |keys| ==> keys[i] == EnumeratedKey(i)
    {
      seq(|mem.used|, i requires 0 <= i < |mem.used| && Valid() reads this, mem, mem.data, mem.blocks, extraData => EnumeratedKey(i))
    }

    /** Walking `begin_address` / `next_address` visits every key exactly once. */
    lemma EnumerationVisitsAll()
      requires Valid()
      ensures forall i, j :: 0 <= i < j < |mem.used| ==> EnumeratedKey(i) != EnumeratedKey(j)
      ensures forall key :: key in Contents(tree) ==> exists i :: 0 <= i < |mem.used| && EnumeratedKey(i) == key
    {
      hide IsTree, Separated, Ordered, Balanced, Contents, AddressOf, Height, Addresses;
      mem.UsedDistinct();
      forall key | key in Contents(tree) ensures exists i :: 0 <= i < |mem.used| && EnumeratedKey(i) == key {
        AddressOfBound(tree, key);
        var i :| 0 <= i < |mem.used| && mem.used[i] == AddressOf(tree, key);
        AddressOfInjective(tree, EnumeratedKey(i), key);
      }
    }
  }
}
