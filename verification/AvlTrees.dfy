/** The trees that include/cmo_avltree.h builds, as values: `Inserted` and `Removed` take the same branches
    as `insert_at` and `remove_at`, node addresses included, and the laws of the structure are proved here.
    `AvlTree` proves that the array code computes these functions.
 */
module AvlTrees {
  import opened Arithmetic

  datatype Tree<V> = Leaf | Node(addr: int, left: Tree<V>, key: int, value: V, right: Tree<V>)

  function Height<V>(t: Tree<V>): nat {
    if t.Leaf? then 0 else 1 + Max(Height(t.left), Height(t.right))
  }

  function Balance<V>(t: Tree<V>): int {
    if t.Leaf? then 0 else Height(t.left) - Height(t.right)
  }

  function Join<V>(l: map<int, V>, key: int, value: V, r: map<int, V>): map<int, V> {
    l + map[key := value] + r
  }

  function Contents<V>(t: Tree<V>): map<int, V> {
    if t.Leaf? then map[] else Join(Contents(t.left), t.key, t.value, Contents(t.right))
  }

  function Addresses<V>(t: Tree<V>): set<int> {
    if t.Leaf? then {} else Addresses(t.left) + {t.addr} + Addresses(t.right)
  }

  /** Strictly ordered by key. */
  ghost predicate Ordered<V>(t: Tree<V>) {
    t.Node? ==>
      && Ordered(t.left) && Ordered(t.right)
      && (forall k :: k in Contents(t.left) ==> k < t.key)
      && (forall k :: k in Contents(t.right) ==> t.key < k)
  }

  ghost predicate Balanced<V>(t: Tree<V>) {
    t.Node? ==> Balanced(t.left) && Balanced(t.right) && -1 <= Balance(t) <= 1
  }

  /** No address is used by two nodes; 0 is none. */
  ghost predicate Separated<V>(t: Tree<V>) {
    t.Node? ==>
      && Separated(t.left) && Separated(t.right)
      && 0 < t.addr && t.addr !in Addresses(t.left) && t.addr !in Addresses(t.right)
      && Addresses(t.left) !! Addresses(t.right)
  }

  // ----- rotations -----

  function RotateRight<V>(t: Tree<V>): Tree<V>
    requires t.Node? && t.left.Node?
  {
    var l := t.left;
    Node(l.addr, l.left, l.key, l.value, t.(left := l.right))
  }

  function RotateLeft<V>(t: Tree<V>): Tree<V>
    requires t.Node? && t.right.Node?
  {
    var r := t.right;
    Node(r.addr, t.(right := r.left), r.key, r.value, r.right)
  }

  lemma JoinAssociative<V>(a: map<int, V>, x: int, v: V, b: map<int, V>, y: int, w: V, c: map<int, V>)
    ensures Join(Join(a, x, v, b), y, w, c) == Join(a, x, v, Join(b, y, w, c))
  {}

  lemma JoinAdd<V>(l: map<int, V>, k: int, v: V, r: map<int, V>, key: int, value: V)
    requires key != k
    ensures key !in r ==> Join(l[key := value], k, v, r) == Join(l, k, v, r)[key := value]
    ensures Join(l, k, v, r[key := value]) == Join(l, k, v, r)[key := value]
  {}

  lemma JoinTake<V>(l: map<int, V>, k: int, v: V, r: map<int, V>, key: int)
    requires key != k
    ensures key !in r ==> Join(l - {key}, k, v, r) == Join(l, k, v, r) - {key}
    ensures key !in l ==> Join(l, k, v, r - {key}) == Join(l, k, v, r) - {key}
  {}

  lemma JoinTakeRoot<V>(l: map<int, V>, k: int, v: V, r: map<int, V>, key: int)
    requires key in r && key !in l && k !in l && k !in r
    ensures Join(l, key, r[key], r - {key}) == Join(l, k, v, r) - {k}
  {}

  lemma RotateRightContents<V>(t: Tree<V>)
    requires t.Node? && t.left.Node?
    ensures Contents(RotateRight(t)) == Contents(t)
  {
    hide Join;
    var l := t.left;
    JoinAssociative(Contents(l.left), l.key, l.value, Contents(l.right), t.key, t.value, Contents(t.right));
  }

  lemma RotateLeftContents<V>(t: Tree<V>)
    requires t.Node? && t.right.Node?
    ensures Contents(RotateLeft(t)) == Contents(t)
  {
    hide Join;
    var r := t.right;
    JoinAssociative(Contents(t.left), t.key, t.value, Contents(r.left), r.key, r.value, Contents(r.right));
  }

  lemma ContentsKeys<V>(t: Tree<V>)
    requires t.Node?
    ensures t.key in Contents(t)
    ensures forall k :: k in Contents(t) <==> k in Contents(t.left) || k == t.key || k in Contents(t.right)
  {}

  lemma RotateRightOrdered<V>(t: Tree<V>)
    requires t.Node? && t.left.Node? && Ordered(t)
    ensures Ordered(RotateRight(t))
  {
    hide Contents;
    ContentsKeys(t.left);
    ContentsKeys(t.(left := t.left.right));
  }

  lemma RotateLeftOrdered<V>(t: Tree<V>)
    requires t.Node? && t.right.Node? && Ordered(t)
    ensures Ordered(RotateLeft(t))
  {
    hide Contents;
    ContentsKeys(t.right);
    ContentsKeys(t.(right := t.right.left));
  }

  lemma RotateRightSeparated<V>(t: Tree<V>)
    requires t.Node? && t.left.Node? && Separated(t)
    ensures Separated(RotateRight(t)) && Addresses(RotateRight(t)) == Addresses(t)
  {}

  lemma RotateLeftSeparated<V>(t: Tree<V>)
    requires t.Node? && t.right.Node? && Separated(t)
    ensures Separated(RotateLeft(t)) && Addresses(RotateLeft(t)) == Addresses(t)
  {}

  /** What rebalancing must not change. */
  ghost predicate Rearranged<V>(t: Tree<V>, r: Tree<V>) {
    Contents(r) == Contents(t) && Addresses(r) == Addresses(t)
  }

  ghost predicate WellFormed<V>(t: Tree<V>) {
    Ordered(t) && Separated(t)
  }

  lemma RotateRightKeeps<V>(t: Tree<V>)
    requires t.Node? && t.left.Node? && WellFormed(t)
    ensures WellFormed(RotateRight(t)) && Rearranged(t, RotateRight(t))
  {
    hide Ordered, Separated, Contents, Addresses;
    RotateRightContents(t);
    RotateRightOrdered(t);
    RotateRightSeparated(t);
  }

  lemma RotateLeftKeeps<V>(t: Tree<V>)
    requires t.Node? && t.right.Node? && WellFormed(t)
    ensures WellFormed(RotateLeft(t)) && Rearranged(t, RotateLeft(t))
  {
    hide Ordered, Separated, Contents, Addresses;
    RotateLeftContents(t);
    RotateLeftOrdered(t);
    RotateLeftSeparated(t);
  }

  /** A child may be exchanged for a well-formed tree of the same bindings and addresses. */
  lemma ReplaceLeft<V>(t: Tree<V>, l: Tree<V>)
    requires t.Node? && WellFormed(t) && WellFormed(l) && Rearranged(t.left, l)
    ensures WellFormed(t.(left := l)) && Rearranged(t, t.(left := l))
  {}

  lemma ReplaceRight<V>(t: Tree<V>, r: Tree<V>)
    requires t.Node? && WellFormed(t) && WellFormed(r) && Rearranged(t.right, r)
    ensures WellFormed(t.(right := r)) && Rearranged(t, t.(right := r))
  {}

  /** A node whose left subtree is too high by one, everything below being balanced. */
  ghost predicate LeftHeavy<V>(t: Tree<V>) {
    t.Node? && t.left.Node? && Balanced(t.left) && Balanced(t.right) && Balance(t) == 2
  }

  ghost predicate RightHeavy<V>(t: Tree<V>) {
    t.Node? && t.right.Node? && Balanced(t.left) && Balanced(t.right) && Balance(t) == -2
  }

  lemma SingleRight<V>(t: Tree<V>)
    requires LeftHeavy(t) && Balance(t.left) >= 0
    ensures Balanced(RotateRight(t))
    ensures Height(RotateRight(t)) == if Balance(t.left) == 0 then Height(t) else Height(t) - 1
  {
    assert Balanced(t.(left := t.left.right));
  }

  lemma SingleLeft<V>(t: Tree<V>)
    requires RightHeavy(t) && Balance(t.right) <= 0
    ensures Balanced(RotateLeft(t))
    ensures Height(RotateLeft(t)) == if Balance(t.right) == 0 then Height(t) else Height(t) - 1
  {
    assert Balanced(t.(right := t.right.left));
  }

  lemma DoubleRight<V>(t: Tree<V>)
    requires LeftHeavy(t) && Balance(t.left) < 0
    ensures t.left.right.Node?
    ensures Balanced(RotateRight(t.(left := RotateLeft(t.left))))
    ensures Height(RotateRight(t.(left := RotateLeft(t.left)))) == Height(t) - 1
  {
    var m := t.left.right;
    assert Balanced(m) && -1 <= Balance(m) <= 1 && Height(m) == Height(t.right) + 1 == Height(t.left.left) + 1;
    assert Balanced(t.left.(right := m.left)) && Balanced(t.(left := m.right));
  }

  lemma DoubleLeft<V>(t: Tree<V>)
    requires RightHeavy(t) && Balance(t.right) > 0
    ensures t.right.left.Node?
    ensures Balanced(RotateLeft(t.(right := RotateRight(t.right))))
    ensures Height(RotateLeft(t.(right := RotateRight(t.right)))) == Height(t) - 1
  {
    var m := t.right.left;
    assert Balanced(m) && -1 <= Balance(m) <= 1 && Height(m) == Height(t.left) + 1 == Height(t.right.right) + 1;
    assert Balanced(t.right.(left := m.right)) && Balanced(t.(right := m.left));
  }

  // ----- insertion -----

  /** The two cases of `insert_at` after the recursive call; the key decides between them. */
  function RebalanceInsert<V>(t: Tree<V>, key: int): Tree<V>
    requires t.Node?
  {
    if Balance(t) > 1 && t.left.Node? then
      if key < t.left.key then RotateRight(t)
      else if key > t.left.key && t.left.right.Node? then RotateRight(t.(left := RotateLeft(t.left)))
      else t
    else if Balance(t) < -1 && t.right.Node? then
      if key > t.right.key then RotateLeft(t)
      else if key < t.right.key && t.right.left.Node? then RotateLeft(t.(right := RotateRight(t.right)))
      else t
    else t
  }

  /** `insert_at`, a new node being allocated at address a. */
  function Inserted<V>(t: Tree<V>, key: int, value: V, a: int): Tree<V> {
    if t.Leaf? then Node(a, Leaf, key, value, Leaf)
    else if key < t.key then RebalanceInsert(t.(left := Inserted(t.left, key, value, a)), key)
    else if key > t.key then RebalanceInsert(t.(right := Inserted(t.right, key, value, a)), key)
    else t
  }

  lemma RebalanceInsertKeeps<V>(t: Tree<V>, key: int)
    requires t.Node? && WellFormed(t)
    ensures WellFormed(RebalanceInsert(t, key)) && Rearranged(t, RebalanceInsert(t, key))
  {
    hide Contents, Addresses;
    if Balance(t) > 1 && t.left.Node? {
      if key < t.left.key {
        RotateRightKeeps(t);
      } else if key > t.left.key && t.left.right.Node? {
        RotateLeftKeeps(t.left);
        ReplaceLeft(t, RotateLeft(t.left));
        RotateRightKeeps(t.(left := RotateLeft(t.left)));
      }
    } else if Balance(t) < -1 && t.right.Node? {
      if key > t.right.key {
        RotateLeftKeeps(t);
      } else if key < t.right.key && t.right.left.Node? {
        RotateRightKeeps(t.right);
        ReplaceRight(t, RotateRight(t.right));
        RotateLeftKeeps(t.(right := RotateRight(t.right)));
      }
    }
  }

  /** r is t with one binding more, at address a, unless the key is bound in t. */
  ghost predicate Added<V>(t: Tree<V>, r: Tree<V>, key: int, value: V, a: int) {
    && Contents(r) == (if key in Contents(t) then Contents(t) else Contents(t)[key := value])
    && Addresses(r) == (if key in Contents(t) then Addresses(t) else Addresses(t) + {a})
  }

  lemma AddLeft<V>(t: Tree<V>, l: Tree<V>, key: int, value: V, a: int)
    requires t.Node? && WellFormed(t) && key < t.key && 0 < a && a !in Addresses(t)
    requires WellFormed(l) && Added(t.left, l, key, value, a)
    ensures WellFormed(t.(left := l)) && Added(t, t.(left := l), key, value, a)
  {
    hide Join;
    AddLeftContents(t, l, key, value, a);
  }

  lemma AddLeftContents<V>(t: Tree<V>, l: Tree<V>, key: int, value: V, a: int)
    requires t.Node? && Ordered(t) && key < t.key && Added(t.left, l, key, value, a)
    ensures Contents(t.(left := l)) == (if key in Contents(t) then Contents(t) else Contents(t)[key := value])
    ensures key in Contents(t) <==> key in Contents(t.left)
  {
    hide Join;
    ContentsKeys(t);
    JoinAdd(Contents(t.left), t.key, t.value, Contents(t.right), key, value);
  }

  lemma AddRightContents<V>(t: Tree<V>, r: Tree<V>, key: int, value: V, a: int)
    requires t.Node? && Ordered(t) && key > t.key && Added(t.right, r, key, value, a)
    ensures Contents(t.(right := r)) == (if key in Contents(t) then Contents(t) else Contents(t)[key := value])
    ensures key in Contents(t) <==> key in Contents(t.right)
  {
    hide Join;
    ContentsKeys(t);
    JoinAdd(Contents(t.left), t.key, t.value, Contents(t.right), key, value);
  }

  lemma AddRight<V>(t: Tree<V>, r: Tree<V>, key: int, value: V, a: int)
    requires t.Node? && WellFormed(t) && key > t.key && 0 < a && a !in Addresses(t)
    requires WellFormed(r) && Added(t.right, r, key, value, a)
    ensures WellFormed(t.(right := r)) && Added(t, t.(right := r), key, value, a)
  {
    hide Join;
    AddRightContents(t, r, key, value, a);
  }

  /** Inserting adds the binding, unless the key is bound already: then nothing changes. */
  lemma {:induction false} InsertContents<V>(t: Tree<V>, key: int, value: V, a: int)
    requires WellFormed(t) && 0 < a && a !in Addresses(t)
    ensures WellFormed(Inserted(t, key, value, a)) && Added(t, Inserted(t, key, value, a), key, value, a)
  {
    hide RebalanceInsert;
    if t.Node? && key < t.key {
      var l := Inserted(t.left, key, value, a);
      InsertContents(t.left, key, value, a);
      AddLeft(t, l, key, value, a);
      RebalanceInsertKeeps(t.(left := l), key);
    } else if t.Node? && key > t.key {
      var r := Inserted(t.right, key, value, a);
      InsertContents(t.right, key, value, a);
      AddRight(t, r, key, value, a);
      RebalanceInsertKeeps(t.(right := r), key);
    }
  }

  /** How an insertion may change the shape: when the tree grows, the root stays and the side the key
      went to becomes the higher one.  This is why comparing keys picks the right rotation. */
  ghost predicate Grown<V>(t: Tree<V>, r: Tree<V>, key: int) {
    && Balanced(r) && Height(t) <= Height(r) <= Height(t) + 1
    && (Height(r) == Height(t) + 1 && t.Node? ==>
          r.Node? && r.key == t.key && key != t.key && Balance(r) == if key < t.key then 1 else -1)
    && (t.Leaf? ==> Height(r) == 1)
  }

  lemma GrowLeft<V>(t: Tree<V>, l: Tree<V>, key: int)
    requires t.Node? && Balanced(t) && key < t.key && Grown(t.left, l, key)
    ensures Grown(t, RebalanceInsert(t.(left := l), key), key)
  {
    var u := t.(left := l);
    if Balance(u) > 1 {
      assert Height(l) == Height(t.left) + 1 && t.left.Node?;
      if key < l.key {
        SingleRight(u);
      } else {
        DoubleRight(u);
      }
    } else {
      assert Balanced(u);
    }
  }

  lemma GrowRight<V>(t: Tree<V>, r: Tree<V>, key: int)
    requires t.Node? && Balanced(t) && key > t.key && Grown(t.right, r, key)
    ensures Grown(t, RebalanceInsert(t.(right := r), key), key)
  {
    var u := t.(right := r);
    if Balance(u) < -1 {
      assert Height(r) == Height(t.right) + 1 && t.right.Node?;
      if key > r.key {
        SingleLeft(u);
      } else {
        DoubleLeft(u);
      }
    } else {
      assert Balanced(u);
    }
  }

  /** Insertion keeps the tree balanced. */
  lemma {:induction false} InsertBalanced<V>(t: Tree<V>, key: int, value: V, a: int)
    requires Balanced(t)
    ensures Grown(t, Inserted(t, key, value, a), key)
  {
    if t.Node? && key < t.key {
      InsertBalanced(t.left, key, value, a);
      GrowLeft(t, Inserted(t.left, key, value, a), key);
    } else if t.Node? && key > t.key {
      InsertBalanced(t.right, key, value, a);
      GrowRight(t, Inserted(t.right, key, value, a), key);
    }
  }

  // ----- removal -----

  /** The last part of `remove_at`; here the balance of the child decides. */
  function RebalanceRemove<V>(t: Tree<V>): Tree<V>
    requires t.Node?
  {
    if Balance(t) > 1 then
      if Balance(t.left) >= 0 then RotateRight(t) else RotateRight(t.(left := RotateLeft(t.left)))
    else if Balance(t) < -1 then
      if Balance(t.right) <= 0 then RotateLeft(t) else RotateLeft(t.(right := RotateRight(t.right)))
    else t
  }

  function MinNode<V>(t: Tree<V>): (m: Tree<V>)
    requires t.Node?
    ensures m.Node? && m.left.Leaf?
  {
    if t.left.Leaf? then t else MinNode(t.left)
  }

  /** `remove_at`: a node with two children takes over key and value of its successor, whose own
      node is then removed from the right subtree. */
  function Removed<V>(t: Tree<V>, key: int): Tree<V>
    decreases t
  {
    if t.Leaf? then t
    else if key < t.key then RebalanceRemove(t.(left := Removed(t.left, key)))
    else if key > t.key then RebalanceRemove(t.(right := Removed(t.right, key)))
    else if t.left.Leaf? then t.right
    else if t.right.Leaf? then t.left
    else
      var m := MinNode(t.right);
      RebalanceRemove(Node(t.addr, t.left, m.key, m.value, Removed(t.right, m.key)))
  }

  /** The address `remove_at` gives back to the pool. */
  function Freed<V>(t: Tree<V>, key: int): (a: int)
    requires Ordered(t) && key in Contents(t)
  {
    ContentsKeys(t);
    if key < t.key then Freed(t.left, key)
    else if key > t.key then Freed(t.right, key)
    else if t.left.Leaf? || t.right.Leaf? then t.addr
    else MinNode(t.right).addr
  }

  lemma RebalanceRemoveKeeps<V>(t: Tree<V>)
    requires t.Node? && WellFormed(t)
    ensures WellFormed(RebalanceRemove(t)) && Rearranged(t, RebalanceRemove(t))
  {
    hide Contents, Addresses;
    if Balance(t) > 1 {
      if Balance(t.left) >= 0 {
        RotateRightKeeps(t);
      } else {
        RotateLeftKeeps(t.left);
        ReplaceLeft(t, RotateLeft(t.left));
        RotateRightKeeps(t.(left := RotateLeft(t.left)));
      }
    } else if Balance(t) < -1 {
      if Balance(t.right) <= 0 {
        RotateLeftKeeps(t);
      } else {
        RotateRightKeeps(t.right);
        ReplaceRight(t, RotateRight(t.right));
        RotateLeftKeeps(t.(right := RotateRight(t.right)));
      }
    }
  }

  lemma {:induction false} MinNodeLeast<V>(t: Tree<V>)
    requires t.Node? && Ordered(t)
    ensures var m := MinNode(t);
      && m.key in Contents(t) && Contents(t)[m.key] == m.value && m.addr in Addresses(t)
      && (forall k :: k in Contents(t) ==> m.key <= k)
      && Freed(t, m.key) == m.addr
  {
    if t.left.Node? {
      MinNodeLeast(t.left);
    }
  }

  /** r is t without one binding and without the address a; the key is bound in t. */
  ghost predicate Taken<V>(t: Tree<V>, r: Tree<V>, key: int, a: int) {
    && key in Contents(t) && a in Addresses(t)
    && Contents(r) == Contents(t) - {key}
    && Addresses(r) == Addresses(t) - {a}
  }

  lemma TakeLeftContents<V>(t: Tree<V>, l: Tree<V>, key: int)
    requires t.Node? && Ordered(t) && key < t.key && Contents(l) == Contents(t.left) - {key}
    ensures Contents(t.(left := l)) == Contents(t) - {key}
    ensures key in Contents(t) <==> key in Contents(t.left)
  {
    hide Join;
    ContentsKeys(t);
    JoinTake(Contents(t.left), t.key, t.value, Contents(t.right), key);
  }

  lemma TakeRightContents<V>(t: Tree<V>, r: Tree<V>, key: int)
    requires t.Node? && Ordered(t) && key > t.key && Contents(r) == Contents(t.right) - {key}
    ensures Contents(t.(right := r)) == Contents(t) - {key}
    ensures key in Contents(t) <==> key in Contents(t.right)
  {
    hide Join;
    ContentsKeys(t);
    JoinTake(Contents(t.left), t.key, t.value, Contents(t.right), key);
  }

  lemma TakeLeft<V>(t: Tree<V>, l: Tree<V>, key: int, a: int)
    requires t.Node? && WellFormed(t) && key < t.key
    requires WellFormed(l) && Taken(t.left, l, key, a)
    ensures WellFormed(t.(left := l)) && Taken(t, t.(left := l), key, a)
  {
    hide Join;
    TakeLeftContents(t, l, key);
  }

  lemma TakeRight<V>(t: Tree<V>, r: Tree<V>, key: int, a: int)
    requires t.Node? && WellFormed(t) && key > t.key
    requires WellFormed(r) && Taken(t.right, r, key, a)
    ensures WellFormed(t.(right := r)) && Taken(t, t.(right := r), key, a)
  {
    hide Join;
    TakeRightContents(t, r, key);
  }

  lemma TakeRootContents<V>(t: Tree<V>, r: Tree<V>)
    requires t.Node? && Ordered(t) && t.right.Node?
    requires Contents(r) == Contents(t.right) - {MinNode(t.right).key}
    ensures var m := MinNode(t.right); Contents(Node(t.addr, t.left, m.key, m.value, r)) == Contents(t) - {t.key}
  {
    hide Join;
    ContentsKeys(t);
    MinNodeLeast(t.right);
    JoinTakeRoot(Contents(t.left), t.key, t.value, Contents(t.right), MinNode(t.right).key);
  }

  /** The two-child case: the successor's binding moves up, its node goes. */
  lemma TakeRoot<V>(t: Tree<V>, r: Tree<V>)
    requires t.Node? && WellFormed(t) && t.right.Node?
    requires WellFormed(r) && Taken(t.right, r, MinNode(t.right).key, MinNode(t.right).addr)
    ensures var m := MinNode(t.right); var u := Node(t.addr, t.left, m.key, m.value, r);
      WellFormed(u) && Taken(t, u, t.key, m.addr)
  {
    hide Join, MinNode;
    MinNodeLeast(t.right);
    ContentsKeys(t);
    TakeRootContents(t, r);
  }

  /** Removing a bound key deletes exactly that binding and frees exactly one node. */
  lemma {:induction false} RemoveContents<V>(t: Tree<V>, key: int)
    requires WellFormed(t) && key in Contents(t)
    ensures WellFormed(Removed(t, key)) && Taken(t, Removed(t, key), key, Freed(t, key))
  {
    hide RebalanceRemove;
    ContentsKeys(t);
    if key < t.key {
      var l := Removed(t.left, key);
      RemoveContents(t.left, key);
      TakeLeft(t, l, key, Freed(t.left, key));
      RebalanceRemoveKeeps(t.(left := l));
    } else if key > t.key {
      var r := Removed(t.right, key);
      RemoveContents(t.right, key);
      TakeRight(t, r, key, Freed(t.right, key));
      RebalanceRemoveKeeps(t.(right := r));
    } else if t.left.Node? && t.right.Node? {
      var m := MinNode(t.right);
      var r := Removed(t.right, m.key);
      MinNodeLeast(t.right);
      RemoveContents(t.right, m.key);
      TakeRoot(t, r);
      RebalanceRemoveKeeps(Node(t.addr, t.left, m.key, m.value, r));
    }
  }

  /** How a removal may change the shape. */
  ghost predicate Shrunk<V>(t: Tree<V>, r: Tree<V>) {
    Balanced(r) && Height(t) - 1 <= Height(r) <= Height(t)
  }

  lemma ShrinkLeft<V>(t: Tree<V>, u: Tree<V>)
    requires t.Node? && Balanced(t) && u.Node? && u.right == t.right && Shrunk(t.left, u.left)
    ensures Shrunk(t, RebalanceRemove(u))
  {
    if Balance(u) < -1 {
      if Balance(u.right) <= 0 {
        SingleLeft(u);
      } else {
        DoubleLeft(u);
      }
    } else {
      assert Balanced(u);
    }
  }

  lemma ShrinkRight<V>(t: Tree<V>, u: Tree<V>)
    requires t.Node? && Balanced(t) && u.Node? && u.left == t.left && Shrunk(t.right, u.right)
    ensures Shrunk(t, RebalanceRemove(u))
  {
    if Balance(u) > 1 {
      if Balance(u.left) >= 0 {
        SingleRight(u);
      } else {
        DoubleRight(u);
      }
    } else {
      assert Balanced(u);
    }
  }

  /** Removal keeps the tree balanced. */
  lemma {:induction false} RemoveBalanced<V>(t: Tree<V>, key: int)
    requires Balanced(t)
    ensures Shrunk(t, Removed(t, key))
    decreases t
  {
    hide RebalanceRemove;
    if t.Node? {
      if key < t.key {
        RemoveBalanced(t.left, key);
        ShrinkLeft(t, t.(left := Removed(t.left, key)));
      } else if key > t.key {
        RemoveBalanced(t.right, key);
        ShrinkRight(t, t.(right := Removed(t.right, key)));
      } else if t.left.Node? && t.right.Node? {
        var m := MinNode(t.right);
        RemoveBalanced(t.right, m.key);
        ShrinkRight(t, Node(t.addr, t.left, m.key, m.value, Removed(t.right, m.key)));
      }
    }
  }

  /** Removing a key that is not bound changes nothing, rebalancing included. */
  lemma {:induction false} RemoveAbsent<V>(t: Tree<V>, key: int)
    requires Ordered(t) && Balanced(t) && key !in Contents(t)
    ensures Removed(t, key) == t
  {
    if t.Node? {
      ContentsKeys(t);
      if key < t.key {
        RemoveAbsent(t.left, key);
      } else {
        RemoveAbsent(t.right, key);
      }
    }
  }

  /** Inserting a bound key changes nothing, the stored value included. */
  lemma {:induction false} InsertPresent<V>(t: Tree<V>, key: int, value: V, a: int)
    requires Ordered(t) && Balanced(t) && key in Contents(t)
    ensures Inserted(t, key, value, a) == t
  {
    ContentsKeys(t);
    if key < t.key {
      InsertPresent(t.left, key, value, a);
    } else if key > t.key {
      InsertPresent(t.right, key, value, a);
    }
  }

  // ----- height against size -----

  function Fib(n: nat): nat {
    if n < 2 then n else Fib(n - 1) + Fib(n - 2)
  }

  lemma AddressCount<V>(t: Tree<V>)
    requires t.Node? && Separated(t)
    ensures |Addresses(t)| == |Addresses(t.left)| + 1 + |Addresses(t.right)|
  {
    var l, r := Addresses(t.left), Addresses(t.right);
    assert |l + {t.addr}| == |l| + 1;
    assert (l + {t.addr}) !! r;
  }

  /** A balanced tree of height h has at least Fib(h + 2) - 1 nodes, each with an address of its own. */
  lemma {:induction false} FibBound<V>(t: Tree<V>)
    requires Balanced(t) && Separated(t)
    ensures Fib(Height(t) + 2) <= |Addresses(t)| + 1
  {
    hide Addresses, Fib;
    if t.Leaf? {
      FibStep(0);
      AddressesOfLeaf(t);
    } else {
      var h := Max(Height(t.left), Height(t.right));
      AddressCount(t);
      FibStep(h + 1);
      FibBound(t.left);
      FibBound(t.right);
      FibMonotone(h + 1, Height(t.left) + 2);
      FibMonotone(h + 1, Height(t.right) + 2);
    }
  }

  lemma AddressesOfLeaf<V>(t: Tree<V>)
    requires t.Leaf?
    ensures Addresses(t) == {}
  {}

  lemma FibStep(n: nat)
    ensures Fib(n + 2) == Fib(n + 1) + Fib(n) && Fib(0) == 0 && Fib(1) == 1
  {}

  lemma {:induction false} FibMonotone(m: nat, n: nat)
    requires m <= n
    ensures Fib(m) <= Fib(n)
    decreases n - m
  {
    if m < n {
      FibMonotone(m + 1, n);
    }
  }

  lemma {:induction false} FibGrows(h: nat)
    ensures Pow2(h / 2) <= Fib(h + 2)
  {
    if h >= 2 {
      FibGrows(h - 2);
      FibMonotone(h, h + 1);
      assert h / 2 == (h - 2) / 2 + 1;
    }
  }

  /** The height is at most about twice the binary logarithm of the number of nodes. */
  lemma HeightLogarithmic<V>(t: Tree<V>)
    requires Balanced(t) && Separated(t)
    ensures Pow2(Height(t) / 2) <= |Addresses(t)| + 1
  {
    hide Fib, Addresses, Height, Pow2;
    FibBound(t);
    FibGrows(Height(t));
  }

  // ----- where the binding of a key is stored -----

  function AddressOf<V>(t: Tree<V>, key: int): int {
    if t.Leaf? then 0
    else if key < t.key then AddressOf(t.left, key)
    else if key > t.key then AddressOf(t.right, key)
    else t.addr
  }

  lemma {:induction false} AddressOfBound<V>(t: Tree<V>, key: int)
    requires WellFormed(t)
    ensures key in Contents(t) ==> AddressOf(t, key) in Addresses(t) && AddressOf(t, key) > 0
    ensures key !in Contents(t) ==> AddressOf(t, key) == 0
  {
    if t.Node? {
      ContentsKeys(t);
      AddressOfBound(t.left, key);
      AddressOfBound(t.right, key);
    }
  }

  /** Rotations leave every binding in its node. */
  lemma RotateRightAddressOf<V>(t: Tree<V>, key: int)
    requires t.Node? && t.left.Node? && Ordered(t)
    ensures AddressOf(RotateRight(t), key) == AddressOf(t, key)
  {
    ContentsKeys(t.left);
  }

  lemma RotateLeftAddressOf<V>(t: Tree<V>, key: int)
    requires t.Node? && t.right.Node? && Ordered(t)
    ensures AddressOf(RotateLeft(t), key) == AddressOf(t, key)
  {
    ContentsKeys(t.right);
  }

  lemma RebalanceInsertAddressOf<V>(t: Tree<V>, key: int, k: int)
    requires t.Node? && WellFormed(t)
    ensures AddressOf(RebalanceInsert(t, key), k) == AddressOf(t, k)
  {
    hide Contents, Addresses;
    if Balance(t) > 1 && t.left.Node? {
      if key < t.left.key {
        RotateRightAddressOf(t, k);
      } else if key > t.left.key && t.left.right.Node? {
        RotateLeftKeeps(t.left);
        ReplaceLeft(t, RotateLeft(t.left));
        RotateLeftAddressOf(t.left, k);
        RotateRightAddressOf(t.(left := RotateLeft(t.left)), k);
      }
    } else if Balance(t) < -1 && t.right.Node? {
      if key > t.right.key {
        RotateLeftAddressOf(t, k);
      } else if key < t.right.key && t.right.left.Node? {
        RotateRightKeeps(t.right);
        ReplaceRight(t, RotateRight(t.right));
        RotateRightAddressOf(t.right, k);
        RotateLeftAddressOf(t.(right := RotateRight(t.right)), k);
      }
    }
  }

  /** The new binding is stored in the new node, every other one where it was. */
  lemma {:induction false} InsertAddressOf<V>(t: Tree<V>, key: int, value: V, a: int, k: int)
    requires WellFormed(t) && 0 < a && a !in Addresses(t) && key !in Contents(t)
    ensures AddressOf(Inserted(t, key, value, a), k) == if k == key then a else AddressOf(t, k)
  {
    hide RebalanceInsert;
    if t.Node? {
      ContentsKeys(t);
      if key < t.key {
        var l := Inserted(t.left, key, value, a);
        InsertAddressOf(t.left, key, value, a, k);
        InsertContents(t.left, key, value, a);
        AddLeft(t, l, key, value, a);
        RebalanceInsertAddressOf(t.(left := l), key, k);
      } else {
        var r := Inserted(t.right, key, value, a);
        InsertAddressOf(t.right, key, value, a, k);
        InsertContents(t.right, key, value, a);
        AddRight(t, r, key, value, a);
        RebalanceInsertAddressOf(t.(right := r), key, k);
      }
    }
  }

  lemma InsertAddresses<V>(t: Tree<V>, key: int, value: V, a: int)
    requires WellFormed(t) && 0 < a && a !in Addresses(t)
    ensures key !in Contents(t) ==>
      && AddressOf(Inserted(t, key, value, a), key) == a
      && forall k :: k != key ==> AddressOf(Inserted(t, key, value, a), k) == AddressOf(t, k)
  {
    if key !in Contents(t) {
      forall k ensures AddressOf(Inserted(t, key, value, a), k) == if k == key then a else AddressOf(t, k) {
        InsertAddressOf(t, key, value, a, k);
      }
    }
  }

  lemma RebalanceRemoveAddressOf<V>(t: Tree<V>, k: int)
    requires t.Node? && WellFormed(t)
    ensures AddressOf(RebalanceRemove(t), k) == AddressOf(t, k)
  {
    hide Contents, Addresses, AddressOf;
    if Balance(t) > 1 {
      if Balance(t.left) >= 0 {
        RotateRightAddressOf(t, k);
      } else {
        RotateLeftKeeps(t.left);
        ReplaceLeft(t, RotateLeft(t.left));
        RotateLeftAddressOf(t.left, k);
        RotateRightAddressOf(t.(left := RotateLeft(t.left)), k);
        SameBelow(t, t.(left := RotateLeft(t.left)), k);
      }
    } else if Balance(t) < -1 {
      if Balance(t.right) <= 0 {
        RotateLeftAddressOf(t, k);
      } else {
        RotateRightKeeps(t.right);
        ReplaceRight(t, RotateRight(t.right));
        RotateRightAddressOf(t.right, k);
        RotateLeftAddressOf(t.(right := RotateRight(t.right)), k);
        SameBelow(t, t.(right := RotateRight(t.right)), k);
      }
    }
  }

  lemma SameBelow<V>(t: Tree<V>, u: Tree<V>, k: int)
    requires t.Node? && u.Node? && u.key == t.key && u.addr == t.addr
    requires AddressOf(u.left, k) == AddressOf(t.left, k) && AddressOf(u.right, k) == AddressOf(t.right, k)
    ensures AddressOf(u, k) == AddressOf(t, k)
  {}

  // ----- overwriting a value in place -----

  /** The tree after `set_value` on the node of a key. */
  function WithValue<V>(t: Tree<V>, key: int, value: V): (r: Tree<V>)
    ensures Height(r) == Height(t) && Addresses(r) == Addresses(t)
  {
    if t.Leaf? then t
    else if key < t.key then t.(left := WithValue(t.left, key, value))
    else if key > t.key then t.(right := WithValue(t.right, key, value))
    else t.(value := value)
  }

  lemma {:induction false} WithValueContents<V>(t: Tree<V>, key: int, value: V)
    requires WellFormed(t) && key in Contents(t)
    ensures WellFormed(WithValue(t, key, value))
    ensures Contents(WithValue(t, key, value)) == Contents(t)[key := value]
  {
    hide Join;
    ContentsKeys(t);
    var l, r := Contents(t.left), Contents(t.right);
    if key < t.key {
      WithValueContents(t.left, key, value);
      JoinAdd(l, t.key, t.value, r, key, value);
    } else if key > t.key {
      WithValueContents(t.right, key, value);
      JoinAdd(l, t.key, t.value, r, key, value);
    } else {
      JoinSet(l, key, t.value, r, value);
    }
  }

  lemma JoinSet<V>(l: map<int, V>, k: int, v: V, r: map<int, V>, value: V)
    requires k !in r
    ensures Join(l, k, value, r) == Join(l, k, v, r)[k := value]
  {}

  lemma {:induction false} WithValueBalanced<V>(t: Tree<V>, key: int, value: V)
    requires Balanced(t)
    ensures Balanced(WithValue(t, key, value))
  {
    if t.Node? {
      WithValueBalanced(t.left, key, value);
      WithValueBalanced(t.right, key, value);
    }
  }

  lemma {:induction false} WithValueAddressOf<V>(t: Tree<V>, key: int, value: V, k: int)
    ensures AddressOf(WithValue(t, key, value), k) == AddressOf(t, k)
  {
    if t.Node? {
      WithValueAddressOf(t.left, key, value, k);
      WithValueAddressOf(t.right, key, value, k);
    }
  }
}
