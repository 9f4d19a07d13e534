/**
 * The abstract shape of a binary search tree: an inductive tree whose nodes
 * carry the identity of the arena record that stores them, the key and the
 * value. Every structural change the mutable tree makes is described here as
 * a replacement of one subtree on a key's search path (ReplaceAt), and the
 * ordered-map meaning of a shape is Map.
 */
module TreeShape {
  import opened Wrappers

  datatype Tree<V> = Leaf | Node(left: Tree<V>, id: nat, key: int, value: V, right: Tree<V>)

  /** The identity of the node at the top of `t`, as held in a parent's child slot. */
  function Root<V>(t: Tree<V>): Option<nat>
  {
    if t.Leaf? then None else Some(t.id)
  }

  function Ids<V>(t: Tree<V>): set<nat>
  {
    match t
    case Leaf => {}
    case Node(l, id, _, _, r) => Ids(l) + {id} + Ids(r)
  }

  function Keys<V>(t: Tree<V>): set<int>
  {
    match t
    case Leaf => {}
    case Node(l, _, key, _, r) => Keys(l) + {key} + Keys(r)
  }

  function Count<V>(t: Tree<V>): nat
  {
    match t
    case Leaf => 0
    case Node(l, _, _, _, r) => Count(l) + 1 + Count(r)
  }

  /** The ordered map a shape stands for: each node binds its key to its value. */
  function Map<V>(t: Tree<V>): (m: map<int, V>)
    ensures m.Keys == Keys(t)
  {
    match t
    case Leaf => map[]
    case Node(l, _, key, value, r) => (Map(l) + Map(r))[key := value]
  }

  /** No node occurs twice: the shape is a tree, with no sharing. */
  ghost predicate Distinct<V>(t: Tree<V>)
  {
    match t
    case Leaf => true
    case Node(l, id, _, _, r) =>
      Distinct(l) && Distinct(r) && Ids(l) !! Ids(r) && id !in Ids(l) && id !in Ids(r)
  }

  /** Binary-search-tree ordering: keys on the left are smaller, keys on the right larger. */
  ghost predicate BST<V>(t: Tree<V>)
  {
    match t
    case Leaf => true
    case Node(l, _, key, _, r) =>
      BST(l) && BST(r) &&
      (forall x :: x in Keys(l) ==> x < key) &&
      (forall x :: x in Keys(r) ==> key < x)
  }

  /** The subtree at which a search for `k` stops: the node holding `k`, or the empty slot where `k` would go. */
  function SubAt<V>(t: Tree<V>, k: int): Tree<V>
  {
    match t
    case Leaf => Leaf
    case Node(l, _, key, _, r) =>
      if k == key then t else if k < key then SubAt(l, k) else SubAt(r, k)
  }

  /** `t` with SubAt(t, k) replaced by `s`. */
  function ReplaceAt<V>(t: Tree<V>, k: int, s: Tree<V>): Tree<V>
  {
    match t
    case Leaf => s
    case Node(l, id, key, value, r) =>
      if k == key then s
      else if k < key then Node(ReplaceAt(l, k, s), id, key, value, r)
      else Node(l, id, key, value, ReplaceAt(r, k, s))
  }

  /** The node whose child slot holds SubAt(t, k) (`par` when that is `t` itself): the last node a search for `k` visits before it. */
  function ParentAt<V>(t: Tree<V>, par: Option<nat>, k: int): Option<nat>
  {
    match t
    case Leaf => par
    case Node(l, id, key, _, r) =>
      if k == key then par else if k < key then ParentAt(l, Some(id), k) else ParentAt(r, Some(id), k)
  }

  /** The leftmost node of a non-empty tree. */
  function Min<V>(t: Tree<V>): (m: Tree<V>)
    requires t.Node?
    ensures m.Node? && m.left.Leaf?
  {
    if t.left.Leaf? then t else Min(t.left)
  }

  /**
   * The subtree that takes the place of a removed node: its right subtree when
   * it has no left child, its left subtree when it has no right child, and
   * otherwise its in-order successor, spliced out of the right subtree by
   * putting the successor's right subtree in its place.
   */
  function DeleteRoot<V>(s: Tree<V>): Tree<V>
    requires s.Node?
  {
    if s.left.Leaf? then s.right
    else if s.right.Leaf? then s.left
    else
      var m := Min(s.right);
      Node(s.left, m.id, m.key, m.value, ReplaceAt(s.right, m.key, m.right))
  }

  /** Insert-or-update: overwrite the value of the node holding `k`, or hang a new node `newId` in the empty slot for `k`. */
  function Put<V>(t: Tree<V>, k: int, v: V, newId: nat): Tree<V>
  {
    var s := SubAt(t, k);
    if s.Node? then ReplaceAt(t, k, s.(value := v))
    else ReplaceAt(t, k, Node(Leaf, newId, k, v, Leaf))
  }

  /** Deletion by key: the node holding `k`, if any, is replaced by DeleteRoot of its subtree. */
  function Remove<V>(t: Tree<V>, k: int): Tree<V>
  {
    var s := SubAt(t, k);
    if s.Node? then ReplaceAt(t, k, DeleteRoot(s)) else t
  }

  function Max(a: int, b: int): int
  {
    if a < b then b else a
  }

  function Abs(x: int): nat
  {
    if x < 0 then -x else x
  }

  function Height<V>(t: Tree<V>): nat
  {
    match t
    case Leaf => 0
    case Node(l, _, _, _, r) => 1 + Max(Height(l), Height(r))
  }

  ghost function Subtrees<V>(t: Tree<V>): set<Tree<V>>
  {
    match t
    case Leaf => {t}
    case Node(l, _, _, _, r) => {t} + Subtrees(l) + Subtrees(r)
  }

  /** The heights of a node's two subtrees differ by at most one. */
  ghost predicate HeightsClose<V>(t: Tree<V>)
  {
    t.Node? ==> -1 <= Height(t.left) - Height(t.right) <= 1
  }

  /** The AVL criterion: every node of the tree has close subtree heights. */
  ghost predicate Balanced<V>(t: Tree<V>)
  {
    forall s :: s in Subtrees(t) ==> HeightsClose(s)
  }

  // ----- Searching -----

  /** The search for `k` ends in a subtree of `t`, at the node holding `k` exactly when `k` is present. */
  lemma {:induction false} SubAtFacts<V>(t: Tree<V>, k: int)
    ensures Ids(SubAt(t, k)) <= Ids(t) && Keys(SubAt(t, k)) <= Keys(t)
    ensures BST(t) ==> BST(SubAt(t, k))
    ensures Distinct(t) ==> Distinct(SubAt(t, k))
    ensures SubAt(t, k).Node? ==> SubAt(t, k).key == k
    ensures BST(t) ==> (k in Keys(t) <==> SubAt(t, k).Node?)
    ensures BST(t) && SubAt(t, k).Node? ==> Map(t)[k] == SubAt(t, k).value
  {
    match t
    case Leaf =>
    case Node(l, _, key, _, r) =>
      if k < key {
        SubAtFacts(l, k);
      } else if k > key {
        SubAtFacts(r, k);
      }
  }

  /** A node that is not at the top of `t`, reached by a search, has a parent inside `t` and outside its own subtree. */
  lemma {:induction false} ParentAtIn<V>(t: Tree<V>, par: Option<nat>, k: int)
    requires Distinct(t)
    requires t.Node? && k != t.key
    ensures ParentAt(t, par, k).Some? && ParentAt(t, par, k).value in Ids(t)
    ensures ParentAt(t, par, k).value !in Ids(SubAt(t, k))
    ensures t.id !in Ids(SubAt(t, k))
    ensures Root(ReplaceAt(t, k, Leaf)) == Root(t)
  {
    var Node(l, id, key, _, r) := t;
    var c := if k < key then l else r;
    SubAtFacts(c, k);
    if c.Node? && k != c.key {
      ParentAtIn(c, Some(id), k);
    }
  }

  // ----- Replacing a subtree -----

  /** The keys of the slot a search for `k` reaches, and of anything put there, lie strictly on `k`'s side of the top node. */
  lemma SlotSide<V>(t: Tree<V>, k: int, s: Tree<V>)
    requires t.Node? && BST(t) && k != t.key
    requires Keys(s) <= Keys(SubAt(t, k)) + {k}
    ensures k < t.key ==> forall x :: x in Keys(SubAt(t, k)) + Keys(s) ==> x < t.key
    ensures k > t.key ==> forall x :: x in Keys(SubAt(t, k)) + Keys(s) ==> t.key < x
    ensures k < t.key ==> Keys(SubAt(t, k)) + Keys(s) !! Keys(t.right) + {t.key}
    ensures k > t.key ==> Keys(SubAt(t, k)) + Keys(s) !! Keys(t.left) + {t.key}
  {
    if k < t.key {
      SubAtFacts(t.left, k);
    } else {
      SubAtFacts(t.right, k);
    }
  }

  /** Set algebra behind ReplaceKeys and ReplaceIds: splicing elements into the left side of a node. */
  lemma SetSpliceLeft<T>(a: set<T>, b: set<T>, top: T, sub: set<T>, s: set<T>)
    requires sub !! b && top !in sub
    ensures (a - sub + s) + {top} + b == (a + {top} + b) - sub + s
  {
    var lhs, rhs := (a - sub + s) + {top} + b, (a + {top} + b) - sub + s;
    forall x ensures x in lhs <==> x in rhs {
    }
  }

  /** Set algebra: splicing elements into the right side of a node. */
  lemma SetSpliceRight<T>(a: set<T>, b: set<T>, top: T, sub: set<T>, s: set<T>)
    requires sub !! a && top !in sub
    ensures a + {top} + (b - sub + s) == (a + {top} + b) - sub + s
  {
    var lhs, rhs := a + {top} + (b - sub + s), (a + {top} + b) - sub + s;
    forall x ensures x in lhs <==> x in rhs {
    }
  }

  /** Replacing a subtree by one with keys from the same search slot keeps the ordering. */
  lemma {:induction false} ReplaceKeys<V>(t: Tree<V>, k: int, s: Tree<V>)
    requires BST(t) && BST(s)
    requires Keys(s) <= Keys(SubAt(t, k)) + {k}
    ensures BST(ReplaceAt(t, k, s))
    ensures Keys(ReplaceAt(t, k, s)) == Keys(t) - Keys(SubAt(t, k)) + Keys(s)
  {
    match t
    case Leaf =>
    case Node(l, id, key, value, r) =>
      if k < key {
        ReplaceKeys(l, k, s);
        SlotSide(t, k, s);
        assert ReplaceAt(t, k, s) == Node(ReplaceAt(l, k, s), id, key, value, r);
        SetSpliceLeft(Keys(l), Keys(r), key, Keys(SubAt(l, k)), Keys(s));
      } else if k > key {
        ReplaceKeys(r, k, s);
        SlotSide(t, k, s);
        assert ReplaceAt(t, k, s) == Node(l, id, key, value, ReplaceAt(r, k, s));
        SetSpliceRight(Keys(l), Keys(r), key, Keys(SubAt(r, k)), Keys(s));
      }
  }

  /** Map algebra behind ReplaceMap: splicing bindings into one side of a node. */
  lemma SpliceLeft<V>(a: map<int, V>, b: map<int, V>, s: map<int, V>, ks: set<int>, key: int, value: V)
    requires ks !! b.Keys && s.Keys !! b.Keys && key !in ks && key !in s.Keys
    ensures ((a - ks + s) + b)[key := value] == (a + b)[key := value] - ks + s
  {
  }

  lemma SpliceRight<V>(a: map<int, V>, b: map<int, V>, s: map<int, V>, ks: set<int>, key: int, value: V)
    requires ks !! a.Keys && s.Keys !! a.Keys && key !in ks && key !in s.Keys
    ensures (a + (b - ks + s))[key := value] == (a + b)[key := value] - ks + s
  {
  }

  /** Replacing a subtree changes the map only in the keys of that subtree. */
  lemma {:induction false} ReplaceMap<V>(t: Tree<V>, k: int, s: Tree<V>)
    requires BST(t) && BST(s)
    requires Keys(s) <= Keys(SubAt(t, k)) + {k}
    ensures Map(ReplaceAt(t, k, s)) == Map(t) - Keys(SubAt(t, k)) + Map(s)
  {
    match t
    case Leaf =>
      assert Map(t) - Keys(SubAt(t, k)) + Map(s) == Map(s);
    case Node(l, id, key, value, r) =>
      if k == key {
        assert Map(t) - Keys(SubAt(t, k)) + Map(s) == Map(s);
      } else if k < key {
        ReplaceMap(l, k, s);
        SlotSide(t, k, s);
        assert ReplaceAt(t, k, s) == Node(ReplaceAt(l, k, s), id, key, value, r);
        SpliceLeft(Map(l), Map(r), Map(s), Keys(SubAt(l, k)), key, value);
      } else {
        ReplaceMap(r, k, s);
        SlotSide(t, k, s);
        assert ReplaceAt(t, k, s) == Node(l, id, key, value, ReplaceAt(r, k, s));
        SpliceRight(Map(l), Map(r), Map(s), Keys(SubAt(r, k)), key, value);
      }
  }

  /** Replacing a subtree by one whose nodes are new to the rest of the tree keeps every node's occurrence unique. */
  lemma {:induction false} ReplaceIds<V>(t: Tree<V>, k: int, s: Tree<V>)
    requires Distinct(t) && Distinct(s)
    requires Ids(s) !! Ids(t) - Ids(SubAt(t, k))
    ensures Distinct(ReplaceAt(t, k, s))
    ensures Ids(ReplaceAt(t, k, s)) == Ids(t) - Ids(SubAt(t, k)) + Ids(s)
  {
    match t
    case Leaf =>
    case Node(l, id, key, value, r) =>
      if k < key {
        SubAtFacts(l, k);
        assert Ids(l) - Ids(SubAt(l, k)) <= Ids(t) - Ids(SubAt(t, k));
        ReplaceIds(l, k, s);
        var l' := ReplaceAt(l, k, s);
        assert ReplaceAt(t, k, s) == Node(l', id, key, value, r);
        assert Ids(r) + {id} <= Ids(t) - Ids(SubAt(t, k));
        SetSpliceLeft(Ids(l), Ids(r), id, Ids(SubAt(l, k)), Ids(s));
      } else if k > key {
        SubAtFacts(r, k);
        assert Ids(r) - Ids(SubAt(r, k)) <= Ids(t) - Ids(SubAt(t, k));
        ReplaceIds(r, k, s);
        var r' := ReplaceAt(r, k, s);
        assert ReplaceAt(t, k, s) == Node(l, id, key, value, r');
        assert Ids(l) + {id} <= Ids(t) - Ids(SubAt(t, k));
        SetSpliceRight(Ids(l), Ids(r), id, Ids(SubAt(r, k)), Ids(s));
      }
  }

  lemma {:induction false} ReplaceSelf<V>(t: Tree<V>, k: int)
    ensures ReplaceAt(t, k, SubAt(t, k)) == t
  {
    match t
    case Leaf =>
    case Node(l, _, key, _, r) =>
      if k < key {
        ReplaceSelf(l, k);
      } else if k > key {
        ReplaceSelf(r, k);
      }
  }

  /** Within the subtree where a search ends, the tree binds every key as that subtree does. */
  lemma SubMap<V>(t: Tree<V>, k: int)
    requires BST(t)
    ensures forall x :: x in Keys(SubAt(t, k)) ==> x in Map(t) && Map(t)[x] == Map(SubAt(t, k))[x]
  {
    SubAtFacts(t, k);
    ReplaceSelf(t, k);
    ReplaceMap(t, k, SubAt(t, k));
    assert Map(t) == Map(t) - Keys(SubAt(t, k)) + Map(SubAt(t, k));
  }

  // ----- The in-order successor -----

  /** The leftmost node of a search tree has no left child and the smallest key, and the search for that key ends there. */
  lemma {:induction false} MinFacts<V>(t: Tree<V>)
    requires t.Node? && BST(t)
    ensures Min(t).Node? && Min(t).left.Leaf?
    ensures Min(t).key in Keys(t)
    ensures forall x :: x in Keys(t) ==> Min(t).key <= x
    ensures SubAt(t, Min(t).key) == Min(t)
  {
    if t.left.Node? {
      MinFacts(t.left);
    }
  }

  /**
   * The minimum of the right subtree of the node holding `k` is the in-order
   * successor of `k` in the whole tree: a larger key with no key of the tree
   * strictly between the two.
   */
  lemma {:induction false} SuccessorIsNext<V>(t: Tree<V>, k: int)
    requires BST(t) && SubAt(t, k).Node? && SubAt(t, k).right.Node?
    ensures var m := Min(SubAt(t, k).right).key;
      m in Keys(t) && k < m && forall x :: x in Keys(t) && k < x ==> m <= x
  {
    SubAtFacts(t, k);
    var s := SubAt(t, k);
    MinFacts(s.right);
    var m := Min(s.right).key;
    if k < t.key {
      SuccessorIsNext(t.left, k);
      forall x | x in Keys(t) && k < x ensures m <= x {
        if x !in Keys(t.left) {
          assert m < t.key;
        }
      }
    } else if t.key < k {
      SuccessorIsNext(t.right, k);
    }
  }

  /** Map algebra: taking a subtree out of a map and putting back all of it but its top binding. */
  lemma SpliceOut<V>(a: map<int, V>, b: map<int, V>, ks: set<int>, key: int)
    requires ks == b.Keys + {key} && key !in b.Keys
    requires forall x :: x in b.Keys ==> x in a && a[x] == b[x]
    ensures a - ks + b == a - {key}
  {
    var lhs, rhs := a - ks + b, a - {key};
    forall x ensures (x in lhs <==> x in rhs) && (x in lhs ==> lhs[x] == rhs[x]) {
    }
  }

  /** Map algebra: taking a subtree out of a map and putting it back with one value changed. */
  lemma SpliceValue<V>(a: map<int, V>, b: map<int, V>, k: int, v: V)
    requires k in b.Keys
    requires forall x :: x in b.Keys ==> x in a && a[x] == b[x]
    ensures a - b.Keys + b[k := v] == a[k := v]
  {
    var lhs, rhs := a - b.Keys + b[k := v], a[k := v];
    forall x ensures (x in lhs <==> x in rhs) && (x in lhs ==> lhs[x] == rhs[x]) {
    }
  }

  /** Splicing the in-order successor out of a right subtree (replacing it by its own right subtree) removes exactly its key and node. */
  lemma SuccessorSplice<V>(r: Tree<V>)
    requires r.Node? && BST(r) && Distinct(r)
    ensures var m := Min(r); var r' := ReplaceAt(r, m.key, m.right);
      && BST(r') && Distinct(r')
      && m.key in Keys(r) && m.id in Ids(r) && m.value == Map(r)[m.key]
      && Keys(r') == Keys(r) - {m.key} && Ids(r') == Ids(r) - {m.id}
      && (forall x :: x in Keys(r') ==> m.key < x)
      && Map(r') == Map(r) - {m.key}
  {
    var m := Min(r);
    MinFacts(r);
    SubAtFacts(r, m.key);
    assert m.key !in Keys(m.right) && m.id !in Ids(m.right);
    DropRoot(m.left, m.id, m.key, m.value, m.right);
    ReplaceKeys(r, m.key, m.right);
    CutSlot(Keys(r), Keys(m), Keys(m.right), m.key);
    CutIds(r, m.key, m.right);
    CutMap(r, m.key, m.right);
  }

  /** Map algebra: the top binding of a node removed from its map. */
  lemma DropTop<V>(a: map<int, V>, b: map<int, V>, key: int, v: V)
    requires key !in a && key !in b
    ensures (a + b)[key := v] - {key} == a + b
  {
    var lhs, rhs := (a + b)[key := v] - {key}, a + b;
    forall x ensures (x in lhs <==> x in rhs) && (x in lhs ==> lhs[x] == rhs[x]) {
    }
  }

  /** Map algebra: a binding taken out of the right part and put back on top. */
  lemma RestoreKey<V>(a: map<int, V>, b: map<int, V>, key: int)
    requires key in b && key !in a
    ensures (a + (b - {key}))[key := b[key]] == a + b
  {
    var lhs, rhs := (a + (b - {key}))[key := b[key]], a + b;
    forall x ensures (x in lhs <==> x in rhs) && (x in lhs ==> lhs[x] == rhs[x]) {
    }
  }

  /** Set algebra: the top element of a node replaced by an element taken from its right part. */
  lemma SwapTop<T>(a: set<T>, b: set<T>, top: T, succ: T)
    requires succ in b && top !in a && top !in b && succ !in a
    ensures a + {succ} + (b - {succ}) == (a + {top} + b) - {top}
  {
    var lhs, rhs := a + {succ} + (b - {succ}), (a + {top} + b) - {top};
    forall x ensures x in lhs <==> x in rhs {
    }
  }

  /** Removing a node with two children by moving its in-order successor to the top removes exactly its key and node. */
  lemma DeleteTwoChildren<V>(s: Tree<V>)
    requires s.Node? && BST(s) && Distinct(s) && s.left.Node? && s.right.Node?
    ensures BST(DeleteRoot(s)) && Distinct(DeleteRoot(s))
    ensures Keys(DeleteRoot(s)) == Keys(s) - {s.key}
    ensures Ids(DeleteRoot(s)) == Ids(s) - {s.id}
    ensures Map(DeleteRoot(s)) == Map(s) - {s.key}
  {
    var Node(l, id, key, value, r) := s;
    var m := Min(r);
    SuccessorSplice(r);
    assert forall x :: x in Keys(l) ==> x < m.key;
    assert key !in Keys(l) && key !in Keys(r);
    SwapTop(Keys(l), Keys(r), key, m.key);
    SwapTop(Ids(l), Ids(r), id, m.id);
    RestoreKey(Map(l), Map(r), m.key);
    DropTop(Map(l), Map(r), key, value);
  }

  /** Set algebra: the top element of a node removed. */
  lemma DropTopSet<T>(a: set<T>, b: set<T>, top: T)
    requires top !in a && top !in b
    ensures (a + {top} + b) - {top} == a + b
  {
    var lhs, rhs := (a + {top} + b) - {top}, a + b;
    forall x ensures x in lhs <==> x in rhs {
    }
  }

  /** Removing the top node of a subtree removes exactly its key and its node and keeps the ordering. */
  lemma DeleteRootFacts<V>(s: Tree<V>)
    requires s.Node? && BST(s) && Distinct(s)
    ensures BST(DeleteRoot(s)) && Distinct(DeleteRoot(s))
    ensures Keys(DeleteRoot(s)) == Keys(s) - {s.key}
    ensures Ids(DeleteRoot(s)) == Ids(s) - {s.id}
    ensures Map(DeleteRoot(s)) == Map(s) - {s.key}
  {
    if s.left.Leaf? || s.right.Leaf? {
      DeleteOneChild(s);
    } else {
      DeleteTwoChildren(s);
    }
  }

  /** Set and map algebra of a node with an empty side: without its top it holds exactly its other side. */
  lemma DropRoot<V>(l: Tree<V>, id: nat, key: int, value: V, r: Tree<V>)
    requires key !in Keys(l) && key !in Keys(r) && id !in Ids(l) && id !in Ids(r) && (l.Leaf? || r.Leaf?)
    ensures var s, c := Node(l, id, key, value, r), if l.Leaf? then r else l;
      Keys(s) - {key} == Keys(c) && Ids(s) - {id} == Ids(c) && Map(s) - {key} == Map(c)
  {
    DropTop(Map(l), Map(r), key, value);
    DropTopSet(Keys(l), Keys(r), key);
    DropTopSet(Ids(l), Ids(r), id);
    if l.Leaf? {
      assert Map(l) + Map(r) == Map(r) by { assert Map(l) == map[]; }
      assert Keys(l) + Keys(r) == Keys(r);
      assert Ids(l) + Ids(r) == Ids(r);
    } else {
      assert Map(l) + Map(r) == Map(l) by { assert Map(r) == map[]; }
      assert Keys(l) + Keys(r) == Keys(l);
      assert Ids(l) + Ids(r) == Ids(l);
    }
  }

  /** Removing a node with at most one child lifts that child into its place. */
  lemma DeleteOneChild<V>(s: Tree<V>)
    requires s.Node? && BST(s) && Distinct(s) && (s.left.Leaf? || s.right.Leaf?)
    ensures BST(DeleteRoot(s)) && Distinct(DeleteRoot(s))
    ensures Keys(DeleteRoot(s)) == Keys(s) - {s.key}
    ensures Ids(DeleteRoot(s)) == Ids(s) - {s.id}
    ensures Map(DeleteRoot(s)) == Map(s) - {s.key}
  {
    var Node(l, id, key, value, r) := s;
    assert key !in Keys(l) && key !in Keys(r);
    DropRoot(l, id, key, value, r);
  }

  // ----- Search paths -----

  /** The last node visited before the search for `k` stops is `par` itself or a node of `t`. */
  lemma {:induction false} ParentAtRange<V>(t: Tree<V>, par: Option<nat>, k: int)
    ensures ParentAt(t, par, k) == par || (ParentAt(t, par, k).Some? && ParentAt(t, par, k).value in Ids(t))
  {
    match t
    case Leaf =>
    case Node(l, id, key, _, r) =>
      if k < key {
        ParentAtRange(l, Some(id), k);
      } else if k > key {
        ParentAtRange(r, Some(id), k);
      }
  }

  /** A search that stops at the top has no parent and a replacement there is the whole new tree; otherwise the top stays. */
  lemma RootReplace<V>(t: Tree<V>, k: int, s: Tree<V>)
    ensures ParentAt(t, None, k).None? ==> SubAt(t, k) == t && ReplaceAt(t, k, s) == s
    ensures ParentAt(t, None, k).Some? ==> t.Node? && k != t.key && Root(ReplaceAt(t, k, s)) == Root(t)
  {
    match t
    case Leaf =>
    case Node(l, id, key, _, r) =>
      if k < key {
        ParentAtRange(l, Some(id), k);
      } else if k > key {
        ParentAtRange(r, Some(id), k);
      }
  }

  /** Once a node holding `k` is put on the search path for `k`, the search stops there, and a second replacement overrides the first. */
  lemma {:induction false} ReplaceTwice<V>(t: Tree<V>, par: Option<nat>, k: int, a: Tree<V>, b: Tree<V>)
    requires a.Node? && a.key == k
    ensures SubAt(ReplaceAt(t, k, a), k) == a
    ensures ParentAt(ReplaceAt(t, k, a), par, k) == ParentAt(t, par, k)
    ensures ReplaceAt(ReplaceAt(t, k, a), k, b) == ReplaceAt(t, k, b)
  {
    match t
    case Leaf =>
    case Node(l, id, key, _, r) =>
      if k < key {
        ReplaceTwice(l, Some(id), k, a, b);
      } else if k > key {
        ReplaceTwice(r, Some(id), k, a, b);
      }
  }

  /** Under the ordering, the search for a key below the node holding `k` passes through that node. */
  lemma {:induction false} PathNested<V>(t: Tree<V>, par: Option<nat>, k: int, x: int, s: Tree<V>)
    requires BST(t) && SubAt(t, k).Node? && x in Keys(SubAt(t, k))
    ensures SubAt(t, x) == SubAt(SubAt(t, k), x)
    ensures ParentAt(t, par, x) == ParentAt(SubAt(t, k), ParentAt(t, par, k), x)
    ensures ReplaceAt(t, x, s) == ReplaceAt(t, k, ReplaceAt(SubAt(t, k), x, s))
  {
    match t
    case Leaf =>
    case Node(l, id, key, _, r) =>
      if k < key {
        SubAtFacts(l, k);
        PathNested(l, Some(id), k, x, s);
      } else if k > key {
        SubAtFacts(r, k);
        PathNested(r, Some(id), k, x, s);
      }
  }

  // ----- Insert-or-update and delete on shapes -----

  /** Set algebra: a part taken out and put back without one element. */
  lemma CutSlot<T>(a: set<T>, sub: set<T>, s: set<T>, e: T)
    requires sub == s + {e} && e !in s && sub <= a
    ensures a - sub + s == a - {e}
  {
    var lhs, rhs := a - sub + s, a - {e};
    forall x ensures x in lhs <==> x in rhs {
    }
  }

  /** Set algebra: a part taken out and put back unchanged. */
  lemma KeepSlot<T>(a: set<T>, sub: set<T>)
    requires sub <= a
    ensures a - sub + sub == a
  {
    var lhs := a - sub + sub;
    forall x ensures x in lhs <==> x in a {
    }
  }

  /** Overwriting the value held at `k` rebinds `k` and keeps the ordering and the nodes. */
  lemma UpdateCorrect<V>(t: Tree<V>, k: int, v: V)
    requires BST(t) && Distinct(t) && SubAt(t, k).Node?
    ensures var t' := ReplaceAt(t, k, SubAt(t, k).(value := v));
      BST(t') && Distinct(t') && Map(t') == Map(t)[k := v] && Ids(t') == Ids(t)
  {
    var s := SubAt(t, k);
    SubAtFacts(t, k);
    var s' := s.(value := v);
    assert Map(s') == Map(s)[k := v];
    ReplaceKeys(t, k, s');
    ReplaceIds(t, k, s');
    KeepSlot(Ids(t), Ids(s));
    assert Map(ReplaceAt(t, k, s')) == Map(t)[k := v] by {
      ReplaceMap(t, k, s');
      SubMap(t, k);
      SpliceValue(Map(t), Map(s), k, v);
    }
  }

  /** Map algebra: a single new binding grafted into an empty slot. */
  lemma GraftLeaf<V>(a: map<int, V>, b: map<int, V>, k: int, v: V)
    requires b == map[k := v]
    ensures a - {} + b == a[k := v]
  {
    var lhs, rhs := a - {} + b, a[k := v];
    forall x ensures (x in lhs <==> x in rhs) && (x in lhs ==> lhs[x] == rhs[x]) {
    }
  }

  /** Filling the empty slot for `k` with a shape of fresh identities adds exactly those identities. */
  lemma FillIds<V>(t: Tree<V>, k: int, s': Tree<V>)
    requires Distinct(t) && SubAt(t, k).Leaf? && Distinct(s') && Ids(s') !! Ids(t)
    ensures Distinct(ReplaceAt(t, k, s')) && Ids(ReplaceAt(t, k, s')) == Ids(t) + Ids(s')
  {
    ReplaceIds(t, k, s');
    assert Ids(t) - Ids(SubAt(t, k)) == Ids(t);
  }

  /** Filling the empty slot for `k` with a single node binding `k` to `v` adds exactly that binding. */
  lemma FillMap<V>(t: Tree<V>, k: int, v: V, s': Tree<V>)
    requires BST(t) && SubAt(t, k).Leaf? && BST(s') && Keys(s') == {k} && Map(s') == map[k := v]
    ensures Map(ReplaceAt(t, k, s')) == Map(t)[k := v]
  {
    ReplaceMap(t, k, s');
    GraftLeaf(Map(t), Map(s'), k, v);
  }

  /** A single node binds its own key only. */
  lemma LeafNode<V>(id: nat, k: int, v: V)
    ensures var s := Node(Leaf, id, k, v, Leaf);
      Keys(s) == {k} && Ids(s) == {id} && Map(s) == map[k := v] && BST(s) && Distinct(s)
  {
    var s := Node(Leaf, id, k, v, Leaf);
    var e: map<int, V> := map[];
    assert Keys<V>(Leaf) == {} && Ids<V>(Leaf) == {} && Map<V>(Leaf) == e;
    assert Keys(s) == {} + {k} + {};
    assert Ids(s) == {} + {id} + {};
    assert Map(s) == (e + e)[k := v];
    assert e + e == e;
  }

  /** Hanging a new node in the empty slot for an absent `k` binds `k` and keeps the ordering. */
  lemma InsertCorrect<V>(t: Tree<V>, k: int, v: V, newId: nat)
    requires BST(t) && Distinct(t) && SubAt(t, k).Leaf? && newId !in Ids(t)
    ensures var t' := ReplaceAt(t, k, Node(Leaf, newId, k, v, Leaf));
      BST(t') && Distinct(t') && Map(t') == Map(t)[k := v] && Ids(t') == Ids(t) + {newId}
  {
    var s' := Node(Leaf, newId, k, v, Leaf);
    LeafNode(newId, k, v);
    ReplaceKeys(t, k, s');
    FillIds(t, k, s');
    FillMap(t, k, v, s');
  }

  /** Insert-or-update binds `k` to `v` and leaves every other binding, the ordering and the node identities intact. */
  lemma PutCorrect<V>(t: Tree<V>, k: int, v: V, newId: nat)
    requires BST(t) && Distinct(t) && newId !in Ids(t)
    ensures BST(Put(t, k, v, newId)) && Distinct(Put(t, k, v, newId))
    ensures Map(Put(t, k, v, newId)) == Map(t)[k := v]
    ensures Ids(Put(t, k, v, newId)) == if SubAt(t, k).Node? then Ids(t) else Ids(t) + {newId}
  {
    SubAtFacts(t, k);
    if SubAt(t, k).Node? {
      UpdateCorrect(t, k, v);
    } else {
      InsertCorrect(t, k, v, newId);
    }
  }

  /** Cutting the node `SubAt(t, k)` out of its subtree drops exactly its identity from the tree. */
  lemma CutIds<V>(t: Tree<V>, k: int, s': Tree<V>)
    requires Distinct(t) && SubAt(t, k).Node? && Distinct(s') && Ids(s') == Ids(SubAt(t, k)) - {SubAt(t, k).id}
    ensures Distinct(ReplaceAt(t, k, s')) && Ids(ReplaceAt(t, k, s')) == Ids(t) - {SubAt(t, k).id}
  {
    var s := SubAt(t, k);
    assert Distinct(s) && Ids(s) <= Ids(t) by {
      SubAtFacts(t, k);
    }
    ReplaceIds(t, k, s');
    CutSlot(Ids(t), Ids(s), Ids(s'), s.id);
  }

  /** Cutting the node holding `k` out of its subtree drops exactly the binding of `k` from the tree. */
  lemma CutMap<V>(t: Tree<V>, k: int, s': Tree<V>)
    requires BST(t) && SubAt(t, k).Node? && BST(s') && Keys(s') == Keys(SubAt(t, k)) - {k} && Map(s') == Map(SubAt(t, k)) - {k}
    ensures Map(ReplaceAt(t, k, s')) == Map(t) - {k}
  {
    var s := SubAt(t, k);
    assert s.key == k && k in Keys(s) by {
      SubAtFacts(t, k);
    }
    ReplaceMap(t, k, s');
    SubMap(t, k);
    SpliceOut(Map(t), Map(s'), Keys(s), k);
  }

  /** Removing the node that holds a present `k` drops exactly the binding of `k` and that node. */
  lemma RemovePresent<V>(t: Tree<V>, k: int)
    requires BST(t) && Distinct(t) && SubAt(t, k).Node?
    ensures var t' := ReplaceAt(t, k, DeleteRoot(SubAt(t, k)));
      BST(t') && Distinct(t') && Map(t') == Map(t) - {k} && Ids(t') == Ids(t) - {SubAt(t, k).id}
  {
    var s := SubAt(t, k);
    SubAtFacts(t, k);
    DeleteRootFacts(s);
    ReplaceKeys(t, k, DeleteRoot(s));
    CutIds(t, k, DeleteRoot(s));
    CutMap(t, k, DeleteRoot(s));
  }

  /** Deletion removes exactly the binding of `k` (and the node holding it) and keeps the ordering. */
  lemma RemoveCorrect<V>(t: Tree<V>, k: int)
    requires BST(t) && Distinct(t)
    ensures BST(Remove(t, k)) && Distinct(Remove(t, k))
    ensures Map(Remove(t, k)) == Map(t) - {k}
    ensures Ids(Remove(t, k)) == if SubAt(t, k).Node? then Ids(t) - {SubAt(t, k).id} else Ids(t)
  {
    SubAtFacts(t, k);
    if SubAt(t, k).Node? {
      RemovePresent(t, k);
    } else {
      assert Map(t) - {k} == Map(t);
    }
  }

  // ----- Size and height -----

  /** With no node occurring twice, the nodes of a shape are as many as its identities. */
  lemma {:induction false} IdsCount<V>(t: Tree<V>)
    requires Distinct(t)
    ensures |Ids(t)| == Count(t)
  {
    match t
    case Leaf =>
    case Node(l, id, _, _, r) =>
      IdsCount(l);
      IdsCount(r);
      UnionCard(Ids(l), Ids(r), id);
  }

  /** Under the ordering, no key occurs twice, so a shape binds as many keys as it has nodes. */
  lemma {:induction false} KeysCount<V>(t: Tree<V>)
    requires BST(t)
    ensures |Keys(t)| == Count(t)
  {
    match t
    case Leaf =>
    case Node(l, _, key, _, r) =>
      KeysCount(l);
      KeysCount(r);
      assert Keys(l) !! Keys(r) by {
        forall x | x in Keys(l) ensures x !in Keys(r) {
        }
      }
      UnionCard(Keys(l), Keys(r), key);
  }

  /** Set algebra: two disjoint parts and one further element. */
  lemma UnionCard<T>(a: set<T>, b: set<T>, e: T)
    requires a !! b && e !in a && e !in b
    ensures |a + {e} + b| == |a| + |b| + 1
  {
    assert (a + {e}) * b == {};
    assert |a + {e}| == |a| + 1;
  }

  /** The height is zero only for the empty tree and never exceeds the number of nodes. */
  lemma {:induction false} HeightBounds<V>(t: Tree<V>)
    ensures Height(t) == 0 <==> t.Leaf?
    ensures t.Node? ==> 1 <= Height(t) <= Count(t)
  {
    match t
    case Leaf =>
    case Node(l, _, _, _, r) =>
      HeightBounds(l);
      HeightBounds(r);
  }

  /** The every-node balance criterion unfolds into the recursive check on both subtrees and the top node. */
  lemma BalancedNode<V>(t: Tree<V>)
    requires t.Node?
    ensures Balanced(t) <==> Balanced(t.left) && Balanced(t.right) && HeightsClose(t)
  {
    assert t in Subtrees(t);
  }
}
