/**
 * The node records of the mutable tree, kept in an arena: a map from node
 * identities to records whose child and parent links are identities. A
 * shape is linked to an arena when every node of the shape has a record
 * holding its key, value, the identities of its two children and the
 * identity of its parent. The lemmas here say how the arena updates made
 * by insertion, transplanting and deletion keep an arena linked to the
 * shape that TreeShape says the operation produces.
 */
module TreeNodes {
  import opened Wrappers
  import opened TreeShape

  /** One node object: key, value, and the identities of its left child, right child and parent. */
  datatype TreeNode<V> = TreeNode(key: int, value: V, left: Option<nat>, right: Option<nat>, parent: Option<nat>)

  type Arena<V> = map<nat, TreeNode<V>>

  /** Every node of `t` has a record in `n` that mirrors it, with `par` as the parent of the top node. */
  ghost predicate Linked<V>(t: Tree<V>, par: Option<nat>, n: Arena<V>)
  {
    match t
    case Leaf => true
    case Node(l, id, key, value, r) =>
      id in n && n[id] == TreeNode(key, value, Root(l), Root(r), par) &&
      Linked(l, Some(id), n) && Linked(r, Some(id), n)
  }

  /** The whole tree: `n` holds exactly the records of the ordered, unshared shape `t`, whose top is `root`. */
  ghost predicate Represents<V>(t: Tree<V>, root: Option<nat>, n: Arena<V>)
  {
    Linked(t, None, n) && Distinct(t) && BST(t) && Ids(t) == n.Keys && root == Root(t)
  }

  /** The child slot a search for `k` follows out of `rec`, set to `to`. */
  function Attach<V>(rec: TreeNode<V>, k: int, to: Option<nat>): TreeNode<V>
  {
    if k < rec.key then rec.(left := to) else rec.(right := to)
  }

  /** The child slot of `rec` that holds `from` (the left one if it does, otherwise the right one), set to `to`. */
  function Redirect<V>(rec: TreeNode<V>, from: Option<nat>, to: Option<nat>): TreeNode<V>
  {
    if rec.left == from then rec.(left := to) else rec.(right := to)
  }

  /** The parent link of node `c`, if there is one, set to `p`. */
  function SetParent<V>(n: Arena<V>, c: Option<nat>, p: Option<nat>): (n': Arena<V>)
    ensures n'.Keys == n.Keys
  {
    if c.Some? && c.value in n then n[c.value := n[c.value].(parent := p)] else n
  }

  /**
   * The links of record `i` agree with the records they name: each child
   * names `i` as its parent, and the parent holds `i` in one of its child slots.
   */
  ghost predicate Agrees<V>(n: Arena<V>, i: nat)
  {
    i in n &&
    (n[i].left.Some? ==> n[i].left.value in n && n[n[i].left.value].parent == Some(i)) &&
    (n[i].right.Some? ==> n[i].right.value in n && n[n[i].right.value].parent == Some(i)) &&
    (n[i].parent.Some? ==>
       n[i].parent.value in n && (n[n[i].parent.value].left == Some(i) || n[n[i].parent.value].right == Some(i)))
  }

  /** Parent links and child links agree throughout the arena. */
  ghost predicate Consistent<V>(n: Arena<V>)
  {
    forall i :: i in n ==> Agrees(n, i)
  }

  // ----- Linking -----

  /** Linking depends only on the records of the shape's own nodes. */
  lemma {:induction false} LinkedFrame<V>(t: Tree<V>, par: Option<nat>, n: Arena<V>, n': Arena<V>)
    requires Linked(t, par, n)
    requires forall i :: i in Ids(t) && i in n ==> i in n' && n'[i] == n[i]
    ensures Linked(t, par, n')
  {
    match t
    case Leaf =>
    case Node(l, _, _, _, r) =>
      LinkedFrame(l, Some(t.id), n, n');
      LinkedFrame(r, Some(t.id), n, n');
  }

  /** A linked shape stays linked to a new parent when only the parent link of its top record changes. */
  lemma Reparent<V>(t: Tree<V>, par: Option<nat>, par': Option<nat>, n: Arena<V>, n': Arena<V>)
    requires Linked(t, par, n) && Distinct(t) && t.Node?
    requires t.id in n' && n'[t.id] == n[t.id].(parent := par')
    requires forall i :: i in Ids(t) && i != t.id && i in n ==> i in n' && n'[i] == n[i]
    ensures Linked(t, par', n')
  {
    LinkedFrame(t.left, Some(t.id), n, n');
    LinkedFrame(t.right, Some(t.id), n, n');
  }

  /** Every node of a linked shape has a record. */
  lemma {:induction false} LinkedIds<V>(t: Tree<V>, par: Option<nat>, n: Arena<V>)
    requires Linked(t, par, n)
    ensures Ids(t) <= n.Keys
  {
    match t
    case Leaf =>
    case Node(l, id, _, _, r) =>
      LinkedIds(l, Some(id), n);
      LinkedIds(r, Some(id), n);
  }

  /** In a linked shape whose parent record holds its top, every record agrees with its neighbours. */
  lemma {:induction false} LinkedAgree<V>(t: Tree<V>, par: Option<nat>, n: Arena<V>)
    requires Linked(t, par, n)
    requires par.Some? ==> par.value in n && (n[par.value].left == Root(t) || n[par.value].right == Root(t))
    ensures forall i :: i in Ids(t) ==> Agrees(n, i)
  {
    match t
    case Leaf =>
    case Node(l, id, _, _, r) =>
      LinkedAgree(l, Some(id), n);
      LinkedAgree(r, Some(id), n);
  }

  /** An arena holding exactly the records of a linked shape is consistent. */
  lemma LinkedConsistent<V>(t: Tree<V>, n: Arena<V>)
    requires Linked(t, None, n) && Ids(t) == n.Keys
    ensures Consistent(n)
  {
    LinkedAgree(t, None, n);
  }

  /** The subtree where the search for `k` stops is linked, with the last visited node as its parent. */
  lemma {:induction false} SubLinked<V>(t: Tree<V>, par: Option<nat>, k: int, n: Arena<V>)
    requires Linked(t, par, n)
    ensures Linked(SubAt(t, k), ParentAt(t, par, k), n)
  {
    match t
    case Leaf =>
    case Node(l, id, key, _, r) =>
      if k < key {
        SubLinked(l, Some(id), k, n);
      } else if k > key {
        SubLinked(r, Some(id), k, n);
      }
  }

  /**
   * The last node a search for `k` visits holds the stopping subtree in the
   * child slot the search followed; when that subtree is a node, finding the
   * slot by identity (as transplanting does) and by key agree.
   */
  lemma {:induction false} ParentSlot<V>(t: Tree<V>, par: Option<nat>, k: int, n: Arena<V>, to: Option<nat>)
    requires Linked(t, par, n) && Distinct(t) && t.Node? && k != t.key
    ensures ParentAt(t, par, k).Some? && ParentAt(t, par, k).value in n
    ensures var rec := n[ParentAt(t, par, k).value];
      rec.key != k &&
      (k < rec.key ==> rec.left == Root(SubAt(t, k))) &&
      (rec.key < k ==> rec.right == Root(SubAt(t, k))) &&
      (SubAt(t, k).Node? ==> Redirect(rec, Root(SubAt(t, k)), to) == Attach(rec, k, to))
  {
    var Node(l, id, key, _, r) := t;
    if k < key {
      if l.Node? && l.key != k {
        ParentSlot(l, Some(id), k, n, to);
      }
    } else {
      if r.Node? && r.key != k {
        ParentSlot(r, Some(id), k, n, to);
      } else if r.Node? {
        assert r.id in Ids(r);
        assert Root(l) != Some(r.id) by {
          if l.Node? {
            assert l.id in Ids(l);
          }
        }
      }
    }
  }

  /**
   * Replacing the stopping subtree of the search for `k`: if the new subtree
   * `s` is linked below the last visited node, that node's slot for `k` now
   * holds `s`, and every other record outside the old subtree is unchanged,
   * then the whole new shape is linked.
   */
  lemma {:induction false} ReplaceLinked<V>(t: Tree<V>, par: Option<nat>, k: int, s: Tree<V>, n: Arena<V>, n': Arena<V>)
    requires Linked(t, par, n) && Distinct(t)
    requires Linked(s, ParentAt(t, par, k), n')
    requires forall i :: i in Ids(t) && i !in Ids(SubAt(t, k)) && i in n ==>
      i in n' && n'[i] == if ParentAt(t, par, k) == Some(i) then Attach(n[i], k, Root(s)) else n[i]
    ensures Linked(ReplaceAt(t, k, s), par, n')
  {
    match t
    case Leaf =>
    case Node(l, id, key, _, r) =>
      if k < key {
        SubAtFacts(l, k);
        ParentAtRange(l, Some(id), k);
        ReplaceLinked(l, Some(id), k, s, n, n');
        assert id in Ids(t) && id !in Ids(SubAt(t, k));
        if l.Node? && l.key != k {
          ParentAtIn(l, Some(id), k);
          assert n'[id] == TreeNode(key, t.value, Root(ReplaceAt(l, k, s)), Root(r), par);
        } else {
          assert n'[id] == TreeNode(key, t.value, Root(ReplaceAt(l, k, s)), Root(r), par);
        }
        LinkedFrame(r, Some(id), n, n');
        assert ReplaceAt(t, k, s) == Node(ReplaceAt(l, k, s), id, key, t.value, r);
      } else if k > key {
        SubAtFacts(r, k);
        ParentAtRange(r, Some(id), k);
        ReplaceLinked(r, Some(id), k, s, n, n');
        assert id in Ids(t) && id !in Ids(SubAt(t, k));
        if r.Node? && r.key != k {
          ParentAtIn(r, Some(id), k);
          assert n'[id] == TreeNode(key, t.value, Root(l), Root(ReplaceAt(r, k, s)), par);
        } else {
          assert n'[id] == TreeNode(key, t.value, Root(l), Root(ReplaceAt(r, k, s)), par);
        }
        LinkedFrame(l, Some(id), n, n');
        assert ReplaceAt(t, k, s) == Node(l, id, key, t.value, ReplaceAt(r, k, s));
      }
  }

  /** Under the ordering, the search for the key of a node's record stops at that node. */
  lemma {:induction false} IdAt<V>(t: Tree<V>, par: Option<nat>, n: Arena<V>, z: nat)
    requires Linked(t, par, n) && Distinct(t) && BST(t) && z in Ids(t)
    ensures z in n && SubAt(t, n[z].key).Node? && SubAt(t, n[z].key).id == z
  {
    var Node(l, id, key, _, r) := t;
    if z in Ids(l) {
      IdAt(l, Some(id), n, z);
      SubAtFacts(l, n[z].key);
    } else if z in Ids(r) {
      IdAt(r, Some(id), n, z);
      SubAtFacts(r, n[z].key);
    }
  }

  // ----- Inserting -----

  /** The node where the search for `k` stops belongs to the tree. */
  lemma {:induction false} SubAtId<V>(t: Tree<V>, k: int)
    requires SubAt(t, k).Node?
    ensures SubAt(t, k).id in Ids(t)
  {
    var Node(l, _, key, _, r) := t;
    if k < key { SubAtId(l, k); } else if k > key { SubAtId(r, k); }
  }

  /** Overwriting the value in the record of the node where the search for `k` stops keeps the shape linked, with that value. */
  lemma {:induction false} ValueLinked<V>(t: Tree<V>, par: Option<nat>, k: int, v: V, n: Arena<V>)
    requires Linked(t, par, n) && Distinct(t) && SubAt(t, k).Node?
    ensures var z := SubAt(t, k).id;
      z in n && Linked(ReplaceAt(t, k, SubAt(t, k).(value := v)), par, n[z := n[z].(value := v)])
  {
    var Node(l, id, key, value, r) := t;
    var z := SubAt(t, k).id;
    if k == key {
      LinkedFrame(l, Some(id), n, n[z := n[z].(value := v)]);
      LinkedFrame(r, Some(id), n, n[z := n[z].(value := v)]);
    } else if k < key {
      ValueLinked(l, Some(id), k, v, n);
      SubAtId(l, k);
      LinkedFrame(r, Some(id), n, n[z := n[z].(value := v)]);
    } else {
      ValueLinked(r, Some(id), k, v, n);
      SubAtId(r, k);
      LinkedFrame(l, Some(id), n, n[z := n[z].(value := v)]);
    }
  }

  /** Overwriting the value in the record of node `z` represents updating the binding of its key. */
  lemma UpdateRecord<V>(t: Tree<V>, root: Option<nat>, n: Arena<V>, z: nat, v: V, newId: nat)
    requires Represents(t, root, n) && z in n
    ensures SubAt(t, n[z].key).Node?
    ensures Represents(Put(t, n[z].key, v, newId), root, n[z := n[z].(value := v)])
  {
    var k := n[z].key;
    IdAt(t, None, n, z);
    var s := SubAt(t, k);
    ValueLinked(t, None, k, v, n);
    RootReplace(t, k, s.(value := v));
    UpdateCorrect(t, k, v);
  }

  /** A single record `newId` planted in an empty arena represents inserting `k` into the empty tree. */
  lemma PlantRecord<V>(t: Tree<V>, root: Option<nat>, n: Arena<V>, k: int, v: V, newId: nat)
    requires Represents(t, root, n) && root.None?
    ensures Put(t, k, v, newId) == Node(Leaf, newId, k, v, Leaf)
    ensures Represents(Put(t, k, v, newId), Some(newId), n[newId := TreeNode(k, v, None, None, None)])
    ensures |n[newId := TreeNode(k, v, None, None, None)]| == 1
  {
    assert n == map[];
  }

  /** The search for a key absent from a non-empty tree last visits one of the tree's own nodes. */
  lemma {:induction false} ParentAtOwn<V>(t: Tree<V>, par: Option<nat>, k: int)
    requires t.Node? && SubAt(t, k).Leaf?
    ensures ParentAt(t, par, k).Some? && ParentAt(t, par, k).value in Ids(t)
  {
    var Node(l, id, key, _, r) := t;
    if k < key && l.Node? {
      ParentAtOwn(l, Some(id), k);
    } else if k > key && r.Node? {
      ParentAtOwn(r, Some(id), k);
    }
  }

  /** Hanging a new leaf record `newId` in the empty slot where the search for `k` ends keeps the shape linked. */
  lemma {:induction false} LeafLinked<V>(t: Tree<V>, par: Option<nat>, k: int, v: V, newId: nat, n: Arena<V>)
    requires Linked(t, par, n) && Distinct(t) && t.Node? && SubAt(t, k).Leaf? && newId !in n
    ensures ParentAt(t, par, k).Some? && ParentAt(t, par, k).value in n
    ensures var j := ParentAt(t, par, k).value;
      Linked(ReplaceAt(t, k, Node(Leaf, newId, k, v, Leaf)), par,
        n[newId := TreeNode(k, v, None, None, Some(j))][j := Attach(n[j], k, Some(newId))])
  {
    var Node(l, id, key, value, r) := t;
    ParentAtOwn(t, par, k);
    LinkedIds(t, par, n);
    var j := ParentAt(t, par, k).value;
    var n' := n[newId := TreeNode(k, v, None, None, Some(j))][j := Attach(n[j], k, Some(newId))];
    if k < key {
      if l.Node? {
        LeafLinked(l, Some(id), k, v, newId, n);
        ParentAtOwn(l, Some(id), k);
      }
      LinkedIds(r, Some(id), n);
      LinkedFrame(r, Some(id), n, n');
    } else {
      if r.Node? {
        LeafLinked(r, Some(id), k, v, newId, n);
        ParentAtOwn(r, Some(id), k);
      }
      LinkedIds(l, Some(id), n);
      LinkedFrame(l, Some(id), n, n');
    }
  }

  /** A new leaf record `newId` hung in the slot of `j` that the search for `k` reaches represents inserting `k`. */
  lemma GraftRecord<V>(t: Tree<V>, root: Option<nat>, n: Arena<V>, k: int, v: V, newId: nat, j: nat)
    requires Represents(t, root, n) && newId !in n
    requires SubAt(t, k).Leaf? && ParentAt(t, None, k) == Some(j) && j in n
    ensures Represents(Put(t, k, v, newId), root, n[newId := TreeNode(k, v, None, None, Some(j))][j := Attach(n[j], k, Some(newId))])
    ensures |n[newId := TreeNode(k, v, None, None, Some(j))][j := Attach(n[j], k, Some(newId))]| == |n| + 1
  {
    var s' := Node(Leaf, newId, k, v, Leaf);
    var n' := n[newId := TreeNode(k, v, None, None, Some(j))][j := Attach(n[j], k, Some(newId))];
    LeafLinked(t, None, k, v, newId, n);
    RootReplace(t, k, s');
    PutCorrect(t, k, v, newId);
    var lhs, rhs := Ids(Put(t, k, v, newId)), n'.Keys;
    forall x ensures x in lhs <==> x in rhs {
    }
  }

  // ----- Transplanting -----

  /**
   * Node `v` (or nothing) put in the place of node `u`: the root becomes `v`
   * when `u` has no parent, otherwise the child slot of `u`'s parent that
   * holds `u` gets `v`; then `v`'s parent becomes `u`'s parent.
   */
  function Transplanted<V>(root: Option<nat>, n: Arena<V>, u: nat, v: Option<nat>): (r: (Option<nat>, Arena<V>))
    requires u in n
    ensures r.1.Keys == n.Keys
  {
    var p := n[u].parent;
    var n1 := if p.Some? && p.value in n then n[p.value := Redirect(n[p.value], Some(u), v)] else n;
    (if p.None? then v else root, SetParent(n1, v, p))
  }

  /**
   * Transplanting the only child `c` (possibly empty) of the node where the
   * search for `k` stops into that node's place links the shape in which
   * that node's subtree is replaced by `c`.
   */
  lemma TransplantLift<V>(t: Tree<V>, k: int, c: Tree<V>, root: Option<nat>, n: Arena<V>)
    requires Linked(t, None, n) && Distinct(t) && root == Root(t) && SubAt(t, k).Node?
    requires (c == SubAt(t, k).left && SubAt(t, k).right.Leaf?) || (c == SubAt(t, k).right && SubAt(t, k).left.Leaf?)
    ensures SubAt(t, k).id in n
    ensures var r := Transplanted(root, n, SubAt(t, k).id, Root(c));
      Linked(ReplaceAt(t, k, c), None, r.1) && r.0 == Root(ReplaceAt(t, k, c))
  {
    var s := SubAt(t, k);
    var p := ParentAt(t, None, k);
    SubLinked(t, None, k, n);
    SubAtFacts(t, k);
    RootReplace(t, k, c);
    assert Ids(c) <= Ids(s) && s.id !in Ids(c);
    var r := Transplanted(root, n, s.id, Root(c));
    if p.None? {
      if c.Node? {
        Reparent(c, Some(s.id), None, n, r.1);
      }
    } else {
      ParentAtIn(t, None, k);
      ParentSlot(t, None, k, n, Root(c));
      if c.Node? {
        assert c.id in Ids(s);
        Reparent(c, Some(s.id), p, n, r.1);
      }
      ReplaceLinked(t, None, k, c, n, r.1);
    }
  }

  // ----- Deleting a node -----

  /**
   * The arena after deleting node `z`, whose in-order successor is `succ`
   * when it has two children: a node missing a child is replaced by its
   * other child; otherwise the successor is first spliced out of its place
   * (unless it is `z`'s right child), takes over `z`'s right subtree, then
   * `z`'s place and `z`'s left subtree. The detached record of `z` is dropped.
   */
  function Deleted<V>(root: Option<nat>, n: Arena<V>, z: nat, succ: nat): (r: (Option<nat>, Arena<V>))
    requires z in n && (n[z].left.Some? && n[z].right.Some? ==> succ in n)
    ensures r.1.Keys == n.Keys - {z}
  {
    var r :=
      if n[z].left.None? then Transplanted(root, n, z, n[z].right)
      else if n[z].right.None? then Transplanted(root, n, z, n[z].left)
      else SuccessorMoved(root, n, z, succ);
    (r.0, r.1 - {z})
  }

  /** The two-children case of Deleted: successor `y` moved into the place of `z`. */
  function SuccessorMoved<V>(root: Option<nat>, n: Arena<V>, z: nat, y: nat): (r: (Option<nat>, Arena<V>))
    requires z in n && y in n
    ensures r.1.Keys == n.Keys
  {
    var a :=
      if n[y].parent != Some(z) then
        var a0 := Transplanted(root, n, y, n[y].right);
        var m1 := a0.1[y := a0.1[y].(right := a0.1[z].right)];
        (a0.0, SetParent(m1, m1[y].right, Some(y)))
      else (root, n);
    var b := Transplanted(a.0, a.1, z, Some(y));
    var n3 := b.1[y := b.1[y].(left := b.1[z].left)];
    (b.0, SetParent(n3, n3[y].left, Some(y)))
  }

  /**
   * Deleting a node of a represented tree, given its in-order successor when
   * it has two children, leaves an arena that represents the tree with that
   * node's key removed.
   */
  lemma DeleteCorrect<V>(t: Tree<V>, root: Option<nat>, n: Arena<V>, z: nat, succ: nat)
    requires Represents(t, root, n) && z in n
    requires n[z].left.Some? && n[z].right.Some? ==> succ in n
    requires SubAt(t, n[z].key).Node? && SubAt(t, n[z].key).left.Node? && SubAt(t, n[z].key).right.Node? ==> succ == Min(SubAt(t, n[z].key).right).id
    ensures var r := Deleted(root, n, z, succ); Represents(Remove(t, n[z].key), r.0, r.1)
  {
    var k := n[z].key;
    IdAt(t, None, n, z);
    var s := SubAt(t, k);
    SubLinked(t, None, k, n);
    var r := Deleted(root, n, z, succ);
    if s.left.Leaf? {
      TransplantLift(t, k, s.right, root, n);
      RemovedRecord(t, k, root, n, Transplanted(root, n, z, n[z].right).0, Transplanted(root, n, z, n[z].right).1);
    } else if s.right.Leaf? {
      TransplantLift(t, k, s.left, root, n);
      RemovedRecord(t, k, root, n, Transplanted(root, n, z, n[z].left).0, Transplanted(root, n, z, n[z].left).1);
    } else if s.right.left.Leaf? {
      SuccessorChild(t, k, root, n);
      RemovedRecord(t, k, root, n, SuccessorMoved(root, n, z, succ).0, SuccessorMoved(root, n, z, succ).1);
    } else {
      SuccessorDeep(t, k, root, n);
      RemovedRecord(t, k, root, n, SuccessorMoved(root, n, z, succ).0, SuccessorMoved(root, n, z, succ).1);
    }
  }

  /** An arena linked to the shape with the deleted node's subtree replaced, with that node's record dropped, represents Remove. */
  lemma RemovedRecord<V>(t: Tree<V>, k: int, root: Option<nat>, n: Arena<V>, root': Option<nat>, n': Arena<V>)
    requires BST(t) && Distinct(t) && Ids(t) == n.Keys && SubAt(t, k).Node?
    requires Linked(ReplaceAt(t, k, DeleteRoot(SubAt(t, k))), None, n') && n'.Keys == n.Keys
    requires root' == Root(ReplaceAt(t, k, DeleteRoot(SubAt(t, k))))
    ensures Represents(Remove(t, k), root', n' - {SubAt(t, k).id})
  {
    RemoveCorrect(t, k);
    LinkedFrame(Remove(t, k), None, n', n' - {SubAt(t, k).id});
    var lhs, rhs := (n' - {SubAt(t, k).id}).Keys, Ids(Remove(t, k));
    forall x ensures x in lhs <==> x in rhs {
    }
  }

  /** Deleting a node whose successor is its right child: the successor keeps its right subtree and takes the node's place and left subtree. */
  lemma SuccessorChild<V>(t: Tree<V>, k: int, root: Option<nat>, n: Arena<V>)
    requires Linked(t, None, n) && Distinct(t) && BST(t) && root == Root(t)
    requires SubAt(t, k).Node? && SubAt(t, k).left.Node? && SubAt(t, k).right.Node? && SubAt(t, k).right.left.Leaf?
    ensures SubAt(t, k).id in n && SubAt(t, k).right.id in n
    ensures var r := SuccessorMoved(root, n, SubAt(t, k).id, SubAt(t, k).right.id);
      Linked(ReplaceAt(t, k, DeleteRoot(SubAt(t, k))), None, r.1) && r.0 == Root(ReplaceAt(t, k, DeleteRoot(SubAt(t, k))))
  {
    var s := SubAt(t, k);
    var p := ParentAt(t, None, k);
    SubAtFacts(t, k);
    SubLinked(t, None, k, n);
    RootReplace(t, k, DeleteRoot(s));
    assert s.right.id in Ids(s.right) && s.left.id in Ids(s.left);
    LinkedIds(t, None, n);
    if p.Some? {
      ParentAtIn(t, None, k);
    }
    MovedChildRecords(root, n, s.id, s.right.id, s.left.id, p);
    ChildLinked(t, k, n, SuccessorMoved(root, n, s.id, s.right.id).1);
  }

  /** The shape-level half of SuccessorChild, for any arena with the records SuccessorMoved produces. */
  lemma ChildLinked<V>(t: Tree<V>, k: int, n: Arena<V>, nf: Arena<V>)
    requires Linked(t, None, n) && Distinct(t) && BST(t)
    requires SubAt(t, k).Node? && SubAt(t, k).left.Node? && SubAt(t, k).right.Node? && SubAt(t, k).right.left.Leaf?
    requires var s, p := SubAt(t, k), ParentAt(t, None, k);
      s.right.id in n && s.left.id in n && (p.Some? ==> p.value in n) &&
      s.right.id in nf && nf[s.right.id] == n[s.right.id].(left := Some(s.left.id), parent := p) &&
      s.left.id in nf && nf[s.left.id] == n[s.left.id].(parent := Some(s.right.id)) &&
      (p.Some? ==> p.value in nf && nf[p.value] == Redirect(n[p.value], Some(s.id), Some(s.right.id))) &&
      forall i :: i in n && i != s.right.id && i != s.left.id && Some(i) != p ==> i in nf && nf[i] == n[i]
    ensures Linked(ReplaceAt(t, k, DeleteRoot(SubAt(t, k))), None, nf)
  {
    var s := SubAt(t, k);
    var Node(L, z, _, _, r) := s;
    var y := r.id;
    var p := ParentAt(t, None, k);
    SubAtFacts(t, k);
    SubLinked(t, None, k, n);
    var s' := DeleteRoot(s);
    assert s' == Node(L, y, r.key, r.value, r.right);
    assert y in Ids(r) && L.id in Ids(L) && Ids(r.right) <= Ids(r) && y !in Ids(r.right);
    if p.Some? {
      ParentAtIn(t, None, k);
      ParentSlot(t, None, k, n, Some(y));
    }
    Reparent(L, Some(z), Some(y), n, nf);
    LinkedFrame(r.right, Some(y), n, nf);
    ReplaceLinked(t, None, k, s', n, nf);
  }

  /** The records SuccessorMoved changes when the successor `y` is the right child of `z`, whose left child is `lid` and parent `p`. */
  lemma MovedChildRecords<V>(root: Option<nat>, n: Arena<V>, z: nat, y: nat, lid: nat, p: Option<nat>)
    requires z in n && y in n && lid in n && z != y && z != lid && y != lid
    requires n[z].left == Some(lid) && n[z].parent == p && n[y].parent == Some(z)
    requires p.Some? ==> p.value in n && p.value != y && p.value != z && p.value != lid
    ensures var r := SuccessorMoved(root, n, z, y);
      r.0 == (if p.None? then Some(y) else root) &&
      r.1[y] == n[y].(left := Some(lid), parent := p) &&
      r.1[lid] == n[lid].(parent := Some(y)) &&
      (p.Some? ==> r.1[p.value] == Redirect(n[p.value], Some(z), Some(y))) &&
      forall i :: i in n && i != y && i != lid && Some(i) != p ==> i in r.1 && r.1[i] == n[i]
  {
  }

  /**
   * Deleting a node whose successor lies deeper in its right subtree: the
   * successor is first replaced by its own right subtree, then takes the
   * node's two subtrees and its place.
   */
  lemma SuccessorDeep<V>(t: Tree<V>, k: int, root: Option<nat>, n: Arena<V>)
    requires Linked(t, None, n) && Distinct(t) && BST(t) && root == Root(t)
    requires SubAt(t, k).Node? && SubAt(t, k).left.Node? && SubAt(t, k).right.Node? && SubAt(t, k).right.left.Node?
    ensures SubAt(t, k).id in n && Min(SubAt(t, k).right).id in n
    ensures var r := SuccessorMoved(root, n, SubAt(t, k).id, Min(SubAt(t, k).right).id);
      Linked(ReplaceAt(t, k, DeleteRoot(SubAt(t, k))), None, r.1) && r.0 == Root(ReplaceAt(t, k, DeleteRoot(SubAt(t, k))))
  {
    var s := SubAt(t, k);
    var Node(L, z, _, _, r) := s;
    var p := ParentAt(t, None, k);
    var m := Min(r);
    var y := m.id;
    var r1 := ReplaceAt(r, m.key, m.right);
    var s1 := Node(L, z, k, s.value, r1);
    var t1 := ReplaceAt(t, m.key, m.right);
    SuccessorPlace(t, k);
    SubLinked(t, None, k, n);
    SubLinked(t, None, m.key, n);
    LinkedIds(t, None, n);
    // splicing the successor out
    TransplantLift(t, m.key, m.right, root, n);
    var a0 := Transplanted(root, n, y, n[y].right);
    ReplaceTwice(t, None, k, s1, DeleteRoot(s));
    SubLinked(t1, None, k, a0.1);
    if p.Some? {
      ParentAtIn(t, None, k);
    }
    SubAtFacts(t, k);
    assert L.id in Ids(L) && Ids(L) !! Ids(r);
    MovedDeepRecords(root, n, z, y, r.id, L.id, p);
    RootReplace(t1, k, DeleteRoot(s));
    DeepLinked(t1, k, a0.1, SuccessorMoved(root, n, z, y).1, y, m.key, m.value);
  }

  /** Where the in-order successor of a node with a deeper successor sits, and the shape once it is spliced out. */
  lemma SuccessorPlace<V>(t: Tree<V>, k: int)
    requires Distinct(t) && BST(t)
    requires SubAt(t, k).Node? && SubAt(t, k).left.Node? && SubAt(t, k).right.Node? && SubAt(t, k).right.left.Node?
    ensures var s := SubAt(t, k); var m := Min(s.right); var q := ParentAt(t, None, m.key);
      var r1 := ReplaceAt(s.right, m.key, m.right);
      SubAt(t, m.key) == m && k < m.key &&
      q == ParentAt(s.right, Some(s.id), m.key) && q.Some? && q.value in Ids(s.right) && q.value != m.id &&
      m.id in Ids(s.right) && s.id !in Ids(s.right) && Ids(m.right) <= Ids(m) && m.id !in Ids(m.right) &&
      s.right.id in Ids(s.right) &&
      ReplaceAt(t, m.key, m.right) == ReplaceAt(t, k, Node(s.left, s.id, k, s.value, r1)) &&
      Root(r1) == Some(s.right.id) &&
      DeleteRoot(s) == Node(s.left, m.id, m.key, m.value, r1) &&
      Distinct(ReplaceAt(t, m.key, m.right)) && Ids(ReplaceAt(t, m.key, m.right)) == Ids(t) - {m.id}
  {
    var s := SubAt(t, k);
    var m := Min(s.right);
    SuccessorPath(t, k);
    SubAtFacts(t, m.key);
    ReplaceIds(t, m.key, m.right);
    CutSlot(Ids(t), Ids(m), Ids(m.right), m.id);
  }

  /** The search for the in-order successor's key passes through the node and its right child and stops at the successor. */
  lemma SuccessorPath<V>(t: Tree<V>, k: int)
    requires Distinct(t) && BST(t)
    requires SubAt(t, k).Node? && SubAt(t, k).right.Node? && SubAt(t, k).right.left.Node?
    ensures var s := SubAt(t, k); var m := Min(s.right);
      SubAt(t, m.key) == m && k < m.key && m.key < s.right.key &&
      ParentAt(t, None, m.key) == ParentAt(s.right, Some(s.id), m.key) &&
      ParentAt(s.right, Some(s.id), m.key).Some? &&
      ParentAt(s.right, Some(s.id), m.key).value in Ids(s.right) &&
      ParentAt(s.right, Some(s.id), m.key).value != m.id &&
      m.id in Ids(s.right) && s.id !in Ids(s.right) && Ids(m.right) <= Ids(m) && m.id !in Ids(m.right) &&
      s.right.id in Ids(s.right) &&
      ReplaceAt(t, m.key, m.right) == ReplaceAt(t, k, ReplaceAt(s, m.key, m.right))
  {
    var s := SubAt(t, k);
    var Node(L, z, _, _, r) := s;
    var m := Min(r);
    SubAtFacts(t, k);
    MinFacts(r);
    MinFacts(r.left);
    assert m.key < r.key;
    assert k < m.key;
    assert m.key in Keys(s);
    PathNested(t, None, k, m.key, m.right);
    ParentAtIn(r, Some(z), m.key);
    SubAtFacts(r, m.key);
  }

  /** The records SuccessorMoved changes when the successor `y` is not a child of `z`, whose children are `lid` and `rid` and whose parent is `p` once `y` is spliced out. */
  lemma MovedDeepRecords<V>(root: Option<nat>, n: Arena<V>, z: nat, y: nat, rid: nat, lid: nat, p: Option<nat>)
    requires z in n && y in n && rid in n && lid in n
    requires z != y && z != rid && z != lid && y != rid && y != lid && rid != lid
    requires n[y].parent.Some? && n[y].parent != Some(z) && n[y].parent.value != y && n[y].right != Some(y)
    requires var a0 := Transplanted(root, n, y, n[y].right);
      a0.1[z].left == Some(lid) && a0.1[z].right == Some(rid) && a0.1[z].parent == p
    requires p.Some? ==> p.value in n && p.value != y && p.value != z && p.value != rid && p.value != lid
    ensures var a0, r := Transplanted(root, n, y, n[y].right), SuccessorMoved(root, n, z, y);
      a0.1[y] == n[y] &&
      r.0 == (if p.None? then Some(y) else a0.0) &&
      r.1[y] == n[y].(left := Some(lid), right := Some(rid), parent := p) &&
      r.1[rid] == a0.1[rid].(parent := Some(y)) &&
      r.1[lid] == a0.1[lid].(parent := Some(y)) &&
      (p.Some? ==> r.1[p.value] == Redirect(a0.1[p.value], Some(z), Some(y))) &&
      forall i :: i in a0.1 && i != y && i != rid && i != lid && Some(i) != p ==> i in r.1 && r.1[i] == a0.1[i]
  {
  }

  /** The shape-level half of SuccessorDeep: with the successor `y` spliced out of `t1`, giving it the records SuccessorMoved produces links the shape with `y` in the deleted node's place. */
  lemma DeepLinked<V>(t1: Tree<V>, k: int, na: Arena<V>, nf: Arena<V>, y: nat, key: int, value: V)
    requires Linked(t1, None, na) && Distinct(t1)
    requires SubAt(t1, k).Node? && SubAt(t1, k).left.Node? && SubAt(t1, k).right.Node? && y !in Ids(t1)
    requires var s1, p := SubAt(t1, k), ParentAt(t1, None, k);
      s1.left.id in na && s1.right.id in na && (p.Some? ==> p.value in na) &&
      y in nf && nf[y] == TreeNode(key, value, Some(s1.left.id), Some(s1.right.id), p) &&
      s1.right.id in nf && nf[s1.right.id] == na[s1.right.id].(parent := Some(y)) &&
      s1.left.id in nf && nf[s1.left.id] == na[s1.left.id].(parent := Some(y)) &&
      (p.Some? ==> p.value in nf && nf[p.value] == Redirect(na[p.value], Some(s1.id), Some(y))) &&
      forall i :: i in na && i != y && i != s1.right.id && i != s1.left.id && Some(i) != p ==> i in nf && nf[i] == na[i]
    ensures Linked(ReplaceAt(t1, k, Node(SubAt(t1, k).left, y, key, value, SubAt(t1, k).right)), None, nf)
  {
    var s1 := SubAt(t1, k);
    var Node(L, z, _, _, R) := s1;
    var p := ParentAt(t1, None, k);
    var s' := Node(L, y, key, value, R);
    SubAtFacts(t1, k);
    SubLinked(t1, None, k, na);
    RootReplace(t1, k, s');
    assert L.id in Ids(L) && R.id in Ids(R);
    if p.Some? {
      ParentAtIn(t1, None, k);
      ParentSlot(t1, None, k, na, Some(y));
    }
    Reparent(L, Some(z), Some(y), na, nf);
    Reparent(R, Some(z), Some(y), na, nf);
    ReplaceLinked(t1, None, k, s', na, nf);
  }

  // ----- Height and balance -----

  /** The height of the subtree whose top record is `node`, following child links. */
  function HeightOf<V>(n: Arena<V>, node: Option<nat>, ghost t: Tree<V>, ghost par: Option<nat>): (h: nat)
    requires Linked(t, par, n) && node == Root(t)
    ensures h == Height(t)
    decreases t
  {
    if node.None? then 0
    else 1 + Max(HeightOf(n, n[node.value].left, t.left, node), HeightOf(n, n[node.value].right, t.right, node))
  }

  /** Whether the subtree whose top record is `node` is balanced, together with its height, in one pass. */
  function BalanceOf<V>(n: Arena<V>, node: Option<nat>, ghost t: Tree<V>, ghost par: Option<nat>): (r: (bool, nat))
    requires Linked(t, par, n) && node == Root(t)
    ensures r.1 == Height(t) && (r.0 <==> Balanced(t))
    decreases t
  {
    if node.None? then
      assert Subtrees(t) == {t};
      (true, 0)
    else
      var left := BalanceOf(n, n[node.value].left, t.left, node);
      var right := BalanceOf(n, n[node.value].right, t.right, node);
      BalancedNode(t);
      (left.0 && right.0 && Abs(left.1 - right.1) <= 1, 1 + Max(left.1, right.1))
  }
}
