/**
 * The mutable binary search tree: a root link, the arena of node records,
 * a size counter and, as ghost state, the shape the arena represents.
 * Insertion and search walk down from the root; deletion replaces a node
 * by its only child or by its in-order successor through transplanting.
 */
module BinarySearchTrees {
  import opened Wrappers
  import opened TreeShape
  import opened TreeNodes

  /** Every identity in `t` is below `b`. */
  ghost predicate Below<V>(t: Tree<V>, b: nat)
  {
    match t
    case Leaf => true
    case Node(l, id, _, _, r) => id < b && Below(l, b) && Below(r, b)
  }

  lemma {:induction false} BelowIds<V>(t: Tree<V>, b: nat)
    ensures Below(t, b) <==> forall i :: i in Ids(t) ==> i < b
  {
    match t
    case Leaf =>
    case Node(l, id, _, _, r) =>
      BelowIds(l, b);
      BelowIds(r, b);
      assert Ids(t) == Ids(l) + {id} + Ids(r);
      if forall i :: i in Ids(t) ==> i < b {
        assert id in Ids(t);
      }
  }

  /** The arena represents `t`, and every identity in use is below `nextId`. */
  ghost predicate Allocated<V>(t: Tree<V>, root: Option<nat>, n: Arena<V>, nextId: nat)
  {
    Represents(t, root, n) && Below(t, nextId)
  }

  /** A tree whose identities come from those of a tree below `b`, plus possibly `b`, is below `b + 1`. */
  lemma BelowGrow<V>(t: Tree<V>, t': Tree<V>, b: nat)
    requires Below(t, b) && Ids(t') <= Ids(t) + {b}
    ensures b !in Ids(t) && Below(t', b + 1)
  {
    BelowIds(t, b);
    BelowIds(t', b + 1);
  }

  /** A tree whose identities come from those of a tree below `b` is below `b` too. */
  lemma BelowKeep<V>(t: Tree<V>, t': Tree<V>, b: nat)
    requires Below(t, b) && Ids(t') <= Ids(t)
    ensures Below(t', b)
  {
    BelowIds(t, b);
    BelowIds(t', b);
  }

  /** Inserting into the empty tree plants a single record, which becomes the root. */
  lemma PlantAllocated<V>(t: Tree<V>, root: Option<nat>, n: Arena<V>, nextId: nat, k: int, v: V)
    requires Allocated(t, root, n, nextId) && root.None?
    ensures nextId !in n && k !in Map(t) && ParentAt(t, None, k) == None
    ensures Allocated(Put(t, k, v, nextId), Some(nextId), n[nextId := TreeNode(k, v, None, None, None)], nextId + 1)
    ensures Map(Put(t, k, v, nextId)) == Map(t)[k := v]
  {
    PlantRecord(t, root, n, k, v, nextId);
    BelowGrow(t, Put(t, k, v, nextId), nextId);
  }

  /** Inserting an absent key as a new leaf below `j` keeps the arena allocated and adds exactly one record. */
  lemma GraftAllocated<V>(t: Tree<V>, root: Option<nat>, n: Arena<V>, nextId: nat, k: int, v: V, j: nat)
    requires Allocated(t, root, n, nextId) && SubAt(t, k).Leaf? && ParentAt(t, None, k) == Some(j) && j in n
    ensures nextId !in n && k !in Map(t)
    ensures Allocated(Put(t, k, v, nextId), root, n[nextId := TreeNode(k, v, None, None, Some(j))][j := Attach(n[j], k, Some(nextId))], nextId + 1)
    ensures |n[nextId := TreeNode(k, v, None, None, Some(j))][j := Attach(n[j], k, Some(nextId))]| == |n| + 1
    ensures Map(Put(t, k, v, nextId)) == Map(t)[k := v]
  {
    BelowGrow(t, t, nextId);
    GraftRecord(t, root, n, k, v, nextId, j);
    SubAtFacts(t, k);
    PutCorrect(t, k, v, nextId);
    BelowGrow(t, Put(t, k, v, nextId), nextId);
  }

  /** Overwriting the value of record `z` keeps the arena allocated and its identities. */
  lemma UpdateAllocated<V>(t: Tree<V>, root: Option<nat>, n: Arena<V>, nextId: nat, z: nat, v: V)
    requires Allocated(t, root, n, nextId) && z in n
    ensures Root(SubAt(t, n[z].key)) == Some(z) && n[z].key in Map(t)
    ensures Allocated(Put(t, n[z].key, v, z), root, n[z := n[z].(value := v)], nextId)
    ensures Map(Put(t, n[z].key, v, z)) == Map(t)[n[z].key := v]
  {
    UpdateRecord(t, root, n, z, v, z);
    IdAt(t, None, n, z);
    SubAtFacts(t, n[z].key);
    UpdateCorrect(t, n[z].key, v);
    BelowKeep(t, Put(t, n[z].key, v, z), nextId);
  }

  /** Map algebra: removing an unbound key changes nothing. */
  lemma RemoveAbsent<V>(m: map<int, V>, k: int)
    requires k !in m
    ensures m - {k} == m
  {
  }

  /** Dropping one record from an arena leaves one record fewer. */
  lemma DropCount<V>(n: Arena<V>, n': Arena<V>, z: nat)
    requires z in n && n'.Keys == n.Keys - {z}
    ensures |n'| == |n| - 1
  {
    assert |n'.Keys| == |n.Keys - {z}|;
  }

  class BinarySearchTree<V> {
    var root: Option<nat>
    var nodes: Arena<V>
    var size: int
    /** Identities not yet given to a record; stands in for allocating a fresh node object. */
    var nextId: nat
    ghost var shape: Tree<V>

    /** The arena represents the shape, and every identity in use was handed out before. */
    ghost predicate Linkage()
      reads this`root, this`nodes, this`nextId, this`shape
    {
      Allocated(shape, root, nodes, nextId)
    }

    /** The class invariant: linked, and the size counter equals the number of nodes. */
    ghost predicate Valid()
      reads this
    {
      Linkage() && size == |nodes|
    }

    /** The key-to-value bindings the tree holds. */
    ghost function Contents(): map<int, V>
      reads this`shape
    {
      Map(shape)
    }

    /** An empty tree. */
    constructor()
      ensures Valid() && Contents() == map[] && size == 0
    {
      root := None;
      nodes := map[];
      size := 0;
      nextId := 0;
      shape := Leaf;
    }

    /** The node holding `key`, found by walking down from the root; None when the key is absent. */
    method FindNode(key: int) returns (node: Option<nat>)
      requires Valid()
      ensures node == Root(SubAt(shape, key))
      ensures node.Some? <==> key in Contents()
      ensures node.Some? ==> node.value in nodes && nodes[node.value].key == key && nodes[node.value].value == Contents()[key]
    {
      SubAtFacts(shape, key);
      ghost var sub, sp := shape, None;
      node := root;
      while node.Some?
        invariant node == Root(sub) && Linked(sub, sp, nodes)
        invariant SubAt(shape, key) == SubAt(sub, key)
        decreases sub
      {
        var rec := nodes[node.value];
        if key == rec.key {
          return;
        }
        sp := node;
        if key < rec.key {
          node, sub := rec.left, sub.left;
        } else {
          node, sub := rec.right, sub.right;
        }
      }
    }

    /** The value bound to `key`, or None; the tree is not changed. */
    method Search(key: int) returns (r: Option<V>)
      requires Valid()
      ensures r == if key in Contents() then Some(Contents()[key]) else None
    {
      var node := FindNode(key);
      r := if node.Some? then Some(nodes[node.value].value) else None;
    }

    /** The first node of an empty tree becomes its root. */
    method Plant(key: int, value: V) returns (node: nat)
      requires Valid() && root.None?
      modifies this
      ensures Valid() && Contents() == old(Contents())[key := value] && key !in old(Contents())
      ensures size == old(size) + 1 && root == Some(node)
      ensures node !in old(nodes) && nodes.Keys == old(nodes.Keys) + {node}
      ensures nodes[node] == TreeNode(key, value, None, None, None) && old(ParentAt(shape, None, key)) == None
      ensures shape == Put(old(shape), key, value, node)
    {
      ghost var t0, n0 := shape, nodes;
      node := nextId;
      root, nodes, size, nextId, shape := Some(node), nodes[node := TreeNode(key, value, None, None, None)], 1, nextId + 1, Put(shape, key, value, node);
      PlantAllocated(t0, None, n0, node, key, value);
    }

    /** Overwrites the value of the node `z` that holds `key`. */
    method Overwrite(z: nat, key: int, value: V)
      requires Valid() && z in nodes && nodes[z].key == key
      modifies this
      ensures Valid() && Contents() == old(Contents())[key := value] && key in old(Contents())
      ensures size == old(size) && old(Root(SubAt(shape, key))) == Some(z)
      ensures nodes == old(nodes)[z := old(nodes)[z].(value := value)]
      ensures shape == Put(old(shape), key, value, z)
    {
      ghost var t0, n0 := shape, nodes;
      nodes, shape := nodes[z := nodes[z].(value := value)], Put(shape, key, value, z);
      UpdateAllocated(t0, root, n0, nextId, z, value);
    }

    /** Hanging a new leaf `id` below `j`, where the search for `k` ends, re-establishes the invariant. */
    lemma GraftedValid(t: Tree<V>, r: Option<nat>, n: Arena<V>, id: nat, k: int, v: V, j: nat)
      requires Allocated(t, r, n, id) && SubAt(t, k).Leaf? && ParentAt(t, None, k) == Some(j) && j in n
      requires size == |n| + 1
      requires shape == Put(t, k, v, id) && root == r && nextId == id + 1
      requires nodes == n[id := TreeNode(k, v, None, None, Some(j))][j := Attach(n[j], k, Some(id))]
      ensures Valid() && Contents() == Map(t)[k := v] && k !in Map(t)
      ensures id !in n && nodes.Keys == n.Keys + {id}
    {
      GraftAllocated(t, r, n, id, k, v, j);
    }

    /** Hangs a new leaf for `key` in the empty child slot of `j` where the search for `key` ends. */
    method HangLeaf(j: nat, key: int, value: V) returns (node: nat)
      requires Valid() && j in nodes && SubAt(shape, key).Leaf? && ParentAt(shape, None, key) == Some(j)
      modifies this
      ensures Valid() && Contents() == old(Contents())[key := value] && key !in old(Contents())
      ensures size == old(size) + 1
      ensures node !in old(nodes) && nodes.Keys == old(nodes.Keys) + {node}
      ensures nodes[node] == TreeNode(key, value, None, None, Some(j))
      ensures nodes[j] == Attach(old(nodes)[j], key, Some(node))
      ensures shape == Put(old(shape), key, value, node)
    {
      ghost var t0, n0 := shape, nodes;
      node := nextId;
      nodes, size, nextId, shape := nodes[node := TreeNode(key, value, None, None, Some(j))][j := Attach(nodes[j], key, Some(node))], size + 1, nextId + 1, Put(shape, key, value, node);
      GraftedValid(t0, root, n0, node, key, value, j);
    }

    /**
     * The walk of `insert` down from a non-empty root: it stops at the node
     * holding `key`, or at the node whose empty child slot is where `key`
     * belongs.
     */
    method WalkDown(key: int) returns (current: nat)
      requires Valid() && root.Some?
      ensures current in nodes
      ensures key == nodes[current].key <==> key in Contents()
      ensures key == nodes[current].key ==> Root(SubAt(shape, key)) == Some(current)
      ensures key != nodes[current].key ==> SubAt(shape, key).Leaf? && ParentAt(shape, None, key) == Some(current)
    {
      SubAtFacts(shape, key);
      current := root.value;
      ghost var sub, sp := shape, None;
      while true
        invariant sub.Node? && current == sub.id && Linked(sub, sp, nodes)
        invariant SubAt(shape, key) == SubAt(sub, key) && ParentAt(shape, None, key) == ParentAt(sub, sp, key)
        decreases sub
      {
        var rec := nodes[current];
        if key == rec.key {
          return;
        }
        var next := if key < rec.key then rec.left else rec.right;
        if next.None? {
          return;
        }
        sp, current, sub := Some(current), next.value, if key < rec.key then sub.left else sub.right;
      }
    }

    /**
     * Binds `key` to `value` and returns the node holding it: the value of an
     * existing node is overwritten; otherwise a new leaf is hung below the last
     * node the walk down from the root visits (or becomes the root).
     */
    method Insert(key: int, value: V) returns (node: nat)
      requires Valid()
      modifies this
      ensures Valid()
      ensures Contents() == old(Contents())[key := value]
      ensures size == if key in old(Contents()) then old(size) else old(size) + 1
      ensures node in nodes && nodes[node].key == key && nodes[node].value == value
      ensures key in old(Contents()) ==>
        Some(node) == old(Root(SubAt(shape, key))) && node in old(nodes) &&
        nodes == old(nodes)[node := old(nodes)[node].(value := value)]
      ensures key !in old(Contents()) ==>
        node !in old(nodes) && nodes.Keys == old(nodes.Keys) + {node} &&
        nodes[node] == TreeNode(key, value, None, None, old(ParentAt(shape, None, key)))
      ensures shape == Put(old(shape), key, value, node)
    {
      if root.None? {
        node := Plant(key, value);
        return;
      }
      var current := WalkDown(key);
      if key == nodes[current].key {
        Overwrite(current, key, value);
        return current;
      }
      node := HangLeaf(current, key, value);
    }

    /**
     * Puts node `v` (or nothing) in the place of node `u`: in the root link
     * when `u` has no parent, otherwise in the child slot of `u`'s parent
     * that holds `u`; then `v`'s parent becomes `u`'s parent.
     */
    method Transplant(u: nat, v: Option<nat>)
      requires u in nodes
      modifies this
      ensures (root, nodes) == Transplanted(old(root), old(nodes), u, v)
      ensures size == old(size) && nextId == old(nextId) && shape == old(shape)
    {
      var p := nodes[u].parent;
      if p.None? {
        root := v;
      } else if p.value in nodes {
        var rec := nodes[p.value];
        if rec.left == Some(u) {
          nodes := nodes[p.value := rec.(left := v)];
        } else {
          nodes := nodes[p.value := rec.(right := v)];
        }
      }
      if v.Some? && v.value in nodes {
        nodes := nodes[v.value := nodes[v.value].(parent := p)];
      }
    }

    /**
     * Moves node `y`, the in-order successor of `z`, into the place of `z`:
     * unless `y` is `z`'s right child, `y` is first replaced by its right
     * child and takes over `z`'s right subtree; then `y` takes `z`'s place
     * and `z`'s left subtree.
     */
    method MoveSuccessor(z: nat, y: nat)
      requires z in nodes && y in nodes
      modifies this
      ensures (root, nodes) == SuccessorMoved(old(root), old(nodes), z, y)
      ensures size == old(size) && nextId == old(nextId) && shape == old(shape)
    {
      if nodes[y].parent != Some(z) {
        Transplant(y, nodes[y].right);
        nodes := nodes[y := nodes[y].(right := nodes[z].right)];
        var r := nodes[y].right;
        if r.Some? && r.value in nodes {
          nodes := nodes[r.value := nodes[r.value].(parent := Some(y))];
        }
      }
      Transplant(z, Some(y));
      nodes := nodes[y := nodes[y].(left := nodes[z].left)];
      var l := nodes[y].left;
      if l.Some? && l.value in nodes {
        nodes := nodes[l.value := nodes[l.value].(parent := Some(y))];
      }
    }

    /**
     * The node with the smallest key below `x`, found by following left
     * links: the top of Min of the subtree `s` that `x` tops, which has no
     * left child.
     */
    method Minimum(x: nat, ghost s: Tree<V>, ghost sp: Option<nat>) returns (m: nat)
      requires Linked(s, sp, nodes) && Root(s) == Some(x)
      ensures m == Min(s).id && m in nodes && nodes[m].left.None?
      ensures nodes[m].key == Min(s).key && nodes[m].value == Min(s).value
      ensures BST(s) ==> nodes[m].key in Keys(s) && forall k :: k in Keys(s) ==> nodes[m].key <= k
    {
      if BST(s) {
        MinFacts(s);
      }
      m := x;
      ghost var sub, p := s, sp;
      while nodes[m].left.Some?
        invariant sub.Node? && m == sub.id && Linked(sub, p, nodes) && Min(sub) == Min(s)
        decreases sub
      {
        p, m, sub := Some(m), nodes[m].left.value, sub.left;
      }
    }

    /** The arena and root left by deleting node `z`, with successor `succ`, re-establish the linkage for the shape with `z`'s key removed. */
    lemma DeletedLinkage(t: Tree<V>, r: Option<nat>, n: Arena<V>, z: nat, succ: nat)
      requires Allocated(t, r, n, nextId) && z in n
      requires n[z].left.Some? && n[z].right.Some? ==>
        succ in n && SubAt(t, n[z].key).Node? && SubAt(t, n[z].key).right.Node? && succ == Min(SubAt(t, n[z].key).right).id
      requires (root, nodes) == Deleted(r, n, z, succ) && shape == Remove(t, n[z].key)
      ensures Linkage() && Contents() == Map(t) - {n[z].key} && n[z].key in Map(t)
    {
      IdAt(t, None, n, z);
      SubLinked(t, None, n[z].key, n);
      DeleteCorrect(t, r, n, z, succ);
      SubAtFacts(t, n[z].key);
      RemoveCorrect(t, n[z].key);
      BelowKeep(t, shape, nextId);
    }

    /**
     * Unlinks node `z` from the tree: a node missing a child is replaced by
     * its other child; otherwise its in-order successor, the minimum of its
     * right subtree, takes its place. The record of `z` leaves the arena.
     */
    method DeleteNode(z: nat)
      requires Linkage() && z in nodes
      modifies this
      ensures Linkage() && nodes.Keys == old(nodes.Keys) - {z}
      ensures old(nodes)[z].key in old(Contents()) && Contents() == old(Contents()) - {old(nodes)[z].key}
      ensures shape == Remove(old(shape), old(nodes)[z].key)
      ensures size == old(size) && nextId == old(nextId)
    {
      ghost var t0, r0, n0 := shape, root, nodes;
      ghost var k := nodes[z].key;
      ghost var succ := z;
      if nodes[z].left.None? {
        Transplant(z, nodes[z].right);
      } else if nodes[z].right.None? {
        Transplant(z, nodes[z].left);
      } else {
        IdAt(t0, None, n0, z);
        SubLinked(t0, None, k, n0);
        var y := Minimum(nodes[z].right.value, SubAt(t0, k).right, Some(z));
        succ := y;
        MoveSuccessor(z, y);
      }
      nodes, shape := nodes - {z}, Remove(shape, k);
      DeletedLinkage(t0, r0, n0, z, succ);
    }

    /** Removes `key` and its value, reporting whether it was bound; an absent key leaves the tree as it was. */
    method Delete(key: int) returns (found: bool)
      requires Valid()
      modifies this
      ensures Valid() && found == (key in old(Contents()))
      ensures Contents() == old(Contents()) - {key}
      ensures size == if found then old(size) - 1 else old(size)
      ensures !found ==> root == old(root) && nodes == old(nodes) && shape == old(shape)
      ensures found ==> shape == Remove(old(shape), key)
    {
      var node := FindNode(key);
      if node.None? {
        RemoveAbsent(Contents(), key);
        return false;
      }
      ghost var n0 := nodes;
      size := size - 1;
      DeleteNode(node.value);
      DropCount(n0, nodes, node.value);
      found := true;
    }

    /** In a valid tree every child names its parent and every parent holds its child. */
    lemma LinksAgree()
      requires Valid()
      ensures Consistent(nodes)
    {
      LinkedConsistent(shape, nodes);
    }

    /** The number of bindings, kept in the size counter. */
    function Len(): (n: int)
      reads this
      requires Valid()
      ensures n == |Contents()|
    {
      IdsCount(shape);
      KeysCount(shape);
      size
    }

    /** The number of nodes on the longest path down from the root. */
    function Height(): (h: nat)
      reads this
      requires Valid()
      ensures h == TreeShape.Height(shape)
      ensures h == 0 <==> |Contents()| == 0
      ensures h <= |Contents()|
    {
      HeightBounds(shape);
      KeysCount(shape);
      HeightOf(nodes, root, shape, None)
    }

    /** Whether at every node the heights of the two subtrees differ by at most one. */
    function IsBalanced(): (b: bool)
      reads this
      requires Valid()
      ensures b <==> Balanced(shape)
    {
      BalanceOf(nodes, root, shape, None).0
    }
  }
}
