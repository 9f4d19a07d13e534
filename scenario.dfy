/**
 * The walk-through of the demo script (`examples/demo.py`) on concrete keys:
 * inserting 5, 2, 8, 1, 3 in that order, searching for 3 and 7, then
 * deleting 2 (a node with two children whose successor is its right child)
 * and, from the resulting tree, 5 (the root). Deleting the absent key 99
 * is added as the one path of `delete` the script does not take. Values
 * are ten times their keys; identities are handed out in insertion order.
 */
module Scenario {
  import opened TreeShape

  /** A node with no children holding `k` and its value. */
  function Single(id: nat, k: int): Tree<int>
  {
    Node(Leaf, id, k, 10 * k, Leaf)
  }

  /** The tree after inserting 5, 2, 8, 1, 3. */
  function Sample(): Tree<int>
  {
    Node(Node(Single(3, 1), 1, 2, 20, Single(4, 3)), 0, 5, 50, Single(2, 8))
  }

  /** The five insertions build Sample: each new key hangs below the last node its search visits. */
  lemma SampleBuilt()
    ensures Put(Put(Put(Put(Put(Leaf, 5, 50, 0), 2, 20, 1), 8, 80, 2), 1, 10, 3), 3, 30, 4) == Sample()
  {
    var t1 := Put(Leaf, 5, 50, 0);
    assert t1 == Single(0, 5);
    var t2 := Put(t1, 2, 20, 1);
    assert t2 == Node(Single(1, 2), 0, 5, 50, Leaf);
    var t3 := Put(t2, 8, 80, 2);
    assert t3 == Node(Single(1, 2), 0, 5, 50, Single(2, 8));
    var t4 := Put(t3, 1, 10, 3);
    assert t4 == Node(Node(Single(3, 1), 1, 2, 20, Leaf), 0, 5, 50, Single(2, 8));
  }

  /** Five entries and height 3: the left subtree of 5 is one level deeper than the right one. */
  lemma SampleQueries()
    ensures Count(Sample()) == 5 && Height(Sample()) == 3
  {
    assert Height(Sample().left) == 2;
  }

  /** The sample tree is balanced: its subtree heights differ by at most one at every node. */
  lemma SampleBalanced()
    ensures Balanced(Sample())
  {
    var a, b, c := Single(3, 1), Single(4, 3), Single(2, 8);
    var d := Node(a, 1, 2, 20, b);
    assert Subtrees<int>(Leaf) == {Leaf};
    assert Balanced<int>(Leaf);
    BalancedNode(a);
    BalancedNode(b);
    BalancedNode(c);
    assert Balanced(a) && Balanced(b) && Balanced(c);
    assert Height(d) == 2;
    BalancedNode(d);
    assert Balanced(d);
    BalancedNode(Sample());
  }

  /** Deleting 2 moves its successor 3 into its place; 3 keeps its value and four entries remain. */
  lemma DeleteTwo()
    ensures Remove(Sample(), 2) == AfterTwo()
    ensures Keys(Remove(Sample(), 2)) == {1, 3, 5, 8} && Count(Remove(Sample(), 2)) == 4
    ensures SubAt(Remove(Sample(), 2), 3).value == 30
  {
    var t := Sample();
    assert SubAt(t, 2) == t.left;
    assert Min(t.left.right) == Single(4, 3);
  }

  /** Searching finds 3 with its value and does not find 7. */
  lemma SampleSearch()
    ensures 3 in Map(Sample()) && Map(Sample())[3] == 30
    ensures 7 !in Map(Sample())
  {
  }

  /** The tree left after deleting 2. */
  function AfterTwo(): Tree<int>
  {
    Node(Node(Single(3, 1), 4, 3, 30, Leaf), 0, 5, 50, Single(2, 8))
  }

  /** The tree left after deleting 2 and then 5. */
  function AfterFive(): Tree<int>
  {
    Node(Node(Single(3, 1), 4, 3, 30, Leaf), 2, 8, 80, Leaf)
  }

  /** Deleting 5 from AfterTwo: its right child 8 has no left child, so 8 is the successor and takes its place. */
  lemma RemoveFive()
    ensures Remove(AfterTwo(), 5) == AfterFive()
  {
    var t := AfterTwo();
    assert SubAt(t, 5) == t;
    assert Min(t.right) == t.right;
    assert ReplaceAt(t.right, 8, Leaf) == Leaf;
  }

  /** The three remaining keys stand in a chain of height 3. */
  lemma AfterFiveSize()
    ensures Count(AfterFive()) == 3 && Height(AfterFive()) == 3
  {
    assert Height(AfterFive().left) == 2;
  }

  /** That chain is no longer balanced: at 8 the left subtree is two levels deeper than the empty right one. */
  lemma AfterFiveUnbalanced()
    ensures !Balanced(AfterFive())
  {
    var t' := AfterFive();
    assert Height(t'.left.left) == 1;
    assert Height(t'.left) == 2;
    assert !HeightsClose(t');
    assert t' in Subtrees(t');
  }

  /** Then deleting the root 5: the minimum of its right subtree, 8, has no left child and takes its place. */
  lemma DeleteRoot5()
    ensures Remove(Remove(Sample(), 2), 5) == Node(Node(Single(3, 1), 4, 3, 30, Leaf), 2, 8, 80, Leaf)
    ensures Count(Remove(Remove(Sample(), 2), 5)) == 3
    ensures Height(Remove(Remove(Sample(), 2), 5)) == 3 && !Balanced(Remove(Remove(Sample(), 2), 5))
  {
    DeleteTwo();
    RemoveFive();
    AfterFiveSize();
    AfterFiveUnbalanced();
  }

  /** Deleting an absent key leaves the tree as it was. */
  lemma DeleteAbsent()
    ensures Remove(Sample(), 99) == Sample()
  {
    assert SubAt(Sample(), 99).Leaf?;
  }
}
