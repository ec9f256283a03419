/**
 * The unbalanced binary search tree of src/implementations/binary_unbalanced.rs:
 * a node holds a value, how many times it was inserted, and optional left and
 * right subtrees; equal insertions collapse onto one node.
 *
 * `Bst` is the value of a subtree and carries the specification;
 * `NodeBinaryUnbalanced` is the node object that `insert` updates in place.
 */
module BinaryUnbalanced {
  import opened Wrappers
  import opened Text
  import Node

  datatype Bst = Bst(val: int, count: nat, left: Option<Bst>, right: Option<Bst>)
  {
    /** `new`: a single node holding `v` once. */
    static function New(v: int): (r: Bst)
      ensures r.Values() == {v} && r.NodeCount() == 1
    {
      Bst(v, 1, None, None)
    }

    /** Every value stored in the subtree, once for each time it was inserted. */
    ghost function Contents(): multiset<int>
    {
      multiset{}[val := count]
        + (if left.Some? then left.value.Contents() else multiset{})
        + (if right.Some? then right.value.Contents() else multiset{})
    }

    /** The values stored in the subtree. */
    ghost function Values(): set<int>
    {
      {val}
        + (if left.Some? then left.value.Values() else {})
        + (if right.Some? then right.value.Values() else {})
    }

    /** The number of nodes of the subtree. */
    function NodeCount(): nat
    {
      1
        + (if left.Some? then left.value.NodeCount() else 0)
        + (if right.Some? then right.value.NodeCount() else 0)
    }

    /** The values of the nodes, left subtree first: the in-order traversal. */
    function InOrder(): seq<int>
    {
      (if left.Some? then left.value.InOrder() else [])
        + [val]
        + (if right.Some? then right.value.InOrder() else [])
    }

    /** The search-tree invariant: every value on the left is smaller, every value on the right larger. */
    ghost predicate Ordered()
    {
      && (left.Some? ==> (forall x :: x in left.value.Values() ==> x < val) && left.value.Ordered())
      && (right.Some? ==> (forall x :: x in right.value.Values() ==> val < x) && right.value.Ordered())
    }

    /** The tree with every count erased: where each value sits, and nothing else. */
    function Shape(): (r: Bst)
      ensures r.NodeCount() == NodeCount() && r.InOrder() == InOrder()
    {
      Bst(val, 0,
          if left.Some? then Some(left.value.Shape()) else None,
          if right.Some? then Some(right.value.Shape()) else None)
    }

    /** Every node was inserted at least once. */
    ghost predicate Counted()
    {
      && count >= 1
      && (left.Some? ==> left.value.Counted())
      && (right.Some? ==> right.value.Counted())
    }

    /**
     * `insert`: a smaller value goes into the left subtree, a larger one into
     * the right subtree, a missing subtree becoming a new leaf; an equal value
     * increments this node's count.  The stored values gain `v`.
     */
    function Insert(v: int): (r: Bst)
      ensures r.Values() == Values() + {v}
    {
      if v < val then
        match left
        case None => this.(left := Some(New(v)))
        case Some(l) => this.(left := Some(l.Insert(v)))
      else if v == val then
        this.(count := count + 1)
      else
        match right
        case None => this.(right := Some(New(v)))
        case Some(r) => this.(right := Some(r.Insert(v)))
    }

    /** `value`: the stored value. */
    function Value(): (v: int)
      ensures v in Values()
    {
      val
    }

    /** `children`: the left subtree, then the right one, each only when present. */
    function Children(): (r: seq<Bst>)
      ensures forall i :: 0 <= i < |r| ==> r[i].Values() <= Values() && r[i].NodeCount() < NodeCount()
    {
      (if left.Some? then [left.value] else []) + (if right.Some? then [right.value] else [])
    }

    /** The projection onto the common node contract: the value as decimal text and the children in order. */
    function AsTree(): (r: Node.Tree)
      ensures r.value == IntToString(val) && |r.children| == |Children()|
    {
      Node.Tree(IntToString(val),
        (if left.Some? then [left.value.AsTree()] else []) + (if right.Some? then [right.value.AsTree()] else []))
    }
  }

  // ---------------------------------------------------------------- properties of insert

  /** Every insertion stores exactly one more occurrence of the inserted value. */
  lemma {:induction false} InsertContents(b: Bst, v: int)
    ensures b.Insert(v).Contents() == b.Contents() + multiset{v}
    decreases b
  {
    if v < b.val {
      if b.left.Some? {
        InsertContents(b.left.value, v);
      }
    } else if v == b.val {
      assert multiset{}[v := b.count + 1] == multiset{}[v := b.count] + multiset{v};
    } else {
      if b.right.Some? {
        InsertContents(b.right.value, v);
      }
    }
  }

  /** Inserting keeps the search-tree invariant. */
  lemma {:induction false} InsertKeepsOrdered(b: Bst, v: int)
    requires b.Ordered()
    ensures b.Insert(v).Ordered()
    decreases b
  {
    if v < b.val && b.left.Some? {
      InsertKeepsOrdered(b.left.value, v);
    } else if v > b.val && b.right.Some? {
      InsertKeepsOrdered(b.right.value, v);
    }
  }

  /** Inserting keeps every count positive. */
  lemma {:induction false} InsertKeepsCounted(b: Bst, v: int)
    requires b.Counted()
    ensures b.Insert(v).Counted()
    decreases b
  {
    if v < b.val && b.left.Some? {
      InsertKeepsCounted(b.left.value, v);
    } else if v > b.val && b.right.Some? {
      InsertKeepsCounted(b.right.value, v);
    }
  }

  /** In a search tree, a node is added exactly when the value was not stored yet. */
  lemma {:induction false} InsertNodeCount(b: Bst, v: int)
    requires b.Ordered()
    ensures b.Insert(v).NodeCount() == b.NodeCount() + (if v in b.Values() then 0 else 1)
    decreases b
  {
    if v < b.val && b.left.Some? {
      InsertNodeCount(b.left.value, v);
      assert v in b.Values() <==> v in b.left.value.Values();
    } else if v > b.val && b.right.Some? {
      InsertNodeCount(b.right.value, v);
      assert v in b.Values() <==> v in b.right.value.Values();
    }
  }

  /** The sum of all counts grows by exactly one with every insertion. */
  lemma {:induction false} InsertTotalCount(b: Bst, v: int)
    ensures |b.Insert(v).Contents()| == |b.Contents()| + 1
  {
    InsertContents(b, v);
  }

  /** An equal value changes only the count of the node that holds it: the shape stays as it was. */
  lemma {:induction false} InsertEqualOnlyCounts(b: Bst, v: int)
    requires b.Ordered() && v in b.Values()
    ensures b.Insert(v).Shape() == b.Shape()
    ensures b.Insert(v).NodeCount() == b.NodeCount()
    ensures b.Insert(v).InOrder() == b.InOrder()
    decreases b
  {
    InsertNodeCount(b, v);
    if v < b.val {
      assert v in b.left.value.Values();
      InsertEqualOnlyCounts(b.left.value, v);
    } else if v > b.val {
      assert v in b.right.value.Values();
      InsertEqualOnlyCounts(b.right.value, v);
    }
  }

  // ---------------------------------------------------------------- the search-tree invariant

  /** The in-order traversal lists each stored value once. */
  lemma {:induction false} InOrderValues(b: Bst)
    ensures |b.InOrder()| == b.NodeCount()
    ensures forall x :: x in b.InOrder() <==> x in b.Values()
    decreases b
  {
    if b.left.Some? {
      InOrderValues(b.left.value);
    }
    if b.right.Some? {
      InOrderValues(b.right.value);
    }
  }

  predicate StrictlyIncreasing(s: seq<int>)
  {
    forall i, j :: 0 <= i < j < |s| ==> s[i] < s[j]
  }

  /** Joining two increasing runs around a separating value gives an increasing run. */
  lemma {:induction false} JoinIncreasing(l: seq<int>, v: int, r: seq<int>)
    requires StrictlyIncreasing(l) && StrictlyIncreasing(r)
    requires forall i :: 0 <= i < |l| ==> l[i] < v
    requires forall i :: 0 <= i < |r| ==> v < r[i]
    ensures StrictlyIncreasing(l + [v] + r)
  {
    var s := l + [v] + r;
    forall i, j | 0 <= i < j < |s|
      ensures s[i] < s[j]
    {
      if j < |l| {
        assert s[i] == l[i] && s[j] == l[j];
      } else if j == |l| {
        assert s[i] == l[i];
      } else if i < |l| {
        assert s[i] == l[i] && s[j] == r[j - |l| - 1];
      } else if i == |l| {
        assert s[j] == r[j - |l| - 1];
      } else {
        assert s[i] == r[i - |l| - 1] && s[j] == r[j - |l| - 1];
      }
    }
  }

  /** In a search tree the in-order traversal is strictly increasing. */
  lemma {:induction false} InOrderSorted(b: Bst)
    requires b.Ordered()
    ensures StrictlyIncreasing(b.InOrder())
    decreases b
  {
    var l := if b.left.Some? then b.left.value.InOrder() else [];
    var r := if b.right.Some? then b.right.value.InOrder() else [];
    if b.left.Some? {
      InOrderSorted(b.left.value);
      InOrderValues(b.left.value);
      assert forall i :: 0 <= i < |l| ==> l[i] in b.left.value.Values();
    }
    if b.right.Some? {
      InOrderSorted(b.right.value);
      InOrderValues(b.right.value);
      assert forall i :: 0 <= i < |r| ==> r[i] in b.right.value.Values();
    }
    JoinIncreasing(l, b.val, r);
  }

  lemma {:induction false} StrictlyIncreasingDistinct(s: seq<int>)
    requires StrictlyIncreasing(s)
    ensures |set x | x in s| == |s|
  {
    if s != [] {
      var t := s[1..];
      StrictlyIncreasingDistinct(t);
      assert (set x | x in s) == {s[0]} + (set x | x in t);
      assert s[0] !in (set x | x in t);
    }
  }

  /** In a search tree the nodes hold distinct values: there are as many nodes as distinct values. */
  lemma {:induction false} DistinctValues(b: Bst)
    requires b.Ordered()
    ensures |b.Values()| == b.NodeCount()
  {
    InOrderSorted(b);
    InOrderValues(b);
    StrictlyIncreasingDistinct(b.InOrder());
    var inOrder := set x | x in b.InOrder();
    forall x
      ensures x in inOrder <==> x in b.Values()
    {
    }
    assert inOrder == b.Values();
  }

  /** With every count positive, a value is stored exactly when it occurs in the contents. */
  lemma {:induction false} ValuesAreContents(b: Bst)
    requires b.Counted()
    ensures forall x :: x in b.Values() <==> x in b.Contents()
    decreases b
  {
    if b.left.Some? {
      ValuesAreContents(b.left.value);
    }
    if b.right.Some? {
      ValuesAreContents(b.right.value);
    }
  }

  // ---------------------------------------------------------------- the node contract

  /** `children` yields at most two subtrees, the left one first, as the projection draws them. */
  lemma {:induction false} ChildrenShape(b: Bst)
    ensures |b.Children()| <= 2
    ensures |b.Children()| == (if b.left.Some? then 1 else 0) + (if b.right.Some? then 1 else 0)
    ensures b.left.Some? ==> b.Children()[0] == b.left.value
    ensures b.right.Some? ==> b.Children()[|b.Children()| - 1] == b.right.value
    ensures b.AsTree().value == IntToString(b.Value())
    ensures |b.AsTree().children| == |b.Children()|
    ensures forall i :: 0 <= i < |b.Children()| ==> b.AsTree().children[i] == b.Children()[i].AsTree()
  {
  }

  /** The value text of a node reads back as the stored value. */
  lemma {:induction false} ValueTextRoundTrip(b: Bst)
    ensures var s := b.AsTree().value; s != [] && (s[0] == '-' ==> IsDigits(s[1..])) && (s[0] != '-' ==> IsDigits(s))
    ensures ParseInt(b.AsTree().value) == b.val
  {
    ParseIntToString(b.val);
  }

  /** The rendered tree has a line for every node: `count_descendents` is the node count minus one. */
  lemma {:induction false} DescendentsAreNodesMinusOne(b: Bst)
    ensures Node.CountDescendents(b.AsTree()) + 1 == b.NodeCount()
    decreases b
  {
    var t := b.AsTree();
    if b.left.Some? {
      DescendentsAreNodesMinusOne(b.left.value);
    }
    if b.right.Some? {
      DescendentsAreNodesMinusOne(b.right.value);
    }
    var n := |t.children|;
    assert Node.DescendentsFrom(t, n) == 0;
    if n == 2 {
      assert Node.DescendentsFrom(t, 1) == Node.CountDescendents(t.children[1]) + 1;
      assert t.children[0] == b.left.value.AsTree() && t.children[1] == b.right.value.AsTree();
    } else if n == 1 {
      assert t.children[0] == (if b.left.Some? then b.left.value.AsTree() else b.right.value.AsTree());
    }
    assert Node.CountDescendents(t) == Node.DescendentsFrom(t, 0);
  }

  /** In a search tree, `count_descendents() + 1` is the number of distinct values stored. */
  lemma {:induction false} DescendentsAreDistinctValuesMinusOne(b: Bst)
    requires b.Ordered()
    ensures Node.CountDescendents(b.AsTree()) + 1 == |b.Values()|
  {
    DescendentsAreNodesMinusOne(b);
    DistinctValues(b);
  }

  // ---------------------------------------------------------------- the node object

  class NodeBinaryUnbalanced {
    var val: int
    var count: nat
    var left: NodeBinaryUnbalanced?
    var right: NodeBinaryUnbalanced?
    ghost var Repr: set<object>

    /** Each node owns its subtrees exclusively: no sharing, no cycles. */
    ghost predicate Valid()
      reads this, Repr
      decreases Repr
    {
      && this in Repr
      && (left != null ==> left in Repr && left.Repr <= Repr && this !in left.Repr && left.Valid())
      && (right != null ==> right in Repr && right.Repr <= Repr && this !in right.Repr && right.Valid())
      && (left != null && right != null ==> left.Repr !! right.Repr)
    }

    /** The value of the subtree rooted at this node. */
    ghost function Model(): Bst
      reads this, Repr
      requires Valid()
      decreases Repr
    {
      Bst(val, count,
          if left == null then None else Some(left.Model()),
          if right == null then None else Some(right.Model()))
    }

    /** `new`: count 1 and no subtrees. */
    constructor New(value: int)
      ensures Valid() && fresh(Repr)
      ensures Model() == Bst.New(value)
    {
      val, count, left, right := value, 1, null, null;
      Repr := {this};
    }

    /**
     * After the left subtree was updated within its own footprint (or created
     * fresh), with the rest of this node's old footprint untouched, the node
     * is valid and its value has the new left subtree.
     */
    twostate lemma LeftUpdated()
      requires old(Valid()) && left != null && left.Valid() && this !in left.Repr
      requires val == old(val) && count == old(count) && right == old(right)
      requires old(left) != null ==> left == old(left)
      requires old(right) != null ==> old(right.Repr) !! left.Repr
      requires Repr == old(Repr) + left.Repr
      requires unchanged(old(Repr) - {this} - left.Repr)
      ensures Valid()
      ensures Model() == old(Model()).(left := Some(left.Model()))
    {
      if right != null {
        assert unchanged(old(right.Repr));
        assert right.Valid() && right.Model() == old(right.Model());
      }
    }

    /** `LeftUpdated` for the right subtree. */
    twostate lemma RightUpdated()
      requires old(Valid()) && right != null && right.Valid() && this !in right.Repr
      requires val == old(val) && count == old(count) && left == old(left)
      requires old(right) != null ==> right == old(right)
      requires old(left) != null ==> old(left.Repr) !! right.Repr
      requires Repr == old(Repr) + right.Repr
      requires unchanged(old(Repr) - {this} - right.Repr)
      ensures Valid()
      ensures Model() == old(Model()).(right := Some(right.Model()))
    {
      if left != null {
        assert unchanged(old(left.Repr));
        assert left.Valid() && left.Model() == old(left.Model());
      }
    }

    /** `insert`, updating the nodes on the search path in place. */
    method Insert(value: int)
      requires Valid()
      modifies Repr
      ensures Valid() && old(Repr) <= Repr && fresh(Repr - old(Repr))
      ensures Model() == old(Model()).Insert(value)
      decreases Repr
    {
      ghost var before := Model();
      if value < val {
        if left != null {
          left.Insert(value);
        } else {
          left := new NodeBinaryUnbalanced.New(value);
        }
        Repr := Repr + left.Repr;
        LeftUpdated();
        assert Some(left.Model()) == before.Insert(value).left by {
          if before.left.None? {
            assert left.Model() == Bst.New(value);
          }
        }
      } else if value == val {
        count := count + 1;
      } else {
        if right != null {
          right.Insert(value);
        } else {
          right := new NodeBinaryUnbalanced.New(value);
        }
        Repr := Repr + right.Repr;
        RightUpdated();
        assert Some(right.Model()) == before.Insert(value).right by {
          if before.right.None? {
            assert right.Model() == Bst.New(value);
          }
        }
      }
    }

    /** `value`: the stored value, unchanged. */
    function Value(): (v: int)
      reads this, Repr
      requires Valid()
      ensures v == Model().Value()
    {
      val
    }

    /** `children`: collects the present subtrees, left first, into a fresh list. */
    method Children() returns (ch: seq<NodeBinaryUnbalanced>)
      requires Valid()
      ensures |ch| == |Model().Children()|
      ensures forall i :: 0 <= i < |ch| ==> ch[i] in Repr && ch[i].Valid() && ch[i].Model() == Model().Children()[i]
    {
      ch := [];
      if left != null {
        ch := ch + [left];
      }
      if right != null {
        ch := ch + [right];
      }
    }
  }
}
