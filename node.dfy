/**
 * The generic node contract of src/node.rs and its renderer.
 *
 * Every tree kind projects onto `Tree`: the text its `value()` displays as and
 * the children its `children()` yields, in that order.  The derived counts and
 * the box-drawing renderer are defined once, over `Tree`.
 */
module Node {
  import Wrappers
  import opened Text

  datatype Tree = Tree(value: string, children: seq<Tree>)

  /** How a node is drawn: the root, a child that is not last, or the last child. */
  datatype SpecialStatus = None | Root | LastChild

  // ---------------------------------------------------------------- counts

  /** `Iterator::count` over a child sequence: one for each element it yields. */
  function CountIter(items: seq<Tree>): (n: nat)
    ensures n == |items|
  {
    if items == [] then 0 else CountIter(items[1..]) + 1
  }

  /** `count_children`: the number of children `children()` yields. */
  function CountChildren(t: Tree): (n: nat)
    ensures n == |t.children|
  {
    CountIter(t.children)
  }

  /** `.map(|c| c.count_descendents() + 1).sum()`: each child counts itself and its own descendents. */
  function CountDescendents(t: Tree): (n: nat)
    ensures t.children == [] ==> n == 0
    decreases t, 1, 0
  {
    DescendentsFrom(t, 0)
  }

  /** The part of that sum contributed by the children of `t` from index `i` on. */
  function DescendentsFrom(t: Tree, i: nat): nat
    requires i <= |t.children|
    decreases t, 0, |t.children| - i
  {
    if i == |t.children| then 0 else CountDescendents(t.children[i]) + 1 + DescendentsFrom(t, i + 1)
  }

  /** The values of all nodes, in pre-order: an independent count of the nodes of a tree. */
  function PreOrder(t: Tree): seq<string>
    decreases t, 1, 0
  {
    [t.value] + PreOrderFrom(t, 0)
  }

  function PreOrderFrom(t: Tree, i: nat): seq<string>
    requires i <= |t.children|
    decreases t, 0, |t.children| - i
  {
    if i == |t.children| then [] else PreOrder(t.children[i]) + PreOrderFrom(t, i + 1)
  }

  /** A tree has exactly one node more than it has descendents; a leaf has none. */
  lemma {:induction false} DescendentsAreNodesMinusOne(t: Tree)
    ensures CountDescendents(t) + 1 == |PreOrder(t)|
    ensures t.children == [] ==> CountDescendents(t) == 0
    decreases t, 1, 0
  {
    DescendentsFromAreNodes(t, 0);
  }

  lemma {:induction false} DescendentsFromAreNodes(t: Tree, i: nat)
    requires i <= |t.children|
    ensures DescendentsFrom(t, i) == |PreOrderFrom(t, i)|
    decreases t, 0, |t.children| - i
  {
    if i < |t.children| {
      DescendentsAreNodesMinusOne(t.children[i]);
      DescendentsFromAreNodes(t, i + 1);
    }
  }

  // ---------------------------------------------------------------- rendering

  /** The marker drawn before a node and the prefix it pushes for its children. */
  function Markers(status: SpecialStatus): (r: (string, string))
    ensures |r.0| == |r.1|
    ensures r.0 == "" <==> status == Root
  {
    match status
    case None => ("├── ", "│   ")
    case Root => ("", "")
    case LastChild => ("└── ", "    ")
  }

  /** The status of the child at index `i` among `count` children. */
  function ChildStatus(i: int, count: int): SpecialStatus
  {
    if i == count - 1 then LastChild else None
  }

  /**
   * The text `print_tree` writes for `t` when called with the prefix stack
   * `prefixes` and the status `status`: every prefix on the stack, the node's
   * marker and value, then its children with the node's continuation prefix pushed.
   */
  function TreeText(t: Tree, prefixes: seq<string>, status: SpecialStatus): string
    decreases t, 1, 0
  {
    Concat(prefixes) + Markers(status).0 + t.value + KidsText(t, 0, prefixes + [Markers(status).1])
  }

  /** The text of the children of `t` from index `i` on, each drawn on the stack `prefixes`. */
  function KidsText(t: Tree, i: nat, prefixes: seq<string>): string
    requires i <= |t.children|
    decreases t, 0, |t.children| - i
  {
    if i == |t.children| then []
    else TreeText(t.children[i], prefixes, ChildStatus(i, CountChildren(t))) + KidsText(t, i + 1, prefixes)
  }

  /** `TreeText` spelled out: the prefixes, the marker and value, then the children below the continuation. */
  lemma {:induction false} TreeTextUnfold(t: Tree, prefixes: seq<string>, status: SpecialStatus)
    ensures TreeText(t, prefixes, status)
         == Concat(prefixes) + Markers(status).0 + t.value + KidsText(t, 0, prefixes + [Markers(status).1])
  {
  }

  /** What `print_tree` has written once the value of `t` is out, followed by its children, is all of `t`'s text. */
  lemma {:induction false} PrintTreeEntry(start: string, t: Tree, prefixes: seq<string>, status: SpecialStatus)
    ensures start + Concat(prefixes) + (Markers(status).0 + t.value) + KidsText(t, 0, prefixes + [Markers(status).1])
         == start + TreeText(t, prefixes, status)
  {
    TreeTextUnfold(t, prefixes, status);
  }

  /** Moving a finished piece from the text still to come onto the text written keeps the sum. */
  lemma {:induction false} AppendShift(written: string, piece: string, rest: string, total: string)
    requires written + (piece + rest) == total
    ensures written + piece + rest == total
  {
  }

  /** The first of the children from index `i` on is drawn with its own status, then the rest. */
  lemma {:induction false} KidsTextStep(t: Tree, i: nat, prefixes: seq<string>)
    requires i < |t.children|
    ensures KidsText(t, i, prefixes)
         == TreeText(t.children[i], prefixes, if i == CountChildren(t) - 1 then LastChild else None)
          + KidsText(t, i + 1, prefixes)
  {
  }

  /** The text `fmt` writes: the stack starts as `["\n"]` and the tree is drawn as a root. */
  function Display(t: Tree): (r: string)
    ensures |r| > 0 && r[0] == '\n'
  {
    TreeText(t, ["\n"], Root)
  }

  /**
   * A root whose value is empty and which has children is drawn starting with
   * an empty line: the base prefix, then the first child's own line break.
   */
  lemma {:induction false} EmptyRootDisplay(t: Tree)
    requires t.value == [] && t.children != []
    ensures |Display(t)| >= 2 && Display(t)[0] == '\n' && Display(t)[1] == '\n'
  {
    var below: seq<string> := ["\n", ""];
    var first := t.children[0];
    var status := if 0 == CountChildren(t) - 1 then LastChild else None;
    assert Concat(["\n"]) == "\n" && Concat(below) == "\n";
    assert ["\n"] + [Markers(Root).1] == below;
    TreeTextUnfold(t, ["\n"], Root);
    KidsTextStep(t, 0, below);
    TreeTextUnfold(first, below, status);
    var firstText := TreeText(first, below, status);
    assert |firstText| >= 1 && firstText[0] == '\n';
    assert Display(t) == "\n" + firstText + KidsText(t, 1, below);
  }

  // ---------------------------------------------------------------- a line-by-line reference

  /**
   * One rendered line: for every level below the root on the way to the node,
   * whether the node on the path there is the last of its siblings; and the node's value.
   */
  datatype Row = Row(lastFlags: seq<bool>, value: string)

  /** The rows of all nodes of `t`, in pre-order, when `t` sits at `path`. */
  function Rows(t: Tree, path: seq<bool>): seq<Row>
    decreases t, 1, 0
  {
    [Row(path, t.value)] + RowsFrom(t, 0, path)
  }

  /** The rows of the children of `t` from index `i` on; the child at index n - 1 of n is the last. */
  function RowsFrom(t: Tree, i: nat, path: seq<bool>): seq<Row>
    requires i <= |t.children|
    decreases t, 0, |t.children| - i
  {
    if i == |t.children| then []
    else Rows(t.children[i], path + [i == |t.children| - 1]) + RowsFrom(t, i + 1, path)
  }

  /** The continuation drawn under an ancestor: a bar unless that ancestor was a last child. */
  function Guide(last: bool): string
  {
    if last then "    " else "│   "
  }

  /** The branch drawn before a node: a corner for a last child, a tee otherwise. */
  function Branch(last: bool): string
  {
    if last then "└── " else "├── "
  }

  function Guides(flags: seq<bool>): seq<string>
  {
    seq(|flags|, i requires 0 <= i < |flags| => Guide(flags[i]))
  }

  /**
   * The text of a row, stated without any prefix stack: a newline; for a node
   * at depth d >= 1, the root's empty prefix, the d - 1 four-character guides of
   * its ancestors and its own branch; then the value.
   */
  function RowLine(r: Row): string
  {
    var d := |r.lastFlags|;
    if d == 0 then "\n" + r.value
    else "\n" + Concat(Guides(r.lastFlags[..d - 1])) + Branch(r.lastFlags[d - 1]) + r.value
  }

  /** The lines of `rows`, one after the other. */
  function RowsText(rows: seq<Row>): string
  {
    if rows == [] then [] else RowLine(rows[0]) + RowsText(rows[1..])
  }

  function RowValues(rows: seq<Row>): seq<string>
  {
    if rows == [] then [] else [rows[0].value] + RowValues(rows[1..])
  }

  lemma {:induction false} RowsTextAppend(a: seq<Row>, b: seq<Row>)
    ensures RowsText(a + b) == RowsText(a) + RowsText(b)
  {
    if a != [] {
      assert (a + b)[1..] == a[1..] + b;
      RowsTextAppend(a[1..], b);
    } else {
      assert a + b == b;
    }
  }

  lemma {:induction false} RowValuesAppend(a: seq<Row>, b: seq<Row>)
    ensures RowValues(a + b) == RowValues(a) + RowValues(b)
  {
    if a != [] {
      assert (a + b)[1..] == a[1..] + b;
      RowValuesAppend(a[1..], b);
    } else {
      assert a + b == b;
    }
  }

  /** The prefix stack `print_tree` holds when it reaches a node at `path`. */
  function PrefixesAt(path: seq<bool>): seq<string>
  {
    if path == [] then ["\n"] else ["\n", ""] + Guides(path[..|path| - 1])
  }

  /** The status `print_tree` is given for a node at `path`. */
  function StatusAt(path: seq<bool>): SpecialStatus
  {
    if path == [] then Root else if path[|path| - 1] then LastChild else None
  }

  /** The stack of a child is its parent's stack with the parent's continuation pushed. */
  lemma {:induction false} ChildPrefixes(path: seq<bool>, last: bool)
    ensures PrefixesAt(path) + [Markers(StatusAt(path)).1] == PrefixesAt(path + [last])
  {
    var p := path + [last];
    assert p[..|p| - 1] == path;
    if path != [] {
      assert Guides(path) == Guides(path[..|path| - 1]) + [Guide(path[|path| - 1])];
    }
  }

  /** What `print_tree` writes for the node at `path` itself is its row's line. */
  lemma {:induction false} OwnLine(path: seq<bool>, value: string)
    ensures Concat(PrefixesAt(path)) + Markers(StatusAt(path)).0 + value == RowLine(Row(path, value))
  {
    assert Concat(["\n"]) == "\n" by {
      assert ["\n"][..0] == [];
    }
    if path != [] {
      var g := Guides(path[..|path| - 1]);
      assert Concat(["\n", ""]) == "\n" by {
        assert ["\n", ""][..1] == ["\n"];
      }
      ConcatAppend(["\n", ""], g);
      assert Concat(PrefixesAt(path)) == "\n" + Concat(g);
    }
  }

  /**
   * The prefix-stack renderer writes exactly the rows of the tree, in
   * pre-order, each as its line.
   */
  lemma {:induction false} TreeTextIsRows(t: Tree, path: seq<bool>)
    ensures TreeText(t, PrefixesAt(path), StatusAt(path)) == RowsText(Rows(t, path))
    decreases t, 1, 0
  {
    OwnLine(path, t.value);
    KidsTextIsRows(t, 0, path);
    RowsTextAppend([Row(path, t.value)], RowsFrom(t, 0, path));
  }

  lemma {:induction false} KidsTextIsRows(t: Tree, i: nat, path: seq<bool>)
    requires i <= |t.children|
    ensures KidsText(t, i, PrefixesAt(path) + [Markers(StatusAt(path)).1]) == RowsText(RowsFrom(t, i, path))
    decreases t, 0, |t.children| - i
  {
    if i < |t.children| {
      var last := i == |t.children| - 1;
      ChildPrefixes(path, last);
      assert StatusAt(path + [last]) == ChildStatus(i, CountChildren(t));
      TreeTextIsRows(t.children[i], path + [last]);
      KidsTextIsRows(t, i + 1, path);
      RowsTextAppend(Rows(t.children[i], path + [last]), RowsFrom(t, i + 1, path));
    }
  }

  /**
   * `fmt` writes one line per row of the tree, rooted at the empty path; every
   * line starts with the base prefix `"\n"`.
   */
  lemma {:induction false} DisplayIsRows(t: Tree)
    ensures Display(t) == RowsText(Rows(t, []))
  {
    TreeTextIsRows(t, []);
  }

  /** The rows carry the values of all nodes in pre-order: one row per node. */
  lemma {:induction false} RowsArePreOrder(t: Tree, path: seq<bool>)
    ensures RowValues(Rows(t, path)) == PreOrder(t)
    ensures |Rows(t, path)| == CountDescendents(t) + 1
    decreases t, 1, 0
  {
    RowsFromArePreOrder(t, 0, path);
    RowValuesAppend([Row(path, t.value)], RowsFrom(t, 0, path));
    DescendentsAreNodesMinusOne(t);
    RowValuesLength(Rows(t, path));
  }

  lemma {:induction false} RowsFromArePreOrder(t: Tree, i: nat, path: seq<bool>)
    requires i <= |t.children|
    ensures RowValues(RowsFrom(t, i, path)) == PreOrderFrom(t, i)
    decreases t, 0, |t.children| - i
  {
    if i < |t.children| {
      var last := i == |t.children| - 1;
      RowsArePreOrder(t.children[i], path + [last]);
      RowsFromArePreOrder(t, i + 1, path);
      RowValuesAppend(Rows(t.children[i], path + [last]), RowsFrom(t, i + 1, path));
    }
  }

  lemma {:induction false} RowValuesLength(rows: seq<Row>)
    ensures |RowValues(rows)| == |rows|
  {
    if rows != [] {
      RowValuesLength(rows[1..]);
    }
  }

  /**
   * The root's row comes first and has no flags; every row below a node at
   * `path` extends that path, by one flag per level.
   */
  lemma {:induction false} RowsExtendPath(t: Tree, path: seq<bool>)
    ensures Rows(t, path)[0] == Row(path, t.value)
    ensures forall r: Row :: r in Rows(t, path) ==> path <= r.lastFlags
    decreases t, 1, 0
  {
    RowsFromExtendPath(t, 0, path);
  }

  lemma {:induction false} RowsFromExtendPath(t: Tree, i: nat, path: seq<bool>)
    requires i <= |t.children|
    ensures forall r: Row :: r in RowsFrom(t, i, path) ==> |r.lastFlags| > |path| && path <= r.lastFlags
    decreases t, 0, |t.children| - i
  {
    if i < |t.children| {
      var p := path + [i == |t.children| - 1];
      RowsExtendPath(t.children[i], p);
      RowsFromExtendPath(t, i + 1, path);
      forall r: Row | r in Rows(t.children[i], p)
        ensures |r.lastFlags| > |path| && path <= r.lastFlags
      {
        assert p <= r.lastFlags;
        assert r.lastFlags[..|path|] == p[..|path|] == path;
      }
    }
  }

  /** A childless node renders as its prefixes, its marker and its value: no child status is computed. */
  lemma {:induction false} LeafText(value: string, prefixes: seq<string>, status: SpecialStatus)
    ensures TreeText(Tree(value, []), prefixes, status) == Concat(prefixes) + Markers(status).0 + value
  {
  }

  // ---------------------------------------------------------------- the imperative renderer

  /** The sink `print_tree` writes to: everything written so far. */
  class Formatter {
    var written: string

    constructor ()
      ensures written == []
    {
      written := [];
    }

    method WriteStr(s: string)
      modifies this
      ensures written == old(written) + s
    {
      written := written + s;
    }
  }

  /** The `Vec<&str>` of prefixes, pushed and popped in place. */
  class PrefixStack {
    var items: seq<string>

    constructor (initial: seq<string>)
      ensures items == initial
    {
      items := initial;
    }

    method Push(s: string)
      modifies this
      ensures items == old(items) + [s]
    {
      items := items + [s];
    }

    method Pop() returns (top: Wrappers.Option<string>)
      modifies this
      ensures old(items) == [] ==> top == Wrappers.None && items == []
      ensures old(items) != [] ==> top == Wrappers.Some(old(items)[|old(items)| - 1]) && items == old(items)[..|old(items)| - 1]
    {
      if items == [] {
        top := Wrappers.None;
      } else {
        top := Wrappers.Some(items[|items| - 1]);
        items := items[..|items| - 1];
      }
    }
  }

  /** The opening loop of `print_tree`: writes every prefix on the stack, outermost first. */
  method WritePrefixes(f: Formatter, prefixes: PrefixStack)
    modifies f
    ensures f.written == old(f.written) + Concat(prefixes.items)
  {
    ghost var start := f.written;
    for j := 0 to |prefixes.items|
      invariant f.written == start + Concat(prefixes.items[..j])
    {
      assert prefixes.items[..j + 1][..j] == prefixes.items[..j];
      f.WriteStr(prefixes.items[j]);
    }
    assert prefixes.items[..|prefixes.items|] == prefixes.items;
  }

  /**
   * `print_tree`: writes every prefix on the stack, the marker and value of `t`,
   * pushes the continuation prefix, draws each child (the last one, at index
   * `count - 1`, as `LastChild`) and pops the prefix again.
   */
  method PrintTree(t: Tree, f: Formatter, prefixes: PrefixStack, status: SpecialStatus)
    modifies f, prefixes
    ensures prefixes.items == old(prefixes.items)
    ensures f.written == old(f.written) + TreeText(t, old(prefixes.items), status)
    decreases t
  {
    ghost var stack := prefixes.items;
    ghost var start := f.written;
    WritePrefixes(f, prefixes);
    var (sPrefix, cPrefix) := Markers(status);
    f.WriteStr(sPrefix + t.value);
    prefixes.Push(cPrefix);
    var count := CountChildren(t);
    var kids := t.children;
    ghost var below := stack + [cPrefix];
    ghost var whole := TreeText(t, stack, status);
    PrintTreeEntry(start, t, stack, status);
    for i := 0 to |kids|
      invariant prefixes.items == below
      invariant f.written + KidsText(t, i, below) == start + whole
    {
      var cStatus := if i == count - 1 then LastChild else None;
      ghost var before := f.written;
      PrintTree(kids[i], f, prefixes, cStatus);
      KidsTextStep(t, i, below);
      AppendShift(before, TreeText(kids[i], below, cStatus), KidsText(t, i + 1, below), start + whole);
    }
    var _ := prefixes.Pop();
  }

  /** `fmt`: draws `t` as a root on a fresh prefix stack holding the base prefix `"\n"`. */
  method Fmt(t: Tree, f: Formatter)
    modifies f
    ensures f.written == old(f.written) + Display(t)
  {
    var prefixes := new PrefixStack(["\n"]);
    PrintTree(t, f, prefixes, Root);
  }
}
