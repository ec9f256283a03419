# simple-tree in Dafny

This project models the core of the `simple-tree` Rust crate and proves properties of that model. The core has three parts:

- **The generic node contract** (`src/node.rs`). A node exposes a value and an ordered sequence of children. From these the trait derives `count_children`, `count_descendents` and a box-drawing renderer: `print_tree` over a mutable prefix stack, started by `fmt` with the base prefix `"\n"`. The module `Node` (`node.dfy`) covers it:
  - every tree kind projects onto the value `Tree` (the value's display text and the children in order);
  - the counts and the text the renderer produces (`TreeText`, `Display`) are functions over `Tree`;
  - `PrintTree` and `Fmt` are imperative methods over two small classes: `Formatter`, the sink, and `PrefixStack`, the `Vec<&str>`. Each method is proved to write exactly `TreeText` and to leave the stack as it found it;
  - an independent line-by-line reference (`Rows`, one row per node in pre-order) is proved equal to the renderer's text.
- **The unbalanced binary search tree** (`src/implementations/binary_unbalanced.rs`), in the module `BinaryUnbalanced` (`binary_unbalanced.dfy`):
  - `Bst` is the value of a subtree: value, count, left and right;
  - `Bst.Insert` specifies `insert`;
  - the class `NodeBinaryUnbalanced` is the node object that `Insert` updates in place, with a `Repr` footprint, proved to act on its abstract `Model()` exactly as `Bst.Insert` does;
  - the lemmas cover the multiset of inserted values, the search-tree order, node counts and the projection onto `Tree`.
- **The character trie** (`src/implementations/trie.rs`), in the module `Trie` (`trie.dfy`), with its properties in `TrieProperties` (`trie_properties.dfy`):
  - `TrieNode` is the value of a subtrie: fragment, direct count, aggregate count (`descendentsCount`), children keyed by the next character, and the sort and display settings;
  - its functions specify `add`, `populate`, `find`, `occurrences`, `value`, `children` and the two setters;
  - the class `Trie` is the node object that `add`, `populate` and the setters update in place, proved against `TrieNode`;
  - the lemmas cover how `add` counts a word along its path, that every aggregate is the node's own count plus its children's aggregates (kept by `add`, `populate`, `from` and both setters), what `occurrences` and `total_occurrences` report after a list of words, that the setters change only their setting, how `value` reads back, and the order of `children` under each sort option.

Two helper modules:
- `Wrappers` holds `Option` and `Result`.
- `Text` holds string concatenation and decimal formatting with its inverse, used to show that the trie's `value` and the binary tree's displayed value can be read back.

Values of the binary tree are `int`; words are `seq<char>`; counts are `nat`.

Two details of the rendering:
- `fmt` (`src/node.rs:55-58`) starts the prefix stack with `"\n"`, so every rendering starts with a line break, before the root's line too. `Display` keeps that line break.
- The value of the trie's root is the empty string, so a root with children is drawn with an empty line before its first child. The trie's doc examples do not show that line. `RootDisplayBlankLine` states what the code produces.

The trie implements `value` and `children` with other signatures than the trait in `src/node.rs` declares: a displayable value, and children without a box. Both node kinds are therefore projected onto the same `Tree` value. The renderer is defined once, over that value.

## Model

| member | source | states |
|---|---|---|
| Node.CountIter | src/node.rs:18-20 | counting what an iterator over the children yields gives the number of children |
| Node.DescendentsAreNodesMinusOne | src/node.rs:22-24 | the recursive sum of (descendents + 1) over the children is the number of nodes of the tree minus one, and 0 for a leaf |
| Node.CountChildren | src/node.rs:18-20 | count_children: the number of children the node yields |
| Node.CountDescendents | src/node.rs:22-24 | count_descendents: the sum over the children of their descendents plus one, 0 for a leaf; DescendentsAreNodesMinusOne ties it to the node count |
| Node.Markers | src/node.rs:35-39 | the marker and continuation prefix for each status; each pair is of equal width, and only the root's marker is empty |
| Node.TreeText | src/node.rs:26-53 | the text print_tree writes for a node on a given stack and status; PrintTree writes exactly it and TreeTextIsRows equates it with the row reference |
| Node.KidsText | src/node.rs:42-50 | the text of the children from an index on, each drawn on the pushed stack with its last-child status; KidsTextIsRows equates it with the children's rows |
| Node.Display | src/node.rs:55-58 | the text fmt writes: the tree drawn as the root on the stack holding "\n", so it begins with a line break; Fmt writes exactly it and DisplayIsRows equates it with the row reference |
| Node.WritePrefixes | src/node.rs:32-34 | the opening loop writes the concatenation of every prefix on the stack, outermost first |
| Node.PrefixStack.Push | src/node.rs:41 | pushing the continuation prefix appends it to the stack |
| Node.PrefixStack.Pop | src/node.rs:51 | popping removes and returns the last prefix, or returns nothing and leaves an empty stack unchanged |
| Node.OwnLine | src/node.rs:35-40 | the prefixes on the stack, the marker the status selects and the value together form the node's own line: a guide bar or blank for each ancestor and a tee or corner for the node |
| Node.LeafText | src/node.rs:32-53 | a childless node writes its prefixes, its marker and its value and nothing else |
| Node.PrintTree | src/node.rs:26-53 | writes exactly the node's text (prefixes, marker, value, then every child below the pushed continuation prefix) and restores the prefix stack it was given |
| Node.Fmt | src/node.rs:55-58 | writes the tree drawn as the root on the stack holding only the base prefix "\n" |
| Node.TreeTextIsRows | src/node.rs:26-53 | the text print_tree writes for a node equals the lines of the independent row reference: one line per node, in pre-order, each with its ancestors' guides |
| Node.DisplayIsRows | src/node.rs:55-58 | the whole rendering is the concatenation of the rows of all nodes in pre-order |
| Node.RowsArePreOrder | src/node.rs:43-50 | the rows carry the values of all nodes in pre-order, one row per node, so the rendering has count_descendents + 1 lines |
| Node.RowsExtendPath | src/node.rs:41-50 | a node's first row is its own, and every row below it extends its path, so children are drawn under their parent |
| Node.EmptyRootDisplay | src/node.rs:55-58 | a root with an empty value and children is drawn starting with two line breaks |
| Text.ParseIntToString | src/node.rs:40 | the decimal text a value is displayed as is well formed and reads back as the same integer |
| Text.ParseNatToString | src/implementations/trie.rs:456-457 | the decimal text of a count reads back as the same count |
| BinaryUnbalanced.Bst.New | src/implementations/binary_unbalanced.rs:21-28 | a single node: it stores exactly the value, as one node |
| BinaryUnbalanced.Bst.Value | src/implementations/binary_unbalanced.rs:50-52 | the stored value, which is among the subtree's values |
| BinaryUnbalanced.Bst.Children | src/implementations/binary_unbalanced.rs:54-63 | the present subtrees, left first; each holds a subset of the values and fewer nodes; ChildrenShape states the order |
| BinaryUnbalanced.Bst.AsTree | src/implementations/binary_unbalanced.rs:50-63 | the projection the renderer draws: the value's decimal text and the children's projections in order, as ChildrenShape and ValueTextRoundTrip state |
| BinaryUnbalanced.Bst.Insert | src/implementations/binary_unbalanced.rs:30-48 | after insert the set of stored values is the old one plus the inserted value |
| BinaryUnbalanced.InsertContents | src/implementations/binary_unbalanced.rs:30-48 | insert adds exactly one occurrence of the value to the multiset of stored values |
| BinaryUnbalanced.InsertTotalCount | src/implementations/binary_unbalanced.rs:30-48 | the sum of all counts grows by exactly one with each insert |
| BinaryUnbalanced.InsertKeepsOrdered | src/implementations/binary_unbalanced.rs:31-46 | comparing against each node and descending left for smaller and right for larger keeps the search-tree order |
| BinaryUnbalanced.InsertKeepsCounted | src/implementations/binary_unbalanced.rs:21-28 | every node keeps a positive count: new nodes start at 1 and counts only grow |
| BinaryUnbalanced.InsertNodeCount | src/implementations/binary_unbalanced.rs:30-48 | in a search tree, insert adds a node exactly when the value was not yet stored |
| BinaryUnbalanced.InsertEqualOnlyCounts | src/implementations/binary_unbalanced.rs:39 | inserting a value already stored changes only counts: the tree with its counts erased is the same as before, hence the same node count and in-order sequence |
| BinaryUnbalanced.InOrderValues | src/implementations/binary_unbalanced.rs:11-14 | the in-order traversal has one entry per node and lists exactly the stored values |
| BinaryUnbalanced.InOrderSorted | src/implementations/binary_unbalanced.rs:31-46 | in a search tree the in-order traversal is strictly increasing |
| BinaryUnbalanced.DistinctValues | src/implementations/binary_unbalanced.rs:39 | in a search tree equal values share one node: there are as many nodes as distinct values |
| BinaryUnbalanced.ValuesAreContents | src/implementations/binary_unbalanced.rs:21-28 | with every count positive, a value is stored in a node exactly when it occurs in the inserted multiset |
| BinaryUnbalanced.ChildrenShape | src/implementations/binary_unbalanced.rs:54-63 | children yields the left subtree, then the right one, each exactly when present, and the projection draws them in that order |
| BinaryUnbalanced.ValueTextRoundTrip | src/implementations/binary_unbalanced.rs:50-52 | the value a node displays reads back as its stored value |
| BinaryUnbalanced.DescendentsAreNodesMinusOne | src/implementations/binary_unbalanced.rs:54-63 | count_descendents of a binary tree is its number of nodes minus one |
| BinaryUnbalanced.DescendentsAreDistinctValuesMinusOne | src/implementations/binary_unbalanced.rs:30-48 | in a search tree count_descendents + 1 is the number of distinct values inserted |
| BinaryUnbalanced.NodeBinaryUnbalanced.New | src/implementations/binary_unbalanced.rs:21-28 | a fresh node holding the value with count 1 and no subtrees |
| BinaryUnbalanced.NodeBinaryUnbalanced.Insert | src/implementations/binary_unbalanced.rs:30-48 | updates the nodes on the search path in place; the subtree's new value is the old one with the value inserted, and only fresh nodes join it |
| BinaryUnbalanced.NodeBinaryUnbalanced.Value | src/implementations/binary_unbalanced.rs:50-52 | returns the value stored in the node |
| BinaryUnbalanced.NodeBinaryUnbalanced.Children | src/implementations/binary_unbalanced.rs:54-63 | collects the present subtree objects, left first; each is owned by the node and holds the corresponding child subtree |
| Trie.FirstRest | src/implementations/trie.rs:528-536 | nothing exactly for the empty string, otherwise the first character and the rest, which rejoin to the input |
| Trie.SortBy | src/implementations/trie.rs:483-512 | lists every key of the set exactly once |
| Trie.SortByOrdered | src/implementations/trie.rs:491-510 | the listed keys are in strictly increasing order of weight, with equal weights in ascending key order, as a stable sort of the key-ordered values leaves them |
| Trie.ReverseMultiset | src/implementations/trie.rs:488-490 | the reversed list holds the same children, each as often |
| Trie.TrieNode.NewWithFragment | src/implementations/trie.rs:64-77 | a well-formed node with nothing counted; NewFind and EmptyAggregated state the rest |
| Trie.TrieNode.New | src/implementations/trie.rs:52-54 | a well-formed root with the empty fragment and value, ordered by value and showing direct counts |
| Trie.TrieNode.WithSortAndDisplay | src/implementations/trie.rs:58-60 | a well-formed root with the empty fragment and value and the given settings |
| Trie.TrieNode.NextChar | src/implementations/trie.rs:279-281 | the word's character just past the fragment, if any; NextCharExtends states what it means for a word the fragment starts |
| Trie.TrieNode.Find | src/implementations/trie.rs:301-309 | the node reached by following the path's characters through the children; FindFragment states that it holds the fragment extended by the path |
| Trie.TrieNode.Occurrences | src/implementations/trie.rs:339-341 | the direct count of the node the word reaches, or 0; AddFindAt, PopulateCounts and FromCounts state its values |
| Trie.TrieNode.TotalOccurrences | src/implementations/trie.rs:371-373 | the node's aggregate count; PopulateTotal and FromCounts state its value |
| Trie.TrieNode.Value | src/implementations/trie.rs:450-459 | the displayed value; ValueReadsBack states its form and that the count reads back |
| Trie.TrieNode.From | src/implementations/trie.rs:99-101 | the words populated into the empty root: a well-formed trie with the empty fragment; FromCounts and FromAggregated state its counts |
| Trie.TrieNode.FromWithSortAndDisplay | src/implementations/trie.rs:123-129 | the words populated into the empty root with the given settings: a well-formed trie with the empty fragment; PopulateCounts and PopulateTotal state its counts |
| Trie.TrieNode.AsTree | src/implementations/trie.rs:450-512 | the projection the renderer draws: the value and the children's projections in children order, as ChildrenFollowKeys states |
| Trie.TrieNode.Add | src/implementations/trie.rs:403-424 | fails exactly when the word does not start with the fragment, and then changes nothing; otherwise keeps the fragment and the well-formedness of the trie |
| Trie.TrieNode.Populate | src/implementations/trie.rs:131-137 | adding each word in turn keeps the fragment and the well-formedness; every word must start with the fragment, as the unwrap of each result demands |
| Trie.TrieNode.SetSortOption | src/implementations/trie.rs:218-223 | the node gets the new order and keeps its fragment, counts, display setting and child keys |
| Trie.TrieNode.SetDisplayData | src/implementations/trie.rs:271-276 | the node gets the new display setting and keeps its fragment, counts, order and child keys |
| Trie.TrieNode.ChildKeys | src/implementations/trie.rs:483-512 | one key per child, each a key of the children map |
| Trie.TrieNode.Children | src/implementations/trie.rs:483-512 | the child nodes, one per child, in the order of ChildKeys |
| Trie.SetSortOptionWellFormed | src/implementations/trie.rs:218-223 | setting the order keeps every child under the character that extends its parent's fragment |
| Trie.SetSortOptionByChildren | src/implementations/trie.rs:219-222 | setting the node's own order and then each child's is the recursive setter |
| Trie.SetDisplayDataWellFormed | src/implementations/trie.rs:271-276 | setting the display keeps every child under the character that extends its parent's fragment |
| Trie.SetDisplayDataByChildren | src/implementations/trie.rs:272-275 | setting the node's own display and then each child's is the recursive setter |
| Trie.PrefixExtend | src/implementations/trie.rs:417 | the fragment extended by the next character is the word's prefix one character longer, again a prefix of the word |
| Trie.Trie.NewWithFragment | src/implementations/trie.rs:64-77 | a node with the fragment, both counts zero, no children and the given settings |
| Trie.Trie.New | src/implementations/trie.rs:52-54 | the empty root, ordered by value and showing direct counts |
| Trie.Trie.WithSortAndDisplay | src/implementations/trie.rs:58-60 | the empty root with the given settings |
| Trie.Trie.NextChar | src/implementations/trie.rs:279-281 | is TrieNode.NextChar of the node's model, which NextCharExtends relates to the word; there is a next character exactly when the word is longer than the fragment, and it is the word's character at the fragment's length |
| Trie.Trie.Add | src/implementations/trie.rs:403-424 | updates the node in place; the result and the new subtrie are those of TrieNode.Add on the old subtrie, and the node stays valid |
| Trie.Trie.Populate | src/implementations/trie.rs:131-137 | adds the words in order in place; the new subtrie is TrieNode.Populate of the old one |
| Trie.Trie.From | src/implementations/trie.rs:99-101 | a fresh valid trie holding the words added to the empty root |
| Trie.Trie.FromWithSortAndDisplay | src/implementations/trie.rs:123-129 | a fresh valid trie with the given settings holding the words |
| Trie.Trie.SetSortOption | src/implementations/trie.rs:218-223 | sets the node's order and then each child's in place; the new subtrie is the recursive setter applied to the old one |
| Trie.Trie.SetDisplayData | src/implementations/trie.rs:271-276 | sets the node's display and then each child's in place; the new subtrie is the recursive setter applied to the old one |
| Trie.Trie.Find | src/implementations/trie.rs:301-309 | the node reached by following the remaining characters, as TrieNode.Find defines it |
| Trie.Trie.Occurrences | src/implementations/trie.rs:339-341 | the direct count of the node reached by the word, or 0 |
| Trie.Trie.TotalOccurrences | src/implementations/trie.rs:371-373 | the node's aggregate count |
| Trie.Trie.Value | src/implementations/trie.rs:450-459 | the displayed value of the node, as TrieNode.Value defines it |
| Trie.Trie.Children | src/implementations/trie.rs:483-512 | the child nodes collected in the order the sort option asks for |
| TrieProperties.NextCharExtends | src/implementations/trie.rs:278-281 | for a word that starts with the fragment, there is no next character exactly when the word is the fragment, and otherwise the fragment plus that character still starts the word |
| TrieProperties.FindFragment | src/implementations/trie.rs:301-309 | in a well-formed trie, the node find reaches by a path holds the fragment extended by that path |
| TrieProperties.NewFind | src/implementations/trie.rs:64-77 | a new node is found only by the empty path, with both counts zero |
| TrieProperties.AddFindAt | src/implementations/trie.rs:403-424 | add counts the word on the nodes of its path and nowhere else: each node on the path exists afterwards with its aggregate one higher, and its own count one higher exactly at the word; every other node is found as before |
| TrieProperties.AddFindAtHere | src/implementations/trie.rs:404-411 | when the word ends at this node, add raises the node's own count and its aggregate and leaves its children as they were |
| TrieProperties.AddFindAtChild | src/implementations/trie.rs:412-423 | a path through the child for the word's next character sees the word added below, including in a newly created child |
| TrieProperties.AddFindOff | src/implementations/trie.rs:412-423 | a path that leaves the word at its first character finds what it found before |
| TrieProperties.AddReturnsCount | src/implementations/trie.rs:375-379 | add succeeds for a word that starts with the fragment and returns how often the word has now occurred |
| TrieProperties.AddKeepsUniform | src/implementations/trie.rs:415-420 | nodes that add creates take their parent's settings, so a trie whose nodes all share one setting keeps it |
| TrieProperties.EmptyAggregated | src/implementations/trie.rs:64-77 | a new node satisfies the invariant that every aggregate is the node's count plus its children's aggregates |
| TrieProperties.AddCountsHere | src/implementations/trie.rs:407 | add raises the aggregate of the node it starts at by one |
| TrieProperties.AddKeepsAggregated | src/implementations/trie.rs:11-12 | add keeps every node's aggregate equal to its own count plus its children's aggregates |
| TrieProperties.PopulateKeepsAggregated | src/implementations/trie.rs:131-137 | populate keeps every aggregate equal to the node's count plus its children's aggregates |
| TrieProperties.FromAggregated | src/implementations/trie.rs:99-101 | every trie built by from satisfies the aggregate invariant |
| TrieProperties.SetSortOptionKeepsAggregated | src/implementations/trie.rs:218-223 | set_sort_option keeps the aggregate invariant |
| TrieProperties.SetDisplayDataKeepsAggregated | src/implementations/trie.rs:271-276 | set_display_data keeps the aggregate invariant |
| TrieProperties.PopulateCounts | src/implementations/trie.rs:131-137 | after populate, each node's own count has risen by how often its word was in the list, and its aggregate by how many listed words start with its word |
| TrieProperties.PopulateTotal | src/implementations/trie.rs:371-373 | after populate the root's total has risen by the number of words |
| TrieProperties.FromCounts | src/implementations/trie.rs:99-101 | the trie of a list counts each word as often as it is listed, the root counts them all, and each node's aggregate is the number of listed words it starts |
| TrieProperties.FromExample | src/implementations/trie.rs:329-334 | the example list gives foo 3, bar 1, baz 2, b 1 and a total of 7 |
| TrieProperties.FromExampleAbsent | src/implementations/trie.rs:335-337 | in the example list the prefixes f, fo and ba occur zero times |
| TrieProperties.SetSortOptionFind | src/implementations/trie.rs:218-223 | every node is found exactly where it was, now with the new order and with everything else unchanged |
| TrieProperties.SetDisplayDataFind | src/implementations/trie.rs:271-276 | every node is found exactly where it was, now with the new display and with everything else unchanged |
| TrieProperties.ValueReadsBack | src/implementations/trie.rs:450-459 | the root shows nothing; a non-root shows its fragment alone, or its fragment, a tab and the decimal count that the display setting chooses and that reads back |
| TrieProperties.ChildKeysCover | src/implementations/trie.rs:483-512 | children lists every child exactly once |
| TrieProperties.ValueWeights | src/implementations/trie.rs:487-490 | under the two value orders only the keys decide the order |
| TrieProperties.ChildKeysAscend | src/implementations/trie.rs:487 | ordered by value, the children come in strictly ascending key order |
| TrieProperties.ChildKeysDescend | src/implementations/trie.rs:488-490 | ordered by value reversed, the children come in strictly descending key order |
| TrieProperties.ChildKeysByCount | src/implementations/trie.rs:491-510 | under each count order the children follow the direct or aggregate count, ascending or descending, with ties in ascending key order, as the stable sort leaves them |
| TrieProperties.ChildrenFollowKeys | src/implementations/trie.rs:483-512 | children and the projection drawn by the renderer list the same children in the same order, and count_children is the number of children |
| TrieProperties.RootDisplayBlankLine | src/implementations/trie.rs:450-453 | drawn by fmt, a trie root with children starts with two line breaks, because the root's value is empty |

## Left out

- Writing to a real `fmt::Formatter`, and the early return on a write error (`?`). `Formatter` is a sink that never fails, so `PrintTree` always writes everything.
- `src/lib.rs`, `src/main.rs`, `src/implementations.rs` and the directory-tree reader: they hold I/O and re-exports, which this model does not cover.
- The `Display` impls that forward to `Node::fmt`: they are the same as `Fmt` on the projected tree.
- The generic value type `T` of the binary tree: it is modelled as `int` under its usual order. Its display is the decimal text with a leading `-` for negative values.
- The trie's `options`, `get`, `get_mut` and `find_mut`. They are one-line map accessors, and `find_mut` is `find` with a mutable result. `Find` covers the lookup.
- Integer widths: counts are unbounded `nat`, so `usize` overflow is not modelled.
- Strings are sequences of characters. The byte slicing `word[..self.fragment.len() + 1]` is taken as the first fragment-length-plus-one characters. That agrees with the source only for ASCII text, because a multi-byte character makes byte and character positions differ.
- `Trie.Trie.Find`: it treats an empty `remaining` and a `first_rest` that returns nothing as the same case, because both mean the string is empty.
- `Trie.Trie.Add`: children are held as owned values (`TrieNode`), as `BTreeMap` owns them. Recursion into a child is therefore the value-level `TrieNode.Add`, not an in-place update of a separate child object.
- `Trie.Trie.SetSortOption` and `Trie.Trie.SetDisplayData` update the children held as values in an unspecified key order. `values_mut` visits them in ascending key order, which has no visible effect.
- `Trie.TrieNode.ChildKeys`: `sort_by` is modelled by its outcome, a stable sort of the key-ordered children, rather than by the library's algorithm.
- `Trie.TrieNode.Populate` and `Trie.Trie.Populate` require every word to start with the fragment. The source unwraps each result and panics otherwise. `From` and `FromWithSortAndDisplay` start at the empty fragment, so they have no such requirement.
- The exact strings of the trie's doc examples are not stated as lemmas. `RootDisplayBlankLine` shows that the code as given draws an empty line before the first child, which those strings do not show.
