/**
 * What the trie of src/implementations/trie.rs promises, proved about the
 * `TrieNode` value: where `add` counts a word, that `descendentsCount` is the
 * node's own count plus its children's aggregates, what `occurrences` and
 * `total_occurrences` report after a sequence of words, that the setters
 * change nothing but their setting, how `value` reads back, and the order in
 * which `children` lists the child nodes.
 */
module TrieProperties {
  import Wrappers
  import opened Text
  import Node
  import opened Trie

  /** The aggregate count of the node reached by `p`, or 0 when there is none. */
  function TotalAt(t: TrieNode, p: string): nat
  {
    match t.Find(p)
    case None => 0
    case Some(n) => n.descendentsCount
  }

  /** How many of `words` start with `x`. */
  function CountPrefixed(words: seq<string>, x: string): nat
  {
    if words == [] then 0
    else CountPrefixed(words[..|words| - 1], x) + (if x <= words[|words| - 1] then 1 else 0)
  }

  // ---------------------------------------------------------------- next_char and find

  /** When the fragment starts the word, there is a next character exactly when the word is longer, and it extends the fragment within the word. */
  lemma {:induction false} NextCharExtends(t: TrieNode, word: string)
    requires t.fragment <= word
    ensures t.NextChar(word).None? <==> word == t.fragment
    ensures t.NextChar(word).Some? ==> t.fragment + [t.NextChar(word).value] <= word
  {
    if t.NextChar(word).Some? {
      var c := t.NextChar(word).value;
      assert (t.fragment + [c]) == word[..|t.fragment| + 1];
    }
  }

  /** In a well-formed trie, the node `find` reaches by `p` is the node for the fragment extended by `p`. */
  lemma {:induction false} FindFragment(t: TrieNode, p: string)
    requires t.WellFormed()
    ensures t.Find(p).Some? ==> t.Find(p).value.fragment == t.fragment + p && t.Find(p).value.WellFormed()
    decreases |p|
  {
    if p != [] && p[0] in t.children {
      var child := t.children[p[0]];
      FindFragment(child, p[1..]);
      assert t.Find(p) == child.Find(p[1..]);
      assert t.fragment + p == child.fragment + p[1..];
    }
  }

  /** `find` on a non-empty path takes its first character, then searches that child. */
  lemma {:induction false} FindStep(t: TrieNode, p: string)
    requires p != []
    ensures t.Find(p) == if p[0] in t.children then t.children[p[0]].Find(p[1..]) else Wrappers.None
  {
    assert FirstRest(p) == Wrappers.Some((p[0], p[1..]));
  }

  // ---------------------------------------------------------------- add

  /** A fresh child holds no count, and nothing lies below it. */
  lemma {:induction false} NewFind(fragment: string, s: SortOption, d: DisplayData, p: string)
    ensures var n := TrieNode.NewWithFragment(fragment, s, d);
      n.Occurrences(p) == 0 && TotalAt(n, p) == 0
    ensures p != [] ==> TrieNode.NewWithFragment(fragment, s, d).Find(p).None?
  {
  }

  /** `AddFindAt` for the node itself, or when the word ends at this node. */
  lemma {:induction false} AddFindAtHere(t: TrieNode, word: string, p: string)
    requires t.WellFormed() && t.fragment <= word
    requires p == [] || word == t.fragment
    ensures var rem := word[|t.fragment|..]; var found := t.Add(word).0.Find(p);
      if p <= rem then
        && found.Some?
        && found.value.count == t.Occurrences(p) + (if p == rem then 1 else 0)
        && found.value.descendentsCount == TotalAt(t, p) + 1
      else found == t.Find(p)
  {
    var rem := word[|t.fragment|..];
    var after := t.Add(word).0;
    if p == [] {
      assert after.Find(p) == Wrappers.Some(after);
      assert t.Find(p) == Wrappers.Some(t);
      if rem == [] {
        assert t.NextChar(word).None?;
      } else {
        assert t.NextChar(word).Some?;
      }
    } else {
      assert rem == [];
      assert t.NextChar(word).None?;
      assert after.children == t.children;
      assert after.Find(p) == t.Find(p);
    }
  }

  /**
   * Adding `word` counts it on every node of its path and nowhere else: each
   * node whose path `p` starts the rest of the word gains one in its
   * aggregate, and in its own count exactly when `p` is the whole rest; every
   * other node is unchanged, and the path's nodes exist afterwards.
   */
  lemma {:induction false} AddFindAt(t: TrieNode, word: string, p: string)
    requires t.WellFormed() && t.fragment <= word
    ensures var rem := word[|t.fragment|..]; var found := t.Add(word).0.Find(p);
      if p <= rem then
        && found.Some?
        && found.value.count == t.Occurrences(p) + (if p == rem then 1 else 0)
        && found.value.descendentsCount == TotalAt(t, p) + 1
      else found == t.Find(p)
    decreases |word| - |t.fragment|, 1
  {
    var rem := word[|t.fragment|..];
    if p == [] || rem == [] {
      if rem == [] {
        assert word == t.fragment;
      }
      AddFindAtHere(t, word, p);
    } else if p[0] == word[|t.fragment|] {
      AddFindAtChild(t, word, p);
    } else {
      assert !(p <= rem);
      AddFindOff(t, word, p);
    }
  }

  /** `AddFindAt` for a path that follows the word into the child for its next character. */
  lemma {:induction false} AddFindAtChild(t: TrieNode, word: string, p: string)
    requires t.WellFormed() && t.fragment <= word && |t.fragment| < |word|
    requires p != [] && p[0] == word[|t.fragment|]
    ensures var rem := word[|t.fragment|..]; var found := t.Add(word).0.Find(p);
      if p <= rem then
        && found.Some?
        && found.value.count == t.Occurrences(p) + (if p == rem then 1 else 0)
        && found.value.descendentsCount == TotalAt(t, p) + 1
      else found == t.Find(p)
    decreases |word| - |t.fragment|, 0
  {
    var f := t.fragment;
    var rem := word[|f|..];
    var after := t.Add(word).0;
    var c := word[|f|];
    var child := if c in t.children then t.children[c]
                 else TrieNode.NewWithFragment(word[..|f| + 1], t.sortOption, t.displayData);
    PrefixExtend(f, word);
    AddUnfold(t, word);
    var added := child.Add(word).0;
    assert child.fragment == f + [c];
    assert word[|child.fragment|..] == rem[1..];
    AddFindAt(child, word, p[1..]);
    assert p <= rem <==> p[1..] <= rem[1..];
    assert p == rem <==> p[1..] == rem[1..];
    assert |child.fragment| == |f| + 1;
    FindStep(after, p);
    FindStep(t, p);
    if c !in t.children {
      NewFind(word[..|f| + 1], t.sortOption, t.displayData, p[1..]);
    }
  }

  /** A path that leaves the word at its first step finds what it found before. */
  lemma {:induction false} AddFindOff(t: TrieNode, word: string, p: string)
    requires t.WellFormed() && t.fragment <= word && |t.fragment| < |word|
    requires p != [] && p[0] != word[|t.fragment|]
    ensures t.Add(word).0.Find(p) == t.Find(p)
  {
    var after := t.Add(word).0;
    PrefixExtend(t.fragment, word);
    AddUnfold(t, word);
    assert FirstRest(p) == Wrappers.Some((p[0], p[1..]));
    assert p[0] in after.children <==> p[0] in t.children;
    if p[0] in t.children {
      assert after.children[p[0]] == t.children[p[0]];
    }
  }

  /** `add` reports the new count of the word's own node. */
  lemma {:induction false} AddReturnsCount(t: TrieNode, word: string)
    requires t.WellFormed() && t.fragment <= word
    ensures t.Add(word).1 == Wrappers.Success(t.Occurrences(word[|t.fragment|..]) + 1)
    decreases |word| - |t.fragment|
  {
    var f := t.fragment;
    var rem := word[|f|..];
    if rem == [] {
      assert t.NextChar(word).None?;
      assert t.Find(rem) == Wrappers.Some(t);
    } else {
      var c := word[|f|];
      var child := if c in t.children then t.children[c]
                   else TrieNode.NewWithFragment(word[..|f| + 1], t.sortOption, t.displayData);
      OccurrencesViaChild(t, word, child);
      AddUnfold(t, word);
      AddReturnsCount(child, word);
    }
  }

  /** The word's occurrences seen from `t` are those seen from the child for its next character, created if missing. */
  lemma {:induction false} OccurrencesViaChild(t: TrieNode, word: string, child: TrieNode)
    requires t.WellFormed() && t.fragment <= word && |t.fragment| < |word|
    requires var c := word[|t.fragment|];
      child == if c in t.children then t.children[c]
               else TrieNode.NewWithFragment(word[..|t.fragment| + 1], t.sortOption, t.displayData)
    ensures child.WellFormed() && |child.fragment| == |t.fragment| + 1
    ensures t.Occurrences(word[|t.fragment|..]) == child.Occurrences(word[|child.fragment|..])
  {
    var f := t.fragment;
    var rem := word[|f|..];
    var c := word[|f|];
    PrefixExtend(f, word);
    assert |child.fragment| == |f| + 1;
    assert word[|child.fragment|..] == rem[1..];
    FindStep(t, rem);
    if c !in t.children {
      NewFind(word[..|f| + 1], t.sortOption, t.displayData, rem[1..]);
    }
  }

  /** `add` creates nodes with the settings of their parent, so a trie with uniform settings keeps them. */
  ghost predicate Uniform(t: TrieNode, s: SortOption, d: DisplayData)
  {
    && t.sortOption == s && t.displayData == d
    && forall c :: c in t.children ==> Uniform(t.children[c], s, d)
  }

  lemma {:induction false} AddKeepsUniform(t: TrieNode, word: string)
    requires t.WellFormed() && Uniform(t, t.sortOption, t.displayData)
    ensures Uniform(t.Add(word).0, t.sortOption, t.displayData)
    decreases |word| - |t.fragment|
  {
    var f := t.fragment;
    if f <= word && t.NextChar(word).Some? {
      var c := word[|f|];
      var child := if c in t.children then t.children[c]
                   else TrieNode.NewWithFragment(word[..|f| + 1], t.sortOption, t.displayData);
      assert child.fragment == f + [c] <= word;
      AddKeepsUniform(child, word);
      assert t.Add(word).0.children == t.children[c := child.Add(word).0];
    }
  }

  // ---------------------------------------------------------------- the aggregate invariant

  ghost function Pick(m: map<char, TrieNode>): char
    requires m != map[]
  {
    var k :| k in m; k
  }

  /** The sum of the children's aggregate counts. */
  ghost function SumTotals(m: map<char, TrieNode>): nat
    decreases |m|
  {
    if m == map[] then 0
    else
      var k := Pick(m);
      m[k].descendentsCount + SumTotals(m - {k})
  }

  lemma {:induction false} SumRemove(m: map<char, TrieNode>, k: char)
    requires k in m
    ensures SumTotals(m) == m[k].descendentsCount + SumTotals(m - {k})
    decreases |m|
  {
    var j := Pick(m);
    if j != k {
      SumRemove(m - {j}, k);
      SumRemove(m - {k}, j);
      assert (m - {j}) - {k} == (m - {k}) - {j};
    }
  }

  /** Every node's aggregate is its own count plus the aggregates of its children. */
  ghost predicate Aggregated(t: TrieNode)
  {
    && t.descendentsCount == t.count + SumTotals(t.children)
    && forall c :: c in t.children ==> Aggregated(t.children[c])
  }

  lemma {:induction false} EmptyAggregated(fragment: string, s: SortOption, d: DisplayData)
    ensures Aggregated(TrieNode.NewWithFragment(fragment, s, d))
  {
  }

  lemma {:induction false} AddKeepsAggregated(t: TrieNode, word: string)
    requires t.WellFormed() && Aggregated(t)
    ensures Aggregated(t.Add(word).0)
    decreases |word| - |t.fragment|
  {
    var f := t.fragment;
    if !(f <= word) {
    } else if |f| == |word| {
      assert t.NextChar(word).None?;
      assert t.Add(word).0 == t.(count := t.count + 1, descendentsCount := t.descendentsCount + 1);
    } else {
      var c := word[|f|];
      var child := if c in t.children then t.children[c]
                   else TrieNode.NewWithFragment(word[..|f| + 1], t.sortOption, t.displayData);
      PrefixExtend(f, word);
      AddUnfold(t, word);
      AddKeepsAggregated(child, word);
      AddCountsHere(child, word);
      AggregatedWithChild(t, c, child, child.Add(word).0);
    }
  }

  /** Replacing the child under `c` by one with an aggregate one larger keeps the invariant once the node counts one more. */
  lemma {:induction false} AggregatedWithChild(t: TrieNode, c: char, child: TrieNode, added: TrieNode)
    requires Aggregated(t)
    requires c in t.children ==> t.children[c] == child
    requires c !in t.children ==> child.descendentsCount == 0
    requires Aggregated(added) && added.descendentsCount == child.descendentsCount + 1
    ensures Aggregated(t.(descendentsCount := t.descendentsCount + 1, children := t.children[c := added]))
  {
    var after := t.(descendentsCount := t.descendentsCount + 1, children := t.children[c := added]);
    SumOneMore(t.children, c, child, added);
    assert forall k :: k in after.children ==> Aggregated(after.children[k]);
  }

  /** `add` raises the aggregate of the node it starts at by one. */
  lemma {:induction false} AddCountsHere(t: TrieNode, word: string)
    requires t.WellFormed() && t.fragment <= word
    ensures t.Add(word).0.descendentsCount == t.descendentsCount + 1
  {
    if |t.fragment| < |word| {
      PrefixExtend(t.fragment, word);
      AddUnfold(t, word);
    } else {
      assert t.NextChar(word).None?;
    }
  }

  /** Replacing (or adding) the child under `c` by one with an aggregate one larger adds one to the sum. */
  lemma {:induction false} SumOneMore(m: map<char, TrieNode>, c: char, child: TrieNode, added: TrieNode)
    requires c in m ==> m[c] == child
    requires c !in m ==> child.descendentsCount == 0
    requires added.descendentsCount == child.descendentsCount + 1
    ensures SumTotals(m[c := added]) == SumTotals(m) + 1
  {
    var kids := m[c := added];
    SumRemove(kids, c);
    assert kids - {c} == m - {c};
    if c in m {
      SumRemove(m, c);
    } else {
      assert m - {c} == m;
    }
  }

  // ---------------------------------------------------------------- populate

  /** Adding each of `words` in turn keeps every aggregate equal to the node's count plus its children's aggregates. */
  lemma {:induction false} PopulateKeepsAggregated(t: TrieNode, words: seq<string>)
    requires t.WellFormed() && Aggregated(t)
    requires forall i :: 0 <= i < |words| ==> t.fragment <= words[i]
    ensures Aggregated(t.Populate(words))
    decreases |words|
  {
    if words != [] {
      var init := words[..|words| - 1];
      assert forall i :: 0 <= i < |init| ==> t.fragment <= init[i] by {
        forall i | 0 <= i < |init| ensures t.fragment <= init[i] {
          assert init[i] == words[i];
        }
      }
      PopulateKeepsAggregated(t, init);
      AddKeepsAggregated(t.Populate(init), words[|words| - 1]);
    }
  }

  /** `from` builds a trie whose every aggregate is the node's count plus its children's aggregates. */
  lemma {:induction false} FromAggregated(words: seq<string>)
    ensures Aggregated(TrieNode.From(words))
  {
    var root := TrieNode.New();
    EmptyAggregated("", SortOption.Value, DisplayData.DirectCount);
    AllStartEmpty(words);
    PopulateKeepsAggregated(root, words);
  }

  /** Every word starts with the empty fragment of the root. */
  lemma {:induction false} AllStartEmpty(words: seq<string>)
    ensures forall i :: 0 <= i < |words| ==> TrieNode.New().fragment <= words[i]
  {
  }

  /** Two child maps with the same keys and the same aggregates under each key have the same sum. */
  lemma {:induction false} SumTotalsSameCounts(m1: map<char, TrieNode>, m2: map<char, TrieNode>)
    requires m1.Keys == m2.Keys
    requires forall k :: k in m1 ==> m1[k].descendentsCount == m2[k].descendentsCount
    ensures SumTotals(m1) == SumTotals(m2)
    decreases |m1|
  {
    if m1 != map[] {
      var k := Pick(m1);
      SumRemove(m2, k);
      SumTotalsSameCounts(m1 - {k}, m2 - {k});
    }
  }

  /** `set_sort_option` keeps the aggregate invariant. */
  lemma {:induction false} SetSortOptionKeepsAggregated(t: TrieNode, s: SortOption)
    requires Aggregated(t)
    ensures Aggregated(t.SetSortOption(s))
    decreases t
  {
    var r := t.SetSortOption(s);
    forall c | c in r.children
      ensures Aggregated(r.children[c]) && r.children[c].descendentsCount == t.children[c].descendentsCount
    {
      assert r.children[c] == t.children[c].SetSortOption(s);
      SetSortOptionKeepsAggregated(t.children[c], s);
    }
    SumTotalsSameCounts(r.children, t.children);
  }

  /** `set_display_data` keeps the aggregate invariant. */
  lemma {:induction false} SetDisplayDataKeepsAggregated(t: TrieNode, d: DisplayData)
    requires Aggregated(t)
    ensures Aggregated(t.SetDisplayData(d))
    decreases t
  {
    var r := t.SetDisplayData(d);
    forall c | c in r.children
      ensures Aggregated(r.children[c]) && r.children[c].descendentsCount == t.children[c].descendentsCount
    {
      assert r.children[c] == t.children[c].SetDisplayData(d);
      SetDisplayDataKeepsAggregated(t.children[c], d);
    }
    SumTotalsSameCounts(r.children, t.children);
  }

  /**
   * After adding `words`, the node for a word counts how often that word was
   * added, and its aggregate how many of the added words start with it.
   */
  lemma {:induction false} PopulateCounts(t: TrieNode, words: seq<string>, p: string)
    requires t.WellFormed()
    requires forall i :: 0 <= i < |words| ==> t.fragment <= words[i]
    ensures t.Populate(words).Occurrences(p) == t.Occurrences(p) + multiset(words)[t.fragment + p]
    ensures TotalAt(t.Populate(words), p) == TotalAt(t, p) + CountPrefixed(words, t.fragment + p)
    decreases |words|
  {
    if words != [] {
      PopulateCounts(t, words[..|words| - 1], p);
      PopulateStep(t, words, p);
      LastSplit(words);
    }
  }

  /** A non-empty sequence's elements are those before its last one, and that one. */
  lemma {:induction false} LastSplit<T>(s: seq<T>)
    requires s != []
    ensures multiset(s) == multiset(s[..|s| - 1]) + multiset{s[|s| - 1]}
  {
    assert s == s[..|s| - 1] + [s[|s| - 1]];
  }

  /** One more word counts at the nodes of its path. */
  lemma {:induction false} PopulateStep(t: TrieNode, words: seq<string>, p: string)
    requires t.WellFormed() && words != []
    requires forall i :: 0 <= i < |words| ==> t.fragment <= words[i]
    ensures var before, after, last := t.Populate(words[..|words| - 1]), t.Populate(words), words[|words| - 1];
      && after.Occurrences(p) == before.Occurrences(p) + (if last == t.fragment + p then 1 else 0)
      && TotalAt(after, p) == TotalAt(before, p) + (if t.fragment + p <= last then 1 else 0)
  {
    var last := words[|words| - 1];
    var before := t.Populate(words[..|words| - 1]);
    assert t.Populate(words) == before.Add(last).0;
    AddFindAt(before, last, p);
    var rem := last[|t.fragment|..];
    assert last == t.fragment + rem;
    assert p <= rem <==> t.fragment + p <= last by {
      PrefixAfter(t.fragment, p, rem);
    }
    assert p == rem <==> t.fragment + p == last;
  }

  lemma {:induction false} PrefixAfter(f: string, p: string, rem: string)
    ensures p <= rem <==> f + p <= f + rem
  {
    if f + p <= f + rem {
      assert p == (f + p)[|f|..];
      assert rem[..|p|] == (f + rem)[|f|..|f| + |p|];
    }
  }

  /** The root's total is the number of words added. */
  lemma {:induction false} PopulateTotal(t: TrieNode, words: seq<string>)
    requires t.WellFormed()
    requires forall i :: 0 <= i < |words| ==> t.fragment <= words[i]
    ensures t.Populate(words).TotalOccurrences() == t.TotalOccurrences() + |words|
  {
    PopulateCounts(t, words, []);
    assert t.fragment + [] == t.fragment;
    AllPrefixed(words, t.fragment);
    assert TotalAt(t, []) == t.descendentsCount;
    assert TotalAt(t.Populate(words), []) == t.Populate(words).descendentsCount;
  }

  lemma {:induction false} AllPrefixed(words: seq<string>, x: string)
    requires forall i :: 0 <= i < |words| ==> x <= words[i]
    ensures CountPrefixed(words, x) == |words|
    decreases |words|
  {
    if words != [] {
      AllPrefixed(words[..|words| - 1], x);
    }
  }

  /** `from`: the trie of a list of words counts each word as often as it occurs, and the root counts them all. */
  lemma {:induction false} FromCounts(words: seq<string>, w: string)
    ensures TrieNode.From(words).Occurrences(w) == multiset(words)[w]
    ensures TrieNode.From(words).TotalOccurrences() == |words|
    ensures TotalAt(TrieNode.From(words), w) == CountPrefixed(words, w)
  {
    var root := TrieNode.New();
    assert root.fragment + w == w;
    NewFind(root.fragment, root.sortOption, root.displayData, w);
    PopulateCounts(root, words, w);
    PopulateTotal(root, words);
  }

  /** The occurrence counts of the example list of words. */
  lemma {:induction false} FromExample(words: seq<string>)
    requires words == ["foo", "bar", "baz", "foo", "baz", "foo", "b"]
    ensures var trie := TrieNode.From(words);
      && trie.Occurrences("foo") == 3 && trie.Occurrences("bar") == 1
      && trie.Occurrences("baz") == 2 && trie.Occurrences("b") == 1
      && trie.TotalOccurrences() == 7
  {
    FromCounts(words, "foo");
    FromCounts(words, "bar");
    FromCounts(words, "baz");
    FromCounts(words, "b");
  }

  /** Proper prefixes of the example words that were never added occur zero times. */
  lemma {:induction false} FromExampleAbsent(words: seq<string>)
    requires words == ["foo", "bar", "baz", "foo", "baz", "foo", "b"]
    ensures var trie := TrieNode.From(words);
      trie.Occurrences("f") == 0 && trie.Occurrences("fo") == 0 && trie.Occurrences("ba") == 0
  {
    FromCounts(words, "f");
    FromCounts(words, "fo");
    FromCounts(words, "ba");
  }

  // ---------------------------------------------------------------- the setters

  /** `set_sort_option` gives every node the new order and changes nothing else. */
  lemma {:induction false} SetSortOptionFind(t: TrieNode, s: SortOption, p: string)
    ensures var found, before := t.SetSortOption(s).Find(p), t.Find(p);
      && (found.Some? <==> before.Some?)
      && (found.Some? ==>
            && found.value.sortOption == s
            && found.value.displayData == before.value.displayData
            && found.value.fragment == before.value.fragment
            && found.value.count == before.value.count
            && found.value.descendentsCount == before.value.descendentsCount
            && found.value.children.Keys == before.value.children.Keys)
    decreases |p|
  {
    if p != [] && p[0] in t.children {
      SetSortOptionFind(t.children[p[0]], s, p[1..]);
    }
  }

  /** `set_display_data` gives every node the new display and changes nothing else. */
  lemma {:induction false} SetDisplayDataFind(t: TrieNode, d: DisplayData, p: string)
    ensures var found, before := t.SetDisplayData(d).Find(p), t.Find(p);
      && (found.Some? <==> before.Some?)
      && (found.Some? ==>
            && found.value.displayData == d
            && found.value.sortOption == before.value.sortOption
            && found.value.fragment == before.value.fragment
            && found.value.count == before.value.count
            && found.value.descendentsCount == before.value.descendentsCount
            && found.value.children.Keys == before.value.children.Keys)
    decreases |p|
  {
    if p != [] && p[0] in t.children {
      SetDisplayDataFind(t.children[p[0]], d, p[1..]);
    }
  }

  // ---------------------------------------------------------------- value and children

  /** `value` reads back: the fragment, a tab, and the decimal count the display setting chooses. */
  lemma {:induction false} ValueReadsBack(t: TrieNode)
    ensures t.fragment == [] ==> t.Value() == []
    ensures t.fragment != [] && t.displayData == DisplayData.None ==> t.Value() == t.fragment
    ensures t.fragment != [] && t.displayData != DisplayData.None ==>
      var v, n := t.Value(), |t.fragment|;
      && |v| > n + 1 && v[..n] == t.fragment && v[n] == '\t' && IsDigits(v[n + 1..])
      && ParseNat(v[n + 1..]) == (if t.displayData == DisplayData.DirectCount then t.count else t.descendentsCount)
  {
    if t.fragment != [] && t.displayData != DisplayData.None {
      var n := |t.fragment|;
      var shown := if t.displayData == DisplayData.DirectCount then t.count else t.descendentsCount;
      var v := t.Value();
      assert v == t.fragment + "\t" + NatToString(shown);
      assert v[n + 1..] == NatToString(shown);
      ParseNatToString(shown);
    }
  }

  /** `children` lists every child exactly once. */
  lemma {:induction false} ChildKeysCover(t: TrieNode)
    ensures var ks := t.ChildKeys();
      && |ks| == |t.children|
      && (forall k :: k in t.children <==> k in ks)
      && (forall i, j :: 0 <= i < j < |ks| ==> ks[i] != ks[j])
  {
    var w := t.Weights();
    var up := SortBy(t.children.Keys, w);
    var ks := t.ChildKeys();
    if t.sortOption == SortOption.ValueReversed {
      forall k | k in t.children
        ensures k in ks
      {
        var i :| 0 <= i < |up| && up[i] == k;
        assert ks[|up| - 1 - i] == k;
      }
      ChildKeysDescend(t);
    } else {
      assert ks == up;
      forall i, j | 0 <= i < j < |ks|
        ensures ks[i] != ks[j]
      {
        SortByPrecedes(t.children.Keys, w, i, j);
      }
    }
  }

  /** Under the two value orders every weight is 0, so only the keys decide. */
  lemma {:induction false} ValueWeights(t: TrieNode, a: char, b: char)
    requires t.sortOption == SortOption.Value || t.sortOption == SortOption.ValueReversed
    requires a in t.children && b in t.children
    ensures Precedes(t.Weights(), a, b) <==> a < b
  {
    assert t.Weights()[a] == 0 && t.Weights()[b] == 0;
  }

  /** Ordered by value, the keys ascend. */
  lemma {:induction false} ChildKeysAscend(t: TrieNode)
    requires t.sortOption == SortOption.Value
    ensures forall i, j :: 0 <= i < j < |t.ChildKeys()| ==> t.ChildKeys()[i] < t.ChildKeys()[j]
  {
    var w := t.Weights();
    var up := SortBy(t.children.Keys, w);
    assert t.ChildKeys() == up;
    forall i, j | 0 <= i < j < |up|
      ensures up[i] < up[j]
    {
      SortByPrecedes(t.children.Keys, w, i, j);
      ValueWeights(t, up[i], up[j]);
    }
  }

  /** Ordered by value reversed, the keys descend. */
  lemma {:induction false} ChildKeysDescend(t: TrieNode)
    requires t.sortOption == SortOption.ValueReversed
    ensures forall i, j :: 0 <= i < j < |t.ChildKeys()| ==> t.ChildKeys()[i] > t.ChildKeys()[j]
  {
    var w := t.Weights();
    var up := SortBy(t.children.Keys, w);
    var ks := Reverse(up);
    assert t.ChildKeys() == ks;
    forall i, j | 0 <= i < j < |ks|
      ensures ks[i] > ks[j]
    {
      var a, b := |up| - 1 - j, |up| - 1 - i;
      assert ks[i] == up[b] && ks[j] == up[a];
      SortByPrecedes(t.children.Keys, w, a, b);
      ValueWeights(t, up[a], up[b]);
    }
  }

  /**
   * Under a count order the children follow the chosen count, ascending or
   * descending, and children with equal counts stay in ascending key order,
   * as the stable sort of the key-ordered children leaves them.
   */
  lemma {:induction false} ChildKeysByCount(t: TrieNode)
    ensures var ks := t.ChildKeys();
      && (t.sortOption == SortOption.DirectCountAscending ==>
            forall i, j :: 0 <= i < j < |ks| ==> var a, b := t.children[ks[i]].count, t.children[ks[j]].count;
              a < b || (a == b && ks[i] < ks[j]))
      && (t.sortOption == SortOption.DirectCountDescending ==>
            forall i, j :: 0 <= i < j < |ks| ==> var a, b := t.children[ks[i]].count, t.children[ks[j]].count;
              a > b || (a == b && ks[i] < ks[j]))
      && (t.sortOption == SortOption.TotalCountAscending ==>
            forall i, j :: 0 <= i < j < |ks| ==> var a, b := t.children[ks[i]].descendentsCount, t.children[ks[j]].descendentsCount;
              a < b || (a == b && ks[i] < ks[j]))
      && (t.sortOption == SortOption.TotalCountDescending ==>
            forall i, j :: 0 <= i < j < |ks| ==> var a, b := t.children[ks[i]].descendentsCount, t.children[ks[j]].descendentsCount;
              a > b || (a == b && ks[i] < ks[j]))
  {
    var w := t.Weights();
    var ks := t.ChildKeys();
    if t.sortOption != SortOption.ValueReversed {
      assert ks == SortBy(t.children.Keys, w);
      forall i, j | 0 <= i < j < |ks|
        ensures Precedes(w, ks[i], ks[j])
      {
        SortByPrecedes(t.children.Keys, w, i, j);
      }
    }
  }

  /** `children` and the projection follow the same key order. */
  lemma {:induction false} ChildrenFollowKeys(t: TrieNode)
    ensures |t.Children()| == |t.AsTree().children| == Node.CountChildren(t.AsTree()) == |t.children|
    ensures forall i :: 0 <= i < |t.Children()| ==>
      t.Children()[i] == t.children[t.ChildKeys()[i]] && t.AsTree().children[i] == t.Children()[i].AsTree()
    ensures t.AsTree().value == t.Value()
  {
  }

  /**
   * Drawn by `fmt`, the trie's root with children starts with two line breaks:
   * its value is empty, so the first child's line follows an empty line.
   */
  lemma {:induction false} RootDisplayBlankLine(t: TrieNode)
    requires t.fragment == [] && t.children != map[]
    ensures var text := Node.Display(t.AsTree()); |text| >= 2 && text[0] == '\n' && text[1] == '\n'
  {
    assert t.AsTree().value == [];
    assert |t.AsTree().children| > 0 by {
      var k :| k in t.children;
      assert |t.ChildKeys()| == |t.children| > 0;
    }
    Node.EmptyRootDisplay(t.AsTree());
  }
}
