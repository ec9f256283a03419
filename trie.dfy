/**
 * The character trie of src/implementations/trie.rs.  Every node holds the
 * word fragment that leads to it, how often exactly that word was added
 * (`count`), how often it or any word below it was added (`descendentsCount`),
 * its children keyed by the next character, and two settings: the order in
 * which `children` lists the children and what `value` shows next to the
 * fragment.
 *
 * `TrieNode` is the value of a subtrie and carries the specification; the
 * class `Trie` is the node object that `add` and the setters update in place.
 */
module Trie {
  import Wrappers
  import opened Text
  import Node

  /** The order in which `children` returns the child nodes. */
  datatype SortOption =
    | Value
    | ValueReversed
    | DirectCountAscending
    | DirectCountDescending
    | TotalCountAscending
    | TotalCountDescending

  /** What `value` shows after the fragment. */
  datatype DisplayData = None | DirectCount | TotalCount

  const IncompatiblePrefix: string := "cannot add word to node with incompatible prefix"

  // ---------------------------------------------------------------- ordering keys

  /** Under the weights `w`, `a` comes before `b`: a smaller weight first, equal weights in ascending key order. */
  predicate Precedes(w: map<char, int>, a: char, b: char)
    requires a in w && b in w
  {
    w[a] < w[b] || (w[a] == w[b] && a < b)
  }

  lemma {:induction false} LeastExists(s: set<char>, w: map<char, int>)
    requires s != {} && s <= w.Keys
    ensures exists k :: k in s && forall x :: x in s && x != k ==> Precedes(w, k, x)
    decreases |s|
  {
    var y :| y in s;
    if s != {y} {
      var rest := s - {y};
      LeastExists(rest, w);
      var k :| k in rest && forall x :: x in rest && x != k ==> Precedes(w, k, x);
      if Precedes(w, y, k) {
        forall x | x in s && x != y
          ensures Precedes(w, y, x)
        {
          if x != k {
            assert Precedes(w, k, x);
          }
        }
      } else {
        assert Precedes(w, k, y);
        assert forall x :: x in s && x != k ==> Precedes(w, k, x);
      }
    } else {
      assert forall x :: x in s && x != y ==> Precedes(w, y, x);
    }
  }

  /** The key of `s` that comes first under `w`. */
  function Least(s: set<char>, w: map<char, int>): (k: char)
    requires s != {} && s <= w.Keys
    ensures k in s && forall x :: x in s && x != k ==> Precedes(w, k, x)
  {
    LeastExists(s, w);
    var k :| k in s && forall x :: x in s && x != k ==> Precedes(w, k, x);
    k
  }

  /** The sort key of a child with the given counts under `sortOption`; 0 for the two value orders. */
  function Weight(sortOption: SortOption, count: nat, total: nat): int
  {
    match sortOption
    case DirectCountAscending => count
    case DirectCountDescending => 0 - count
    case TotalCountAscending => total
    case TotalCountDescending => 0 - total
    case _ => 0
  }

  /** The keys of `s` listed once each, in the order of `w`. */
  function SortBy(s: set<char>, w: map<char, int>): (r: seq<char>)
    requires s <= w.Keys
    ensures |r| == |s|
    ensures forall i :: 0 <= i < |r| ==> r[i] in s
    ensures forall k :: k in s ==> k in r
    decreases |s|
  {
    if s == {} then []
    else
      var k := Least(s, w);
      [k] + SortBy(s - {k}, w)
  }

  /** `SortBy` lists the keys in strictly increasing order under `w`. */
  lemma {:induction false} SortByOrdered(s: set<char>, w: map<char, int>)
    requires s <= w.Keys
    ensures forall i, j :: 0 <= i < j < |SortBy(s, w)| ==> Precedes(w, SortBy(s, w)[i], SortBy(s, w)[j])
    decreases |s|
  {
    if s != {} {
      var k := Least(s, w);
      var rest := SortBy(s - {k}, w);
      SortByOrdered(s - {k}, w);
      var r := SortBy(s, w);
      assert r == [k] + rest;
      forall i, j | 0 <= i < j < |r|
        ensures Precedes(w, r[i], r[j])
      {
        if i == 0 {
          assert r[j] == rest[j - 1];
          assert rest[j - 1] in s - {k};
        } else {
          assert r[i] == rest[i - 1] && r[j] == rest[j - 1];
          assert Precedes(w, rest[i - 1], rest[j - 1]);
        }
      }
    }
  }

  /** Any two positions of `SortBy` are in the order of `w`. */
  lemma {:induction false} SortByPrecedes(s: set<char>, w: map<char, int>, i: int, j: int)
    requires s <= w.Keys && 0 <= i < j < |SortBy(s, w)|
    ensures Precedes(w, SortBy(s, w)[i], SortBy(s, w)[j])
  {
    SortByOrdered(s, w);
  }

  function Reverse<T>(s: seq<T>): (r: seq<T>)
    ensures |r| == |s|
    ensures forall i :: 0 <= i < |s| ==> r[i] == s[|s| - 1 - i]
  {
    seq(|s|, i requires 0 <= i < |s| => s[|s| - 1 - i])
  }

  /** Reversing keeps every element, as often as it occurs. */
  lemma {:induction false} ReverseMultiset<T>(s: seq<T>)
    ensures multiset(Reverse(s)) == multiset(s)
    decreases |s|
  {
    if s != [] {
      ReverseMultiset(s[1..]);
      assert Reverse(s) == Reverse(s[1..]) + [s[0]];
      assert s == [s[0]] + s[1..];
    }
  }

  /** `first_rest`: the first character and the rest, or nothing for the empty string. */
  function FirstRest(s: string): (r: Wrappers.Option<(char, string)>)
    ensures r.None? <==> s == []
    ensures r.Some? ==> [r.value.0] + r.value.1 == s
  {
    if s == [] then Wrappers.None else Wrappers.Some((s[0], s[1..]))
  }

  // ---------------------------------------------------------------- the value of a subtrie

  datatype TrieNode = TrieNode(
    fragment: string,
    count: nat,
    descendentsCount: nat,
    children: map<char, TrieNode>,
    sortOption: SortOption,
    displayData: DisplayData)
  {
    /** `new_with_fragment`: a node for `fragment` with both counts zero and no children. */
    static function NewWithFragment(fragment: string, sortOption: SortOption, displayData: DisplayData): (r: TrieNode)
      ensures r.WellFormed() && r.TotalOccurrences() == 0
    {
      TrieNode(fragment, 0, 0, map[], sortOption, displayData)
    }

    /** `new`: the empty root, ordered by value and showing direct counts. */
    static function New(): (r: TrieNode)
      ensures r.WellFormed() && r.fragment == [] && r.Value() == []
      ensures r.sortOption == SortOption.Value && r.displayData == DisplayData.DirectCount
    {
      NewWithFragment("", SortOption.Value, DisplayData.DirectCount)
    }

    /** `with_sort_and_display`: the empty root with the given settings. */
    static function WithSortAndDisplay(sortOption: SortOption, displayData: DisplayData): (r: TrieNode)
      ensures r.WellFormed() && r.fragment == [] && r.Value() == []
      ensures r.sortOption == sortOption && r.displayData == displayData
    {
      NewWithFragment("", sortOption, displayData)
    }

    /** Every child sits under the character that extends this node's fragment to the child's. */
    ghost predicate WellFormed()
    {
      forall c :: c in children ==> children[c].fragment == fragment + [c] && children[c].WellFormed()
    }

    /** `next_char`: the character of `word` right after this node's fragment, if there is one. */
    function NextChar(word: string): Wrappers.Option<char>
    {
      if |fragment| < |word| then Wrappers.Some(word[|fragment|]) else Wrappers.None
    }

    /** `find`: the node reached from here by following the characters of `remaining`. */
    function Find(remaining: string): Wrappers.Option<TrieNode>
      decreases |remaining|
    {
      if remaining == [] then Wrappers.Some(this)
      else
        var split := FirstRest(remaining);
        if split.None? then Wrappers.None
        else if split.value.0 in children then children[split.value.0].Find(split.value.1)
        else Wrappers.None
    }

    /** `occurrences`: the direct count of the node reached by `word`, or 0 when there is none. */
    function Occurrences(word: string): nat
    {
      match Find(word)
      case None => 0
      case Some(n) => n.count
    }

    /** `total_occurrences`. */
    function TotalOccurrences(): nat
    {
      descendentsCount
    }

    /**
     * `add`: fails, changing nothing, unless this node's fragment starts the
     * word; otherwise counts the word here, and either counts it as this
     * node's own word or passes it on to the child for the next character,
     * creating that child first, and returns the final node's new count.
     */
    function Add(word: string): (r: (TrieNode, Wrappers.Result<nat, string>))
      requires WellFormed()
      ensures r.1.Success? <==> fragment <= word
      ensures r.1.Failure? ==> r.0 == this
      ensures r.0.fragment == fragment
      ensures r.0.WellFormed()
      decreases |word| - |fragment|
    {
      if !(fragment <= word) then (this, Wrappers.Failure(IncompatiblePrefix))
      else
        var bumped := this.(descendentsCount := descendentsCount + 1);
        match NextChar(word)
        case None => (bumped.(count := count + 1), Wrappers.Success(count + 1))
        case Some(c) =>
          var child := if c in children then children[c]
                       else NewWithFragment(word[..|fragment| + 1], sortOption, displayData);
          PrefixExtend(fragment, word);
          assert child.fragment == fragment + [c] <= word;
          var (added, res) := child.Add(word);
          (bumped.(children := children[c := added]), Wrappers.Success(res.value))
    }

    /** `populate`: adds the words one after the other; each must start with this node's fragment. */
    function Populate(words: seq<string>): (r: TrieNode)
      requires WellFormed()
      requires forall i :: 0 <= i < |words| ==> fragment <= words[i]
      ensures r.fragment == fragment && r.WellFormed()
    {
      if words == [] then this
      else Populate(words[..|words| - 1]).Add(words[|words| - 1]).0
    }

    /** `from`: a new trie holding the given words. */
    static function From(words: seq<string>): (r: TrieNode)
      ensures r.fragment == [] && r.WellFormed()
    {
      New().Populate(words)
    }

    /** `from_with_sort_and_display`: a new trie with the given settings holding the given words. */
    static function FromWithSortAndDisplay(words: seq<string>, sortOption: SortOption, displayData: DisplayData): (r: TrieNode)
      ensures r.fragment == [] && r.WellFormed()
    {
      WithSortAndDisplay(sortOption, displayData).Populate(words)
    }

    /** `set_sort_option`: the setting replaced here and in every descendant. */
    function SetSortOption(s: SortOption): (r: TrieNode)
      ensures r.fragment == fragment && r.count == count && r.descendentsCount == descendentsCount
      ensures r.sortOption == s && r.displayData == displayData && r.children.Keys == children.Keys
    {
      this.(sortOption := s, children := map c | c in children :: children[c].SetSortOption(s))
    }

    /** `set_display_data`: the setting replaced here and in every descendant. */
    function SetDisplayData(d: DisplayData): (r: TrieNode)
      ensures r.fragment == fragment && r.count == count && r.descendentsCount == descendentsCount
      ensures r.displayData == d && r.sortOption == sortOption && r.children.Keys == children.Keys
    {
      this.(displayData := d, children := map c | c in children :: children[c].SetDisplayData(d))
    }

    /** `value`: the empty string at the root, else the fragment and the count the display setting asks for. */
    function Value(): string
    {
      if fragment == [] then []
      else
        match displayData
        case None => fragment
        case DirectCount => fragment + "\t" + NatToString(count)
        case TotalCount => fragment + "\t" + NatToString(descendentsCount)
    }

    function Weights(): (w: map<char, int>)
      ensures w.Keys == children.Keys
    {
      map k | k in children :: Weight(sortOption, children[k].count, children[k].descendentsCount)
    }

    /** The keys of the children in the order `children` returns them. */
    function ChildKeys(): (ks: seq<char>)
      ensures |ks| == |children|
      ensures forall i :: 0 <= i < |ks| ==> ks[i] in children
    {
      var ascending := SortBy(children.Keys, Weights());
      if sortOption == SortOption.ValueReversed then Reverse(ascending) else ascending
    }

    /** `children`: the child nodes in the order the sort option asks for. */
    function Children(): (r: seq<TrieNode>)
      ensures |r| == |children|
      ensures forall i :: 0 <= i < |r| ==> r[i] == children[ChildKeys()[i]]
    {
      var ks := ChildKeys();
      seq(|ks|, i requires 0 <= i < |ks| => children[ks[i]])
    }

    /** The projection onto the common node contract. */
    function AsTree(): (r: Node.Tree)
      ensures r.value == Value() && |r.children| == |children|
    {
      var ks := ChildKeys();
      Node.Tree(Value(), seq(|ks|, i requires 0 <= i < |ks| => children[ks[i]].AsTree()))
    }
  }

  /** `set_sort_option` keeps every fragment where it was. */
  lemma {:induction false} SetSortOptionWellFormed(t: TrieNode, s: SortOption)
    requires t.WellFormed()
    ensures t.SetSortOption(s).WellFormed()
  {
    var r := t.SetSortOption(s);
    forall c | c in r.children
      ensures r.children[c].fragment == r.fragment + [c] && r.children[c].WellFormed()
    {
      SetSortOptionWellFormed(t.children[c], s);
    }
  }

  /** Replacing the setting here and every child by its updated value is `set_sort_option`. */
  lemma {:induction false} SetSortOptionByChildren(t: TrieNode, s: SortOption, updated: map<char, TrieNode>)
    requires updated.Keys == t.children.Keys
    requires forall k :: k in updated ==> updated[k] == t.children[k].SetSortOption(s)
    ensures t.(sortOption := s, children := updated) == t.SetSortOption(s)
    ensures t.WellFormed() ==> t.SetSortOption(s).WellFormed()
  {
    assert updated == t.SetSortOption(s).children;
    if t.WellFormed() {
      SetSortOptionWellFormed(t, s);
    }
  }

  /** `set_display_data` keeps every fragment where it was. */
  lemma {:induction false} SetDisplayDataWellFormed(t: TrieNode, d: DisplayData)
    requires t.WellFormed()
    ensures t.SetDisplayData(d).WellFormed()
  {
    var r := t.SetDisplayData(d);
    forall c | c in r.children
      ensures r.children[c].fragment == r.fragment + [c] && r.children[c].WellFormed()
    {
      SetDisplayDataWellFormed(t.children[c], d);
    }
  }

  /** Replacing the setting here and every child by its updated value is `set_display_data`. */
  lemma {:induction false} SetDisplayDataByChildren(t: TrieNode, d: DisplayData, updated: map<char, TrieNode>)
    requires updated.Keys == t.children.Keys
    requires forall k :: k in updated ==> updated[k] == t.children[k].SetDisplayData(d)
    ensures t.(displayData := d, children := updated) == t.SetDisplayData(d)
    ensures t.WellFormed() ==> t.SetDisplayData(d).WellFormed()
  {
    assert updated == t.SetDisplayData(d).children;
    if t.WellFormed() {
      SetDisplayDataWellFormed(t, d);
    }
  }

  /** One step of `add` when the word goes on past this node's fragment. */
  lemma {:induction false} AddUnfold(t: TrieNode, word: string)
    requires t.WellFormed() && t.fragment <= word && |t.fragment| < |word|
    ensures var c := word[|t.fragment|];
      var child := if c in t.children then t.children[c]
                   else TrieNode.NewWithFragment(word[..|t.fragment| + 1], t.sortOption, t.displayData);
      && child.fragment <= word
      && t.Add(word) == (t.(descendentsCount := t.descendentsCount + 1, children := t.children[c := child.Add(word).0]),
                         Wrappers.Success(child.Add(word).1.value))
  {
    var c := word[|t.fragment|];
    assert t.NextChar(word) == Wrappers.Some(c);
    PrefixExtend(t.fragment, word);
    if c in t.children {
      var child := t.children[c];
      assert child.fragment <= word;
      var sub := child.Add(word);
      assert t.Add(word) == (t.(descendentsCount := t.descendentsCount + 1, children := t.children[c := sub.0]),
                             Wrappers.Success(sub.1.value));
    } else {
      var child := TrieNode.NewWithFragment(word[..|t.fragment| + 1], t.sortOption, t.displayData);
      assert child.fragment <= word;
      var sub := child.Add(word);
      assert t.Add(word) == (t.(descendentsCount := t.descendentsCount + 1, children := t.children[c := sub.0]),
                             Wrappers.Success(sub.1.value));
    }
  }

  /** The fragment of the next node on the way to `word` is again a prefix of `word`. */
  lemma {:induction false} PrefixExtend(f: string, word: string)
    requires f <= word && |f| < |word|
    ensures f + [word[|f|]] == word[..|f| + 1]
    ensures word[..|f| + 1] <= word
  {
    assert f == word[..|f|];
    assert word[..|f| + 1] == word[..|f|] + [word[|f|]];
  }

  // ---------------------------------------------------------------- the node object

  /**
   * A trie node that `add`, `populate` and the setters update in place.  Its
   * children are owned by its map, as a `BTreeMap<char, Trie>` owns them, so
   * no node is shared and each child is held as the value of its subtrie.
   */
  class Trie {
    var fragment: string
    var count: nat
    var descendentsCount: nat
    var children: map<char, TrieNode>
    var sortOption: SortOption
    var displayData: DisplayData

    /** The value of the subtrie rooted at this node. */
    function Model(): TrieNode
      reads this
    {
      TrieNode(fragment, count, descendentsCount, children, sortOption, displayData)
    }

    /** The node is valid when its value is well formed. */
    ghost predicate Valid()
      reads this
    {
      Model().WellFormed()
    }

    /** `new_with_fragment`. */
    constructor NewWithFragment(fragment: string, sortOption: SortOption, displayData: DisplayData)
      ensures Valid()
      ensures Model() == TrieNode.NewWithFragment(fragment, sortOption, displayData)
    {
      this.fragment := fragment;
      count := 0;
      descendentsCount := 0;
      children := map[];
      this.sortOption := sortOption;
      this.displayData := displayData;
    }

    /** `new`. */
    constructor New()
      ensures Valid()
      ensures Model() == TrieNode.New()
    {
      fragment := "";
      count := 0;
      descendentsCount := 0;
      children := map[];
      sortOption := SortOption.Value;
      displayData := DisplayData.DirectCount;
    }

    /** `with_sort_and_display`. */
    constructor WithSortAndDisplay(sortOption: SortOption, displayData: DisplayData)
      ensures Valid()
      ensures Model() == TrieNode.WithSortAndDisplay(sortOption, displayData)
    {
      fragment := "";
      count := 0;
      descendentsCount := 0;
      children := map[];
      this.sortOption := sortOption;
      this.displayData := displayData;
    }

    /** `next_char`: the character of `word` at the position just past this node's fragment. */
    function NextChar(word: string): (r: Wrappers.Option<char>)
      reads this
      ensures r == Model().NextChar(word)
      ensures r.Some? <==> |fragment| < |word|
      ensures r.Some? ==> r.value == word[|fragment|]
    {
      Model().NextChar(word)
    }

    /**
     * `add`: counts the word at this node and, unless the word ends here,
     * hands it to the child for the next character, inserting that child
     * into the map first when it is missing.
     */
    method Add(word: string) returns (r: Wrappers.Result<nat, string>)
      requires Valid()
      modifies this
      ensures Valid()
      ensures (Model(), r) == old(Model()).Add(word)
    {
      if !(fragment <= word) {
        return Wrappers.Failure(IncompatiblePrefix);
      }
      ghost var before := Model();
      // `next_char` reads only the fragment, so taking it before the count is raised changes nothing.
      var next := NextChar(word);
      descendentsCount := descendentsCount + 1;
      if next.None? {
        count := count + 1;
        return Wrappers.Success(count);
      }
      var c := next.value;
      var child := if c in children then children[c]
                   else TrieNode.NewWithFragment(word[..|fragment| + 1], sortOption, displayData);
      PrefixExtend(fragment, word);
      var added := child.Add(word);
      children := children[c := added.0];
      r := Wrappers.Success(added.1.value);
      AddUnfold(before, word);
    }

    /** `populate`: every word must start with this node's fragment, as the unwrap of each result demands. */
    method Populate(words: seq<string>)
      requires Valid()
      requires forall i :: 0 <= i < |words| ==> fragment <= words[i]
      modifies this
      ensures Valid()
      ensures Model() == old(Model()).Populate(words)
    {
      for i := 0 to |words|
        invariant Valid() && fragment == old(fragment)
        invariant Model() == old(Model()).Populate(words[..i])
      {
        var _ := Add(words[i]);
        assert words[..i + 1][..i] == words[..i];
      }
      assert words[..|words|] == words;
    }

    /** `from`. */
    static method From(words: seq<string>) returns (t: Trie)
      ensures fresh(t) && t.Valid()
      ensures t.Model() == TrieNode.From(words)
    {
      t := new Trie.New();
      t.Populate(words);
    }

    /** `from_with_sort_and_display`. */
    static method FromWithSortAndDisplay(words: seq<string>, sortOption: SortOption, displayData: DisplayData)
      returns (t: Trie)
      ensures fresh(t) && t.Valid()
      ensures t.Model() == TrieNode.FromWithSortAndDisplay(words, sortOption, displayData)
    {
      t := new Trie.WithSortAndDisplay(sortOption, displayData);
      t.Populate(words);
    }

    /** `set_sort_option`: sets this node's option, then each child's, visiting the children one by one. */
    method SetSortOption(s: SortOption)
      requires Valid()
      modifies this
      ensures Valid()
      ensures Model() == old(Model()).SetSortOption(s)
    {
      sortOption := s;
      var todo := children.Keys;
      while todo != {}
        invariant todo <= children.Keys == old(children).Keys
        invariant fragment == old(fragment) && count == old(count) && descendentsCount == old(descendentsCount)
        invariant sortOption == s && displayData == old(displayData)
        invariant forall k :: k in children && k in todo ==> children[k] == old(children[k])
        invariant forall k :: k in children && k !in todo ==> children[k] == old(children[k]).SetSortOption(s)
        decreases |todo|
      {
        var c :| c in todo;
        children := children[c := children[c].SetSortOption(s)];
        todo := todo - {c};
      }
      SetSortOptionByChildren(old(Model()), s, children);
    }

    /** `set_display_data`: sets this node's option, then each child's, visiting the children one by one. */
    method SetDisplayData(d: DisplayData)
      requires Valid()
      modifies this
      ensures Valid()
      ensures Model() == old(Model()).SetDisplayData(d)
    {
      displayData := d;
      var todo := children.Keys;
      while todo != {}
        invariant todo <= children.Keys == old(children).Keys
        invariant fragment == old(fragment) && count == old(count) && descendentsCount == old(descendentsCount)
        invariant displayData == d && sortOption == old(sortOption)
        invariant forall k :: k in children && k in todo ==> children[k] == old(children[k])
        invariant forall k :: k in children && k !in todo ==> children[k] == old(children[k]).SetDisplayData(d)
        decreases |todo|
      {
        var c :| c in todo;
        children := children[c := children[c].SetDisplayData(d)];
        todo := todo - {c};
      }
      SetDisplayDataByChildren(old(Model()), d, children);
    }

    /** `find`: the subtrie reached by following `remaining` from this node, if there is one. */
    function Find(remaining: string): (r: Wrappers.Option<TrieNode>)
      reads this
      ensures r == Model().Find(remaining)
    {
      var split := FirstRest(remaining);
      if split.None? then Wrappers.Some(Model())
      else if split.value.0 in children then children[split.value.0].Find(split.value.1)
      else Wrappers.None
    }

    /** `occurrences`. */
    function Occurrences(word: string): (n: nat)
      reads this
      ensures n == Model().Occurrences(word)
    {
      var found := Find(word);
      if found.None? then 0 else found.value.count
    }

    /** `total_occurrences`. */
    function TotalOccurrences(): (n: nat)
      reads this
      ensures n == Model().TotalOccurrences()
    {
      descendentsCount
    }

    /** `value`. */
    function Value(): (v: string)
      reads this
      ensures v == Model().Value()
    {
      Model().Value()
    }

    /** The children under the keys `ks`, in that order. */
    method Collect(ks: seq<char>) returns (ch: seq<TrieNode>)
      requires forall j :: 0 <= j < |ks| ==> ks[j] in children
      ensures |ch| == |ks|
      ensures forall j :: 0 <= j < |ks| ==> ch[j] == children[ks[j]]
    {
      ch := [];
      for i := 0 to |ks|
        invariant |ch| == i
        invariant forall j :: 0 <= j < i ==> ch[j] == children[ks[j]]
      {
        ch := ch + [children[ks[i]]];
      }
    }

    /** `children`: the children collected in the order the sort option asks for. */
    method Children() returns (ch: seq<TrieNode>)
      ensures ch == Model().Children()
    {
      var ks := Model().ChildKeys();
      ch := Collect(ks);
    }
  }
}
