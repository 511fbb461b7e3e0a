/** Day 1: the Aho–Corasick automaton used to find spelled-out digits.

    The trie is an arena of nodes keyed by the path that leads to them from the root,
    so the root is the empty string and the child of node `p` on character `c` is the
    node `p + [c]`, present exactly when it has been created. Suffix links are stored
    as paths as well. */
module Day01AhoCorasick {
  import opened Wrappers
  import opened Text

  datatype Node = Node(word: Option<string>, inDict: bool)

  type Nodes = map<string, Node>

  predicate IsPrefix(p: string, w: string) {
    |p| <= |w| && w[..|p|] == p
  }

  predicate IsSuffix(x: string, t: string) {
    |x| <= |t| && t[|t| - |x|..] == x
  }

  /** The shape every trie keeps: the root exists and carries no word, every node's
      parent exists, a node's word is its own path, and an `in_dict` node has a word. */
  ghost predicate Valid(nodes: Nodes) {
    && [] in nodes && nodes[[]] == Node(None, false)
    && (forall p, c :: p + [c] in nodes ==> p in nodes)
    && (forall p :: p in nodes && nodes[p].word.Some? ==> nodes[p].word.value == p)
    && (forall p :: p in nodes && nodes[p].inDict ==> nodes[p].word == Some(p))
  }

  /** The parent of a node is a node. */
  lemma ParentIn(nodes: Nodes, p: string)
    requires Valid(nodes) && p in nodes && p != []
    ensures p[..|p| - 1] in nodes
  {
    assert p[..|p| - 1] + [p[|p| - 1]] == p;
  }

  /** `AhoCorasick::new`: a lone root. */
  function New(): (nodes: Nodes)
    ensures Valid(nodes) && forall p :: p in nodes <==> p == []
  {
    map[[] := Node(None, false)]
  }

  /** `_add_word`: walks down `word` from its `k`-th character, creating each missing
      node with `in_dict` set only when it is the last character, and stores the word
      on the last node. */
  function AddFrom(nodes: Nodes, word: string, k: nat): (r: Nodes)
    requires k < |word| && word[..k] in nodes
    ensures forall p :: p in r <==> p in nodes || (k < |p| && IsPrefix(p, word))
    ensures forall p :: p in nodes && p != word ==> r[p] == nodes[p]
    ensures word in nodes ==> r[word] == nodes[word].(word := Some(word))
    ensures forall p :: p in r && p !in nodes ==> r[p] == Node(if p == word then Some(word) else None, p == word)
    decreases |word| - k
  {
    var child := word[..k + 1];
    var cnt := |word| - 1 - k;
    var withChild := if child in nodes then nodes else nodes[child := Node(None, cnt == 0)];
    if cnt == 0 then
      assert child == word;
      withChild[child := withChild[child].(word := Some(word))]
    else
      var r := AddFrom(withChild, word, k + 1);
      assert forall p :: k < |p| && IsPrefix(p, word) ==> p == child || (k + 1 < |p| && IsPrefix(p, word));
      r
  }

  /** `add_word`: the word must be non-empty, since its length minus one is computed in
      unsigned arithmetic. Nodes are only ever added, and only the word's own node
      changes: it records the word, keeping its `in_dict` flag if it already existed. */
  function AddWord(nodes: Nodes, word: string): (r: Nodes)
    requires |word| > 0 && [] in nodes
    ensures forall p :: p in r <==> p in nodes || (0 < |p| && IsPrefix(p, word))
    ensures word in r && r[word].word == Some(word)
    ensures word in nodes ==> r[word].inDict == nodes[word].inDict
    ensures word !in nodes ==> r[word].inDict
    ensures forall p :: p in nodes && p != word ==> r[p] == nodes[p]
    ensures forall p :: p in r && p !in nodes && p != word ==> r[p] == Node(None, false)
  {
    assert word[..0] == [];
    assert IsPrefix(word, word);
    AddFrom(nodes, word, 0)
  }

  lemma AddWordValid(nodes: Nodes, word: string)
    requires |word| > 0 && Valid(nodes)
    ensures Valid(AddWord(nodes, word))
  {
    var r := AddWord(nodes, word);
    forall p, c | p + [c] in r ensures p in r {
      if p + [c] !in nodes {
        assert IsPrefix(p, word) by {
          assert (p + [c])[..|p|] == p;
        }
      }
    }
  }

  /** Inserts the words in order, as `from_words` does before building. */
  function AddAll(nodes: Nodes, words: seq<string>): (r: Nodes)
    requires [] in nodes && forall k :: 0 <= k < |words| ==> |words[k]| > 0
    ensures [] in r
    decreases |words|
  {
    if words == [] then nodes else AddAll(AddWord(nodes, words[0]), words[1..])
  }

  predicate NonEmptyWords(words: seq<string>) {
    forall k :: 0 <= k < |words| ==> |words[k]| > 0
  }

  lemma {:induction false} AddAllValid(nodes: Nodes, words: seq<string>)
    requires Valid(nodes) && NonEmptyWords(words)
    ensures Valid(AddAll(nodes, words))
    decreases |words|
  {
    if words != [] {
      AddWordValid(nodes, words[0]);
      AddAllValid(AddWord(nodes, words[0]), words[1..]);
    }
  }

  /** `p` is a prefix of one of `words`. */
  predicate PrefixOfSome(words: seq<string>, p: string)
    decreases |words|
  {
    words != [] && (IsPrefix(p, words[0]) || PrefixOfSome(words[1..], p))
  }

  lemma {:induction false} PrefixOfSomeWitness(words: seq<string>, p: string) returns (k: nat)
    requires PrefixOfSome(words, p)
    ensures k < |words| && IsPrefix(p, words[k])
    decreases |words|
  {
    if IsPrefix(p, words[0]) {
      k := 0;
    } else {
      var j := PrefixOfSomeWitness(words[1..], p);
      k := j + 1;
    }
  }

  lemma {:induction false} PrefixOfSomeIntro(words: seq<string>, p: string, k: nat)
    requires k < |words| && IsPrefix(p, words[k])
    ensures PrefixOfSome(words, p)
    decreases |words|
  {
    if k > 0 {
      PrefixOfSomeIntro(words[1..], p, k - 1);
    }
  }

  /** The trie's nodes after the insertions: the old ones plus every non-empty prefix of
      an inserted word. */
  lemma {:induction false} AddAllKeys(nodes: Nodes, words: seq<string>)
    requires [] in nodes && NonEmptyWords(words)
    ensures forall p :: p in AddAll(nodes, words) <==> p in nodes || (0 < |p| && PrefixOfSome(words, p))
    decreases |words|
  {
    if words != [] {
      AddAllKeys(AddWord(nodes, words[0]), words[1..]);
    }
  }

  /** An inserted word's node carries the word; other nodes keep what they had, and new
      ones carry nothing. */
  lemma {:induction false} AddAllWords(nodes: Nodes, words: seq<string>)
    requires [] in nodes && NonEmptyWords(words)
    ensures forall p :: p in AddAll(nodes, words) ==>
      AddAll(nodes, words)[p].word == if p in words then Some(p) else if p in nodes then nodes[p].word else None
    decreases |words|
  {
    if words != [] {
      var next := AddWord(nodes, words[0]);
      AddAllWords(next, words[1..]);
      assert words == [words[0]] + words[1..];
    }
  }

  lemma AddAllWordIn(nodes: Nodes, words: seq<string>, k: nat)
    requires [] in nodes && NonEmptyWords(words) && k < |words|
    ensures words[k] in AddAll(nodes, words) && AddAll(nodes, words)[words[k]].word == Some(words[k])
  {
    AddAllKeys(nodes, words);
    PrefixOfSomeIntro(words, words[k], k);
    AddAllWords(nodes, words);
  }

  /** A node is `in_dict` only if it already was or it spells an inserted word. */
  lemma {:induction false} AddAllInDictSound(nodes: Nodes, words: seq<string>)
    requires [] in nodes && NonEmptyWords(words)
    ensures forall p :: p in AddAll(nodes, words) && AddAll(nodes, words)[p].inDict ==>
      (p in nodes && nodes[p].inDict) || p in words
    decreases |words|
  {
    if words != [] {
      AddAllInDictSound(AddWord(nodes, words[0]), words[1..]);
      assert words == [words[0]] + words[1..];
    }
  }

  /** An inserted word that no inserted word extends is `in_dict`: its node is created
      by the word itself, at its last character (or was already `in_dict`). */
  lemma {:induction false} AddAllInDictComplete(nodes: Nodes, words: seq<string>, p: string)
    requires [] in nodes && NonEmptyWords(words)
    requires p in words && (p !in nodes || nodes[p].inDict)
    requires forall k :: 0 <= k < |words| && IsPrefix(p, words[k]) ==> p == words[k]
    ensures p in AddAll(nodes, words) && AddAll(nodes, words)[p].inDict
    decreases |words|
  {
    var next := AddWord(nodes, words[0]);
    assert p !in next || next[p].inDict;
    if p in words[1..] {
      forall k | 0 <= k < |words[1..]| && IsPrefix(p, words[1..][k]) ensures p == words[1..][k] {
        assert words[1..][k] == words[k + 1];
      }
      AddAllInDictComplete(next, words[1..], p);
    } else {
      assert p == words[0];
      AddAllKeepsInDict(next, words[1..], p);
    }
  }

  /** Insertions never clear an `in_dict` flag. */
  lemma {:induction false} AddAllKeepsInDict(nodes: Nodes, words: seq<string>, p: string)
    requires [] in nodes && NonEmptyWords(words) && p in nodes && nodes[p].inDict
    ensures p in AddAll(nodes, words) && AddAll(nodes, words)[p].inDict
    decreases |words|
  {
    if words != [] {
      AddAllKeepsInDict(AddWord(nodes, words[0]), words[1..], p);
    }
  }

  /** The longest suffix of `t` that is a node. */
  ghost predicate IsLongestSuffix(nodes: Nodes, t: string, s: string) {
    s in nodes && IsSuffix(s, t) && forall x :: x in nodes && IsSuffix(x, t) ==> |x| <= |s|
  }

  /** The suffix link `build` gives node `p`: for a child of the root the root, otherwise
      the parent's link followed by `Walk` on `p`'s last character. */
  function Link(nodes: Nodes, p: string): (r: string)
    requires Valid(nodes) && p in nodes && p != []
    ensures r in nodes && |r| < |p|
    decreases |p|, 1
  {
    if |p| == 1 then []
    else
      var parent := p[..|p| - 1];
      ParentIn(nodes, p);
      Walk(nodes, Link(nodes, parent), p[|p| - 1])
  }

  /** From node `s`, follow suffix links until a node has a child on `c` (taking that
      child) or the root is reached without one (staying at the root). */
  function Walk(nodes: Nodes, s: string, c: char): (r: string)
    requires Valid(nodes) && s in nodes
    ensures r in nodes && |r| <= |s| + 1
    decreases |s|, 2
  {
    if s + [c] in nodes then s + [c]
    else if s == [] then []
    else Walk(nodes, Link(nodes, s), c)
  }

  lemma SuffixOfSuffix(x: string, y: string, t: string)
    requires IsSuffix(x, t) && IsSuffix(y, t) && |x| <= |y|
    ensures IsSuffix(x, y)
  {
    assert y[|y| - |x|..] == t[|t| - |x|..];
  }

  lemma SuffixTrans(x: string, y: string, t: string)
    requires IsSuffix(x, y) && IsSuffix(y, t)
    ensures IsSuffix(x, t)
  {
    assert t[|t| - |x|..] == y[|y| - |x|..];
  }

  /** A non-empty suffix of `t + [c]` is a suffix of `t` followed by `c`. */
  lemma SuffixOfExtension(x: string, t: string, c: char)
    requires IsSuffix(x, t + [c]) && x != []
    ensures x[|x| - 1] == c && IsSuffix(x[..|x| - 1], t) && x == x[..|x| - 1] + [c]
  {
    var u := t + [c];
    assert x[|x| - 1] == u[|u| - 1];
    assert u[|u| - |x|..|u| - 1] == t[|t| - (|x| - 1)..];
  }

  lemma ExtendSuffix(x: string, t: string, c: char)
    requires IsSuffix(x, t)
    ensures IsSuffix(x + [c], t + [c])
  {
    assert (t + [c])[|t| + 1 - (|x| + 1)..] == t[|t| - |x|..] + [c];
  }

  /** `Walk`'s characterisation: if `s` is a suffix of `t` and no longer suffix of `t`
      that is a node has a child on `c`, then `Walk(s, c)` is the longest suffix of
      `t + [c]` that is a node. */
  lemma {:induction false} WalkLongest(nodes: Nodes, t: string, s: string, c: char)
    requires Valid(nodes) && s in nodes && IsSuffix(s, t)
    requires forall y :: y in nodes && IsSuffix(y, t) && y + [c] in nodes ==> |y| <= |s|
    ensures IsLongestSuffix(nodes, t + [c], Walk(nodes, s, c))
    decreases |s|, 2
  {
    var r := Walk(nodes, s, c);
    if s + [c] in nodes {
      ExtendSuffix(s, t, c);
      forall x | x in nodes && IsSuffix(x, t + [c]) ensures |x| <= |r| {
        if x != [] {
          SuffixOfExtension(x, t, c);
        }
      }
    } else if s == [] {
      assert IsSuffix([], t + [c]);
      forall x | x in nodes && IsSuffix(x, t + [c]) ensures |x| <= 0 {
        if x != [] {
          SuffixOfExtension(x, t, c);
        }
      }
    } else {
      var l := Link(nodes, s);
      LinkLongest(nodes, s);
      SuffixTrans(l, s[1..], s);
      SuffixTrans(l, s, t);
      forall y | y in nodes && IsSuffix(y, t) && y + [c] in nodes ensures |y| <= |l| {
        SuffixOfSuffix(y, s, t);
        assert IsSuffix(y, s[1..]) by {
          assert s[1..][|s| - 1 - |y|..] == s[|s| - |y|..];
        }
      }
      WalkLongest(nodes, t, l, c);
    }
  }

  /** `build`'s suffix link of `p` is the longest proper suffix of `p` that is a node. */
  lemma {:induction false} LinkLongest(nodes: Nodes, p: string)
    requires Valid(nodes) && p in nodes && p != []
    ensures IsLongestSuffix(nodes, p[1..], Link(nodes, p))
    decreases |p|, 1
  {
    if |p| == 1 {
      assert IsSuffix([], p[1..]);
    } else {
      var parent := p[..|p| - 1];
      var c := p[|p| - 1];
      ParentIn(nodes, p);
      var l := Link(nodes, parent);
      LinkLongest(nodes, parent);
      assert parent[1..] + [c] == p[1..];
      WalkLongest(nodes, parent[1..], l, c);
    }
  }

  /** The automaton `build` produces: the trie together with its suffix links and
      dictionary-suffix links, keyed by the node they belong to (the root has none). */
  datatype AhoCorasick = AhoCorasick(nodes: Nodes, suffix: map<string, string>, dictSuffix: map<string, string>)

  /** The dictionary-suffix link of `p`, computed as `build` does: like `Link`, but the
      walk stops only at a child that is `in_dict` (or at the root, where it takes the
      child on `c` whatever its flag). */
  function DictLink(nodes: Nodes, p: string): (r: string)
    requires Valid(nodes) && p in nodes && p != []
    ensures r in nodes && |r| < |p|
    decreases |p|, 1
  {
    if |p| == 1 then []
    else
      var parent := p[..|p| - 1];
      ParentIn(nodes, p);
      DictWalk(nodes, DictLink(nodes, parent), p[|p| - 1])
  }

  function DictWalk(nodes: Nodes, s: string, c: char): (r: string)
    requires Valid(nodes) && s in nodes
    ensures r in nodes && |r| <= |s| + 1
    decreases |s|, 2
  {
    if s + [c] in nodes && (s == [] || nodes[s + [c]].inDict) then s + [c]
    else if s == [] then []
    else DictWalk(nodes, DictLink(nodes, s), c)
  }

  /** A dictionary-suffix link points at a proper suffix of its node. */
  lemma {:induction false} DictLinkSuffix(nodes: Nodes, p: string)
    requires Valid(nodes) && p in nodes && p != []
    ensures IsSuffix(DictLink(nodes, p), p[1..])
    decreases |p|, 1
  {
    if |p| == 1 {
      assert IsSuffix([], p[1..]);
    } else {
      var parent := p[..|p| - 1];
      var c := p[|p| - 1];
      ParentIn(nodes, p);
      var l := DictLink(nodes, parent);
      DictLinkSuffix(nodes, parent);
      SuffixTrans(l, parent[1..], parent);
      DictWalkSuffix(nodes, parent, l, c);
      assert parent[1..] + [c] == p[1..];
      assert (parent + [c])[1..] == p[1..];
      if |DictLink(nodes, p)| == |p| {
        assert false;
      }
    }
  }

  /** `DictWalk` from a suffix `s` of `t` on `c` ends on a suffix of `t + [c]` — one that
      is proper when `s` is a proper suffix. */
  lemma {:induction false} DictWalkSuffix(nodes: Nodes, t: string, s: string, c: char)
    requires Valid(nodes) && s in nodes && IsSuffix(s, t) && |s| < |t|
    ensures IsSuffix(DictWalk(nodes, s, c), (t + [c])[1..])
    decreases |s|, 2
  {
    var r := DictWalk(nodes, s, c);
    var u := (t + [c])[1..];
    assert u == t[1..] + [c];
    assert IsSuffix(s, t[1..]) by {
      assert t[1..][|t| - 1 - |s|..] == t[|t| - |s|..];
    }
    if s + [c] in nodes && (s == [] || nodes[s + [c]].inDict) {
      ExtendSuffix(s, t[1..], c);
    } else if s == [] {
      assert IsSuffix([], u);
    } else {
      var l := DictLink(nodes, s);
      DictLinkSuffix(nodes, s);
      SuffixTrans(l, s[1..], s);
      SuffixTrans(l, s, t);
      DictWalkSuffix(nodes, t, l, c);
    }
  }

  /** `build`: every non-root node gets its suffix link and dictionary-suffix link. */
  function Build(nodes: Nodes): (ac: AhoCorasick)
    requires Valid(nodes)
    ensures ac.nodes == nodes
    ensures forall p :: p in ac.suffix <==> p in nodes && p != []
    ensures forall p :: p in ac.dictSuffix <==> p in nodes && p != []
    ensures forall p :: p in ac.suffix && |p| == 1 ==> ac.suffix[p] == [] && ac.dictSuffix[p] == []
    ensures forall p :: p in ac.suffix ==> |ac.suffix[p]| < |p| && |ac.dictSuffix[p]| < |p|
  {
    AhoCorasick(nodes,
      map p | p in nodes && p != [] :: Link(nodes, p),
      map p | p in nodes && p != [] :: DictLink(nodes, p))
  }

  /** After `build`, the stored suffix link of every node is its longest proper suffix
      that is a node. */
  lemma BuildLinks(nodes: Nodes, p: string)
    requires Valid(nodes) && p in nodes && p != []
    ensures IsLongestSuffix(nodes, p[1..], Build(nodes).suffix[p])
  {
    LinkLongest(nodes, p);
  }

  /** `from_words`: insert every word, then build once. */
  /** The trie of `words`, before any suffix link is built. */
  function Trie(words: seq<string>): (nodes: Nodes)
    requires NonEmptyWords(words)
    ensures Valid(nodes)
  {
    AddAllValid(New(), words);
    AddAll(New(), words)
  }

  function FromWords(words: seq<string>): (ac: AhoCorasick)
    requires NonEmptyWords(words)
    ensures Built(ac) && ac.nodes == Trie(words)
    ensures forall k :: 0 <= k < |words| ==> words[k] in ac.nodes && ac.nodes[words[k]].word == Some(words[k])
  {
    var nodes := Trie(words);
    forall k | 0 <= k < |words| ensures words[k] in nodes && nodes[words[k]].word == Some(words[k]) {
      AddAllWordIn(New(), words, k);
    }
    Build(nodes)
  }

  /** What `match_first` relies on: a valid trie whose stored suffix links are those
      `build` computes. */
  ghost predicate Built(ac: AhoCorasick) {
    && Valid(ac.nodes)
    && (forall p :: p in ac.nodes && p != [] ==> p in ac.suffix && ac.suffix[p] == Link(ac.nodes, p))
  }

  /** The node the automaton stands on after reading `t` from the root. */
  function Run(nodes: Nodes, t: string): (r: string)
    requires Valid(nodes)
    ensures r in nodes && |r| <= |t|
  {
    if t == [] then [] else Walk(nodes, Run(nodes, t[..|t| - 1]), t[|t| - 1])
  }

  /** After reading `t` the automaton stands on the longest suffix of `t` that is a node. */
  lemma {:induction false} RunLongest(nodes: Nodes, t: string)
    requires Valid(nodes)
    ensures IsLongestSuffix(nodes, t, Run(nodes, t))
  {
    if t == [] {
      assert IsSuffix([], t);
    } else {
      var u := t[..|t| - 1];
      RunLongest(nodes, u);
      assert u + [t[|t| - 1]] == t;
      WalkLongest(nodes, u, Run(nodes, u), t[|t| - 1]);
    }
  }

  lemma RunStep(nodes: Nodes, text: string, i: nat)
    requires Valid(nodes) && i < |text|
    ensures Run(nodes, text[..i + 1]) == Walk(nodes, Run(nodes, text[..i]), text[i])
  {
    assert text[..i + 1][..i] == text[..i];
  }

  lemma WalkViaLink(nodes: Nodes, s: string, c: char)
    requires Valid(nodes) && s in nodes && s != [] && s + [c] !in nodes
    ensures Walk(nodes, s, c) == Walk(nodes, Link(nodes, s), c)
  {
  }

  /** After reading the first `n` characters of `text` the automaton stands on an
      `in_dict` node. */
  ghost predicate ReportsAt(nodes: Nodes, text: string, n: nat)
    requires Valid(nodes)
  {
    n <= |text| && nodes[Run(nodes, text[..n])].inDict
  }

  /** An `in_dict` node reached after `n` characters is a non-empty word of at most
      `n` characters, stored on the node. */
  lemma ReportedWord(nodes: Nodes, text: string, n: nat)
    requires Valid(nodes) && ReportsAt(nodes, text, n)
    ensures var st := Run(nodes, text[..n]);
      0 < |st| <= n && nodes[st].word == Some(st)
  {
  }

  lemma NoReportExtend(nodes: Nodes, text: string, i: nat)
    requires Valid(nodes) && i < |text|
    requires forall n :: 1 <= n <= i ==> !ReportsAt(nodes, text, n)
    requires !ReportsAt(nodes, text, i + 1)
    ensures forall n :: 1 <= n <= i + 1 ==> !ReportsAt(nodes, text, n)
  {
  }

  /** One character of `match_first`: fall back along suffix links until a child on
      `c` exists or the root is reached, then take the child if there is one. */
  method Transition(ac: AhoCorasick, node: string, c: char) returns (next: string)
    requires Built(ac) && node in ac.nodes
    ensures next == Walk(ac.nodes, node, c)
  {
    next := node;
    while next != [] && next + [c] !in ac.nodes
      invariant next in ac.nodes && Walk(ac.nodes, next, c) == Walk(ac.nodes, node, c)
      decreases |next|
    {
      WalkViaLink(ac.nodes, next, c);
      next := ac.suffix[next];
    }
    next := if next + [c] in ac.nodes then next + [c] else next;
  }

  /** `match_first`: feeds `text` through the automaton and stops at the first
      character after which it stands on an `in_dict` node, returning the start of the
      word that ends there and the word. */
  method MatchFirst(ac: AhoCorasick, text: string) returns (r: Option<(nat, string)>)
    requires Built(ac)
    ensures r.None? <==> forall n :: 1 <= n <= |text| ==> !ReportsAt(ac.nodes, text, n)
    ensures r.Some? ==> 0 < |r.value.1| && r.value.0 + |r.value.1| <= |text|
    ensures r.Some? ==> r.value.1 == Run(ac.nodes, text[..r.value.0 + |r.value.1|])
    ensures r.Some? ==> ReportsAt(ac.nodes, text, r.value.0 + |r.value.1|)
    ensures r.Some? ==> forall n :: 1 <= n < r.value.0 + |r.value.1| ==> !ReportsAt(ac.nodes, text, n)
  {
    var nodes := ac.nodes;
    var node: string := [];
    for i := 0 to |text|
      invariant node == Run(nodes, text[..i])
      invariant forall n :: 1 <= n <= i ==> !ReportsAt(nodes, text, n)
    {
      RunStep(nodes, text, i);
      node := Transition(ac, node, text[i]);
      if nodes[node].inDict {
        assert ReportsAt(nodes, text, i + 1);
        ReportedWord(nodes, text, i + 1);
        var word := nodes[node].word.value;
        var start := i - (|word| - 1);
        return Some((start, word));
      }
      NoReportExtend(nodes, text, i);
    }
    return None;
  }

  /** No word of the dictionary occurs inside a different one. */
  ghost predicate SubstringFree(words: seq<string>) {
    forall a, b, s :: 0 <= a < |words| && 0 <= b < |words| && OccursAt(words[b], words[a], s) ==>
      words[a] == words[b]
  }

  /** `word` ends at (and includes) index `end` of `text`. */
  predicate EndsAt(text: string, word: string, end: nat) {
    end < |text| && IsSuffix(word, text[..end + 1])
  }

  /** With a substring-free dictionary, a word ending at `end` is exactly the node the
      automaton stands on there, and that node is `in_dict`. */
  lemma WordEndingIsState(words: seq<string>, text: string, end: nat, k: nat)
    requires NonEmptyWords(words) && SubstringFree(words)
    requires k < |words| && EndsAt(text, words[k], end)
    ensures var nodes := Trie(words);
      Run(nodes, text[..end + 1]) == words[k] && nodes[words[k]].inDict
  {
    var nodes := Trie(words);
    var t := text[..end + 1];
    var st := Run(nodes, t);
    var w := words[k];
    RunLongest(nodes, t);
    AddAllWordIn(New(), words, k);
    SuffixOfSuffix(w, st, t);
    AddAllKeys(New(), words);
    var m := PrefixOfSomeWitness(words, st);
    assert OccursAt(words[m], w, |st| - |w|) by {
      assert words[m][|st| - |w|..|st|] == st[|st| - |w|..];
    }
    assert st == w;
    forall j | 0 <= j < |words| && IsPrefix(w, words[j]) ensures w == words[j] {
      assert OccursAt(words[j], w, 0);
    }
    AddAllInDictComplete(New(), words, w);
  }

  /** With a substring-free dictionary, the automaton reports at the end of every word. */
  lemma WordEndingReported(words: seq<string>, text: string, end: nat, k: nat)
    requires NonEmptyWords(words) && SubstringFree(words)
    requires k < |words| && EndsAt(text, words[k], end)
    ensures ReportsAt(Trie(words), text, end + 1)
  {
    WordEndingIsState(words, text, end, k);
  }

  /** The automaton stands on an `in_dict` node only where a dictionary word ends. */
  lemma StateInDictIsWord(words: seq<string>, text: string, end: nat) returns (k: nat)
    requires NonEmptyWords(words) && end < |text|
    requires var nodes := Trie(words); nodes[Run(nodes, text[..end + 1])].inDict
    ensures k < |words| && EndsAt(text, words[k], end)
    ensures words[k] == Run(Trie(words), text[..end + 1])
  {
    var nodes := Trie(words);
    var st := Run(nodes, text[..end + 1]);
    RunLongest(nodes, text[..end + 1]);
    AddAllInDictSound(New(), words);
    k :| 0 <= k < |words| && words[k] == st;
  }
}
