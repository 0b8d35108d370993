/** The lexicon: a prefix tree of upper-case words (`Node`, `Trie` and
    `create_dictionary` in anagrammer.py).

    The nodes live in an arena, `Trie.nodes`: a node is named by its index,
    its `connections` map a letter to the index of the child node, and the
    root is node 0. Creating a node appends it to the arena; inserting a
    connection updates the parent's map in place. */
module Lexicon {
  import opened Text

  datatype Option<T> = None | Some(value: T)

  datatype Node = Node(connections: map<char, nat>, isWord: bool)

  /** The index of the root node in every arena. */
  const Root: nat := 0

  /** `MIN_WORD_LENGTH` (anagrammer.py:6). */
  const MinWordLength: nat := 3

  /** The child reached from node `n` by `letter`, when there is one. */
  function Step(ns: seq<Node>, n: nat, letter: char): Option<nat> {
    if n < |ns| && letter in ns[n].connections then Some(ns[n].connections[letter]) else None
  }

  /** The node reached by following the letters of `w` from node `n`. */
  function Walk(ns: seq<Node>, n: nat, w: string): (r: Option<nat>)
    ensures IsArena(ns) && n < |ns| && r.Some? ==> n <= r.value < |ns| && (r.value == n <==> w == [])
    decreases |w|
  {
    if w == [] then Some(n)
    else match Step(ns, n, w[0])
      case None => None
      case Some(m) => Walk(ns, m, w[1..])
  }

  /** Following `w` from node `n` ends at a node marked as a word. */
  predicate Spells(ns: seq<Node>, n: nat, w: string) {
    var r := Walk(ns, n, w);
    r.Some? && r.value < |ns| && ns[r.value].isWord
  }

  /** The arena is closed: every connection leads to a later node of the
      arena, so the connections form no cycle. */
  predicate IsArena(ns: seq<Node>) {
    |ns| > 0 &&
    forall i, c :: 0 <= i < |ns| && c in ns[i].connections ==> i < ns[i].connections[c] < |ns|
  }

  /** No node is reached from the root by two different strings. */
  ghost predicate TreeShaped(ns: seq<Node>) {
    forall u, v :: Walk(ns, Root, u).Some? && Walk(ns, Root, u) == Walk(ns, Root, v) ==> u == v
  }

  /** `b` arises from `a` by adding nodes and connections and by marking
      words: no node, connection or word flag of `a` is removed or reset. */
  predicate Grows(a: seq<Node>, b: seq<Node>) {
    |a| <= |b| &&
    forall i :: 0 <= i < |a| ==>
      (a[i].isWord ==> b[i].isWord) &&
      forall c :: c in a[i].connections ==> c in b[i].connections && b[i].connections[c] == a[i].connections[c]
  }

  lemma GrowsTransitive(a: seq<Node>, b: seq<Node>, c: seq<Node>)
    requires Grows(a, b) && Grows(b, c)
    ensures Grows(a, c)
  {
  }

  /** Every path and every word of `a` is still there in `b`. */
  lemma {:induction false} GrowsKeepsWalks(a: seq<Node>, b: seq<Node>, n: nat, w: string)
    requires Grows(a, b)
    requires Walk(a, n, w).Some?
    ensures Walk(b, n, w) == Walk(a, n, w)
    ensures Spells(a, n, w) ==> Spells(b, n, w)
    decreases |w|
  {
    if w != [] {
      GrowsKeepsWalks(a, b, a[n].connections[w[0]], w[1..]);
    }
  }

  /** Walking one more letter is one more step. */
  lemma {:induction false} WalkAppend(ns: seq<Node>, n: nat, w: string, letter: char)
    ensures Walk(ns, n, w + [letter]) ==
      match Walk(ns, n, w)
      case None => None
      case Some(m) => Step(ns, m, letter)
    decreases |w|
  {
    if w == [] {
      assert [] + [letter] == [letter];
      assert [letter][1..] == [];
    } else {
      assert (w + [letter])[0] == w[0];
      assert (w + [letter])[1..] == w[1..] + [letter];
      match Step(ns, n, w[0])
      case None =>
      case Some(m) => WalkAppend(ns, m, w[1..], letter);
    }
  }

  /** Arenas with the same connections have the same walks. */
  lemma {:induction false} SameConnectionsSameWalks(a: seq<Node>, b: seq<Node>, n: nat, w: string)
    requires |a| == |b|
    requires forall i :: 0 <= i < |a| ==> a[i].connections == b[i].connections
    ensures Walk(a, n, w) == Walk(b, n, w)
    decreases |w|
  {
    if w != [] && Step(a, n, w[0]).Some? {
      SameConnectionsSameWalks(a, b, a[n].connections[w[0]], w[1..]);
    }
  }

  lemma EmptyArenaIsTree(ns: seq<Node>)
    requires ns == [Node(map[], false)]
    ensures IsArena(ns) && TreeShaped(ns)
    ensures forall u :: !Spells(ns, Root, u)
  {
    forall u | Walk(ns, Root, u).Some?
      ensures u == []
    {
    }
  }

  /** After a fresh child `letter` is given to node `p`, a walk either is an
      old walk or ends at the new node, just after reaching `p` and taking
      `letter`. */
  lemma {:induction false} AddChildWalk(ns: seq<Node>, p: nat, letter: char, ns': seq<Node>, n: nat, u: string)
    requires IsArena(ns) && p < |ns| && letter !in ns[p].connections
    requires ns' == ns[p := ns[p].(connections := ns[p].connections[letter := |ns|])] + [Node(map[], false)]
    requires n < |ns|
    ensures Walk(ns, n, u).Some? ==> Walk(ns', n, u) == Walk(ns, n, u)
    ensures Walk(ns, n, u).None? && Walk(ns', n, u).Some? ==>
      Walk(ns', n, u) == Some(|ns|) && |u| > 0 && Walk(ns, n, u[..|u| - 1]) == Some(p) && u[|u| - 1] == letter
    decreases |u|
  {
    if u != [] {
      if n == p && u[0] == letter {
        assert Step(ns', n, u[0]) == Some(|ns|);
        if u[1..] != [] {
          assert Step(ns', |ns|, u[1..][0]) == None;
        } else {
          assert u == [letter];
          assert u[..0] == [];
        }
      } else if Step(ns, n, u[0]).Some? {
        var m := ns[n].connections[u[0]];
        assert Step(ns', n, u[0]) == Some(m);
        AddChildWalk(ns, p, letter, ns', m, u[1..]);
        if Walk(ns, n, u).None? && Walk(ns', n, u).Some? {
          var w := u[1..];
          assert u[..|u| - 1] == [u[0]] + w[..|w| - 1];
          assert ([u[0]] + w[..|w| - 1])[1..] == w[..|w| - 1];
        }
      } else {
        assert Step(ns', n, u[0]) == None;
      }
    }
  }

  /** Giving node `p`, reached from the root by `pre`, a fresh child keeps
      the arena a tree, keeps every old path and word, and adds no word. */
  lemma AddChild(ns: seq<Node>, p: nat, letter: char, pre: string, ns': seq<Node>)
    requires IsArena(ns) && TreeShaped(ns)
    requires p < |ns| && letter !in ns[p].connections
    requires Walk(ns, Root, pre) == Some(p)
    requires ns' == ns[p := ns[p].(connections := ns[p].connections[letter := |ns|])] + [Node(map[], false)]
    ensures IsArena(ns') && TreeShaped(ns') && Grows(ns, ns')
    ensures Walk(ns', Root, pre + [letter]) == Some(|ns|)
    ensures forall u :: Spells(ns', Root, u) <==> Spells(ns, Root, u)
  {
    AddChildWalk(ns, p, letter, ns', Root, pre);
    WalkAppend(ns', Root, pre, letter);
    forall u, v | Walk(ns', Root, u).Some? && Walk(ns', Root, u) == Walk(ns', Root, v)
      ensures u == v
    {
      AddChildKeepsTree(ns, p, letter, pre, ns', u, v);
    }
    forall u
      ensures Spells(ns', Root, u) <==> Spells(ns, Root, u)
    {
      AddChildKeepsWord(ns, p, letter, ns', u);
    }
  }

  /** A new child is no word, and no old word changes. */
  lemma AddChildKeepsWord(ns: seq<Node>, p: nat, letter: char, ns': seq<Node>, u: string)
    requires IsArena(ns)
    requires p < |ns| && letter !in ns[p].connections
    requires ns' == ns[p := ns[p].(connections := ns[p].connections[letter := |ns|])] + [Node(map[], false)]
    ensures Spells(ns', Root, u) <==> Spells(ns, Root, u)
  {
    AddChildWalk(ns, p, letter, ns', Root, u);
  }

  /** Two strings that reach the same node after a child was added are equal. */
  lemma AddChildKeepsTree(ns: seq<Node>, p: nat, letter: char, pre: string, ns': seq<Node>, u: string, v: string)
    requires IsArena(ns) && TreeShaped(ns)
    requires p < |ns| && letter !in ns[p].connections
    requires Walk(ns, Root, pre) == Some(p)
    requires ns' == ns[p := ns[p].(connections := ns[p].connections[letter := |ns|])] + [Node(map[], false)]
    requires Walk(ns', Root, u).Some? && Walk(ns', Root, u) == Walk(ns', Root, v)
    ensures u == v
  {
    AddChildWalk(ns, p, letter, ns', Root, u);
    AddChildWalk(ns, p, letter, ns', Root, v);
    if Walk(ns', Root, u) == Some(|ns|) {
      assert u[..|u| - 1] == v[..|v| - 1];
      assert u == u[..|u| - 1] + [letter];
      assert v == v[..|v| - 1] + [letter];
    }
  }

  /** Marking the node that `word` reaches makes exactly `word` a new word. */
  lemma MarkWord(ns: seq<Node>, k: nat, word: string, ns': seq<Node>)
    requires IsArena(ns) && TreeShaped(ns)
    requires k < |ns| && Walk(ns, Root, word) == Some(k)
    requires ns' == ns[k := ns[k].(isWord := true)]
    ensures IsArena(ns') && TreeShaped(ns') && Grows(ns, ns')
    ensures forall u :: Spells(ns', Root, u) <==> Spells(ns, Root, u) || u == word
  {
    forall u
      ensures Walk(ns', Root, u) == Walk(ns, Root, u)
    {
      SameConnectionsSameWalks(ns, ns', Root, u);
    }
  }

  /** `Trie` (anagrammer.py:16-29). */
  class Trie {
    var nodes: seq<Node>
    var wordCount: nat

    ghost predicate Valid()
      reads this
    {
      IsArena(nodes) && TreeShaped(nodes)
    }

    /** The trie holds `w` when its letters lead from the root to a word node. */
    ghost predicate Contains(w: string)
      reads this
    {
      Spells(nodes, Root, w)
    }

    /** `Trie(*words)`: a root alone, then every word added in turn. */
    constructor (words: seq<string>)
      ensures Valid()
      ensures wordCount == |words|
      ensures forall u :: Contains(u) <==> u in words
    {
      nodes := [Node(map[], false)];
      wordCount := 0;
      new;
      EmptyArenaIsTree(nodes);
      for k := 0 to |words|
        invariant Valid()
        invariant wordCount == k
        invariant forall u :: Contains(u) <==> u in words[..k]
      {
        AddWord(words[k]);
        assert words[..k + 1] == words[..k] + [words[k]];
      }
      assert words[..|words|] == words;
    }

    /** `add_word`: follows `word` from the root, creating each missing
        child, marks the last node as a word and counts one word more,
        whether or not the word was already there. */
    method AddWord(word: string)
      requires Valid()
      modifies this
      ensures Valid()
      ensures wordCount == old(wordCount) + 1
      ensures Grows(old(nodes), nodes)
      ensures Contains(word)
      ensures forall u :: Contains(u) <==> old(Contains(u)) || u == word
    {
      var currentNode := Root;
      for k := 0 to |word|
        invariant IsArena(nodes) && TreeShaped(nodes)
        invariant currentNode < |nodes|
        invariant Walk(nodes, Root, word[..k]) == Some(currentNode)
        invariant Grows(old(nodes), nodes)
        invariant forall u :: Spells(nodes, Root, u) <==> old(Spells(nodes, Root, u))
        invariant wordCount == old(wordCount)
      {
        var letter := word[k];
        if letter !in nodes[currentNode].connections {
          ghost var before := nodes;
          nodes := nodes[currentNode := nodes[currentNode].(connections := nodes[currentNode].connections[letter := |nodes|])]
                   + [Node(map[], false)];
          AddChild(before, currentNode, letter, word[..k], nodes);
          GrowsTransitive(old(nodes), before, nodes);
        } else {
          WalkAppend(nodes, Root, word[..k], letter);
        }
        assert word[..k + 1] == word[..k] + [letter];
        currentNode := nodes[currentNode].connections[letter];
      }
      assert word[..|word|] == word;
      ghost var before := nodes;
      nodes := nodes[currentNode := nodes[currentNode].(isWord := true)];
      MarkWord(before, currentNode, word, nodes);
      GrowsTransitive(old(nodes), before, nodes);
      wordCount := wordCount + 1;
    }
  }

  /** The dictionary lines that loading adds, normalised, in order: those
      whose normalised form has at least `MinWordLength` characters. */
  function Accepted(lines: seq<string>): (words: seq<string>)
    ensures forall i :: 0 <= i < |words| ==> |words[i]| >= MinWordLength && NoWhitespace(words[i])
  {
    if lines == [] then []
    else
      var word := FormatString(lines[|lines| - 1]);
      Accepted(lines[..|lines| - 1]) + (if |word| >= MinWordLength then [word] else [])
  }

  /** A word is loaded exactly when some line normalises to it and it is
      long enough; there are never more words than lines. */
  lemma {:induction false} AcceptedIff(lines: seq<string>, u: string)
    ensures u in Accepted(lines) <==>
      |u| >= MinWordLength && exists i :: 0 <= i < |lines| && FormatString(lines[i]) == u
    ensures |Accepted(lines)| <= |lines|
    decreases |lines|
  {
    if lines != [] {
      AcceptedIff(lines[..|lines| - 1], u);
      AcceptedStep(lines, u);
    }
  }

  lemma {:induction false} AcceptedStep(lines: seq<string>, u: string)
    requires lines != []
    requires var init := lines[..|lines| - 1];
      (u in Accepted(init) <==> |u| >= MinWordLength && exists i :: 0 <= i < |init| && FormatString(init[i]) == u) &&
      |Accepted(init)| <= |init|
    ensures u in Accepted(lines) <==>
      |u| >= MinWordLength && exists i :: 0 <= i < |lines| && FormatString(lines[i]) == u
    ensures |Accepted(lines)| <= |lines|
  {
    var init, last := lines[..|lines| - 1], lines[|lines| - 1];
    var word := FormatString(last);
    assert Accepted(lines) == Accepted(init) + (if |word| >= MinWordLength then [word] else []);
    forall i | 0 <= i < |init|
      ensures init[i] == lines[i]
    {
    }
    if exists i :: 0 <= i < |lines| && FormatString(lines[i]) == u {
      var i :| 0 <= i < |lines| && FormatString(lines[i]) == u;
      if i == |init| {
        assert word == u;
      }
    }
  }

  /** `create_dictionary` (anagrammer.py:31-40), with the dictionary file
      given as its sequence of lines. */
  method CreateDictionary(lines: seq<string>) returns (dictionary: Trie)
    ensures fresh(dictionary) && dictionary.Valid()
    ensures dictionary.wordCount == |Accepted(lines)|
    ensures forall u :: dictionary.Contains(u) <==> u in Accepted(lines)
  {
    dictionary := new Trie([]);
    for k := 0 to |lines|
      invariant fresh(dictionary) && dictionary.Valid()
      invariant dictionary.wordCount == |Accepted(lines[..k])|
      invariant forall u :: dictionary.Contains(u) <==> u in Accepted(lines[..k])
    {
      var word := FormatString(lines[k]);
      if |word| >= MinWordLength {
        dictionary.AddWord(word);
      }
      assert lines[..k + 1][..k] == lines[..k];
    }
    assert lines[..|lines|] == lines;
  }
}
