/** The driver (anagrammer.py:75-93): check the command line, normalise
    the argument, refuse an empty one, load the lexicon, search, and rank
    the results. */
module Anagrammer {
  import opened Text
  import opened Lexicon
  import opened Ranking
  import opened Search

  /** What the program ends with: the usage message, or the ranked list. */
  datatype Outcome = Usage | Ranked(anagrams: seq<Anagram>)

  /** `s` is a phrase of words from `words`, one space between words. */
  predicate PhraseOf(words: seq<string>, s: string) {
    WellSpaced(s) &&
    var ts := SplitSpaces(s);
    forall i :: 0 <= i < |ts| ==> ts[i] in words
  }

  /** For a trie holding exactly `words`, the phrases it spells are the
      phrases of `words`. */
  lemma PhrasesOfTrie(t: Trie, words: seq<string>, s: string)
    requires t.Valid()
    requires forall u :: t.Contains(u) <==> u in words
    ensures IsPhrase(t.nodes, Root, s) <==> PhraseOf(words, s)
  {
  }

  /** The letters of a phrase are at least as many as those of its last word. */
  lemma {:induction false} LastWordLength(s: string)
    ensures |SplitSpaces(s)[|SplitSpaces(s)| - 1]| <= |RemoveSpaces(s)|
    decreases |s|
  {
    if s != [] {
      LastWordLength(s[..|s| - 1]);
    }
  }

  /** A phrase of words of at least `MinWordLength` letters has at least
      that many letters. */
  lemma PhraseLength(words: seq<string>, s: string)
    requires PhraseOf(words, s)
    requires forall i :: 0 <= i < |words| ==> |words[i]| >= MinWordLength
    ensures |RemoveSpaces(s)| >= MinWordLength
  {
    LastWordLength(s);
  }

  /** The whole program, with the dictionary file's lines and the command
      line `argv` as inputs and its final state as output. A wrong number
      of arguments, or an argument that normalises to nothing, gives the
      usage message. Otherwise every listed anagram is a phrase of
      dictionary words that uses each letter of the normalised argument
      exactly once, every such phrase is listed once, and the list is
      ranked from the largest to the smallest. */
  method Run(lines: seq<string>, argv: seq<string>) returns (outcome: Outcome)
    ensures outcome == Usage <==> |argv| != 2 || FormatString(argv[1]) == []
    ensures outcome.Ranked? ==> NonIncreasing(outcome.anagrams)
    ensures outcome.Ranked? ==> forall k :: 0 <= k < |outcome.anagrams| ==>
      var a := outcome.anagrams[k];
      PhraseOf(Accepted(lines), a.text) &&
      multiset(RemoveSpaces(a.text)) == multiset(FormatString(argv[1])) &&
      Fields(a.text) != [] && a == NewAnagram(a.text)
    ensures outcome.Ranked? ==> forall s ::
      PhraseOf(Accepted(lines), s) && multiset(RemoveSpaces(s)) == multiset(FormatString(argv[1])) ==>
        exists k :: 0 <= k < |outcome.anagrams| && outcome.anagrams[k].text == s
    ensures outcome.Ranked? ==> forall a, b :: 0 <= a < b < |outcome.anagrams| ==>
      outcome.anagrams[a].text != outcome.anagrams[b].text
    ensures outcome.Ranked? && |FormatString(argv[1])| < MinWordLength ==> outcome.anagrams == []
  {
    if |argv| != 2 {
      return Usage;
    }
    var inputString := FormatString(argv[1]);
    if inputString == [] {
      return Usage;
    }
    var dictionary := CreateDictionary(lines);
    var anagrams := FindAllAnagrams(dictionary, inputString);
    var ranked := SortDescending(anagrams);
    outcome := Ranked(ranked);
    RankedAreResults(dictionary, Accepted(lines), inputString, anagrams, ranked);
    RankedAreComplete(dictionary, Accepted(lines), inputString, anagrams, ranked);
    SortedTextsDistinct(anagrams, ranked);
  }

  /** Every listed anagram is a phrase of dictionary words that rearranges
      the input; an input shorter than a word has none. */
  lemma RankedAreResults(t: Trie, words: seq<string>, input: string, anagrams: seq<Anagram>, ranked: seq<Anagram>)
    requires t.Valid() && forall u :: t.Contains(u) <==> u in words
    requires forall i :: 0 <= i < |words| ==> |words[i]| >= MinWordLength
    requires forall k :: 0 <= k < |anagrams| ==> IsResult(t.nodes, Root, input, anagrams[k])
    requires multiset(ranked) == multiset(anagrams)
    ensures forall k :: 0 <= k < |ranked| ==>
      var a := ranked[k];
      PhraseOf(words, a.text) && multiset(RemoveSpaces(a.text)) == multiset(input) &&
      Fields(a.text) != [] && a == NewAnagram(a.text)
    ensures |input| < MinWordLength ==> ranked == []
  {
    forall k | 0 <= k < |ranked|
      ensures var a := ranked[k];
        PhraseOf(words, a.text) && multiset(RemoveSpaces(a.text)) == multiset(input) &&
        Fields(a.text) != [] && a == NewAnagram(a.text)
      ensures |RemoveSpaces(ranked[k].text)| >= MinWordLength && |RemoveSpaces(ranked[k].text)| == |input|
    {
      assert ranked[k] in multiset(anagrams);
      var i :| 0 <= i < |anagrams| && anagrams[i] == ranked[k];
      PhrasesOfTrie(t, words, ranked[k].text);
      ResultIsPermutation(t.nodes, Root, input, ranked[k]);
      PhraseLength(words, ranked[k].text);
    }
    if ranked != [] {
      assert |RemoveSpaces(ranked[0].text)| == |input|;
    }
  }

  /** Every phrase of dictionary words that rearranges the input is listed. */
  lemma RankedAreComplete(t: Trie, words: seq<string>, input: string, anagrams: seq<Anagram>, ranked: seq<Anagram>)
    requires t.Valid() && forall u :: t.Contains(u) <==> u in words
    requires forall s :: IsPhrase(t.nodes, Root, s) && multiset(RemoveSpaces(s)) == multiset(input) ==>
               Found(anagrams, 0, s)
    requires multiset(ranked) == multiset(anagrams)
    ensures forall s :: PhraseOf(words, s) && multiset(RemoveSpaces(s)) == multiset(input) ==>
              exists k :: 0 <= k < |ranked| && ranked[k].text == s
  {
    forall s | PhraseOf(words, s) && multiset(RemoveSpaces(s)) == multiset(input)
      ensures exists k :: 0 <= k < |ranked| && ranked[k].text == s
    {
      PhrasesOfTrie(t, words, s);
      var i :| 0 <= i < |anagrams| && anagrams[i].text == s;
      assert anagrams[i] in multiset(ranked);
    }
  }

  /** Reordering keeps the texts pairwise distinct. */
  lemma SortedTextsDistinct(s: seq<Anagram>, r: seq<Anagram>)
    requires DistinctTexts(s, 0) && multiset(r) == multiset(s)
    ensures forall a, b :: 0 <= a < b < |r| ==> r[a].text != r[b].text
  {
    forall a, b | 0 <= a < b < |r|
      ensures r[a].text != r[b].text
    {
      assert r[a] in multiset(s) && r[b] in multiset(s);
      var i :| 0 <= i < |s| && s[i] == r[a];
      var j :| 0 <= j < |s| && s[j] == r[b];
      SingleCount(s, i);
      Occurrences(r, a, b);
      assert i != j;
    }
  }

  /** An element at two positions is counted twice. */
  lemma Occurrences(r: seq<Anagram>, a: nat, b: nat)
    requires a < b < |r|
    ensures multiset(r)[r[a]] >= if r[a] == r[b] then 2 else 1
  {
    var left, right := r[..b], r[b..];
    assert r == left + right;
    assert left[a] == r[a] && right[0] == r[b];
    assert multiset(r)[r[a]] == multiset(left)[r[a]] + multiset(right)[r[a]];
    assert r[a] in multiset(left) && r[b] in multiset(right);
  }

  /** With distinct texts, every anagram occurs once. */
  lemma SingleCount(s: seq<Anagram>, i: nat)
    requires i < |s| && DistinctTexts(s, 0)
    ensures multiset(s)[s[i]] == 1
  {
    assert s == s[..i] + [s[i]] + s[i + 1..];
    assert s[i] !in multiset(s[..i]) && s[i] !in multiset(s[i + 1..]);
  }
}
