/** The anagram search (`find_anagrams`, anagrammer.py:54-69): a depth-first
    walk over the positions of the input that follows the lexicon, closes a
    word wherever the trie marks one, and records a phrase once every
    position has been consumed. */
module Search {
  import opened Text
  import opened Lexicon
  import opened Ranking

  predicate Distinct(s: seq<nat>) {
    forall a, b :: 0 <= a < b < |s| ==> s[a] != s[b]
  }

  predicate InRange(s: seq<nat>, n: nat) {
    forall k :: 0 <= k < |s| ==> s[k] < n
  }

  /** Every position below `n` exactly once. */
  predicate IsPositionPermutation(p: seq<nat>, n: nat) {
    |p| == n && Distinct(p) && InRange(p, n)
  }

  /** The letters at the consumed positions, in the order they were consumed. */
  function Picked(input: string, ignore: seq<nat>): (r: string)
    requires InRange(ignore, |input|)
    ensures |r| == |ignore|
  {
    if ignore == [] then []
    else Picked(input, ignore[..|ignore| - 1]) + [input[ignore[|ignore| - 1]]]
  }

  /** The letters at the positions below `n` not yet consumed. */
  function FreeBelow(input: string, ignore: seq<nat>, n: nat): multiset<char>
    requires n <= |input|
  {
    if n == 0 then multiset{}
    else FreeBelow(input, ignore, n - 1) + FreeAt(input, ignore, n - 1)
  }

  /** The letter at position `k`, unless it was consumed. */
  function FreeAt(input: string, ignore: seq<nat>, k: nat): multiset<char>
    requires k < |input|
  {
    if k in ignore then multiset{} else multiset{input[k]}
  }

  /** The letters still to be used. */
  function Free(input: string, ignore: seq<nat>): multiset<char> {
    FreeBelow(input, ignore, |input|)
  }

  lemma {:induction false} FreeBelowConsume(input: string, ignore: seq<nat>, j: nat, n: nat)
    requires j < |input| && j !in ignore && n <= |input|
    ensures FreeBelow(input, ignore + [j], n) + (if j < n then multiset{input[j]} else multiset{}) ==
            FreeBelow(input, ignore, n)
  {
    if n > 0 {
      FreeBelowConsume(input, ignore, j, n - 1);
      ConsumeStep(input, ignore, j, n);
    }
  }

  lemma {:induction false} ConsumeStep(input: string, ignore: seq<nat>, j: nat, n: nat)
    requires j < |input| && j !in ignore && 0 < n <= |input|
    requires FreeBelow(input, ignore + [j], n - 1) + (if j < n - 1 then multiset{input[j]} else multiset{}) ==
             FreeBelow(input, ignore, n - 1)
    ensures FreeBelow(input, ignore + [j], n) + (if j < n then multiset{input[j]} else multiset{}) ==
            FreeBelow(input, ignore, n)
  {
    var k := n - 1;
    var earlier: multiset<char> := if j < k then multiset{input[j]} else multiset{};
    var now: multiset<char> := if j == k then multiset{input[j]} else multiset{};
    FreeAtConsume(input, ignore, j, k);
    SumSplits(FreeBelow(input, ignore + [j], k), FreeBelow(input, ignore, k), earlier,
              FreeAt(input, ignore + [j], k), FreeAt(input, ignore, k), now);
    assert earlier + now == if j < n then multiset{input[j]} else multiset{};
  }

  lemma FreeAtConsume(input: string, ignore: seq<nat>, j: nat, k: nat)
    requires j < |input| && j !in ignore && k < |input|
    ensures FreeAt(input, ignore + [j], k) + (if j == k then multiset{input[j]} else multiset{}) ==
            FreeAt(input, ignore, k)
  {
    assert (k in ignore + [j]) == (k in ignore || k == j);
  }

  lemma SumSplits(before': multiset<char>, before: multiset<char>, a: multiset<char>,
                  here': multiset<char>, here: multiset<char>, b: multiset<char>)
    requires before' + a == before && here' + b == here
    ensures (before' + here') + (a + b) == before + here
  {
  }

  /** Consuming a free position removes its letter from the free letters. */
  lemma FreeConsume(input: string, ignore: seq<nat>, j: nat)
    requires j < |input| && j !in ignore
    ensures input[j] in Free(input, ignore)
    ensures Free(input, ignore + [j]) == Free(input, ignore) - multiset{input[j]}
    ensures |Free(input, ignore + [j])| < |Free(input, ignore)|
  {
    FreeBelowConsume(input, ignore, j, |input|);
    assert Free(input, ignore + [j]) + multiset{input[j]} == Free(input, ignore);
  }

  lemma {:induction false} FreeBelowOfNothing(input: string, n: nat)
    requires n <= |input|
    ensures FreeBelow(input, [], n) == multiset(input[..n])
  {
    if n > 0 {
      FreeBelowOfNothing(input, n - 1);
      NothingConsumedStep(input, n);
    }
  }

  lemma {:induction false} NothingConsumedStep(input: string, n: nat)
    requires 0 < n <= |input|
    requires FreeBelow(input, [], n - 1) == multiset(input[..n - 1])
    ensures FreeBelow(input, [], n) == multiset(input[..n])
  {
    assert FreeAt(input, [], n - 1) == multiset{input[n - 1]};
    assert input[..n] == input[..n - 1] + [input[n - 1]];
  }

  /** The consumed letters and the free letters make up the input. */
  lemma {:induction false} PickedAndFree(input: string, ignore: seq<nat>)
    requires InRange(ignore, |input|) && Distinct(ignore)
    ensures multiset(Picked(input, ignore)) + Free(input, ignore) == multiset(input)
    ensures |ignore| + |Free(input, ignore)| == |input|
  {
    if ignore == [] {
      FreeBelowOfNothing(input, |input|);
      assert input[..|input|] == input;
    } else {
      PickedAndFree(input, ignore[..|ignore| - 1]);
      PickedAndFreeStep(input, ignore);
    }
  }

  lemma {:induction false} PickedAndFreeStep(input: string, ignore: seq<nat>)
    requires InRange(ignore, |input|) && Distinct(ignore) && ignore != []
    requires var rest := ignore[..|ignore| - 1];
      multiset(Picked(input, rest)) + Free(input, rest) == multiset(input) &&
      |rest| + |Free(input, rest)| == |input|
    ensures multiset(Picked(input, ignore)) + Free(input, ignore) == multiset(input)
    ensures |ignore| + |Free(input, ignore)| == |input|
  {
    var rest, j := ignore[..|ignore| - 1], ignore[|ignore| - 1];
    assert ignore == rest + [j];
    assert j !in rest;
    FreeConsume(input, rest, j);
    assert Picked(input, ignore) == Picked(input, rest) + [input[j]];
  }

  /** A free letter sits at a free position. */
  lemma {:induction false} FreePosition(input: string, ignore: seq<nat>, c: char, n: nat) returns (j: nat)
    requires n <= |input| && c in FreeBelow(input, ignore, n)
    ensures j < n && j !in ignore && input[j] == c
  {
    if c in FreeBelow(input, ignore, n - 1) {
      j := FreePosition(input, ignore, c, n - 1);
    } else {
      j := n - 1;
    }
  }

  /** Every input position was consumed exactly once to spell the letters of `s`. */
  ghost predicate UsesEachPositionOnce(input: string, s: string) {
    exists p :: IsPositionPermutation(p, |input|) && RemoveSpaces(s) == Picked(input, p)
  }

  /** `s` is a phrase of words spelled from `root`, one space between words. */
  predicate IsPhrase(ns: seq<Node>, root: nat, s: string) {
    WellSpaced(s) &&
    var ts := SplitSpaces(s);
    forall i :: 0 <= i < |ts| ==> Spells(ns, root, ts[i])
  }

  /** What every recorded anagram is. */
  ghost predicate IsResult(ns: seq<Node>, root: nat, input: string, a: Anagram) {
    IsPhrase(ns, root, a.text) && UsesEachPositionOnce(input, a.text) &&
    Fields(a.text) != [] && a == NewAnagram(a.text)
  }

  /** The state of one call: the positions `ignore` consumed so far,
      without repetition, spell the letters of `currentString` in order;
      every word of `currentString` but the open last one is a lexicon
      word, and the open one leads from `root` to `current`. */
  predicate Candidate(ns: seq<Node>, root: nat, current: nat, input: string,
                      currentString: string, ignore: seq<nat>)
  {
    InRange(ignore, |input|) && Distinct(ignore) &&
    RemoveSpaces(currentString) == Picked(input, ignore) &&
    var ts := SplitSpaces(currentString);
    (forall i :: 0 <= i < |ts| - 1 ==> ts[i] != [] && Spells(ns, root, ts[i])) &&
    Walk(ns, root, ts[|ts| - 1]) == Some(current)
  }

  /** `tail` finishes the open word at `node` and goes on with whole
      words, one space between words. */
  predicate Completes(ns: seq<Node>, root: nat, node: nat, tail: string) {
    WellSpaced(tail) &&
    var ts := SplitSpaces(tail);
    Spells(ns, node, ts[0]) && forall i :: 1 <= i < |ts| ==> Spells(ns, root, ts[i])
  }

  /** Some anagram from index `lo` on has text `s`. */
  ghost predicate Found(rs: seq<Anagram>, lo: nat, s: string) {
    exists k :: lo <= k < |rs| && rs[k].text == s
  }

  lemma FoundGrows(rs: seq<Anagram>, rs': seq<Anagram>, lo: nat, lo': nat, s: string)
    requires Found(rs, lo, s) && rs <= rs' && lo' <= lo
    ensures Found(rs', lo', s)
  {
    var k :| lo <= k < |rs| && rs[k].text == s;
    assert rs'[k] == rs[k];
  }

  /** Consuming a free position keeps the bookkeeping: the positions stay
      distinct and in range, and still spell the letters of the string. */
  lemma AppendPosition(input: string, currentString: string, ignore: seq<nat>, index: nat)
    requires InRange(ignore, |input|) && Distinct(ignore)
    requires RemoveSpaces(currentString) == Picked(input, ignore)
    requires index < |input| && index !in ignore && input[index] != ' '
    ensures InRange(ignore + [index], |input|) && Distinct(ignore + [index])
    ensures RemoveSpaces(currentString + [input[index]]) == Picked(input, ignore + [index])
    ensures RemoveSpaces(currentString + [input[index]] + " ") == Picked(input, ignore + [index])
  {
    var s := currentString + [input[index]];
    var ignore' := ignore + [index];
    assert s[..|s| - 1] == currentString;
    assert ignore'[..|ignore'| - 1] == ignore;
    var s' := s + " ";
    assert s'[..|s'| - 1] == s;
  }

  /** How the split phrase grows by a letter and by a space. */
  lemma AppendLetterSplit(currentString: string, letter: char)
    requires letter != ' '
    ensures var ts := SplitSpaces(currentString);
      SplitSpaces(currentString + [letter]) == ts[..|ts| - 1] + [ts[|ts| - 1] + [letter]]
    ensures SplitSpaces(currentString + [letter] + " ") == SplitSpaces(currentString + [letter]) + [[]]
  {
    var s := currentString + [letter];
    assert s[..|s| - 1] == currentString;
    var s' := s + " ";
    assert s'[..|s'| - 1] == s;
  }

  /** The three ways on from consuming `letter` at a position: the open
      word goes on, the open word closes and a new word starts, or the
      phrase closes. */
  lemma ConsumeLetter(ns: seq<Node>, root: nat, current: nat, input: string,
                      currentString: string, ignore: seq<nat>, index: nat, next: nat)
    requires Candidate(ns, root, current, input, currentString, ignore)
    requires NoWhitespace(input)
    requires index < |input| && index !in ignore
    requires Step(ns, current, input[index]) == Some(next) && next < |ns|
    ensures Candidate(ns, root, next, input, currentString + [input[index]], ignore + [index])
    ensures ns[next].isWord ==>
      Candidate(ns, root, root, input, currentString + [input[index]] + " ", ignore + [index])
    ensures ns[next].isWord && |ignore| + 1 == |input| ==>
      IsPhrase(ns, root, currentString + [input[index]]) &&
      UsesEachPositionOnce(input, currentString + [input[index]]) &&
      Fields(currentString + [input[index]]) != []
  {
    var letter := input[index];
    assert !IsWhitespace(letter);
    var s, ignore' := currentString + [letter], ignore + [index];
    AppendPosition(input, currentString, ignore, index);
    AppendLetterSplit(currentString, letter);
    OpenWordGrows(ns, root, current, input, currentString, ignore, letter, next);
    var ts := SplitSpaces(currentString);
    assert SplitSpaces(s)[|SplitSpaces(s)| - 1] == ts[|ts| - 1] + [letter];
    if ns[next].isWord {
      WordCloses(ns, root, next, input, s, ignore');
      if |ignore| + 1 == |input| {
        PhraseCloses(ns, root, next, input, s, ignore');
      }
    }
  }

  /** Following a connection with a consumed letter extends the open word. */
  lemma OpenWordGrows(ns: seq<Node>, root: nat, current: nat, input: string,
                      currentString: string, ignore: seq<nat>, letter: char, next: nat)
    requires Candidate(ns, root, current, input, currentString, ignore)
    requires Step(ns, current, letter) == Some(next)
    requires var ts := SplitSpaces(currentString);
      SplitSpaces(currentString + [letter]) == ts[..|ts| - 1] + [ts[|ts| - 1] + [letter]]
    ensures var ts := SplitSpaces(currentString + [letter]);
      (forall i :: 0 <= i < |ts| - 1 ==> ts[i] != [] && Spells(ns, root, ts[i])) &&
      Walk(ns, root, ts[|ts| - 1]) == Some(next)
  {
    var ts := SplitSpaces(currentString);
    var w := ts[|ts| - 1];
    var ts' := SplitSpaces(currentString + [letter]);
    WalkAppend(ns, root, w, letter);
    assert ts'[|ts'| - 1] == w + [letter];
    assert forall i :: 0 <= i < |ts'| - 1 ==> ts'[i] == ts[i];
  }

  /** Closing a word at a word node starts a new, empty word at the root. */
  lemma WordCloses(ns: seq<Node>, root: nat, next: nat, input: string, s: string, ignore: seq<nat>)
    requires Candidate(ns, root, next, input, s, ignore)
    requires next < |ns| && ns[next].isWord
    requires var ts := SplitSpaces(s); ts[|ts| - 1] != []
    requires SplitSpaces(s + " ") == SplitSpaces(s) + [[]]
    requires RemoveSpaces(s + " ") == RemoveSpaces(s)
    ensures Candidate(ns, root, root, input, s + " ", ignore)
  {
    var ts := SplitSpaces(s);
    var ts' := SplitSpaces(s + " ");
    assert ts' == ts + [[]];
    assert Spells(ns, root, ts[|ts| - 1]);
    forall i | 0 <= i < |ts'| - 1
      ensures ts'[i] != [] && Spells(ns, root, ts'[i])
    {
      assert ts'[i] == ts[i];
    }
    assert ts'[|ts'| - 1] == [];
    assert Walk(ns, root, []) == Some(root);
  }

  /** Closing a word at a word node once every position is consumed
      finishes a phrase. */
  lemma PhraseCloses(ns: seq<Node>, root: nat, next: nat, input: string, s: string, ignore: seq<nat>)
    requires Candidate(ns, root, next, input, s, ignore)
    requires next < |ns| && ns[next].isWord && |ignore| == |input|
    requires var ts := SplitSpaces(s); ts[|ts| - 1] != []
    requires s != [] && !IsWhitespace(s[|s| - 1])
    ensures IsPhrase(ns, root, s) && UsesEachPositionOnce(input, s) && Fields(s) != []
  {
    assert IsPositionPermutation(ignore, |input|);
    FieldsOfLetterEnding(s);
    var ts := SplitSpaces(s);
    assert forall i :: 0 <= i < |ts| ==> ts[i] != [] && Spells(ns, root, ts[i]);
  }

  /** The first letter of a phrase leads into its first word. */
  lemma TailFirstLetter(ns: seq<Node>, current: nat, next: nat, letter: char, tail: string)
    requires tail != [] && tail[0] == letter && letter != ' '
    requires Step(ns, current, letter) == Some(next)
    ensures SplitSpaces(tail) == [[letter] + SplitSpaces(tail[1..])[0]] + SplitSpaces(tail[1..])[1..]
    ensures Walk(ns, current, SplitSpaces(tail)[0]) == Walk(ns, next, SplitSpaces(tail[1..])[0])
    ensures RemoveSpaces(tail) == [letter] + RemoveSpaces(tail[1..])
  {
    var rest := tail[1..];
    assert tail == [letter] + rest;
    RemoveSpacesPrepend(letter, rest);
    SplitSpacesPrependLetter(letter, rest);
    var w := SplitSpaces(rest)[0];
    assert ([letter] + w)[0] == letter;
    assert ([letter] + w)[1..] == w;
  }

  /** A space right after the first letter closes a one-letter first word. */
  lemma TailSpaceSecond(letter: char, tail: string)
    requires |tail| > 1 && tail[0] == letter && letter != ' ' && tail[1] == ' '
    ensures SplitSpaces(tail[1..]) == [[]] + SplitSpaces(tail[2..])
    ensures SplitSpaces(tail) == [[letter]] + SplitSpaces(tail[2..])
    ensures RemoveSpaces(tail[2..]) == RemoveSpaces(tail[1..])
  {
    var rest, rest2 := tail[1..], tail[2..];
    var r2 := SplitSpaces(rest2);
    assert rest == [' '] + rest2;
    SplitSpacesPrependSpace(rest2);
    RemoveSpacesPrepend(' ', rest2);
    var r := SplitSpaces(rest);
    assert r == [[]] + r2;
    assert r[0] == [] && r[1..] == r2;
    assert tail == [letter] + rest;
    SplitSpacesPrependLetter(letter, rest);
    assert SplitSpaces(tail) == [[letter] + r[0]] + r[1..];
    assert [letter] + r[0] == [letter];
  }

  /** A letter right after the first letter keeps the first word open. */
  lemma TailLetterSecond(tail: string)
    requires |tail| > 1 && tail[1] != ' '
    ensures SplitSpaces(tail[1..])[0] != []
  {
    var rest := tail[1..];
    assert rest == [rest[0]] + rest[1..];
    SplitSpacesPrependLetter(rest[0], rest[1..]);
  }

  /** A completion made of the one letter `letter` ends at a word. */
  lemma TailIsLetter(ns: seq<Node>, root: nat, current: nat, next: nat, letter: char)
    requires Completes(ns, root, current, [letter]) && letter != ' '
    requires Step(ns, current, letter) == Some(next)
    ensures next < |ns| && ns[next].isWord
  {
    var tail := [letter];
    TailFirstLetter(ns, current, next, letter, tail);
    assert tail[1..] == [];
  }

  /** A completion `letter`, space, `more` closes the word at `next`
      and then starts afresh from the root with `more`. */
  lemma TailClosesWord(ns: seq<Node>, root: nat, current: nat, next: nat, letter: char, tail: string)
    requires Completes(ns, root, current, tail) && letter != ' '
    requires |tail| > 1 && tail[0] == letter && tail[1] == ' '
    requires Step(ns, current, letter) == Some(next)
    ensures next < |ns| && ns[next].isWord
    ensures Completes(ns, root, root, tail[2..])
    ensures RemoveSpaces(tail) == [letter] + RemoveSpaces(tail[2..])
  {
    TailFirstLetter(ns, current, next, letter, tail);
    TailSpaceSecond(letter, tail);
    var ts, r2 := SplitSpaces(tail), SplitSpaces(tail[2..]);
    assert ts[1..] == r2;
    assert forall i :: 0 <= i < |r2| ==> r2[i] == ts[i + 1];
  }

  /** A completion `letter`, `more`, with `more` not starting with a space,
      goes on with `more` from `next`. */
  lemma TailGoesOn(ns: seq<Node>, root: nat, current: nat, next: nat, letter: char, tail: string)
    requires Completes(ns, root, current, tail) && letter != ' '
    requires |tail| > 1 && tail[0] == letter && tail[1] != ' '
    requires Step(ns, current, letter) == Some(next)
    ensures Completes(ns, root, next, tail[1..])
    ensures RemoveSpaces(tail) == [letter] + RemoveSpaces(tail[1..])
  {
    TailFirstLetter(ns, current, next, letter, tail);
    TailLetterSecond(tail);
    var ts, r := SplitSpaces(tail), SplitSpaces(tail[1..]);
    assert ts[1..] == r[1..];
    assert forall i :: 1 <= i < |r| ==> r[i] == ts[i];
  }

  /** Every anagram from index `lo` on is a result. */
  ghost predicate ResultsFrom(ns: seq<Node>, root: nat, input: string, rs: seq<Anagram>, lo: nat) {
    forall k :: lo <= k < |rs| ==> IsResult(ns, root, input, rs[k])
  }

  lemma ResultsJoin(ns: seq<Node>, root: nat, input: string, rs: seq<Anagram>, rs': seq<Anagram>, lo: nat)
    requires ResultsFrom(ns, root, input, rs, lo) && rs <= rs' && ResultsFrom(ns, root, input, rs', |rs|)
    ensures ResultsFrom(ns, root, input, rs', lo)
  {
    forall k | lo <= k < |rs'|
      ensures IsResult(ns, root, input, rs'[k])
    {
      if k < |rs| {
        assert rs'[k] == rs[k];
      }
    }
  }

  /** Every way `tail` of finishing `currentString` from `node` with the
      free letters, whose first letter is among `firsts`, was recorded
      from index `lo` on. */
  ghost predicate FindsAllFrom(ns: seq<Node>, root: nat, node: nat, input: string, currentString: string,
                               ignore: seq<nat>, rs: seq<Anagram>, lo: nat, firsts: seq<char>)
  {
    forall tail {:trigger Completes(ns, root, node, tail)} ::
      (|tail| > 0 && tail[0] in firsts &&
       Completes(ns, root, node, tail) && multiset(RemoveSpaces(tail)) == Free(input, ignore)) ==>
        Found(rs, lo, currentString + tail)
  }

  /** Every way `tail` of finishing `currentString` from `node` with the
      free letters was recorded from index `lo` on. */
  ghost predicate FindsAll(ns: seq<Node>, root: nat, node: nat, input: string, currentString: string,
                           ignore: seq<nat>, rs: seq<Anagram>, lo: nat)
  {
    forall tail {:trigger Completes(ns, root, node, tail)} ::
      Completes(ns, root, node, tail) && multiset(RemoveSpaces(tail)) == Free(input, ignore) ==>
        Found(rs, lo, currentString + tail)
  }

  lemma ShiftLetter(s: string, letter: char, tail: string)
    requires |tail| > 0 && tail[0] == letter
    ensures s + [letter] + tail[1..] == s + tail
  {
    assert tail == [letter] + tail[1..];
  }

  lemma ShiftLetterSpace(s: string, letter: char, tail: string)
    requires |tail| > 1 && tail[0] == letter && tail[1] == ' '
    ensures s + [letter] + " " + tail[2..] == s + tail
  {
    assert tail == [letter] + " " + tail[2..];
  }

  lemma FoundOfFirst(ns: seq<Node>, root: nat, node: nat, input: string, currentString: string,
                     ignore: seq<nat>, rs: seq<Anagram>, lo: nat, firsts: seq<char>, tail: string)
    requires FindsAllFrom(ns, root, node, input, currentString, ignore, rs, lo, firsts)
    requires |tail| > 0 && tail[0] in firsts
    requires Completes(ns, root, node, tail) && multiset(RemoveSpaces(tail)) == Free(input, ignore)
    ensures Found(rs, lo, currentString + tail)
  {
  }

  lemma FoundOfAll(ns: seq<Node>, root: nat, node: nat, input: string, currentString: string,
                   ignore: seq<nat>, rs: seq<Anagram>, lo: nat, tail: string)
    requires FindsAll(ns, root, node, input, currentString, ignore, rs, lo)
    requires Completes(ns, root, node, tail) && multiset(RemoveSpaces(tail)) == Free(input, ignore)
    ensures Found(rs, lo, currentString + tail)
  {
  }

  /** The free letters are exactly the one at `index`: `index` is the last
      position to consume. */
  lemma LastFreePosition(input: string, ignore: seq<nat>, index: nat)
    requires InRange(ignore, |input|) && Distinct(ignore)
    requires index < |input| && index !in ignore
    requires Free(input, ignore) == multiset{input[index]}
    ensures |ignore| + 1 == |input|
  {
    FreeConsume(input, ignore, index);
    assert InRange(ignore + [index], |input|) && Distinct(ignore + [index]);
    PickedAndFree(input, ignore + [index]);
  }

  /** A completion that is a single letter was recorded when the phrase closed. */
  lemma FoundByClosing(ns: seq<Node>, root: nat, current: nat, next: nat, input: string,
                       currentString: string, ignore: seq<nat>, index: nat,
                       before: seq<Anagram>, afterAppend: seq<Anagram>, result: seq<Anagram>, lo: nat)
    requires InRange(ignore, |input|) && Distinct(ignore)
    requires index < |input| && index !in ignore && input[index] != ' '
    requires Step(ns, current, input[index]) == Some(next) && next < |ns|
    requires Completes(ns, root, current, [input[index]])
    requires multiset{input[index]} == Free(input, ignore)
    requires lo <= |before| && afterAppend <= result
    requires ns[next].isWord && |ignore| + 1 == |input| ==>
      |afterAppend| == |before| + 1 && afterAppend[|before|].text == currentString + [input[index]]
    ensures Found(result, lo, currentString + [input[index]])
  {
    TailIsLetter(ns, root, current, next, input[index]);
    LastFreePosition(input, ignore, index);
    FoundGrows(afterAppend, result, |before|, lo, currentString + [input[index]]);
  }

  /** A completion letter, space, `more` was recorded by the call that
      starts a new word. */
  lemma FoundByNewWord(ns: seq<Node>, root: nat, current: nat, next: nat, input: string,
                       currentString: string, ignore: seq<nat>, index: nat,
                       afterAppend: seq<Anagram>, afterNewWord: seq<Anagram>, result: seq<Anagram>,
                       lo: nat, tail: string)
    requires index < |input| && index !in ignore && input[index] != ' '
    requires Step(ns, current, input[index]) == Some(next) && next < |ns|
    requires |tail| > 1 && tail[0] == input[index] && tail[1] == ' '
    requires Completes(ns, root, current, tail) && multiset(RemoveSpaces(tail)) == Free(input, ignore)
    requires lo <= |afterAppend| && afterNewWord <= result
    requires ns[next].isWord ==>
      FindsAll(ns, root, root, input, currentString + [input[index]] + " ", ignore + [index],
               afterNewWord, |afterAppend|)
    ensures Found(result, lo, currentString + tail)
  {
    var letter := input[index];
    TailClosesWord(ns, root, current, next, letter, tail);
    FreeConsume(input, ignore, index);
    FoundOfAll(ns, root, root, input, currentString + [letter] + " ", ignore + [index],
               afterNewWord, |afterAppend|, tail[2..]);
    ShiftLetterSpace(currentString, letter, tail);
    FoundGrows(afterNewWord, result, |afterAppend|, lo, currentString + tail);
  }

  /** A completion letter, `more`, with `more` going on with the same word,
      was recorded by the call that extends the word. */
  lemma FoundByGoingOn(ns: seq<Node>, root: nat, current: nat, next: nat, input: string,
                       currentString: string, ignore: seq<nat>, index: nat,
                       result: seq<Anagram>, from: nat, lo: nat, tail: string)
    requires index < |input| && index !in ignore && input[index] != ' '
    requires Step(ns, current, input[index]) == Some(next)
    requires |tail| > 1 && tail[0] == input[index] && tail[1] != ' '
    requires Completes(ns, root, current, tail) && multiset(RemoveSpaces(tail)) == Free(input, ignore)
    requires lo <= from
    requires FindsAll(ns, root, next, input, currentString + [input[index]], ignore + [index], result, from)
    ensures Found(result, lo, currentString + tail)
  {
    var letter := input[index];
    TailGoesOn(ns, root, current, next, letter, tail);
    FreeConsume(input, ignore, index);
    FoundOfAll(ns, root, next, input, currentString + [letter], ignore + [index], result, from, tail[1..]);
    ShiftLetter(currentString, letter, tail);
    FoundGrows(result, result, from, lo, currentString + tail);
  }

  /** After the letter at `index` is explored, the completions found so far
      are those that start with a letter seen before it, or with it. */
  lemma FindsAllAfterLetter(ns: seq<Node>, root: nat, current: nat, next: nat, input: string,
                            currentString: string, ignore: seq<nat>, index: nat, seen: seq<char>,
                            before: seq<Anagram>, afterAppend: seq<Anagram>, afterNewWord: seq<Anagram>,
                            result: seq<Anagram>, lo: nat)
    requires InRange(ignore, |input|) && Distinct(ignore) && NoWhitespace(input)
    requires index < |input| && index !in ignore
    requires Step(ns, current, input[index]) == Some(next) && next < |ns|
    requires lo <= |before| && before <= afterAppend <= afterNewWord <= result
    requires FindsAllFrom(ns, root, current, input, currentString, ignore, before, lo, seen)
    requires ns[next].isWord && |ignore| + 1 == |input| ==>
      |afterAppend| == |before| + 1 && afterAppend[|before|].text == currentString + [input[index]]
    requires ns[next].isWord ==>
      FindsAll(ns, root, root, input, currentString + [input[index]] + " ", ignore + [index],
               afterNewWord, |afterAppend|)
    requires FindsAll(ns, root, next, input, currentString + [input[index]], ignore + [index],
                      result, |afterNewWord|)
    ensures FindsAllFrom(ns, root, current, input, currentString, ignore, result, lo, seen + [input[index]])
  {
    var letter := input[index];
    assert !IsWhitespace(letter);
    forall tail | |tail| > 0 && tail[0] in seen + [letter] &&
                  Completes(ns, root, current, tail) && multiset(RemoveSpaces(tail)) == Free(input, ignore)
      ensures Found(result, lo, currentString + tail)
    {
      if tail[0] == letter {
        if |tail| == 1 {
          assert tail == [letter];
          assert RemoveSpaces(tail) == [letter];
          FoundByClosing(ns, root, current, next, input, currentString, ignore, index,
                         before, afterAppend, result, lo);
        } else if tail[1] == ' ' {
          FoundByNewWord(ns, root, current, next, input, currentString, ignore, index,
                         afterAppend, afterNewWord, result, lo, tail);
        } else {
          FoundByGoingOn(ns, root, current, next, input, currentString, ignore, index,
                         result, |afterNewWord|, lo, tail);
        }
      } else {
        assert tail[0] in seen;
        FoundOfFirst(ns, root, current, input, currentString, ignore, before, lo, seen, tail);
        FoundGrows(before, result, lo, lo, currentString + tail);
      }
    }
  }

  /** One explored letter, from a consistent state: the two recursive calls
      start from consistent states, and what the letter appends keeps both
      the soundness and the completeness the loop maintains. */
  lemma LetterExplored(ns: seq<Node>, root: nat, current: nat, next: nat, input: string,
                       currentString: string, ignore: seq<nat>, index: nat, seen: seq<char>, lo: nat,
                       before: seq<Anagram>, afterAppend: seq<Anagram>, afterNewWord: seq<Anagram>,
                       result: seq<Anagram>)
    requires Candidate(ns, root, current, input, currentString, ignore)
    requires NoWhitespace(input) && index < |input| && index !in ignore
    requires Step(ns, current, input[index]) == Some(next) && next < |ns|
    requires lo <= |before| && before <= afterAppend <= afterNewWord <= result
    requires ResultsFrom(ns, root, input, before, lo)
    requires FindsAllFrom(ns, root, current, input, currentString, ignore, before, lo, seen)
    requires !(ns[next].isWord && |ignore| + 1 == |input|) ==> afterAppend == before
    requires ns[next].isWord && |ignore| + 1 == |input| ==>
      |afterAppend| == |before| + 1 && afterAppend[|before|].text == currentString + [input[index]] &&
      Fields(afterAppend[|before|].text) != [] && afterAppend[|before|] == NewAnagram(afterAppend[|before|].text)
    requires !ns[next].isWord ==> afterNewWord == afterAppend
    requires (ns[next].isWord &&
              Candidate(ns, root, root, input, currentString + [input[index]] + " ", ignore + [index])) ==>
        ResultsFrom(ns, root, input, afterNewWord, |afterAppend|) &&
        FindsAll(ns, root, root, input, currentString + [input[index]] + " ", ignore + [index],
                 afterNewWord, |afterAppend|)
    requires Candidate(ns, root, next, input, currentString + [input[index]], ignore + [index]) ==>
      ResultsFrom(ns, root, input, result, |afterNewWord|) &&
      FindsAll(ns, root, next, input, currentString + [input[index]], ignore + [index], result, |afterNewWord|)
    ensures ResultsFrom(ns, root, input, result, lo)
    ensures FindsAllFrom(ns, root, current, input, currentString, ignore, result, lo, seen + [input[index]])
  {
    ConsumeLetter(ns, root, current, input, currentString, ignore, index, next);
    LetterResults(ns, root, current, next, input, currentString, ignore, index, lo,
                  before, afterAppend, afterNewWord, result);
    FindsAllAfterLetter(ns, root, current, next, input, currentString, ignore, index, seen,
                        before, afterAppend, afterNewWord, result, lo);
  }

  /** From a consistent state, everything one explored letter appends is sound. */
  lemma LetterResults(ns: seq<Node>, root: nat, current: nat, next: nat, input: string,
                      currentString: string, ignore: seq<nat>, index: nat, lo: nat,
                      before: seq<Anagram>, afterAppend: seq<Anagram>, afterNewWord: seq<Anagram>,
                      result: seq<Anagram>)
    requires Candidate(ns, root, current, input, currentString, ignore)
    requires NoWhitespace(input) && index < |input| && index !in ignore
    requires Step(ns, current, input[index]) == Some(next) && next < |ns|
    requires lo <= |before| && before <= afterAppend <= afterNewWord <= result
    requires ResultsFrom(ns, root, input, before, lo)
    requires !(ns[next].isWord && |ignore| + 1 == |input|) ==> afterAppend == before
    requires ns[next].isWord && |ignore| + 1 == |input| ==>
      |afterAppend| == |before| + 1 && afterAppend[|before|].text == currentString + [input[index]] &&
      Fields(afterAppend[|before|].text) != [] && afterAppend[|before|] == NewAnagram(afterAppend[|before|].text)
    requires !ns[next].isWord ==> afterNewWord == afterAppend
    requires (ns[next].isWord &&
              Candidate(ns, root, root, input, currentString + [input[index]] + " ", ignore + [index])) ==>
        ResultsFrom(ns, root, input, afterNewWord, |afterAppend|)
    requires Candidate(ns, root, next, input, currentString + [input[index]], ignore + [index]) ==>
      ResultsFrom(ns, root, input, result, |afterNewWord|)
    ensures ResultsFrom(ns, root, input, result, lo)
  {
    ConsumeLetter(ns, root, current, input, currentString, ignore, index, next);
    if ns[next].isWord && |ignore| + 1 == |input| {
      var a := afterAppend[|before|];
      assert IsResult(ns, root, input, a);
      forall k | |before| <= k < |afterAppend|
        ensures IsResult(ns, root, input, afterAppend[k])
      {
        assert k == |before|;
      }
    }
    if ns[next].isWord {
      assert Candidate(ns, root, root, input, currentString + [input[index]] + " ", ignore + [index]);
    }
    LetterSound(ns, root, input, lo, before, afterAppend, afterNewWord, result);
  }

  /** The three stretches one letter appends are sound, so all is. */
  lemma LetterSound(ns: seq<Node>, root: nat, input: string, lo: nat, before: seq<Anagram>,
                    afterAppend: seq<Anagram>, afterNewWord: seq<Anagram>, result: seq<Anagram>)
    requires lo <= |before| && before <= afterAppend <= afterNewWord <= result
    requires ResultsFrom(ns, root, input, before, lo)
    requires ResultsFrom(ns, root, input, afterAppend, |before|)
    requires ResultsFrom(ns, root, input, afterNewWord, |afterAppend|)
    requires ResultsFrom(ns, root, input, result, |afterNewWord|)
    ensures ResultsFrom(ns, root, input, result, lo)
  {
    ResultsJoin(ns, root, input, before, afterAppend, lo);
    ResultsJoin(ns, root, input, afterAppend, afterNewWord, lo);
    ResultsJoin(ns, root, input, afterNewWord, result, lo);
  }

  /** Once every letter that leads on from `node` is among `firsts`, no
      completion is missed. */
  lemma FindsAllOfFirsts(ns: seq<Node>, root: nat, node: nat, input: string, currentString: string,
                         ignore: seq<nat>, rs: seq<Anagram>, lo: nat, firsts: seq<char>)
    requires FindsAllFrom(ns, root, node, input, currentString, ignore, rs, lo, firsts)
    requires forall j :: 0 <= j < |input| && j !in ignore && Step(ns, node, input[j]).Some? ==> input[j] in firsts
    ensures FindsAll(ns, root, node, input, currentString, ignore, rs, lo)
  {
    forall tail | Completes(ns, root, node, tail) && multiset(RemoveSpaces(tail)) == Free(input, ignore)
      ensures Found(rs, lo, currentString + tail)
    {
      WellSpacedShape(tail);
      RemoveSpacesPrepend(tail[0], tail[1..]);
      assert tail == [tail[0]] + tail[1..];
      assert tail[0] in multiset(RemoveSpaces(tail));
      var j := FreePosition(input, ignore, tail[0], |input|);
      SplitSpacesPrependLetter(tail[0], tail[1..]);
      var w := SplitSpaces(tail)[0];
      assert w != [] && w[0] == tail[0];
      assert Step(ns, node, tail[0]).Some?;
    }
  }

  /** Every anagram from index `lo` on extends `s` by at least one
      character, and the first character after `s` is not a space. */
  ghost predicate Extends(rs: seq<Anagram>, lo: nat, s: string) {
    forall k :: lo <= k < |rs| ==>
      |s| < |rs[k].text| && rs[k].text[..|s|] == s && rs[k].text[|s|] != ' '
  }

  /** No two anagrams from index `lo` on have the same text. */
  ghost predicate DistinctTexts(rs: seq<Anagram>, lo: nat) {
    forall a, b :: lo <= a < b < |rs| ==> rs[a].text != rs[b].text
  }

  /** What one explored letter `letter` appends: the phrase that closes
      with it, the phrases that go on after a space, and the phrases that
      go on with the same word. They all start with `s + [letter]` and no
      two are equal. */
  lemma LetterBlock(s: string, letter: char, before: seq<Anagram>, afterAppend: seq<Anagram>,
                    afterNewWord: seq<Anagram>, result: seq<Anagram>)
    requires letter != ' '
    requires before <= afterAppend <= afterNewWord <= result
    requires |afterAppend| <= |before| + 1
    requires |afterAppend| == |before| + 1 ==> afterAppend[|before|].text == s + [letter]
    requires Extends(afterNewWord, |afterAppend|, s + [letter] + " ") && DistinctTexts(afterNewWord, |afterAppend|)
    requires Extends(result, |afterNewWord|, s + [letter]) && DistinctTexts(result, |afterNewWord|)
    ensures forall k :: |before| <= k < |result| ==>
      |s| < |result[k].text| && result[k].text[..|s| + 1] == s + [letter]
    ensures DistinctTexts(result, |before|)
  {
    var s1 := s + [letter];
    var s2 := s1 + " ";
    assert s2[..|s1|] == s1;
    forall k | |before| <= k < |result|
      ensures |s| < |result[k].text| && result[k].text[..|s| + 1] == s1
    {
      var w := result[k].text;
      if k < |afterAppend| {
        assert result[k] == afterAppend[k];
      } else if k < |afterNewWord| {
        assert result[k] == afterNewWord[k];
        assert w[..|s2|][..|s1|] == w[..|s1|];
      }
    }
    forall a, b | |before| <= a < b < |result|
      ensures result[a].text != result[b].text
    {
      var wa, wb := result[a].text, result[b].text;
      if a < |afterAppend| {
        assert wa == s1;
        if b < |afterNewWord| {
          assert wb == afterNewWord[b].text;
        }
      } else if a < |afterNewWord| && b < |afterNewWord| {
        assert wa == afterNewWord[a].text && wb == afterNewWord[b].text;
      } else if a < |afterNewWord| {
        assert wa == afterNewWord[a].text;
        assert wa[|s1|] == ' ' != wb[|s1|];
      }
    }
  }

  /** Blocks for distinct letters do not clash. */
  lemma JoinBlocks(s: string, letter: char, seen: seq<char>, lo: nat, before: seq<Anagram>, result: seq<Anagram>)
    requires lo <= |before| && before <= result && letter !in seen
    requires Extends(before, lo, s) && DistinctTexts(before, lo)
    requires forall k :: lo <= k < |before| ==> before[k].text[|s|] in seen
    requires forall k :: |before| <= k < |result| ==>
      |s| < |result[k].text| && result[k].text[..|s| + 1] == s + [letter]
    requires DistinctTexts(result, |before|) && letter != ' '
    ensures Extends(result, lo, s) && DistinctTexts(result, lo)
    ensures forall k :: lo <= k < |result| ==> result[k].text[|s|] in seen + [letter]
  {
    forall k | |before| <= k < |result|
      ensures result[k].text[..|s|] == s && result[k].text[|s|] == letter
    {
      var w := result[k].text;
      assert w[..|s| + 1][..|s|] == w[..|s|];
      assert w[..|s| + 1][|s|] == w[|s|];
    }
    forall k | lo <= k < |before|
      ensures result[k] == before[k]
    {
    }
  }

  /** `find_anagrams(root_node, current_node, input_string, current_string,
      ignore_indexes, anagrams)`: the trie is `t`, the two nodes are arena
      indices, and the shared list `anagrams` goes in and comes out as
      `result`.

      It only appends. From a `Candidate` state, every anagram it appends
      covers the input by lexicon words from `root`, each position used
      once; and every way to finish the open word and the phrase with the
      free letters is appended. */
  method FindAnagrams(t: Trie, root: nat, current: nat, input: string, currentString: string,
                      ignore: seq<nat>, anagrams: seq<Anagram>) returns (result: seq<Anagram>)
    requires IsArena(t.nodes) && root < |t.nodes| && current < |t.nodes|
    requires NoWhitespace(input)
    ensures anagrams <= result
    ensures Extends(result, |anagrams|, currentString) && DistinctTexts(result, |anagrams|)
    ensures Candidate(t.nodes, root, current, input, currentString, ignore) ==>
      ResultsFrom(t.nodes, root, input, result, |anagrams|)
    ensures Candidate(t.nodes, root, current, input, currentString, ignore) ==>
      FindsAll(t.nodes, root, current, input, currentString, ignore, result, |anagrams|)
    decreases |Free(input, ignore)|, 1
  {
    result := anagrams;
    ghost var ns := t.nodes;
    ghost var candidate := Candidate(ns, root, current, input, currentString, ignore);
    var seenLettersThisIteration: seq<char> := [];
    for index := 0 to |input|
      invariant anagrams <= result
      invariant forall a, b :: 0 <= a < b < |seenLettersThisIteration| ==>
                  seenLettersThisIteration[a] != seenLettersThisIteration[b]
      invariant forall j :: 0 <= j < index && j !in ignore && Step(ns, current, input[j]).Some? ==>
                  input[j] in seenLettersThisIteration
      invariant Extends(result, |anagrams|, currentString) && DistinctTexts(result, |anagrams|)
      invariant forall k :: |anagrams| <= k < |result| ==> result[k].text[|currentString|] in seenLettersThisIteration
      invariant candidate ==> ResultsFrom(ns, root, input, result, |anagrams|)
      invariant candidate ==>
        FindsAllFrom(ns, root, current, input, currentString, ignore, result, |anagrams|, seenLettersThisIteration)
    {
      var currentLetter := input[index];
      if index in ignore || currentLetter in seenLettersThisIteration {
        continue;
      }
      if currentLetter in t.nodes[current].connections {
        ghost var seenBefore := seenLettersThisIteration;
        seenLettersThisIteration := seenLettersThisIteration + [currentLetter];
        result := ExploreLetter(t, root, current, input, currentString, ignore, index, result,
                                |anagrams|, seenBefore);
      }
    }
    if candidate {
      FindsAllOfFirsts(ns, root, current, input, currentString, ignore, result, |anagrams|, seenLettersThisIteration);
    }
  }

  /** One pass of the loop of `find_anagrams` for a letter that leads on
      from `current` (anagrammer.py:59-69): record the phrase that closes
      with it, search on after closing the word, then search on with the
      word open. Everything it appends starts with `currentString` and the
      letter, so nothing clashes with the anagrams appended for the letters
      `seen` before it; from a consistent state, what it appends is sound,
      and every completion starting with the letter is now recorded. */
  method ExploreLetter(t: Trie, root: nat, current: nat, input: string, currentString: string,
                       ignore: seq<nat>, index: nat, anagrams: seq<Anagram>,
                       ghost lo: nat, ghost seen: seq<char>) returns (result: seq<Anagram>)
    requires IsArena(t.nodes) && root < |t.nodes| && current < |t.nodes|
    requires NoWhitespace(input)
    requires index < |input| && index !in ignore && input[index] in t.nodes[current].connections
    requires input[index] !in seen && lo <= |anagrams|
    requires Extends(anagrams, lo, currentString) && DistinctTexts(anagrams, lo)
    requires forall k :: lo <= k < |anagrams| ==> anagrams[k].text[|currentString|] in seen
    requires Candidate(t.nodes, root, current, input, currentString, ignore) ==>
      ResultsFrom(t.nodes, root, input, anagrams, lo) &&
      FindsAllFrom(t.nodes, root, current, input, currentString, ignore, anagrams, lo, seen)
    ensures anagrams <= result
    ensures Extends(result, lo, currentString) && DistinctTexts(result, lo)
    ensures forall k :: lo <= k < |result| ==> result[k].text[|currentString|] in seen + [input[index]]
    ensures Candidate(t.nodes, root, current, input, currentString, ignore) ==>
      ResultsFrom(t.nodes, root, input, result, lo) &&
      FindsAllFrom(t.nodes, root, current, input, currentString, ignore, result, lo, seen + [input[index]])
    decreases |Free(input, ignore)|, 0
  {
    ghost var ns := t.nodes;
    var currentLetter := input[index];
    var nextNode := t.nodes[current].connections[currentLetter];
    var nextString := currentString + [currentLetter];
    var nextIgnoreIndexes := ignore + [index];
    FreeConsume(input, ignore, index);
    result := anagrams;
    ghost var afterAppend := result;
    ghost var afterNewWord := result;
    if t.nodes[nextNode].isWord {
      if |nextIgnoreIndexes| == |input| {
        FieldsOfLetterEnding(nextString);
        result := result + [NewAnagram(nextString)];
      }
      afterAppend := result;
      result := FindAnagrams(t, root, root, input, nextString + " ", nextIgnoreIndexes, result);
      afterNewWord := result;
    }
    result := FindAnagrams(t, root, nextNode, input, nextString, nextIgnoreIndexes, result);
    assert !IsWhitespace(currentLetter);
    LetterBlock(currentString, currentLetter, anagrams, afterAppend, afterNewWord, result);
    JoinBlocks(currentString, currentLetter, seen, lo, anagrams, result);
    if Candidate(ns, root, current, input, currentString, ignore) {
      LetterExplored(ns, root, current, nextNode, input, currentString, ignore, index, seen,
                     lo, anagrams, afterAppend, afterNewWord, result);
    }
  }

  /** A recorded phrase, spaces removed, is a rearrangement of the input. */
  lemma ResultIsPermutation(ns: seq<Node>, root: nat, input: string, a: Anagram)
    requires IsResult(ns, root, input, a)
    ensures multiset(RemoveSpaces(a.text)) == multiset(input)
    ensures |RemoveSpaces(a.text)| == |input|
  {
    var p :| IsPositionPermutation(p, |input|) && RemoveSpaces(a.text) == Picked(input, p);
    PickedAndFree(input, p);
  }

  /** The search as the driver starts it (anagrammer.py:87-88): from the
      root, with nothing consumed and an empty list. The list it returns
      holds exactly-once covers of `input` by lexicon words, and every such
      phrase is among them. */
  method FindAllAnagrams(t: Trie, input: string) returns (anagrams: seq<Anagram>)
    requires IsArena(t.nodes)
    requires NoWhitespace(input)
    ensures forall k :: 0 <= k < |anagrams| ==> IsResult(t.nodes, Root, input, anagrams[k])
    ensures forall s :: IsPhrase(t.nodes, Root, s) && multiset(RemoveSpaces(s)) == multiset(input) ==>
              Found(anagrams, 0, s)
    ensures DistinctTexts(anagrams, 0)
  {
    var empty: string := [];
    assert SplitSpaces(empty) == [[]];
    assert Candidate(t.nodes, Root, Root, input, empty, []);
    FreeBelowOfNothing(input, |input|);
    assert input[..|input|] == input;
    anagrams := FindAnagrams(t, Root, Root, input, empty, [], []);
    forall s | IsPhrase(t.nodes, Root, s) && multiset(RemoveSpaces(s)) == multiset(input)
      ensures Found(anagrams, 0, s)
    {
      assert Completes(t.nodes, Root, Root, s);
      assert empty + s == s;
    }
  }
}
