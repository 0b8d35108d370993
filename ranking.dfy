/** Ranking of the results (`Anagram`, anagrammer.py:42-52, and the
    reverse sort of anagrammer.py:89). */
module Ranking {
  import opened Text

  /** A finished phrase with the lengths of its shortest and its longest word. */
  datatype Anagram = Anagram(text: string, smallestWordLength: nat, largestWordLength: nat)

  /** `len(min(ws, key=len))`. */
  function MinLength(ws: seq<string>): (m: nat)
    requires ws != []
    ensures exists i :: 0 <= i < |ws| && |ws[i]| == m
    ensures forall i :: 0 <= i < |ws| ==> m <= |ws[i]|
  {
    if |ws| == 1 then |ws[0]|
    else
      var rest := MinLength(ws[1..]);
      if |ws[0]| <= rest then |ws[0]| else rest
  }

  /** `len(max(ws, key=len))`. */
  function MaxLength(ws: seq<string>): (m: nat)
    requires ws != []
    ensures exists i :: 0 <= i < |ws| && |ws[i]| == m
    ensures forall i :: 0 <= i < |ws| ==> |ws[i]| <= m
  {
    if |ws| == 1 then |ws[0]|
    else
      var rest := MaxLength(ws[1..]);
      if |ws[0]| >= rest then |ws[0]| else rest
  }

  /** `Anagram.__init__`: the lengths of the shortest and the longest
      whitespace-separated word. A text without any word makes `min` raise,
      so the constructor demands one. */
  function NewAnagram(text: string): (a: Anagram)
    requires Fields(text) != []
    ensures a.text == text
    ensures a.smallestWordLength <= a.largestWordLength
    ensures forall i :: 0 <= i < |Fields(text)| ==>
              a.smallestWordLength <= |Fields(text)[i]| <= a.largestWordLength
    ensures exists i :: 0 <= i < |Fields(text)| && |Fields(text)[i]| == a.smallestWordLength
    ensures exists i :: 0 <= i < |Fields(text)| && |Fields(text)[i]| == a.largestWordLength
  {
    var ws := Fields(text);
    Anagram(text, MinLength(ws), MaxLength(ws))
  }

  /** `Anagram.__lt__`: by the shortest word, ties broken by the longest. */
  predicate Less(a: Anagram, b: Anagram): (r: bool)
    ensures r ==> a.smallestWordLength <= b.smallestWordLength
    ensures r ==> (a.smallestWordLength, a.largestWordLength) != (b.smallestWordLength, b.largestWordLength)
  {
    if a.smallestWordLength == b.smallestWordLength then a.largestWordLength < b.largestWordLength
    else a.smallestWordLength < b.smallestWordLength
  }

  /** `Less` is a strict order that compares the pairs (smallest, largest)
      lexicographically, and any two anagrams whose pairs differ are comparable. */
  lemma LessIsLexicographicStrictOrder(a: Anagram, b: Anagram, c: Anagram)
    ensures Less(a, b) <==>
      a.smallestWordLength < b.smallestWordLength ||
      (a.smallestWordLength == b.smallestWordLength && a.largestWordLength < b.largestWordLength)
    ensures !Less(a, a)
    ensures Less(a, b) ==> !Less(b, a)
    ensures Less(a, b) && Less(b, c) ==> Less(a, c)
    ensures (a.smallestWordLength, a.largestWordLength) != (b.smallestWordLength, b.largestWordLength) ==>
              Less(a, b) || Less(b, a)
  {
  }

  /** What `sort(reverse=True)` leaves: no anagram is less than one after it. */
  predicate NonIncreasing(s: seq<Anagram>) {
    forall i, j :: 0 <= i < j < |s| ==> !Less(s[i], s[j])
  }

  function InsertDescending(x: Anagram, s: seq<Anagram>): (r: seq<Anagram>)
    requires NonIncreasing(s)
    ensures NonIncreasing(r)
    ensures multiset(r) == multiset(s) + multiset{x}
  {
    if s == [] then [x]
    else if Less(s[0], x) then [x] + s
    else
      var rest := InsertDescending(x, s[1..]);
      assert s == [s[0]] + s[1..];
      HeadStaysFirst(s[0], x, s[1..], rest);
      ConsNonIncreasing(s[0], rest);
      [s[0]] + rest
  }

  lemma ConsNonIncreasing(h: Anagram, t: seq<Anagram>)
    requires NonIncreasing(t)
    requires forall j :: 0 <= j < |t| ==> !Less(h, t[j])
    ensures NonIncreasing([h] + t)
  {
    var s := [h] + t;
    forall i, j | 0 <= i < j < |s|
      ensures !Less(s[i], s[j])
    {
      assert s[j] == t[j - 1];
      if i > 0 {
        assert s[i] == t[i - 1];
      }
    }
  }

  /** A head that neither `x` nor any later anagram beats still comes
      first after `x` joins the tail. */
  lemma HeadStaysFirst(h: Anagram, x: Anagram, t: seq<Anagram>, rest: seq<Anagram>)
    requires !Less(h, x)
    requires forall j :: 0 <= j < |t| ==> !Less(h, t[j])
    requires multiset(rest) == multiset(t) + multiset{x}
    ensures forall j :: 0 <= j < |rest| ==> !Less(h, rest[j])
  {
    forall j | 0 <= j < |rest|
      ensures !Less(h, rest[j])
    {
      assert rest[j] in multiset(rest);
      if rest[j] != x {
        assert rest[j] in multiset(t);
        var i :| 0 <= i < |t| && t[i] == rest[j];
      }
    }
  }

  /** `list.sort(reverse=True)` as an insertion sort; `SortIsStable`
      shows that anagrams with equal pairs keep their order. */
  function SortDescending(s: seq<Anagram>): (r: seq<Anagram>)
    ensures NonIncreasing(r)
    ensures multiset(r) == multiset(s)
  {
    if s == [] then []
    else
      assert s == s[..|s| - 1] + [s[|s| - 1]];
      InsertDescending(s[|s| - 1], SortDescending(s[..|s| - 1]))
  }

  predicate SamePair(a: Anagram, b: Anagram) {
    a.smallestWordLength == b.smallestWordLength && a.largestWordLength == b.largestWordLength
  }

  /** The anagrams of `s` whose pair is that of `k`, in their order in `s`. */
  function Tied(s: seq<Anagram>, k: Anagram): (r: seq<Anagram>)
    ensures forall i :: 0 <= i < |r| ==> SamePair(r[i], k)
  {
    if s == [] then []
    else (if SamePair(s[0], k) then [s[0]] else []) + Tied(s[1..], k)
  }

  lemma {:induction false} TiedConcat(a: seq<Anagram>, b: seq<Anagram>, k: Anagram)
    ensures Tied(a + b, k) == Tied(a, k) + Tied(b, k)
    decreases |a|
  {
    if a == [] {
      assert a + b == b;
    } else {
      assert (a + b)[0] == a[0];
      assert (a + b)[1..] == a[1..] + b;
      TiedConcat(a[1..], b, k);
    }
  }

  lemma {:induction false} TiedNone(s: seq<Anagram>, k: Anagram)
    requires forall i :: 0 <= i < |s| ==> !SamePair(s[i], k)
    ensures Tied(s, k) == []
    decreases |s|
  {
    if s != [] {
      TiedNone(s[1..], k);
    }
  }

  /** No anagram after a head that `x` beats shares `x`'s pair. */
  lemma {:induction false} NoneTiedAfter(x: Anagram, s: seq<Anagram>, k: Anagram)
    requires NonIncreasing(s) && s != [] && Less(s[0], x) && SamePair(x, k)
    ensures Tied(s, k) == []
  {
    forall i | 0 <= i < |s|
      ensures !SamePair(s[i], k)
    {
      if i > 0 {
        assert !Less(s[0], s[i]);
      }
    }
    TiedNone(s, k);
  }

  lemma TiedCons(h: Anagram, t: seq<Anagram>, k: Anagram)
    ensures Tied([h] + t, k) == (if SamePair(h, k) then [h] else []) + Tied(t, k)
  {
    assert ([h] + t)[1..] == t;
  }

  lemma TailNonIncreasing(s: seq<Anagram>)
    requires NonIncreasing(s) && s != []
    ensures NonIncreasing(s[1..])
  {
  }

  /** `x` goes in front of a head it beats. */
  lemma {:induction false} InsertInFront(x: Anagram, s: seq<Anagram>, k: Anagram)
    requires NonIncreasing(s) && s != [] && Less(s[0], x)
    ensures Tied(InsertDescending(x, s), k) == Tied(s, k) + (if SamePair(x, k) then [x] else [])
  {
    TiedCons(x, s, k);
    if SamePair(x, k) {
      NoneTiedAfter(x, s, k);
    }
  }

  /** `x` goes behind a head it does not beat. */
  lemma InsertBehind(x: Anagram, s: seq<Anagram>)
    requires NonIncreasing(s) && s != [] && !Less(s[0], x)
    ensures InsertDescending(x, s) == [s[0]] + InsertDescending(x, s[1..])
  {
  }

  /** Putting a head in front of a list that keeps the ties of `s[1..]`
      keeps the ties of `s`. */
  lemma {:induction false} TiedBehindHead(s: seq<Anagram>, rest: seq<Anagram>, extra: seq<Anagram>, k: Anagram)
    requires s != [] && Tied(rest, k) == Tied(s[1..], k) + extra
    ensures Tied([s[0]] + rest, k) == Tied(s, k) + extra
  {
    TiedCons(s[0], rest, k);
  }

  /** Inserting `x` puts it after every anagram of the list that has its pair. */
  lemma {:induction false} InsertKeepsTies(x: Anagram, s: seq<Anagram>, k: Anagram)
    requires NonIncreasing(s)
    ensures Tied(InsertDescending(x, s), k) == Tied(s, k) + (if SamePair(x, k) then [x] else [])
    decreases |s|
  {
    if s == [] {
      TiedCons(x, [], k);
    } else if Less(s[0], x) {
      InsertInFront(x, s, k);
    } else {
      TailNonIncreasing(s);
      InsertKeepsTies(x, s[1..], k);
      InsertBehind(x, s);
      TiedBehindHead(s, InsertDescending(x, s[1..]), if SamePair(x, k) then [x] else [], k);
    }
  }

  /** The sort is stable: the anagrams that share a pair come out in the
      order they went in, as Python's `list.sort` keeps them. */
  lemma {:induction false} SortIsStable(s: seq<Anagram>, k: Anagram)
    ensures Tied(SortDescending(s), k) == Tied(s, k)
    decreases |s|
  {
    if s != [] {
      var init, last := s[..|s| - 1], s[|s| - 1];
      assert s == init + [last];
      SortIsStable(init, k);
      InsertKeepsTies(last, SortDescending(init), k);
      TiedConcat(init, [last], k);
    }
  }

  /** In a non-increasing list the pairs (smallest, largest) go down
      lexicographically. */
  lemma NonIncreasingKeys(s: seq<Anagram>, i: nat, j: nat)
    requires NonIncreasing(s) && i < j < |s|
    ensures s[i].smallestWordLength > s[j].smallestWordLength ||
            (s[i].smallestWordLength == s[j].smallestWordLength && s[i].largestWordLength >= s[j].largestWordLength)
  {
  }

  /** Three anagrams whose pairs are strictly ordered have exactly one
      non-increasing arrangement. */
  lemma OnlyArrangement(r: seq<Anagram>, a: Anagram, b: Anagram, c: Anagram)
    requires Less(b, a) && Less(c, b) && Less(c, a)
    requires multiset(r) == multiset{a, b, c} && NonIncreasing(r)
    ensures r == [a, b, c]
  {
    assert |r| == 3;
    assert r[0] in multiset(r) && r[1] in multiset(r) && r[2] in multiset(r);
    assert a in r && b in r && c in r;
    assert !Less(r[0], r[1]) && !Less(r[0], r[2]) && !Less(r[1], r[2]);
    assert r[0] == a && r[1] == b && r[2] == c;
  }

  /** A single word: both lengths are its length. */
  lemma NewAnagramOfWord(w: string)
    requires w != [] && NoWhitespace(w)
    ensures Fields(w) == [w]
    ensures NewAnagram(w) == Anagram(w, |w|, |w|)
  {
    FieldsOfWord(w);
  }

  lemma FieldsOfTwoWords(u: string, v: string)
    requires u != [] && v != [] && NoWhitespace(u) && NoWhitespace(v)
    ensures Fields(u + " " + v) == [u, v]
  {
    assert u + " " + v == u + [' '] + v;
    FieldsSplit(u, ' ', v);
    FieldsOfWord(u);
    FieldsOfWord(v);
  }

  lemma LengthsOfTwo(u: string, v: string)
    ensures MinLength([u, v]) == if |u| <= |v| then |u| else |v|
    ensures MaxLength([u, v]) == if |u| >= |v| then |u| else |v|
  {
    assert [u, v][1..] == [v];
  }

  /** Two words joined by a space: the shorter and the longer length. */
  lemma NewAnagramOfTwoWords(u: string, v: string)
    requires u != [] && v != [] && NoWhitespace(u) && NoWhitespace(v)
    ensures Fields(u + " " + v) == [u, v]
    ensures NewAnagram(u + " " + v) ==
      Anagram(u + " " + v, if |u| <= |v| then |u| else |v|, if |u| >= |v| then |u| else |v|)
  {
    FieldsOfTwoWords(u, v);
    LengthsOfTwo(u, v);
  }

  // Three phrases over the letters of CATDOG, given to the comparator:
  // one six-letter word, two three-letter words, and a four-letter word
  // with a two-letter one. The search cannot produce the last, because a
  // two-letter word is shorter than MinWordLength and never loaded.

  lemma ExampleOneWord()
    ensures Fields("CATDOG") == ["CATDOG"] && NewAnagram("CATDOG") == Anagram("CATDOG", 6, 6)
  {
    NewAnagramOfWord("CATDOG");
  }

  lemma ExampleThreeAndThree()
    ensures Fields("CAT DOG") == ["CAT", "DOG"] && NewAnagram("CAT DOG") == Anagram("CAT DOG", 3, 3)
  {
    var u, v := "CAT", "DOG";
    assert u + " " + v == "CAT DOG";
    assert NoWhitespace(u) && NoWhitespace(v);
    NewAnagramOfTwoWords(u, v);
  }

  lemma ExampleFourAndTwo()
    ensures Fields("GCAT DO") == ["GCAT", "DO"] && NewAnagram("GCAT DO") == Anagram("GCAT DO", 2, 4)
  {
    var u, v := "GCAT", "DO";
    assert u + " " + v == "GCAT DO";
    assert NoWhitespace(u) && NoWhitespace(v);
    NewAnagramOfTwoWords(u, v);
  }

  /** The reverse sort puts the single word first, then the pair of
      three-letter words, then the phrase with the two-letter word,
      in whatever order they are given. */
  lemma RankingExample(found: seq<Anagram>)
    requires multiset(found) ==
      multiset{Anagram("GCAT DO", 2, 4), Anagram("CATDOG", 6, 6), Anagram("CAT DOG", 3, 3)}
    ensures SortDescending(found) ==
      [Anagram("CATDOG", 6, 6), Anagram("CAT DOG", 3, 3), Anagram("GCAT DO", 2, 4)]
  {
    var a, b, c := Anagram("CATDOG", 6, 6), Anagram("CAT DOG", 3, 3), Anagram("GCAT DO", 2, 4);
    assert multiset(found) == multiset{a, b, c};
    SortThree(found, a, b, c);
  }

  /** Three anagrams with strictly ordered pairs sort into that order. */
  lemma SortThree(found: seq<Anagram>, a: Anagram, b: Anagram, c: Anagram)
    requires a.smallestWordLength > b.smallestWordLength > c.smallestWordLength
    requires multiset(found) == multiset{a, b, c}
    ensures SortDescending(found) == [a, b, c]
  {
    var r := SortDescending(found);
    OnlyArrangement(r, a, b, c);
  }
}
