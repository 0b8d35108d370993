/** Text handling of the anagram engine: the normalisation applied to the
    input phrase and to every dictionary line (`format_string`), the
    whitespace split used by `Anagram` (`str.split()`), and the single-space
    separated phrases that the search builds. */
module Text {

  /** The characters `\s` matches in a byte-string regular expression:
      space, tab, line feed, carriage return, vertical tab and form feed. */
  predicate IsWhitespace(c: char) {
    c == ' ' || c == '\t' || c == '\n' || c == '\r' || c == '\U{B}' || c == '\U{C}'
  }

  predicate IsLower(c: char) {
    'a' <= c <= 'z'
  }

  predicate NoWhitespace(s: string) {
    forall k :: 0 <= k < |s| ==> !IsWhitespace(s[k])
  }

  /** ASCII upper-casing, what `str.upper()` does on a byte string in the C locale. */
  function UpperChar(c: char): (u: char)
    ensures !IsLower(u)
    ensures IsWhitespace(u) <==> IsWhitespace(c)
    ensures IsLower(c) ==> u as int == c as int - 32
    ensures !IsLower(c) ==> u == c
  {
    if IsLower(c) then (c as int - 32) as char else c
  }

  /** `re.sub(r'\s+', '', s)`: every whitespace character removed. */
  function StripWhitespace(s: string): (r: string)
    ensures |r| <= |s|
    ensures NoWhitespace(r)
    ensures forall k :: 0 <= k < |r| ==> r[k] in s
    ensures forall k :: 0 <= k < |s| && !IsWhitespace(s[k]) ==> s[k] in r
  {
    if s == [] then []
    else
      var rest := StripWhitespace(s[1..]);
      assert forall k :: 1 <= k < |s| ==> s[k] == s[1..][k - 1];
      (if IsWhitespace(s[0]) then [] else [s[0]]) + rest
  }

  function Upper(s: string): (r: string)
    ensures |r| == |s|
    ensures forall k :: 0 <= k < |s| ==> r[k] == UpperChar(s[k])
  {
    if s == [] then [] else [UpperChar(s[0])] + Upper(s[1..])
  }

  /** `format_string` (anagrammer.py:8-9). */
  function FormatString(s: string): (r: string)
    ensures |r| <= |s|
    ensures NoWhitespace(r)
    ensures forall k :: 0 <= k < |r| ==> !IsLower(r[k])
  {
    Upper(StripWhitespace(s))
  }

  lemma {:induction false} StripWhitespaceConcat(a: string, b: string)
    ensures StripWhitespace(a + b) == StripWhitespace(a) + StripWhitespace(b)
  {
    if a == [] {
      assert a + b == b;
    } else {
      assert (a + b)[0] == a[0];
      assert (a + b)[1..] == a[1..] + b;
      StripWhitespaceConcat(a[1..], b);
    }
  }

  lemma StripWhitespaceIdentity(s: string)
    requires NoWhitespace(s)
    ensures StripWhitespace(s) == s
  {
    if s != [] {
      StripWhitespaceIdentity(s[1..]);
    }
  }

  /** `format_string` distributes over concatenation ... */
  lemma FormatStringConcat(a: string, b: string)
    ensures FormatString(a + b) == FormatString(a) + FormatString(b)
  {
    StripWhitespaceConcat(a, b);
    UpperConcat(StripWhitespace(a), StripWhitespace(b));
  }

  lemma UpperConcat(x: string, y: string)
    ensures Upper(x + y) == Upper(x) + Upper(y)
  {
    var l, r := Upper(x + y), Upper(x) + Upper(y);
    assert |l| == |r|;
    forall k | 0 <= k < |l|
      ensures l[k] == r[k]
    {
      if k < |x| {
        assert (x + y)[k] == x[k];
      } else {
        assert (x + y)[k] == y[k - |x|];
      }
    }
  }

  /** ... and sends one character to nothing when it is whitespace, and to
      its upper-case form otherwise; with FormatStringConcat this determines
      the function: the non-whitespace characters of the input, in order,
      upper-cased. */
  lemma FormatStringChar(c: char)
    ensures FormatString([c]) == if IsWhitespace(c) then [] else [UpperChar(c)]
  {
    assert [c][1..] == [];
    assert StripWhitespace([c]) == if IsWhitespace(c) then [] else [c];
  }

  /** Normalising twice is normalising once. */
  lemma FormatStringIdempotent(s: string)
    ensures FormatString(FormatString(s)) == FormatString(s)
  {
    var r := FormatString(s);
    StripWhitespaceIdentity(r);
    assert Upper(r) == r;
  }

  // ---------------------------------------------------------------------
  // `str.split()` (anagrammer.py:45-46): the maximal runs of non-whitespace.

  /** The pieces between whitespace characters, empty pieces kept. */
  function Chunks(s: string): (r: seq<string>)
    ensures |r| >= 1
    ensures forall i :: 0 <= i < |r| ==> NoWhitespace(r[i])
    decreases |s|
  {
    if s == [] then [[]]
    else
      Extend(Chunks(s[..|s| - 1]), s[|s| - 1])
  }

  /** One more character after the pieces so far: whitespace starts a new
      piece, anything else extends the last one. */
  function Extend(t: seq<string>, c: char): (r: seq<string>)
    requires |t| >= 1
    ensures |r| >= 1
  {
    if IsWhitespace(c) then t + [[]] else t[..|t| - 1] + [t[|t| - 1] + [c]]
  }

  function NonEmpty(ts: seq<string>): (r: seq<string>)
    ensures forall i :: 0 <= i < |r| ==> r[i] != [] && r[i] in ts
  {
    if ts == [] then []
    else NonEmpty(ts[..|ts| - 1]) + (if ts[|ts| - 1] == [] then [] else [ts[|ts| - 1]])
  }

  /** `str.split()` with no argument. */
  function Fields(s: string): (r: seq<string>)
    ensures forall i :: 0 <= i < |r| ==> r[i] != [] && NoWhitespace(r[i])
  {
    NonEmpty(Chunks(s))
  }

  /** A string that ends in a non-whitespace character has a field. */
  lemma FieldsOfLetterEnding(s: string)
    requires s != [] && !IsWhitespace(s[|s| - 1])
    ensures Fields(s) != []
  {
    var t := Chunks(s);
    assert t[|t| - 1] != [];
    assert NonEmpty(t) == NonEmpty(t[..|t| - 1]) + [t[|t| - 1]];
  }

  // Together, the next three lemmas pin `Fields` down on every string:
  // nothing has no field, a run without whitespace is one field, and a
  // whitespace character separates the fields on either side of it.

  /** The empty string has no field. */
  lemma FieldsOfNothing()
    ensures Fields([]) == []
  {
  }

  /** A non-empty string without whitespace is a single field. */
  lemma FieldsOfWord(w: string)
    requires w != [] && NoWhitespace(w)
    ensures Fields(w) == [w]
  {
    ChunksOfWord(w);
    NonEmptyIdentity([w]);
  }

  /** A whitespace character splits the fields: those before it, then
      those after it. */
  lemma FieldsSplit(a: string, c: char, b: string)
    requires IsWhitespace(c)
    ensures Fields(a + [c] + b) == Fields(a) + Fields(b)
  {
    ChunksJoin(a, c, b);
    NonEmptyConcat(Chunks(a), Chunks(b));
  }

  /** A space, then a tab, between two letters: two fields. */
  lemma FieldsExample(x: char, y: char)
    requires !IsWhitespace(x) && !IsWhitespace(y)
    ensures Fields([x, ' ', '\t', y]) == [[x], [y]]
  {
    var a, b, e: string := [x], [y], [];
    var tb := e + ['\t'] + b;
    assert [x, ' ', '\t', y] == a + [' '] + tb;
    FieldsSplit(a, ' ', tb);
    FieldsSplit(e, '\t', b);
    FieldsOfNothing();
    FieldsOfWord(a);
    FieldsOfWord(b);
  }

  lemma {:induction false} ChunksOfWord(w: string)
    requires NoWhitespace(w)
    ensures Chunks(w) == [w]
    decreases |w|
  {
    if w != [] {
      ChunksOfWord(w[..|w| - 1]);
      assert w[..|w| - 1] + [w[|w| - 1]] == w;
    }
  }

  lemma {:induction false} ChunksJoin(a: string, c: char, b: string)
    requires IsWhitespace(c)
    ensures Chunks(a + [c] + b) == Chunks(a) + Chunks(b)
    decreases |b|
  {
    if b == [] {
      var s := a + [c] + b;
      assert s[..|s| - 1] == a && s[|s| - 1] == c;
    } else {
      ChunksJoin(a, c, b[..|b| - 1]);
      ChunksJoinStep(a, c, b);
    }
  }

  lemma {:induction false} ChunksJoinStep(a: string, c: char, b: string)
    requires IsWhitespace(c) && b != []
    requires Chunks(a + [c] + b[..|b| - 1]) == Chunks(a) + Chunks(b[..|b| - 1])
    ensures Chunks(a + [c] + b) == Chunks(a) + Chunks(b)
  {
    var s := a + [c] + b;
    var b', d := b[..|b| - 1], b[|b| - 1];
    var init := s[..|s| - 1];
    assert init == a + [c] + b';
    assert s[|s| - 1] == d;
    ChunksLast(s);
    ChunksLast(b);
    var ta, tb := Chunks(a), Chunks(b');
    assert Chunks(init) == ta + tb;
    ExtendAfter(ta, tb, d);
  }

  lemma ChunksLast(s: string)
    requires s != []
    ensures Chunks(s) == Extend(Chunks(s[..|s| - 1]), s[|s| - 1])
  {
  }

  lemma ExtendAfter(ta: seq<string>, tb: seq<string>, c: char)
    requires |tb| >= 1
    ensures Extend(ta + tb, c) == ta + Extend(tb, c)
  {
    if !IsWhitespace(c) {
      assert (ta + tb)[..|ta + tb| - 1] == ta + tb[..|tb| - 1];
    }
  }

  lemma {:induction false} NonEmptyConcat(x: seq<string>, y: seq<string>)
    ensures NonEmpty(x + y) == NonEmpty(x) + NonEmpty(y)
    decreases |y|
  {
    if y == [] {
      assert x + y == x;
    } else {
      NonEmptyConcat(x, y[..|y| - 1]);
      var z := x + y;
      assert z[..|z| - 1] == x + y[..|y| - 1];
      assert z[|z| - 1] == y[|y| - 1];
    }
  }

  // ---------------------------------------------------------------------
  // The phrases the search builds: words joined by single spaces.

  /** The string with its spaces removed. */
  function RemoveSpaces(s: string): string
    decreases |s|
  {
    if s == [] then []
    else RemoveSpaces(s[..|s| - 1]) + (if s[|s| - 1] == ' ' then [] else [s[|s| - 1]])
  }

  /** The pieces between single spaces, empty pieces kept (`s.split(' ')`). */
  function SplitSpaces(s: string): (r: seq<string>)
    ensures |r| >= 1
    decreases |s|
  {
    if s == [] then [[]] else Push(SplitSpaces(s[..|s| - 1]), s[|s| - 1])
  }

  /** One more character at the end of a split phrase: a space opens a new
      piece, anything else extends the last one. */
  function Push(t: seq<string>, c: char): (r: seq<string>)
    requires |t| >= 1
    ensures |r| >= 1
  {
    if c == ' ' then t + [[]] else t[..|t| - 1] + [t[|t| - 1] + [c]]
  }

  lemma PushBehindLetter(c: char, t: seq<string>, d: char)
    requires |t| >= 1
    ensures Push([[c] + t[0]] + t[1..], d) == [[c] + Push(t, d)[0]] + Push(t, d)[1..]
  {
    var u := [[c] + t[0]] + t[1..];
    if d == ' ' {
      assert Push(t, d)[1..] == t[1..] + [[]];
    } else if |t| == 1 {
      assert u[..|u| - 1] == [];
      assert Push(t, d) == [t[0] + [d]];
      assert ([c] + t[0]) + [d] == [c] + (t[0] + [d]);
    } else {
      assert u[..|u| - 1] == [[c] + t[0]] + t[1..|t| - 1];
      assert Push(t, d)[0] == t[0];
      assert Push(t, d)[1..] == t[1..|t| - 1] + [t[|t| - 1] + [d]];
    }
  }

  lemma PushBehindSpace(t: seq<string>, d: char)
    requires |t| >= 1
    ensures Push([[]] + t, d) == [[]] + Push(t, d)
  {
    var u := [[]] + t;
    if d != ' ' {
      assert u[..|u| - 1] == [[]] + t[..|t| - 1];
    }
  }

  /** Every space-separated piece is non-empty. */
  predicate WellSpaced(s: string) {
    var ts := SplitSpaces(s);
    forall i :: 0 <= i < |ts| ==> ts[i] != []
  }

  lemma {:induction false} RemoveSpacesPrepend(c: char, s: string)
    ensures RemoveSpaces([c] + s) == (if c == ' ' then [] else [c]) + RemoveSpaces(s)
    decreases |s|
  {
    if s == [] {
      assert [c] + s == [c];
      assert [c][..0] == [];
    } else {
      var s' := s[..|s| - 1];
      assert ([c] + s)[..|s|] == [c] + s';
      RemoveSpacesPrepend(c, s');
    }
  }

  /** Putting a letter in front of a phrase extends its first piece. */
  lemma {:induction false} SplitSpacesPrependLetter(c: char, s: string)
    requires c != ' '
    ensures SplitSpaces([c] + s) == [[c] + SplitSpaces(s)[0]] + SplitSpaces(s)[1..]
    decreases |s|
  {
    if s == [] {
      assert [c] + s == [c];
      assert [c][..0] == [];
      var e: string := [];
      assert e + [c] == [c];
      assert SplitSpaces([c]) == Push([e], c) == [e + [c]];
    } else {
      var s', d := s[..|s| - 1], s[|s| - 1];
      var cs := [c] + s;
      assert cs[..|cs| - 1] == [c] + s' && cs[|cs| - 1] == d;
      assert SplitSpaces(cs) == Push(SplitSpaces([c] + s'), d);
      assert SplitSpaces(s) == Push(SplitSpaces(s'), d);
      SplitSpacesPrependLetter(c, s');
      PushBehindLetter(c, SplitSpaces(s'), d);
    }
  }

  /** Putting a space in front of a phrase adds an empty first piece. */
  lemma {:induction false} SplitSpacesPrependSpace(s: string)
    ensures SplitSpaces([' '] + s) == [[]] + SplitSpaces(s)
    decreases |s|
  {
    if s == [] {
      assert [' '] + s == [' '];
      assert [' '][..0] == [];
    } else {
      var s', d := s[..|s| - 1], s[|s| - 1];
      var cs := [' '] + s;
      assert cs[..|cs| - 1] == [' '] + s' && cs[|cs| - 1] == d;
      assert SplitSpaces(cs) == Push(SplitSpaces([' '] + s'), d);
      assert SplitSpaces(s) == Push(SplitSpaces(s'), d);
      SplitSpacesPrependSpace(s');
      PushBehindSpace(SplitSpaces(s'), d);
    }
  }

  /** Where a phrase starts or ends with a space, its split has an empty piece. */
  lemma EmptyEdgePieces(s: string)
    ensures s == [] ==> SplitSpaces(s)[0] == []
    ensures s != [] && s[0] == ' ' ==> SplitSpaces(s)[0] == []
    ensures s != [] && s[|s| - 1] == ' ' ==> SplitSpaces(s)[|SplitSpaces(s)| - 1] == []
  {
    if s != [] && s[0] == ' ' {
      SplitSpacesPrependSpace(s[1..]);
      assert [' '] + s[1..] == s;
    }
  }

  /** Where a phrase holds two spaces in a row, its split has an empty piece. */
  lemma EmptyInnerPiece(s: string, k: nat) returns (i: nat)
    requires k + 1 < |s| && s[k] == ' ' && s[k + 1] == ' '
    ensures i < |SplitSpaces(s)| && SplitSpaces(s)[i] == []
  {
    SplitSpacesPrefix(s, k + 2);
    var p := s[..k + 2];
    assert p[..k + 1] == s[..k + 1];
    var tp := SplitSpaces(p);
    assert tp == SplitSpaces(s[..k + 1]) + [[]];
    i := |tp| - 2;
  }

  /** A phrase whose pieces are all non-empty neither starts nor ends with a
      space and never holds two spaces in a row. */
  lemma WellSpacedShape(s: string)
    requires WellSpaced(s)
    ensures s != []
    ensures s[0] != ' ' && s[|s| - 1] != ' '
    ensures forall k :: 0 <= k < |s| - 1 ==> !(s[k] == ' ' && s[k + 1] == ' ')
  {
    EmptyEdgePieces(s);
    forall k | 0 <= k < |s| - 1
      ensures !(s[k] == ' ' && s[k + 1] == ' ')
    {
      if s[k] == ' ' && s[k + 1] == ' ' {
        var i := EmptyInnerPiece(s, k);
      }
    }
  }

  /** The pieces of a prefix are a prefix of the pieces, except that the
      last piece of the prefix may since have grown. */
  lemma {:induction false} SplitSpacesPrefix(s: string, n: nat)
    requires n <= |s|
    ensures |SplitSpaces(s[..n])| <= |SplitSpaces(s)|
    ensures forall i :: 0 <= i < |SplitSpaces(s[..n])| - 1 ==> SplitSpaces(s[..n])[i] == SplitSpaces(s)[i]
    decreases |s| - n
  {
    if n == |s| {
      assert s[..n] == s;
    } else {
      var s' := s[..|s| - 1];
      assert s'[..n] == s[..n];
      SplitSpacesPrefix(s', n);
    }
  }

  /** When a phrase uses no whitespace but single spaces and has no empty
      piece, `str.split()` and the single-space split agree. */
  lemma FieldsOfWellSpaced(s: string)
    requires WellSpaced(s)
    requires forall k :: 0 <= k < |s| && IsWhitespace(s[k]) ==> s[k] == ' '
    ensures Fields(s) == SplitSpaces(s)
  {
    ChunksAreSplitSpaces(s);
    var ts := SplitSpaces(s);
    NonEmptyIdentity(ts);
  }

  lemma {:induction false} ChunksAreSplitSpaces(s: string)
    requires forall k :: 0 <= k < |s| && IsWhitespace(s[k]) ==> s[k] == ' '
    ensures Chunks(s) == SplitSpaces(s)
    decreases |s|
  {
    if s != [] {
      ChunksAreSplitSpaces(s[..|s| - 1]);
    }
  }

  lemma {:induction false} NonEmptyIdentity(ts: seq<string>)
    requires forall i :: 0 <= i < |ts| ==> ts[i] != []
    ensures NonEmpty(ts) == ts
  {
    if ts != [] {
      NonEmptyIdentity(ts[..|ts| - 1]);
    }
  }

  /** A word without spaces is a single piece. */
  lemma {:induction false} SplitSpacesOfWord(w: string)
    requires forall k :: 0 <= k < |w| ==> w[k] != ' '
    ensures SplitSpaces(w) == [w]
    decreases |w|
  {
    if w != [] {
      SplitSpacesOfWord(w[..|w| - 1]);
      assert w[..|w| - 1] + [w[|w| - 1]] == w;
    }
  }

  /** `Push` only touches the last piece. */
  lemma PushAfter(ta: seq<string>, tb: seq<string>, c: char)
    requires |tb| >= 1
    ensures Push(ta + tb, c) == ta + Push(tb, c)
  {
    if c != ' ' {
      assert (ta + tb)[..|ta + tb| - 1] == ta + tb[..|tb| - 1];
    }
  }

  /** Joining two phrases with a space joins their pieces. */
  lemma {:induction false} SplitSpacesJoin(a: string, b: string)
    ensures SplitSpaces(a + " " + b) == SplitSpaces(a) + SplitSpaces(b)
    decreases |b|
  {
    if b == [] {
      var s := a + " " + b;
      assert s == a + " ";
      assert s[..|s| - 1] == a;
      assert SplitSpaces(s) == Push(SplitSpaces(a), ' ');
    } else {
      SplitSpacesJoin(a, b[..|b| - 1]);
      JoinStep(a, b);
    }
  }

  lemma {:induction false} SplitSpacesLast(s: string)
    requires s != []
    ensures SplitSpaces(s) == Push(SplitSpaces(s[..|s| - 1]), s[|s| - 1])
  {
  }

  lemma {:induction false} JoinStep(a: string, b: string)
    requires b != []
    requires SplitSpaces(a + " " + b[..|b| - 1]) == SplitSpaces(a) + SplitSpaces(b[..|b| - 1])
    ensures SplitSpaces(a + " " + b) == SplitSpaces(a) + SplitSpaces(b)
  {
    var s := a + " " + b;
    var b', c := b[..|b| - 1], b[|b| - 1];
    var init := s[..|s| - 1];
    assert init == a + " " + b';
    assert s[|s| - 1] == c;
    SplitSpacesLast(s);
    SplitSpacesLast(b);
    var ta, tb := SplitSpaces(a), SplitSpaces(b');
    assert SplitSpaces(init) == ta + tb;
    PushAfter(ta, tb, c);
  }
}
