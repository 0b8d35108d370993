# Multi-word anagrams, modelled in Dafny

This project models the anagram engine of `anagrammer.py`, a small command-line script. It covers:

- how the script normalises text;
- the prefix tree (trie) it loads the dictionary into;
- the backtracking search that lists every phrase of dictionary words using each letter of the input exactly once;
- the ranking of those phrases.

The model is split into five modules, one per part of the script:

- `Text` (`text.dfy`):
  - `format_string`: drop every whitespace character, then upper-case.
  - The two ways the script splits a phrase: `str.split()`, which `Anagram` uses, and the single spaces the search writes between words.
- `Lexicon` (`lexicon.dfy`):
  - `Node` and `Trie` with `add_word`.
  - The minimum-length filter of `create_dictionary`, applied to the dictionary given as a sequence of lines.
  - The trie is a class whose nodes live in an arena, `nodes: seq<Node>`:
    - a node is named by its index, and the root is node 0;
    - a node's `connections` map a letter to a child index;
    - `add_word` appends new nodes and updates the parent's map in place.
  - `Valid()` states two facts about the arena: every connection leads to a later node, and no two different strings reach the same node from the root, whether or not that node marks a word. Together they are what make `add_word` add exactly one word.
- `Ranking` (`ranking.dfy`): `Anagram` with its two lengths, `__lt__`, and the reverse sort.
- `Search` (`search.dfy`): `find_anagrams` as a recursive method.
  - It loops over the input positions, skips consumed positions and letters already tried in this call, then closes a word or goes on with it.
  - The shared `anagrams` list is passed in and comes back out as `result`.
  - One pass of its loop for a letter that leads on from the node is the method `ExploreLetter`, which makes the two recursive calls.
  - Its guarantees apply to a call made from a consistent search state, called `Candidate`:
    - the consumed positions are distinct and in range, and spell the string built so far;
    - every finished word is in the trie;
    - the open word leads from the root to the current node.
  - From such a state, each new anagram is a phrase of lexicon words that uses every input position exactly once (soundness).
  - Every way to finish the phrase with the free letters is appended (completeness), even though the per-call guard skips duplicate letters.
  - From any state, the new anagrams extend the current string and no two of them have the same text.
- `Anagrammer` (`anagrammer.dfy`): the driver, with the dictionary lines and `argv` as inputs.
  - It returns `Usage`, or the ranked list, which holds every phrase of dictionary words that rearranges the normalised argument, each exactly once.

## Model

| member | source | states |
|---|---|---|
| Text.UpperChar | anagrammer.py:9 | upper-casing changes exactly the lower-case ASCII letters, by the fixed offset, and keeps whitespace whitespace |
| Text.StripWhitespace | anagrammer.py:9 | `re.sub(r'\s+', '', s)` leaves no whitespace, is never longer, and has the same set of non-whitespace characters as `s` |
| Text.StripWhitespaceConcat | anagrammer.py:9 | removing whitespace distributes over concatenation, so the kept characters keep their order and their number |
| Text.Upper | anagrammer.py:9 | `.upper()` keeps the length and upper-cases each character in place |
| Text.FormatString | anagrammer.py:8-9 | the normal form has no whitespace and no lower-case letter, and is never longer than the argument |
| Text.FormatStringChar | anagrammer.py:8-9 | a single whitespace character normalises to nothing, any other character to its upper-case form |
| Text.FormatStringConcat | anagrammer.py:8-9 | normalisation works character by character: it distributes over concatenation, so order is kept |
| Text.FormatStringIdempotent | anagrammer.py:8-9 | normalising twice is normalising once |
| Text.StripWhitespaceIdentity | anagrammer.py:9 | removing whitespace from a string without any leaves it unchanged |
| Text.Fields | anagrammer.py:45-46 | every field `str.split()` returns is non-empty and holds no whitespace |
| Text.FieldsOfNothing | anagrammer.py:45-46 | the empty string has no field |
| Text.FieldsOfWord | anagrammer.py:45-46 | a non-empty string without whitespace is exactly one field, itself |
| Text.FieldsSplit | anagrammer.py:45-46 | a whitespace character separates the fields: those of the text before it, then those of the text after it; with the two rows above this fixes `str.split()` on every string |
| Text.FieldsExample | anagrammer.py:45-46 | two letters with a space and a tab between them are two one-letter fields |
| Text.FieldsOfLetterEnding | anagrammer.py:45-46 | a string ending in a non-whitespace character has at least one field, so `min`/`max` over its fields are defined |
| Text.FieldsOfWellSpaced | anagrammer.py:45-46 | on a phrase of non-empty words joined by single spaces, `str.split()` gives exactly the space-separated words |
| Text.WellSpacedShape | anagrammer.py:62-68 | a phrase whose space-separated pieces are all non-empty is non-empty and has no leading, trailing or double space |
| Text.SplitSpacesJoin | anagrammer.py:68 | adding a space and then more text adds the pieces of that text after the pieces so far |
| Text.SplitSpacesOfWord | anagrammer.py:45-46 | a word without spaces is a single piece |
| Lexicon.Walk | anagrammer.py:23-27 | in an arena, a path that exists ends at a node of the arena that comes at or after its start, and at the start only for the empty string |
| Lexicon.GrowsKeepsWalks | anagrammer.py:22-29 | in a trie that only grew, every path that existed leads to the same node, and every word still spells |
| Lexicon.WalkAppend | anagrammer.py:24-27 | following `w` then one letter is following `w` and then taking that letter's connection |
| Lexicon.AddChild | anagrammer.py:25-26 | creating a missing child keeps the arena valid, makes the path reach the new node and leaves the set of words unchanged |
| Lexicon.MarkWord | anagrammer.py:28 | marking the reached node adds exactly the word to the set of words |
| Lexicon.Trie.constructor | anagrammer.py:17-21 | `Trie(*words)` is valid, counts one per argument and holds exactly the given words |
| Lexicon.Trie.AddWord | anagrammer.py:22-29 | the trie stays valid and only grows, the count goes up by one even for a repeated word, and the word set gains exactly `word` |
| Lexicon.Accepted | anagrammer.py:36-39 | every word loaded from the dictionary lines has at least `MIN_WORD_LENGTH` letters and no whitespace |
| Lexicon.AcceptedIff | anagrammer.py:36-39 | a word is loaded exactly when some line normalises to it and it has at least `MIN_WORD_LENGTH` letters, and at most one word is loaded per line |
| Lexicon.CreateDictionary | anagrammer.py:31-40 | the new trie is valid, holds exactly the accepted words and counts one per accepted line |
| Ranking.MinLength | anagrammer.py:45 | the result is the length of some field and no field is shorter |
| Ranking.MaxLength | anagrammer.py:46 | the result is the length of some field and no field is longer |
| Ranking.NewAnagram | anagrammer.py:43-46 | the text is kept; the smallest length is at most the largest; every field's length lies between them and both are attained |
| Ranking.NewAnagramOfWord | anagrammer.py:43-46 | a single word has both lengths equal to its length |
| Ranking.NewAnagramOfTwoWords | anagrammer.py:43-46 | two words joined by a space have the shorter and the longer length |
| Ranking.Less | anagrammer.py:49-52 | an anagram less than another never has the larger smallest word, and their (smallest, largest) pairs differ |
| Ranking.LessIsLexicographicStrictOrder | anagrammer.py:49-52 | `__lt__` compares (smallest, largest) lexicographically; it is irreflexive, asymmetric and transitive, and any two different pairs are comparable |
| Ranking.SortDescending | anagrammer.py:89 | the sorted list is a permutation of the input and no anagram is less than one after it |
| Ranking.InsertKeepsTies | anagrammer.py:89 | inserting an anagram into a non-increasing list puts it after every anagram that has its pair |
| Ranking.SortIsStable | anagrammer.py:89 | for every pair, the anagrams that have it come out of the sort in the order they went in, as Python's stable sort keeps them |
| Ranking.NonIncreasingKeys | anagrammer.py:89 | in the sorted list the smallest lengths never go up, and where they tie the largest lengths never go up |
| Ranking.OnlyArrangement | anagrammer.py:89 | three anagrams with strictly ordered pairs have exactly one non-increasing arrangement |
| Ranking.ExampleOneWord | anagrammer.py:43-46 | `CATDOG` is one field, so its shortest and longest word have 6 letters |
| Ranking.ExampleThreeAndThree | anagrammer.py:43-46 | `CAT DOG` splits into `CAT` and `DOG`, so its shortest and longest word have 3 letters |
| Ranking.ExampleFourAndTwo | anagrammer.py:43-46 | `GCAT DO` splits into `GCAT` and `DO`, so its shortest word has 2 letters and its longest 4 |
| Ranking.RankingExample | anagrammer.py:89 | in whatever order the three are given, the reverse sort lists `CATDOG`, then `CAT DOG`, then `GCAT DO` |
| Search.FreeConsume | anagrammer.py:63-64 | consuming a free position removes one copy of its letter from the free letters, so the recursion terminates |
| Search.PickedAndFree | anagrammer.py:63-66 | the consumed letters plus the free letters are the input's letters; all positions are consumed exactly when none is free |
| Search.FreePosition | anagrammer.py:56-57 | a free letter sits at some unconsumed position |
| Search.ConsumeLetter | anagrammer.py:59-68 | following a connection keeps the search state consistent for both recursive calls, and a full cover ending at a word node is a phrase of lexicon words that uses each position once |
| Search.TailClosesWord | anagrammer.py:65-68 | a completion that puts a space after the letter needs a word node there, and the rest completes from the root |
| Search.TailGoesOn | anagrammer.py:69 | a completion that goes on with the same word completes from the child node |
| Search.FindsAllAfterLetter | anagrammer.py:59-69 | after one letter is explored, every completion starting with it or with an earlier-tried letter has been recorded |
| Search.FindsAllOfFirsts | anagrammer.py:56-59 | once every letter that leads on from the node has been tried, no completion is missed, which is why the per-call duplicate-letter guard loses nothing |
| Search.LetterBlock | anagrammer.py:65-69 | everything one letter appends extends the string by that letter, and no two of those anagrams are equal |
| Search.JoinBlocks | anagrammer.py:55-60 | anagrams appended for different letters of one call differ, so one call never lists a phrase twice |
| Search.ExploreLetter | anagrammer.py:61-69 | for one letter that leads on from the node: only appends; everything appended starts with the string so far and that letter, so it cannot clash with what earlier letters appended; from a consistent state, what it appends is sound, and every completion starting with that letter or an earlier one is now recorded |
| Search.FindAnagrams | anagrammer.py:54-69 | only appends; every new anagram extends the current string and no two new anagrams share a text; from a consistent state, every new anagram is a lexicon phrase covering each input position exactly once, and every completion with the free letters is appended |
| Search.ResultIsPermutation | anagrammer.py:66-67 | a recorded phrase, spaces removed, is a rearrangement of the input |
| Search.FindAllAnagrams | anagrammer.py:87-88 | the top-level call lists exactly the lexicon phrases that rearrange the input, each once |
| Anagrammer.PhrasesOfTrie | anagrammer.py:84-88 | for a trie holding exactly a word list, the phrases the trie spells are the phrases of that list |
| Anagrammer.PhraseLength | anagrammer.py:38 | a phrase of words of at least `MIN_WORD_LENGTH` letters has at least that many letters |
| Anagrammer.RankedAreResults | anagrammer.py:87-89 | every ranked anagram is a phrase of dictionary words that rearranges the input; an input shorter than `MIN_WORD_LENGTH` has none |
| Anagrammer.RankedAreComplete | anagrammer.py:87-89 | every phrase of dictionary words that rearranges the input is in the ranked list |
| Anagrammer.SortedTextsDistinct | anagrammer.py:89 | sorting keeps the texts pairwise distinct |
| Anagrammer.Run | anagrammer.py:75-89 | usage exactly when `argv` does not hold one argument or it normalises to nothing; otherwise the list is ranked non-increasing and holds each dictionary phrase that rearranges the input exactly once, and nothing else; an input shorter than `MIN_WORD_LENGTH` gives an empty list |

## Left out

- Reading `words.txt` from the working directory (anagrammer.py:32-35): the dictionary is the sequence of its lines.
- The messages the script prints (anagrammer.py:33, 76, 80, 83, 85, 91-93) and `Anagram.__str__` (anagrammer.py:47-48), which only renders the text: printing is not modelled. `sys.exit` is modelled as the `Usage` outcome.
- Node objects and their identity: a node is an index into the trie's arena rather than an object on the heap.
- Search.FindAnagrams:
  - The shared, mutated `anagrams` list is threaded through the calls as a value, so no aliasing is modelled.
  - `ignore_indexes` is a value, so the caller's list cannot change; this matches the copy made at anagrammer.py:63.
  - Soundness and completeness are stated only for calls from a consistent search state (`Candidate`); from any other state the method promises less.
- Ranking.NewAnagram: it requires at least one field, because Python's `min` and `max` raise on an empty sequence. The search only builds anagrams that end in a letter.
- Character handling: Python's `\s` is modelled as the six ASCII whitespace characters that Python 2's `re` matches by default, and `upper()` as ASCII upper-casing. Locale and Unicode behaviour are not modelled.
- Recursion depth, running time and memory are not modelled.
- `compose.py` is not part of this model.
