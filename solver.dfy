/** The program's pipeline: keep the words with five distinct letters, build
    the lexicon, cook the masks, insert them into the trie, and search from
    every cooked mask that holds Q or J, reporting each solution as the
    lexicon entries of its five masks. */
module Solver {
  import opened Masks
  import opened Encoding
  import opened Lexicon
  import opened Cooking
  import opened Tries
  import opened Completion
  import opened TrieSearch

  /** One reported solution: five masks with pairwise disjoint bits and
      strictly increasing lowest bits, covering 25 letters, the first
      holding Q or J, each reported as its entry in the lexicon. */
  ghost predicate Answer(lexicon: map<Mask, string>, c: seq<Mask>, line: seq<string>) {
    && |c| == SOLUTION_WORDS && |line| == |c|
    && Held(c, UnionAll(c))
    && |UnionAll(c)| == 25
    && IsStart(c[0])
    && forall k | 0 <= k < |c| :: c[k] in lexicon && line[k] == lexicon[c[k]]
  }

  /** The masks of the words, in order: `words.iter().map(encodewords)`. */
  function MasksOfWords(words: seq<string>): (masks: seq<Mask>)
    requires forall w | w in words :: IsLowercase(w)
  {
    seq(|words|, k requires 0 <= k < |words| => WordMask(words[k]))
  }

  /** Every cooked mask of the kept words has five letter bits and a
      lexicon entry. */
  lemma CookedMasks(input: seq<string>)
    requires forall w | w in input :: IsLowercase(w)
    ensures forall w | w in FilterWords(input) :: IsLowercase(w)
    ensures forall m | m in Cook(MasksOfWords(FilterWords(input))) ::
              Fits(m, LETTERS) && |m| == WORD_LETTERS && m in LexiconOf(FilterWords(input))
    ensures StrictlyIncreasing(Cook(MasksOfWords(FilterWords(input))))
  {
    FilterWordsMembers(input);
    var kept := FilterWords(input);
    var masks := MasksOfWords(kept);
    LexiconEntriesNameWords(kept);
    forall k | 0 <= k < |masks|
      ensures Fits(masks[k], LETTERS) && |masks[k]| == WORD_LETTERS
    {
      assert kept[k] in kept;
      WordMaskCountsLetters(kept[k]);
    }
    CookProperties(masks);
    forall m | m in Cook(masks)
      ensures Fits(m, LETTERS) && |m| == WORD_LETTERS && m in LexiconOf(kept)
    {
      var k :| 0 <= k < |masks| && masks[k] == m;
      assert kept[k] in kept;
    }
  }

  /** What the pipeline has built before the searches: the kept words, the
      cooked five-letter masks, the trie storing exactly them and the
      lexicon of the kept words. */
  ghost predicate Built(kept: seq<string>, cooked: seq<Mask>, trie: Trie, lexicon: map<Mask, string>) {
    && (forall w | w in kept :: IsLowercase(w))
    && (forall m | m in cooked :: Fits(m, LETTERS) && |m| == WORD_LETTERS)
    && Valid(trie) && OrderedAbove(trie, -1)
    && (forall m :: Stored(trie, m) <==> m in cooked)
    && (forall m :: m in lexicon <==> m in LexiconOf(kept))
    && (forall m | m in lexicon :: lexicon[m] == LexiconOf(kept)[m])
  }

  /** A search can start from every cooked mask. */
  lemma StartReady(kept: seq<string>, cooked: seq<Mask>, trie: Trie, lexicon: map<Mask, string>, s: Mask)
    requires Built(kept, cooked, trie, lexicon) && s in cooked
    requires forall m | m in cooked :: m in LexiconOf(kept)
    ensures Ready(trie, [s], lexicon)
  {
    LowestBit(s);
  }

  /** A completion of a stored start mask, reported with its lexicon
      entries, is an answer. */
  lemma OneAnswer(stored: iset<Mask>, lexicon: map<Mask, string>, s: Mask, c: seq<Mask>, line: seq<string>)
    requires FiveLetterMasks(stored) && s in stored && IsStart(s)
    requires Completes(stored, s, [s], c)
    requires forall j | 0 <= j < |c| :: c[j] in lexicon
    requires line == DecodeWords(c, lexicon)
    ensures Answer(lexicon, c, line)
  {
    HeldOne(s);
    CompletesSolution(stored, s, [s], c);
    assert c[0] == s;
  }

  /** What one search from a stored start mask reports are answers. */
  lemma SearchAnswers(trie: Trie, lexicon: map<Mask, string>, s: Mask, found: seq<seq<Mask>>, lines: seq<seq<string>>)
    requires FiveLetterMasks(StoredMasks(trie)) && s in StoredMasks(trie) && IsStart(s)
    requires Emitted(trie, s, [s], lexicon, found, lines)
    ensures forall k | 0 <= k < |found| :: Answer(lexicon, found[k], lines[k]) && found[k][0] == s
  {
    forall k | 0 <= k < |found|
      ensures Answer(lexicon, found[k], lines[k]) && found[k][0] == s
    {
      OneAnswer(StoredMasks(trie), lexicon, s, found[k], lines[k]);
      CompletesPrefix(StoredMasks(trie), s, [s], found[k]);
    }
  }

  /** The trie built from the cooked masks stores exactly them, so its
      stored masks have five letter bits. */
  lemma BuiltStoresFive(kept: seq<string>, cooked: seq<Mask>, trie: Trie, lexicon: map<Mask, string>)
    requires Built(kept, cooked, trie, lexicon)
    ensures FiveLetterMasks(StoredMasks(trie))
    ensures forall m | m in cooked :: m in StoredMasks(trie)
  {
  }

  /** Lists of answers can be concatenated. */
  lemma AnswersAppend(lexicon: map<Mask, string>, f1: seq<seq<Mask>>, l1: seq<seq<string>>,
                      f2: seq<seq<Mask>>, l2: seq<seq<string>>)
    requires |f1| == |l1| && |f2| == |l2|
    requires forall k | 0 <= k < |f1| :: Answer(lexicon, f1[k], l1[k])
    requires forall k | 0 <= k < |f2| :: Answer(lexicon, f2[k], l2[k])
    ensures forall k | 0 <= k < |f1 + f2| :: Answer(lexicon, (f1 + f2)[k], (l1 + l2)[k])
  {
    forall k | 0 <= k < |f1 + f2|
      ensures Answer(lexicon, (f1 + f2)[k], (l1 + l2)[k])
    {
      if k >= |f1| {
        assert (f1 + f2)[k] == f2[k - |f1|] && (l1 + l2)[k] == l2[k - |f1|];
      }
    }
  }

  /** A combination of masks is reported in one order only: two answers
      holding the same masks are the same list. */
  lemma SameMasksSameAnswer(lexicon: map<Mask, string>, c1: seq<Mask>, l1: seq<string>,
                            c2: seq<Mask>, l2: seq<string>)
    requires Answer(lexicon, c1, l1) && Answer(lexicon, c2, l2)
    requires SameMasks(c1, c2)
    ensures c1 == c2 && l1 == l2
  {
    SameMasksSameOrder(c1, c2);
  }

  /** The lists found from earlier starts and those found from a new start
      are all different. */
  lemma StartsAppend(starts: seq<Mask>, n: nat, found: seq<seq<Mask>>, f: seq<seq<Mask>>)
    requires n < |starts| && starts[n] !in starts[..n]
    requires NoRepeats(found) && NoRepeats(f)
    requires forall k | 0 <= k < |found| :: found[k] != [] && found[k][0] in starts[..n]
    requires forall k | 0 <= k < |f| :: f[k] != [] && f[k][0] == starts[n]
    ensures NoRepeats(found + f)
    ensures forall k | 0 <= k < |found + f| :: (found + f)[k] != [] && (found + f)[k][0] in starts[..n + 1]
  {
    assert starts[..n + 1] == starts[..n] + [starts[n]];
    forall k | 0 <= k < |found + f|
      ensures (found + f)[k] != [] && (found + f)[k][0] in starts[..n + 1]
    {
      if k >= |found| {
        assert (found + f)[k] == f[k - |found|];
      }
    }
    forall a, b | 0 <= a < b < |found + f|
      ensures (found + f)[a] != (found + f)[b]
    {
      if b < |found| {
        assert (found + f)[a] == found[a] && (found + f)[b] == found[b];
      } else if a >= |found| {
        assert (found + f)[a] == f[a - |found|] && (found + f)[b] == f[b - |found|];
      } else {
        assert (found + f)[a] == found[a] && (found + f)[b] == f[b - |found|];
      }
    }
  }

  /** No start mask occurs twice among the starts of a strictly increasing
      list. */
  lemma StartsDistinct(cooked: seq<Mask>, n: nat)
    requires StrictlyIncreasing(cooked) && n < |Starts(cooked)|
    ensures Starts(cooked)[n] !in Starts(cooked)[..n]
  {
    var starts := Starts(cooked);
    StartsStrict(cooked);
    StrictlyIncreasingPairwise(starts);
    forall j | 0 <= j < n
      ensures starts[..n][j] != starts[n]
    {
      assert starts[..n][j] == starts[j];
    }
  }

  /** What the searches from the first `n` starts have reported: answers,
      none twice, each beginning with one of those starts. */
  ghost predicate Reported(lexicon: map<Mask, string>, starts: seq<Mask>, n: nat,
                           found: seq<seq<Mask>>, lines: seq<seq<string>>)
    requires n <= |starts|
  {
    && |lines| == |found|
    && (forall k | 0 <= k < |found| :: Answer(lexicon, found[k], lines[k]))
    && NoRepeats(found)
    && (forall k | 0 <= k < |found| :: found[k] != [] && found[k][0] in starts[..n])
  }

  /** Adding what the search from start `n` reports. */
  lemma ReportedAppend(lexicon: map<Mask, string>, starts: seq<Mask>, n: nat,
                       found: seq<seq<Mask>>, lines: seq<seq<string>>, f: seq<seq<Mask>>, l: seq<seq<string>>)
    requires n < |starts| && starts[n] !in starts[..n]
    requires Reported(lexicon, starts, n, found, lines)
    requires |l| == |f| && NoRepeats(f)
    requires forall k | 0 <= k < |f| :: Answer(lexicon, f[k], l[k]) && f[k][0] == starts[n]
    ensures Reported(lexicon, starts, n + 1, found + f, lines + l)
  {
    AnswersAppend(lexicon, found, lines, f, l);
    StartsAppend(starts, n, found, f);
  }

  /** The program: filter, lexicon, cook, trie, starts, then one search
      per start (run in parallel by the source, one after another here).
      The lexicon is `LexiconOf` of the kept words, and every
      reported line is an answer. */
  method Solve(input: seq<string>) returns (lexicon: map<Mask, string>, found: seq<seq<Mask>>, lines: seq<seq<string>>)
    requires forall w | w in input :: IsLowercase(w)
    ensures forall w | w in FilterWords(input) :: IsLowercase(w)
    ensures forall m :: m in lexicon <==> m in LexiconOf(FilterWords(input))
    ensures forall m | m in lexicon :: lexicon[m] == LexiconOf(FilterWords(input))[m]
    ensures |lines| == |found|
    ensures forall k | 0 <= k < |found| :: Answer(lexicon, found[k], lines[k])
    ensures forall a, b | 0 <= a < b < |found| :: found[a] != found[b]
  {
    CookedMasks(input);
    var kept := FilterWords(input);
    lexicon := BuildLexicon(kept);
    var cooked := Cook(MasksOfWords(kept));
    var trie := BuildTrie(cooked);
    BuiltTrieStores(trie, cooked);
    assert Built(kept, cooked, trie, lexicon);
    BuiltStoresFive(kept, cooked, trie, lexicon);
    var starts := Starts(cooked);
    StartsMembers(cooked);
    found, lines := [], [];
    for n := 0 to |starts|
      invariant Reported(lexicon, starts, n, found, lines)
    {
      var s := starts[n];
      assert s in starts;
      StartReady(kept, cooked, trie, lexicon, s);
      var stack, f, l := Search(trie, s, [s], lexicon);
      SearchAnswers(trie, lexicon, s, f, l);
      StartsDistinct(cooked, n);
      ReportedAppend(lexicon, starts, n, found, lines, f, l);
      found, lines := found + f, lines + l;
    }
  }

  /** Reading a reported line back: each entry, cut at its "/"s, lists
      exactly the kept words whose letters are that mask's letters, and
      there is at least one. */
  lemma AnswerNamesWords(kept: seq<string>, lexicon: map<Mask, string>, c: seq<Mask>, line: seq<string>)
    requires forall w | w in kept :: IsLowercase(w)
    requires forall m :: m in lexicon <==> m in LexiconOf(kept)
    requires forall m | m in lexicon :: lexicon[m] == LexiconOf(kept)[m]
    requires Answer(lexicon, c, line)
    ensures forall k | 0 <= k < |c| :: SplitSlash(line[k]) == WithMask(kept, c[k]) && WithMask(kept, c[k]) != []
    ensures forall k, w | 0 <= k < |c| && w in SplitSlash(line[k]) :: w in kept && WordMask(w) == c[k]
  {
    LexiconEntriesNameWords(kept);
    forall k | 0 <= k < |c|
      ensures WithMask(kept, c[k]) != []
      ensures forall w | w in WithMask(kept, c[k]) :: w in kept && WordMask(w) == c[k]
    {
      MasksOfMembers(kept, c[k]);
      WithMaskMembers(kept, c[k]);
    }
  }
}
