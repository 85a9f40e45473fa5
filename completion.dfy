/** The specification of the search: which lists of masks finish a
    partial solution, and what every such list is. The stored masks are a
    parameter here, so that these facts hold for any trie. */
module Completion {
  import opened Masks
  import opened Encoding
  import opened Tries

  /** Number of masks in a solution. */
  const SOLUTION_WORDS: nat := 5

  function Last(words: seq<Mask>): (r: Mask)
    requires words != []
  {
    words[|words| - 1]
  }

  /** The OR of all masks of the list: the letters they use. */
  function UnionAll(ws: seq<Mask>): (r: Mask) {
    if ws == [] then {} else UnionAll(ws[..|ws| - 1]) + ws[|ws| - 1]
  }

  /** `w` may be chosen next: it is one of the stored masks, it uses none of
      the used letters, and its lowest bit is not below that of the last
      mask. */
  ghost predicate NextWord(stored: iset<Mask>, used: Mask, words: seq<Mask>, w: Mask) {
    && w in stored
    && w !! used
    && (words != [] ==> TrailingZeros(Last(words)) <= TrailingZeros(w))
  }

  /** `c` is a way to finish the stack `words` with the letters `used`: it
      extends `words` one admissible mask at a time up to five masks. */
  ghost predicate Completes(stored: iset<Mask>, used: Mask, words: seq<Mask>, c: seq<Mask>)
    decreases if |words| < SOLUTION_WORDS then SOLUTION_WORDS - |words| else 0
  {
    if |words| >= SOLUTION_WORDS then c == words
    else
      && |words| < |c|
      && c[..|words|] == words
      && NextWord(stored, used, words, c[|words|])
      && Completes(stored, used + c[|words|], words + [c[|words|]], c)
  }

  /** A completion starts with the stack it completes. */
  lemma {:induction false} CompletesPrefix(stored: iset<Mask>, used: Mask, words: seq<Mask>, c: seq<Mask>)
    requires Completes(stored, used, words, c)
    ensures |words| <= |c| && c[..|words|] == words
  {
  }

  /** A list that begins with `words + [w]` begins with `words`, then `w`. */
  lemma SnocPrefix(c: seq<Mask>, words: seq<Mask>, w: Mask)
    requires |words| < |c| && c[..|words| + 1] == words + [w]
    ensures c[..|words|] == words && c[|words|] == w
  {
    assert c[..|words| + 1][..|words|] == c[..|words|];
  }

  /** Choosing an admissible `w` and finishing the longer stack finishes
      the shorter one. */
  lemma CompletesStep(stored: iset<Mask>, used: Mask, words: seq<Mask>, w: Mask, c: seq<Mask>)
    requires |words| < SOLUTION_WORDS && NextWord(stored, used, words, w)
    requires Completes(stored, used + w, words + [w], c)
    ensures Completes(stored, used, words, c)
  {
    CompletesPrefix(stored, used + w, words + [w], c);
    SnocPrefix(c, words, w);
  }

  /** `(!used & VOWELS).count_ones()`: the vowels still free. */
  function FreeVowels(used: Mask): (r: nat) {
    |Complement(used) * VOWELS|
  }

  /** `(((1 << i) - 1) & !used).count_ones()`: the free letters below bit `i`. */
  function FreeBelow(used: Mask, i: nat): (r: nat)
    requires i < WIDTH
  {
    |LowBits(i) * Complement(used)|
  }

  /** Every mask of the set has five letter bits. */
  ghost predicate FiveLetterMasks(stored: iset<Mask>) {
    forall m | m in stored :: Fits(m, LETTERS) && |m| == WORD_LETTERS
  }

  /** `words` is a stack the search can hold with the letters `used`: five-
      letter masks with pairwise disjoint bits whose lowest bits strictly
      increase, and `used` is their OR. */
  ghost predicate Held(words: seq<Mask>, used: Mask) {
    && used == UnionAll(words)
    && (forall k | 0 <= k < |words| :: Fits(words[k], LETTERS) && |words[k]| == WORD_LETTERS)
    && (forall i, j | 0 <= i < j < |words| ::
          words[i] !! words[j] && TrailingZeros(words[i]) < TrailingZeros(words[j]))
  }

  /** Masks ordered by strictly increasing lowest bit. */
  ghost predicate ByLowestBit(s: seq<Mask>) {
    forall i, j | 0 <= i < j < |s| :: TrailingZeros(s[i]) < TrailingZeros(s[j])
  }

  /** Two lists holding the same masks, in any order. */
  ghost predicate SameMasks(a: seq<Mask>, b: seq<Mask>) {
    forall m :: m in a <==> m in b
  }

  /** In such a list the last mask has the highest lowest bit. */
  lemma HighestLast(s: seq<Mask>, m: Mask)
    requires ByLowestBit(s) && m in s
    ensures TrailingZeros(m) <= TrailingZeros(Last(s))
    ensures m != Last(s) ==> TrailingZeros(m) < TrailingZeros(Last(s))
  {
    var i :| 0 <= i < |s| && s[i] == m;
  }

  /** A member other than the last is a member of the rest. */
  lemma InitHolds(s: seq<Mask>, m: Mask)
    requires m in s && m != s[|s| - 1]
    ensures m in s[..|s| - 1]
  {
    var i :| 0 <= i < |s| && s[i] == m;
    assert s[..|s| - 1][i] == m;
  }

  /** Dropping the last mask keeps the order. */
  lemma InitByLowestBit(s: seq<Mask>)
    requires s != [] && ByLowestBit(s)
    ensures ByLowestBit(s[..|s| - 1])
  {
    var s' := s[..|s| - 1];
    forall i, j | 0 <= i < j < |s'|
      ensures TrailingZeros(s'[i]) < TrailingZeros(s'[j])
    {
      assert s'[i] == s[i] && s'[j] == s[j];
    }
  }

  /** Two such lists holding the same masks end alike, and what comes before
      the last mask holds the same masks in both. */
  lemma SameLastSameInit(a: seq<Mask>, b: seq<Mask>)
    requires a != [] && b != [] && ByLowestBit(a) && ByLowestBit(b)
    requires SameMasks(a, b)
    ensures Last(a) == Last(b)
    ensures SameMasks(a[..|a| - 1], b[..|b| - 1])
  {
    var a', b' := a[..|a| - 1], b[..|b| - 1];
    HighestLast(a, Last(b));
    HighestLast(b, Last(a));
    forall m
      ensures m in a' <==> m in b'
    {
      if m in a' {
        HighestLast(a', m);
        HighestLast(a, m);
        InitHolds(b, m);
      }
      if m in b' {
        HighestLast(b, m);
        InitHolds(a, m);
      }
    }
  }

  /** Lists of equal length ordered by lowest bit that hold the same masks
      are the same list: a set of masks has one such order. */
  lemma {:induction false} SameMasksSameOrder(a: seq<Mask>, b: seq<Mask>)
    requires |a| == |b| && ByLowestBit(a) && ByLowestBit(b)
    requires SameMasks(a, b)
    ensures a == b
    decreases |a|
  {
    if a != [] {
      SameLastSameInit(a, b);
      InitByLowestBit(a);
      InitByLowestBit(b);
      SameMasksSameOrder(a[..|a| - 1], b[..|b| - 1]);
      assert a == a[..|a| - 1] + [Last(a)];
      assert b == b[..|b| - 1] + [Last(b)];
    }
  }

  /** A full answer: five stored masks held together. */
  ghost predicate Solution(stored: iset<Mask>, c: seq<Mask>) {
    && |c| == SOLUTION_WORDS
    && Held(c, UnionAll(c))
    && (forall k | 0 <= k < |c| :: c[k] in stored)
  }

  /** Each mask of the list lies inside their OR. */
  lemma {:induction false} UnionAllContains(ws: seq<Mask>)
    ensures forall k | 0 <= k < |ws| :: ws[k] <= UnionAll(ws)
  {
    if ws != [] {
      var init := ws[..|ws| - 1];
      UnionAllContains(init);
      assert forall k | 0 <= k < |init| :: ws[k] == init[k];
    }
  }

  /** A mask disjoint from each mask of the list is disjoint from their OR. */
  lemma {:induction false} UnionAllDisjoint(ws: seq<Mask>, w: Mask)
    requires forall k | 0 <= k < |ws| :: ws[k] !! w
    ensures UnionAll(ws) !! w
  {
    if ws != [] {
      var init := ws[..|ws| - 1];
      assert forall k | 0 <= k < |init| :: init[k] == ws[k];
      UnionAllDisjoint(init, w);
    }
  }

  /** The OR of masks below bit `n` is below bit `n`. */
  lemma {:induction false} UnionAllFits(ws: seq<Mask>, n: nat)
    requires forall k | 0 <= k < |ws| :: Fits(ws[k], n)
    ensures Fits(UnionAll(ws), n)
  {
    if ws != [] {
      var init := ws[..|ws| - 1];
      assert forall k | 0 <= k < |init| :: init[k] == ws[k];
      UnionAllFits(init, n);
    }
  }

  /** A single five-letter mask is a held stack using its own letters. */
  lemma HeldOne(w: Mask)
    requires Fits(w, LETTERS) && |w| == WORD_LETTERS
    ensures Held([w], w)
  {
    assert [w][..0] == [];
  }

  /** An admissible mask is disjoint from every mask of a held stack and
      has a higher lowest bit than each of them. */
  lemma AboveHeld(words: seq<Mask>, used: Mask, w: Mask)
    requires Held(words, used)
    requires Fits(w, LETTERS) && |w| == WORD_LETTERS && w !! used
    requires words != [] ==> TrailingZeros(Last(words)) <= TrailingZeros(w)
    ensures forall i | 0 <= i < |words| :: words[i] !! w && TrailingZeros(words[i]) < TrailingZeros(w)
  {
    UnionAllContains(words);
    if words != [] {
      LowestBit(w);
      LowestBit(Last(words));
      assert TrailingZeros(Last(words)) < TrailingZeros(w);
    }
  }

  /** Pushing an admissible five-letter mask keeps the stack held. */
  lemma HeldPush(words: seq<Mask>, used: Mask, w: Mask)
    requires Held(words, used)
    requires Fits(w, LETTERS) && |w| == WORD_LETTERS && w !! used
    requires words != [] ==> TrailingZeros(Last(words)) <= TrailingZeros(w)
    ensures Held(words + [w], used + w)
  {
    var ws := words + [w];
    assert ws[..|words|] == words;
    AboveHeld(words, used, w);
    forall i, j | 0 <= i < j < |ws|
      ensures ws[i] !! ws[j] && TrailingZeros(ws[i]) < TrailingZeros(ws[j])
    {
      assert ws[i] == words[i];
      if j < |words| {
        assert ws[j] == words[j];
      }
    }
  }

  /** The stack without its last mask is held too. */
  lemma HeldPop(words: seq<Mask>, used: Mask)
    requires Held(words, used) && words != []
    ensures Held(words[..|words| - 1], UnionAll(words[..|words| - 1]))
  {
    var init := words[..|words| - 1];
    assert forall k | 0 <= k < |init| :: init[k] == words[k];
  }

  /** A held stack of `n` masks uses exactly 5n letters. */
  lemma {:induction false} HeldCard(words: seq<Mask>, used: Mask)
    requires Held(words, used)
    ensures |used| == WORD_LETTERS * |words|
  {
    if words != [] {
      var init, w := words[..|words| - 1], Last(words);
      HeldPop(words, used);
      HeldCard(init, UnionAll(init));
      assert forall k | 0 <= k < |init| :: init[k] == words[k];
      UnionAllDisjoint(init, w);
    }
  }

  /** Every completion of a held stack is a held stack of five masks that
      extends it with stored masks. */
  lemma {:induction false} CompletesHeld(stored: iset<Mask>, used: Mask, words: seq<Mask>, c: seq<Mask>)
    requires FiveLetterMasks(stored) && Held(words, used) && |words| <= SOLUTION_WORDS
    requires Completes(stored, used, words, c)
    ensures Held(c, UnionAll(c)) && |c| == SOLUTION_WORDS && c[..|words|] == words
    ensures forall k | |words| <= k < |c| :: c[k] in stored
    decreases SOLUTION_WORDS - |words|
  {
    if |words| < SOLUTION_WORDS {
      var w := c[|words|];
      HeldPush(words, used, w);
      CompletesHeld(stored, used + w, words + [w], c);
      SnocPrefix(c, words, w);
    }
  }

  /** Every completion of a held stack of stored masks is a solution: five
      stored masks, pairwise disjoint, with strictly increasing lowest bits,
      together using 25 distinct letters. */
  lemma CompletesSolution(stored: iset<Mask>, used: Mask, words: seq<Mask>, c: seq<Mask>)
    requires FiveLetterMasks(stored) && Held(words, used) && |words| <= SOLUTION_WORDS
    requires forall k | 0 <= k < |words| :: words[k] in stored
    requires Completes(stored, used, words, c)
    ensures Solution(stored, c) && c[..|words|] == words
    ensures |UnionAll(c)| == 25 && Fits(UnionAll(c), LETTERS)
  {
    CompletesHeld(stored, used, words, c);
    assert forall k | 0 <= k < |words| :: c[k] == words[k];
    HeldCard(c, UnionAll(c));
    UnionAllFits(c, LETTERS);
  }

  /** A mask with 25 of the 26 letter bits has at least one of any two
      letter bits. */
  lemma OneOfTwo(u: Mask, a: nat, b: nat)
    requires Fits(u, LETTERS) && |u| >= 25
    requires a < LETTERS && b < LETTERS && a != b
    ensures a in u || b in u
  {
    var ua := u + {a};
    var uab := ua + {b};
    FitsCard(uab, LETTERS);
    AddOne(u, a);
    AddOne(ua, b);
  }

  /** Adding a new bit adds one to the count. */
  lemma AddOne(s: Mask, x: nat)
    ensures x !in s ==> |s + {x}| == |s| + 1
  {
  }

  /** In a held list that begins with `words`, a letter neither used by
      `words` nor reached by the lowest bit of the next mask is in no mask. */
  lemma FreeBelowNext(c: seq<Mask>, words: seq<Mask>, used: Mask, x: nat)
    requires Held(c, UnionAll(c)) && |words| < |c| && c[..|words|] == words
    requires used == UnionAll(words) && x !in used
    ensures x < TrailingZeros(c[|words|]) ==> x !in UnionAll(c)
  {
    if x < TrailingZeros(c[|words|]) {
      UnionAllContains(words);
      forall k | 0 <= k < |c|
        ensures x !in c[k]
      {
        if k < |words| {
          assert c[k] == words[k];
        } else if k > |words| {
          assert TrailingZeros(c[|words|]) < TrailingZeros(c[k]);
        }
      }
      UnionAllMisses(c, x);
    }
  }

  /** A letter in none of the masks is not in their OR. */
  lemma {:induction false} UnionAllMisses(ws: seq<Mask>, x: nat)
    requires forall k | 0 <= k < |ws| :: x !in ws[k]
    ensures x !in UnionAll(ws)
  {
    if ws != [] {
      var init := ws[..|ws| - 1];
      assert forall k | 0 <= k < |init| :: init[k] == ws[k];
      UnionAllMisses(init, x);
    }
  }

  /** The budget prune loses nothing: once two letters below bit `i` are
      free, every completion's next mask has its lowest bit below `i`, so
      the first-level scan may stop at `i`. */
  lemma BudgetPruneSound(stored: iset<Mask>, used: Mask, words: seq<Mask>, c: seq<Mask>, i: nat)
    requires FiveLetterMasks(stored) && Held(words, used) && |words| < SOLUTION_WORDS
    requires Completes(stored, used, words, c)
    requires i < WIDTH && FreeBelow(used, i) >= 2
    ensures TrailingZeros(c[|words|]) < i
  {
    CompletesHeld(stored, used, words, c);
    var u := UnionAll(c);
    HeldCard(c, u);
    UnionAllFits(c, LETTERS);
    LowestBit(c[|words|]);
    if i <= LETTERS {
      var free := LowBits(i) * Complement(used);
      var a :| a in free;
      assert |free - {a}| >= 1;
      var b :| b in free - {a};
      FreeBelowNext(c, words, used, a);
      FreeBelowNext(c, words, used, b);
      OneOfTwo(u, a, b);
    }
  }

  /** Once the budget is spent at bit `i` it stays spent at every later bit. */
  lemma BudgetMonotone(used: Mask, i: nat, j: nat)
    requires i <= j < WIDTH
    ensures FreeBelow(used, i) <= FreeBelow(used, j)
  {
    SubsetCard(LowBits(i) * Complement(used), LowBits(j) * Complement(used));
  }

  /** Every solution's first mask holds Q (bit 0) or J (bit 1): 25 of the 26
      letters are used, so bit 0 or bit 1 is, and the first mask has the
      lowest bit of all. */
  lemma SolutionStartsWithQOrJ(stored: iset<Mask>, c: seq<Mask>)
    requires Solution(stored, c)
    ensures 0 in c[0] || 1 in c[0]
  {
    var u := UnionAll(c);
    HeldCard(c, u);
    UnionAllFits(c, LETTERS);
    OneOfTwo(u, 0, 1);
    assert c[..0] == [];
    FreeBelowNext(c, [], {}, 0);
    FreeBelowNext(c, [], {}, 1);
    LowestBit(c[0]);
  }

  /** The vowel prune loses nothing when every stored mask has a vowel:
      a completion needs one free vowel per missing mask. */
  lemma {:induction false} VowelPruneSound(stored: iset<Mask>, used: Mask, words: seq<Mask>, c: seq<Mask>)
    requires forall m | m in stored :: m * VOWELS != {}
    requires |words| < SOLUTION_WORDS && Completes(stored, used, words, c)
    ensures FreeVowels(used) >= SOLUTION_WORDS - |words|
    decreases SOLUTION_WORDS - |words|
  {
    var w := c[|words|];
    var v :| v in w * VOWELS;
    var before, after := Complement(used) * VOWELS, Complement(used + w) * VOWELS;
    assert v in before;
    assert after <= before - {v};
    SubsetCard(after, before - {v});
    if |words| + 1 < SOLUTION_WORDS {
      VowelPruneSound(stored, used + w, words + [w], c);
    }
  }
}
