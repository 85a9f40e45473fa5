/** The letter encoder: each lowercase letter owns one bit of a u32, and a
    word's mask is the OR of the bits of its letters. Words whose mask does
    not have exactly five bits are dropped before the search. */
module Encoding {
  import opened Masks

  /** Number of letters, and of bits a letter mask can use. */
  const LETTERS: nat := 26

  /** `ENCODING`: the bit of each letter, indexed by `c - 'a'`. The bits are
      a permutation of positions 0..25 that puts rare letters low: Q is
      bit 0, J bit 1, E bit 25. */
  function Table(k: nat): (r: Mask)
    requires k < LETTERS
  {
    match k
    case 0 => Bit(24)  // A
    case 1 => Bit(9)   // B
    case 2 => Bit(16)  // C
    case 3 => Bit(14)  // D
    case 4 => Bit(25)  // E
    case 5 => Bit(8)   // F
    case 6 => Bit(10)  // G
    case 7 => Bit(11)  // H
    case 8 => Bit(22)  // I
    case 9 => Bit(1)   // J
    case 10 => Bit(5)  // K
    case 11 => Bit(17) // L
    case 12 => Bit(12) // M
    case 13 => Bit(19) // N
    case 14 => Bit(21) // O
    case 15 => Bit(13) // P
    case 16 => Bit(0)  // Q
    case 17 => Bit(23) // R
    case 18 => Bit(18) // S
    case 19 => Bit(20) // T
    case 20 => Bit(15) // U
    case 21 => Bit(4)  // V
    case 22 => Bit(6)  // W
    case 23 => Bit(3)  // X
    case 24 => Bit(7)  // Y
    case _ => Bit(2)   // Z
  }

  /** The letter index that owns bit `b`: the inverse of Table. */
  function BitOwner(b: nat): (r: nat)
    requires b < LETTERS
  {
    match b
    case 0 => 16  case 1 => 9   case 2 => 25  case 3 => 23  case 4 => 21
    case 5 => 10  case 6 => 22  case 7 => 24  case 8 => 5   case 9 => 1
    case 10 => 6  case 11 => 7  case 12 => 12 case 13 => 15 case 14 => 3
    case 15 => 20 case 16 => 2  case 17 => 11 case 18 => 18 case 19 => 13
    case 20 => 19 case 21 => 14 case 22 => 8  case 23 => 17 case 24 => 0
    case _ => 4
  }

  /** The bits of A, E, I, O, U and Y; the u32 56656000. */
  const VOWELS: Mask := {24, 25, 22, 21, 15, 7}

  predicate IsLower(c: char) {
    'a' <= c <= 'z'
  }

  predicate IsLowercase(w: string) {
    forall k | 0 <= k < |w| :: IsLower(w[k])
  }

  /** `ENCODING[c as usize - 97]`. */
  function LetterMask(c: char): (r: Mask)
    requires IsLower(c)
  {
    Table(c as int - 'a' as int)
  }

  /** The mask of a word: the OR of the bits of its letters. */
  function WordMask(w: string): (r: Mask)
    requires IsLowercase(w)
  {
    if |w| == 0 then {} else WordMask(w[..|w| - 1]) + LetterMask(w[|w| - 1])
  }

  /** The distinct letters of a word. */
  ghost function Letters(w: string): (r: set<char>) {
    set c | c in w
  }

  /** `encodewords`: accumulates the letter bits of `word` into `mask`. */
  method EncodeWords(word: string) returns (mask: Mask)
    requires IsLowercase(word)
    ensures mask == WordMask(word)
  {
    mask := {};
    for i := 0 to |word|
      invariant mask == WordMask(word[..i])
    {
      assert word[..i + 1][..i] == word[..i];
      mask := mask + LetterMask(word[i]);
    }
    assert word[..|word|] == word;
  }

  /** The table is a permutation of the single bits 0..25: every letter
      owns exactly one bit, that bit is below 26 and is owned by no other
      letter, and every bit below 26 is owned by some letter. */
  lemma TableIsPermutation()
    ensures forall k: nat | k < LETTERS :: |Table(k)| == 1
    ensures forall k: nat, x | k < LETTERS && x in Table(k) :: x < LETTERS && BitOwner(x) == k
    ensures forall b: nat | b < LETTERS :: BitOwner(b) < LETTERS && Table(BitOwner(b)) == {b}
  {
    TableSingleBits();
    TableOwnedBits();
    OwnersCoverBits();
  }

  lemma TableSingleBits()
    ensures forall k: nat | k < LETTERS :: |Table(k)| == 1
  {
  }

  lemma TableOwnedBits()
    ensures forall k: nat, x | k < LETTERS && x in Table(k) :: x < LETTERS && BitOwner(x) == k
  {
  }

  lemma OwnersCoverBits()
    ensures forall b: nat | b < LETTERS :: BitOwner(b) < LETTERS && Table(BitOwner(b)) == {b}
  {
  }

  /** Distinct letters own disjoint single bits below 26. */
  lemma LetterMasksDisjoint(c: char, d: char)
    requires IsLower(c) && IsLower(d)
    ensures |LetterMask(c)| == 1 && Fits(LetterMask(c), LETTERS)
    ensures c != d <==> LetterMask(c) !! LetterMask(d)
  {
    TableIsPermutation();
    var x :| x in LetterMask(c);
    assert LetterMask(c) == {x};
  }

  /** A word's mask holds exactly the bits of the letters it contains, so
      its bit count is its number of distinct letters. */
  lemma {:induction false} WordMaskCountsLetters(w: string)
    requires IsLowercase(w)
    ensures Fits(WordMask(w), LETTERS)
    ensures CountOnes(WordMask(w)) == |Letters(w)|
    ensures forall c | c in w :: LetterMask(c) <= WordMask(w)
  {
    if |w| > 0 {
      var init, c := w[..|w| - 1], w[|w| - 1];
      assert w == init + [c];
      WordMaskCountsLetters(init);
      LetterMasksDisjoint(c, c);
      assert Letters(w) == Letters(init) + {c};
      if c in init {
        assert WordMask(w) == WordMask(init);
        assert Letters(w) == Letters(init);
      } else {
        LetterMaskOutside(init, c);
        assert |Letters(w)| == |Letters(init)| + 1;
      }
    }
  }

  /** The bit of a letter the word does not contain is not in its mask. */
  lemma {:induction false} LetterMaskOutside(w: string, c: char)
    requires IsLowercase(w) && IsLower(c) && c !in w
    ensures LetterMask(c) !! WordMask(w)
  {
    if |w| > 0 {
      var init, d := w[..|w| - 1], w[|w| - 1];
      assert d in w;
      assert forall e | e in init :: e in w;
      LetterMaskOutside(init, c);
      LetterMasksDisjoint(c, d);
    }
  }

  /** The filter `encodewords(w).count_ones() == 5`. */
  predicate Keep(w: string)
    requires IsLowercase(w)
  {
    CountOnes(WordMask(w)) == 5
  }

  /** The filter keeps exactly the words with five distinct letters. */
  lemma KeepIffFiveLetters(w: string)
    requires IsLowercase(w)
    ensures Keep(w) <==> |Letters(w)| == 5
  {
    WordMaskCountsLetters(w);
  }

  /** The words of the list that pass the filter, in their input order. */
  function FilterWords(words: seq<string>): (r: seq<string>)
    requires forall w | w in words :: IsLowercase(w)
  {
    if |words| == 0 then []
    else
      var init, w := words[..|words| - 1], words[|words| - 1];
      assert forall v | v in init :: v in words;
      var rest := FilterWords(init);
      if Keep(w) then rest + [w] else rest
  }

  /** The filter keeps exactly the words of the list that have five
      distinct letters. */
  lemma {:induction false} FilterWordsMembers(words: seq<string>)
    requires forall w | w in words :: IsLowercase(w)
    ensures forall w :: w in FilterWords(words) <==> w in words && |Letters(w)| == 5
  {
    if |words| > 0 {
      var init, w := words[..|words| - 1], words[|words| - 1];
      assert words == init + [w];
      FilterWordsMembers(init);
      KeepIffFiveLetters(w);
      forall v | v in words
        ensures Keep(v) <==> |Letters(v)| == 5
      {
        KeepIffFiveLetters(v);
      }
    }
  }

  /** VOWELS is the OR of the bits of a, e, i, o, u and y. */
  lemma VowelsAreAEIOUY()
    ensures VOWELS == LetterMask('a') + LetterMask('e') + LetterMask('i') + LetterMask('o') + LetterMask('u') + LetterMask('y')
  {
  }

  /** VOWELS has six letter bits. */
  lemma VowelCount()
    ensures Fits(VOWELS, LETTERS) && |VOWELS| == 6
  {
  }

  /** VOWELS is the u32 56656000 of the source. */
  lemma VowelsValue()
    ensures Value(VOWELS) == 56656000
  {
    ValueOfVowelBits(VOWELS);
  }

  /** The value of the vowel bits, bit by bit. */
  lemma ValueOfVowelBits(m: Mask)
    requires m == VOWELS
    ensures Value(m) == 56656000
  {
    ValueBelowSkip(m, 0, 7);
    assert ValueBelow(m, 8) == 128;
    ValueBelowSkip(m, 8, 15);
    assert ValueBelow(m, 16) == 32896;
    ValueBelowSkip(m, 16, 21);
    assert ValueBelow(m, 22) == 2130048;
    assert ValueBelow(m, 23) == 6324352;
    ValueBelowSkip(m, 23, 24);
    assert ValueBelow(m, 25) == 23101568;
    assert ValueBelow(m, 26) == 56656000;
    ValueBelowSkip(m, 26, WIDTH);
  }
}
