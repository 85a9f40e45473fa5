/** The lexicon: for every mask, the surface words that share it, joined
    with "/" in the order they were read. A solution is printed by looking
    each of its masks up here. */
module Lexicon {
  import opened Masks
  import opened Encoding

  /** `[a, b].join("/")` applied left to right: the first word, then "/" and
      the next word, for every further word. */
  function JoinSlash(ws: seq<string>): (r: string)
    requires |ws| > 0
  {
    if |ws| == 1 then ws[0]
    else JoinSlash(ws[..|ws| - 1]) + "/" + ws[|ws| - 1]
  }

  /** The position of the first occurrence of `c` in `s`. */
  function IndexOf(s: string, c: char): (k: nat)
    requires c in s
    ensures k < |s| && s[k] == c
    ensures forall j | 0 <= j < k :: s[j] != c
  {
    if s[0] == c then 0
    else
      assert c in s[1..] by { var j :| 0 <= j < |s| && s[j] == c; assert s[1..][j - 1] == c; }
      1 + IndexOf(s[1..], c)
  }

  /** Cuts `s` at every "/": the reading a user makes of a lexicon entry. */
  function SplitSlash(s: string): (r: seq<string>)
    ensures |r| > 0
    decreases |s|
  {
    if '/' !in s then [s]
    else
      var k := IndexOf(s, '/');
      [s[..k]] + SplitSlash(s[k + 1..])
  }

  /** The words of the list whose mask is `m`, in list order. */
  function WithMask(words: seq<string>, m: Mask): (r: seq<string>)
    requires forall w | w in words :: IsLowercase(w)
  {
    if |words| == 0 then []
    else
      var init, w := words[..|words| - 1], words[|words| - 1];
      assert forall v | v in init :: v in words;
      WithMask(init, m) + (if WordMask(w) == m then [w] else [])
  }

  /** WithMask keeps exactly the words whose mask is `m`. */
  lemma {:induction false} WithMaskMembers(words: seq<string>, m: Mask)
    requires forall w | w in words :: IsLowercase(w)
    ensures forall w :: w in WithMask(words, m) <==> w in words && WordMask(w) == m
  {
    if |words| > 0 {
      var init, w := words[..|words| - 1], words[|words| - 1];
      assert words == init + [w];
      WithMaskMembers(init, m);
    }
  }

  /** Joining one more word onto the front of a non-empty list. */
  lemma {:induction false} JoinSlashCons(a: string, rest: seq<string>)
    requires |rest| > 0
    ensures JoinSlash([a] + rest) == a + "/" + JoinSlash(rest)
    decreases |rest|
  {
    var ws := [a] + rest;
    if |rest| > 1 {
      assert ws[..|ws| - 1] == [a] + rest[..|rest| - 1];
      JoinSlashCons(a, rest[..|rest| - 1]);
    } else {
      assert ws[..|ws| - 1] == [a];
    }
  }

  /** Words without a "/" can be read back from their joined entry. */
  lemma {:induction false} SplitJoin(ws: seq<string>)
    requires |ws| > 0
    requires forall k | 0 <= k < |ws| :: '/' !in ws[k]
    ensures SplitSlash(JoinSlash(ws)) == ws
    decreases |ws|
  {
    if |ws| > 1 {
      var a, rest := ws[0], ws[1..];
      assert ws == [a] + rest;
      JoinSlashCons(a, rest);
      var s := JoinSlash(ws);
      assert s == a + "/" + JoinSlash(rest);
      assert s[|a|] == '/';
      assert '/' in s;
      var k := IndexOf(s, '/');
      assert k == |a|;
      assert s[..k] == a;
      assert s[k + 1..] == JoinSlash(rest);
      SplitJoin(rest);
    }
  }

  /** A lowercase word holds no "/". */
  lemma LowercaseHasNoSlash(w: string)
    requires IsLowercase(w)
    ensures '/' !in w
  {
  }

  /** The masks of the words of the list. */
  function MasksOf(words: seq<string>): (r: set<Mask>)
    requires forall w | w in words :: IsLowercase(w)
  {
    set w | w in words :: WordMask(w)
  }

  /** A mask is one of the list's masks exactly when some word has it. */
  lemma MasksOfMembers(words: seq<string>, m: Mask)
    requires forall w | w in words :: IsLowercase(w)
    ensures m in MasksOf(words) <==> WithMask(words, m) != []
  {
    WithMaskMembers(words, m);
    if WithMask(words, m) != [] {
      assert WithMask(words, m)[0] in WithMask(words, m);
    }
  }

  /** What the lexicon should hold once `words` are read: for each mask of a
      word, the "/"-join of the words with that mask. */
  function LexiconOf(words: seq<string>): (lexicon: map<Mask, string>)
    requires forall w | w in words :: IsLowercase(w)
  {
    assert forall m | m in MasksOf(words) :: WithMask(words, m) != [] by {
      forall m | m in MasksOf(words)
        ensures WithMask(words, m) != []
      {
        MasksOfMembers(words, m);
      }
    }
    map m | m in MasksOf(words) :: JoinSlash(WithMask(words, m))
  }

  /** The words with a mask, after one more word is read. */
  lemma WithMaskSnoc(words: seq<string>, w: string, n: Mask)
    requires forall v | v in words :: IsLowercase(v)
    requires IsLowercase(w)
    ensures WithMask(words + [w], n) == WithMask(words, n) + (if WordMask(w) == n then [w] else [])
  {
    var ws := words + [w];
    assert ws[..|ws| - 1] == words;
  }

  /** Appending a word to a non-empty list appends "/" and the word to its join. */
  lemma JoinSlashSnoc(ws: seq<string>, w: string)
    requires |ws| > 0
    ensures JoinSlash(ws + [w]) == JoinSlash(ws) + "/" + w
  {
    assert (ws + [w])[..|ws|] == ws;
  }

  /** An entry of the specification lexicon is the join of a non-empty list. */
  lemma LexiconOfAt(words: seq<string>, n: Mask)
    requires forall v | v in words :: IsLowercase(v)
    requires n in LexiconOf(words)
    ensures WithMask(words, n) != [] && LexiconOf(words)[n] == JoinSlash(WithMask(words, n))
  {
    MasksOfMembers(words, n);
  }

  /** Reading a word whose mask already has an entry appends "/" and the word. */
  lemma StepSameMask(words: seq<string>, w: string)
    requires forall v | v in words :: IsLowercase(v)
    requires IsLowercase(w)
    requires WordMask(w) in LexiconOf(words)
    ensures LexiconOf(words + [w])[WordMask(w)] == LexiconOf(words)[WordMask(w)] + "/" + w
  {
    var n := WordMask(w);
    WithMaskSnoc(words, w, n);
    LexiconOfAt(words + [w], n);
    LexiconOfAt(words, n);
    var earlier := WithMask(words, n);
    var later := WithMask(words + [w], n);
    assert later == earlier + [w];
    JoinSlashSnoc(earlier, w);
    assert JoinSlash(later) == JoinSlash(earlier) + "/" + w;
  }

  /** Reading a word with a new mask makes an entry holding just that word. */
  lemma StepNewMask(words: seq<string>, w: string)
    requires forall v | v in words :: IsLowercase(v)
    requires IsLowercase(w)
    requires WordMask(w) !in LexiconOf(words)
    ensures LexiconOf(words + [w])[WordMask(w)] == w
  {
    var n := WordMask(w);
    WithMaskSnoc(words, w, n);
    MasksOfMembers(words, n);
    assert w in words + [w];
    LexiconOfAt(words + [w], n);
  }

  /** Reading a word leaves the entries of the other masks as they were. */
  lemma StepOtherMask(words: seq<string>, w: string, n: Mask)
    requires forall v | v in words :: IsLowercase(v)
    requires IsLowercase(w)
    requires n in LexiconOf(words + [w]) && n != WordMask(w)
    ensures n in LexiconOf(words) && LexiconOf(words + [w])[n] == LexiconOf(words)[n]
  {
    WithMaskSnoc(words, w, n);
    LexiconOfAt(words + [w], n);
    var earlier := WithMask(words, n);
    assert earlier + [] == earlier;
    MasksOfMembers(words, n);
    LexiconOfAt(words, n);
  }

  /** Each entry of the lexicon, cut at its "/"s, gives back exactly the
      words with that mask, in list order; every word's mask has one. */
  lemma LexiconEntriesNameWords(words: seq<string>)
    requires forall w | w in words :: IsLowercase(w)
    ensures forall w | w in words :: WordMask(w) in LexiconOf(words)
    ensures forall m | m in LexiconOf(words) :: SplitSlash(LexiconOf(words)[m]) == WithMask(words, m)
  {
    var lexicon := LexiconOf(words);
    forall m | m in lexicon
      ensures SplitSlash(lexicon[m]) == WithMask(words, m)
    {
      var ws := WithMask(words, m);
      LexiconOfAt(words, m);
      WithMaskMembers(words, m);
      forall k | 0 <= k < |ws|
        ensures '/' !in ws[k]
      {
        assert ws[k] in ws;
        LowercaseHasNoSlash(ws[k]);
      }
      SplitJoin(ws);
    }
  }

  /** The lexicon loop: the first word with a mask makes its entry, each
      later one is appended after a "/". The result is LexiconOf(words). */
  method BuildLexicon(words: seq<string>) returns (lexicon: map<Mask, string>)
    requires forall w | w in words :: IsLowercase(w)
    ensures forall m :: m in lexicon <==> m in LexiconOf(words)
    ensures forall m | m in lexicon :: lexicon[m] == LexiconOf(words)[m]
  {
    lexicon := map[];
    for i := 0 to |words|
      invariant forall m :: m in lexicon <==> m in LexiconOf(words[..i])
      invariant forall m | m in lexicon :: lexicon[m] == LexiconOf(words[..i])[m]
    {
      var word := words[i];
      assert words[..i + 1] == words[..i] + [word];
      var encoded := EncodeWords(word);
      if encoded !in lexicon {
        StepNewMask(words[..i], word);
        lexicon := lexicon[encoded := word];
      } else {
        StepSameMask(words[..i], word);
        lexicon := lexicon[encoded := lexicon[encoded] + "/" + word];
      }
      forall n
        ensures n in lexicon <==> n in LexiconOf(words[..i + 1])
      {
        WithMaskSnoc(words[..i], word, n);
        MasksOfMembers(words[..i], n);
        MasksOfMembers(words[..i + 1], n);
      }
      forall n | n in lexicon && n != encoded
        ensures lexicon[n] == LexiconOf(words[..i + 1])[n]
      {
        StepOtherMask(words[..i], word, n);
      }
    }
    assert words[..|words|] == words;
  }

  /** `decodewords`: the lexicon entry of each mask of a solution. Every
      mask must have an entry (the source unwraps the lookup). */
  function DecodeWords(ws: seq<Mask>, lexicon: map<Mask, string>): (r: seq<string>)
    requires forall k | 0 <= k < |ws| :: ws[k] in lexicon
  {
    seq(|ws|, k requires 0 <= k < |ws| => lexicon[ws[k]])
  }
}
