/** The depth-first search for five masks with pairwise disjoint bits.

    `search` is called with the letters used so far and the masks chosen so
    far (the stack `words`); with five masks it reports them, otherwise it
    gives up when too few vowels are left and else calls `findword`, which
    walks the trie five levels deep for a stored mask that avoids the used
    letters and whose lowest bit is above that of the last mask chosen,
    pushes it, searches on and pops it again. */
module TrieSearch {
  import opened Masks
  import opened Encoding
  import opened Tries
  import opened Lexicon
  import opened Completion

  /** The masks stored in the trie: the five-bit masks whose bits, read
      upwards, are a path from the root. */
  ghost function StoredMasks(t: Trie): (r: iset<Mask>) {
    iset m | Stored(t, m)
  }

  /** Every reported list finishes `words`, and its line is the lexicon
      entry of each of its masks (what `decodewords` prints). */
  ghost predicate Emitted(t: Trie, used: Mask, words: seq<Mask>, lexicon: map<Mask, string>,
                          found: seq<seq<Mask>>, lines: seq<seq<string>>)
  {
    && |lines| == |found|
    && forall k | 0 <= k < |found| ::
         && Completes(StoredMasks(t), used, words, found[k])
         && (forall j | 0 <= j < |found[k]| :: found[k][j] in lexicon)
         && lines[k] == DecodeWords(found[k], lexicon)
  }

  /** No list is reported twice. */
  ghost predicate NoRepeats(found: seq<seq<Mask>>) {
    forall a, b | 0 <= a < b < |found| :: found[a] != found[b]
  }

  /** Up to the last bit of `path`, the bits of `w` are exactly those of
      `path`: `w` is reached in the trie through `path`. */
  ghost predicate Spells(w: Mask, path: seq<nat>)
    requires path != []
  {
    forall y: nat | y <= path[|path| - 1] :: y in w <==> y in path
  }

  /** Every list in `found` has, at position `n`, a mask reached through
      `path`. */
  ghost predicate Through(found: seq<seq<Mask>>, n: nat, path: seq<nat>)
    requires path != []
  {
    forall k | 0 <= k < |found| :: n < |found[k]| && Spells(found[k][n], path)
  }

  /** Every list in `found` has, at position `n`, a mask whose lowest bit
      from `lo` up is below `x`: the candidates tried before `x`. */
  ghost predicate Before(found: seq<seq<Mask>>, n: nat, lo: nat, x: nat)
    requires lo <= WIDTH
  {
    forall k | 0 <= k < |found| :: n < |found[k]| && Key(found[k][n], lo) < x
  }

  /** The lowest bit of `w` from `lo` up: what tells the candidates of one
      level apart. */
  function Key(w: Mask, lo: nat): (r: nat)
    requires lo <= WIDTH
  {
    LowestFrom(w, lo)
  }

  /** What the search needs: a valid trie whose paths increase, a last mask
      with a bit, and a lexicon entry for every mask it may report. */
  ghost predicate Ready(t: Trie, words: seq<Mask>, lexicon: map<Mask, string>) {
    && Valid(t) && OrderedAbove(t, -1)
    && (words != [] ==> TrailingZeros(Last(words)) < WIDTH)
    && (forall k | 0 <= k < |words| :: words[k] in lexicon)
    && (forall m | Stored(t, m) :: m in lexicon)
  }

  /** `Trie::search`. The stack comes back as it went in; every list
      reported finishes it; with five masks the stack itself is reported;
      with too few free vowels nothing is. */
  method Search(t: Trie, used: Mask, words: seq<Mask>, lexicon: map<Mask, string>)
    returns (wordsOut: seq<Mask>, found: seq<seq<Mask>>, lines: seq<seq<string>>)
    requires Ready(t, words, lexicon)
    ensures wordsOut == words
    ensures Emitted(t, used, words, lexicon, found, lines)
    ensures NoRepeats(found)
    ensures |words| >= SOLUTION_WORDS ==> found == [words]
    ensures |words| < SOLUTION_WORDS && FreeVowels(used) < SOLUTION_WORDS - |words| ==> found == []
    decreases if |words| < SOLUTION_WORDS then SOLUTION_WORDS - |words| else 0, 2, 0, 0
  {
    if |words| < SOLUTION_WORDS {
      if FreeVowels(used) < SOLUTION_WORDS - |words| {
        return words, [], [];
      }
      wordsOut, found, lines := FindWord(t, used, words, lexicon);
    } else {
      wordsOut, found, lines := words, [words], [DecodeWords(words, lexicon)];
    }
  }

  /** `Trie::findword`, first level: the candidate first bits are the root's
      free bits from the last mask's lowest bit up. The scan stops for good
      at the first bit with two free letters below it. */
  method FindWord(t: Trie, used: Mask, words: seq<Mask>, lexicon: map<Mask, string>)
    returns (wordsOut: seq<Mask>, found: seq<seq<Mask>>, lines: seq<seq<string>>)
    requires Ready(t, words, lexicon) && |words| < SOLUTION_WORDS
    ensures wordsOut == words
    ensures Emitted(t, used, words, lexicon, found, lines)
    ensures NoRepeats(found)
    decreases SOLUTION_WORDS - |words|, 1, 0, 0
  {
    var available1 := t.mask * Complement(used);
    if |words| > 0 {
      var trailing := TrailingZeros(Last(words));
      available1 := available1 * Complement(LowBits(trailing));
    }
    wordsOut, found, lines := words, [], [];
    var i := TrailingZeros(available1);
    var hi := WIDTH - LeadingZeros(available1);
    while i < hi
      invariant wordsOut == words
      invariant Emitted(t, used, words, lexicon, found, lines)
      invariant NoRepeats(found)
      invariant Before(found, |words|, 0, i)
      decreases hi - i
    {
      if FreeBelow(used, i) >= 2 {
        return;
      }
      if i in available1 {
        var root2 := t.children[i].value;
        assert Follow(t, [i]) == root2;
        var f, l;
        wordsOut, f, l := Enumerate(t, root2, [i], used, wordsOut, lexicon);
        EmittedAppend(t, used, words, lexicon, found, lines, f, l);
        AppendBranch(found, f, |words|, [], i, [i], 0);
        found, lines := found + f, lines + l;
      } else {
        BeforeNext(found, |words|, 0, i);
      }
      i := i + 1;
    }
  }

  /** `findword`, levels two to five: `path` holds the bits chosen so far
      and `node` is where they lead. Each free child above the last bit is
      tried in turn. */
  method Enumerate(t: Trie, node: Trie, path: seq<nat>, used: Mask, words: seq<Mask>,
                   lexicon: map<Mask, string>)
    returns (wordsOut: seq<Mask>, found: seq<seq<Mask>>, lines: seq<seq<string>>)
    requires Ready(t, words, lexicon) && |words| < SOLUTION_WORDS
    requires 1 <= |path| < WORD_LETTERS
    requires IsPath(t, path) && node == Follow(t, path)
    requires Valid(node) && OrderedAbove(node, path[|path| - 1])
    requires Increasing(path)
    requires forall k | 0 <= k < |path| :: path[k] < SLOTS && path[k] !in used
    requires words != [] ==> TrailingZeros(Last(words)) <= path[0]
    ensures wordsOut == words
    ensures Emitted(t, used, words, lexicon, found, lines)
    ensures NoRepeats(found) && Through(found, |words|, path)
    decreases SOLUTION_WORDS - |words|, 0, WORD_LETTERS - |path|, 1
  {
    var prev := path[|path| - 1];
    var available := node.mask * Complement(used) * Complement(LowBits(prev));
    wordsOut, found, lines := words, [], [];
    var lo := prev + 1;
    assert forall k | 0 <= k < |path| :: path[k] < lo;
    var x := TrailingZeros(available);
    var hi := WIDTH - LeadingZeros(available);
    while x < hi
      invariant wordsOut == words
      invariant Emitted(t, used, words, lexicon, found, lines)
      invariant NoRepeats(found) && Through(found, |words|, path)
      invariant Before(found, |words|, lo, x)
      decreases hi - x
    {
      if x in available {
        var f, l;
        wordsOut, f, l := TryChild(t, node, path, x, used, wordsOut, lexicon);
        EmittedAppend(t, used, words, lexicon, found, lines, f, l);
        AppendBranch(found, f, |words|, path, x, path + [x], lo);
        ThroughAppend(found, f, |words|, path, x);
        found, lines := found + f, lines + l;
      } else {
        BeforeNext(found, |words|, lo, x);
      }
      x := x + 1;
    }
  }

  /** One free child `x` of `node`: at the fifth level the path's mask is
      pushed, searched on and popped; below it the next level is
      enumerated. */
  method TryChild(t: Trie, node: Trie, path: seq<nat>, x: nat, used: Mask, words: seq<Mask>,
                  lexicon: map<Mask, string>)
    returns (wordsOut: seq<Mask>, found: seq<seq<Mask>>, lines: seq<seq<string>>)
    requires Ready(t, words, lexicon) && |words| < SOLUTION_WORDS
    requires 1 <= |path| < WORD_LETTERS
    requires IsPath(t, path) && node == Follow(t, path)
    requires Valid(node) && OrderedAbove(node, path[|path| - 1])
    requires Increasing(path)
    requires forall k | 0 <= k < |path| :: path[k] < SLOTS && path[k] !in used
    requires words != [] ==> TrailingZeros(Last(words)) <= path[0]
    requires x in node.mask && x !in used
    ensures wordsOut == words
    ensures Emitted(t, used, words, lexicon, found, lines)
    ensures NoRepeats(found) && Through(found, |words|, path + [x])
    decreases SOLUTION_WORDS - |words|, 0, WORD_LETTERS - |path|, 0
  {
    var child := node.children[x].value;
    var next := path + [x];
    ExtendPath(t, node, path, x, used);
    if |next| == WORD_LETTERS {
      var wordmask := PathMask(next);
      FullPath(t, next, used, words);
      var newused := used + wordmask;
      var pushed := words + [wordmask];
      ReadyPush(t, words, wordmask, lexicon);
      var back;
      back, found, lines := Search(t, newused, pushed, lexicon);
      wordsOut := back[..|back| - 1];
      EmittedExtend(t, used, words, wordmask, lexicon, found, lines);
      PushedThrough(t, newused, words, next, lexicon, found, lines);
    } else {
      wordsOut, found, lines := Enumerate(t, child, next, used, words, lexicon);
    }
  }

  /** Stepping from the end of an increasing path into a free child above
      its last bit gives a longer increasing path of free bits. */
  lemma ExtendPath(t: Trie, node: Trie, path: seq<nat>, x: nat, used: Mask)
    requires 1 <= |path| && IsPath(t, path) && node == Follow(t, path)
    requires Valid(node) && OrderedAbove(node, path[|path| - 1])
    requires Increasing(path)
    requires forall k | 0 <= k < |path| :: path[k] < SLOTS && path[k] !in used
    requires x in node.mask && x !in used
    ensures x < SLOTS && node.children[x].Some?
    ensures IsPath(t, path + [x]) && Follow(t, path + [x]) == node.children[x].value
    ensures Valid(node.children[x].value) && OrderedAbove(node.children[x].value, x)
    ensures Increasing(path + [x]) && (path + [x])[0] == path[0]
    ensures forall k | 0 <= k < |path + [x]| :: (path + [x])[k] < SLOTS && (path + [x])[k] !in used
  {
    var prev, next := path[|path| - 1], path + [x];
    FollowSnoc(t, path, x);
    forall a, b | 0 <= a < b < |next|
      ensures next[a] < next[b]
    {
      if b < |path| {
        assert next[a] == path[a] && next[b] == path[b];
      } else if a < |path| - 1 {
        assert path[a] < prev;
      }
    }
  }

  /** A path of five free bits, starting not below the last mask's lowest
      bit, spells a stored mask that may be chosen next. */
  lemma FullPath(t: Trie, p: seq<nat>, used: Mask, words: seq<Mask>)
    requires IsPath(t, p) && Increasing(p) && |p| == WORD_LETTERS
    requires forall k | 0 <= k < |p| :: p[k] < SLOTS && p[k] !in used
    requires words != [] ==> TrailingZeros(Last(words)) <= p[0]
    ensures Stored(t, PathMask(p)) && TrailingZeros(PathMask(p)) == p[0]
    ensures NextWord(StoredMasks(t), used, words, PathMask(p))
  {
    PathStoresMask(t, p);
    LowestOfPath(p);
    PathMaskMembers(p);
  }

  /** Pushing a stored mask keeps the search ready. */
  lemma ReadyPush(t: Trie, words: seq<Mask>, w: Mask, lexicon: map<Mask, string>)
    requires Ready(t, words, lexicon) && Stored(t, w) && TrailingZeros(w) < WIDTH
    ensures Ready(t, words + [w], lexicon)
  {
  }

  /** Lists reported after pushing `w` finish the stack without it. */
  lemma EmittedExtend(t: Trie, used: Mask, words: seq<Mask>, w: Mask, lexicon: map<Mask, string>,
                      found: seq<seq<Mask>>, lines: seq<seq<string>>)
    requires |words| < SOLUTION_WORDS && NextWord(StoredMasks(t), used, words, w)
    requires Emitted(t, used + w, words + [w], lexicon, found, lines)
    ensures Emitted(t, used, words, lexicon, found, lines)
  {
    forall k | 0 <= k < |found|
      ensures Completes(StoredMasks(t), used, words, found[k])
    {
      CompletesStep(StoredMasks(t), used, words, w, found[k]);
    }
  }

  /** Reports can be concatenated. */
  lemma EmittedAppend(t: Trie, used: Mask, words: seq<Mask>, lexicon: map<Mask, string>,
                      f1: seq<seq<Mask>>, l1: seq<seq<string>>, f2: seq<seq<Mask>>, l2: seq<seq<string>>)
    requires Emitted(t, used, words, lexicon, f1, l1)
    requires Emitted(t, used, words, lexicon, f2, l2)
    ensures Emitted(t, used, words, lexicon, f1 + f2, l1 + l2)
  {
    var f, l := f1 + f2, l1 + l2;
    forall k | 0 <= k < |f|
      ensures Completes(StoredMasks(t), used, words, f[k])
      ensures (forall j | 0 <= j < |f[k]| :: f[k][j] in lexicon)
      ensures l[k] == DecodeWords(f[k], lexicon)
    {
      if k < |f1| {
        assert f[k] == f1[k] && l[k] == l1[k];
      } else {
        assert f[k] == f2[k - |f1|] && l[k] == l2[k - |f1|];
      }
    }
  }

  /** A mask reached through `next`, whose bits before the last lie below
      `lo`, has `next`'s last bit as its lowest bit from `lo` up. */
  lemma SpellsKey(w: Mask, next: seq<nat>, lo: nat)
    requires next != [] && lo <= next[|next| - 1] < WIDTH
    requires forall k | 0 <= k < |next| - 1 :: next[k] < lo
    requires Spells(w, next)
    ensures Key(w, lo) == next[|next| - 1]
  {
    var x := next[|next| - 1];
    assert x in next;
    forall y: nat | lo <= y < x
      ensures y !in w
    {
      assert y !in next;
    }
  }

  /** The reports of the candidate spelled by `path + [x]` differ from all
      earlier reports, whose lowest bit from `lo` up is below `x`. */
  lemma AppendBranch(found: seq<seq<Mask>>, f: seq<seq<Mask>>, n: nat, path: seq<nat>, x: nat, next: seq<nat>, lo: nat)
    requires lo <= x < WIDTH && next == path + [x]
    requires forall k | 0 <= k < |path| :: path[k] < lo
    requires NoRepeats(found) && NoRepeats(f) && Through(f, n, next)
    requires Before(found, n, lo, x)
    ensures NoRepeats(found + f) && Before(found + f, n, lo, x + 1)
  {
    forall k | 0 <= k < |f|
      ensures Key(f[k][n], lo) == x
    {
      SpellsKey(f[k][n], next, lo);
    }
    forall k | 0 <= k < |found + f|
      ensures n < |(found + f)[k]| && Key((found + f)[k][n], lo) < x + 1
    {
      if k >= |found| {
        assert (found + f)[k] == f[k - |found|];
      }
    }
    forall a, b | 0 <= a < b < |found + f|
      ensures (found + f)[a] != (found + f)[b]
    {
      if b < |found| {
        assert (found + f)[a] == found[a] && (found + f)[b] == found[b];
      } else if a >= |found| {
        assert (found + f)[a] == f[a - |found|] && (found + f)[b] == f[b - |found|];
      } else {
        assert (found + f)[a] == found[a] && (found + f)[b] == f[b - |found|];
      }
    }
  }

  /** Passing over a candidate keeps the earlier reports below the next. */
  lemma BeforeNext(found: seq<seq<Mask>>, n: nat, lo: nat, x: nat)
    requires lo <= WIDTH && Before(found, n, lo, x)
    ensures Before(found, n, lo, x + 1)
  {
  }

  /** Reports through `path + [x]` are reports through `path`. */
  lemma ThroughAppend(found: seq<seq<Mask>>, f: seq<seq<Mask>>, n: nat, path: seq<nat>, x: nat)
    requires path != [] && Increasing(path) && path[|path| - 1] < x
    requires Through(found, n, path) && Through(f, n, path + [x])
    ensures Through(found + f, n, path)
  {
    forall k | 0 <= k < |found + f|
      ensures n < |(found + f)[k]| && Spells((found + f)[k][n], path)
    {
      if k >= |found| {
        var w := f[k - |found|][n];
        assert (found + f)[k] == f[k - |found|];
        forall y: nat | y <= path[|path| - 1]
          ensures y in w <==> y in path
        {
          assert y in path + [x] <==> y in path;
        }
      }
    }
  }

  /** Every list reported after pushing the mask of `next` holds that mask
      at the position it was pushed to. */
  lemma PushedThrough(t: Trie, used: Mask, words: seq<Mask>, next: seq<nat>, lexicon: map<Mask, string>,
                      f: seq<seq<Mask>>, l: seq<seq<string>>)
    requires next != []
    requires Emitted(t, used, words + [PathMask(next)], lexicon, f, l)
    ensures Through(f, |words|, next)
  {
    PathMaskMembers(next);
    forall k | 0 <= k < |f|
      ensures |words| < |f[k]| && f[k][|words|] == PathMask(next)
    {
      CompletesPrefix(StoredMasks(t), used, words + [PathMask(next)], f[k]);
      SnocPrefix(f[k], words, PathMask(next));
    }
  }
}
