/** The bitmask trie. A node has a presence mask and 26 child slots; bit `i`
    of the mask is set exactly when slot `i` holds a child. A word's mask is
    stored as the path that visits its set bits in increasing order, so the
    paths of length five from the root are the stored five-letter masks. */
module Tries {
  import opened Masks

  datatype Option<T> = None | Some(value: T)

  /** Number of child slots: one per letter bit. */
  const SLOTS: nat := 26

  /** `struct Trie { mask, children: [Option<Box<Trie>>; 26] }` */
  datatype Trie = Node(mask: Mask, children: seq<Option<Trie>>)

  /** Every node has 26 slots and its mask records which of them are full. */
  ghost predicate Valid(t: Trie) {
    && |t.children| == SLOTS
    && Fits(t.mask, SLOTS)
    && (forall i | 0 <= i < SLOTS :: i in t.mask <==> t.children[i].Some?)
    && (forall i | 0 <= i < SLOTS :: t.children[i].Some? ==> Valid(t.children[i].value))
  }

  /** Every child sits in a slot above `lo`, and its own children sit above
      it: read from the root, every path is strictly increasing. */
  predicate OrderedAbove(t: Trie, lo: int) {
    forall i | 0 <= i < |t.children| && t.children[i].Some? ::
      lo < i && OrderedAbove(t.children[i].value, i)
  }

  /** Following the slots of `p` from `t` never meets an empty slot. */
  predicate IsPath(t: Trie, p: seq<nat>)
    decreases |p|
  {
    p == [] || (p[0] < |t.children| && t.children[p[0]].Some? && IsPath(t.children[p[0]].value, p[1..]))
  }

  /** The node reached by following `p` from `t`. */
  function Follow(t: Trie, p: seq<nat>): (r: Trie)
    requires IsPath(t, p)
    decreases |p|
  {
    if p == [] then t else Follow(t.children[p[0]].value, p[1..])
  }

  /** `Trie::new`: no bit set, every slot empty. */
  function New(): (t: Trie)
    ensures Valid(t) && t.mask == {}
    ensures forall lo: int :: OrderedAbove(t, lo)
    ensures forall p :: IsPath(t, p) <==> p == []
  {
    Node({}, seq(SLOTS, _ => None))
  }

  /** `addchild(index)`: an existing child is kept with its subtree; an empty
      slot gets a new empty child and its bit in the mask. */
  function AddChild(t: Trie, index: nat): (r: Trie)
    requires Valid(t) && index < SLOTS
    ensures Valid(r)
    ensures index in r.mask && r.children[index].Some?
    ensures index in t.mask ==> r == t
    ensures index !in t.mask ==> r.mask == t.mask + {index} && r.children[index] == Some(New())
    ensures forall i | 0 <= i < SLOTS && i != index :: r.children[i] == t.children[i]
  {
    if index in t.mask then t
    else Node(t.mask + Bit(index), t.children[index := Some(New())])
  }

  /** The set bits of `w` in positions `i` up to `hi`, in increasing order:
      the slots the `addword` loop descends through. */
  function IndicesIn(w: Mask, i: nat, hi: nat): (r: seq<nat>)
    decreases hi - i
  {
    if i >= hi then [] else (if i in w then [i] else []) + IndicesIn(w, i + 1, hi)
  }

  /** The set bits of a u32 mask, in increasing order. */
  function Indices(w: Mask): (r: seq<nat>) {
    IndicesIn(w, 0, WIDTH)
  }

  /** The mask with exactly the bits the path visits: the OR of their
      single bits. */
  function PathMask(p: seq<nat>): (r: Mask) {
    if p == [] then {} else {p[0]} + PathMask(p[1..])
  }

  predicate Increasing(p: seq<nat>) {
    forall i, j | 0 <= i < j < |p| :: p[i] < p[j]
  }

  predicate IsPrefix(p: seq<nat>, q: seq<nat>) {
    |p| <= |q| && q[..|p|] == p
  }

  /** `addword` from bit `i` on: at every set bit below `hi`, step into the
      child for that bit, making it if needed. */
  function AddWordFrom(t: Trie, word: Mask, i: nat, hi: nat): (r: Trie)
    requires Valid(t) && Fits(word, SLOTS)
    ensures Valid(r)
    decreases hi - i
  {
    if i >= hi then t
    else if i in word then
      var t1 := AddChild(t, i);
      var child := AddWordFrom(t1.children[i].value, word, i + 1, hi);
      Node(t1.mask, t1.children[i := Some(child)])
    else AddWordFrom(t, word, i + 1, hi)
  }

  /** `addword`: the loop runs from the lowest to the highest set bit. */
  function AddWord(t: Trie, word: Mask): (r: Trie)
    requires Valid(t) && Fits(word, SLOTS)
    ensures Valid(r)
  {
    AddWordFrom(t, word, TrailingZeros(word), WIDTH - LeadingZeros(word))
  }

  /** `addword` only adds: the paths after it are the paths before it and the
      prefixes of the bits it walks. */
  lemma {:induction false} AddWordFromPaths(t: Trie, word: Mask, i: nat, hi: nat, p: seq<nat>)
    requires Valid(t) && Fits(word, SLOTS)
    ensures IsPath(AddWordFrom(t, word, i, hi), p) <==> IsPath(t, p) || IsPrefix(p, IndicesIn(word, i, hi))
    decreases hi - i
  {
    if i < hi {
      if i !in word {
        assert IndicesIn(word, i, hi) == IndicesIn(word, i + 1, hi);
        AddWordFromPaths(t, word, i + 1, hi, p);
      } else if p != [] && p[0] == i {
        var c := AddChild(t, i).children[i].value;
        AddWordFromPaths(c, word, i + 1, hi, p[1..]);
        PathsThroughStep(t, word, i, hi, p);
      } else if p != [] {
        PathsBesideStep(t, word, i, hi, p);
      }
    }
  }

  /** A path that enters the slot `addword` steps into: it is new exactly
      when its tail is new below that slot. */
  lemma PathsThroughStep(t: Trie, word: Mask, i: nat, hi: nat, p: seq<nat>)
    requires Valid(t) && Fits(word, SLOTS)
    requires i < hi && i in word && p != [] && p[0] == i
    requires var c := AddChild(t, i).children[i].value;
      IsPath(AddWordFrom(c, word, i + 1, hi), p[1..]) <==> IsPath(c, p[1..]) || IsPrefix(p[1..], IndicesIn(word, i + 1, hi))
    ensures IsPath(AddWordFrom(t, word, i, hi), p) <==> IsPath(t, p) || IsPrefix(p, IndicesIn(word, i, hi))
  {
    var rest := IndicesIn(word, i + 1, hi);
    var c := AddChild(t, i).children[i].value;
    assert IndicesIn(word, i, hi) == [i] + rest;
    assert IsPrefix(p, [i] + rest) <==> IsPrefix(p[1..], rest) by {
      if |p| <= |[i] + rest| {
        assert ([i] + rest)[..|p|] == [i] + rest[..|p| - 1];
      }
    }
    if i !in t.mask {
      assert IsPath(c, p[1..]) <==> p[1..] == [];
    }
  }

  /** A path that leaves by another slot is untouched by `addword`. */
  lemma PathsBesideStep(t: Trie, word: Mask, i: nat, hi: nat, p: seq<nat>)
    requires Valid(t) && Fits(word, SLOTS)
    requires i < hi && i in word && p != [] && p[0] != i
    ensures IsPath(AddWordFrom(t, word, i, hi), p) <==> IsPath(t, p) || IsPrefix(p, IndicesIn(word, i, hi))
  {
    var r := AddWordFrom(t, word, i, hi);
    assert IndicesIn(word, i, hi) == [i] + IndicesIn(word, i + 1, hi);
    assert p[0] < SLOTS ==> r.children[p[0]] == t.children[p[0]];
  }

  /** `addword` keeps every path strictly increasing. */
  lemma {:induction false} AddWordFromOrdered(t: Trie, word: Mask, i: nat, hi: nat, lo: int)
    requires Valid(t) && Fits(word, SLOTS)
    requires OrderedAbove(t, lo) && lo < i
    ensures OrderedAbove(AddWordFrom(t, word, i, hi), lo)
    decreases hi - i
  {
    if i < hi {
      if i in word {
        var t1 := AddChild(t, i);
        AddWordFromOrdered(t1.children[i].value, word, i + 1, hi, i);
      } else {
        AddWordFromOrdered(t, word, i + 1, hi, lo);
      }
    }
  }

  /** Walking a path that is already there changes nothing. */
  lemma {:induction false} AddWordFromPresent(t: Trie, word: Mask, i: nat, hi: nat)
    requires Valid(t) && Fits(word, SLOTS)
    requires IsPath(t, IndicesIn(word, i, hi))
    ensures AddWordFrom(t, word, i, hi) == t
    decreases hi - i
  {
    if i < hi {
      if i in word {
        var rest := IndicesIn(word, i + 1, hi);
        assert IndicesIn(word, i, hi) == [i] + rest;
        var c := t.children[i].value;
        AddWordFromPresent(c, word, i + 1, hi);
        assert t.children[i := Some(c)] == t.children;
      } else {
        assert IndicesIn(word, i, hi) == IndicesIn(word, i + 1, hi);
        AddWordFromPresent(t, word, i + 1, hi);
      }
    }
  }

  /** No bit of `w` lies in positions `i` up to `j`: the walk may start at `j`. */
  lemma {:induction false} IndicesInSkipLow(w: Mask, i: nat, j: nat, hi: nat)
    requires i <= j
    requires forall x: nat | i <= x < j :: x !in w
    ensures IndicesIn(w, i, hi) == IndicesIn(w, j, hi)
    decreases j - i
  {
    if i < j {
      IndicesInSkipLow(w, i + 1, j, hi);
    }
  }

  /** No bit of `w` lies in positions `h1` up to `h2`: the walk may stop at `h1`. */
  lemma {:induction false} IndicesInSkipHigh(w: Mask, i: nat, h1: nat, h2: nat)
    requires h1 <= h2
    requires forall x: nat | h1 <= x < h2 :: x !in w
    ensures IndicesIn(w, i, h1) == IndicesIn(w, i, h2)
    decreases h2 - i
  {
    if i < h2 {
      IndicesInSkipHigh(w, i + 1, h1, h2);
    }
  }

  /** The `addword` loop range `trailing_zeros..32 - leading_zeros` walks
      exactly the set bits of the mask. */
  lemma AddWordWalksIndices(word: Mask)
    ensures IndicesIn(word, TrailingZeros(word), WIDTH - LeadingZeros(word)) == Indices(word)
  {
    var lo, hi := TrailingZeros(word), WIDTH - LeadingZeros(word);
    IndicesInSkipLow(word, 0, lo, WIDTH);
    if lo <= hi {
      IndicesInSkipHigh(word, lo, hi, WIDTH);
    } else {
      IndicesInSkipLow(word, lo, WIDTH, WIDTH);
    }
  }

  /** After `addword(w)` the paths are the old ones and the prefixes of the
      bits of `w` in increasing order. */
  lemma AddWordPaths(t: Trie, word: Mask, p: seq<nat>)
    requires Valid(t) && Fits(word, SLOTS)
    ensures IsPath(AddWord(t, word), p) <==> IsPath(t, p) || IsPrefix(p, Indices(word))
  {
    AddWordWalksIndices(word);
    AddWordFromPaths(t, word, TrailingZeros(word), WIDTH - LeadingZeros(word), p);
  }

  /** `addword` keeps the trie's paths strictly increasing. */
  lemma AddWordOrdered(t: Trie, word: Mask)
    requires Valid(t) && Fits(word, SLOTS) && OrderedAbove(t, -1)
    ensures OrderedAbove(AddWord(t, word), -1)
  {
    AddWordFromOrdered(t, word, TrailingZeros(word), WIDTH - LeadingZeros(word), -1);
  }

  /** Inserting a mask whose bits are already a path changes nothing. */
  lemma AddWordPresent(t: Trie, word: Mask)
    requires Valid(t) && Fits(word, SLOTS) && IsPath(t, Indices(word))
    ensures AddWord(t, word) == t
  {
    AddWordWalksIndices(word);
    AddWordFromPresent(t, word, TrailingZeros(word), WIDTH - LeadingZeros(word));
  }

  /** Inserting a mask a second time changes nothing. */
  lemma AddWordIdempotent(t: Trie, word: Mask)
    requires Valid(t) && Fits(word, SLOTS)
    ensures AddWord(AddWord(t, word), word) == AddWord(t, word)
  {
    AddWordPaths(t, word, Indices(word));
    AddWordPresent(AddWord(t, word), word);
  }

  /** Number of letters in a stored word. */
  const WORD_LETTERS: nat := 5

  /** `m` is a five-bit u32 mask whose bits, in increasing order, are a path
      of the trie: the mask was inserted. */
  ghost predicate Stored(t: Trie, m: Mask) {
    Fits(m, WIDTH) && |m| == WORD_LETTERS && IsPath(t, Indices(m))
  }

  /** IndicesIn lists the set bits of the range, each once, in increasing order. */
  lemma {:induction false} IndicesInMembers(w: Mask, i: nat, hi: nat)
    ensures forall x :: x in IndicesIn(w, i, hi) <==> x in w && i <= x < hi
    ensures Increasing(IndicesIn(w, i, hi))
    decreases hi - i
  {
    if i < hi {
      IndicesInMembers(w, i + 1, hi);
      var rest := IndicesIn(w, i + 1, hi);
      if i in w {
        var s := [i] + rest;
        assert IndicesIn(w, i, hi) == s;
        forall a, b | 0 <= a < b < |s|
          ensures s[a] < s[b]
        {
          if a > 0 {
            assert s[a] == rest[a - 1] && s[b] == rest[b - 1];
          } else {
            assert s[b] in rest;
          }
        }
      } else {
        assert IndicesIn(w, i, hi) == rest;
      }
    }
  }

  /** IndicesIn reads only the bits of the range. */
  lemma {:induction false} IndicesInLocal(w1: Mask, w2: Mask, i: nat, hi: nat)
    requires forall x: nat | i <= x < hi :: x in w1 <==> x in w2
    ensures IndicesIn(w1, i, hi) == IndicesIn(w2, i, hi)
    decreases hi - i
  {
    if i < hi {
      IndicesInLocal(w1, w2, i + 1, hi);
    }
  }

  /** PathMask holds exactly the entries of the list. */
  lemma {:induction false} PathMaskMembers(p: seq<nat>)
    ensures forall x :: x in PathMask(p) <==> x in p
  {
    if p != [] {
      PathMaskMembers(p[1..]);
      assert p == [p[0]] + p[1..];
    }
  }

  /** An increasing list visits as many bits as it has entries. */
  lemma {:induction false} IncreasingCard(p: seq<nat>)
    requires Increasing(p)
    ensures |PathMask(p)| == |p|
  {
    if p != [] {
      var tail := p[1..];
      IncreasingCard(tail);
      PathMaskMembers(tail);
      assert p[0] !in tail;
    }
  }

  /** The head of a list whose entries lie in a range lies in it. */
  lemma HeadInRange(p: seq<nat>, i: nat, hi: nat)
    requires forall k | 0 <= k < |p| :: i <= p[k] < hi
    ensures |p| > 0 ==> i <= p[0] < hi
  {
  }

  /** An increasing list inside a range is the list of the bits it visits. */
  lemma {:induction false} PathIndices(p: seq<nat>, i: nat, hi: nat)
    requires Increasing(p)
    requires forall k | 0 <= k < |p| :: i <= p[k] < hi
    ensures IndicesIn(PathMask(p), i, hi) == p
    decreases hi - i
  {
    PathMaskMembers(p);
    if i >= hi {
      HeadInRange(p, i, hi);
    } else if i in p {
      assert p[0] == i;
      var tail := p[1..];
      PathIndices(tail, i + 1, hi);
      PathMaskMembers(tail);
      assert p == [i] + tail;
      IndicesInLocal(PathMask(p), PathMask(tail), i + 1, hi);
    } else {
      PathIndices(p, i + 1, hi);
    }
  }

  /** The bits of a u32 mask, listed in increasing order, give the mask back. */
  lemma IndicesOfMask(w: Mask)
    requires Fits(w, WIDTH)
    ensures Increasing(Indices(w))
    ensures PathMask(Indices(w)) == w
    ensures |Indices(w)| == |w|
  {
    IndicesInMembers(w, 0, WIDTH);
    PathMaskMembers(Indices(w));
    IncreasingCard(Indices(w));
  }

  /** A five-slot increasing path of the trie stores the mask of its bits. */
  lemma PathStoresMask(t: Trie, p: seq<nat>)
    requires IsPath(t, p) && Increasing(p) && |p| == WORD_LETTERS
    requires forall k | 0 <= k < |p| :: p[k] < WIDTH
    ensures Stored(t, PathMask(p)) && Indices(PathMask(p)) == p
  {
    PathIndices(p, 0, WIDTH);
    IncreasingCard(p);
    PathMaskMembers(p);
  }

  /** One of the masks of `ms` begins with the slots of `p`. */
  ghost predicate InsertedPrefix(ms: seq<Mask>, p: seq<nat>) {
    |ms| > 0 && (InsertedPrefix(ms[..|ms| - 1], p) || IsPrefix(p, Indices(ms[|ms| - 1])))
  }

  /** The insertion loop `for word in &cooked { trie.addword(*word) }`. */
  method BuildTrie(cooked: seq<Mask>) returns (trie: Trie)
    requires forall k | 0 <= k < |cooked| :: Fits(cooked[k], SLOTS)
    ensures Valid(trie) && OrderedAbove(trie, -1)
    ensures forall p :: IsPath(trie, p) <==> p == [] || InsertedPrefix(cooked, p)
  {
    trie := New();
    for n := 0 to |cooked|
      invariant Valid(trie) && OrderedAbove(trie, -1)
      invariant forall p :: IsPath(trie, p) <==> p == [] || InsertedPrefix(cooked[..n], p)
    {
      var word := cooked[n];
      assert cooked[..n + 1][..n] == cooked[..n];
      AddWordOrdered(trie, word);
      forall p
        ensures IsPath(AddWord(trie, word), p) <==> p == [] || InsertedPrefix(cooked[..n + 1], p)
      {
        AddWordPaths(trie, word, p);
      }
      trie := AddWord(trie, word);
    }
    assert cooked[..|cooked|] == cooked;
  }

  /** Among five-bit masks, a five-slot path is a prefix of a mask's bits
      only when it spells that mask. */
  lemma {:induction false} InsertedFive(ms: seq<Mask>, p: seq<nat>)
    requires forall k | 0 <= k < |ms| :: Fits(ms[k], SLOTS) && |ms[k]| == WORD_LETTERS
    requires |p| == WORD_LETTERS
    ensures InsertedPrefix(ms, p) <==> PathMask(p) in ms && Indices(PathMask(p)) == p
  {
    if |ms| > 0 {
      var init, last := ms[..|ms| - 1], ms[|ms| - 1];
      assert ms == init + [last];
      InsertedFive(init, p);
      IndicesOfMask(last);
      if IsPrefix(p, Indices(last)) {
        assert p == Indices(last);
      }
      if PathMask(p) == last && Indices(PathMask(p)) == p {
        assert IsPrefix(p, Indices(last));
      }
    }
  }

  /** After inserting five-letter masks, the trie stores exactly those
      masks, and every path of five slots spells one of them. */
  lemma BuiltTrieStores(trie: Trie, cooked: seq<Mask>)
    requires forall k | 0 <= k < |cooked| :: Fits(cooked[k], SLOTS) && |cooked[k]| == WORD_LETTERS
    requires forall p :: IsPath(trie, p) <==> p == [] || InsertedPrefix(cooked, p)
    ensures forall m :: Stored(trie, m) <==> m in cooked
    ensures forall p | IsPath(trie, p) && |p| == WORD_LETTERS :: PathMask(p) in cooked
  {
    forall m
      ensures Stored(trie, m) <==> m in cooked
    {
      if Stored(trie, m) || m in cooked {
        if m in cooked {
          var j :| 0 <= j < |cooked| && cooked[j] == m;
          assert Fits(m, WIDTH) && |m| == WORD_LETTERS;
        }
        IndicesOfMask(m);
        InsertedFive(cooked, Indices(m));
      }
    }
    forall p | IsPath(trie, p) && |p| == WORD_LETTERS
      ensures PathMask(p) in cooked
    {
      InsertedFive(cooked, p);
    }
  }

  /** The bits of every inserted mask are an inserted prefix. */
  lemma {:induction false} InsertedOwn(ms: seq<Mask>, k: nat)
    requires k < |ms|
    ensures InsertedPrefix(ms, Indices(ms[k]))
  {
    var q := Indices(ms[k]);
    if k < |ms| - 1 {
      InsertedOwn(ms[..|ms| - 1], k);
      assert ms[..|ms| - 1][k] == ms[k];
    } else {
      assert q[..|q|] == q;
    }
  }

  /** After the insertion loop, inserting any of the cooked masks again
      changes nothing. */
  lemma BuiltTrieReinsert(trie: Trie, cooked: seq<Mask>, k: nat)
    requires forall j | 0 <= j < |cooked| :: Fits(cooked[j], SLOTS)
    requires Valid(trie)
    requires forall p :: IsPath(trie, p) <==> p == [] || InsertedPrefix(cooked, p)
    requires k < |cooked|
    ensures AddWord(trie, cooked[k]) == trie
  {
    InsertedOwn(cooked, k);
    AddWordPresent(trie, cooked[k]);
  }

  /** Following one more full slot extends the path by that slot. */
  lemma {:induction false} FollowSnoc(t: Trie, p: seq<nat>, x: nat)
    requires IsPath(t, p)
    requires x < |Follow(t, p).children| && Follow(t, p).children[x].Some?
    ensures IsPath(t, p + [x]) && Follow(t, p + [x]) == Follow(t, p).children[x].value
    decreases |p|
  {
    if p != [] {
      FollowSnoc(t.children[p[0]].value, p[1..], x);
      assert (p + [x])[1..] == p[1..] + [x];
    }
  }

  /** The slots of a path of a valid trie are letter bits. */
  lemma {:induction false} PathSlots(t: Trie, p: seq<nat>)
    requires Valid(t) && IsPath(t, p)
    ensures forall k | 0 <= k < |p| :: p[k] < SLOTS
    decreases |p|
  {
    if p != [] {
      PathSlots(t.children[p[0]].value, p[1..]);
      assert forall k | 1 <= k < |p| :: p[k] == p[1..][k - 1];
    }
  }

  /** A stored mask has only letter bits. */
  lemma StoredFits(t: Trie, m: Mask)
    requires Valid(t) && Stored(t, m)
    ensures Fits(m, SLOTS)
  {
    PathSlots(t, Indices(m));
    IndicesOfMask(m);
    PathMaskMembers(Indices(m));
  }

  /** The lowest bit of the mask of an increasing path is its first slot. */
  lemma LowestOfPath(p: seq<nat>)
    requires Increasing(p) && p != [] && p[0] < WIDTH
    ensures TrailingZeros(PathMask(p)) == p[0]
  {
    PathMaskMembers(p);
    assert p[0] in PathMask(p);
  }
}
