/** The list of masks the search runs on: every kept word's mask, sorted by
    the number it stands for and with repeats removed (`sort` then `dedup`),
    and the masks a search starts from. */
module Cooking {
  import opened Masks

  /** Every mask of the list is a u32. */
  ghost predicate AllFit(s: seq<Mask>) {
    forall k | 0 <= k < |s| :: Fits(s[k], WIDTH)
  }

  /** Ascending by value, repeats allowed: each mask is at most the next. */
  predicate Sorted(s: seq<Mask>) {
    forall k | 0 < k < |s| :: Value(s[k - 1]) <= Value(s[k])
  }

  /** Strictly ascending by value: each mask is below the next. */
  predicate StrictlyIncreasing(s: seq<Mask>) {
    forall k | 0 < k < |s| :: Value(s[k - 1]) < Value(s[k])
  }

  /** Puts `x` into the sorted list `s` before the first larger mask. */
  function Insert(x: Mask, s: seq<Mask>): (r: seq<Mask>) {
    if s == [] then [x]
    else if Value(x) <= Value(s[0]) then [x] + s
    else [s[0]] + Insert(x, s[1..])
  }

  /** `sort` on a vector of u32, described by its effect: an insertion sort. */
  function Sort(s: seq<Mask>): (r: seq<Mask>) {
    if s == [] then [] else Insert(s[0], Sort(s[1..]))
  }

  /** `dedup`: drops every mask equal to the one just before it. */
  function Dedup(s: seq<Mask>): (r: seq<Mask>) {
    if |s| <= 1 then s
    else
      var d := Dedup(s[..|s| - 1]);
      if s[|s| - 1] == s[|s| - 2] then d else d + [s[|s| - 1]]
  }

  /** `cooked.sort(); cooked.dedup();` */
  function Cook(s: seq<Mask>): (r: seq<Mask>) {
    Dedup(Sort(s))
  }

  /** Insert adds exactly `x`. */
  lemma {:induction false} InsertAdds(x: Mask, s: seq<Mask>)
    ensures multiset(Insert(x, s)) == multiset(s) + multiset{x}
  {
    if s != [] && Value(x) > Value(s[0]) {
      InsertAdds(x, s[1..]);
      assert s == [s[0]] + s[1..];
    }
  }

  /** Inserting into a sorted list keeps it sorted; its head is `x` or the
      old head. */
  lemma {:induction false} InsertSorted(x: Mask, s: seq<Mask>)
    requires Sorted(s)
    ensures Sorted(Insert(x, s))
    ensures Insert(x, s)[0] == if s == [] || Value(x) <= Value(s[0]) then x else s[0]
  {
    if s != [] && Value(x) > Value(s[0]) {
      InsertSorted(x, s[1..]);
    }
  }

  /** Sort gives a sorted permutation of its input. */
  lemma SortSorts(s: seq<Mask>)
    ensures Sorted(Sort(s))
    ensures multiset(Sort(s)) == multiset(s)
  {
    SortSorted(s);
    SortPermutes(s);
  }

  lemma {:induction false} SortSorted(s: seq<Mask>)
    ensures Sorted(Sort(s))
  {
    if s != [] {
      SortSorted(s[1..]);
      InsertSorted(s[0], Sort(s[1..]));
    }
  }

  lemma {:induction false} SortPermutes(s: seq<Mask>)
    ensures multiset(Sort(s)) == multiset(s)
  {
    if s != [] {
      SortPermutes(s[1..]);
      InsertAdds(s[0], Sort(s[1..]));
      assert s == [s[0]] + s[1..];
    }
  }

  /** Sorting a sorted list changes nothing. */
  lemma {:induction false} SortOfSorted(s: seq<Mask>)
    requires Sorted(s)
    ensures Sort(s) == s
  {
    if s != [] {
      SortOfSorted(s[1..]);
      assert s == [s[0]] + s[1..];
    }
  }

  /** Dedup drops only repeats: the same masks remain, and the last mask
      stays last. */
  lemma {:induction false} DedupKeepsMasks(s: seq<Mask>)
    ensures forall x :: x in Dedup(s) <==> x in s
    ensures |s| > 0 ==> |Dedup(s)| > 0 && Dedup(s)[|Dedup(s)| - 1] == s[|s| - 1]
  {
    if |s| > 1 {
      var init := s[..|s| - 1];
      DedupKeepsMasks(init);
      assert s == init + [s[|s| - 1]];
      assert s[|s| - 2] == init[|init| - 1];
    }
  }

  /** On a sorted list of u32 masks, Dedup leaves every mask once, in
      strictly increasing order. */
  lemma {:induction false} DedupStrict(s: seq<Mask>)
    requires Sorted(s) && AllFit(s)
    ensures StrictlyIncreasing(Dedup(s))
  {
    if |s| > 1 {
      var init, last := s[..|s| - 1], s[|s| - 1];
      DedupStrict(init);
      DedupKeepsMasks(init);
      if last != s[|s| - 2] && Value(last) == Value(s[|s| - 2]) {
        ValueInjective(last, s[|s| - 2]);
      }
    }
  }

  /** Strictly increasing means every earlier mask is below every later one,
      so no mask occurs twice. */
  lemma {:induction false} StrictlyIncreasingPairwise(s: seq<Mask>)
    requires StrictlyIncreasing(s)
    ensures forall i, j | 0 <= i < j < |s| :: Value(s[i]) < Value(s[j])
  {
    if |s| > 1 {
      var init := s[..|s| - 1];
      StrictlyIncreasingPairwise(init);
      forall i, j | 0 <= i < j < |s|
        ensures Value(s[i]) < Value(s[j])
      {
        assert s[i] == init[i];
        if j < |s| - 1 {
          assert s[j] == init[j];
        } else if i < |s| - 2 {
          assert Value(init[i]) < Value(init[|s| - 2]);
        }
      }
    }
  }

  /** A strictly increasing list has no repeat for Dedup to drop. */
  lemma {:induction false} DedupOfStrict(s: seq<Mask>)
    requires StrictlyIncreasing(s)
    ensures Dedup(s) == s
  {
    if |s| > 1 {
      var init := s[..|s| - 1];
      DedupOfStrict(init);
      assert Value(s[|s| - 2]) < Value(s[|s| - 1]);
      assert s == init + [s[|s| - 1]];
    }
  }

  /** Sort keeps the u32 masks of its input. */
  lemma SortFits(s: seq<Mask>)
    requires AllFit(s)
    ensures Sorted(Sort(s)) && AllFit(Sort(s))
    ensures forall x :: x in Sort(s) <==> x in s
  {
    SortSorts(s);
    var sorted := Sort(s);
    assert forall x :: x in sorted <==> x in multiset(sorted);
    assert forall x :: x in s <==> x in multiset(s);
    forall k | 0 <= k < |sorted|
      ensures Fits(sorted[k], WIDTH)
    {
      assert sorted[k] in s;
    }
  }

  /** After `sort` and `dedup` the masks are strictly increasing and they
      are exactly the masks of the input. */
  lemma CookProperties(s: seq<Mask>)
    requires AllFit(s)
    ensures StrictlyIncreasing(Cook(s))
    ensures forall x :: x in Cook(s) <==> x in s
  {
    SortFits(s);
    DedupKeepsMasks(Sort(s));
    DedupStrict(Sort(s));
  }

  /** Cooking cooked masks changes nothing. */
  lemma CookIdempotent(s: seq<Mask>)
    requires AllFit(s)
    ensures Cook(Cook(s)) == Cook(s)
  {
    CookProperties(s);
    var c := Cook(s);
    SortOfSorted(c);
    DedupOfStrict(c);
  }

  /** `(word & 3) > 0`: the mask holds Q (bit 0) or J (bit 1). */
  predicate IsStart(m: Mask) {
    0 in m || 1 in m
  }

  /** The masks a search starts from, in cooked order. */
  function Starts(cooked: seq<Mask>): (r: seq<Mask>) {
    if cooked == [] then []
    else
      var rest := Starts(cooked[..|cooked| - 1]);
      var m := cooked[|cooked| - 1];
      if IsStart(m) then rest + [m] else rest
  }

  /** Starts keeps exactly the masks holding bit 0 or bit 1. */
  lemma {:induction false} StartsMembers(cooked: seq<Mask>)
    ensures forall m :: m in Starts(cooked) <==> m in cooked && IsStart(m)
  {
    if cooked != [] {
      var init := cooked[..|cooked| - 1];
      StartsMembers(init);
      assert cooked == init + [cooked[|cooked| - 1]];
    }
  }

  /** Starts keeps the cooked order, so no start mask occurs twice. */
  lemma {:induction false} StartsStrict(cooked: seq<Mask>)
    requires StrictlyIncreasing(cooked)
    ensures StrictlyIncreasing(Starts(cooked))
  {
    if cooked != [] {
      var init, m := cooked[..|cooked| - 1], cooked[|cooked| - 1];
      assert StrictlyIncreasing(init) by {
        forall k | 0 < k < |init|
          ensures Value(init[k - 1]) < Value(init[k])
        {
          assert init[k - 1] == cooked[k - 1] && init[k] == cooked[k];
        }
      }
      StartsStrict(init);
      var rest := Starts(init);
      if IsStart(m) && rest != [] {
        StartsMembers(init);
        assert rest[|rest| - 1] in init;
        var i :| 0 <= i < |init| && init[i] == rest[|rest| - 1];
        StrictlyIncreasingPairwise(cooked);
        assert cooked[i] == init[i];
      }
    }
  }
}
