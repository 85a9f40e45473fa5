# wordlerust in Dafny

This project models wordlerust, a program that looks for five five-letter
words which together use 25 different letters. The program works on `u32`
letter masks:

1. Each lowercase letter owns one bit of a `u32`, and the rare letters get the low bits. Q is bit 0, J bit 1 and E bit 25.
2. Words whose mask does not have exactly five bits are dropped.
3. A lexicon maps each mask to the `/`-joined words that share it.
4. The masks are sorted and deduplicated ("cooked").
5. The cooked masks are inserted into a 26-way bitmask trie.
6. From every cooked mask holding Q or J, a depth-first search runs:
   - it looks for four more stored masks, each disjoint from the letters used so far;
   - each next mask's lowest bit must not lie below that of the previous mask;
   - it gives up early when too few vowels are left;
   - it also stops a scan once two letters below the current bit are left unused.

The modules follow the program's parts:

- `Masks` (masks.dfy): a `u32` mask as the set of its 1-bit positions.
  - `&`, `|`, `!`, `(1 << t) - 1`, `count_ones`, `trailing_zeros` and `leading_zeros` are written out.
  - `Value` is the number a mask stands for. The sort orders masks by it.
- `Encoding` (encoding.dfy): the `ENCODING` table, `VOWELS`, `encodewords` and the five-bit filter.
- `Lexicon` (lexicon.dfy):
  - the lexicon loop;
  - its reference definition `LexiconOf`;
  - reading an entry back with `SplitSlash`;
  - `decodewords`.
- `Cooking` (cooking.dfy): `sort` and `dedup` described by their effect, and the selection of start masks.
- `Tries` (trie.dfy): the trie, `new`, `addchild`, `addword` and the insertion loop.
- `Completion` (completion.dfy): the specification of the search and the facts proved about it.
  - `Completes` says which lists of masks finish a partial stack.
  - `Held`, `Solution` and the prune lemmas state what every such list is.
- `TrieSearch` (search.dfy): `search` and `findword`.
  - `FindWord` is the first level.
  - `Enumerate` stands for the nested loops of levels two to five. It recurses once per level, and `TryChild` is the body of one loop.
  - The stack `words` is passed in and handed back, which models the `&mut Vec` push and pop.
- `Solver` (solver.dfy): the pipeline of `main`, and what every reported line is.

## Model

| member | source | states |
|---|---|---|
| Masks.LowBits | src/main.rs:86-99 | `(1 << t) - 1` holds exactly the positions below `t` |
| Masks.Complement | src/main.rs:82 | `!m` is a mask of width 32 holding exactly the positions below 32 that are not in `m`; `ComplementValue` ties this to the number |
| Masks.ComplementValueBelow | src/main.rs:82 | below any position `n` up to 32, the values of `!m` and `m` add up to `2^n - 1` |
| Masks.ComplementValue | src/main.rs:82 | as a number, `!m` is `u32::MAX - m` |
| Masks.TrailingZeros | src/main.rs:53 | the result is the lowest set bit, or 32 for an empty mask; no bit lies below it |
| Masks.LeadingZeros | src/main.rs:53 | `32 - leading_zeros` is one more than the highest set bit, or 0; no bit lies above it |
| Masks.ScanCoversBits | src/main.rs:53-57 | the range `trailing_zeros..32 - leading_zeros` visits every set bit, and it is empty exactly for the empty mask |
| Masks.LowestBit | src/main.rs:85 | a non-empty mask's `trailing_zeros` is one of its bits and is at most every bit |
| Masks.ValueInjective | src/main.rs:162-163 | distinct masks stand for distinct `u32` numbers, so ordering by value is total |
| Encoding.TableIsPermutation | src/main.rs:14-41 | every letter owns exactly one bit below 26, no bit has two owners, and every bit below 26 has one |
| Encoding.LetterMasksDisjoint | src/main.rs:14-41 | two letters' bits are disjoint exactly when the letters differ |
| Encoding.EncodeWords | src/main.rs:190-198 | the loop ORs the letter bits of the word, giving `WordMask` |
| Encoding.WordMaskCountsLetters | src/main.rs:190-198 | a word's mask has one bit per distinct letter, all below 26 |
| Encoding.KeepIffFiveLetters | src/main.rs:147 | `count_ones() == 5` holds exactly for words with five distinct letters |
| Encoding.FilterWordsMembers | src/main.rs:145-148 | the filter keeps exactly the words with five distinct letters |
| Encoding.VowelsAreAEIOUY | src/main.rs:11-12 | `VOWELS` is the OR of the bits of a, e, i, o, u and y |
| Encoding.VowelCount | src/main.rs:11-12 | `VOWELS` has six bits, all letter bits |
| Encoding.VowelsValue | src/main.rs:12 | the bits of `VOWELS` stand for 56656000 |
| Lexicon.WithMaskMembers | src/main.rs:152-157 | the words gathered for a mask are exactly the words with that mask |
| Lexicon.SplitJoin | src/main.rs:156 | cutting a `/`-join of slash-free words at `/` gives the words back |
| Lexicon.MasksOfMembers | src/main.rs:152-157 | a mask gets an entry exactly when some word has it |
| Lexicon.StepNewMask | src/main.rs:155 | the first word with a mask becomes its entry |
| Lexicon.StepSameMask | src/main.rs:156 | a later word with the same mask is appended after a `/` |
| Lexicon.StepOtherMask | src/main.rs:153-157 | reading a word leaves every other mask's entry as it was |
| Lexicon.LexiconEntriesNameWords | src/main.rs:151-159 | every kept word's mask has an entry; cut at `/`, the entry lists exactly the words with that mask, in input order |
| Lexicon.BuildLexicon | src/main.rs:151-159 | the loop builds `LexiconOf(words)`: the same keys and the same entries |
| Cooking.InsertAdds | src/main.rs:162 | insertion adds exactly one copy of the mask |
| Cooking.InsertSorted | src/main.rs:162 | insertion keeps a list sorted |
| Cooking.SortSorts | src/main.rs:162 | `sort` gives a sorted permutation of its input |
| Cooking.SortOfSorted | src/main.rs:162 | sorting a sorted list changes nothing |
| Cooking.DedupKeepsMasks | src/main.rs:163 | `dedup` keeps every mask and keeps the last one last |
| Cooking.DedupStrict | src/main.rs:162-163 | `dedup` of a sorted list of `u32` masks is strictly increasing |
| Cooking.StrictlyIncreasingPairwise | src/main.rs:162-163 | in a strictly increasing list every earlier mask is below every later one |
| Cooking.DedupOfStrict | src/main.rs:163 | `dedup` of a strictly increasing list changes nothing |
| Cooking.SortFits | src/main.rs:162 | sorting keeps the masks and their width |
| Cooking.CookProperties | src/main.rs:161-163 | the cooked list is strictly increasing and holds exactly the input's masks |
| Cooking.CookIdempotent | src/main.rs:161-163 | cooking cooked masks changes nothing |
| Cooking.StartsMembers | src/main.rs:172 | the starts are exactly the cooked masks with bit 0 or bit 1 |
| Cooking.StartsStrict | src/main.rs:172 | the filter keeps the cooked order, so the starts are strictly increasing too |
| Tries.New | src/main.rs:44-49 | a new node is valid, has no bit set and no path but the empty one |
| Tries.AddChild | src/main.rs:60-68 | a present child is kept; otherwise the slot gets an empty child and its bit; other slots are unchanged |
| Tries.AddWordWalksIndices | src/main.rs:51-58 | the `addword` loop visits exactly the set bits of the word, in increasing order |
| Tries.AddWordPaths | src/main.rs:51-58 | after `addword`, the paths are the old paths plus the prefixes of the word's bits |
| Tries.AddWordOrdered | src/main.rs:51-58 | `addword` keeps every path strictly increasing |
| Tries.AddWordPresent | src/main.rs:51-68 | inserting a mask whose bits already form a path of a valid trie leaves the trie as it was |
| Tries.AddWordIdempotent | src/main.rs:51-68 | inserting a mask a second time changes nothing |
| Tries.IndicesOfMask | src/main.rs:53-57 | the bits of a mask, listed upwards, are increasing and give the mask back |
| Tries.PathStoresMask | src/main.rs:112-121 | an increasing path of five bits stores the mask of those bits |
| Tries.BuildTrie | src/main.rs:167-170 | the built trie is valid and increasing, and its paths are the prefixes of the inserted masks' bits |
| Tries.InsertedFive | src/main.rs:167-170 | a five-slot path is a prefix of an inserted five-bit mask exactly when it spells that mask |
| Tries.BuiltTrieStores | src/main.rs:167-170 | the built trie stores exactly the cooked masks |
| Tries.BuiltTrieReinsert | src/main.rs:167-170 | inserting any cooked mask again into the built trie changes nothing |
| Tries.FollowSnoc | src/main.rs:95-112 | stepping into a present child extends the path by one slot |
| Tries.PathSlots | src/main.rs:95-112 | every slot on a path is below 26 |
| Tries.StoredFits | src/main.rs:112-117 | a stored mask has only letter bits |
| Tries.LowestOfPath | src/main.rs:112-117 | the lowest bit of an increasing path's mask is its first slot |
| Completion.CompletesPrefix | src/main.rs:122-124 | a completion begins with the stack it completes |
| Completion.CompletesStep | src/main.rs:118-124 | a completion of the stack after a push completes the stack before it |
| Completion.HeldOne | src/main.rs:177 | a single start mask is a held stack using its own letters |
| Completion.AboveHeld | src/main.rs:83-87 | an admissible mask is disjoint from every held mask and lies strictly above each of them |
| Completion.HeldPush | src/main.rs:118-123 | pushing an admissible mask keeps the stack held: disjoint masks with strictly increasing lowest bits |
| Completion.HeldPop | src/main.rs:124 | the stack without its top is held |
| Completion.HeldCard | src/main.rs:118-123 | a held stack of `n` masks uses exactly `5n` letters |
| Completion.CompletesHeld | src/main.rs:70-135 | every completion is a held stack of five masks extending the stack with stored masks |
| Completion.CompletesSolution | src/main.rs:70-135 | every completion is five stored masks, pairwise disjoint, with strictly increasing lowest bits, using 25 letters |
| Completion.SameMasksSameOrder | src/main.rs:83-87 | two lists of equal length, each with strictly increasing lowest bits, that hold the same masks are the same list |
| Completion.OneOfTwo | src/main.rs:172 | a mask with 25 of the 26 letter bits has one of any two letter bits |
| Completion.FreeBelowNext | src/main.rs:89-91 | a free letter below the next mask's lowest bit is in no mask of the completion |
| Completion.BudgetPruneSound | src/main.rs:89-91 | once two letters below bit `i` are free, every completion's next mask starts below `i`, so stopping the scan loses nothing |
| Completion.BudgetMonotone | src/main.rs:89-91 | the count of free letters below `i` only grows with `i`, so the stopping condition stays true |
| Completion.SolutionStartsWithQOrJ | src/main.rs:172-177 | the first mask of every solution holds Q or J, so searching only from such masks loses nothing |
| Completion.VowelPruneSound | src/main.rs:71-74 | when every stored mask has a vowel, a completion needs one free vowel per missing mask, so the vowel prune loses nothing |
| TrieSearch.Search | src/main.rs:70-79 | the stack comes back unchanged; every list reported completes it and is printed from the lexicon; no list is reported twice; a full stack is reported alone; too few free vowels report nothing |
| TrieSearch.FindWord | src/main.rs:81-135 | the stack comes back unchanged; every list reported completes it; no list is reported twice |
| TrieSearch.Enumerate | src/main.rs:95-131 | the stack comes back unchanged; every list reported completes it, none twice, and its next mask is reached through the bits chosen so far |
| TrieSearch.TryChild | src/main.rs:97-124 | trying one free child reports only completions, none twice, whose next mask is reached through the path extended by that child; at the fifth level the push is undone |
| TrieSearch.SpellsKey | src/main.rs:95-117 | the lowest bit, above the previous level's bit, of a mask reached through a path is the path's last bit, so different candidates at one level give different masks |
| TrieSearch.AppendBranch | src/main.rs:88-131 | the lists reported for one candidate differ from those of all earlier candidates of the same level |
| TrieSearch.BeforeNext | src/main.rs:88-131 | skipping a bit that is not available keeps the earlier reports below the next candidate |
| TrieSearch.ThroughAppend | src/main.rs:95-131 | lists reached through a longer path are reached through its prefix |
| TrieSearch.PushedThrough | src/main.rs:116-123 | every list reported after pushing a path's mask holds that mask where it was pushed |
| TrieSearch.ExtendPath | src/main.rs:95-112 | stepping into a free child above the last bit gives a longer increasing path of free letter bits |
| TrieSearch.FullPath | src/main.rs:112-121 | the mask of a five-bit path is stored and is admissible next |
| TrieSearch.ReadyPush | src/main.rs:118-123 | pushing a stored mask keeps the search's requirements, among them a lexicon entry for every mask on the stack, which `decodewords` looks up at line 203 |
| TrieSearch.EmittedExtend | src/main.rs:122-124 | lines reported after a push complete the stack before the push |
| TrieSearch.EmittedAppend | src/main.rs:92-131 | reports of successive candidates can be concatenated |
| Solver.CookedMasks | src/main.rs:145-163 | every cooked mask has five letter bits and a lexicon entry |
| Solver.StartReady | src/main.rs:175-177 | a search can start from every cooked mask; every mask it can push has a lexicon entry, so the `unwrap` in `decodewords` (line 203) never fails |
| Solver.OneAnswer | src/main.rs:175-177 | a completion of a stored start mask, printed from the lexicon, is an answer |
| Solver.SearchAnswers | src/main.rs:175-177 | every line reported by a search from a start mask is an answer beginning with that mask |
| Solver.BuiltStoresFive | src/main.rs:167-170 | the built trie stores only five-letter masks, among them every cooked mask |
| Solver.AnswersAppend | src/main.rs:175-177 | lists of answers can be concatenated |
| Solver.StartsDistinct | src/main.rs:161-172 | no start mask occurs twice |
| Solver.StartsAppend | src/main.rs:175-177 | lists from a new start differ from those of earlier starts, since each list begins with its start |
| Solver.ReportedAppend | src/main.rs:175-177 | adding one search's reports keeps every report an answer, none repeated, each beginning with a start already searched |
| Solver.Solve | src/main.rs:138-182 | the lexicon is `LexiconOf` of the kept words; every reported line is an answer: five disjoint masks using 25 letters, the first with Q or J, each printed as its lexicon entry; no list of masks is reported twice |
| Solver.SameMasksSameAnswer | src/main.rs:175-177 | two answers holding the same masks are the same list of masks and the same printed line, so a combination of five words is never reported in two orders |
| Solver.AnswerNamesWords | src/main.rs:200-206 | each entry of a reported line, cut at `/`, lists exactly the kept words with that mask, and at least one |

## Left out

- Reading the two word files, `println!` and the timing calls are not modelled. The input is a parameter of `Solve`. The reported lines are returned, not printed.
- DecodeWords: it returns the entries of a line; the `join(" ")` and the printing are output and are not modelled.
- The `par_iter` over the start masks runs the searches in parallel. The model runs them one after another in start order, so the order of the printed lines is not modelled.
- Input words are assumed to be all lowercase `a`..`z`, a precondition of `Solve`. The source would index outside `ENCODING` on any other character.
- Tries.AddChild and Tries.AddWord: the trie is a value. `addchild` returns the updated node instead of a mutable reference into the boxed tree, so update in place and aliasing are not captured.
- Cooking.Sort: `Vec::sort` and `Vec::dedup` are library calls. They are modelled by their effect (an insertion sort on `Value` and a drop of adjacent repeats), not by the library's algorithm.
- Masks are modelled as sets of bit positions rather than machine words, and the shift by 32 that `(1 << 32) - 1` would need never arises: the last mask on the stack always has a bit.
- TrieSearch.Search: only soundness is proved; every reported list is a solution. That every solution is reported is not proved. The budget and start-mask lemmas show that those two cuts lose nothing. The vowel cut is proved to lose nothing when every stored word has a vowel; otherwise it can skip some solutions that use a vowel-free word.
- TrieSearch.Enumerate: the four nested loops of levels two to five are one method that recurses once per level, with the same bounds and tests at each level; `TryChild` is the body of one such loop.

