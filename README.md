# String-rewriting toolkit, modelled in Dafny

The repository experiments with string-rewriting (semi-Thue) systems over the
alphabet `{a, b}`. A system is a list of rules `lhs -> rhs`. One rewrite step
replaces one occurrence of some `lhs` in a word by its `rhs`, and overlapping
occurrences count separately. Three scripts build on that step:

- `fuzz.py` has two parts:
  - a `RewriteSystem` class that computes the set of words reachable from a
    word (its closure) by breadth-first search, and caches the result per word;
  - an `Experiment` that rewrites random words with a main system and asks a
    checking system about the result.
- `meta.py` runs a metamorphic experiment. It rewrites random words a bounded
  number of times, checks each (word, rewritten word) pair against a list of
  invariants, and tallies the outcomes in a counter.
- `roads.py` searches breadth-first, using every rule in both directions, for a
  shortest derivation from a word to the normal form `"a"`, and records each
  step.

The Dafny project has five modules:

- `Rewriting` (Rewriting.dfy) holds what the scripts share:
  - occurrences of a pattern, the match list and the one-step successor set;
  - the method computing that set as the source does;
  - the two flavours of bounded random run;
  - reachability (`Within`, `Reaches`, `IsClosureOf`) and its lemmas;
  - finiteness of the reachable set for systems that never lengthen a word;
  - random words.
- `Counters` (Counters.dfy) models Python's `collections.Counter` as a
  `map<string, nat>`.
- `Meta` (Meta.dfy) models `meta.py`:
  - the random-steps method;
  - the two invariants, with lemmas about them;
  - the test loop.
- `Fuzz` (Fuzz.dfy) models `fuzz.py`:
  - `RewriteSystem` is a class with a `closureCache` field that `Bfs` updates
    in place. Its class invariant `Valid()` says that every cached set is the
    closure of its key.
  - `Experiment` is a class.
  - The search loop of `_bfs` is the module-level method `Search`, with its
    rounds in `Round` and `AddNew`.
- `Roads` (Roads.dfy) models `roads.py`:
  - the occurrence scan;
  - the bidirectional rule list;
  - paths and their validity;
  - the queue-based search with the level invariant of breadth-first search.

Randomness becomes explicit arguments:
- A draw of `rng.choice(matches)` is a natural number `pick`, and the match
  chosen is `matches[pick % |matches|]`.
- A draw of `rng.choices(alphabet, k=n)` is a sequence of `n` letter indices
  below `|alphabet|`.

The model follows the source except for the differences listed under
"Left out". The main ones: `Bfs` is only called on systems that never lengthen a
word, which guarantees that it terminates; `ReduceWithPath` takes a budget of
dequeues; and where the source iterates over a Python set, the model takes the
elements in an unspecified order.

## Model

| member | source | states |
|---|---|---|
| Rewriting.ApplyRulesOnce | meta.py:11-18 | The result set is exactly the one-step successor set. Every occurrence of every left-hand side, overlapping ones included, contributes its rewrite (completeness). Every result is such a rewrite (soundness). The result is empty iff no left-hand side occurs in the word. |
| Fuzz.RewriteSystem.ApplyRulesOnce | fuzz.py:12-19 | The same code as in meta.py, on the rules of the system. The result is the successor set, and it is empty iff the word is irreducible. |
| Rewriting.Occurrences | fuzz.py:15 | The positions of the lookahead scan: strictly increasing, and `i` is listed iff the pattern occurs at `i`. Empty when the pattern is longer than the word. |
| Rewriting.Matches | meta.py:23-26 | A triple `(i, lhs, rhs)` is in the match list iff `(lhs, rhs)` is a rule and `lhs` occurs at `i`. |
| Rewriting.MatchesAgreeWithSuccessors | meta.py:23-30 | The match list is empty iff the word is irreducible. Applying any match gives a member of the successor set, that is, of `apply_rules_once` of the word. |
| Rewriting.RandWord | meta.py:41-42 | The drawn word has length `word_length`, and each of its letters is a letter of the alphabet. The same code is fuzz.py:56-57. |
| Meta.ApplyRandomSteps | meta.py:20-31 | The loop computes `RunStopping`: one rewrite per pick at the picked match, stopping at the first word without matches. |
| Rewriting.RunStoppingDerives | meta.py:22-30 | A run of `steps` picks either makes exactly `steps` rewrites or makes fewer and ends at a word no rule applies to. Each rewrite goes to a one-step successor of the previous word. |
| Rewriting.RunStopping | meta.py:22-30 | The run of `apply_random_steps`: a word no rule applies to is returned unchanged, whatever the picks. Its other properties are the lemmas `RunStoppingDerives`, `RunStoppingReaches` and `LengthGrowth`. |
| Rewriting.RunSkipping | fuzz.py:60-68 | The run of `apply_rand_rules`: a word no rule applies to is returned unchanged, whatever the picks. It equals `RunStopping` by `SkippingIsStopping`. |
| Rewriting.RunStoppingReaches | meta.py:20-31 | The word a run returns is reachable from the word it started from. |
| Rewriting.LengthGrowth | meta.py:29-30 | When no rule grows a word by more than `g` letters, `n` rewrite steps add at most `n * g` letters. |
| Meta.RandomStepsKeepLengthLimit | meta.py:77-78 | Under that bound, a run of `steps` picks from a word of at least `steps * g` letters satisfies `len(curr) <= len(prev) * 2`. |
| Meta.LengthGrowthLimited | meta.py:77-78 | A rewritten word no longer than the original always passes, and from the empty word only the empty word passes. |
| Meta.WindowHits | meta.py:81-84 | The count of windows equal to `'ab'` or `'ba'` is at most the number of windows counted. |
| Meta.WindowHitsZero | meta.py:81-84 | No window of length 3 or 4 equals `'ab'` or `'ba'`, so each count is 0. |
| Meta.BlockCount | meta.py:81-84 | The block count of every word is 0, since no window of length 3 or 4 equals a two-letter word. |
| Meta.AbBaBlocks | meta.py:80-85 | `invariant_ab_ba_blocks` holds of every pair of words. |
| Meta.Successes | meta.py:47-56 | The number of passing draws is at most the number of draws, and equals it when the invariant list is empty. |
| Meta.RunMetamorphicTests | meta.py:44-57 | `total` equals `n_tests`. `success` is the number of draws whose pair satisfies every invariant. `success + failure` equals `n_tests`. With no invariants every test is a success and `failure` is 0. No other key is written. |
| Counters.Bump | meta.py:55-56 | `counter[key] += 1`: the key's count goes up by one, with a missing key counted as 0, and every other count is unchanged. |
| Fuzz.Search | fuzz.py:24-36 | If the search stops at a target word, the target is non-empty and holds a word other than the start that is reachable from it. If it runs to the end, the seen set is the closure of the start, and no word of it other than the start is in the target. |
| Fuzz.Round | fuzz.py:27-34 | One round over the frontier adds exactly the successors of the frontier to `seen`. The new frontier holds exactly the newly seen words. Stopping early happens only at an unseen target word that is a successor of the frontier. |
| Fuzz.AddNew | fuzz.py:29-34 | The innermost loop marks every successor as seen. It queues exactly the successors not seen before, or it stops at an unseen word of the target. |
| Fuzz.RoundDone | fuzz.py:26-35 | After round `k` the seen set is the set of words within `k + 1` steps, and the new frontier is exactly the next layer. A non-empty new frontier strictly shrinks the finite set of words not yet seen. |
| Fuzz.SearchDone | fuzz.py:26-38 | When a round finds nothing new, the seen set is the closure: it contains the start, is closed under one step and holds only reachable words. |
| Fuzz.RewriteSystem.Bfs | fuzz.py:21-39 | The cache invariant is kept. With no target, the closure is returned: from the cache if present, and then cached. A non-empty target always yields `Yes`, whether or not it was reached, and the cache is not written. An empty target yields the closure. |
| Fuzz.RewriteSystem.Closure | fuzz.py:41-42 | Returns the closure of the start and caches it. A second call returns the cached set. |
| Fuzz.RewriteSystem.IsReach | fuzz.py:44-45 | A non-empty target gives `Yes`, and an empty target gives the closure. A given target leaves the cache unchanged. |
| Rewriting.ClosureIsReachableSet | fuzz.py:24-38 | A closure holds exactly the words reachable from its start. |
| Rewriting.ClosureUnique | fuzz.py:22-23 | Any two closures of a word are equal, so a cached set is the only possible answer. |
| Rewriting.WithinUniverse | fuzz.py:26-35 | Under rules that never lengthen a word, every reachable word lies in one finite set of words over the letters of the start and the right-hand sides. This is what bounds the search. |
| Fuzz.SystemsShape | fuzz.py:93-112 | The checking system T1 never lengthens a word, and the main system T does, through `bab -> baaaab`. |
| Fuzz.Experiment.ApplyRandRules | fuzz.py:59-69 | The loop computes `RunSkipping`: `steps` iterations with at most one rewrite each, and an iteration without matches leaves the word unchanged and continues. |
| Rewriting.SkippingIsStopping | fuzz.py:65-66 | Skipping an iteration without matches gives the same word as stopping there, since the word no longer changes. |
| Fuzz.Experiment.GenerateTest | fuzz.py:73-81 | One test: the drawn word, its rewritten form (`RunSkipping`) and an `equivalent` that is always `Yes`. The checking system's cache gains exactly the entry for the shorter of the two words (the drawn word on a tie), every earlier entry is kept, and every entry is the closure of its key. |
| Fuzz.Experiment.GenerateTests | fuzz.py:71-81 | Exactly `n_tests` tests. Each holds the drawn word and its rewritten form, and its `equivalent` is always `Yes`, because the closure passed as the target holds the word and so is non-empty. The cache gains exactly the entries for the words the tests ask about, keeps every earlier entry, and maps every key to its closure. |
| Fuzz.Experiment.RunTestsSummary | fuzz.py:83-91 | `total` and `success` both equal `n_tests`, and `failure` is never written. The cache grows as for `generate_tests` on the same draws. |
| Fuzz.Truthy | fuzz.py:90 | The only falsy answer is the empty set of words. |
| Roads.RulesAreMainSystem | roads.py:3-15 | The search's rule list is the main system `T` of fuzz.py in another order. |
| Roads.RulesLengthen | roads.py:3-15 | Used in both directions, the rules lengthen words (`ab -> aaaa`), so the set of words the search can visit is not bounded by the start's length. |
| Roads.FindAllSubstringIndices | roads.py:17-24 | The scan returns exactly `Occurrences`: strictly increasing indices, `i` listed iff `sub` occurs at `i` (overlapping occurrences included), and none when `sub` is longer than the word. |
| Roads.Bidirectional | roads.py:43-49 | The rules tried by the search, each followed by its reverse: a rule is tried iff it or its reverse is in the list. |
| Roads.ReplaceUndone | roads.py:44-49 | Rewriting `lhs` to `rhs` at an occurrence leaves `rhs` there, and rewriting it back restores the original word. |
| Roads.StepReversible | roads.py:43-49 | With every rule usable in both directions, every rewrite step can be undone by one step. |
| Roads.EnqueueRewrites | roads.py:44-49 | Each pass of the inner loops queues exactly the rewrites of the word by one rule direction. Each queued path is the current path extended by that move. |
| Roads.Expand | roads.py:43-49 | Expanding a word queues exactly its one-step successors under the bidirectional rules, each with its path extended by a valid move. Entries already in the queue are kept in front. |
| Roads.LeadsWithin | roads.py:46-49 | A recorded path of `n` moves ends at a word reachable in `n` steps. |
| Roads.LeadsFrom | roads.py:46 | A non-empty recorded path starts at the word it leads from. |
| Roads.SearchInvBump | roads.py:29-37 | Once the queue front is one level deeper, every word within the previous level has been dequeued. |
| Roads.SearchInvPopNew | roads.py:34-49 | Dequeuing and expanding a new word keeps the breadth-first invariant: queued paths are valid, of the current length or one more, and ordered by length; the words within the current level are covered; and the rewrites of every dequeued word are queued. |
| Roads.SearchInvPopSeen | roads.py:34-36 | Dropping a dequeued word that was already seen keeps the breadth-first invariant. |
| Roads.FoundIsShortest | roads.py:39-41 | When the normal form is dequeued at level `k` and has not been seen, it is not reachable in fewer than `k` steps. |
| Roads.ClosedPath | roads.py:39-41 | The path of the dequeued normal form, closed with `Normal("a")`, starts at the start word, leads to `"a"` by valid moves and is as short as any derivation. |
| Roads.VisitFront | roads.py:34-49 | One pass of the loop. A seen word is dropped and nothing else changes. An unseen `"a"` ends the search with its path closed by `Normal("a")`, which is a shortest derivation. Any other unseen word is marked seen and its rewrites are queued. Whenever the search goes on, the breadth-first invariant is kept. |
| Roads.ExhaustedUnreachable | roads.py:33-50 | When the queue runs empty, `"a"` is not reachable from the start. |
| Roads.ExhaustedClosure | roads.py:33-50 | When the queue runs empty, the words dequeued are exactly the words reachable from the start. |
| Roads.ExpansionsSnoc | roads.py:34-37 | Recording a newly seen, reachable word keeps the record of expansions: each seen word listed once, and only reachable words. |
| Roads.ReduceWithPath | roads.py:26-50 | A returned path starts at the start word, ends with the entry `Normal("a")`, and its moves are a valid bidirectional derivation of minimum length. `NoPath` means `"a"` is unreachable. The start word `"a"` gives `[Normal("a")]`. The words expanded are exactly the words marked seen, each expanded once, each reachable from the start, and at most `fuel` of them. On `NoPath` they are exactly the words reachable from the start. |

## Left out

- Regular expressions: the lookahead `re.finditer` scan is modelled by its meaning, the list of all occurrence positions (`Rewriting.Occurrences`), not by regex semantics.
- `random.SystemRandom`: each random choice is an explicit argument. A pick selects `matches[pick % |matches|]`, and letter indices must be below the alphabet size. An empty alphabet with a positive word length, where the source raises an error, is excluded by that precondition.
- Alphabet entries are single characters. The source allows strings of any length, which `"".join` concatenates.
- Printing, the Russian-language reports and the module-level demo scripts (configuration and I/O).
- Python's dynamic typing and the constructor defaults (`alphabet or []`, `name="SRS"`, `invariants or []`): the model takes explicit arguments.
- Fuzz.RewriteSystem.Bfs: requires a system that never lengthens a word (`NonIncreasing`), because with a lengthening rule such as `bab -> baaaab` the source's loop need not terminate. The checking system T1, the only system the source searches with, meets it.
- Fuzz.RewriteSystem.Closure: same requirement as `Bfs`.
- Fuzz.AddNew: takes the successors in an unspecified order. The source iterates a Python set, whose order depends on string hashing, so the order of the new frontier is not modelled; its contents are.
- Fuzz.RewriteSystem.IsReach: same requirement as `Bfs`.
- Fuzz.Experiment.GenerateTests: same requirement as `Bfs`, for the checking system. The source's generator is modelled as a method returning the list of tests.
- Roads.ReduceWithPath: takes a budget `fuel` of dequeues and answers `OutOfFuel` when it runs out. The source has no budget, and with its lengthening rules it may run forever on a word that cannot reach `"a"`. Each recorded step holds the rule's two sides instead of the formatted `"lhs → rhs"` text. The contract does not say when `OutOfFuel` is returned: it does not promise that some budget suffices when `"a"` is reachable.
- Meta.RandomStepsKeepLengthLimit: proves the length invariant only for words of at least `steps * g` letters. The source's configuration (20 letters, 8 steps, and `g = 3` from `bab -> baaaab`) falls outside that premise. The model does not decide whether the invariant can fail there.
- Meta.RunMetamorphicTests: the invariants are total functions on word pairs. The report of a failing invariant's name is printing and is not modelled.
