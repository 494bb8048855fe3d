/** The closure experiment: a rewriting system that computes, with a cache, the
    set of words reachable from a word by breadth-first search; and an experiment
    that rewrites random words with one system and asks a second system whether
    the result is reachable. */
module Fuzz {
  import opened Rewriting
  import opened Counters

  /** What the search returns: Python's `True`, or the set of words it has seen. */
  datatype Answer = Yes | Seen(words: set<Word>)

  /** Python truthiness of an answer. */
  predicate Truthy(a: Answer): (t: bool)
    ensures !t <==> a == Seen({})
  {
    a.Yes? || a.words != {}
  }

  ghost function Elems(s: seq<Word>): set<Word> {
    set x | x in s
  }

  lemma ElemsSnoc(s: seq<Word>, x: Word)
    ensures Elems(s + [x]) == Elems(s) + {x}
  {
  }

  class RewriteSystem {
    const rules: seq<Rule>
    const alphabet: seq<char>
    const name: string
    var closureCache: map<Word, set<Word>>

    /** Every cached set is the closure of its key. */
    ghost predicate Valid()
      reads this
    {
      forall s :: s in closureCache ==> IsClosureOf(rules, s, closureCache[s])
    }

    constructor (rules: seq<Rule>, alphabet: seq<char>, name: string)
      ensures Valid()
      ensures this.rules == rules && this.alphabet == alphabet && this.name == name
      ensures closureCache == map[]
    {
      this.rules := rules;
      this.alphabet := alphabet;
      this.name := name;
      closureCache := map[];
    }

    method ApplyRulesOnce(w: Word) returns (results: set<Word>)
      ensures results == Successors(rules, w)
      ensures results == {} <==> Irreducible(rules, w)
    {
      results := Rewriting.ApplyRulesOnce(rules, w);
    }

    /** The search of the source's `_bfs`. Without a target the closure is
        computed (or taken from the cache) and cached. With a target the search
        may stop early, but a non-empty target yields `Yes` whether or not it was
        reached, and an empty one yields the closure; neither is cached.
        Termination needs a system that never lengthens a word. */
    method Bfs(start: Word, target: Option<set<Word>>) returns (r: Answer)
      requires Valid() && NonIncreasing(rules)
      modifies this
      ensures Valid()
      ensures target.Some? && target.value != {} ==> r == Yes
      ensures !(target.Some? && target.value != {}) ==> r.Seen? && IsClosureOf(rules, start, r.words)
      ensures target.None? && start in old(closureCache) ==> r == Seen(old(closureCache)[start])
      ensures target.None? ==> r.Seen? && closureCache == old(closureCache)[start := r.words]
      ensures target.Some? ==> closureCache == old(closureCache)
    {
      if target.None? && start in closureCache {
        return Seen(closureCache[start]);
      }
      var found, seen := Search(rules, start, if target.Some? then target.value else {});
      if found {
        return Yes;
      }
      if target.None? {
        closureCache := closureCache[start := seen];
      }
      if target.Some? && target.value != {} {
        return Yes;
      }
      return Seen(seen);
    }

    method Closure(start: Word) returns (c: set<Word>)
      requires Valid() && NonIncreasing(rules)
      modifies this
      ensures Valid()
      ensures IsClosureOf(rules, start, c)
      ensures start in old(closureCache) ==> c == old(closureCache)[start]
      ensures closureCache == old(closureCache)[start := c]
    {
      var a := Bfs(start, None);
      c := a.words;
    }

    method IsReach(start: Word, target: Option<set<Word>>) returns (a: Answer)
      requires Valid() && NonIncreasing(rules)
      modifies this
      ensures Valid()
      ensures target.Some? && target.value != {} ==> a == Yes
      ensures !(target.Some? && target.value != {}) ==> a.Seen? && IsClosureOf(rules, start, a.words)
      ensures target.None? ==> a.Seen? && closureCache == old(closureCache)[start := a.words]
      ensures target.Some? ==> closureCache == old(closureCache)
    {
      a := Bfs(start, target);
    }
  }

  /** Breadth-first search from `start`, round by round, over a system that
      never lengthens a word. A non-empty `target` stops the search at the first
      newly found word that belongs to it; the start word is never compared with
      the target. Otherwise the search runs until a round finds nothing new. */
  method Search(rules: seq<Rule>, start: Word, target: set<Word>) returns (found: bool, seen: set<Word>)
    requires NonIncreasing(rules)
    ensures found ==> target != {} && exists v :: v in target && v != start && Reaches(rules, start, v)
    ensures !found ==> IsClosureOf(rules, start, seen)
    ensures !found ==> Avoids(seen, start, target)
  {
    seen := {start};
    var frontier := [start];
    ghost var k := 0;
    SearchStart(rules, start);
    while frontier != []
      invariant seen == Within(rules, start, k)
      invariant Elems(frontier) == Layer(rules, start, k)
      invariant seen <= Universe(Letters(rules, start), |start|)
      invariant start in seen
      invariant Avoids(seen, start, target)
      decreases |Universe(Letters(rules, start), |start|) - seen|, |frontier|
    {
      ghost var seen0 := seen;
      var hit, newFrontier;
      ghost var v;
      hit, seen, newFrontier, v := Round(rules, start, target, frontier, seen);
      if hit {
        FoundIsReachable(rules, start, k, frontier, target, seen0, v);
        return true, seen;
      }
      RoundDone(rules, start, k, seen0, seen, frontier, newFrontier);
      frontier := newFrontier;
      k := k + 1;
    }
    ElemsOfEmpty(frontier);
    SearchDone(rules, start, k);
    found := false;
  }

  /** No word of `seen` other than `start` is in `target`. */
  ghost predicate Avoids(seen: set<Word>, start: Word, target: set<Word>) {
    forall v :: v in seen && v != start ==> v !in target
  }

  lemma SearchStart(rules: seq<Rule>, start: Word)
    requires NonIncreasing(rules)
    ensures Within(rules, start, 0) == {start} && Layer(rules, start, 0) == {start}
    ensures Elems([start]) == {start}
    ensures {start} <= Universe(Letters(rules, start), |start|)
  {
    WithinUniverse(rules, start, 0);
    assert [start][0] == start;
  }

  /** One round of the search: the successors of every word of `frontier`, in
      order, are passed to `AddNew`; the round ends early when a target word is
      found. */
  method Round(rules: seq<Rule>, start: Word, target: set<Word>, frontier: seq<Word>, seen0: set<Word>)
    returns (found: bool, seen: set<Word>, newFrontier: seq<Word>, ghost reached: Word)
    requires start in seen0
    requires Avoids(seen0, start, target)
    ensures found ==> target != {} && reached in target && reached !in seen0 && reached in Image(rules, Elems(frontier))
    ensures !found ==> seen == seen0 + Image(rules, Elems(frontier))
    ensures !found ==> Elems(newFrontier) == seen - seen0
    ensures !found ==> Avoids(seen, start, target)
  {
    seen := seen0;
    newFrontier := [];
    var fi := 0;
    while fi < |frontier|
      invariant 0 <= fi <= |frontier|
      invariant seen0 <= seen
      invariant seen == seen0 + Image(rules, Elems(frontier[..fi]))
      invariant Elems(newFrontier) == seen - seen0
      invariant Avoids(seen, start, target)
    {
      var successors := Rewriting.ApplyRulesOnce(rules, frontier[fi]);
      ghost var seen1, queued1 := seen, Elems(newFrontier);
      var hit;
      hit, seen, newFrontier := AddNew(successors, seen, newFrontier, start, target);
      FrontierStep(rules, frontier, fi);
      ImageMonotone(rules, Elems(frontier[..fi + 1]), Elems(frontier));
      if hit.Some? {
        return true, seen, newFrontier, hit.value;
      }
      Accumulate(seen0, seen1, Image(rules, Elems(frontier[..fi])), successors, queued1, Elems(newFrontier));
      fi := fi + 1;
    }
    assert frontier[..|frontier|] == frontier;
    found, reached := false, start;
  }

  /** One pass of the innermost loop of the search: each word of `todo` not
      yet seen is marked seen and queued, unless it belongs to `target`, which
      ends the pass with that word. */
  method AddNew(todo: set<Word>, seen0: set<Word>, queue0: seq<Word>, start: Word, target: set<Word>)
    returns (hit: Option<Word>, seen: set<Word>, queue: seq<Word>)
    requires Avoids(seen0, start, target)
    ensures hit.Some? ==> hit.value in todo && hit.value in target && hit.value !in seen0
    ensures hit.None? ==> seen == seen0 + todo
    ensures hit.None? ==> Elems(queue) == Elems(queue0) + (todo - seen0)
    ensures hit.None? ==> Avoids(seen, start, target)
  {
    seen, queue := seen0, queue0;
    ghost var queued := Elems(queue0);
    var rest := todo;
    while rest != {}
      invariant rest <= todo
      invariant seen == seen0 + (todo - rest)
      invariant Elems(queue) == queued
      invariant queued == Elems(queue0) + (seen - seen0)
      invariant Avoids(seen, start, target)
      decreases |rest|
    {
      var nw :| nw in rest;
      AddStep(seen0, todo, rest, seen, queued, Elems(queue0), nw);
      rest := rest - {nw};
      if nw !in seen {
        if target != {} && nw in target {
          return Some(nw), seen, queue;
        }
        ElemsSnoc(queue, nw);
        seen := seen + {nw};
        queue := queue + [nw];
        queued := queued + {nw};
      }
    }
    hit := None;
  }

  lemma Accumulate(seen0: set<Word>, seen: set<Word>, done: set<Word>, succ: set<Word>,
                   queued: set<Word>, queued': set<Word>)
    requires seen0 <= seen && seen == seen0 + done && queued == seen - seen0
    requires queued' == queued + (succ - seen)
    ensures seen + succ == seen0 + (done + succ)
    ensures queued' == (seen + succ) - seen0
  {
  }

  /** A word found in a round of the search is reachable from its start. */
  lemma AddStep(seen0: set<Word>, todo: set<Word>, rest: set<Word>, seen: set<Word>,
                queued: set<Word>, queued0: set<Word>, x: Word)
    requires rest <= todo && x in rest
    requires seen == seen0 + (todo - rest) && queued == queued0 + (seen - seen0)
    ensures x in seen ==> seen == seen0 + (todo - (rest - {x}))
    ensures x !in seen ==> seen + {x} == seen0 + (todo - (rest - {x}))
    ensures x !in seen ==> queued + {x} == queued0 + ((seen + {x}) - seen0)
  {
  }

  lemma FoundIsReachable(rules: seq<Rule>, start: Word, k: nat, frontier: seq<Word>,
                         target: set<Word>, seen: set<Word>, v: Word)
    requires Elems(frontier) == Layer(rules, start, k)
    requires start in seen && v in target && v !in seen && v in Image(rules, Elems(frontier))
    ensures exists v :: v in target && v != start && Reaches(rules, start, v)
  {
    ImageMonotone(rules, Layer(rules, start, k), Within(rules, start, k));
    assert v in Within(rules, start, k + 1);
  }

  lemma ImageMonotone(rules: seq<Rule>, a: set<Word>, b: set<Word>)
    requires a <= b
    ensures Image(rules, a) <= Image(rules, b)
  {
  }

  /** After expanding the whole layer of round `k`, the words seen are those of
      round `k + 1`, the new frontier is its layer, and the search has either
      grown inside the finite universe or found nothing new. */
  lemma RoundDone(rules: seq<Rule>, start: Word, k: nat, seen0: set<Word>, seen: set<Word>,
                  frontier: seq<Word>, newFrontier: seq<Word>)
    requires NonIncreasing(rules)
    requires seen0 == Within(rules, start, k) && Elems(frontier) == Layer(rules, start, k)
    requires seen == seen0 + Image(rules, Elems(frontier)) && Elems(newFrontier) == seen - seen0
    ensures seen == Within(rules, start, k + 1) && Elems(newFrontier) == Layer(rules, start, k + 1)
    ensures seen <= Universe(Letters(rules, start), |start|)
    ensures newFrontier == [] ==> seen == seen0
    ensures newFrontier != [] ==>
      |Universe(Letters(rules, start), |start|) - seen| < |Universe(Letters(rules, start), |start|) - seen0|
  {
    WithinByLayer(rules, start, k);
    WithinMonotone(rules, start, k, k + 1);
    WithinUniverse(rules, start, k + 1);
    if newFrontier != [] {
      assert newFrontier[0] in Elems(newFrontier);
      ShrinkingRest(Universe(Letters(rules, start), |start|), seen0, seen, newFrontier[0]);
    } else {
      ElemsOfEmpty(newFrontier);
      assert seen - seen0 == {};
    }
  }

  lemma ElemsOfEmpty(s: seq<Word>)
    requires s == []
    ensures Elems(s) == {}
  {
  }

  /** An empty layer means the words seen so far are the closure. */
  lemma SearchDone(rules: seq<Rule>, start: Word, k: nat)
    requires Layer(rules, start, k) == {}
    ensures IsClosureOf(rules, start, Within(rules, start, k))
  {
    LayerZero(rules, start);
    LayerEmpty(rules, start, k);
    FixpointNext(rules, start, k);
    FixpointIsClosure(rules, start, k);
  }

  lemma LayerZero(rules: seq<Rule>, start: Word)
    ensures Layer(rules, start, 0) != {}
  {
    assert start in Layer(rules, start, 0);
  }

  lemma LayerEmpty(rules: seq<Rule>, start: Word, k: nat)
    requires k > 0 && Layer(rules, start, k) == {}
    ensures Within(rules, start, k) == Within(rules, start, k - 1)
  {
    WithinMonotone(rules, start, k - 1, k);
    NothingNew(Within(rules, start, k - 1), Within(rules, start, k));
  }

  lemma NothingNew(a: set<Word>, b: set<Word>)
    requires a <= b && b - a == {}
    ensures a == b
  {
    forall x | x in b ensures x in a {
      assert x !in b - a;
    }
  }

  lemma FixpointNext(rules: seq<Rule>, start: Word, k: nat)
    requires k > 0 && Within(rules, start, k) == Within(rules, start, k - 1)
    ensures Within(rules, start, k + 1) == Within(rules, start, k)
  {
  }

  lemma FrontierStep(rules: seq<Rule>, frontier: seq<Word>, fi: nat)
    requires fi < |frontier|
    ensures Image(rules, Elems(frontier[..fi + 1])) ==
      Image(rules, Elems(frontier[..fi])) + Successors(rules, frontier[fi])
  {
    assert Elems(frontier[..fi + 1]) == Elems(frontier[..fi]) + {frontier[fi]};
    ImageUnion(rules, Elems(frontier[..fi]), {frontier[fi]});
    ImageSingleton(rules, frontier[fi]);
  }

  lemma ShrinkingRest(u: set<Word>, a: set<Word>, b: set<Word>, x: Word)
    requires a <= b <= u && x in b && x !in a
    ensures |u - b| < |u - a|
  {
    assert (u - a) == (u - b) + {x} + ((b - a) - {x});
    assert |u - a| >= |(u - b) + {x}|;
  }

  // ---------------------------------------------------------------------------
  // The experiment

  /** One generated test: a word, its rewritten form and the reachability answer. */
  datatype Test = Test(word: Word, rewritten: Word, equivalent: Answer)

  /** The word a test asks the checking system about: the shorter of the word and
      its rewritten form, the word itself on a tie. */
  function Asked(t: Test): Word {
    if |t.word| <= |t.rewritten| then t.word else t.rewritten
  }

  /** The words a list of tests asks about. */
  function AskedAll(tests: seq<Test>): set<Word> {
    if tests == [] then {} else AskedAll(tests[..|tests| - 1]) + {Asked(tests[|tests| - 1])}
  }

  /** `after` is `before` with entries for the words of `added` and every entry
      of `before` kept. */
  ghost predicate CacheGrows(before: map<Word, set<Word>>, after: map<Word, set<Word>>, added: set<Word>) {
    after.Keys == before.Keys + added &&
    forall s :: s in before ==> after[s] == before[s]
  }

  lemma CacheGrowsTrans(c0: map<Word, set<Word>>, c1: map<Word, set<Word>>, c2: map<Word, set<Word>>,
                        a1: set<Word>, a2: set<Word>)
    requires CacheGrows(c0, c1, a1) && CacheGrows(c1, c2, a2)
    ensures CacheGrows(c0, c2, a1 + a2)
  {
  }

  class Experiment {
    const systemMain: RewriteSystem
    const systemCheck: RewriteSystem
    const alphabet: seq<char>
    const wordLength: nat
    const steps: nat

    constructor (systemMain: RewriteSystem, systemCheck: RewriteSystem, alphabet: seq<char>, wordLength: nat, steps: nat)
      ensures this.systemMain == systemMain && this.systemCheck == systemCheck
      ensures this.alphabet == alphabet && this.wordLength == wordLength && this.steps == steps
    {
      this.systemMain := systemMain;
      this.systemCheck := systemCheck;
      this.alphabet := alphabet;
      this.wordLength := wordLength;
      this.steps := steps;
    }

    /** `steps` iterations, each rewriting at the match chosen by the next pick;
        an iteration without matches leaves the word as it is. */
    method ApplyRandRules(w: Word, picks: seq<nat>) returns (r: Word)
      requires |picks| == steps
      ensures r == RunSkipping(systemMain.rules, w, picks)
    {
      var word := w;
      var k := 0;
      while k < steps
        invariant 0 <= k <= steps
        invariant RunSkipping(systemMain.rules, word, picks[k..]) == RunSkipping(systemMain.rules, w, picks)
      {
        var matches := Matches(systemMain.rules, word);
        assert picks[k..][1..] == picks[k + 1..];
        if matches != [] {
          var m := matches[picks[k] % |matches|];
          word := Apply(word, m);
        }
        k := k + 1;
      }
      r := word;
    }

    /** The test a draw describes: the drawn word, its rewritten form, and the
        answer `Yes`. */
    function TestOf(d: Draw): Test
      requires Fits(alphabet, wordLength, steps, d)
      reads {}
    {
      var word := RandWord(alphabet, wordLength, d.letters);
      Test(word, RunSkipping(systemMain.rules, word, d.picks), Yes)
    }

    predicate Generated(d: Draw, test: Test)
      reads {}
    {
      Fits(alphabet, wordLength, steps, d) && test == TestOf(d)
    }

    /** One test: the checking system is asked whether the shorter-or-equal of
        the two words reaches a word of its own closure; that closure is cached
        and nothing else in the cache changes. */
    method GenerateTest(d: Draw) returns (test: Test)
      requires systemCheck.Valid() && NonIncreasing(systemCheck.rules) && Fits(alphabet, wordLength, steps, d)
      modifies systemCheck
      ensures systemCheck.Valid()
      ensures Generated(d, test)
      ensures CacheGrows(old(systemCheck.closureCache), systemCheck.closureCache, {Asked(test)})
    {
      var word := RandWord(alphabet, wordLength, d.letters);
      var rewritten := ApplyRandRules(word, d.picks);
      var equivalent;
      if |word| <= |rewritten| {
        var c := systemCheck.Closure(word);
        equivalent := systemCheck.IsReach(word, Some(c));
      } else {
        var c := systemCheck.Closure(rewritten);
        equivalent := systemCheck.IsReach(rewritten, Some(c));
      }
      test := Test(word, rewritten, equivalent);
    }

    /** `nTests` tests. Each asks the checking system whether the shorter-or-equal
        of the two words reaches a word of its own closure, which always holds.
        The cache gains the closures of the words asked about and keeps the rest. */
    method GenerateTests(nTests: nat, draws: seq<Draw>) returns (tests: seq<Test>)
      requires systemCheck.Valid() && NonIncreasing(systemCheck.rules)
      requires |draws| == nTests && forall k :: 0 <= k < |draws| ==> Fits(alphabet, wordLength, steps, draws[k])
      modifies systemCheck
      ensures systemCheck.Valid()
      ensures |tests| == nTests
      ensures forall k :: 0 <= k < nTests ==> Generated(draws[k], tests[k])
      ensures CacheGrows(old(systemCheck.closureCache), systemCheck.closureCache, AskedAll(tests))
    {
      tests := [];
      ghost var cache0 := systemCheck.closureCache;
      var t := 0;
      while t < nTests
        invariant 0 <= t <= nTests && |tests| == t
        invariant systemCheck.Valid()
        invariant forall k :: 0 <= k < t ==> Generated(draws[k], tests[k])
        invariant CacheGrows(cache0, systemCheck.closureCache, AskedAll(tests))
      {
        ghost var cache1 := systemCheck.closureCache;
        var test := GenerateTest(draws[t]);
        GeneratedSnoc(draws, tests, test);
        AskedSnoc(tests, test, cache0, cache1, systemCheck.closureCache);
        tests := tests + [test];
        t := t + 1;
      }
    }

    /** Appending a test generated from the next draw keeps every test generated
        from its draw. */
    lemma GeneratedSnoc(draws: seq<Draw>, tests: seq<Test>, test: Test)
      requires |tests| < |draws|
      requires forall k :: 0 <= k < |tests| ==> Generated(draws[k], tests[k])
      requires Generated(draws[|tests|], test)
      ensures forall k :: 0 <= k < |tests| + 1 ==> Generated(draws[k], (tests + [test])[k])
    {
    }

    /** After the question of one more test, the cache has grown by the words of
        all the tests so far. */
    lemma AskedSnoc(tests: seq<Test>, test: Test,
                    c0: map<Word, set<Word>>, c1: map<Word, set<Word>>, c2: map<Word, set<Word>>)
      requires CacheGrows(c0, c1, AskedAll(tests)) && CacheGrows(c1, c2, {Asked(test)})
      ensures CacheGrows(c0, c2, AskedAll(tests + [test]))
    {
      assert (tests + [test])[..|tests|] == tests;
      CacheGrowsTrans(c0, c1, c2, AskedAll(tests), {Asked(test)});
    }

    /** Tallies the generated tests: every one of them counts as a success. */
    method RunTestsSummary(nTests: nat, draws: seq<Draw>) returns (counter: Counter)
      requires systemCheck.Valid() && NonIncreasing(systemCheck.rules)
      requires |draws| == nTests && forall k :: 0 <= k < |draws| ==> Fits(alphabet, wordLength, steps, draws[k])
      modifies systemCheck
      ensures systemCheck.Valid()
      ensures exists tests: seq<Test> ::
        |tests| == nTests && (forall k :: 0 <= k < nTests ==> Generated(draws[k], tests[k])) &&
        CacheGrows(old(systemCheck.closureCache), systemCheck.closureCache, AskedAll(tests))
      ensures Tally(counter, "total") == nTests
      ensures Tally(counter, "success") == nTests
      ensures "failure" !in counter
    {
      var tests := GenerateTests(nTests, draws);
      counter := map[];
      var t := 0;
      while t < |tests|
        invariant 0 <= t <= |tests|
        invariant Tally(counter, "total") == t && Tally(counter, "success") == t
        invariant "failure" !in counter
      {
        counter := Bump(counter, "total");
        counter := Bump(counter, if Truthy(tests[t].equivalent) then "success" else "failure");
        t := t + 1;
      }
    }
  }

  // ---------------------------------------------------------------------------
  // The two systems of the experiment

  /** The system whose random rewrites are checked. */
  const T: seq<Rule> := [
    Rule("aaaa", "ab"), Rule("abbb", "bba"), Rule("babb", "bb"), Rule("aabb", "aaba"),
    Rule("bbbaa", "bb"), Rule("aaabab", "baabb"), Rule("baabb", "aabab"), Rule("baabab", "bab"),
    Rule("bbabab", "bb"), Rule("bab", "baaaab"), Rule("baabaab", "a")
  ]

  /** The checking system: every rule shortens its word by one letter. */
  const T1: seq<Rule> := [Rule("aa", "a"), Rule("bb", "a"), Rule("ab", "a"), Rule("ba", "a")]

  /** The checking system meets the search's termination requirement; the main
      system does not, as `bab -> baaaab` lengthens words. */
  lemma SystemsShape()
    ensures NonIncreasing(T1)
    ensures !NonIncreasing(T)
  {
    assert T[9] == Rule("bab", "baaaab");
  }
}
