/** The metamorphic experiment: random words are rewritten a bounded number of
    times and each (word, rewritten word) pair is checked against a list of
    invariants; the outcomes are tallied. */
module Meta {
  import opened Rewriting
  import opened Counters

  /** A rewriting system; it is never changed after construction. */
  datatype RewriteSystem = RewriteSystem(rules: seq<Rule>, alphabet: seq<char>, name: string)

  /** Up to `steps` rewrites, each at a match chosen by the next pick; stops early
      at a word no rule applies to. */
  method ApplyRandomSteps(system: RewriteSystem, w: Word, steps: nat, picks: seq<nat>) returns (r: Word)
    requires |picks| == steps
    ensures r == RunStopping(system.rules, w, picks)
  {
    var word := w;
    var k := 0;
    while k < steps
      invariant 0 <= k <= steps
      invariant RunStopping(system.rules, word, picks[k..]) == RunStopping(system.rules, w, picks)
    {
      var matches := Matches(system.rules, word);
      if matches == [] {
        break;
      }
      var m := matches[picks[k] % |matches|];
      assert picks[k..][1..] == picks[k + 1..];
      word := Apply(word, m);
      k := k + 1;
    }
    r := word;
  }

  /** The experiment's configuration; it is never changed after construction. */
  datatype Experiment = Experiment(system: RewriteSystem, alphabet: seq<char>, wordLength: nat, steps: nat)

  /** The word drawn for a test. */
  function RandWordOf(e: Experiment, d: Draw): (w: Word)
    requires Fits(e.alphabet, e.wordLength, e.steps, d)
    ensures |w| == e.wordLength && forall k :: 0 <= k < |w| ==> w[k] in e.alphabet
  {
    RandWord(e.alphabet, e.wordLength, d.letters)
  }

  // ---------------------------------------------------------------------------
  // The two invariants the experiment is run with

  /** The rewritten word is at most twice as long as the original. */
  function LengthGrowthLimited(prev: Word, curr: Word): (ok: bool)
    ensures |curr| <= |prev| ==> ok
    ensures prev == [] ==> (ok <==> curr == [])
  {
    |curr| <= |prev| * 2
  }

  /** The number of start positions of windows of length `len` in `s`. */
  function WindowStarts(s: Word, len: nat): nat {
    if len <= |s| then |s| - len + 1 else 0
  }

  /** How many of the windows of length `len` starting below `n` are equal to
      "ab" or to "ba". */
  function WindowHits(s: Word, len: nat, n: nat): (h: nat)
    requires n <= WindowStarts(s, len)
    ensures h <= n
  {
    if n == 0 then 0
    else WindowHits(s, len, n - 1) + (if s[n - 1..n - 1 + len] in ["ab", "ba"] then 1 else 0)
  }

  /** A window of length three or more never equals a two-letter word. */
  lemma {:induction false} WindowHitsZero(s: Word, len: nat, n: nat)
    requires len >= 3 && n <= WindowStarts(s, len)
    ensures WindowHits(s, len, n) == 0
  {
    if n > 0 {
      WindowHitsZero(s, len, n - 1);
      assert |s[n - 1..n - 1 + len]| == len;
    }
  }

  /** The sum over windows of length 3 and 4 of "the window is `ab` or `ba`",
      which is zero for every word. */
  function BlockCount(s: Word): (c: nat)
    ensures c == 0
  {
    WindowHitsZero(s, 3, WindowStarts(s, 3));
    WindowHitsZero(s, 4, WindowStarts(s, 4));
    WindowHits(s, 3, WindowStarts(s, 3)) + WindowHits(s, 4, WindowStarts(s, 4))
  }

  /** The block count does not grow by more than one; it holds of every pair of
      words. */
  function AbBaBlocks(prev: Word, curr: Word): (ok: bool)
    ensures ok
  {
    BlockCount(curr) <= BlockCount(prev) + 1
  }

  /** When no rule lengthens a word by more than `g` letters, a run of `|picks|`
      random steps from a word of at least `|picks| * g` letters keeps the length
      growth invariant. */
  lemma RandomStepsKeepLengthLimit(rules: seq<Rule>, w: Word, picks: seq<nat>, g: nat)
    requires forall r :: r in rules ==> |r.rhs| <= |r.lhs| + g
    requires |picks| * g <= |w|
    ensures LengthGrowthLimited(w, RunStopping(rules, w, picks))
  {
    var r := RunStopping(rules, w, picks);
    RunStoppingDerives(rules, w, picks);
    var n: nat :| n <= |picks| && DerivesIn(rules, w, r, n);
    LengthGrowth(rules, w, r, n, g);
    MulMonotone(n, |picks|, g);
  }

  lemma {:induction false} MulMonotone(a: nat, b: nat, g: nat)
    requires a <= b
    ensures a * g <= b * g
    decreases b - a
  {
    if a < b {
      MulMonotone(a + 1, b, g);
    }
  }

  // ---------------------------------------------------------------------------
  // The test run

  /** Every invariant holds of the pair. */
  predicate AllHold(invariants: seq<(Word, Word) -> bool>, prev: Word, curr: Word) {
    forall k :: 0 <= k < |invariants| ==> invariants[k](prev, curr)
  }

  lemma AllHoldSnoc(invariants: seq<(Word, Word) -> bool>, j: nat, prev: Word, curr: Word)
    requires j < |invariants|
    ensures AllHold(invariants[..j + 1], prev, curr) <==>
      AllHold(invariants[..j], prev, curr) && invariants[j](prev, curr)
  {
    assert forall k :: 0 <= k < j ==> invariants[..j + 1][k] == invariants[..j][k];
  }

  /** The test a draw describes passes every invariant. */
  predicate Passes(e: Experiment, invariants: seq<(Word, Word) -> bool>, d: Draw)
    requires Fits(e.alphabet, e.wordLength, e.steps, d)
  {
    var w := RandWordOf(e, d);
    AllHold(invariants, w, RunStopping(e.system.rules, w, d.picks))
  }

  /** The number of draws whose test passes. */
  function Successes(e: Experiment, invariants: seq<(Word, Word) -> bool>, draws: seq<Draw>): (n: nat)
    requires forall k :: 0 <= k < |draws| ==> Fits(e.alphabet, e.wordLength, e.steps, draws[k])
    ensures n <= |draws|
    ensures invariants == [] ==> n == |draws|
  {
    if draws == [] then 0
    else
      Successes(e, invariants, draws[..|draws| - 1])
        + (if Passes(e, invariants, draws[|draws| - 1]) then 1 else 0)
  }

  lemma SuccessesSnoc(e: Experiment, invariants: seq<(Word, Word) -> bool>, draws: seq<Draw>, t: nat)
    requires t < |draws| && forall k :: 0 <= k < |draws| ==> Fits(e.alphabet, e.wordLength, e.steps, draws[k])
    ensures Successes(e, invariants, draws[..t + 1]) ==
      Successes(e, invariants, draws[..t]) + (if Passes(e, invariants, draws[t]) then 1 else 0)
  {
    assert draws[..t + 1][..t] == draws[..t];
  }

  method RunMetamorphicTests(e: Experiment, nTests: nat, invariants: seq<(Word, Word) -> bool>, draws: seq<Draw>)
    returns (counter: Counter)
    requires |draws| == nTests
    requires forall k :: 0 <= k < |draws| ==> Fits(e.alphabet, e.wordLength, e.steps, draws[k])
    ensures Tally(counter, "total") == nTests
    ensures Tally(counter, "success") == Successes(e, invariants, draws)
    ensures Tally(counter, "success") + Tally(counter, "failure") == nTests
    ensures invariants == [] ==> Tally(counter, "success") == nTests && Tally(counter, "failure") == 0
    ensures counter.Keys <= {"total", "success", "failure"}
  {
    counter := map[];
    var t := 0;
    while t < nTests
      invariant 0 <= t <= nTests
      invariant Tally(counter, "total") == t
      invariant Tally(counter, "success") == Successes(e, invariants, draws[..t])
      invariant Tally(counter, "success") + Tally(counter, "failure") == t
      invariant counter.Keys <= {"total", "success", "failure"}
    {
      var word := RandWord(e.alphabet, e.wordLength, draws[t].letters);
      var rewritten := ApplyRandomSteps(e.system, word, e.steps, draws[t].picks);
      var success := true;
      var j := 0;
      while j < |invariants|
        invariant 0 <= j <= |invariants|
        invariant success == AllHold(invariants[..j], word, rewritten)
      {
        AllHoldSnoc(invariants, j, word, rewritten);
        if !invariants[j](word, rewritten) {
          success := false;
        }
        j := j + 1;
      }
      assert invariants[..|invariants|] == invariants;
      assert success == Passes(e, invariants, draws[t]);
      SuccessesSnoc(e, invariants, draws, t);
      counter := Bump(counter, "total");
      counter := Bump(counter, if success then "success" else "failure");
      t := t + 1;
    }
    assert draws[..nTests] == draws;
  }
}
