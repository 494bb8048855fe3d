/** Words, rules and one-step rewriting of a string-rewriting (semi-Thue) system,
    shared by the closure experiment, the metamorphic experiment and the
    shortest-path search. */
module Rewriting {

  type Word = string

  datatype Option<T> = None | Some(value: T)

  /** A rewrite rule: one occurrence of `lhs` may be replaced by `rhs`. */
  datatype Rule = Rule(lhs: Word, rhs: Word)

  /** A candidate rewrite: the rule `lhs -> rhs` at index `i` of a word. */
  datatype Match = Match(i: nat, lhs: Word, rhs: Word)

  /** `sub` occurs in `w` starting at index `i`. */
  predicate OccursAt(w: Word, sub: Word, i: int) {
    0 <= i && i + |sub| <= |w| && w[i..i + |sub|] == sub
  }

  /** The number of start positions a left-to-right scan for `sub` visits. */
  function Span(w: Word, sub: Word): nat {
    if |sub| <= |w| then |w| - |sub| + 1 else 0
  }

  /** `w` with the `lhs` at index `i` replaced by `rhs`. */
  function Replace(w: Word, i: nat, lhs: Word, rhs: Word): (v: Word)
    requires i + |lhs| <= |w|
    ensures |v| == |w| - |lhs| + |rhs|
  {
    w[..i] + rhs + w[i + |lhs|..]
  }

  /** No left-hand side of any rule occurs anywhere in `w`. */
  ghost predicate Irreducible(rules: seq<Rule>, w: Word) {
    forall r, i :: r in rules ==> !OccursAt(w, r.lhs, i)
  }

  // ---------------------------------------------------------------------------
  // Occurrences of a pattern

  /** The start indices below `n` at which `sub` occurs, in increasing order. */
  function OccurrencesBelow(w: Word, sub: Word, n: nat): (s: seq<nat>)
    ensures forall a, b :: 0 <= a < b < |s| ==> s[a] < s[b]
    ensures forall i :: i in s <==> i < n && OccursAt(w, sub, i)
  {
    if n == 0 then []
    else
      var prev := OccurrencesBelow(w, sub, n - 1);
      assert forall a :: 0 <= a < |prev| ==> prev[a] in prev;
      prev + (if OccursAt(w, sub, n - 1) then [n - 1] else [])
  }

  /** Every occurrence of `sub` in `w`, overlapping ones included, in increasing order. */
  function Occurrences(w: Word, sub: Word): (s: seq<nat>)
    ensures forall a, b :: 0 <= a < b < |s| ==> s[a] < s[b]
    ensures forall i :: i in s <==> OccursAt(w, sub, i)
    ensures |sub| > |w| ==> s == []
  {
    OccurrencesBelow(w, sub, Span(w, sub))
  }

  // ---------------------------------------------------------------------------
  // The match list and the one-step successor set

  /** The matches of one rule, in increasing order of position. */
  function RuleMatches(w: Word, r: Rule): (ms: seq<Match>)
    ensures forall m :: m in ms <==> m.lhs == r.lhs && m.rhs == r.rhs && OccursAt(w, r.lhs, m.i)
  {
    var occ := Occurrences(w, r.lhs);
    var ms := seq(|occ|, k requires 0 <= k < |occ| => Match(occ[k], r.lhs, r.rhs));
    assert forall m: Match :: m.lhs == r.lhs && m.rhs == r.rhs && OccursAt(w, r.lhs, m.i) ==> m in ms by {
      forall m: Match | m.lhs == r.lhs && m.rhs == r.rhs && OccursAt(w, r.lhs, m.i) ensures m in ms {
        assert m.i in occ;
        var k :| 0 <= k < |occ| && occ[k] == m.i;
        assert ms[k] == m;
      }
    }
    ms
  }

  /** The list of matches, rule by rule and, within a rule, position by position. */
  function Matches(rules: seq<Rule>, w: Word): (ms: seq<Match>)
    ensures forall m :: m in ms <==> Rule(m.lhs, m.rhs) in rules && OccursAt(w, m.lhs, m.i)
  {
    if rules == [] then []
    else
      assert forall r :: r in rules <==> r == rules[0] || r in rules[1..];
      RuleMatches(w, rules[0]) + Matches(rules[1..], w)
  }

  /** Applying a match to the word it was found in. */
  function Apply(w: Word, m: Match): Word
    requires m.i + |m.lhs| <= |w|
  {
    Replace(w, m.i, m.lhs, m.rhs)
  }

  /** Every word obtained from `w` by rewriting one occurrence of one rule's
      left-hand side (overlapping occurrences included). */
  ghost function Successors(rules: seq<Rule>, w: Word): set<Word> {
    set r, i | r in rules && 0 <= i <= |w| && OccursAt(w, r.lhs, i) :: Replace(w, i, r.lhs, r.rhs)
  }

  /** The rewrites of `w` by `r` at positions below `n`. */
  ghost function RewritesBelow(w: Word, r: Rule, n: nat): set<Word> {
    set i | 0 <= i < n && OccursAt(w, r.lhs, i) :: Replace(w, i, r.lhs, r.rhs)
  }

  lemma RewritesBelowStep(w: Word, r: Rule, n: nat)
    ensures RewritesBelow(w, r, n + 1) ==
      RewritesBelow(w, r, n) + (if OccursAt(w, r.lhs, n) then {Replace(w, n, r.lhs, r.rhs)} else {})
  {
  }

  lemma SuccessorsSnoc(rules: seq<Rule>, r: Rule, w: Word)
    ensures Successors(rules + [r], w) == Successors(rules, w) + RewritesBelow(w, r, Span(w, r.lhs))
  {
    var lhs := Successors(rules + [r], w);
    var rhs := Successors(rules, w) + RewritesBelow(w, r, Span(w, r.lhs));
    forall v | v in lhs ensures v in rhs {
      var q, i :| q in rules + [r] && 0 <= i <= |w| && OccursAt(w, q.lhs, i) && v == Replace(w, i, q.lhs, q.rhs);
      if q !in rules {
        assert q == r;
      }
    }
  }

  /** The set of successors, computed as the source does: rule by rule, and for each
      rule every start position of an occurrence of its left-hand side. */
  method ApplyRulesOnce(rules: seq<Rule>, w: Word) returns (results: set<Word>)
    ensures results == Successors(rules, w)
    ensures forall r, i :: r in rules && OccursAt(w, r.lhs, i) ==> Replace(w, i, r.lhs, r.rhs) in results
    ensures forall v :: v in results ==>
      exists r, i :: r in rules && OccursAt(w, r.lhs, i) && v == Replace(w, i, r.lhs, r.rhs)
    ensures results == {} <==> Irreducible(rules, w)
  {
    results := {};
    var k := 0;
    while k < |rules|
      invariant 0 <= k <= |rules|
      invariant results == Successors(rules[..k], w)
    {
      var r := rules[k];
      var i := 0;
      while i <= |w| - |r.lhs|
        invariant 0 <= i <= Span(w, r.lhs)
        invariant results == Successors(rules[..k], w) + RewritesBelow(w, r, i)
      {
        RewritesBelowStep(w, r, i);
        if OccursAt(w, r.lhs, i) {
          results := results + {Replace(w, i, r.lhs, r.rhs)};
        }
        i := i + 1;
      }
      SuccessorsSnoc(rules[..k], r, w);
      assert rules[..k + 1] == rules[..k] + [r];
      k := k + 1;
    }
    assert rules[..|rules|] == rules;
    NoSuccessorIffIrreducible(rules, w);
  }

  lemma NoSuccessorIffIrreducible(rules: seq<Rule>, w: Word)
    ensures Successors(rules, w) == {} <==> Irreducible(rules, w)
  {
    if !Irreducible(rules, w) {
      var r, i :| r in rules && OccursAt(w, r.lhs, i);
      assert Replace(w, i, r.lhs, r.rhs) in Successors(rules, w);
    }
  }

  /** The match list is empty exactly when no rule applies, and every match
      rewrites to a one-step successor. */
  lemma MatchesAgreeWithSuccessors(rules: seq<Rule>, w: Word)
    ensures Matches(rules, w) == [] <==> Irreducible(rules, w)
    ensures forall m :: m in Matches(rules, w) ==> Apply(w, m) in Successors(rules, w)
  {
    var ms := Matches(rules, w);
    if !Irreducible(rules, w) {
      var r, i :| r in rules && OccursAt(w, r.lhs, i);
      assert Match(i, r.lhs, r.rhs) in ms;
    }
    if ms != [] {
      var m := ms[0];
      assert Rule(m.lhs, m.rhs) in rules && OccursAt(w, Rule(m.lhs, m.rhs).lhs, m.i);
    }
    forall m | m in Matches(rules, w) ensures Apply(w, m) in Successors(rules, w) {
      MatchIsSuccessor(rules, w, m);
    }
  }

  lemma MatchIsSuccessor(rules: seq<Rule>, w: Word, m: Match)
    requires m in Matches(rules, w)
    ensures Apply(w, m) in Successors(rules, w)
  {
    var r := Rule(m.lhs, m.rhs);
    assert r in rules && 0 <= m.i <= |w| && OccursAt(w, r.lhs, m.i);
  }

  // ---------------------------------------------------------------------------
  // Bounded random rewriting

  /** Rewriting with one pick per step, stopping at the first word no rule
      applies to; a pick chooses among the current matches modulo their number. */
  function RunStopping(rules: seq<Rule>, w: Word, picks: seq<nat>): (r: Word)
    ensures Irreducible(rules, w) ==> r == w
    decreases |picks|
  {
    MatchesAgreeWithSuccessors(rules, w);
    if picks == [] then w
    else
      var ms := Matches(rules, w);
      if ms == [] then w
      else RunStopping(rules, Apply(w, ms[picks[0] % |ms|]), picks[1..])
  }

  /** The same, except that a step without matches is skipped and the next pick is used. */
  function RunSkipping(rules: seq<Rule>, w: Word, picks: seq<nat>): (r: Word)
    ensures Irreducible(rules, w) ==> r == w
    decreases |picks|
  {
    MatchesAgreeWithSuccessors(rules, w);
    if picks == [] then w
    else
      var ms := Matches(rules, w);
      if ms == [] then RunSkipping(rules, w, picks[1..])
      else RunSkipping(rules, Apply(w, ms[picks[0] % |ms|]), picks[1..])
  }

  /** Exactly `n` rewrite steps lead from `u` to `v`. */
  ghost predicate DerivesIn(rules: seq<Rule>, u: Word, v: Word, n: nat)
    decreases n
  {
    if n == 0 then u == v
    else exists m :: m in Successors(rules, u) && DerivesIn(rules, m, v, n - 1)
  }

  /** Skipping a step without matches is the same as stopping there: the word is
      unchanged, so no later step has a match either. */
  lemma {:induction false} SkippingIsStopping(rules: seq<Rule>, w: Word, picks: seq<nat>)
    ensures RunSkipping(rules, w, picks) == RunStopping(rules, w, picks)
    decreases |picks|
  {
    if picks != [] {
      var ms := Matches(rules, w);
      if ms == [] {
        SkippingIsStopping(rules, w, picks[1..]);
      } else {
        SkippingIsStopping(rules, Apply(w, ms[picks[0] % |ms|]), picks[1..]);
      }
    }
  }

  /** A bounded random run either performs one rewrite per pick or stops at a word
      no rule applies to; each rewrite yields a one-step successor. */
  lemma {:induction false} RunStoppingDerives(rules: seq<Rule>, w: Word, picks: seq<nat>)
    ensures exists n: nat :: (n <= |picks| && DerivesIn(rules, w, RunStopping(rules, w, picks), n) &&
                         (n < |picks| ==> Irreducible(rules, RunStopping(rules, w, picks))))
    decreases |picks|
  {
    var r := RunStopping(rules, w, picks);
    MatchesAgreeWithSuccessors(rules, w);
    if picks == [] {
      assert DerivesIn(rules, w, r, 0);
    } else {
      var ms := Matches(rules, w);
      if ms == [] {
        assert DerivesIn(rules, w, r, 0);
      } else {
        var next := Apply(w, ms[picks[0] % |ms|]);
        assert next in Successors(rules, w);
        RunStoppingDerives(rules, next, picks[1..]);
        var n: nat :| n <= |picks[1..]| && DerivesIn(rules, next, r, n) && (n < |picks[1..]| ==> Irreducible(rules, r));
        assert DerivesIn(rules, w, r, n + 1);
      }
    }
  }

  /** Every step changes the length by at most `g` when no right-hand side is
      longer than its left-hand side by more than `g`. */
  lemma {:induction false} LengthGrowth(rules: seq<Rule>, u: Word, v: Word, n: nat, g: nat)
    requires forall r :: r in rules ==> |r.rhs| <= |r.lhs| + g
    requires DerivesIn(rules, u, v, n)
    ensures |v| <= |u| + n * g
    decreases n
  {
    if n > 0 {
      var m :| m in Successors(rules, u) && DerivesIn(rules, m, v, n - 1);
      LengthGrowth(rules, m, v, n - 1, g);
      assert |m| <= |u| + g;
    }
  }

  // ---------------------------------------------------------------------------
  // Reachability

  /** All one-step successors of the words in `s`. */
  ghost function Image(rules: seq<Rule>, s: set<Word>): set<Word> {
    set u, v | u in s && v in Successors(rules, u) :: v
  }

  /** The words reachable from `start` in at most `k` steps. */
  ghost function Within(rules: seq<Rule>, start: Word, k: nat): set<Word> {
    if k == 0 then {start}
    else Within(rules, start, k - 1) + Image(rules, Within(rules, start, k - 1))
  }

  /** The words reachable from `start` in exactly `k` steps and not fewer. */
  ghost function Layer(rules: seq<Rule>, start: Word, k: nat): set<Word> {
    if k == 0 then {start} else Within(rules, start, k) - Within(rules, start, k - 1)
  }

  ghost predicate Reaches(rules: seq<Rule>, start: Word, v: Word) {
    exists k :: v in Within(rules, start, k)
  }

  /** No rewrite leads out of `c`. */
  ghost predicate Closed(rules: seq<Rule>, c: set<Word>) {
    forall u :: u in c ==> Successors(rules, u) <= c
  }

  /** `c` is the closure of `start`: it holds `start`, is closed under rewriting and
      holds only words reachable from `start`. */
  ghost predicate IsClosureOf(rules: seq<Rule>, start: Word, c: set<Word>) {
    start in c && Closed(rules, c) && forall v :: v in c ==> Reaches(rules, start, v)
  }

  lemma ImageUnion(rules: seq<Rule>, a: set<Word>, b: set<Word>)
    ensures Image(rules, a + b) == Image(rules, a) + Image(rules, b)
  {
  }

  lemma ImageSingleton(rules: seq<Rule>, w: Word)
    ensures Image(rules, {w}) == Successors(rules, w)
  {
  }

  lemma {:induction false} WithinMonotone(rules: seq<Rule>, start: Word, m: nat, n: nat)
    requires m <= n
    ensures Within(rules, start, m) <= Within(rules, start, n)
    decreases n
  {
    if m < n {
      WithinMonotone(rules, start, m, n - 1);
      var prev := Within(rules, start, n - 1);
      assert Within(rules, start, n) == prev + Image(rules, prev);
    }
  }

  /** The layer found in round `k` is all a breadth-first search has to expand to
      obtain the words of round `k + 1`. */
  lemma WithinByLayer(rules: seq<Rule>, start: Word, k: nat)
    ensures Within(rules, start, k + 1) == Within(rules, start, k) + Image(rules, Layer(rules, start, k))
  {
    if k > 0 {
      var prev := Within(rules, start, k - 1);
      var cur := Within(rules, start, k);
      WithinMonotone(rules, start, k - 1, k);
      assert cur == prev + Layer(rules, start, k);
      ImageUnion(rules, prev, Layer(rules, start, k));
    }
  }

  /** A closed set holding `start` holds every word reachable from it. */
  lemma {:induction false} WithinClosed(rules: seq<Rule>, start: Word, c: set<Word>, k: nat)
    requires start in c && Closed(rules, c)
    ensures Within(rules, start, k) <= c
  {
    if k > 0 {
      WithinClosed(rules, start, c, k - 1);
    }
  }

  /** Once a round adds nothing, the words found so far are the closure. */
  lemma FixpointIsClosure(rules: seq<Rule>, start: Word, k: nat)
    requires Within(rules, start, k + 1) == Within(rules, start, k)
    ensures IsClosureOf(rules, start, Within(rules, start, k))
  {
    WithinMonotone(rules, start, 0, k);
    var c := Within(rules, start, k);
    forall u | u in c ensures Successors(rules, u) <= c {
      forall v | v in Successors(rules, u) ensures v in c {
        assert v in Image(rules, c);
      }
    }
  }

  /** A closure holds exactly the words reachable from its start; so the closure is unique. */
  lemma ClosureIsReachableSet(rules: seq<Rule>, start: Word, c: set<Word>)
    requires IsClosureOf(rules, start, c)
    ensures forall v :: v in c <==> Reaches(rules, start, v)
  {
    forall v | Reaches(rules, start, v) ensures v in c {
      var k :| v in Within(rules, start, k);
      WithinClosed(rules, start, c, k);
    }
  }

  lemma ClosureUnique(rules: seq<Rule>, start: Word, c1: set<Word>, c2: set<Word>)
    requires IsClosureOf(rules, start, c1) && IsClosureOf(rules, start, c2)
    ensures c1 == c2
  {
    ClosureIsReachableSet(rules, start, c1);
    ClosureIsReachableSet(rules, start, c2);
  }

  /** A word reached in `n` steps is among the words within `n` steps. */
  lemma {:induction false} DerivesWithin(rules: seq<Rule>, u: Word, v: Word, n: nat)
    requires DerivesIn(rules, u, v, n)
    ensures v in Within(rules, u, n)
    decreases n
  {
    if n > 0 {
      var m :| m in Successors(rules, u) && DerivesIn(rules, m, v, n - 1);
      DerivesWithin(rules, m, v, n - 1);
      WithinShift(rules, u, m, v, n - 1);
    }
  }

  lemma {:induction false} WithinShift(rules: seq<Rule>, u: Word, m: Word, v: Word, n: nat)
    requires m in Successors(rules, u) && v in Within(rules, m, n)
    ensures v in Within(rules, u, n + 1)
    decreases n
  {
    if n == 0 {
      assert v in Image(rules, Within(rules, u, 0));
    } else if v in Within(rules, m, n - 1) {
      WithinShift(rules, u, m, v, n - 1);
      WithinMonotone(rules, u, n, n + 1);
    } else {
      var x :| x in Within(rules, m, n - 1) && v in Successors(rules, x);
      WithinShift(rules, u, m, x, n - 1);
      assert v in Image(rules, Within(rules, u, n));
    }
  }

  /** The result of a bounded random run is reachable from the word it started from. */
  lemma RunStoppingReaches(rules: seq<Rule>, w: Word, picks: seq<nat>)
    ensures Reaches(rules, w, RunStopping(rules, w, picks))
  {
    RunStoppingDerives(rules, w, picks);
    var n: nat :| n <= |picks| && DerivesIn(rules, w, RunStopping(rules, w, picks), n);
    DerivesWithin(rules, w, RunStopping(rules, w, picks), n);
  }

  // ---------------------------------------------------------------------------
  // Finiteness for length-non-increasing systems

  predicate NonIncreasing(rules: seq<Rule>) {
    forall r :: r in rules ==> |r.rhs| <= |r.lhs|
  }

  ghost predicate Over(w: Word, a: set<char>) {
    forall i :: 0 <= i < |w| ==> w[i] in a
  }

  /** The letters of `start` and of every right-hand side: no rewrite introduces others. */
  ghost function Letters(rules: seq<Rule>, start: Word): set<char> {
    (set i | 0 <= i < |start| :: start[i]) + (set r, i | r in rules && 0 <= i < |r.rhs| :: r.rhs[i])
  }

  /** All words of length at most `n` over the letters `a`: a finite set. */
  ghost function Universe(a: set<char>, n: nat): set<Word> {
    if n == 0 then {[]}
    else Universe(a, n - 1) + set w, c | w in Universe(a, n - 1) && c in a :: [c] + w
  }

  lemma {:induction false} InUniverse(a: set<char>, n: nat, w: Word)
    requires |w| <= n && Over(w, a)
    ensures w in Universe(a, n)
  {
    if n > 0 {
      if |w| <= n - 1 {
        InUniverse(a, n - 1, w);
      } else {
        InUniverse(a, n - 1, w[1..]);
        assert w == [w[0]] + w[1..];
      }
    }
  }

  lemma SuccessorStaysSmall(rules: seq<Rule>, a: set<char>, u: Word, v: Word)
    requires NonIncreasing(rules) && Over(u, a)
    requires forall r, i :: r in rules && 0 <= i < |r.rhs| ==> r.rhs[i] in a
    requires v in Successors(rules, u)
    ensures |v| <= |u| && Over(v, a)
  {
    var r, i :| r in rules && 0 <= i <= |u| && OccursAt(u, r.lhs, i) && v == Replace(u, i, r.lhs, r.rhs);
    forall j | 0 <= j < |v| ensures v[j] in a {
      if j < i {
        assert v[j] == u[j];
      } else if j < i + |r.rhs| {
        assert v[j] == r.rhs[j - i];
      } else {
        assert v[j] == u[j - |r.rhs| + |r.lhs|];
      }
    }
  }

  /** Under a length-non-increasing system every reachable word lies in one finite set. */
  lemma {:induction false} WithinUniverse(rules: seq<Rule>, start: Word, k: nat)
    requires NonIncreasing(rules)
    ensures Within(rules, start, k) <= Universe(Letters(rules, start), |start|)
  {
    var a := Letters(rules, start);
    forall v | v in Within(rules, start, k) ensures v in Universe(a, |start|) {
      WithinSmall(rules, start, k, v);
      InUniverse(a, |start|, v);
    }
  }

  lemma {:induction false} WithinSmall(rules: seq<Rule>, start: Word, k: nat, v: Word)
    requires NonIncreasing(rules) && v in Within(rules, start, k)
    ensures |v| <= |start| && Over(v, Letters(rules, start))
    decreases k
  {
    var a := Letters(rules, start);
    if k == 0 {
      assert v == start;
      forall i | 0 <= i < |v| ensures v[i] in a {
        assert v[i] in (set j | 0 <= j < |start| :: start[j]);
      }
    } else if v in Within(rules, start, k - 1) {
      WithinSmall(rules, start, k - 1, v);
    } else {
      var u :| u in Within(rules, start, k - 1) && v in Successors(rules, u);
      WithinSmall(rules, start, k - 1, u);
      forall r, i | r in rules && 0 <= i < |r.rhs| ensures r.rhs[i] in a {
        assert r.rhs[i] in (set q, j | q in rules && 0 <= j < |q.rhs| :: q.rhs[j]);
      }
      SuccessorStaysSmall(rules, a, u, v);
    }
  }

  // ---------------------------------------------------------------------------
  // Random words

  /** The random draws of one test: a letter index per position of the word and
      a match pick per rewrite step. */
  datatype Draw = Draw(letters: seq<nat>, picks: seq<nat>)

  /** `d` draws a word of `wordLength` letters of `alphabet` and `steps` picks. */
  predicate Fits(alphabet: seq<char>, wordLength: nat, steps: nat, d: Draw) {
    |d.letters| == wordLength &&
    (forall k :: 0 <= k < |d.letters| ==> d.letters[k] < |alphabet|) &&
    |d.picks| == steps
  }

  /** The word whose `k`-th letter is the `letters[k]`-th letter of the alphabet. */
  function RandWord(alphabet: seq<char>, wordLength: nat, letters: seq<nat>): (w: Word)
    requires |letters| == wordLength
    requires forall k :: 0 <= k < |letters| ==> letters[k] < |alphabet|
    ensures |w| == wordLength
    ensures forall k :: 0 <= k < |w| ==> w[k] in alphabet
  {
    seq(wordLength, k requires 0 <= k < wordLength => alphabet[letters[k]])
  }
}
