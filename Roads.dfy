/** The shortest-derivation search: a breadth-first search that applies every
    rule in both directions and returns the first path it finds from a word to
    the normal form "a", one step per rewrite. */
module Roads {
  import opened Rewriting
  import Fuzz

  /** The rule list of the search, in the order the search tries them. */
  const Rules: seq<Rule> := [
    Rule("aaaa", "ab"), Rule("abbb", "bba"), Rule("babb", "bb"), Rule("aabb", "aaba"),
    Rule("bbbaa", "bb"), Rule("aaabab", "baabb"), Rule("baabb", "aabab"), Rule("baabab", "bab"),
    Rule("bbabab", "bb"), Rule("baabaab", "a"), Rule("bab", "baaaab")
  ]

  /** The word the search is looking for. */
  const NormalForm: Word := "a"

  /** The search's rules are those of the closure experiment's main system, in
      another order. */
  lemma RulesAreMainSystem()
    ensures multiset(Rules) == multiset(Fuzz.T)
  {
    var t := Fuzz.T;
    assert Rules == t[..9] + [t[10], t[9]];
    assert t == t[..9] + [t[9], t[10]];
  }

  /** Used in both directions, the rules lengthen words (`ab -> aaaa` reverses
      the first rule), so the words the search may visit are not bounded by the
      length of the start. */
  lemma RulesLengthen()
    ensures !NonIncreasing(Bidirectional(Rules))
  {
    assert Flip(Rules[0]) in Bidirectional(Rules);
  }

  // ---------------------------------------------------------------------------
  // Occurrences, by a left-to-right scan

  /** Every index at which `sub` occurs in `word`, overlapping ones included. */
  method FindAllSubstringIndices(word: Word, sub: Word) returns (indices: seq<nat>)
    ensures indices == Occurrences(word, sub)
    ensures forall a, b :: 0 <= a < b < |indices| ==> indices[a] < indices[b]
    ensures forall i :: i in indices <==> OccursAt(word, sub, i)
  {
    indices := [];
    var i := 0;
    while i <= |word| - |sub|
      invariant 0 <= i
      invariant |sub| <= |word| ==> i <= |word| - |sub| + 1
      invariant |sub| > |word| ==> i == 0
      invariant indices == OccurrencesBelow(word, sub, i)
    {
      if word[i..i + |sub|] == sub {
        indices := indices + [i];
      }
      i := i + 1;
    }
  }

  // ---------------------------------------------------------------------------
  // Rules used in both directions

  function Flip(r: Rule): Rule {
    Rule(r.rhs, r.lhs)
  }

  /** Each rule followed by its reverse, in the order the search tries them. */
  function Bidirectional(rules: seq<Rule>): (bi: seq<Rule>)
    ensures |bi| == 2 * |rules|
    ensures forall r :: r in bi <==> r in rules || Flip(r) in rules
  {
    if rules == [] then []
    else
      var rest := Bidirectional(rules[1..]);
      assert forall r :: r in rules <==> r == rules[0] || r in rules[1..];
      [rules[0], Flip(rules[0])] + rest
  }

  lemma {:induction false} BidirectionalSnoc(rules: seq<Rule>, r: Rule)
    ensures Bidirectional(rules + [r]) == Bidirectional(rules) + [r, Flip(r)]
  {
    if rules != [] {
      assert (rules + [r])[1..] == rules[1..] + [r];
      BidirectionalSnoc(rules[1..], r);
    }
  }

  /** Rewriting `lhs` to `rhs` at `i` leaves `rhs` at `i`, and rewriting it back
      restores the word. */
  lemma ReplaceUndone(u: Word, i: nat, lhs: Word, rhs: Word)
    requires OccursAt(u, lhs, i)
    ensures OccursAt(Replace(u, i, lhs, rhs), rhs, i)
    ensures Replace(Replace(u, i, lhs, rhs), i, rhs, lhs) == u
  {
    var v := Replace(u, i, lhs, rhs);
    assert v[..i] == u[..i];
    assert v[i..i + |rhs|] == rhs;
    assert v[i + |rhs|..] == u[i + |lhs|..];
    assert u == u[..i] + lhs + u[i + |lhs|..];
  }

  /** Every rewrite of a system used in both directions can be undone by one rewrite. */
  lemma StepReversible(rules: seq<Rule>, u: Word, v: Word)
    requires v in Successors(Bidirectional(rules), u)
    ensures u in Successors(Bidirectional(rules), v)
  {
    var bi := Bidirectional(rules);
    var r, i :| r in bi && 0 <= i <= |u| && OccursAt(u, r.lhs, i) && v == Replace(u, i, r.lhs, r.rhs);
    ReplaceUndone(u, i, r.lhs, r.rhs);
    var f := Flip(r);
    assert f in bi && 0 <= i <= |v| && OccursAt(v, f.lhs, i) && u == Replace(v, i, f.lhs, f.rhs);
  }

  // ---------------------------------------------------------------------------
  // Paths

  /** One entry of a path: a rewrite `lhs -> rhs` at index `idx` of `word`, or
      the closing entry naming the normal form reached. */
  datatype Step = Move(word: Word, lhs: Word, rhs: Word, idx: nat) | Normal(word: Word)

  /** A queued word together with the moves that led to it. */
  datatype Entry = Entry(word: Word, path: seq<Step>)

  /** The outcome of the search: a path, the report that the normal form cannot
      be reached, or the report that the step budget ran out first. */
  datatype Reduction = Reduced(path: seq<Step>) | NoPath | OutOfFuel

  /** `s` is a rewrite by a rule of `rules` that takes `from` to `to`. */
  ghost predicate IsMove(rules: seq<Rule>, s: Step, from: Word, to: Word) {
    s.Move? && s.word == from && Rule(s.lhs, s.rhs) in rules && OccursAt(from, s.lhs, s.idx) &&
    to == Replace(from, s.idx, s.lhs, s.rhs)
  }

  /** `path` is a chain of moves of `rules` from `from` to `to`. */
  ghost predicate Leads(rules: seq<Rule>, path: seq<Step>, from: Word, to: Word) {
    if path == [] then from == to
    else
      var s := path[|path| - 1];
      s.Move? && Leads(rules, path[..|path| - 1], from, s.word) && IsMove(rules, s, s.word, to)
  }

  /** A path of `n` moves ends at a word reachable in `n` steps. */
  lemma {:induction false} LeadsWithin(rules: seq<Rule>, path: seq<Step>, from: Word, to: Word)
    requires Leads(rules, path, from, to)
    ensures to in Within(rules, from, |path|)
    decreases |path|
  {
    if path != [] {
      var s := path[|path| - 1];
      LeadsWithin(rules, path[..|path| - 1], from, s.word);
      assert to in Successors(rules, s.word);
      assert to in Image(rules, Within(rules, from, |path| - 1));
    }
  }

  // ---------------------------------------------------------------------------
  // Expanding a word

  /** `e` extends `path`, which ends at `w`, by one move of `rules` out of `w`. */
  ghost predicate Extends(rules: seq<Rule>, w: Word, path: seq<Step>, e: Entry) {
    |e.path| == |path| + 1 && e.path[..|path|] == path && IsMove(rules, e.path[|path|], w, e.word)
  }

  ghost function Words(q: seq<Entry>): set<Word> {
    set e | e in q :: e.word
  }

  lemma WordsSnoc(q: seq<Entry>, e: Entry)
    ensures Words(q + [e]) == Words(q) + {e.word}
  {
    assert e in q + [e];
  }

  lemma WordsCons(q: seq<Entry>)
    requires q != []
    ensures Words(q) == {q[0].word} + Words(q[1..])
  {
    assert q == [q[0]] + q[1..];
  }

  /** The rewrites of `w` by `r` at those indices of `idxs` where `r.lhs` occurs. */
  ghost function RewritesIn(w: Word, r: Rule, idxs: seq<nat>): set<Word> {
    if idxs == [] then {}
    else
      var i := idxs[|idxs| - 1];
      RewritesIn(w, r, idxs[..|idxs| - 1]) + (if OccursAt(w, r.lhs, i) then {Replace(w, i, r.lhs, r.rhs)} else {})
  }

  lemma {:induction false} RewritesInMembers(w: Word, r: Rule, idxs: seq<nat>, v: Word)
    ensures v in RewritesIn(w, r, idxs) <==>
      exists i :: i in idxs && OccursAt(w, r.lhs, i) && v == Replace(w, i, r.lhs, r.rhs)
    decreases |idxs|
  {
    if idxs != [] {
      var front := idxs[..|idxs| - 1];
      var i := idxs[|idxs| - 1];
      RewritesInMembers(w, r, front, v);
      assert idxs == front + [i];
      if v in RewritesIn(w, r, front) {
        var k :| k in front && OccursAt(w, r.lhs, k) && v == Replace(w, k, r.lhs, r.rhs);
        assert k in idxs;
      }
      if exists k :: k in idxs && OccursAt(w, r.lhs, k) && v == Replace(w, k, r.lhs, r.rhs) {
        var k :| k in idxs && OccursAt(w, r.lhs, k) && v == Replace(w, k, r.lhs, r.rhs);
        if k != i {
          assert k in front;
        }
      }
    }
  }

  /** Rewriting at every occurrence gives every rewrite. */
  lemma RewritesInOccurrences(w: Word, r: Rule, idxs: seq<nat>)
    requires forall i :: i in idxs <==> OccursAt(w, r.lhs, i)
    ensures RewritesIn(w, r, idxs) == RewritesBelow(w, r, Span(w, r.lhs))
  {
    forall v ensures v in RewritesIn(w, r, idxs) <==> v in RewritesBelow(w, r, Span(w, r.lhs)) {
      RewritesInMembers(w, r, idxs, v);
    }
  }

  /** Queuing one more rewrite of `w` by `r`, at an occurrence `idx`. */
  lemma EnqueueStep(w: Word, path: seq<Step>, r: Rule, q0: seq<Entry>, q: seq<Entry>, idxs: seq<nat>, idx: nat)
    requires |q| >= |q0| && q[..|q0|] == q0
    requires forall k :: |q0| <= k < |q| ==> Extends([r], w, path, q[k])
    requires Words(q[|q0|..]) == RewritesIn(w, r, idxs)
    requires OccursAt(w, r.lhs, idx)
    ensures var q' := q + [Entry(Replace(w, idx, r.lhs, r.rhs), path + [Move(w, r.lhs, r.rhs, idx)])];
      |q'| >= |q0| && q'[..|q0|] == q0 &&
      (forall k :: |q0| <= k < |q'| ==> Extends([r], w, path, q'[k])) &&
      Words(q'[|q0|..]) == RewritesIn(w, r, idxs + [idx])
  {
    var e := Entry(Replace(w, idx, r.lhs, r.rhs), path + [Move(w, r.lhs, r.rhs, idx)]);
    var q' := q + [e];
    assert (path + [Move(w, r.lhs, r.rhs, idx)])[..|path|] == path;
    assert Extends([r], w, path, e);
    assert q'[|q0|..] == q[|q0|..] + [e];
    WordsSnoc(q[|q0|..], e);
    assert (idxs + [idx])[..|idxs|] == idxs;
  }

  /** Queue the rewrites of `w` by `lhs -> rhs`, at each of its occurrences from
      left to right. */
  method EnqueueRewrites(w: Word, path: seq<Step>, lhs: Word, rhs: Word, queue0: seq<Entry>)
    returns (queue: seq<Entry>)
    ensures |queue| >= |queue0| && queue[..|queue0|] == queue0
    ensures forall j :: |queue0| <= j < |queue| ==> Extends([Rule(lhs, rhs)], w, path, queue[j])
    ensures Words(queue[|queue0|..]) == RewritesBelow(w, Rule(lhs, rhs), Span(w, lhs))
  {
    var indices := FindAllSubstringIndices(w, lhs);
    queue := queue0;
    var j := 0;
    while j < |indices|
      invariant 0 <= j <= |indices|
      invariant |queue| >= |queue0| && queue[..|queue0|] == queue0
      invariant forall k :: |queue0| <= k < |queue| ==> Extends([Rule(lhs, rhs)], w, path, queue[k])
      invariant Words(queue[|queue0|..]) == RewritesIn(w, Rule(lhs, rhs), indices[..j])
    {
      var idx := indices[j];
      assert idx in indices;
      EnqueueStep(w, path, Rule(lhs, rhs), queue0, queue, indices[..j], idx);
      assert indices[..j + 1] == indices[..j] + [idx];
      queue := queue + [Entry(Replace(w, idx, lhs, rhs), path + [Move(w, lhs, rhs, idx)])];
      j := j + 1;
    }
    assert indices[..|indices|] == indices;
    RewritesInOccurrences(w, Rule(lhs, rhs), indices);
  }

  /** Queue every one-step rewrite of `w`, trying each rule forwards and then
      backwards. */
  method Expand(rules: seq<Rule>, w: Word, path: seq<Step>, queue0: seq<Entry>) returns (queue: seq<Entry>)
    ensures |queue| >= |queue0| && queue[..|queue0|] == queue0
    ensures forall j :: |queue0| <= j < |queue| ==> Extends(Bidirectional(rules), w, path, queue[j])
    ensures Words(queue[|queue0|..]) == Successors(Bidirectional(rules), w)
  {
    queue := queue0;
    var ri := 0;
    while ri < |rules|
      invariant 0 <= ri <= |rules|
      invariant |queue| >= |queue0| && queue[..|queue0|] == queue0
      invariant forall j :: |queue0| <= j < |queue| ==> Extends(Bidirectional(rules[..ri]), w, path, queue[j])
      invariant Words(queue[|queue0|..]) == Successors(Bidirectional(rules[..ri]), w)
    {
      var r := rules[ri];
      ghost var before := queue;
      ghost var bi := Bidirectional(rules[..ri]);
      queue := EnqueueRewrites(w, path, r.lhs, r.rhs, queue);
      ghost var middle := queue;
      queue := EnqueueRewrites(w, path, r.rhs, r.lhs, queue);
      assert rules[..ri + 1] == rules[..ri] + [r];
      BidirectionalSnoc(rules[..ri], r);
      ExpandStep(bi, r, w, path, queue0, before, middle, queue);
      ri := ri + 1;
    }
    assert rules[..|rules|] == rules;
  }

  /** Bookkeeping for one rule of `Expand`: the rule's two passes extend the
      queue by exactly the rewrites of the rule and of its reverse. */
  lemma ExpandStep(bi: seq<Rule>, r: Rule, w: Word, path: seq<Step>,
                   q0: seq<Entry>, q1: seq<Entry>, q2: seq<Entry>, q3: seq<Entry>)
    requires |q1| >= |q0| && q1[..|q0|] == q0
    requires forall j :: |q0| <= j < |q1| ==> Extends(bi, w, path, q1[j])
    requires Words(q1[|q0|..]) == Successors(bi, w)
    requires |q2| >= |q1| && q2[..|q1|] == q1
    requires forall j :: |q1| <= j < |q2| ==> Extends([r], w, path, q2[j])
    requires Words(q2[|q1|..]) == RewritesBelow(w, r, Span(w, r.lhs))
    requires |q3| >= |q2| && q3[..|q2|] == q2
    requires forall j :: |q2| <= j < |q3| ==> Extends([Flip(r)], w, path, q3[j])
    requires Words(q3[|q2|..]) == RewritesBelow(w, Flip(r), Span(w, r.rhs))
    ensures |q3| >= |q0| && q3[..|q0|] == q0
    ensures forall j :: |q0| <= j < |q3| ==> Extends(bi + [r, Flip(r)], w, path, q3[j])
    ensures Words(q3[|q0|..]) == Successors(bi + [r, Flip(r)], w)
  {
    assert q3[..|q0|] == q0 by {
      assert q3[..|q1|] == q1;
    }
    forall j | |q0| <= j < |q3| ensures Extends(bi + [r, Flip(r)], w, path, q3[j]) {
      if j < |q1| {
        assert q3[j] == q1[j];
      } else if j < |q2| {
        assert q3[j] == q2[j];
      }
    }
    assert q3[|q0|..] == q1[|q0|..] + q2[|q1|..] + q3[|q2|..] by {
      assert q3[..|q2|] == q2;
      assert q2[..|q1|] == q1;
    }
    WordsAppend(q1[|q0|..], q2[|q1|..]);
    WordsAppend(q1[|q0|..] + q2[|q1|..], q3[|q2|..]);
    SuccessorsSnoc(bi, r, w);
    SuccessorsSnoc(bi + [r], Flip(r), w);
    assert bi + [r] + [Flip(r)] == bi + [r, Flip(r)];
  }

  lemma WordsAppend(p: seq<Entry>, q: seq<Entry>)
    ensures Words(p + q) == Words(p) + Words(q)
  {
    forall x | x in Words(p + q) ensures x in Words(p) + Words(q) {
      var e :| e in p + q && e.word == x;
    }
    forall x | x in Words(p) + Words(q) ensures x in Words(p + q) {
      if x in Words(p) {
        var e :| e in p && e.word == x;
        assert e in p + q;
      } else {
        var e :| e in q && e.word == x;
        assert e in p + q;
      }
    }
  }

  // ---------------------------------------------------------------------------
  // The search

  /** The words queued with a path of exactly `d` moves. */
  ghost function WordsAt(q: seq<Entry>, d: nat): set<Word> {
    set e | e in q && |e.path| == d :: e.word
  }

  /** Every queued path is a derivation from `start`, of `level` or `level + 1`
      moves, and the queue is ordered by path length. */
  ghost predicate QueueOk(bi: seq<Rule>, start: Word, q: seq<Entry>, level: nat) {
    (forall i :: 0 <= i < |q| ==> Leads(bi, q[i].path, start, q[i].word)) &&
    (forall i :: 0 <= i < |q| ==> level <= |q[i].path| <= level + 1) &&
    (forall i, j :: 0 <= i < j < |q| ==> |q[i].path| <= |q[j].path|)
  }

  /** Every word reachable in fewer than `level` steps has been dequeued, every
      word reachable in `level` steps has been dequeued or waits in the queue
      with a path of that length, and the rewrites of every dequeued word have
      been queued. */
  ghost predicate Covers(bi: seq<Rule>, start: Word, q: seq<Entry>, seen: set<Word>, level: nat) {
    (level > 0 ==> Within(bi, start, level - 1) <= seen) &&
    Within(bi, start, level) <= seen + WordsAt(q, level) &&
    (forall u :: u in seen ==> Successors(bi, u) <= seen + Words(q))
  }

  /** The state of the search between two dequeues, while entries of `level`
      moves are being taken from the queue. */
  ghost predicate SearchInv(bi: seq<Rule>, start: Word, q: seq<Entry>, seen: set<Word>, level: nat) {
    QueueOk(bi, start, q, level) && NormalForm !in seen && Covers(bi, start, q, seen, level)
  }

  lemma SearchInvInit(bi: seq<Rule>, start: Word)
    ensures SearchInv(bi, start, [Entry(start, [])], {}, 0)
  {
    assert Entry(start, []) in [Entry(start, [])];
    assert start in WordsAt([Entry(start, [])], 0);
  }

  /** Once the queue holds only paths of `level + 1` moves, the search moves on
      to the next level. */
  lemma SearchInvBump(bi: seq<Rule>, start: Word, q: seq<Entry>, seen: set<Word>, level: nat)
    requires SearchInv(bi, start, q, seen, level)
    requires q != [] && |q[0].path| == level + 1
    ensures SearchInv(bi, start, q, seen, level + 1)
  {
    AllAtNextLevel(bi, start, q, level);
    var nxt := Within(bi, start, level + 1);
    var cur := Within(bi, start, level);
    forall v | v in nxt ensures v in seen + WordsAt(q, level + 1) {
      if v !in cur {
        var u :| u in cur && v in Successors(bi, u);
      }
    }
  }

  lemma AllAtNextLevel(bi: seq<Rule>, start: Word, q: seq<Entry>, level: nat)
    requires QueueOk(bi, start, q, level)
    requires q != [] && |q[0].path| == level + 1
    ensures WordsAt(q, level) == {} && Words(q) == WordsAt(q, level + 1)
    ensures QueueOk(bi, start, q, level + 1)
  {
    forall e | e in q ensures |e.path| == level + 1 {
      var i :| 0 <= i < |q| && q[i] == e;
      if i > 0 {
        assert |q[0].path| <= |q[i].path|;
      }
    }
  }

  /** Dequeuing a word that was dequeued before changes nothing that matters. */
  lemma SearchInvPopSeen(bi: seq<Rule>, start: Word, q: seq<Entry>, seen: set<Word>, level: nat)
    requires SearchInv(bi, start, q, seen, level)
    requires q != [] && |q[0].path| == level && q[0].word in seen
    ensures SearchInv(bi, start, q[1..], seen, level)
  {
    WordsCons(q);
    WordsAtCons(q, level);
    SortedTail(q);
  }

  /** Dequeuing a new word other than the normal form, marking it seen and
      queuing its rewrites. */
  lemma SearchInvPopNew(bi: seq<Rule>, start: Word, q: seq<Entry>, seen: set<Word>, level: nat,
                        q': seq<Entry>)
    requires SearchInv(bi, start, q, seen, level)
    requires q != [] && |q[0].path| == level && q[0].word !in seen && q[0].word != NormalForm
    requires |q'| >= |q| - 1 && q'[..|q| - 1] == q[1..]
    requires forall j :: |q| - 1 <= j < |q'| ==> Extends(bi, q[0].word, q[0].path, q'[j])
    requires Words(q'[|q| - 1..]) == Successors(bi, q[0].word)
    ensures SearchInv(bi, start, q', seen + {q[0].word}, level)
  {
    PopNewQueue(bi, start, q, level, q');
    PopNewCovers(bi, start, q, seen, level, q');
  }

  lemma PopNewQueue(bi: seq<Rule>, start: Word, q: seq<Entry>, level: nat, q': seq<Entry>)
    requires QueueOk(bi, start, q, level)
    requires q != [] && |q[0].path| == level
    requires |q'| >= |q| - 1 && q'[..|q| - 1] == q[1..]
    requires forall j :: |q| - 1 <= j < |q'| ==> Extends(bi, q[0].word, q[0].path, q'[j])
    ensures QueueOk(bi, start, q', level)
  {
    var n := |q| - 1;
    forall i | 0 <= i < |q'| ensures Leads(bi, q'[i].path, start, q'[i].word) {
      if i < n {
        assert q'[i] == q[i + 1];
      } else {
        assert Extends(bi, q[0].word, q[0].path, q'[i]);
        assert q'[i].path[..|q'[i].path| - 1] == q[0].path;
      }
    }
    forall i | 0 <= i < |q'| ensures level <= |q'[i].path| <= level + 1 {
      if i < n {
        assert q'[i] == q[i + 1];
      }
    }
    forall i, j | 0 <= i < j < |q'| ensures |q'[i].path| <= |q'[j].path| {
      if j < n {
        assert q'[i] == q[i + 1] && q'[j] == q[j + 1];
      } else if i < n {
        assert q'[i] == q[i + 1];
      }
    }
  }

  lemma PopNewCovers(bi: seq<Rule>, start: Word, q: seq<Entry>, seen: set<Word>, level: nat, q': seq<Entry>)
    requires Covers(bi, start, q, seen, level)
    requires q != [] && |q[0].path| == level
    requires |q'| >= |q| - 1 && q'[..|q| - 1] == q[1..]
    requires Words(q'[|q| - 1..]) == Successors(bi, q[0].word)
    ensures Covers(bi, start, q', seen + {q[0].word}, level)
  {
    var n := |q| - 1;
    WordsCons(q);
    WordsAtCons(q, level);
    assert q' == q[1..] + q'[n..];
    WordsAppend(q[1..], q'[n..]);
    WordsAtAppend(q[1..], q'[n..], level);
  }

  lemma WordsAtCons(q: seq<Entry>, d: nat)
    requires q != []
    ensures WordsAt(q, d) == (if |q[0].path| == d then {q[0].word} else {}) + WordsAt(q[1..], d)
  {
    assert q == [q[0]] + q[1..];
  }

  lemma WordsAtAppend(p: seq<Entry>, q: seq<Entry>, d: nat)
    ensures WordsAt(p, d) <= WordsAt(p + q, d)
  {
    forall x | x in WordsAt(p, d) ensures x in WordsAt(p + q, d) {
      var e :| e in p && |e.path| == d && e.word == x;
      assert e in p + q;
    }
  }

  lemma SortedTail(q: seq<Entry>)
    requires q != []
    ensures forall i :: 0 <= i < |q| - 1 ==> q[1..][i] == q[i + 1]
  {
  }

  /** The normal form, not yet seen when dequeued at `level`, is not reachable
      in fewer steps. */
  lemma FoundIsShortest(bi: seq<Rule>, start: Word, seen: set<Word>, level: nat)
    requires NormalForm !in seen
    requires level > 0 ==> Within(bi, start, level - 1) <= seen
    ensures forall m: nat :: m < level ==> NormalForm !in Within(bi, start, m)
  {
    if level > 0 {
      var below := Within(bi, start, level - 1);
      forall m: nat | m < level ensures NormalForm !in Within(bi, start, m) {
        WithinMonotone(bi, start, m, level - 1);
        assert Within(bi, start, m) <= below;
      }
    }
  }

  /** With the queue empty, the words dequeued hold everything reachable, and the
      normal form is not among them. */
  lemma ExhaustedUnreachable(bi: seq<Rule>, start: Word, seen: set<Word>, level: nat)
    requires SearchInv(bi, start, [], seen, level)
    ensures !Reaches(bi, start, NormalForm)
  {
    assert Words([]) == {} && WordsAt([], level) == {};
    WithinMonotone(bi, start, 0, level);
    assert start in seen;
    forall k: nat ensures NormalForm !in Within(bi, start, k) {
      WithinClosed(bi, start, seen, k);
    }
  }

  /** With the queue empty, the words dequeued are exactly the reachable ones,
      provided each of them is reachable. */
  lemma ExhaustedClosure(bi: seq<Rule>, start: Word, seen: set<Word>, level: nat)
    requires SearchInv(bi, start, [], seen, level)
    requires forall x :: x in seen ==> Reaches(bi, start, x)
    ensures forall v :: v in seen <==> Reaches(bi, start, v)
  {
    assert Words([]) == {} && WordsAt([], level) == {};
    WithinMonotone(bi, start, 0, level);
    assert start in seen;
    forall v | Reaches(bi, start, v) ensures v in seen {
      var k :| v in Within(bi, start, k);
      WithinClosed(bi, start, seen, k);
    }
  }

  /** The word at the front of the queue is reachable from the start. */
  lemma FrontReachable(bi: seq<Rule>, start: Word, q: seq<Entry>, level: nat)
    requires q != [] && QueueOk(bi, start, q, level)
    ensures Reaches(bi, start, q[0].word)
  {
    LeadsWithin(bi, q[0].path, start, q[0].word);
  }

  /** A path of moves starts at the word it leads from. */
  lemma {:induction false} LeadsFrom(rules: seq<Rule>, path: seq<Step>, from: Word, to: Word)
    requires Leads(rules, path, from, to) && path != []
    ensures path[0].word == from
    decreases |path|
  {
    var prefix := path[..|path| - 1];
    var s := path[|path| - 1];
    if prefix != [] {
      LeadsFrom(rules, prefix, from, s.word);
      assert path[0] == prefix[0];
    }
  }

  /** The words of `s` are pairwise distinct. */
  predicate Distinct(s: seq<Word>) {
    forall i, j :: 0 <= i < j < |s| ==> s[i] != s[j]
  }

  /** `path` is what the search returns on success: a derivation of the normal
      form from `start` by moves of `bi`, of the least possible number of moves,
      closed by the entry `Normal("a")`. */
  ghost predicate ShortestDerivation(bi: seq<Rule>, start: Word, path: seq<Step>) {
    |path| >= 1 && path[0].word == start && path[|path| - 1] == Normal(NormalForm) &&
    Leads(bi, path[..|path| - 1], start, NormalForm) &&
    forall m: nat :: m < |path| - 1 ==> NormalForm !in Within(bi, start, m)
  }

  /** Closing a shortest derivation of the normal form with its `Normal` entry. */
  lemma ClosedPath(bi: seq<Rule>, start: Word, p: seq<Step>, level: nat)
    requires Leads(bi, p, start, NormalForm) && |p| == level
    requires forall m: nat :: m < level ==> NormalForm !in Within(bi, start, m)
    ensures ShortestDerivation(bi, start, p + [Normal(NormalForm)])
  {
    var path := p + [Normal(NormalForm)];
    assert path[..|path| - 1] == p;
    if p != [] {
      LeadsFrom(bi, p, start, NormalForm);
    }
  }

  /** `expanded` lists the words of `seen`, each once, and every one of them is
      reachable from `start`. */
  ghost predicate Expansions(bi: seq<Rule>, start: Word, expanded: seq<Word>, seen: set<Word>) {
    Distinct(expanded) &&
    (forall x :: x in seen <==> x in expanded) &&
    (forall x :: x in seen ==> Reaches(bi, start, x))
  }

  lemma ExpansionsSnoc(bi: seq<Rule>, start: Word, expanded: seq<Word>, seen: set<Word>, w: Word)
    requires Expansions(bi, start, expanded, seen) && w !in seen && Reaches(bi, start, w)
    ensures Expansions(bi, start, expanded + [w], seen + {w})
  {
    forall i, j | 0 <= i < j < |expanded| + 1 ensures (expanded + [w])[i] != (expanded + [w])[j] {
      if j == |expanded| {
        assert expanded[i] in seen;
      }
    }
  }

  /** One pass of the search loop: dequeue the front entry; skip it if its word
      was seen; otherwise mark the word seen and either finish with its path,
      when it is the normal form, or queue its rewrites. */
  method VisitFront(rules: seq<Rule>, ghost start: Word, queue: seq<Entry>, seen: set<Word>, ghost level: nat)
    returns (found: Option<seq<Step>>, queue': seq<Entry>, seen': set<Word>, ghost level': nat,
             ghost expandedWord: Option<Word>)
    requires queue != [] && SearchInv(Bidirectional(rules), start, queue, seen, level)
    ensures found.None? ==> SearchInv(Bidirectional(rules), start, queue', seen', level')
    ensures found.Some? ==> found.value == queue[0].path + [Normal(NormalForm)]
    ensures found.Some? ==> ShortestDerivation(Bidirectional(rules), start, found.value)
    ensures queue[0].word == NormalForm && queue[0].word !in seen ==> found.Some?
    ensures found.None? && expandedWord.None? ==> seen' == seen
    ensures expandedWord.Some? ==> expandedWord.value !in seen && seen' == seen + {expandedWord.value}
    ensures expandedWord.Some? ==> expandedWord.value == queue[0].word
    ensures queue[0].word in seen ==>
      found.None? && expandedWord.None? && queue' == queue[1..] && seen' == seen
    ensures queue[0].word !in seen && queue[0].word != NormalForm ==>
      found.None? && expandedWord == Some(queue[0].word) &&
      |queue'| >= |queue| - 1 && queue'[..|queue| - 1] == queue[1..] &&
      Words(queue'[|queue| - 1..]) == Successors(Bidirectional(rules), queue[0].word)
  {
    ghost var bi := Bidirectional(rules);
    level' := level;
    if |queue[0].path| == level + 1 {
      SearchInvBump(bi, start, queue, seen, level);
      level' := level + 1;
    }
    var e := queue[0];
    if e.word in seen {
      SearchInvPopSeen(bi, start, queue, seen, level');
      return None, queue[1..], seen, level', None;
    }
    seen' := seen + {e.word};
    if e.word == NormalForm {
      FoundIsShortest(bi, start, seen, level');
      ClosedPath(bi, start, e.path, level');
      return Some(e.path + [Normal(e.word)]), queue, seen', level', None;
    }
    queue' := Expand(rules, e.word, e.path, queue[1..]);
    SearchInvPopNew(bi, start, queue, seen, level', queue');
    found, expandedWord := None, Some(e.word);
  }

  /** Breadth-first search for a shortest derivation from `start` to the normal
      form, using every rule in both directions. At most `fuel` entries are
      dequeued. */
  method ReduceWithPath(rules: seq<Rule>, start: Word, fuel: nat) returns (result: Reduction, ghost expanded: seq<Word>)
    ensures result.Reduced? ==>
      |result.path| >= 1 && result.path[0].word == start &&
      result.path[|result.path| - 1] == Normal(NormalForm) &&
      Leads(Bidirectional(rules), result.path[..|result.path| - 1], start, NormalForm)
    ensures result.Reduced? ==>
      forall m: nat :: m < |result.path| - 1 ==> NormalForm !in Within(Bidirectional(rules), start, m)
    ensures result.NoPath? ==> !Reaches(Bidirectional(rules), start, NormalForm)
    ensures start == NormalForm && fuel > 0 ==> result == Reduced([Normal(NormalForm)])
    ensures Distinct(expanded) && |expanded| <= fuel
    ensures forall v :: v in expanded ==> Reaches(Bidirectional(rules), start, v)
    ensures result.NoPath? ==> forall v :: v in expanded <==> Reaches(Bidirectional(rules), start, v)
  {
    ghost var bi := Bidirectional(rules);
    expanded := [];
    var queue := [Entry(start, [])];
    var seen: set<Word> := {};
    var remaining := fuel;
    ghost var level := 0;
    SearchInvInit(bi, start);
    while queue != []
      invariant SearchInv(bi, start, queue, seen, level)
      invariant start == NormalForm ==> queue == [Entry(start, [])] && seen == {} && remaining == fuel
      invariant Expansions(bi, start, expanded, seen)
      invariant |expanded| + remaining <= fuel
      decreases remaining
    {
      if remaining == 0 {
        return OutOfFuel, expanded;
      }
      remaining := remaining - 1;
      var found;
      ghost var seen0, expandedWord := seen, None;
      FrontReachable(bi, start, queue, level);
      found, queue, seen, level, expandedWord := VisitFront(rules, start, queue, seen, level);
      if found.Some? {
        return Reduced(found.value), expanded;
      }
      if expandedWord.Some? {
        ExpansionsSnoc(bi, start, expanded, seen0, expandedWord.value);
        expanded := expanded + [expandedWord.value];
      }
    }
    ExhaustedUnreachable(bi, start, seen, level);
    ExhaustedClosure(bi, start, seen, level);
    result := NoPath;
  }
}
