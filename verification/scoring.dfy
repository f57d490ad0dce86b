/**
 Answer scoring: turning questionnaire answers into a score per evaluation
 axis (`convert_answers_to_scores`). Every axis 1..9 starts at a baseline
 and each answer that matches a rule adds a fixed step (one rule subtracts).
 */
module Scoring {

  import opened Wrappers
  import opened Schemas

  /** The default baseline and step of the scorer. */
  const BaseScore: real := 4.5
  const Step: real := 0.25

  /** The evaluation axes (metric ids) the score vector covers. */
  const Axes: set<int> := set k | 1 <= k <= 9

  /** The starting vector: every axis at `base`, in key order 1..9. */
  function Baseline(base: real): map<int, real> {
    map k | k in Axes :: base
  }

  function Bump(v: map<int, real>, axis: int, delta: real): map<int, real>
    requires axis in v
  {
    v[axis := v[axis] + delta]
  }

  /** The effect of one answer on the running vector: the scorer's if/elif chain. */
  function ApplyAnswer(v: map<int, real>, a: Answer, step: real): (r: map<int, real>)
    requires Axes <= v.Keys
    ensures r.Keys == v.Keys
  {
    var qid := a.questionId;
    var val := a.value;
    if qid == 1 then
      if PyEquals(val, 0) then Bump(v, 1, step)
      else if PyEquals(val, 1) then Bump(v, 5, step)
      else v
    else if qid == 2 && PyEquals(val, 1) then Bump(v, 4, step)
    else if qid == 4 && PyEquals(val, 0) then Bump(v, 6, step)
    else if qid == 5 && PyEquals(val, 0) then Bump(v, 3, step)
    else if qid == 7 then
      if PyEquals(val, 0) then Bump(v, 1, step)
      else if PyEquals(val, 1) then Bump(v, 9, step)
      else v
    else if qid == 8 then
      if PyEquals(val, 0) then Bump(v, 2, step)
      else if PyEquals(val, 1) then Bump(v, 5, step)
      else v
    else if qid == 9 && PyEquals(val, 0) then Bump(v, 1, step)
    else if qid == 10 && PyEquals(val, 0) then Bump(Bump(v, 6, step), 9, -step)
    else if qid == 11 && PyEquals(val, 0) then Bump(Bump(v, 7, step), 8, step)
    else v
  }

  /** The score vector for a sequence of answers, applied in request order. */
  function ConvertAnswersToScores(answers: seq<Answer>, base: real, step: real): (v: map<int, real>)
    ensures v.Keys == Axes
    ensures |answers| == 0 ==> forall k :: k in v ==> v[k] == base
    decreases |answers|
  {
    if |answers| == 0 then Baseline(base)
    else ApplyAnswer(ConvertAnswersToScores(answers[..|answers| - 1], base, step), answers[|answers| - 1], step)
  }

  // ---------------------------------------------------------------------------
  // The same rules as data: (question id, answer value) -> [(axis, sign)].
  // ---------------------------------------------------------------------------

  const Rules: map<(int, int), seq<(int, int)>> := map[
    (1, 0) := [(1, 1)],
    (1, 1) := [(5, 1)],
    (2, 1) := [(4, 1)],
    (4, 0) := [(6, 1)],
    (5, 0) := [(3, 1)],
    (7, 0) := [(1, 1)],
    (7, 1) := [(9, 1)],
    (8, 0) := [(2, 1)],
    (8, 1) := [(5, 1)],
    (9, 0) := [(1, 1)],
    (10, 0) := [(6, 1), (9, -1)],
    (11, 0) := [(7, 1), (8, 1)]
  ]

  /** The adjustments an answer triggers, if any rule matches it. */
  function RuleFor(a: Answer): Option<seq<(int, int)>> {
    match AsInt(a.value)
    case Some(n) => if (a.questionId, n) in Rules then Some(Rules[(a.questionId, n)]) else None
    case None => None
  }

  /** The net sign a list of adjustments puts on one axis. */
  function SignOn(adjustments: seq<(int, int)>, axis: int): int {
    if |adjustments| == 0 then 0
    else (if adjustments[0].0 == axis then adjustments[0].1 else 0) + SignOn(adjustments[1..], axis)
  }

  /** The amount one answer adds to one axis according to the rule table. */
  function Effect(a: Answer, axis: int, step: real): real {
    match RuleFor(a)
    case Some(adj) => step * SignOn(adj, axis) as real
    case None => 0.0
  }

  /** The amount a sequence of answers adds to one axis. */
  function TotalEffect(answers: seq<Answer>, axis: int, step: real): real
    decreases |answers|
  {
    if |answers| == 0 then 0.0
    else TotalEffect(answers[..|answers| - 1], axis, step) + Effect(answers[|answers| - 1], axis, step)
  }

  // ---------------------------------------------------------------------------
  // Properties.
  // ---------------------------------------------------------------------------

  lemma SignOnShortLists()
    ensures forall p: (int, int), k :: SignOn([p], k) == if p.0 == k then p.1 else 0
    ensures forall p: (int, int), q: (int, int), k ::
      SignOn([p, q], k) == (if p.0 == k then p.1 else 0) + (if q.0 == k then q.1 else 0)
  {
    forall p: (int, int), k ensures SignOn([p], k) == if p.0 == k then p.1 else 0 {
      assert [p][1..] == [];
    }
    forall p: (int, int), q: (int, int), k
      ensures SignOn([p, q], k) == (if p.0 == k then p.1 else 0) + (if q.0 == k then q.1 else 0)
    {
      assert [p, q][1..] == [q];
      assert [q][1..] == [];
    }
  }

  /** A single-adjustment rule `[(axis, 1)]` is one bump of `axis` by the step. */
  lemma SingleRule(v: map<int, real>, a: Answer, step: real, axis: int)
    requires axis in v
    requires RuleFor(a) == Some([(axis, 1)])
    ensures forall k :: k in v ==> Bump(v, axis, step)[k] == v[k] + Effect(a, k, step)
  {
    SignOnShortLists();
  }

  /** A two-adjustment rule `[(first, 1), (second, sign)]` is two bumps of distinct axes. */
  lemma DoubleRule(v: map<int, real>, a: Answer, step: real, first: int, second: int, sign: int)
    requires first in v && second in v && first != second
    requires sign == 1 || sign == -1
    requires RuleFor(a) == Some([(first, 1), (second, sign)])
    ensures forall k :: k in v ==>
      Bump(Bump(v, first, step), second, if sign == 1 then step else -step)[k] == v[k] + Effect(a, k, step)
  {
    SignOnShortLists();
  }

  /** The if/elif chain adds exactly the rule table's adjustments, whatever the current vector. */
  lemma ApplyFollowsRules(v: map<int, real>, a: Answer, step: real)
    requires Axes <= v.Keys
    ensures forall k :: k in v ==> ApplyAnswer(v, a, step)[k] == v[k] + Effect(a, k, step)
  {
    var qid := a.questionId;
    var val := a.value;
    assert 1 in v && 2 in v && 3 in v && 4 in v && 5 in v && 6 in v && 7 in v && 8 in v && 9 in v;
    if qid == 1 && PyEquals(val, 0) {
      SingleRule(v, a, step, 1);
    } else if qid == 1 && PyEquals(val, 1) {
      SingleRule(v, a, step, 5);
    } else if qid == 2 && PyEquals(val, 1) {
      SingleRule(v, a, step, 4);
    } else if qid == 4 && PyEquals(val, 0) {
      SingleRule(v, a, step, 6);
    } else if qid == 5 && PyEquals(val, 0) {
      SingleRule(v, a, step, 3);
    } else if qid == 7 && PyEquals(val, 0) {
      SingleRule(v, a, step, 1);
    } else if qid == 7 && PyEquals(val, 1) {
      SingleRule(v, a, step, 9);
    } else if qid == 8 && PyEquals(val, 0) {
      SingleRule(v, a, step, 2);
    } else if qid == 8 && PyEquals(val, 1) {
      SingleRule(v, a, step, 5);
    } else if qid == 9 && PyEquals(val, 0) {
      SingleRule(v, a, step, 1);
    } else if qid == 10 && PyEquals(val, 0) {
      DoubleRule(v, a, step, 6, 9, -1);
    } else if qid == 11 && PyEquals(val, 0) {
      DoubleRule(v, a, step, 7, 8, 1);
    } else {
      assert RuleFor(a) == None;
      assert ApplyAnswer(v, a, step) == v;
    }
  }

  /** Each axis ends at the baseline plus the sum of the rule deltas of all answers; nothing is clamped. */
  lemma {:induction false} ScoreIsBasePlusEffects(answers: seq<Answer>, base: real, step: real)
    ensures forall k :: k in Axes ==> ConvertAnswersToScores(answers, base, step)[k] == base + TotalEffect(answers, k, step)
    decreases |answers|
  {
    if |answers| > 0 {
      var init := answers[..|answers| - 1];
      ScoreIsBasePlusEffects(init, base, step);
      ApplyFollowsRules(ConvertAnswersToScores(init, base, step), answers[|answers| - 1], step);
    }
  }

  lemma {:induction false} TotalEffectAppend(p: seq<Answer>, q: seq<Answer>, axis: int, step: real)
    ensures TotalEffect(p + q, axis, step) == TotalEffect(p, axis, step) + TotalEffect(q, axis, step)
    decreases |q|
  {
    if |q| == 0 {
      assert p + q == p;
    } else {
      var q' := q[..|q| - 1];
      assert (p + q)[..|p + q| - 1] == p + q';
      TotalEffectAppend(p, q', axis, step);
    }
  }

  lemma MultisetRemoveAt<T>(b: seq<T>, i: int)
    requires 0 <= i < |b|
    ensures multiset(b[..i] + b[i + 1..]) == multiset(b) - multiset{b[i]}
  {
    assert b == b[..i] + [b[i]] + b[i + 1..];
  }

  lemma TotalEffectRemoveAt(b: seq<Answer>, i: int, axis: int, step: real)
    requires 0 <= i < |b|
    ensures TotalEffect(b, axis, step) == TotalEffect(b[..i] + b[i + 1..], axis, step) + Effect(b[i], axis, step)
  {
    var left, right := b[..i], b[i + 1..];
    assert b == left + ([b[i]] + right);
    TotalEffectAppend(left, [b[i]] + right, axis, step);
    TotalEffectAppend([b[i]], right, axis, step);
    TotalEffectAppend(left, right, axis, step);
    assert TotalEffect([b[i]], axis, step) == Effect(b[i], axis, step) by {
      assert [b[i]][..0] == [];
    }
  }

  lemma {:induction false} TotalEffectPermutation(a: seq<Answer>, b: seq<Answer>, axis: int, step: real)
    requires multiset(a) == multiset(b)
    ensures TotalEffect(a, axis, step) == TotalEffect(b, axis, step)
    decreases |a|
  {
    if |a| == 0 {
      assert |b| == |multiset(b)| == 0;
    } else {
      var x := a[|a| - 1];
      var a' := a[..|a| - 1];
      assert x in multiset(b);
      var i :| 0 <= i < |b| && b[i] == x;
      MultisetRemoveAt(a, |a| - 1);
      MultisetRemoveAt(b, i);
      assert a[..|a| - 1] + a[|a|..] == a';
      TotalEffectPermutation(a', b[..i] + b[i + 1..], axis, step);
      TotalEffectRemoveAt(b, i, axis, step);
    }
  }

  /** The submission order of the answers does not affect the score vector. */
  lemma AnswerOrderIrrelevant(a: seq<Answer>, b: seq<Answer>, base: real, step: real)
    requires multiset(a) == multiset(b)
    ensures ConvertAnswersToScores(a, base, step) == ConvertAnswersToScores(b, base, step)
  {
    ScoreIsBasePlusEffects(a, base, step);
    ScoreIsBasePlusEffects(b, base, step);
    forall k | k in Axes
      ensures ConvertAnswersToScores(a, base, step)[k] == ConvertAnswersToScores(b, base, step)[k]
    {
      TotalEffectPermutation(a, b, k, step);
    }
  }

  /** Only question 10 answered 0 subtracts, and only from axis 9; every other effect is an addition. */
  lemma EffectSigns(a: Answer, k: int, step: real)
    requires step >= 0.0
    ensures Effect(a, k, step) < 0.0 ==> k == 9 && a.questionId == 10 && PyEquals(a.value, 0)
    ensures k != 9 ==> Effect(a, k, step) >= 0.0
  {
    SignOnShortLists();
    match AsInt(a.value)
    case None =>
    case Some(n) =>
      if (a.questionId, n) in Rules {
        assert SignOn(Rules[(a.questionId, n)], k) < 0 ==> (a.questionId, n) == (10, 0) && k == 9;
      }
  }

  lemma {:induction false} TotalEffectNonNegative(answers: seq<Answer>, k: int, step: real)
    requires step >= 0.0 && k != 9
    ensures TotalEffect(answers, k, step) >= 0.0
    decreases |answers|
  {
    if |answers| > 0 {
      TotalEffectNonNegative(answers[..|answers| - 1], k, step);
      EffectSigns(answers[|answers| - 1], k, step);
    }
  }

  /** Axes 1..8 never fall below the baseline; nothing is clamped from above either. */
  lemma AxesOneToEightNeverBelowBase(answers: seq<Answer>, base: real, step: real)
    requires step >= 0.0
    ensures forall k :: 1 <= k <= 8 ==> ConvertAnswersToScores(answers, base, step)[k] >= base
  {
    ScoreIsBasePlusEffects(answers, base, step);
    forall k | 1 <= k <= 8 ensures ConvertAnswersToScores(answers, base, step)[k] >= base {
      TotalEffectNonNegative(answers, k, step);
    }
  }

  /**
   An answer changes the vector exactly when some rule matches it; question
   ids 3, 6 and 12, unlisted values and string values are silently ignored.
   */
  lemma AnswerIgnoredIffNoRule(v: map<int, real>, a: Answer, step: real)
    requires Axes <= v.Keys && step != 0.0
    ensures ApplyAnswer(v, a, step) == v <==> RuleFor(a).None?
    ensures a.questionId in {3, 6, 12} ==> ApplyAnswer(v, a, step) == v
  {
    ApplyFollowsRules(v, a, step);
    SignOnShortLists();
    if RuleFor(a).Some? {
      var adj := RuleFor(a).value;
      var k := adj[0].0;
      assert SignOn(adj, k) != 0;
      assert ApplyAnswer(v, a, step)[k] != v[k];
    } else {
      assert forall k :: k in v ==> ApplyAnswer(v, a, step)[k] == v[k];
    }
  }

  /** Answers [(1, 0), (7, 1)] give 4.75 on axes 1 and 9 and leave the rest at 4.5. */
  lemma WorkedExample()
    ensures ConvertAnswersToScores([Answer(1, IntValue(0)), Answer(7, IntValue(1))], BaseScore, Step)
         == map[1 := 4.75, 2 := 4.5, 3 := 4.5, 4 := 4.5, 5 := 4.5, 6 := 4.5, 7 := 4.5, 8 := 4.5, 9 := 4.75]
  {
    var answers := [Answer(1, IntValue(0)), Answer(7, IntValue(1))];
    assert answers[..1] == [Answer(1, IntValue(0))];
    assert answers[..1][..0] == [];
  }

  /** Scores are not clamped: question 10 answered `False` pushes axis 9 below the baseline. */
  lemma Axis9CanFallBelowBase()
    ensures ConvertAnswersToScores([Answer(10, BoolValue(false))], BaseScore, Step)[9] == 4.25
  {
    assert [Answer(10, BoolValue(false))][..0] == [];
  }
}
