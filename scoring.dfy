/**
 * Scoring of a submitted response: a per-question partial value in `decimal`
 * arithmetic (exact here), weighted by the question's weight, normalised by
 * the total weight of the template's questions and rounded to two places
 * with round-half-to-even.
 */
module Scoring {
  import opened Wrappers
  import opened Entities

  /** `Math.Clamp(x, lo, hi)`. */
  function Clamp(x: real, lo: real, hi: real): (r: real)
    requires lo <= hi
    ensures lo <= r <= hi
    ensures lo <= x <= hi ==> r == x
    ensures x < lo ==> r == lo
    ensures hi < x ==> r == hi
  {
    if x < lo then lo else if hi < x then hi else x
  }

  /** The integer nearest to `y`, ties to the even neighbour. */
  function RoundHalfEven(y: real): (n: int)
    ensures -0.5 <= n as real - y <= 0.5
  {
    var f := y.Floor;
    var frac := y - f as real;
    if frac < 0.5 then f
    else if frac > 0.5 then f + 1
    else if f % 2 == 0 then f
    else f + 1
  }

  /** `Math.Round(x, 2)` on `decimal`, whose default midpoint rule is to-even. */
  function Round2(x: real): (r: real)
    ensures -0.005 <= r - x <= 0.005
  {
    RoundHalfEven(x * 100.0) as real / 100.0
  }

  /** A value with at most two decimals is left as it is. */
  lemma Round2Exact(n: int)
    ensures Round2(n as real / 100.0) == n as real / 100.0
  {
    var y := n as real / 100.0 * 100.0;
    assert y == n as real;
    assert y.Floor == n;
  }

  /** Rounding keeps a value between two bounds that are themselves two-decimal values. */
  lemma Round2Between(x: real, lo: int, hi: int)
    requires lo as real / 100.0 <= x <= hi as real / 100.0
    ensures lo as real / 100.0 <= Round2(x) <= hi as real / 100.0
  {
    var y := x * 100.0;
    assert lo as real <= y <= hi as real;
    var f := y.Floor;
    assert lo <= f <= hi;
    if f == hi {
      assert y == hi as real;
    }
  }

  /** Rounding is monotone. */
  lemma Round2Monotone(x: real, y: real)
    requires x <= y
    ensures Round2(x) <= Round2(y)
  {
    var a, b := x * 100.0, y * 100.0;
    assert a <= b;
    var fa, fb := a.Floor, b.Floor;
    assert fa <= fb;
    if fa == fb {
      assert a - fa as real <= b - fb as real;
    } else {
      assert fa + 1 <= fb;
    }
  }

  /** Ties go to the even neighbour, away from zero or towards it. */
  lemma Round2Midpoints()
    ensures Round2(0.125) == 0.12
    ensures Round2(0.135) == 0.14
    ensures Round2(-0.125) == -0.12
    ensures Round2(2.675) == 2.68
  {
    assert (0.125 * 100.0).Floor == 12;
    assert (0.135 * 100.0).Floor == 13;
    assert (-0.125 * 100.0).Floor == -13;
    assert (2.675 * 100.0).Floor == 267;
  }

  /**
   * The value one answer earns for its question, before weighting: yes/no
   * earns 1 only for true; a rating is clamped to 1..5 and scaled to 0.2..1;
   * a number counts as given; text and choice questions earn nothing.
   */
  function PartialValue(qtype: QuestionType, a: Answer): (v: real)
    ensures qtype == YesNo ==> (v == 1.0 <==> a.boolValue == Some(true)) && (v == 0.0 <==> a.boolValue != Some(true))
    ensures qtype == Rating1to5 ==> (a.numberValue.None? ==> v == 0.0) && (a.numberValue.Some? ==> 0.2 <= v <= 1.0)
    ensures qtype == Rating1to5 && a.numberValue.Some? && 1.0 <= a.numberValue.value <= 5.0 ==> v == a.numberValue.value / 5.0
    ensures qtype == Number ==> v == a.numberValue.GetOr(0.0)
    ensures qtype in {Text, SingleChoice, MultipleChoice} ==> v == 0.0
  {
    match qtype
    case YesNo => if a.boolValue == Some(true) then 1.0 else 0.0
    case Rating1to5 => if a.numberValue.None? then 0.0 else Clamp(a.numberValue.value, 1.0, 5.0) / 5.0
    case Number => a.numberValue.GetOr(0.0)
    case _ => 0.0
  }

  /** `Answers.FirstOrDefault(a => a.QuestionId == questionId)`. */
  function FindAnswer(answers: seq<AnswerEntity>, questionId: Guid): (r: Option<Answer>)
    ensures r.Some? ==> r.value.questionId == questionId
    ensures r.Some? <==> exists i :: 0 <= i < |answers| && answers[i].data.answer.questionId == questionId
  {
    if answers == [] then None
    else if answers[0].data.answer.questionId == questionId then Some(answers[0].data.answer)
    else
      var r := FindAnswer(answers[1..], questionId);
      assert forall i :: 1 <= i < |answers| ==> answers[i] == answers[1..][i - 1];
      r
  }

  /** What a question adds to the weighted sum: nothing when it has no answer. */
  function Contribution(q: QuestionEntity, answers: seq<AnswerEntity>): real {
    match FindAnswer(answers, q.base.id)
    case None => 0.0
    case Some(a) => PartialValue(q.data.question.qtype, a) * q.data.question.weight
  }

  /** The sum of all questions' weights, answered or not. */
  function TotalWeight(qs: seq<QuestionEntity>): real {
    if qs == [] then 0.0 else TotalWeight(qs[..|qs| - 1]) + qs[|qs| - 1].data.question.weight
  }

  function WeightedSum(qs: seq<QuestionEntity>, answers: seq<AnswerEntity>): real {
    if qs == [] then 0.0 else WeightedSum(qs[..|qs| - 1], answers) + Contribution(qs[|qs| - 1], answers)
  }

  /** The score on 0..100, or 0 when the questions weigh nothing in total. */
  function Score(qs: seq<QuestionEntity>, answers: seq<AnswerEntity>): real {
    var total := TotalWeight(qs);
    if total == 0.0 then 0.0 else Round2(WeightedSum(qs, answers) / total * 100.0)
  }

  lemma {:induction false} WeightedSumNoAnswers(qs: seq<QuestionEntity>)
    ensures WeightedSum(qs, []) == 0.0
  {
    if qs != [] {
      WeightedSumNoAnswers(qs[..|qs| - 1]);
    }
  }

  /** A response with no answers scores 0. */
  lemma ScoreNoAnswers(qs: seq<QuestionEntity>)
    ensures Score(qs, []) == 0.0
  {
    WeightedSumNoAnswers(qs);
    Round2Exact(0);
  }

  /**
   * A question answered at its maximum: yes for a yes/no question, 5 or more
   * for a rating, exactly 1 for a number. Text and choice questions can earn
   * nothing, so they can only be at their maximum when they weigh nothing.
   */
  predicate AtMaximum(q: QuestionEntity, answers: seq<AnswerEntity>) {
    var a := FindAnswer(answers, q.base.id);
    match q.data.question.qtype
    case YesNo => a.Some? && a.value.boolValue == Some(true)
    case Rating1to5 => a.Some? && a.value.numberValue.Some? && a.value.numberValue.value >= 5.0
    case Number => a.Some? && a.value.numberValue == Some(1.0)
    case _ => q.data.question.weight == 0.0
  }

  lemma {:induction false} WeightedSumAtMaximum(qs: seq<QuestionEntity>, answers: seq<AnswerEntity>)
    requires forall i :: 0 <= i < |qs| ==> AtMaximum(qs[i], answers)
    ensures WeightedSum(qs, answers) == TotalWeight(qs)
  {
    if qs != [] {
      var init := qs[..|qs| - 1];
      assert forall i :: 0 <= i < |init| ==> init[i] == qs[i];
      WeightedSumAtMaximum(init, answers);
    }
  }

  /** Every question answered at its maximum scores 100. */
  lemma ScoreAllMaximal(qs: seq<QuestionEntity>, answers: seq<AnswerEntity>)
    requires forall i :: 0 <= i < |qs| ==> AtMaximum(qs[i], answers)
    requires TotalWeight(qs) != 0.0
    ensures Score(qs, answers) == 100.0
  {
    WeightedSumAtMaximum(qs, answers);
    FullRatio(TotalWeight(qs));
    Round2Exact(10000);
  }

  /** A nonzero total over itself, scaled to percent, is 100. */
  lemma FullRatio(w: real)
    requires w != 0.0
    ensures w / w * 100.0 == 100.0
  {
    assert w / w == 1.0;
  }

  /** A sum between nothing and its nonzero total, scaled to percent, lies on 0..100. */
  lemma RatioBounds(s: real, w: real)
    requires 0.0 <= s <= w && w != 0.0
    ensures 0.0 <= s / w * 100.0 <= 100.0
  {
    var r := s / w;
    assert r * w == s;
    assert 0.0 <= r <= 1.0;
  }

  /** The assumptions under which a score stays on 0..100: no negative weight, number answers on 0..1. */
  predicate Normalised(q: QuestionEntity, answers: seq<AnswerEntity>) {
    var a := FindAnswer(answers, q.base.id);
    && q.data.question.weight >= 0.0
    && (q.data.question.qtype == Number && a.Some? && a.value.numberValue.Some? ==>
          0.0 <= a.value.numberValue.value <= 1.0)
  }

  /** Under those assumptions a question adds between nothing and its whole weight. */
  lemma ContributionBounds(q: QuestionEntity, answers: seq<AnswerEntity>)
    requires Normalised(q, answers)
    ensures 0.0 <= Contribution(q, answers) <= q.data.question.weight
  {
    var a := FindAnswer(answers, q.base.id);
    if a.Some? {
      var v, w := PartialValue(q.data.question.qtype, a.value), q.data.question.weight;
      assert 0.0 <= v <= 1.0;
      assert 0.0 <= v * w <= w;
      assert Contribution(q, answers) == v * w;
    }
  }

  lemma {:induction false} WeightedSumBounds(qs: seq<QuestionEntity>, answers: seq<AnswerEntity>)
    requires forall i :: 0 <= i < |qs| ==> Normalised(qs[i], answers)
    ensures 0.0 <= WeightedSum(qs, answers) <= TotalWeight(qs)
  {
    if qs != [] {
      var init, q := qs[..|qs| - 1], qs[|qs| - 1];
      assert forall i :: 0 <= i < |init| ==> init[i] == qs[i];
      WeightedSumBounds(init, answers);
      ContributionBounds(q, answers);
    }
  }

  /** With no negative weight and number answers on 0..1 the score lies on 0..100. */
  lemma ScoreBounds(qs: seq<QuestionEntity>, answers: seq<AnswerEntity>)
    requires forall i :: 0 <= i < |qs| ==> Normalised(qs[i], answers)
    ensures 0.0 <= Score(qs, answers) <= 100.0
  {
    WeightedSumBounds(qs, answers);
    var total := TotalWeight(qs);
    if total != 0.0 {
      var x := WeightedSum(qs, answers) / total * 100.0;
      RatioBounds(WeightedSum(qs, answers), total);
      Round2Between(x, 0, 10000);
    }
  }

  /** An answered rating question adds between a fifth of its weight and its whole weight. */
  lemma RatingContribution(q: QuestionEntity, answers: seq<AnswerEntity>)
    requires q.data.question.qtype == Rating1to5 && q.data.question.weight >= 0.0
    requires FindAnswer(answers, q.base.id).Some? && FindAnswer(answers, q.base.id).value.numberValue.Some?
    ensures 0.2 * q.data.question.weight <= Contribution(q, answers) <= q.data.question.weight
  {
  }

  /** The seeded template: a yes/no question of weight 10, a rating of weight 20, a text question of weight 0. */
  function SeedQuestions(templateId: Guid): seq<QuestionEntity> {
    [ Entity(NewBase(1, 0), QuestionData(NewQuestion(templateId, "", YesNo).(weight := 10.0))),
      Entity(NewBase(2, 0), QuestionData(NewQuestion(templateId, "", Rating1to5).(weight := 20.0))),
      Entity(NewBase(3, 0), QuestionData(NewQuestion(templateId, "", Text).(weight := 0.0))) ]
  }

  /** Yes, a rating of 3 and a text answer on the seeded template: (10 + 3/5 * 20) / 30 * 100 = 73.33. */
  lemma SeedScore(templateId: Guid, responseId: Guid)
    ensures var answers: seq<AnswerEntity> := [
        Entity(NewBase(4, 0), AnswerData(NewAnswer(responseId, 1).(boolValue := Some(true)))),
        Entity(NewBase(5, 0), AnswerData(NewAnswer(responseId, 2).(numberValue := Some(3.0)))),
        Entity(NewBase(6, 0), AnswerData(NewAnswer(responseId, 3).(textValue := Some("ok")))) ];
      Score(SeedQuestions(templateId), answers) == 73.33
  {
    var qs := SeedQuestions(templateId);
    var answers: seq<AnswerEntity> := [
        Entity(NewBase(4, 0), AnswerData(NewAnswer(responseId, 1).(boolValue := Some(true)))),
        Entity(NewBase(5, 0), AnswerData(NewAnswer(responseId, 2).(numberValue := Some(3.0)))),
        Entity(NewBase(6, 0), AnswerData(NewAnswer(responseId, 3).(textValue := Some("ok")))) ];
    assert qs[..2][..1] == qs[..1] && qs[..1][..0] == [] && qs[..3] == qs;
    assert TotalWeight(qs[..1]) == 10.0;
    assert TotalWeight(qs[..2]) == 30.0;
    assert TotalWeight(qs) == 30.0;
    assert FindAnswer(answers, 1) == Some(answers[0].data.answer);
    assert FindAnswer(answers[1..], 2) == Some(answers[1].data.answer);
    assert FindAnswer(answers, 2) == Some(answers[1].data.answer);
    assert Contribution(qs[0], answers) == 10.0;
    assert PartialValue(Rating1to5, answers[1].data.answer) == 0.6;
    assert Contribution(qs[1], answers) == 12.0;
    assert Contribution(qs[2], answers) == 0.0;
    assert WeightedSum(qs[..1], answers) == 10.0;
    assert WeightedSum(qs[..2], answers) == 22.0;
    assert WeightedSum(qs, answers) == 22.0;
    assert (22.0 / 30.0 * 100.0 * 100.0).Floor == 7333;
  }
}
