/** The scoring engine run when a session completes (`finalize`): the mean
    of the points the scoring questions earned, mapped affinely onto 0-100,
    clamped, rounded to one decimal, and bucketed into a maturity stage
    (`stageFromScore`). Scores are reals; see README for the abstraction. */
module Scoring {
  import opened JsValues
  import opened QuestionBank

  /** One recorded answer of a session. */
  datatype AnswerRecord = AnswerRecord(questionId: string, answer: Option<Json>, scoring: bool)

  /** The readiness stages, lowest first. */
  datatype Stage = EarlyStage | Developing | Transforming | Mature

  function Label(st: Stage): string {
    match st
    case EarlyStage => "Early-Stage AI"
    case Developing => "Developing"
    case Transforming => "Transforming"
    case Mature => "AI-Mature"
  }

  function Rank(st: Stage): nat {
    match st
    case EarlyStage => 0
    case Developing => 1
    case Transforming => 2
    case Mature => 3
  }

  /** stageFromScore: buckets with inclusive upper bounds 40, 60 and 75. */
  function StageFromScore(score: real): (st: Stage)
    ensures st == EarlyStage <==> score <= 40.0
    ensures st == Developing <==> 40.0 < score <= 60.0
    ensures st == Transforming <==> 60.0 < score <= 75.0
    ensures st == Mature <==> 75.0 < score
  {
    if score <= 40.0 then EarlyStage
    else if score <= 60.0 then Developing
    else if score <= 75.0 then Transforming
    else Mature
  }

  /** A higher score never lands in a lower stage. */
  lemma StageMonotone(a: real, b: real)
    requires a <= b
    ensures Rank(StageFromScore(a)) <= Rank(StageFromScore(b))
  {
  }

  /** Number(x.toFixed(1)) * 10: the nearest whole number of tenths,
      halves rounded away from zero. */
  function RoundTenths(x: real): (n: int)
    ensures x >= 0.0 ==> n as real - 0.5 <= x * 10.0 < n as real + 0.5
    ensures x < 0.0 ==> n as real - 0.5 < x * 10.0 <= n as real + 0.5
  {
    if x < 0.0 then -(-x * 10.0 + 0.5).Floor else (x * 10.0 + 0.5).Floor
  }

  /** Rounding has exactly one candidate: the tenth whose half-open window
      holds `x`. */
  lemma RoundTenthsUnique(x: real, n: int)
    requires x >= 0.0
    requires n as real - 0.5 <= x * 10.0 < n as real + 0.5
    ensures RoundTenths(x) == n
  {
  }

  /** ((raw - 1) / 3) * 85: the affine map that sends 1 to 0 and 4 to 85. */
  function Affine(raw: real): real {
    ((raw - 1.0) / 3.0) * 85.0
  }

  /** Math.max(0, Math.min(100, v)). */
  function Clamp(v: real): (r: real)
    ensures 0.0 <= r <= 100.0
    ensures 0.0 <= v <= 100.0 ==> r == v
    ensures v < 0.0 ==> r == 0.0
    ensures v > 100.0 ==> r == 100.0
  {
    if v < 0.0 then 0.0 else if v > 100.0 then 100.0 else v
  }

  /** The rounded score for a mean of `raw` points, in tenths: the score
      reported is this number divided by ten. */
  function ScoreTenths(raw: real): (n: int)
    ensures 0 <= n <= 1000
    ensures n as real - 0.5 <= Clamp(Affine(raw)) * 10.0 < n as real + 0.5
  {
    RoundTenths(Clamp(Affine(raw)))
  }

  /** The score never falls when the mean rises. */
  lemma ScoreMonotone(a: real, b: real)
    requires a <= b
    ensures ScoreTenths(a) <= ScoreTenths(b)
  {
    assert Affine(a) <= Affine(b);
  }

  /** The worked values: a mean of 1 gives 0.0, of 3 gives 56.7
      ("Developing"), and of 4 gives 85.0 ("AI-Mature"), not 100. */
  lemma WorkedScores()
    ensures ScoreTenths(1.0) == 0
    ensures ScoreTenths(3.0) == 567 && StageFromScore(56.7) == Developing
    ensures ScoreTenths(4.0) == 850 && StageFromScore(85.0) == Mature
  {
    assert Clamp(Affine(3.0)) == 170.0 / 3.0;
    RoundTenthsUnique(170.0 / 3.0, 567);
  }

  /** The first recorded answer for question `id` (Array.prototype.find). */
  function FindAnswer(answers: seq<AnswerRecord>, id: string): (r: Option<AnswerRecord>)
    ensures r.None? <==> forall i :: 0 <= i < |answers| ==> answers[i].questionId != id
    ensures r.Some? ==> r.value.questionId == id
    ensures r.Some? ==> exists i :: (0 <= i < |answers| && answers[i] == r.value &&
      forall j :: 0 <= j < i ==> answers[j].questionId != id)
  {
    if |answers| == 0 then None
    else if answers[0].questionId == id then Some(answers[0])
    else
      var r := FindAnswer(answers[1..], id);
      assert r.Some? ==> exists i :: (0 <= i < |answers| && answers[i] == r.value &&
        forall j :: 0 <= j < i ==> answers[j].questionId != id) by {
        if r.Some? {
          var i :| 0 <= i < |answers[1..]| && answers[1..][i] == r.value &&
            forall j :: 0 <= j < i ==> answers[1..][j].questionId != id;
          assert answers[i + 1] == r.value;
          assert forall j :: 0 <= j < i + 1 ==> answers[j].questionId != id by {
            forall j | 0 < j < i + 1 ensures answers[j].questionId != id {
              assert answers[j] == answers[1..][j - 1];
            }
          }
        }
      }
      r
  }

  /** The property key a truthy answer is looked up under: the first
      element of an array answer, the answer itself otherwise; None when
      the conversion throws. */
  function LookupKey(answer: Json): Option<string> {
    if answer.JArr? then KeyOf(if |answer.elems| > 0 then Some(answer.elems[0]) else None)
    else KeyOf(Some(answer))
  }

  /** Points one recorded answer earns on question `q`: what its score map
      holds under the answer's key when that is a number, 0 otherwise. None
      when computing the key throws, which aborts finalize. */
  function AnswerPoints(q: Question, answer: Option<Json>): (p: Option<int>)
    ensures !Truthy(answer) || q.scores.None? ==> p == Some(0)
    ensures p.None? <==> Truthy(answer) && q.scores.Some? && LookupKey(answer.value).None?
    ensures Truthy(answer) && q.scores.Some? && LookupKey(answer.value).Some? ==>
      match Get(q.scores.value, LookupKey(answer.value).value)
      case Some(JNum(n)) => p == Some(n as int)
      case _ => p == Some(0)
  {
    if !Truthy(answer) then Some(0)
    else match q.scores
      case None => Some(0)
      case Some(m) =>
        match LookupKey(answer.value)
        case None => None
        case Some(key) =>
          match Get(m, key)
          case Some(JNum(n)) => Some(n as int)
          case _ => Some(0)
  }

  /** A multi-select answer scores as its first choice alone would, when
      that choice is a truthy value other than an array. */
  lemma MultiSelectUsesFirstChoice(q: Question, first: Json, rest: seq<Json>)
    requires Truthy(Some(first)) && !first.JArr?
    ensures AnswerPoints(q, Some(JArr([first] + rest))) == AnswerPoints(q, Some(first))
  {
  }

  /** An object answer with its own `toString` member cannot be scored. */
  lemma ToStringMemberAnswerThrows(q: Question, v: Json)
    requires q.scores.Some?
    ensures AnswerPoints(q, Some(JObj([("toString", v)]))).None?
    ensures AnswerPoints(q, Some(JArr([JObj([("toString", v)])]))).None?
  {
    assert [("toString", v)][0].0 == "toString";
  }

  /** Points question `q` contributes: those of its first recorded answer,
      0 when it has none. */
  function QuestionPoints(q: Question, answers: seq<AnswerRecord>): (p: Option<int>)
    ensures FindAnswer(answers, q.id).None? ==> p == Some(0)
    ensures FindAnswer(answers, q.id).Some? ==>
      p == AnswerPoints(q, FindAnswer(answers, q.id).value.answer)
  {
    match FindAnswer(answers, q.id)
    case None => Some(0)
    case Some(rec) => AnswerPoints(q, rec.answer)
  }

  /** The scoring questions of `qs`, in order (see `ScoringOnlyAppend`),
      each as often as it occurs in `qs` (see `ScoringOnlyCounts`). */
  function ScoringOnly(qs: seq<Question>): (s: seq<Question>)
    ensures |s| <= |qs|
    ensures forall q :: q in s <==> q in qs && q.scoring
    ensures s == [] <==> forall i :: 0 <= i < |qs| ==> !qs[i].scoring
  {
    if |qs| == 0 then []
    else
      assert qs == [qs[0]] + qs[1..];
      if qs[0].scoring then [qs[0]] + ScoringOnly(qs[1..])
      else ScoringOnly(qs[1..])
  }

  /** Filtering a concatenation filters each part, keeping their order. */
  lemma {:induction false} ScoringOnlyAppend(a: seq<Question>, b: seq<Question>)
    ensures ScoringOnly(a + b) == ScoringOnly(a) + ScoringOnly(b)
  {
    if |a| == 0 {
      assert a + b == b;
    } else {
      assert (a + b)[0] == a[0];
      assert (a + b)[1..] == a[1..] + b;
      ScoringOnlyAppend(a[1..], b);
    }
  }

  /** Filtering drops only non-scoring questions and keeps every copy of
      each scoring one. */
  lemma {:induction false} ScoringOnlyCounts(qs: seq<Question>)
    ensures multiset(ScoringOnly(qs)) <= multiset(qs)
    ensures forall q: Question :: q.scoring ==> multiset(ScoringOnly(qs))[q] == multiset(qs)[q]
  {
    if |qs| > 0 {
      assert qs == [qs[0]] + qs[1..];
      ScoringOnlyCounts(qs[1..]);
    }
  }

  lemma {:induction false} ScoringOnlyIdempotent(qs: seq<Question>)
    ensures ScoringOnly(ScoringOnly(qs)) == ScoringOnly(qs)
  {
    if |qs| > 0 {
      ScoringOnlyIdempotent(qs[1..]);
      if qs[0].scoring {
        assert ([qs[0]] + ScoringOnly(qs[1..]))[1..] == ScoringOnly(qs[1..]);
      }
    }
  }

  /** The total of a run of points; None as soon as one is missing. The
      value is fixed by the one-element case and `TotalAppend`. */
  function Total(ps: seq<Option<int>>): (t: Option<int>)
    ensures t.Some? <==> forall i :: 0 <= i < |ps| ==> ps[i].Some?
    ensures |ps| == 0 ==> t == Some(0)
    ensures |ps| == 1 ==> t == ps[0]
  {
    if |ps| == 0 then Some(0)
    else
      assert forall i :: 1 <= i < |ps| ==> ps[1..][i - 1] == ps[i];
      match ps[0]
      case None => None
      case Some(p) =>
        match Total(ps[1..])
        case None => None
        case Some(rest) => Some(p + rest)
  }

  /** The points of each question, in order. */
  function PointsOf(qs: seq<Question>, answers: seq<AnswerRecord>): (ps: seq<Option<int>>)
    ensures |ps| == |qs|
    ensures forall i :: 0 <= i < |qs| ==> ps[i] == QuestionPoints(qs[i], answers)
  {
    seq(|qs|, i requires 0 <= i < |qs| => QuestionPoints(qs[i], answers))
  }

  /** The total of the questions' points, summed in order as finalize's
      forEach does; None as soon as one of them cannot be scored. The value
      is fixed by the one-question case and `SumPointsAppend`. */
  function SumPoints(qs: seq<Question>, answers: seq<AnswerRecord>): (t: Option<int>)
    ensures t.Some? <==> forall i :: 0 <= i < |qs| ==> QuestionPoints(qs[i], answers).Some?
    ensures |qs| == 0 ==> t == Some(0)
    ensures |qs| == 1 ==> t == QuestionPoints(qs[0], answers)
  {
    Total(PointsOf(qs, answers))
  }

  /** Totals add up over a concatenation, and are missing whenever a part's
      total is. */
  lemma {:induction false} TotalAppend(a: seq<Option<int>>, b: seq<Option<int>>)
    ensures Total(a + b) ==
      if Total(a).Some? && Total(b).Some? then Some(Total(a).value + Total(b).value) else None
  {
    if |a| == 0 {
      assert a + b == b;
    } else {
      assert (a + b)[0] == a[0];
      assert (a + b)[1..] == a[1..] + b;
      TotalAppend(a[1..], b);
    }
  }

  /** The points of two runs of questions add up. */
  lemma SumPointsAppend(a: seq<Question>, b: seq<Question>, answers: seq<AnswerRecord>)
    ensures SumPoints(a + b, answers) ==
      if SumPoints(a, answers).Some? && SumPoints(b, answers).Some?
      then Some(SumPoints(a, answers).value + SumPoints(b, answers).value) else None
  {
    PointsOfAppend(a, b, answers);
    TotalAppend(PointsOf(a, answers), PointsOf(b, answers));
  }

  /** Scoring a concatenation scores each part, in order. */
  lemma PointsOfAppend(a: seq<Question>, b: seq<Question>, answers: seq<AnswerRecord>)
    ensures PointsOf(a + b, answers) == PointsOf(a, answers) + PointsOf(b, answers)
  {
    var l, r := PointsOf(a + b, answers), PointsOf(a, answers) + PointsOf(b, answers);
    assert |l| == |r|;
    forall i | 0 <= i < |l|
      ensures l[i] == r[i]
    {
      if i < |a| {
        assert (a + b)[i] == a[i];
      } else {
        assert (a + b)[i] == b[i - |a|];
      }
    }
  }

  /** A total of n points, each between lo and hi, lies between n·lo and n·hi. */
  lemma {:induction false} TotalBounds(ps: seq<Option<int>>, lo: int, hi: int)
    requires forall i :: 0 <= i < |ps| ==> ps[i].Some? && lo <= ps[i].value <= hi
    ensures Total(ps).Some?
    ensures lo * |ps| <= Total(ps).value <= hi * |ps|
  {
    if |ps| > 0 {
      var rest := ps[1..];
      assert forall i :: 0 <= i < |rest| ==> rest[i] == ps[i + 1];
      TotalBounds(rest, lo, hi);
      assert Total(ps).value == ps[0].value + Total(rest).value;
      MulSucc(lo, |rest|);
      MulSucc(hi, |rest|);
    }
  }

  /** x·(n+1) = x + x·n. */
  lemma MulSucc(x: int, n: nat)
    ensures x * (n + 1) == x + x * n
  {
  }

  /** Whether finalize gets through every scoring question without a throw. */
  predicate Scorable(qs: seq<Question>, answers: seq<AnswerRecord>) {
    forall q :: q in qs && q.scoring ==> QuestionPoints(q, answers).Some?
  }

  /** The mean points per scoring question; 0 when there is none. */
  function Raw(qs: seq<Question>, answers: seq<AnswerRecord>): (r: Option<real>)
    ensures r.Some? <==> Scorable(qs, answers)
  {
    var s := ScoringOnly(qs);
    match SumPoints(s, answers)
    case None => None
    case Some(t) => Some(if |s| > 0 then t as real / |s| as real else 0.0)
  }

  /** The outcome `finalize` reports. */
  datatype Outcome = Outcome(score: real, stage: Stage)

  /** finalize's computation: the stage is taken from the rounded score.
      None when converting some scoring answer to a key throws, in which
      case finalize sends nothing of its own. */
  function Finalize(qs: seq<Question>, answers: seq<AnswerRecord>): (o: Option<Outcome>)
    ensures o.Some? <==> Scorable(qs, answers)
    ensures o.Some? ==> 0.0 <= o.value.score <= 100.0
    ensures o.Some? ==> o.value.score * 10.0 == ScoreTenths(Raw(qs, answers).value) as real
    ensures o.Some? ==>
      o.value.score - 0.05 <= Clamp(Affine(Raw(qs, answers).value)) < o.value.score + 0.05
    ensures o.Some? ==> o.value.stage == StageFromScore(o.value.score)
  {
    match Raw(qs, answers)
    case None => None
    case Some(raw) =>
      var score := ScoreTenths(raw) as real / 10.0;
      Some(Outcome(score, StageFromScore(score)))
  }

  /** A mean of `raw`, rounding to `tenths`, reports the score `score`. */
  lemma FinalizeFromRaw(qs: seq<Question>, answers: seq<AnswerRecord>, raw: real, tenths: int, score: real)
    requires Raw(qs, answers) == Some(raw) && ScoreTenths(raw) == tenths
    requires score * 10.0 == tenths as real
    ensures Finalize(qs, answers) == Some(Outcome(score, StageFromScore(score)))
  {
  }

  /** The mean is the total of the scoring questions' points divided by
      their number, and 0 without scoring questions. */
  lemma RawIsMean(qs: seq<Question>, answers: seq<AnswerRecord>)
    requires Scorable(qs, answers)
    ensures var s := ScoringOnly(qs);
      && SumPoints(s, answers).Some?
      && (|s| == 0 ==> Raw(qs, answers) == Some(0.0))
      && (|s| > 0 ==> Raw(qs, answers) == Some(SumPoints(s, answers).value as real / |s| as real))
  {
    var s := ScoringOnly(qs);
    assert forall i :: 0 <= i < |s| ==> s[i] in s;
    assert SumPoints(s, answers).Some?;
    if |s| > 0 {
      var t := SumPoints(s, answers).value;
      assert Raw(qs, answers) == Some(t as real / |s| as real);
    }
  }

  /** When every scoring question earns between lo and hi points, so does
      the mean. */
  lemma MeanWithinPointRange(qs: seq<Question>, answers: seq<AnswerRecord>, lo: int, hi: int)
    requires |ScoringOnly(qs)| > 0
    requires forall q :: q in qs && q.scoring ==>
      QuestionPoints(q, answers).Some? && lo <= QuestionPoints(q, answers).value <= hi
    ensures Raw(qs, answers).Some?
    ensures lo as real <= Raw(qs, answers).value <= hi as real
  {
    var s := ScoringOnly(qs);
    var ps := PointsOf(s, answers);
    forall i | 0 <= i < |ps| ensures ps[i].Some? && lo <= ps[i].value <= hi {
      assert s[i] in s;
    }
    TotalBounds(ps, lo, hi);
    var t := Total(ps).value;
    assert Raw(qs, answers) == Some(t as real / |s| as real);
    QuotientBounds(t, |s|, lo, hi);
  }

  lemma QuotientBounds(t: int, n: nat, lo: int, hi: int)
    requires n > 0 && lo * n <= t <= hi * n
    ensures lo as real <= t as real / n as real <= hi as real
  {
    assert (lo * n) as real == lo as real * n as real;
    assert (hi * n) as real == hi as real * n as real;
  }

  /** With options worth 1 to 4 points, as the catalog's are, the score
      never exceeds 85.0: 100 is out of reach. */
  lemma ScoreAtMost85(qs: seq<Question>, answers: seq<AnswerRecord>)
    requires forall q :: q in qs && q.scoring ==>
      QuestionPoints(q, answers).Some? && 1 <= QuestionPoints(q, answers).value <= 4
    ensures Finalize(qs, answers).Some?
    ensures Finalize(qs, answers).value.score <= 85.0
  {
    WorkedScores();
    if |ScoringOnly(qs)| == 0 {
      NoScoringQuestionsScoresZero(qs, answers);
    } else {
      MeanWithinPointRange(qs, answers, 1, 4);
      ScoreMonotone(Raw(qs, answers).value, 4.0);
    }
  }

  /** Answers worth 4, 3 and 2 points on three scoring questions average 3
      and give 56.7, "Developing". */
  lemma MixedPointsOutcome(qs: seq<Question>, answers: seq<AnswerRecord>)
    requires |ScoringOnly(qs)| == 3
    requires QuestionPoints(ScoringOnly(qs)[0], answers) == Some(4)
    requires QuestionPoints(ScoringOnly(qs)[1], answers) == Some(3)
    requires QuestionPoints(ScoringOnly(qs)[2], answers) == Some(2)
    ensures Finalize(qs, answers) == Some(Outcome(56.7, Developing))
  {
    MeanOfFourThreeTwo(qs, answers);
    MeanOfThreeOutcome(qs, answers);
  }

  /** Three scoring questions earning 4, 3 and 2 points average 3. */
  lemma MeanOfFourThreeTwo(qs: seq<Question>, answers: seq<AnswerRecord>)
    requires |ScoringOnly(qs)| == 3
    requires QuestionPoints(ScoringOnly(qs)[0], answers) == Some(4)
    requires QuestionPoints(ScoringOnly(qs)[1], answers) == Some(3)
    requires QuestionPoints(ScoringOnly(qs)[2], answers) == Some(2)
    ensures Raw(qs, answers) == Some(3.0)
  {
    var s := ScoringOnly(qs);
    PointsOfThree(s, answers, Some(4), Some(3), Some(2));
    TotalOfFourThreeTwo();
    assert SumPoints(s, answers) == Some(9);
    RawFromSum(qs, answers, 9, 3);
  }

  /** The mean of n > 0 scoring questions totalling t points is t / n. */
  lemma RawFromSum(qs: seq<Question>, answers: seq<AnswerRecord>, t: int, n: nat)
    requires n > 0 && |ScoringOnly(qs)| == n && SumPoints(ScoringOnly(qs), answers) == Some(t)
    ensures Raw(qs, answers) == Some(t as real / n as real)
  {
  }

  /** A mean of 3 points gives 56.7, "Developing". */
  lemma MeanOfThreeOutcome(qs: seq<Question>, answers: seq<AnswerRecord>)
    requires Raw(qs, answers) == Some(3.0)
    ensures Finalize(qs, answers) == Some(Outcome(56.7, Developing))
  {
    WorkedScores();
    FinalizeFromRaw(qs, answers, 3.0, 567, 56.7);
  }

  /** The points of three questions, listed. */
  lemma PointsOfThree(s: seq<Question>, answers: seq<AnswerRecord>, a: Option<int>, b: Option<int>, c: Option<int>)
    requires |s| == 3
    requires QuestionPoints(s[0], answers) == a
    requires QuestionPoints(s[1], answers) == b
    requires QuestionPoints(s[2], answers) == c
    ensures PointsOf(s, answers) == [a, b, c]
  {
  }

  /** 4 + 3 + 2 = 9 points. */
  lemma TotalOfFourThreeTwo()
    ensures Total([Some(4), Some(3), Some(2)]) == Some(9)
  {
    TotalAppend([Some(4)], [Some(3)]);
    TotalAppend([Some(4), Some(3)], [Some(2)]);
    assert [Some(4), Some(3), Some(2)] == [Some(4), Some(3)] + [Some(2)];
    assert [Some(4), Some(3)] == [Some(4)] + [Some(3)];
  }

  /** Filtering the list first leaves the mean unchanged. */
  lemma RawOfScoringOnly(qs: seq<Question>, answers: seq<AnswerRecord>)
    ensures Raw(ScoringOnly(qs), answers) == Raw(qs, answers)
  {
    var s := ScoringOnly(qs);
    ScoringOnlyIdempotent(qs);
    assert ScoringOnly(s) == s;
  }

  /** Non-scoring questions have no influence on the outcome. */
  lemma OnlyScoringQuestionsCount(qs: seq<Question>, answers: seq<AnswerRecord>)
    ensures Finalize(qs, answers) == Finalize(ScoringOnly(qs), answers)
  {
    var s := ScoringOnly(qs);
    RawOfScoringOnly(qs, answers);
    match Raw(qs, answers)
    case None =>
    case Some(raw) =>
      var score := ScoreTenths(raw) as real / 10.0;
      FinalizeFromRaw(qs, answers, raw, ScoreTenths(raw), score);
      FinalizeFromRaw(s, answers, raw, ScoreTenths(raw), score);
  }

  /** A session without scoring questions scores 0.0, "Early-Stage AI". */
  lemma NoScoringQuestionsScoresZero(qs: seq<Question>, answers: seq<AnswerRecord>)
    requires forall i :: 0 <= i < |qs| ==> !qs[i].scoring
    ensures Finalize(qs, answers) == Some(Outcome(0.0, EarlyStage))
  {
    assert ScoringOnly(qs) == [];
    assert Clamp(Affine(0.0)) == 0.0;
  }

  /** Whether a recorded answer converts to text without throwing. */
  predicate Printable(answer: Option<Json>) {
    answer.None? || !Unprintable(answer.value)
  }

  /** Finalize gets through whenever no recorded answer is a value whose
      conversion to text throws. */
  lemma PrintableAnswersAreScorable(qs: seq<Question>, answers: seq<AnswerRecord>)
    requires forall i :: 0 <= i < |answers| ==> Printable(answers[i].answer)
    ensures Finalize(qs, answers).Some?
  {
    forall q | q in qs && q.scoring
      ensures QuestionPoints(q, answers).Some?
    {
      var r := FindAnswer(answers, q.id);
      if r.Some? {
        var i :| 0 <= i < |answers| && answers[i] == r.value &&
          forall j :: 0 <= j < i ==> answers[j].questionId != q.id;
        var a := r.value.answer;
        if a.Some? && a.value.JArr? && |a.value.elems| > 0 {
          assert !Unprintable(a.value.elems[0]);
        }
      }
    }
    assert Scorable(qs, answers);
  }

  /** One recorded object answer with its own `toString`, to a scoring
      question that has a score map, makes finalize throw. */
  lemma ToStringMemberAnswerBlocksFinalize(q: Question, v: Json, qs: seq<Question>, answers: seq<AnswerRecord>)
    requires q in qs && q.scoring && q.scores.Some?
    requires FindAnswer(answers, q.id) == Some(AnswerRecord(q.id, Some(JObj([("toString", v)])), true))
    ensures Finalize(qs, answers).None?
  {
    ToStringMemberAnswerThrows(q, v);
  }

  lemma {:induction false} TotalOfUniform(ps: seq<Option<int>>, p: int)
    requires forall i :: 0 <= i < |ps| ==> ps[i] == Some(p)
    ensures Total(ps) == Some(p * |ps|)
  {
    if |ps| > 0 {
      var rest := ps[1..];
      assert forall i :: 0 <= i < |rest| ==> rest[i] == ps[i + 1];
      TotalOfUniform(rest, p);
      assert p * |ps| == p + p * |rest|;
    }
  }

  /** When every question earns p points, the total is p times their number. */
  lemma SumOfUniformPoints(qs: seq<Question>, answers: seq<AnswerRecord>, p: int)
    requires forall i :: 0 <= i < |qs| ==> QuestionPoints(qs[i], answers) == Some(p)
    ensures SumPoints(qs, answers) == Some(p * |qs|)
  {
    TotalOfUniform(seq(|qs|, i requires 0 <= i < |qs| => QuestionPoints(qs[i], answers)), p);
  }

  /** When every scoring question earns the same `p` points, the mean is `p`. */
  lemma UniformPointsMean(qs: seq<Question>, answers: seq<AnswerRecord>, p: int)
    requires |ScoringOnly(qs)| > 0
    requires forall q :: q in qs && q.scoring ==> QuestionPoints(q, answers) == Some(p)
    ensures Raw(qs, answers) == Some(p as real)
  {
    var s := ScoringOnly(qs);
    forall i | 0 <= i < |s|
      ensures QuestionPoints(s[i], answers) == Some(p)
    {
      assert s[i] in s;
    }
    SumOfUniformPoints(s, answers, p);
    MeanOfUniform(p, |s|);
  }

  lemma MeanOfUniform(p: int, n: nat)
    requires n > 0
    ensures (p * n) as real / n as real == p as real
  {
    assert (p * n) as real == p as real * n as real;
  }

  /** Every scoring question at 4 points gives 85.0, "AI-Mature"; every one
      at 1 point gives 0.0, "Early-Stage AI". */
  lemma UniformAnswersOutcome(qs: seq<Question>, answers: seq<AnswerRecord>, p: int)
    requires |ScoringOnly(qs)| > 0
    requires forall q :: q in qs && q.scoring ==> QuestionPoints(q, answers) == Some(p)
    ensures p == 4 ==> Finalize(qs, answers) == Some(Outcome(85.0, Mature))
    ensures p == 1 ==> Finalize(qs, answers) == Some(Outcome(0.0, EarlyStage))
  {
    if p == 4 {
      UniformPointsMean(qs, answers, 4);
      WorkedScores();
      FinalizeFromRaw(qs, answers, 4.0, 850, 85.0);
    } else if p == 1 {
      UniformPointsMean(qs, answers, 1);
      WorkedScores();
      FinalizeFromRaw(qs, answers, 1.0, 0, 0.0);
      assert StageFromScore(0.0) == EarlyStage;
    }
  }
}
