/** One assessment connection: the state the WebSocket message handler keeps
    for it, and the transition the handler performs on each inbound frame,
    written as a pure function from (state, frame) to (state, outbound
    messages, what happens to the connection). */
module Session {
  import opened JsValues
  import opened QuestionBank
  import opened Scoring

  /** A question as the client is shown it: the score map stays behind. */
  datatype QuestionView = QuestionView(id: string, text: string, qtype: string,
                                       options: seq<Json>, scoring: bool)

  /** The messages the handler sends. `Complete` carries no assessment id. */
  datatype Outbound =
    | Ack(persona: Json, total: nat)
    | QuestionMsg(question: QuestionView, index: nat, total: nat)
    | Complete(score: real, stage: string, answered: nat, total: nat)
    | ErrorMsg(message: string)

  /** What becomes of the connection after a frame: it stays open, is closed
      at once, or is closed after a grace period that lets the last message
      flush. */
  datatype Closure =
    | KeepOpen
    | CloseNow(code: int, reason: string)
    | CloseAfter(delayMs: nat, code: int, reason: string)

  const NormalClosure: int := 1000
  const GraceMs: nat := 200
  const InvalidFormat: string := "Invalid message format."
  const NoQuestions: string := "No questions found for persona."

  /** The per-connection state. `persona` is null until a start is accepted. */
  datatype State = State(persona: Json, questions: seq<Question>, currentIndex: nat,
                         answers: seq<AnswerRecord>, total: nat)

  /** The state a new connection starts in. */
  const Fresh: State := State(JNull, [], 0, [], 0)

  /** The outcome of handling one frame. */
  datatype Reaction = Reaction(state: State, out: seq<Outbound>, closure: Closure)

  /** Whether a start has been accepted (the handler tests `state.persona`). */
  predicate Started(st: State) {
    Truthy(Some(st.persona))
  }

  /** Whether the session waits for an answer. */
  predicate Awaiting(st: State) {
    Started(st) && st.currentIndex < st.total
  }

  /** The invariant every reachable state keeps: one answer per question
      passed, recorded against that question, and never more questions than
      the session selected. */
  predicate Valid(st: State) {
    && |st.answers| == st.currentIndex <= st.total
    && st.total == |st.questions| <= MaxQuestions
    && (forall i :: 0 <= i < |st.answers| ==>
          st.answers[i].questionId == st.questions[i].id &&
          st.answers[i].scoring == st.questions[i].scoring)
    && (!Started(st) ==> st.total == 0)
  }

  function View(q: Question): QuestionView {
    QuestionView(q.id, q.text, q.qtype, q.options, q.scoring)
  }

  /** finalize: report the outcome and close after the grace period. The
      state itself is left as it is. When converting an answer to a key
      throws, the handler's catch sends the format error instead and the
      connection stays open. */
  function FinishSession(st: State): (r: Reaction)
    ensures r.state == st && |r.out| == 1
    ensures r.out[0].Complete? <==> Scorable(st.questions, st.answers)
    ensures r.out[0].Complete? ==>
      && r.out[0].answered == |st.answers| && r.out[0].total == st.total
      && r.out[0].score == Finalize(st.questions, st.answers).value.score
      && r.out[0].stage == Label(StageFromScore(r.out[0].score))
      && r.closure == CloseAfter(GraceMs, NormalClosure, "complete")
    ensures !r.out[0].Complete? ==> r.out == [ErrorMsg(InvalidFormat)] && r.closure == KeepOpen
  {
    match Finalize(st.questions, st.answers)
    case None => Reaction(st, [ErrorMsg(InvalidFormat)], KeepOpen)
    case Some(o) =>
      Reaction(st, [Complete(o.score, Label(o.stage), |st.answers|, st.total)],
               CloseAfter(GraceMs, NormalClosure, "complete"))
  }

  /** sendQuestion: the current question, 1-based, or finalize when there is
      none left. */
  function SendQuestion(st: State): (r: Reaction)
    ensures r.state == st
    ensures st.currentIndex < |st.questions| ==>
      r == Reaction(st, [QuestionMsg(View(st.questions[st.currentIndex]),
                                     st.currentIndex + 1, st.total)], KeepOpen)
    ensures st.currentIndex >= |st.questions| ==> r == FinishSession(st)
  {
    if st.currentIndex < |st.questions| then
      Reaction(st, [QuestionMsg(View(st.questions[st.currentIndex]), st.currentIndex + 1, st.total)],
               KeepOpen)
    else FinishSession(st)
  }

  /** An accepted start: whatever came before, the session restarts on the
      first five questions built for the persona. The persona is stored
      first, so when using it as a catalog key throws, it stays stored
      beside the old questions and the catch sends the format error. */
  function Start(cat: Catalog, st: State, persona: Json): (r: Reaction)
    requires Truthy(Some(persona))
    ensures Valid(st) ==> Valid(r.state)
    ensures r.state.persona == persona && Started(r.state)
    ensures KeyOf(Some(persona)).Some? ==>
      && Valid(r.state) && r.state.currentIndex == 0 && r.state.answers == []
      && Awaiting(r.state) == (r.state.total > 0)
    ensures KeyOf(Some(persona)).None? ==>
      r.state.questions == st.questions && r.state.answers == st.answers
      && r.state.currentIndex == st.currentIndex && r.state.total == st.total
  {
    match KeyOf(Some(persona))
    case None => Reaction(st.(persona := persona), [ErrorMsg(InvalidFormat)], KeepOpen)
    case Some(key) =>
      var qs := SelectQuestions(cat, key);
      var restarted := State(persona, qs, 0, [], |qs|);
      if |qs| == 0 then
        Reaction(restarted, [Ack(persona, 0), ErrorMsg(NoQuestions)], CloseNow(NormalClosure, "no-questions"))
      else
        var next := SendQuestion(restarted);
        Reaction(restarted, [Ack(persona, |qs|)] + next.out, next.closure)
  }

  /** The state once `answer` is recorded against the current question. */
  function Record(st: State, answer: Option<Json>): State
    requires st.currentIndex < |st.questions|
  {
    var q := st.questions[st.currentIndex];
    st.(currentIndex := st.currentIndex + 1,
        answers := st.answers + [AnswerRecord(q.id, answer, q.scoring)])
  }

  /** An accepted answer: recorded against the current question, then the
      next question or, after the last one, the outcome. */
  function Answer(st: State, answer: Option<Json>): (r: Reaction)
    requires Awaiting(st)
    ensures Valid(st) ==> Valid(r.state)
  {
    if st.currentIndex >= |st.questions| then Reaction(st, [], KeepOpen)
    else
      var next := Record(st, answer);
      assert Valid(st) ==> Valid(next) by {
        if Valid(st) {
          forall i | 0 <= i < |next.answers|
            ensures next.answers[i].questionId == next.questions[i].id
            ensures next.answers[i].scoring == next.questions[i].scoring
          {
            if i < |st.answers| {
              assert next.answers[i] == st.answers[i];
            }
          }
        }
      }
      if next.currentIndex >= next.total then FinishSession(next) else SendQuestion(next)
  }

  /** The persona of a frame the handler accepts as a start. */
  function StartPersona(frame: Option<Json>): (p: Option<Json>)
    ensures p.Some? <==>
      && !IsMalformed(frame)
      && Property(frame.value, "type") == Some(JStr("start"))
      && Truthy(Property(frame.value, "persona"))
    ensures p.Some? ==> p == Property(frame.value, "persona") && Truthy(p)
    ensures IsAnswerFrame(frame) ==> p.None?
  {
    if frame.None? || frame.value.JNull? then None
    else if Property(frame.value, "type") == Some(JStr("start"))
         && Truthy(Property(frame.value, "persona"))
    then Property(frame.value, "persona")
    else None
  }

  /** Whether a frame is an object whose `type` is "answer". */
  predicate IsAnswerFrame(frame: Option<Json>) {
    frame.Some? && !frame.value.JNull? && Property(frame.value, "type") == Some(JStr("answer"))
  }

  /** The `answer` field of an answer frame (undefined when absent). */
  function AnswerPayload(frame: Option<Json>): Option<Json> {
    if IsAnswerFrame(frame) then Property(frame.value, "answer") else None
  }

  /** A frame JSON.parse rejects, or `null`, whose `type` cannot be read. */
  predicate IsMalformed(frame: Option<Json>) {
    frame.None? || frame.value.JNull?
  }

  /** The message handler. `frame` is the result of JSON.parse on the
      inbound text, None when it throws. */
  function Step(cat: Catalog, st: State, frame: Option<Json>): (r: Reaction)
    ensures Valid(st) ==> Valid(r.state)
    ensures IsMalformed(frame) ==> r == Reaction(st, [ErrorMsg(InvalidFormat)], KeepOpen)
  {
    if IsMalformed(frame) then Reaction(st, [ErrorMsg(InvalidFormat)], KeepOpen)
    else if StartPersona(frame).Some? then Start(cat, st, StartPersona(frame).value)
    else if IsAnswerFrame(frame) && Awaiting(st) then Answer(st, AnswerPayload(frame))
    else Reaction(st, [], KeepOpen)
  }

  /** A fresh connection satisfies the invariant. */
  lemma FreshIsValid()
    ensures Valid(Fresh) && !Started(Fresh)
  {
  }

  /** An accepted start whose persona converts to a key resets the session
      to the first min(5, n) questions built for it, sends `ack` first, and
      then either the first question or, when there is none, an error and
      an immediate close. A persona whose conversion throws is stored and
      answered with the format error, and nothing else changes. */
  lemma StartTransition(cat: Catalog, st: State, frame: Option<Json>)
    requires StartPersona(frame).Some?
    ensures var p := StartPersona(frame).value;
      var r := Step(cat, st, frame);
      && (KeyOf(Some(p)).None? ==>
            r == Reaction(st.(persona := p), [ErrorMsg(InvalidFormat)], KeepOpen))
      && (KeyOf(Some(p)).Some? ==>
            var qs := SelectQuestions(cat, KeyOf(Some(p)).value);
            && r.state == State(p, qs, 0, [], |qs|)
            && r.out[0] == Ack(p, |qs|)
            && (|qs| == 0 ==>
                  r.out == [Ack(p, 0), ErrorMsg(NoQuestions)] &&
                  r.closure == CloseNow(NormalClosure, "no-questions"))
            && (|qs| > 0 ==>
                  r.out == [Ack(p, |qs|), QuestionMsg(View(qs[0]), 1, |qs|)] && r.closure == KeepOpen))
  {
  }

  /** A start frame whose persona is `{"toString": 0}`: the persona is kept,
      the format error is sent, and the connection stays open. */
  lemma ToStringPersonaStart(cat: Catalog, st: State)
    ensures var p := JObj([("toString", JNum(0))]);
      var frame := Some(JObj([("type", JStr("start")), ("persona", p)]));
      Step(cat, st, frame) == Reaction(st.(persona := p), [ErrorMsg(InvalidFormat)], KeepOpen)
  {
    var p := JObj([("toString", JNum(0))]);
    var frame := Some(JObj([("type", JStr("start")), ("persona", p)]));
    assert Property(frame.value, "persona") == Some(p);
    assert [("toString", JNum(0))][0].0 == "toString";
  }

  /** A start's messages and effect on the connection do not depend on the
      state it arrives in; neither does the state it leaves, unless the
      persona cannot be used as a key. */
  lemma StartIgnoresPriorState(cat: Catalog, st1: State, st2: State, frame: Option<Json>)
    requires StartPersona(frame).Some?
    ensures Step(cat, st1, frame).out == Step(cat, st2, frame).out
    ensures Step(cat, st1, frame).closure == Step(cat, st2, frame).closure
    ensures Step(cat, st1, frame).state.persona == StartPersona(frame).value
    ensures KeyOf(StartPersona(frame)).Some? ==> Step(cat, st1, frame) == Step(cat, st2, frame)
  {
  }

  /** An answer while the session awaits one records exactly one answer for
      the current question and moves on by one; the last one completes the
      session with every selected question answered, unless some recorded
      answer cannot be turned into a key, when the format error is sent and
      the connection stays open. */
  lemma AnswerTransition(cat: Catalog, st: State, frame: Option<Json>)
    requires Valid(st) && Awaiting(st)
    requires IsAnswerFrame(frame)
    ensures var q := st.questions[st.currentIndex];
      var r := Step(cat, st, frame);
      var rec := AnswerRecord(q.id, AnswerPayload(frame), q.scoring);
      && r.state == st.(currentIndex := st.currentIndex + 1, answers := st.answers + [rec])
      && (st.currentIndex + 1 < st.total ==>
            r.out == [QuestionMsg(View(st.questions[st.currentIndex + 1]), st.currentIndex + 2, st.total)]
            && r.closure == KeepOpen)
      && (st.currentIndex + 1 == st.total ==>
            var o := Finalize(r.state.questions, r.state.answers);
            && (o.Some? ==>
                  r.out == [Complete(o.value.score, Label(o.value.stage), st.total, st.total)]
                  && r.closure == CloseAfter(GraceMs, NormalClosure, "complete"))
            && (o.None? ==> r.out == [ErrorMsg(InvalidFormat)] && r.closure == KeepOpen))
  {
  }

  /** The state part of `AnswerTransition` alone. */
  lemma AnswerRecorded(cat: Catalog, st: State, frame: Option<Json>)
    requires Valid(st) && Awaiting(st)
    requires IsAnswerFrame(frame)
    ensures Step(cat, st, frame).state == Record(st, AnswerPayload(frame))
  {
    AnswerTransition(cat, st, frame);
  }

  /** Every other well-formed frame (an unknown type, a start without a
      persona, an answer when none is awaited) changes nothing and sends
      nothing. */
  lemma OtherFramesIgnored(cat: Catalog, st: State, frame: Option<Json>)
    requires !IsMalformed(frame) && StartPersona(frame).None?
    requires !(IsAnswerFrame(frame) && Awaiting(st))
    ensures Step(cat, st, frame) == Reaction(st, [], KeepOpen)
  {
  }

  /** Whether some message of `out` is a completion. */
  predicate HasComplete(out: seq<Outbound>) {
    exists i :: 0 <= i < |out| && out[i].Complete?
  }

  /** A frame produces a completion exactly when it is the answer to the
      session's last question and finalize can score every answer. */
  lemma CompleteExactlyOnLastAnswer(cat: Catalog, st: State, frame: Option<Json>)
    requires Valid(st)
    ensures HasComplete(Step(cat, st, frame).out) <==>
      && IsAnswerFrame(frame) && Awaiting(st)
      && st.currentIndex + 1 == st.total
      && Finalize(st.questions, Record(st, AnswerPayload(frame)).answers).Some?
  {
    var r := Step(cat, st, frame);
    if StartPersona(frame).Some? {
      StartTransition(cat, st, frame);
      assert !r.out[0].Complete?;
    } else if IsAnswerFrame(frame) && Awaiting(st) && !IsMalformed(frame) {
      AnswerTransition(cat, st, frame);
    }
  }
}
