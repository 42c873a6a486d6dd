/** Whole conversations: the handler applied to a sequence of frames in
    arrival order, and what that guarantees about completion messages. */
module SessionTraces {
  import opened JsValues
  import opened QuestionBank
  import opened Scoring
  import opened Session

  /** The state after `frames` and every message sent on the way. */
  datatype Trace = Trace(state: State, out: seq<Outbound>)

  function Run(cat: Catalog, st: State, frames: seq<Option<Json>>): (t: Trace)
    ensures Valid(st) ==> Valid(t.state)
    decreases |frames|
  {
    if |frames| == 0 then Trace(st, [])
    else
      var r := Step(cat, st, frames[0]);
      var rest := Run(cat, r.state, frames[1..]);
      Trace(rest.state, r.out + rest.out)
  }

  /** Every state a connection can reach satisfies the invariant, so an
      answer count never exceeds the question count. */
  lemma ReachableStatesValid(cat: Catalog, frames: seq<Option<Json>>)
    ensures Valid(Run(cat, Fresh, frames).state)
    ensures Run(cat, Fresh, frames).state.currentIndex <= Run(cat, Fresh, frames).state.total
  {
    FreshIsValid();
  }

  /** Number of completion messages in `out`. */
  function CountComplete(out: seq<Outbound>): nat {
    if |out| == 0 then 0
    else (if out[0].Complete? then 1 else 0) + CountComplete(out[1..])
  }

  lemma {:induction false} CountCompleteAppend(a: seq<Outbound>, b: seq<Outbound>)
    ensures CountComplete(a + b) == CountComplete(a) + CountComplete(b)
  {
    if |a| == 0 {
      assert a + b == b;
    } else {
      assert (a + b)[1..] == a[1..] + b;
      CountCompleteAppend(a[1..], b);
    }
  }

  lemma {:induction false} NoCompleteCountsZero(out: seq<Outbound>)
    requires !HasComplete(out)
    ensures CountComplete(out) == 0
  {
    if |out| > 0 {
      assert !HasComplete(out[1..]) by {
        forall i | 0 <= i < |out[1..]| ensures !out[1..][i].Complete? {
          assert out[1..][i] == out[i + 1];
        }
      }
      NoCompleteCountsZero(out[1..]);
    }
  }

  /** A session that has sent its completion stays silent: until another
      start is accepted, no frame changes the state or produces a second
      completion (malformed frames still get their error). */
  lemma {:induction false} SilentAfterCompletion(cat: Catalog, st: State, frames: seq<Option<Json>>)
    requires Valid(st) && Started(st) && st.currentIndex == st.total
    requires forall i :: 0 <= i < |frames| ==> StartPersona(frames[i]).None?
    ensures Run(cat, st, frames).state == st
    ensures CountComplete(Run(cat, st, frames).out) == 0
    decreases |frames|
  {
    if |frames| > 0 {
      var r := Step(cat, st, frames[0]);
      if IsMalformed(frames[0]) {
        assert r == Reaction(st, [ErrorMsg(InvalidFormat)], KeepOpen);
      } else {
        OtherFramesIgnored(cat, st, frames[0]);
      }
      assert r.state == st && CountComplete(r.out) == 0;
      SilentAfterCompletion(cat, st, frames[1..]);
      CountCompleteAppend(r.out, Run(cat, st, frames[1..]).out);
    }
  }

  /** Answering every remaining question of a started session, one frame
      each, ends with every selected question answered and nothing awaited,
      the earlier answers kept. */
  lemma {:induction false} AnswersFillSession(cat: Catalog, st: State, frames: seq<Option<Json>>)
    requires Valid(st) && Awaiting(st)
    requires |frames| == st.total - st.currentIndex
    requires forall i :: 0 <= i < |frames| ==> IsAnswerFrame(frames[i])
    ensures var t := Run(cat, st, frames);
      && t.state.questions == st.questions
      && t.state.currentIndex == t.state.total == st.total
      && |t.state.answers| == st.total
      && t.state.answers[..st.currentIndex] == st.answers
    decreases |frames|
  {
    var next := Step(cat, st, frames[0]).state;
    RunFirstStep(cat, st, frames);
    AnswerStepFacts(cat, st, frames[0]);
    AnswerRecorded(cat, st, frames[0]);
    if st.currentIndex + 1 < st.total {
      AllAnswersTail(frames);
      AnswersFillSession(cat, next, frames[1..]);
      assert next.answers[..st.currentIndex] == st.answers;
    }
  }

  /** The same run sends its one completion with its last frame when
      finalize can score the recorded answers, and the format error
      instead otherwise. */
  lemma {:induction false} AnswersLeadToOneCompletion(cat: Catalog, st: State, frames: seq<Option<Json>>)
    requires Valid(st) && Awaiting(st)
    requires |frames| == st.total - st.currentIndex
    requires forall i :: 0 <= i < |frames| ==> IsAnswerFrame(frames[i])
    ensures var t := Run(cat, st, frames);
      var o := Finalize(t.state.questions, t.state.answers);
      && |t.out| > 0
      && CountComplete(t.out) == (if o.Some? then 1 else 0)
      && (o.Some? ==> t.out[|t.out| - 1] == Complete(o.value.score, Label(o.value.stage), st.total, st.total))
      && (o.None? ==> t.out[|t.out| - 1] == ErrorMsg(InvalidFormat))
    decreases |frames|
  {
    if st.currentIndex + 1 == st.total {
      LastAnswerOutput(cat, st, frames);
    } else {
      var r := Step(cat, st, frames[0]);
      var rest := Run(cat, r.state, frames[1..]);
      var t := Run(cat, st, frames);
      assert t == Trace(rest.state, r.out + rest.out);
      AnswerTransition(cat, st, frames[0]);
      CountCompleteAppend(r.out, rest.out);
      CompleteExactlyOnLastAnswer(cat, st, frames[0]);
      NoCompleteCountsZero(r.out);
      AnswerStepFacts(cat, st, frames[0]);
      AllAnswersTail(frames);
      AnswersLeadToOneCompletion(cat, r.state, frames[1..]);
      assert (r.out + rest.out)[|r.out + rest.out| - 1] == rest.out[|rest.out| - 1];
    }
  }

  /** The answer to the last question, alone: its output ends the trace. */
  lemma LastAnswerOutput(cat: Catalog, st: State, frames: seq<Option<Json>>)
    requires Valid(st) && Awaiting(st)
    requires |frames| == 1 && st.currentIndex + 1 == st.total && IsAnswerFrame(frames[0])
    ensures var t := Run(cat, st, frames);
      var o := Finalize(t.state.questions, t.state.answers);
      && |t.out| > 0
      && CountComplete(t.out) == (if o.Some? then 1 else 0)
      && (o.Some? ==> t.out[|t.out| - 1] == Complete(o.value.score, Label(o.value.stage), st.total, st.total))
      && (o.None? ==> t.out[|t.out| - 1] == ErrorMsg(InvalidFormat))
  {
    var r := Step(cat, st, frames[0]);
    var rest := Run(cat, r.state, frames[1..]);
    assert Run(cat, st, frames) == Trace(rest.state, r.out + rest.out);
    AnswerTransition(cat, st, frames[0]);
    CountCompleteAppend(r.out, rest.out);
    assert frames[1..] == [];
    assert rest == Trace(r.state, []);
    assert r.out + rest.out == r.out;
  }

  /** When neither the answers already recorded nor the answers still to
      come include a value whose conversion to text throws, answering every
      remaining question produces exactly one completion. */
  lemma PrintableAnswersCompleteOnce(cat: Catalog, st: State, frames: seq<Option<Json>>)
    requires Valid(st) && Awaiting(st)
    requires |frames| == st.total - st.currentIndex
    requires forall i :: 0 <= i < |frames| ==> IsAnswerFrame(frames[i])
    requires forall i :: 0 <= i < |st.answers| ==> Printable(st.answers[i].answer)
    requires forall i :: 0 <= i < |frames| ==> Printable(AnswerPayload(frames[i]))
    ensures CountComplete(Run(cat, st, frames).out) == 1
  {
    var t := Run(cat, st, frames);
    AnswersRecordedInOrder(cat, st, frames);
    var all := Recorded(t.state.answers);
    assert all == Recorded(st.answers) + Payloads(frames);
    forall i | 0 <= i < |t.state.answers|
      ensures Printable(t.state.answers[i].answer)
    {
      assert t.state.answers[i].answer == all[i];
      if i >= |st.answers| {
        assert all[i] == Payloads(frames)[i - |st.answers|];
      }
    }
    PrintableAnswersAreScorable(t.state.questions, t.state.answers);
    AnswersLeadToOneCompletion(cat, st, frames);
  }

  /** The answer payloads of a list of records. */
  function Recorded(answers: seq<AnswerRecord>): (r: seq<Option<Json>>)
    ensures |r| == |answers|
  {
    seq(|answers|, i requires 0 <= i < |answers| => answers[i].answer)
  }

  /** The `answer` fields of a list of frames. */
  function Payloads(frames: seq<Option<Json>>): (r: seq<Option<Json>>)
    ensures |r| == |frames|
  {
    seq(|frames|, i requires 0 <= i < |frames| => AnswerPayload(frames[i]))
  }

  /** One accepted answer, as the trace lemmas need it. */
  lemma AnswerStepFacts(cat: Catalog, st: State, frame: Option<Json>)
    requires Valid(st) && Awaiting(st) && IsAnswerFrame(frame)
    ensures var next := Step(cat, st, frame).state;
      && Valid(next)
      && next.questions == st.questions
      && next.total == st.total && next.currentIndex == st.currentIndex + 1
      && (next.currentIndex < next.total ==> Awaiting(next))
      && Recorded(next.answers) == Recorded(st.answers) + [AnswerPayload(frame)]
  {
    AnswerRecorded(cat, st, frame);
    var next := Step(cat, st, frame).state;
    assert Recorded(next.answers) == Recorded(st.answers) + [AnswerPayload(frame)];
  }

  lemma AllAnswersTail(frames: seq<Option<Json>>)
    requires |frames| > 0
    requires forall i :: 0 <= i < |frames| ==> IsAnswerFrame(frames[i])
    ensures forall i :: 0 <= i < |frames[1..]| ==> IsAnswerFrame(frames[1..][i])
    ensures Payloads(frames) == [AnswerPayload(frames[0])] + Payloads(frames[1..])
  {
    assert forall i :: 0 <= i < |frames[1..]| ==> frames[1..][i] == frames[i + 1];
  }

  /** The answers recorded are the payloads of the answer frames, in the
      order they arrived. */
  lemma {:induction false} AnswersRecordedInOrder(cat: Catalog, st: State, frames: seq<Option<Json>>)
    requires Valid(st) && Awaiting(st)
    requires |frames| == st.total - st.currentIndex
    requires forall i :: 0 <= i < |frames| ==> IsAnswerFrame(frames[i])
    ensures Recorded(Run(cat, st, frames).state.answers) == Recorded(st.answers) + Payloads(frames)
    decreases |frames|
  {
    var next := Step(cat, st, frames[0]).state;
    RunFirstStep(cat, st, frames);
    AnswerStepFacts(cat, st, frames[0]);
    AllAnswersTail(frames);
    var x := AnswerPayload(frames[0]);
    var tail := Payloads(frames[1..]);
    if st.currentIndex + 1 < st.total {
      AnswersRecordedInOrder(cat, next, frames[1..]);
      calc {
        Recorded(Run(cat, st, frames).state.answers);
        Recorded(Run(cat, next, frames[1..]).state.answers);
        Recorded(next.answers) + tail;
        (Recorded(st.answers) + [x]) + tail;
        { AppendAssoc(Recorded(st.answers), [x], tail); }
        Recorded(st.answers) + ([x] + tail);
        Recorded(st.answers) + Payloads(frames);
      }
    } else {
      assert frames[1..] == [];
      assert tail == [];
    }
  }

  lemma AppendAssoc<T>(a: seq<T>, b: seq<T>, c: seq<T>)
    ensures (a + b) + c == a + (b + c)
  {
  }

  /** The state after a non-empty run is the state after its tail, run from
      the state the first frame leads to. */
  lemma RunFirstStep(cat: Catalog, st: State, frames: seq<Option<Json>>)
    requires |frames| > 0
    ensures Run(cat, st, frames).state == Run(cat, Step(cat, st, frames[0]).state, frames[1..]).state
    ensures |frames| == 1 ==> Run(cat, st, frames).state == Step(cat, st, frames[0]).state
  {
  }
}
