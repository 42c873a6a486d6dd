/** The persona question catalog and `buildQuestions`, which flattens one
    persona's catalog entry into the list a session draws its questions
    from, plus the REST helper that returns the first few of them. */
module QuestionBank {
  import opened JsValues

  /** How many questions a session (and the REST helper) takes. */
  const MaxQuestions: nat := 5

  /** A scoring question as the catalog stores it: `options` maps each
      answer text to the points it earns. */
  datatype ScoringEntry = ScoringEntry(id: string, question: string, qtype: string,
                                       options: seq<(string, Json)>)

  /** A non-scoring question as the catalog stores it: `options` is
      normally an array of answer texts, but is taken as written. */
  datatype NonScoringEntry = NonScoringEntry(id: string, question: string, qtype: string,
                                             options: Json)

  /** One persona of the catalog; a section the catalog leaves out is None. */
  datatype Persona = Persona(scoring: Option<seq<ScoringEntry>>,
                             nonScoring: Option<seq<NonScoringEntry>>)

  /** The catalog loaded at start-up, by persona key. */
  type Catalog = map<string, Persona>

  /** A question as a session holds it. `scores` is present exactly for
      scoring questions. */
  datatype Question = Question(id: string, text: string, qtype: string, options: seq<Json>,
                               scoring: bool, scores: Option<seq<(string, Json)>>)

  function FromScoring(e: ScoringEntry): (q: Question)
    ensures q.id == e.id && q.text == e.question && q.qtype == e.qtype
    ensures q.scoring && q.scores == Some(e.options)
    ensures |q.options| == |Keys(e.options)|
    ensures forall i :: 0 <= i < |q.options| ==> q.options[i] == JStr(Keys(e.options)[i])
  {
    var ks := Keys(e.options);
    Question(e.id, e.question, e.qtype, seq(|ks|, i requires 0 <= i < |ks| => JStr(ks[i])),
             true, Some(e.options))
  }

  function FromNonScoring(e: NonScoringEntry): (q: Question)
    ensures q.id == e.id && q.text == e.question && q.qtype == e.qtype
    ensures !q.scoring && q.scores.None?
    ensures e.options.JArr? ==> q.options == e.options.elems
    ensures !e.options.JArr? ==> q.options == []
  {
    Question(e.id, e.question, e.qtype, if e.options.JArr? then e.options.elems else [],
             false, None)
  }

  function ScoringSection(p: Persona): seq<ScoringEntry> {
    p.scoring.GetOr([])
  }

  function NonScoringSection(p: Persona): seq<NonScoringEntry> {
    p.nonScoring.GetOr([])
  }

  /** buildQuestions: the persona's scoring questions, then its non-scoring
      ones, each group in catalog order; an unknown persona has none. */
  function BuildQuestions(cat: Catalog, key: string): (qs: seq<Question>)
    ensures key !in cat ==> qs == []
    ensures key in cat ==>
      var sc := ScoringSection(cat[key]);
      var ns := NonScoringSection(cat[key]);
      && |qs| == |sc| + |ns|
      && (forall i :: 0 <= i < |sc| ==> qs[i] == FromScoring(sc[i]))
      && (forall j :: 0 <= j < |ns| ==> qs[|sc| + j] == FromNonScoring(ns[j]))
  {
    if key !in cat then []
    else
      var sc := ScoringSection(cat[key]);
      var ns := NonScoringSection(cat[key]);
      seq(|sc|, i requires 0 <= i < |sc| => FromScoring(sc[i]))
        + seq(|ns|, j requires 0 <= j < |ns| => FromNonScoring(ns[j]))
  }

  /** No non-scoring question precedes a scoring one. */
  lemma ScoringQuestionsFirst(cat: Catalog, key: string, i: int, j: int)
    requires 0 <= i <= j < |BuildQuestions(cat, key)|
    requires BuildQuestions(cat, key)[j].scoring
    ensures BuildQuestions(cat, key)[i].scoring
    ensures key in cat && j < |ScoringSection(cat[key])|
  {
  }

  /** The first `n` elements of `s`, or all of them when there are fewer:
      Array.prototype.slice(0, n). */
  function Take<T>(s: seq<T>, n: nat): (r: seq<T>)
    ensures |r| == if |s| < n then |s| else n
    ensures r <= s
  {
    if |s| < n then s else s[..n]
  }

  /** The questions a session starts with: the first five built ones. */
  function SelectQuestions(cat: Catalog, key: string): (qs: seq<Question>)
    ensures |qs| <= MaxQuestions
    ensures qs <= BuildQuestions(cat, key)
    ensures |BuildQuestions(cat, key)| >= MaxQuestions ==> |qs| == MaxQuestions
    ensures |BuildQuestions(cat, key)| < MaxQuestions ==> qs == BuildQuestions(cat, key)
  {
    Take(BuildQuestions(cat, key), MaxQuestions)
  }

  /** When a persona has at least five questions a session gets exactly
      five, the scoring ones first and in catalog order. */
  lemma FiveSelectedScoringFirst(cat: Catalog, key: string)
    requires key in cat
    requires |ScoringSection(cat[key])| + |NonScoringSection(cat[key])| >= MaxQuestions
    ensures |SelectQuestions(cat, key)| == MaxQuestions
    ensures forall i, j :: (0 <= i <= j < MaxQuestions && SelectQuestions(cat, key)[j].scoring
      ==> SelectQuestions(cat, key)[i].scoring)
    ensures forall i :: 0 <= i < MaxQuestions && i < |ScoringSection(cat[key])| ==>
      SelectQuestions(cat, key)[i] == FromScoring(ScoringSection(cat[key])[i])
  {
    var qs := SelectQuestions(cat, key);
    forall i, j | 0 <= i <= j < MaxQuestions && qs[j].scoring
      ensures qs[i].scoring
    {
      ScoringQuestionsFirst(cat, key, i, j);
    }
  }

  /** The answer of the REST endpoint that lists a persona's questions.
      `KeyThrows` is the TypeError the catalog lookup raises for a persona
      that cannot be turned into a property key; the handler does not catch
      it. */
  datatype QuestionsReply =
    | BadPersona(status: int, error: string)
    | QuestionList(persona: Json, total: nat, questions: seq<Question>)
    | KeyThrows

  const InvalidPersona: string := "Invalid or missing persona"

  /** getQuestions: refuses a missing or unknown persona with 400, and
      otherwise lists the first five built questions. Unlike the session's
      question message, these carry their score maps. */
  function GetQuestions(cat: Catalog, persona: Option<Json>): (r: QuestionsReply)
    ensures r.KeyThrows? <==> Truthy(persona) && KeyOf(persona).None?
    ensures r.BadPersona? <==> !Truthy(persona) || (KeyOf(persona).Some? && KeyOf(persona).value !in cat)
    ensures r.BadPersona? ==> r.status == 400 && r.error == InvalidPersona
    ensures r.QuestionList? ==>
      && KeyOf(persona).Some?
      && r.persona == persona.value
      && r.questions == SelectQuestions(cat, KeyOf(persona).value)
      && r.total == |r.questions|
      && r.total <= MaxQuestions
      && (r.total == 0 <==>
            |ScoringSection(cat[KeyOf(persona).value])| + |NonScoringSection(cat[KeyOf(persona).value])| == 0)
  {
    if !Truthy(persona) then BadPersona(400, InvalidPersona)
    else match KeyOf(persona)
      case None => KeyThrows
      case Some(key) =>
        if key !in cat then BadPersona(400, InvalidPersona)
        else
          var qs := SelectQuestions(cat, key);
          QuestionList(persona.value, |qs|, qs)
  }
}
