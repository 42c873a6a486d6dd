# AI-readiness assessment back end — a Dafny model

This project models the logic core of a Node.js back end for a consulting
site. The core is the AI-readiness quiz.

- A client opens a WebSocket and sends a `start` frame naming a persona.
- The server builds the persona's question list, scoring questions first,
  and keeps the first five of it. It sends them one at a time and records
  each `answer` frame.
- After the last answer it computes a 0–100 readiness score and a maturity
  stage. It sends them in a `complete` message and then closes the
  connection.

The same controller has a REST helper, `getQuestions`, that lists the
same five questions for a persona.

Three smaller parts of the site are modelled as well:

- the blog controller's input normalisation and row-to-response mapping;
- the name an uploaded blog image is stored under, and the MIME filter
  that admits only images;
- the middleware that admits contact requests only for a listed service.

The model is written as pure functions over immutable datatypes:

- `js_values.dfy` (`JsValues`): what `JSON.parse` can return, JavaScript
  truthiness, how a value becomes a property key, decimal rendering,
  `String.prototype.trim`, and property lookup.
- `question_bank.dfy` (`QuestionBank`): the catalog, `buildQuestions`,
  the five-question selection and `getQuestions`.
- `scoring.dfy` (`Scoring`): `stageFromScore` and the computation inside
  `finalize`.
- `session.dfy` (`Session`): the per-connection state and the `message`
  handler. The handler is a function from a state and a parsed frame to
  a new state, the messages sent, and what happens to the connection.
- `session_traces.dfy` (`SessionTraces`): the handler folded over a
  sequence of frames, with properties of whole conversations.
- `blog.dfy` (`Blog`): `createBlog` up to its INSERT, `safeParseJSON` and
  `mapBlogRowToResponse`.
- `blog_upload.dfy` (`BlogUpload`): the multer `filename` callback and
  `fileFilter`. Names are UTF-16 code units.
- `validate_service.dfy` (`ValidateService`): `validateService`.

Things the model takes as parameters:

- The question catalog (`questions.json`, read from disk at start-up) is
  a parameter of type `Catalog`.
- An inbound frame is the result of `JSON.parse`. It is `None` when the
  parse throws.
- `JSON.parse` inside the blog controller is a function parameter
  `parse`. It returns `None` where the real one throws.
- The upload's base name, its extension and `Date.now()` are parameters
  of `Filename`.

Scores are Dafny `real`s. `Number(x.toFixed(1))` is modelled as rounding
half-up to a tenth. This is exact for the non-negative values `finalize`
rounds.

### Behaviour worth knowing

- The blog columns are TEXT and TEXT[] (`src/controllers/blogController.js:10-16`),
  and the JSON body can carry any JSON value. node-postgres sends a number
  or a boolean as its text, so a description `5` reads back as `"5"` and
  an author `true` as `"true"` (`Blog.InsertedRow`,
  `Blog.NumberAndBooleanFieldsReadBackAsText`).
- A mean of 4 points, the top option everywhere, gives
  `((4-1)/3)*85 = 85.0`, not 100
  (`src/controllers/aiAssessmentController.js:101`).
  `Scoring.UniformAnswersOutcome` proves 85.0, "AI-Mature".
- Of the frames that are not objects, only an unparsable frame and
  `null` get "Invalid message format.": reading `data.type` on `null`
  throws. A number, string, boolean or array frame has no `type`
  property and is ignored silently
  (`Session.Step`, `Session.OtherFramesIgnored`).
- Using a value as a property key converts it to a string. For an object
  with its own `toString` member (`{"toString": 0}`), or an array holding
  one at any depth, that conversion throws a TypeError (`JsValues.KeyOf`).
  - A `start` frame with such a persona stores the persona, then throws
    in `buildQuestions` (line 16). The catch sends "Invalid message
    format." and the connection stays open (`Session.ToStringPersonaStart`).
  - Such an answer to a scoring question is recorded normally, at any
    position. `finalize` runs after the last answer and looks at each
    scoring question's first recorded answer. If any of those is such a
    value, `finalize` throws (line 96). The client then gets "Invalid
    message format." instead of `complete`, and the connection is not
    closed (`Session.AnswerTransition`, `SessionTraces.AnswersLeadToOneCompletion`).
  - `getQuestions` throws before responding (`QuestionBank.GetQuestions`).

## Model

| member | source | states |
|---|---|---|
| JsValues.Get | src/controllers/aiAssessmentController.js:96 | A property read on a parsed object finds nothing exactly when no member has the key. Otherwise it yields the value of the last member with that key, as duplicate keys overwrite in JSON.parse. |
| JsValues.Keys | src/controllers/aiAssessmentController.js:24 | Object.keys lists each key of the object exactly once. Every key of the object is listed. |
| JsValues.KeysInFirstOccurrenceOrder | src/controllers/aiAssessmentController.js:24 | Object.keys lists the keys in the order in which each first appears in the parsed text. |
| JsValues.NatToDecimal | src/middleware/blogUpload.js:20 | The timestamp in a template literal is a non-empty string of decimal digits with no leading zero. |
| JsValues.DecimalRoundTrip | src/middleware/blogUpload.js:20 | Reading the rendered digits back as a decimal number gives the timestamp again. |
| JsValues.ToText | src/controllers/aiAssessmentController.js:16 | Converting a value to text gives "null", "true" or "false", a string itself, "[object Object]" for an object, and for a number its decimal digits, with a leading '-' exactly when it is negative, that read back as its magnitude. |
| JsValues.IntToDecimalReadsBack | src/middleware/blogUpload.js:20 | An integer's text has a '-' exactly when it is negative, followed by digits that read back as its magnitude. |
| JsValues.FalsyValues | src/controllers/aiAssessmentController.js:94 | A value is falsy exactly when it is undefined, null, false, 0 or the empty string. |
| JsValues.KeyOf | src/controllers/aiAssessmentController.js:16 | Converting a value to a property key throws exactly for an object with its own `toString` member, or an array holding one at any depth. `undefined` gives "undefined" and a string gives itself. |
| JsValues.Trim | src/controllers/blogController.js:53-54 | trim gives a contiguous slice of the text. Everything cut from either end is JavaScript white space, and the result neither starts nor ends with white space. It is empty exactly when the text is all white space, and it contains no character the text lacks. |
| QuestionBank.FromScoring | src/controllers/aiAssessmentController.js:20-27 | A scoring question keeps the catalog entry's id, text and type, is marked scoring and keeps its score map. Its options are the score map's keys, in order. |
| QuestionBank.FromNonScoring | src/controllers/aiAssessmentController.js:30-36 | A non-scoring question keeps the catalog entry's id, text and type, is marked non-scoring and has no score map. Its options are the catalog array, or none when the catalog value is not an array. |
| QuestionBank.BuildQuestions | src/controllers/aiAssessmentController.js:15-39 | An unknown persona has no questions. A known one has all its scoring questions, then all its non-scoring ones, each group in catalog order. An absent section counts as empty. |
| QuestionBank.ScoringQuestionsFirst | src/controllers/aiAssessmentController.js:38 | In the built list no non-scoring question comes before a scoring one. Every scoring question comes from the scoring section. |
| QuestionBank.Take | src/controllers/aiAssessmentController.js:121 | slice(0, n) is a prefix of length min(n, length). |
| QuestionBank.SelectQuestions | src/controllers/aiAssessmentController.js:120-121 | A session's questions are a prefix of the built list of at most five. There are exactly five when five or more exist, and all of them otherwise. |
| QuestionBank.FiveSelectedScoringFirst | src/controllers/aiAssessmentController.js:120-121 | For a persona with at least five questions, a session gets five of them, with the scoring ones first and in catalog order. |
| QuestionBank.GetQuestions | src/controllers/aiAssessmentController.js:42-49 | The helper throws exactly when the persona is truthy and its key conversion throws. It refuses with 400 "Invalid or missing persona" exactly when the persona is falsy or its key is not in the catalog. Otherwise it lists at most five selected questions with their count. The count is 0 only when the persona has no questions. |
| Scoring.StageFromScore | src/controllers/aiAssessmentController.js:8-13 | Each stage holds exactly the scores in its bucket. The upper bounds 40, 60 and 75 are inclusive. |
| Scoring.StageMonotone | src/controllers/aiAssessmentController.js:8-13 | A higher score never falls in a lower stage. |
| Scoring.RoundTenths | src/controllers/aiAssessmentController.js:102 | The result is the whole number of tenths nearest the value, with halves rounded away from zero. |
| Scoring.RoundTenthsUnique | src/controllers/aiAssessmentController.js:102 | Exactly one number of tenths is the rounding of a non-negative value. |
| Scoring.Clamp | src/controllers/aiAssessmentController.js:101 | max(0, min(100, v)) lies in [0, 100]. It is v when v is in range and the nearer bound otherwise. |
| Scoring.ScoreTenths | src/controllers/aiAssessmentController.js:100-102 | The rounded score, in tenths, lies between 0 and 1000. It is within half a tenth of the clamped affine image of the mean. |
| Scoring.ScoreMonotone | src/controllers/aiAssessmentController.js:100-102 | A higher mean never gives a lower score. |
| Scoring.WorkedScores | src/controllers/aiAssessmentController.js:100-107 | A mean of 1 gives 0.0. A mean of 3 gives 56.7, "Developing". A mean of 4 gives 85.0, "AI-Mature". |
| Scoring.FindAnswer | src/controllers/aiAssessmentController.js:93 | find returns nothing exactly when no record is for the question. Otherwise it returns the first record for it. |
| Scoring.AnswerPoints | src/controllers/aiAssessmentController.js:94-97 | A falsy answer, or a question without a score map, earns 0. Otherwise scoring throws exactly when the key conversion of the answer, or of an array answer's first element, throws. If it does not throw, the answer earns what the map holds under that key when it is a number, and 0 when it is missing or not a number. |
| Scoring.MultiSelectUsesFirstChoice | src/controllers/aiAssessmentController.js:95-96 | An array answer whose first element is truthy and not itself an array scores exactly as that element alone would. |
| Scoring.ToStringMemberAnswerThrows | src/controllers/aiAssessmentController.js:95-96 | `{"toString": v}` and `[{"toString": v}]` cannot be scored against a score map. |
| Scoring.QuestionPoints | src/controllers/aiAssessmentController.js:92-98 | A question without a recorded answer contributes 0. Otherwise it contributes the points of its first recorded answer. |
| Scoring.ScoringOnly | src/controllers/aiAssessmentController.js:89 | The filter keeps exactly the scoring questions. It is empty exactly when there is no scoring question. |
| Scoring.ScoringOnlyCounts | src/controllers/aiAssessmentController.js:89 | The filter keeps every copy of each scoring question and adds nothing. |
| Scoring.ScoringOnlyAppend | src/controllers/aiAssessmentController.js:89 | Filtering a concatenation is the concatenation of the filtered parts, so the filter keeps the order. |
| Scoring.ScoringOnlyIdempotent | src/controllers/aiAssessmentController.js:89 | Filtering the scoring questions twice is filtering once. |
| Scoring.Total | src/controllers/aiAssessmentController.js:91-98 | The running total exists exactly when every question's points do. It is 0 for no questions and a lone question's points for one. |
| Scoring.TotalAppend | src/controllers/aiAssessmentController.js:91-98 | The total of two runs of points is the sum of their totals, and is missing exactly when one of them is. With the one-question case this fixes the total as the sum. |
| Scoring.TotalBounds | src/controllers/aiAssessmentController.js:91-98 | n points, each between lo and hi, total between n·lo and n·hi. |
| Scoring.PointsOf | src/controllers/aiAssessmentController.js:92-98 | Each question in turn is scored against the recorded answers. |
| Scoring.PointsOfAppend | src/controllers/aiAssessmentController.js:92-98 | Scoring a concatenation scores each part, in order. |
| Scoring.SumPoints | src/controllers/aiAssessmentController.js:91-98 | Summing the points throws exactly when scoring some question throws. No questions sum to 0, and one question sums to its points. |
| Scoring.SumPointsAppend | src/controllers/aiAssessmentController.js:91-98 | The points of two runs of questions add up, and the sum is missing exactly when one part's is. |
| Scoring.Raw | src/controllers/aiAssessmentController.js:89-100 | The mean is computed exactly when every scoring question can be scored. |
| Scoring.RawIsMean | src/controllers/aiAssessmentController.js:89-100 | The mean is the total points of the scoring questions divided by their number, and 0 without scoring questions. |
| Scoring.MeanWithinPointRange | src/controllers/aiAssessmentController.js:91-100 | When every scoring question earns between lo and hi points, the mean lies between lo and hi. |
| Scoring.ScoreAtMost85 | src/controllers/aiAssessmentController.js:91-102 | When every scoring question earns 1 to 4 points, finalize gets through and the score is at most 85.0. |
| Scoring.MixedPointsOutcome | src/controllers/aiAssessmentController.js:91-107 | Three scoring questions earning 4, 3 and 2 points average 3 and give 56.7, "Developing". |
| Scoring.RawOfScoringOnly | src/controllers/aiAssessmentController.js:89-100 | Filtering the questions first leaves the mean unchanged. |
| Scoring.Finalize | src/controllers/aiAssessmentController.js:88-107 | finalize gets through exactly when every scoring question can be scored. The reported score then lies in [0, 100] and is a whole number of tenths. It is within 0.05 of the clamped affine image of the mean. The stage is computed from the rounded score. |
| Scoring.PrintableAnswersAreScorable | src/controllers/aiAssessmentController.js:91-98 | finalize always gets through when no recorded answer is a value whose key conversion throws. |
| Scoring.ToStringMemberAnswerBlocksFinalize | src/controllers/aiAssessmentController.js:91-98 | A first recorded answer `{"toString": v}` to a scoring question with a score map makes finalize throw. |
| Scoring.OnlyScoringQuestionsCount | src/controllers/aiAssessmentController.js:89-100 | Non-scoring questions have no effect on the outcome. |
| Scoring.NoScoringQuestionsScoresZero | src/controllers/aiAssessmentController.js:100-101 | Without scoring questions the outcome is 0.0, "Early-Stage AI". |
| Scoring.SumOfUniformPoints | src/controllers/aiAssessmentController.js:91-98 | When every question earns p points, the total is p times the number of questions. |
| Scoring.UniformPointsMean | src/controllers/aiAssessmentController.js:100 | When every scoring question earns p points, the mean is p. |
| Scoring.UniformAnswersOutcome | src/controllers/aiAssessmentController.js:100-107 | All scoring answers at 4 points give 85.0, "AI-Mature". All at 1 point give 0.0, "Early-Stage AI". |
| Session.FinishSession | src/controllers/aiAssessmentController.js:88-112 | finalize leaves the state alone and sends one message. When every scoring answer can be scored, that is `complete` and the connection closes with 1000 "complete" after 200 ms. The message has the finalize score and its stage label, the number of answers and the total, and no assessment id. Otherwise it is "Invalid message format." and the connection stays open. |
| Session.SendQuestion | src/controllers/aiAssessmentController.js:69-86 | While a question remains, the current question is sent without its score map, numbered from 1, with the total. Otherwise the session is finalized. |
| Session.Start | src/controllers/aiAssessmentController.js:118-133 | An accepted start keeps the invariant and always stores the persona. When the persona converts to a key, the session restarts at index 0 with no answers and awaits an answer exactly when the persona has questions. When the conversion throws, the questions, answers, index and total are unchanged. |
| Session.Answer | src/controllers/aiAssessmentController.js:136-153 | Recording an answer preserves the session invariant. |
| Session.StartPersona | src/controllers/aiAssessmentController.js:117-118 | A frame is a start exactly when it is neither unparsable nor null, its `type` is "start", and its `persona` is truthy. The persona it starts with is the frame's `persona`. An answer frame is never a start. |
| Session.Step | src/controllers/aiAssessmentController.js:115-158 | Every frame preserves the session invariant, including those whose key conversion throws. An unparsable or null frame gets exactly one "Invalid message format." error and changes nothing. |
| Session.FreshIsValid | src/controllers/aiAssessmentController.js:55-61 | A new connection satisfies the invariant and has not started. |
| Session.StartTransition | src/controllers/aiAssessmentController.js:118-133 | A start whose persona converts to a key resets the session to the first min(5, n) questions, with index 0, no answers and that total. It sends `ack` first. With no questions it then sends the error and closes with 1000 "no-questions". Otherwise it then sends question 1 and stays open. A persona whose conversion throws is stored, nothing else changes, and the only message is "Invalid message format."; the connection stays open. |
| Session.ToStringPersonaStart | src/controllers/aiAssessmentController.js:116-156 | The start frame with persona `{"toString": 0}` stores the persona, sends "Invalid message format." and keeps the connection open. |
| Session.StartIgnoresPriorState | src/controllers/aiAssessmentController.js:118-124 | A start sends the same messages and does the same to the connection in any state, and always stores its persona. When the persona converts to a key, the resulting state is also the same. |
| Session.AnswerTransition | src/controllers/aiAssessmentController.js:136-153 | An answer while one is awaited appends exactly one record for the current question and advances the index by one. It then sends the next question. After the last one it sends a completion with answered equal to the total and closes after the grace period, or, when finalize throws, sends "Invalid message format." and stays open. |
| Session.AnswerRecorded | src/controllers/aiAssessmentController.js:140-146 | An accepted answer changes the state only by the appended record and the advanced index. |
| Session.OtherFramesIgnored | src/controllers/aiAssessmentController.js:115-158 | These frames change nothing and send nothing: an unknown type, a start without a persona, and an answer when none is awaited. |
| Session.CompleteExactlyOnLastAnswer | src/controllers/aiAssessmentController.js:145-151 | A frame produces a completion exactly when it answers the session's last question and finalize can score the answers, that one included. |
| SessionTraces.Run | src/controllers/aiAssessmentController.js:115-158 | Any sequence of frames keeps the session invariant. |
| SessionTraces.ReachableStatesValid | src/controllers/aiAssessmentController.js:55-61 | Every state a connection reaches satisfies the invariant, so no more answers are recorded than questions were selected. |
| SessionTraces.SilentAfterCompletion | src/controllers/aiAssessmentController.js:136 | After completion, until a new start, no frame changes the state or produces another completion. |
| SessionTraces.AnswersFillSession | src/controllers/aiAssessmentController.js:140-146 | Answering each remaining question once leaves every selected question answered and nothing awaited. The questions and the answers recorded earlier are kept. |
| SessionTraces.AnswersLeadToOneCompletion | src/controllers/aiAssessmentController.js:145-151 | Answering each remaining question once ends in one completion as the last message, reporting answered equal to the total, when finalize can score the recorded answers. Otherwise there is no completion and the last message is "Invalid message format.". |
| SessionTraces.PrintableAnswersCompleteOnce | src/controllers/aiAssessmentController.js:145-151 | When no recorded or incoming answer is a value whose key conversion throws, answering each remaining question once produces exactly one completion. |
| SessionTraces.AnswerStepFacts | src/controllers/aiAssessmentController.js:140-146 | An accepted answer appends its payload to the recorded answers, keeps the total and the invariant, and advances the index by one. |
| SessionTraces.AnswersRecordedInOrder | src/controllers/aiAssessmentController.js:140-146 | The recorded answers are the payloads of the answer frames, in arrival order, after those recorded before. |
| Blog.SafeParseJson | src/controllers/blogController.js:172-178 | A parse that throws gives an empty array. A parse that succeeds gives its value. |
| Blog.Split | src/controllers/blogController.js:54 | split yields at least one piece, and no piece contains the separator. |
| Blog.SplitJoinRoundTrip | src/controllers/blogController.js:54 | Joining the pieces with the separator restores the text. |
| Blog.TrimAll | src/controllers/blogController.js:54 | Every piece is trimmed, in place. |
| Blog.NonEmpty | src/controllers/blogController.js:54 | filter(Boolean) keeps exactly the non-empty strings. |
| Blog.NonEmptyAppend | src/controllers/blogController.js:54 | Filtering a concatenation is the concatenation of the filtered parts, so the filter keeps the order. |
| Blog.NonEmptyCounts | src/controllers/blogController.js:54 | The filter keeps every copy of each non-empty string and adds nothing. |
| Blog.SplitKeywords | src/controllers/blogController.js:54 | The keywords are exactly the non-empty trimmed comma pieces. Each is non-empty, has no comma, and has no white space at either end. |
| Blog.SingleKeyword | src/controllers/blogController.js:53-54 | A text without a comma gives no keyword when blank, and otherwise one keyword, its trimmed self. |
| Blog.SplitKeywordsAppend | src/controllers/blogController.js:54 | The keywords of "a,b" are those of a followed by those of b. With SingleKeyword this fixes the order and count of every keyword list. |
| Blog.SplitAppend | src/controllers/blogController.js:54 | Splitting text joined at a separator splits each side independently. |
| Blog.SplitWithoutSeparator | src/controllers/blogController.js:54 | A text without the separator splits into itself alone. |
| Blog.NormaliseKeywords | src/controllers/blogController.js:51-55 | An array passes unchanged. A blank string gives none. A non-blank string gives its keywords in order. Any other value gives none. |
| Blog.ImagePath | src/controllers/blogController.js:58 | A stored path is the upload prefix followed by exactly the generated file name. |
| Blog.TitleImagePath | src/controllers/blogController.js:57-59 | The title image path is null exactly when no title image was uploaded. Otherwise it is the first upload's path. |
| Blog.ImagePaths | src/controllers/blogController.js:61-64 | There is one path per uploaded image, in upload order. |
| Blog.ParsedPoints | src/controllers/blogController.js:66-71 | An array is kept. A non-blank string goes through safeParseJSON. Anything else gives an empty array. |
| Blog.PointsColumn | src/controllers/blogController.js:73-76 | The stored points are null unless the parsed points are a non-empty array, and then they are that array. |
| Blog.OrNull | src/controllers/blogController.js:95-96 | `x || null` keeps a truthy value and turns a falsy one into null. |
| Blog.NullIfEmpty | src/controllers/blogController.js:97-99 | An array column is NULL exactly when the list is empty. Otherwise it holds the list. |
| Blog.CreateBlog | src/controllers/blogController.js:45-102 | A request missing a title or a description is refused with 400 "blog_title and blog_description are required", and nothing is inserted. Otherwise each of the eight inserted values is its field's normalisation. |
| Blog.StoredImagePathsUnderPrefix | src/controllers/blogController.js:57-64 | Every image path createBlog stores lies under "/uploads/blogs/". |
| Blog.RowPoints | src/controllers/blogController.js:153-168 | A row's points are its array. A string column is first parsed safely. Any other value, or a parse result that is not an array, gives an empty array. |
| Blog.MapRow | src/controllers/blogController.js:152-170 | A missing author reads "Inflecto Technologies" and a missing category "AI & Automation". NULL keywords read as no tags, the content equals the description, and the points are always an array. |
| Blog.AsText | src/controllers/blogController.js:10-16 | A TEXT column returns NULL exactly for null. A string comes back as itself, and a number or boolean as its text. |
| Blog.AsTextIdempotent | src/controllers/blogController.js:10-16 | What a TEXT column returns is stored again unchanged. |
| Blog.AsTextKeepsTruthy | src/controllers/blogController.js:10-16 | A truthy value stays truthy when stored as text, so the read-side `||` defaults never replace a stored author or category. |
| Blog.NumberTextRoundTrip | src/controllers/blogController.js:10-16 | A non-negative number is stored as decimal digits that read back as the same number. |
| Blog.AsTextArray | src/controllers/blogController.js:13-15 | A TEXT[] column is NULL exactly for NULL. Otherwise it holds one element per value, in order, each stored as text. |
| Blog.InsertedRow | src/controllers/blogController.js:78-105 | RETURNING * gives the generated id and timestamp. Each text column holds its value as text, the array columns hold their elements as text, and the JSONB column holds the points array. |
| Blog.StringValuesStoredUnchanged | src/controllers/blogController.js:78-105 | When every inserted value is a string or NULL, the returned row holds exactly the inserted values. |
| Blog.CreatedBlogReadsBack | src/controllers/blogController.js:93-110 | The blog createBlog answers with carries the normalised keywords, each as text, and the normalised points. An empty list stored as NULL reads back empty. The title and description read back as text, a missing author or category as the default, the content equals the description, and the image is the title image path. |
| Blog.StringFormReadsBack | src/controllers/blogController.js:93-110 | A form of strings, with keywords given as one comma-separated string, reads back exactly as normalised. |
| Blog.NumberAndBooleanFieldsReadBackAsText | src/controllers/blogController.js:93-110 | A JSON body with description `5`, author `true` and keywords `[1]` reads back with "5", "true" and ["1"]. |
| BlogUpload.ReplaceDisallowed | src/middleware/blogUpload.js:18 | Every code unit outside `[a-z0-9_-]` (either case) becomes exactly one '_'. Units inside stay. The length in UTF-16 code units is kept. |
| BlogUpload.SafeBase | src/middleware/blogUpload.js:18 | The sanitised base has the length of the base. It contains only lower-case ASCII letters, digits, '_' and '-'. |
| BlogUpload.SafeBaseUnitwise | src/middleware/blogUpload.js:18 | Sanitising is a unit-by-unit rewrite. Safe units stay, upper-case ASCII letters are lowered, and everything else becomes '_'. |
| BlogUpload.SafeBaseKeepsSafe | src/middleware/blogUpload.js:18 | A base made only of safe units is left unchanged. |
| BlogUpload.SafeBaseIdempotent | src/middleware/blogUpload.js:18 | Sanitising twice gives the same as sanitising once. |
| BlogUpload.TimestampUnits | src/middleware/blogUpload.js:19-20 | The timestamp is written as its own decimal digits, one code unit per digit. |
| BlogUpload.Filename | src/middleware/blogUpload.js:15-21 | The stored name starts with the sanitised base, followed by '_'. It ends with the original extension. Everything before the extension is safe. |
| BlogUpload.FilenameTimestampRoundTrip | src/middleware/blogUpload.js:19-20 | The segment between the '_' and the extension is all digits and reads back as the timestamp. |
| BlogUpload.DistinctTimestampsDistinctNames | src/middleware/blogUpload.js:19-20 | The same file uploaded at two different times gets two different names. |
| BlogUpload.FileFilter | src/middleware/blogUpload.js:24-29 | An upload is admitted exactly when its MIME type starts with "image/". Otherwise it is refused with "Only image uploads are allowed". |
| BlogUpload.FileFilterCases | src/middleware/blogUpload.js:25-26 | Any "image/" subtype is admitted. "IMAGE/…", a bare "image" and a non-image type are refused. |
| ValidateService.Validate | src/middleware/validateService.js:1-16 | The request is passed on exactly when `service` is a string equal to one of the seven listed services. Otherwise it is answered with 400 "Invalid service value.", and it is never both. |
| ValidateService.ValidateCases | src/middleware/validateService.js:13-14 | A missing service, null, an array, a differently-cased name and a name with a trailing space are refused. Each listed name is admitted. |

## Left out

- WebSocket transport: the server, the path, `send` only while the socket
  is OPEN, and the `error` handler. These are I/O. Outbound messages are a
  returned sequence, and closing is the `Closure` value.
- The `setTimeout` before the close after completion is a `CloseAfter(200,
  1000, "complete")` value with no clock. Frames that arrive in those
  200 ms are handled like any other (see `SilentAfterCompletion`).
- Loading `questions.json` from disk. The catalog is a parameter. The
  model assumes each persona entry is an object whose sections, when
  present, are arrays of questions with string fields and object-valued
  scoring `options`. A malformed catalog makes the real handler throw
  and answer "Invalid message format.", and that is not modelled.
- Keys inherited from `Object.prototype` (a persona such as `toString`)
  are not modelled. Property lookup sees only the parsed object's own
  members.
- JsValues.KeysInFirstOccurrenceOrder: ECMAScript's OrdinaryOwnPropertyKeys
  lists array-index keys ("0", "1", …) first, in ascending numeric order,
  and the other string keys after them in insertion order. The model's
  `Keys`, and so the option order of `QuestionBank.FromScoring`, follows
  insertion order throughout. It is correct only for objects without
  array-index keys.
- JSON strings are Dafny strings. A Dafny `char` cannot hold a lone
  surrogate, so a string such as `"\ud800"`, which `JSON.parse` accepts,
  is not modelled.
- Blog.AsText: an array or object sent to a TEXT column is stored as a
  PostgreSQL array literal or as JSON text. Nested arrays in the keywords
  make a multi-dimensional TEXT[] value. The model keeps such values as
  they are and does not model that text.
- Blog.CreatedBlogReadsBack: for an array or object title, description,
  author, category or keyword, the text that reads back is not stated,
  for the reason given under `Blog.AsText`.
- JSON numbers are integers within ±`Number.MAX_SAFE_INTEGER`, where
  `JSON.parse` is exact and the key text is the plain decimal. Fractional
  numbers and larger magnitudes are not modelled. Their key text needs
  JavaScript's number-to-string algorithm, which switches to exponent
  form from 1e21 on.
- Blog file names (`StoredFile.filename`) are Dafny strings. Upload names
  (`BlogUpload.Filename`) are UTF-16 code units, because a Dafny `char`
  cannot hold a lone surrogate. No lemma connects `Blog.ImagePath` to
  `BlogUpload.Filename`.
- IEEE-754 arithmetic and the exact `toFixed` algorithm. Reals with
  half-up rounding stand in for them.
- `JSON.stringify` of the points and their storage as JSONB. The stored
  column holds the array itself. JSONB reorders the keys of an object
  inside the points, and JSON.parse and JSON.stringify keep only the last
  of repeated keys, while the model's `JObj` keeps its members in textual
  order with repetitions. So `Blog.CreatedBlogReadsBack`'s points equal
  the parsed array only up to member order and repeated keys within
  object elements.
- The SQL queries, table creation, the 201/200/404/500 responses around
  them, and `getBlogs`/`getBlogById` beyond `mapBlogRowToResponse`. These
  are database I/O.
- multer's disk storage, its 10 MB size limit and its per-field counts;
  `path.extname`/`path.basename`; `Date.now()`. The base name, extension
  and timestamp are parameters. The library enforces the limits.
- The contact controller, the database pool, e-mail and PDF templates,
  the nodemailer transport, `index.js` and the route files. These are
  I/O, presentation and wiring.
