# AI interview front end: the session state machine

This project models the core of a React/Redux front end for an AI-driven
job interview, and proves properties of that model. A candidate uploads a
résumé. The tool generates six questions, two per difficulty. Each
question runs against a countdown, and each answer is scored by an
evaluation service. When the last answer is in, the session completes
with the rounded mean score and a summary, and the result is credited to
a candidate record. An interviewer dashboard lists, searches, deduplicates
and ranks the candidates. A session interrupted by a reload can be
continued within 24 hours.

The model follows the program's own structure, one module per source file:

- `InterviewSlice` (`src/features/interviewSlice.js`): the session store.
  `Interview` is the slice's state, and its member functions are the
  reducers. The class `InterviewStore` holds the same fields and updates
  them in place. Each of its methods is proved to produce the state the
  matching reducer function computes.
- `CandidatesSlice` (`src/features/candidatesSlice.js`): the normalised
  candidate table, a `byId` map plus an `allIds` list. Its reducers are on
  the `Table` datatype and the class `CandidateTable`.
- `SessionsSlice` and `UiSlice` (`src/features/sessionsSlice.js`,
  `src/features/uiSlice.js`): the per-candidate timer map and the UI
  selection.
- `InterviewChat` (`src/components/InterviewChat.jsx`): the decision logic
  of the chat. This covers question selection, the clamped tick,
  auto-submit, pause and resume, the submit guard, the "No Answer"
  substitution, the chat's own average, and the fallback candidate. Its
  local state is the class `ChatSession`.
- `IntervieweePage` (`src/pages/Interviewee.jsx`): the resume-or-reset
  gate with its strict 24-hour threshold, and the page's two buttons.
- `WelcomeBackModal` (`src/components/WelcomeBackModal.jsx`): the
  progress percentage, the elapsed-time text and the continue button.
- `InterviewerDashboard` (`src/components/InterviewerDashboard.jsx`): the
  search filter, the deduplication by e-mail, the sort by score, the
  selected-candidate lookup and the normalisation of database ids.
- `ResumeUpload` (`src/components/ResumeUpload.jsx`): the e-mail and phone
  validators, the DOCX name line, the file-type gate, the missing-field
  dialog, and the ordered checks before a candidate is added.
- `Common`: JavaScript semantics the modules share. This covers
  truthiness, `Math.round(t / n)` for `n > 0` as `(2t + n) / (2n)`,
  `trim`, ASCII lower-casing, `includes`, and lexicographic order.

Time (`Date.now()`) and fresh identifiers (`uuidv4()`) are parameters. A
fresh identifier carries the precondition that it is not yet in the table.
The replies of the evaluation and summary services are parameters too,
and `None` stands for a failed request. So are the PDF parser's name and
the e-mail and phone found in a résumé.

## Model

| member | source | states |
|---|---|---|
| Common.RoundDiv | src/features/interviewSlice.js:53-56 | `Math.round(t / n)` for `n > 0`: the result r satisfies r − ½ ≤ t / n < r + ½, so a half rounds up |
| Common.RoundDivBounds | src/features/interviewSlice.js:53-56 | `Math.round(t / n)` of a total `t` between `lo * n` and `hi * n` lies between `lo` and `hi` |
| Common.RoundDivExact | src/components/WelcomeBackModal.jsx:37 | rounding an exact quotient gives that quotient |
| Common.DecimalRoundTrip | src/features/interviewSlice.js:57 | the decimal text of a number reads back as that number |
| Common.Trim | src/components/ResumeUpload.jsx:158-162 | `trim()`: leading and trailing white space is dropped; TrimStartSpec, TrimEndSpec and TrimEmptyIff state what is left |
| Common.TrimStartSpec | src/components/ResumeUpload.jsx:158-162 | dropping leading white space leaves the suffix from the first character that is not white space |
| Common.TrimEndSpec | src/components/ResumeUpload.jsx:158-162 | dropping trailing white space leaves the prefix up to the last character that is not white space |
| Common.TrimEmptyIff | src/components/ResumeUpload.jsx:164-167 | `s.trim()` is empty exactly when every character of `s` is white space |
| Common.Contains | src/components/InterviewerDashboard.jsx:65-74 | `includes`; ContainsIff states that it holds exactly when the needle occurs at some position |
| Common.ContainsIff | src/components/InterviewerDashboard.jsx:65-74 | `includes` holds exactly when the needle occurs at some position |
| Common.LexLe | src/components/InterviewChat.jsx:330 | the order on ids standing in for `localeCompare`: lexicographic by character code, proved total, transitive and antisymmetric by the three lemmas below |
| Common.LexLeTotal | src/components/InterviewChat.jsx:323-330 | the id order used by the fallback sort is total |
| Common.LexLeTransitive | src/components/InterviewChat.jsx:323-330 | the id order is transitive |
| Common.LexLeAntisymmetric | src/components/InterviewChat.jsx:323-330 | the id order is antisymmetric, so the greatest id is unique |
| InterviewSlice.NonZero | src/features/interviewSlice.js:156-159 | `x \|\| null` on a number keeps exactly the non-zero values |
| InterviewSlice.NonEmpty | src/features/interviewSlice.js:155 | `s \|\| null` on a string keeps exactly the truthy values |
| InterviewSlice.TotalScore | src/features/interviewSlice.js:49-52 | the `reduce` of `a.score \|\| 0` over the answers; TotalScoreAppend gives its step and TotalScoreBounds its range |
| InterviewSlice.TotalScoreAppend | src/features/interviewSlice.js:49-52 | the score sum of a list with one more answer adds that answer's score (`a.score \|\| 0`) |
| InterviewSlice.TotalScoreBounds | src/features/interviewSlice.js:49-52 | with every score in [lo, hi] the sum lies in [lo·n, hi·n] |
| InterviewSlice.FinalAverage | src/features/interviewSlice.js:53-56 | the rounded mean of the scores, 0 without answers; FinalAverageBounds states its range |
| InterviewSlice.AnsweredSummary | src/features/interviewSlice.js:57 | the completion line "You answered n questions." with n in decimal; the submission reducer writes it with n the number of answers |
| InterviewSlice.FinalAverageBounds | src/features/interviewSlice.js:53-56 | the final score is 0 without answers and otherwise lies in the range of the answers' scores |
| InterviewSlice.Interview.SetQuestions | src/features/interviewSlice.js:26-35 | installs the questions at index 0 with no answers, not completed, score 0, a fresh truthy session id and both time stamps at `now`; the résumé and pause fields are kept |
| InterviewSlice.Interview.SubmitAnswer | src/features/interviewSlice.js:42-59 | appends exactly the answer, advances the index by exactly 1 (so index − \|answers\| is unchanged), stamps the activity time; completed iff it was or the new index reaches the end; then the score is the rounded mean and the summary line is written, otherwise score and summary are unchanged |
| InterviewSlice.Interview.CompleteInterview | src/features/interviewSlice.js:60-76 | always completes; a supplied numeric score is used verbatim, otherwise the mean of the recorded answers; index, answers and questions are unchanged |
| InterviewSlice.Interview.ResetInterview | src/features/interviewSlice.js:77-91 | the session is emptied (no questions, index 0, no answers) while `aiSummary` and `timeLeft` keep their values |
| InterviewSlice.ResetIsInitial | src/features/interviewSlice.js:77-91 | a reset equals the initial state except for the untouched `aiSummary` and `timeLeft` and a summary of "", and satisfies the session invariant |
| InterviewSlice.ResetIdempotent | src/features/interviewSlice.js:77-91 | resetting twice is resetting once |
| InterviewSlice.SetQuestionsEstablishesInvariant | src/features/interviewSlice.js:26-35 | installing questions establishes the invariant with index = \|answers\| = 0 |
| InterviewSlice.SubmitAnswerPreservesInvariant | src/features/interviewSlice.js:42-59 | a submission the chat lets through keeps the invariant, and completes exactly when the last question is answered |
| InterviewSlice.CompletionRecomputesSameScore | src/features/interviewSlice.js:47-76 | after the completing submission, `completeInterview` without a score changes nothing |
| InterviewSlice.SuppliedScoreMatchesDerived | src/features/interviewSlice.js:60-76 | supplying the derived mean gives the same state as supplying nothing |
| InterviewSlice.TimerReducersPreserveInvariant | src/features/interviewSlice.js:92-118 | pause, resume, resume-from-session, the resuming flag and the two time setters keep the invariant |
| InterviewSlice.NextQuestionStaysInRange | src/features/interviewSlice.js:106-112 | `nextQuestion` advances only while a further question exists, otherwise completes; the index stays in range and the answers are untouched |
| InterviewSlice.NextQuestionBreaksAlignment | src/features/interviewSlice.js:106-112 | from a session satisfying the invariant, `nextQuestion` leaves index ≠ \|answers\| |
| InterviewSlice.SetProgressBreaksAlignment | src/features/interviewSlice.js:120-138 | `setProgress` installs an index and answers that disagree |
| InterviewSlice.RestoreAcceptsMisalignedSnapshot | src/features/interviewSlice.js:145-162 | `restoreSession` accepts a snapshot whose index and answers disagree |
| InterviewSlice.RestoreNullIsNoOp | src/features/interviewSlice.js:146-147 | a null payload changes nothing |
| InterviewSlice.Interview.RestoreSession | src/features/interviewSlice.js:145-162 | a null payload changes nothing; otherwise each field present in the snapshot is installed and each absent one takes its `\|\|` default (0, [], false, ""); an empty session id and a zero time stamp or saved count become null; the resuming flag is cleared; `aiSummary` and `timeLeft` are kept |
| InterviewSlice.RestoreDefaults | src/features/interviewSlice.js:145-162 | a snapshot with no fields restores the initial session, keeping `aiSummary` and `timeLeft`; a saved `pausedTimeLeft` of 0 comes back as null; the resuming flag is cleared |
| InterviewSlice.TwoQuestionScenario | src/features/interviewSlice.js:42-59 | questions of 30 s and 45 s answered with scores 7 and 5: index 1 and open after the first, completed with score 6 after the second |
| InterviewSlice.InterviewStore.constructor | src/features/interviewSlice.js:5-20 | the store starts in the slice's initial state |
| InterviewSlice.InterviewStore.SetQuestions | src/features/interviewSlice.js:26-35 | the fields become `SetQuestions` of the old state |
| InterviewSlice.InterviewStore.SetAiSummary | src/features/interviewSlice.js:36-38 | only `aiSummary` changes |
| InterviewSlice.InterviewStore.SetResumeText | src/features/interviewSlice.js:39-41 | only `resumeText` changes |
| InterviewSlice.InterviewStore.SubmitAnswer | src/features/interviewSlice.js:42-59 | the fields become `SubmitAnswer` of the old state |
| InterviewSlice.InterviewStore.CompleteInterview | src/features/interviewSlice.js:60-76 | the fields become `CompleteInterview` of the old state |
| InterviewSlice.InterviewStore.ResetInterview | src/features/interviewSlice.js:77-91 | the fields become `ResetInterview` of the old state |
| InterviewSlice.InterviewStore.PauseInterview | src/features/interviewSlice.js:92-95 | sets `paused` and stamps the activity time, nothing else |
| InterviewSlice.InterviewStore.ResumeInterview | src/features/interviewSlice.js:96-99 | clears `paused` and stamps the activity time, nothing else |
| InterviewSlice.InterviewStore.ResumeFromSession | src/features/interviewSlice.js:100-105 | as resume, and raises the resuming flag |
| InterviewSlice.InterviewStore.NextQuestion | src/features/interviewSlice.js:106-112 | the fields become `NextQuestion` of the old state |
| InterviewSlice.InterviewStore.SetPausedTimeLeft | src/features/interviewSlice.js:113-115 | only `pausedTimeLeft` changes |
| InterviewSlice.InterviewStore.SetTimeLeft | src/features/interviewSlice.js:116-118 | only `timeLeft` changes |
| InterviewSlice.InterviewStore.SetProgress | src/features/interviewSlice.js:120-138 | the progress fields come from the payload and the activity time is stamped |
| InterviewSlice.InterviewStore.RestoreSession | src/features/interviewSlice.js:145-162 | the fields become `RestoreSession` of the old state |
| InterviewSlice.InterviewStore.ClearResumingFlag | src/features/interviewSlice.js:164-166 | only the resuming flag changes, to false |
| InterviewSlice.Initial | src/features/interviewSlice.js:5-20 | the slice's initial state: no questions, index 0, no answers, not completed, not paused, no session, score 0, count 0, no saved count and empty texts; `InterviewStore.constructor` is proved to start from it, and `ResetIsInitial` relates a reset to it |
| InterviewSlice.Interview.SetAiSummary | src/features/interviewSlice.js:36-38 | replaces only the summary text; `InterviewStore.SetAiSummary` is proved to produce exactly this state |
| InterviewSlice.Interview.SetResumeText | src/features/interviewSlice.js:39-41 | replaces only the résumé text; `InterviewStore.SetResumeText` is proved to produce exactly this state |
| InterviewSlice.Interview.PauseInterview | src/features/interviewSlice.js:92-95 | sets the paused flag and stamps the activity time; `InterviewStore.PauseInterview` is proved to produce exactly this state |
| InterviewSlice.Interview.ResumeInterview | src/features/interviewSlice.js:96-99 | clears the paused flag and stamps the activity time; `InterviewStore.ResumeInterview` is proved to produce exactly this state |
| InterviewSlice.Interview.ResumeFromSession | src/features/interviewSlice.js:100-105 | clears the paused flag, raises the resuming flag and stamps the activity time; `InterviewStore.ResumeFromSession` is proved to produce exactly this state |
| InterviewSlice.Interview.NextQuestion | src/features/interviewSlice.js:106-112 | advances the index by one while a further question exists and otherwise only sets the completed flag; `InterviewStore.NextQuestion` is proved to produce exactly this state |
| InterviewSlice.Interview.SetPausedTimeLeft | src/features/interviewSlice.js:113-115 | replaces only the saved count; `InterviewStore.SetPausedTimeLeft` is proved to produce exactly this state |
| InterviewSlice.Interview.SetTimeLeft | src/features/interviewSlice.js:116-118 | replaces only the current count; `InterviewStore.SetTimeLeft` is proved to produce exactly this state |
| InterviewSlice.Interview.SetProgress | src/features/interviewSlice.js:120-138 | installs the seven progress fields of the payload and stamps the activity time; `InterviewStore.SetProgress` is proved to produce exactly this state |
| InterviewSlice.Interview.ClearResumingFlag | src/features/interviewSlice.js:164-166 | clears only the resuming flag; `InterviewStore.ClearResumingFlag` is proved to produce exactly this state |
| CandidatesSlice.Patch.ApplyTo | src/features/candidatesSlice.js:40 | every key present in the patch overwrites that field; every other field is kept |
| CandidatesSlice.NewRecord | src/features/candidatesSlice.js:12-33 | the stored record has the fresh id, the given name, e-mail and phone, "not-started" for a falsy status, and the supplied score, summary, history and answers, each defaulting to 0, "", [] and [] when absent |
| CandidatesSlice.Without | src/features/candidatesSlice.js:55 | the filter keeps exactly the other ids |
| CandidatesSlice.WithoutAppend | src/features/candidatesSlice.js:55 | the filter distributes over concatenation, so kept ids keep their order |
| CandidatesSlice.WithoutAbsent | src/features/candidatesSlice.js:55 | filtering out an absent id changes nothing |
| CandidatesSlice.IdsOf | src/features/candidatesSlice.js:46 | the payload's ids in order |
| CandidatesSlice.IndexById | src/features/candidatesSlice.js:47-50 | the `reduce` that files each record under its own id, later records overwriting earlier ones; IndexByIdKeys and IndexByIdLastWins state its keys and values |
| CandidatesSlice.IndexByIdKeys | src/features/candidatesSlice.js:47-50 | the folded dictionary's keys are exactly the payload's ids |
| CandidatesSlice.IndexByIdLastWins | src/features/candidatesSlice.js:47-50 | each key maps to the last payload record carrying it |
| CandidatesSlice.Table.Add | src/features/candidatesSlice.js:22-34 | the new record is stored under the fresh id and the id is appended to `allIds` |
| CandidatesSlice.Table.Update | src/features/candidatesSlice.js:37-43 | an existing record is merged with the patch, every other record and `allIds` are unchanged, the key set is unchanged, and an unknown id changes nothing |
| CandidatesSlice.Table.Remove | src/features/candidatesSlice.js:52-57 | the key and every occurrence of the id go; the other ids keep their order and the other records their values |
| CandidatesSlice.Table.SetAll | src/features/candidatesSlice.js:44-51 | `allIds` is the payload ids in order, the keys are exactly those ids, and each maps to the last payload record carrying it |
| CandidatesSlice.Initial | src/features/candidatesSlice.js:6-9 | the empty, consistent table |
| CandidatesSlice.AddPreservesConsistent | src/features/candidatesSlice.js:11-36 | adding keeps the keys of `byId` equal to the members of `allIds` |
| CandidatesSlice.UpdatePreservesConsistent | src/features/candidatesSlice.js:37-43 | merging keeps the keys equal to the members of `allIds` |
| CandidatesSlice.RemovePreservesConsistent | src/features/candidatesSlice.js:52-57 | removing keeps the keys equal to the members of `allIds` |
| CandidatesSlice.SetAllConsistent | src/features/candidatesSlice.js:44-51 | a bulk set gives a consistent table in which each record is stored under its own id |
| CandidatesSlice.KeyedByIdPreserved | src/features/candidatesSlice.js:11-57 | add, remove, and a patch without an `id` key keep every record under its own id |
| CandidatesSlice.PatchCanRenameRecord | src/features/candidatesSlice.js:40 | a patch with a different `id` files a record under a key that is no longer its id |
| CandidatesSlice.RemoveAbsentIsNoOp | src/features/candidatesSlice.js:52-57 | removing an absent id changes nothing |
| CandidatesSlice.AddThenRemove | src/features/candidatesSlice.js:11-57 | adding under a fresh id and removing it restores the table |
| CandidatesSlice.CandidateTable.constructor | src/features/candidatesSlice.js:6-9 | the table starts empty |
| CandidatesSlice.CandidateTable.AddCandidate | src/features/candidatesSlice.js:11-36 | the fields become `Add` of the old table |
| CandidatesSlice.CandidateTable.UpdateCandidate | src/features/candidatesSlice.js:37-43 | the fields become `Update` of the old table |
| CandidatesSlice.CandidateTable.SetCandidates | src/features/candidatesSlice.js:44-51 | the loop folding the records one by one yields `SetAll` of the payload |
| CandidatesSlice.CandidateTable.RemoveCandidate | src/features/candidatesSlice.js:52-57 | the fields become `Remove` of the old table |
| SessionsSlice.Sessions.StartQuestion | src/features/sessionsSlice.js:9-12 | the candidate's entry becomes the given index and time stamp, overwriting any earlier one; every other entry is unchanged |
| SessionsSlice.Sessions.ClearSession | src/features/sessionsSlice.js:13-15 | only the given key is removed |
| SessionsSlice.Initial | src/features/sessionsSlice.js:5-7 | the timer map starts empty |
| SessionsSlice.SessionStore.constructor | src/features/sessionsSlice.js:5-7 | the store starts with the empty timer map |
| SessionsSlice.ClearAbsentIsNoOp | src/features/sessionsSlice.js:13-15 | clearing an absent key changes nothing |
| SessionsSlice.StartThenClear | src/features/sessionsSlice.js:9-15 | start followed by clear leaves no entry for that candidate |
| SessionsSlice.RestartOverwrites | src/features/sessionsSlice.js:9-12 | a second start overwrites the first |
| SessionsSlice.SessionStore.StartQuestion | src/features/sessionsSlice.js:9-12 | the map becomes `StartQuestion` of the old map |
| SessionsSlice.SessionStore.ClearSession | src/features/sessionsSlice.js:13-15 | the map becomes `ClearSession` of the old map |
| UiSlice.Ui.SetActiveTab | src/features/uiSlice.js:10-12 | changes only the active tab |
| UiSlice.Ui.SetSelectedCandidate | src/features/uiSlice.js:13-15 | changes only the selected id |
| UiSlice.Initial | src/features/uiSlice.js:5-8 | the tab "interviewee" and no selection |
| UiSlice.UiStore.constructor | src/features/uiSlice.js:5-8 | the store starts on the "interviewee" tab with nothing selected |
| UiSlice.SettersIdempotent | src/features/uiSlice.js:10-15 | applying either setter twice equals applying it once |
| UiSlice.SettersCommute | src/features/uiSlice.js:10-15 | the two setters commute |
| UiSlice.UiStore.SetActiveTab | src/features/uiSlice.js:10-12 | the state becomes `SetActiveTab` of the old state |
| UiSlice.UiStore.SetSelectedCandidate | src/features/uiSlice.js:13-15 | the state becomes `SetSelectedCandidate` of the old state |
| InterviewChat.OfDifficulty | src/components/InterviewChat.jsx:54-58 | the filter keeps exactly the questions of the difficulty |
| InterviewChat.TakeTwo | src/components/InterviewChat.jsx:54-58 | `slice(0, 2)` is a prefix of at most two |
| InterviewChat.OfDifficultyAppend | src/components/InterviewChat.jsx:53-59 | the difficulty filter distributes over concatenation |
| InterviewChat.OfDifficultyUniform | src/components/InterviewChat.jsx:53-59 | filtering a list of one difficulty keeps all of it for that difficulty and none of it for another |
| InterviewChat.SelectionByDifficulty | src/components/InterviewChat.jsx:53-59 | each difficulty's part of the installed list is the first two questions of that difficulty in input order; other difficulties are dropped |
| InterviewChat.SelectQuestions | src/components/InterviewChat.jsx:53-59 | the first two easy, the first two medium and the first two hard questions, in that order; SelectionByDifficulty and SelectionShape state it |
| InterviewChat.SelectionShape | src/components/InterviewChat.jsx:53-59 | at most six questions, all from the input, easy before medium before hard |
| InterviewChat.FirstTimeLimit | src/components/InterviewChat.jsx:62 | the countdown starts at the first question's limit, or 0 without questions |
| InterviewChat.LoadedCountIsCurrentLimit | src/components/InterviewChat.jsx:53-62 | loading a non-empty selection starts a session satisfying the invariant at index 0, with the count at that question's limit |
| InterviewChat.TickValue | src/components/InterviewChat.jsx:138 | one tick takes t to t − 1 when t > 0 and to 0 otherwise; never negative |
| InterviewChat.TicksClamp | src/components/InterviewChat.jsx:137-139 | after k ticks a count t ≥ 0 is t − k, or 0 once it has run out |
| InterviewChat.TicksMonotone | src/components/InterviewChat.jsx:137-139 | ticking never increases the count and never goes below 0 |
| InterviewChat.ResumeTime | src/components/InterviewChat.jsx:99-100 | the countdown restarts from the saved count when there is one, else from the question's limit |
| InterviewChat.SetUpTime | src/components/InterviewChat.jsx:126-129 | the timer set-up's start value: the saved count when there is one, with or without a current question; else the current question's limit, else 0 |
| InterviewChat.CanSubmit | src/components/InterviewChat.jsx:178-181 | the submit guard: not completed, at least one question, no submission in flight, and a current question exists |
| InterviewChat.GuardUnderInvariant | src/components/InterviewChat.jsx:178-181 | under the session invariant the guard's last test is implied by the others |
| InterviewChat.SubmittedText | src/components/InterviewChat.jsx:192-206 | an empty answer is sent and recorded as "No Answer"; a non-empty one unchanged |
| InterviewChat.ChatTotal | src/components/InterviewChat.jsx:218-222 | the sum is defined exactly when every answer has a score, and then equals the slice's sum |
| InterviewChat.ChatAverage | src/components/InterviewChat.jsx:218-223 | the chat's average is defined exactly when every answer has a score, and then equals the slice's final average |
| InterviewChat.CandidateAnswers | src/components/InterviewChat.jsx:217-221 | the list credited to the candidate: the recorded answers plus the current one with its raw text (not "No Answer"), its score and feedback, and no difficulty |
| InterviewChat.SameScoresSameTotal | src/components/InterviewChat.jsx:218-223 | two answer lists with the same scores have the same total |
| InterviewChat.CompletionPatch | src/components/InterviewChat.jsx:252-264 | the candidate update carries the score, the summary, the answers and status "completed", and no other key |
| InterviewChat.MostRecentOpen | src/components/InterviewChat.jsx:323-330 | the fallback is the record `id` of a listed not-started or in-progress candidate, greatest among the open candidates' record ids; none exactly when no candidate is open |
| InterviewChat.MostRecentOpenUnique | src/components/InterviewChat.jsx:323-330 | an open candidate whose record id is above every open candidate's record id is the one picked |
| InterviewChat.FallbackIsKeyWhenKeyedById | src/components/InterviewChat.jsx:332-336 | while every record is stored under its own id, the fallback's id is a listed key of the table naming an open candidate, so the credit lands on it |
| InterviewChat.CreditTarget | src/components/InterviewChat.jsx:252-336 | the id to credit: the selected id when it is truthy, else the fallback record's `id` from MostRecentOpen |
| InterviewChat.Credit | src/components/InterviewChat.jsx:252-348 | the selected candidate, else the fallback, receives the update; with neither the table is unchanged |
| InterviewChat.CreditChangesOnlyTarget | src/components/InterviewChat.jsx:319-348 | crediting keeps the table consistent and its id list, changes no record but the target, and changes nothing when no candidate is selected or open |
| InterviewChat.Submit | src/components/InterviewChat.jsx:177-197 | `handleSubmit` as a value: a refused guard or a failed evaluation leaves everything as it was, otherwise `Accept` runs; RefusedSubmitHasNoEffect states the first case |
| InterviewChat.Accept | src/components/InterviewChat.jsx:197-244 | records the answer ("No Answer" for an empty one) with its score and feedback and clears the box; at the last question with a summary reply it goes on to `Finish`; AcceptedSubmitRecordsOneAnswer and EarlierSubmitLeavesTable state it |
| InterviewChat.Finish | src/components/InterviewChat.jsx:236-348 | stores the summary, completes the interview with the chat's average, and credits the target with score, summary, answers and status "completed"; LastSubmitCompletes states it |
| InterviewChat.RefusedSubmitHasNoEffect | src/components/InterviewChat.jsx:177-181 | a refused submission, or one whose evaluation fails, changes neither store nor the answer box |
| InterviewChat.AcceptedSubmitRecordsOneAnswer | src/components/InterviewChat.jsx:177-213 | an accepted submission records exactly one answer, with the submitted text and the evaluator's score, keeps index − \|answers\|, and clears the answer box |
| InterviewChat.LastSubmitCompletes | src/components/InterviewChat.jsx:200-264 | answering the last question completes the session with the summary; the chat's score equals the slice's mean of the recorded answers, and the credited candidate gets that score and status "completed" |
| InterviewChat.EarlierSubmitLeavesTable | src/components/InterviewChat.jsx:200-213 | answering an earlier question neither completes the session nor touches the candidate table, and keeps the invariant |
| InterviewChat.Chat.Tick | src/components/InterviewChat.jsx:138 | the interval callback changes only the count, by one clamped tick |
| InterviewChat.Chat.AutoSubmit | src/components/InterviewChat.jsx:155-160 | fires when the count is 0 and the expiry is unmarked, and marks it; afterwards it cannot fire again |
| InterviewChat.Chat.Pause | src/components/InterviewChat.jsx:162-167 | saves the current count, pauses and opens the dialog; count, answer and expiry are kept |
| InterviewChat.Chat.Resume | src/components/InterviewChat.jsx:169-175 | unpauses, closes the dialog, marks the resume and keeps the saved count |
| InterviewChat.Chat.QuestionChanged | src/components/InterviewChat.jsx:93-106 | an unpaused chat with a current question restarts its count from the resume time; otherwise nothing changes |
| InterviewChat.Chat.NextQuestionStart | src/components/InterviewChat.jsx:93-106 | with the saved count discarded, the current question restarts from its own limit |
| InterviewChat.Chat.TimerSetUp | src/components/InterviewChat.jsx:125-135 | a count of 0 or a pending resume restarts from the saved count when there is one (even without a current question), else from the current question's limit, else 0, and clears both flags; otherwise nothing changes |
| InterviewChat.PauseResumeKeepsCount | src/components/InterviewChat.jsx:99-175 | pausing and resuming continues the countdown from where it stopped |
| InterviewChat.SavedCountOutlivesItsQuestion | src/components/InterviewChat.jsx:99-174 | as written, after a pause the next question starts from the saved count rather than its own limit |
| InterviewChat.NextQuestionGetsFullTime | src/components/InterviewChat.jsx:93-106 | with the saved count discarded, the next question gets its full limit |
| InterviewChat.AutoSubmitOncePerExpiry | src/components/InterviewChat.jsx:155-160 | auto-submit fires once per expiry: it stays quiet until the count is restarted |
| InterviewChat.ChatSession.constructor | src/components/InterviewChat.jsx:32-40 | the chat starts with an empty answer, a count of 0 and every flag down |
| InterviewChat.ChatSession.LoadQuestions | src/components/InterviewChat.jsx:43-76 | a session without questions installs the selection of a successful reply and starts the count at the first selected limit; with questions already present, or a failed request, nothing changes |
| InterviewChat.ChatSession.Type | src/components/InterviewChat.jsx:545 | typing sets the answer text |
| InterviewChat.ChatSession.Tick | src/components/InterviewChat.jsx:138 | the state becomes `Tick` of the old state |
| InterviewChat.ChatSession.AutoSubmit | src/components/InterviewChat.jsx:155-160 | reports whether `handleSubmit` is to run, exactly when it fires, and marks the expiry |
| InterviewChat.ChatSession.HandlePause | src/components/InterviewChat.jsx:162-167 | the chat becomes `Pause` of its old state and the store is paused at `now` |
| InterviewChat.ChatSession.HandleResume | src/components/InterviewChat.jsx:169-175 | the chat becomes `Resume` of its old state and the store is resumed at `now` |
| InterviewChat.ChatSession.QuestionChanged | src/components/InterviewChat.jsx:93-106 | the chat becomes `QuestionChanged` of its old state |
| InterviewChat.ChatSession.StartNextQuestion | src/components/InterviewChat.jsx:93-106 | the chat becomes `NextQuestionStart` of its old state |
| InterviewChat.ChatSession.TimerEffect | src/components/InterviewChat.jsx:109-135 | nothing for a completed, paused or empty session; a restored session restarts the current question at its full limit and clears the store's flag; otherwise `TimerSetUp` |
| InterviewChat.ChatSession.HandleSubmit | src/components/InterviewChat.jsx:177-355 | the stores and the answer box end as `Submit` of the old values says |
| InterviewChat.ChatSession.AcceptAnswer | src/components/InterviewChat.jsx:200-264 | records the evaluated answer, clears the box, and after the last question finishes as `Accept` says |
| InterviewChat.FinishInterview | src/components/InterviewChat.jsx:237-264 | stores the summary, completes with the chat's average and credits the candidate, as `Finish` says |
| InterviewChat.CreditCandidate | src/components/InterviewChat.jsx:252-348 | the table becomes `Credit` of the old table |
| IntervieweePage.HasUnfinishedSession | src/pages/Interviewee.jsx:44-49 | questions present, not completed, a non-empty résumé text, a truthy session id, and the index before the end |
| IntervieweePage.IsRecentSession | src/pages/Interviewee.jsx:53-54 | a truthy last-activity time strictly less than 24 hours before now; DayThreshold states the boundary |
| IntervieweePage.CheckGate | src/pages/Interviewee.jsx:42-63 | prompt iff the session is unfinished and recent; reset iff unfinished and stale; nothing iff not unfinished |
| IntervieweePage.DayThreshold | src/pages/Interviewee.jsx:53-54 | idle for exactly 24 h is stale; a millisecond less is recent |
| IntervieweePage.NoActivityIsStale | src/pages/Interviewee.jsx:53-54 | an unfinished session without an activity time is reset |
| IntervieweePage.EmptyResumeNeverPrompts | src/pages/Interviewee.jsx:44-49 | an empty résumé text means no prompt and no reset |
| IntervieweePage.ResetLeavesNoSession | src/pages/Interviewee.jsx:56-61 | after the reset there is nothing left to check |
| IntervieweePage.FreshSessionGate | src/pages/Interviewee.jsx:42-63 | a session started at t with a résumé is offered exactly within the following day |
| IntervieweePage.Page.constructor | src/pages/Interviewee.jsx:29-30 | both flags start down |
| IntervieweePage.Page.MountEffect | src/pages/Interviewee.jsx:35-40 | the check runs on the first mount only, and the checked flag is then set |
| IntervieweePage.Page.CheckForUnfinishedSession | src/pages/Interviewee.jsx:42-63 | shows the prompt with no store change, or resets the store, or does nothing, as `CheckGate` says |
| IntervieweePage.Page.HandleContinueInterview | src/pages/Interviewee.jsx:65-83 | resumes the session and, without a selection, selects the fallback candidate; hides the prompt |
| IntervieweePage.Page.HandleStartNew | src/pages/Interviewee.jsx:85-88 | resets the session and hides the prompt |
| IntervieweePage.ContinueSelection | src/pages/Interviewee.jsx:69-79 | an existing selection is kept; otherwise the fallback when there is one, else the old value |
| IntervieweePage.ContinueAgreesWithCredit | src/pages/Interviewee.jsx:69-79 | continuing selects the candidate the chat would credit |
| WelcomeBackModal.IndexOf | src/components/WelcomeBackModal.jsx:22 | a missing index counts as 0 |
| WelcomeBackModal.TotalQuestions | src/components/WelcomeBackModal.jsx:23 | a missing question list counts as 0 |
| WelcomeBackModal.AnswersCount | src/components/WelcomeBackModal.jsx:24 | a missing answer list counts as 0 |
| WelcomeBackModal.FromSession | src/pages/Interviewee.jsx:90-101 | the dialog's data as the page builds it: the store's résumé text, questions, index, answers and start time |
| WelcomeBackModal.ProgressPercentage | src/components/WelcomeBackModal.jsx:35-38 | 0 without questions, else the rounded percentage of the index over the total; ProgressBounds and ProgressMonotone state its range and order |
| WelcomeBackModal.ProgressBounds | src/components/WelcomeBackModal.jsx:35-38 | within the list the percentage lies in [0, 100], is 0 at the start and 100 at the end |
| WelcomeBackModal.ProgressMonotone | src/components/WelcomeBackModal.jsx:35-38 | the percentage never decreases as the index advances |
| WelcomeBackModal.NoQuestionsNoProgress | src/components/WelcomeBackModal.jsx:36 | without questions the percentage is 0 |
| WelcomeBackModal.ElapsedMinutes | src/components/WelcomeBackModal.jsx:29 | the whole minutes m with m minutes ≤ elapsed < m + 1 minutes |
| WelcomeBackModal.SessionDuration | src/components/WelcomeBackModal.jsx:26-33 | "Unknown" without a start time, else the elapsed whole minutes as text; DurationBands and DurationUnknown state the cases |
| WelcomeBackModal.DurationBands | src/components/WelcomeBackModal.jsx:26-33 | under a minute, exactly one minute, and n ≥ 2 minutes each get their text |
| WelcomeBackModal.DurationUnknown | src/components/WelcomeBackModal.jsx:27 | "Unknown" exactly when there is no (truthy) start time |
| WelcomeBackModal.HandleContinue | src/components/WelcomeBackModal.jsx:13-18 | a non-empty résumé text is stored first; then the page continues, and the page's session-checked flag is untouched |
| InterviewerDashboard.Normalise | src/components/InterviewerDashboard.jsx:18-21 | a database record's id is `_id` when present, else its own id; no other field changes |
| InterviewerDashboard.NormaliseAll | src/components/InterviewerDashboard.jsx:18-21 | every record is normalised, in order |
| InterviewerDashboard.Matches | src/components/InterviewerDashboard.jsx:65-74 | the search test on a record's name and e-mail, both lower-cased; MatchesIff states it |
| InterviewerDashboard.MatchesIff | src/components/InterviewerDashboard.jsx:65-74 | a candidate matches exactly when the lower-cased search occurs in the lower-cased name or e-mail |
| InterviewerDashboard.EmptySearchMatchesAll | src/components/InterviewerDashboard.jsx:65-74 | an empty search matches everyone |
| InterviewerDashboard.FilterMatches | src/components/InterviewerDashboard.jsx:65-74 | the filter keeps exactly the matching candidates |
| InterviewerDashboard.FilterEmptySearch | src/components/InterviewerDashboard.jsx:65-74 | an empty search keeps the whole list |
| InterviewerDashboard.Combined | src/components/InterviewerDashboard.jsx:62-75 | the matching local records in table order, followed by the matching database records |
| InterviewerDashboard.LocalRecords | src/components/InterviewerDashboard.jsx:63 | the local records in `allIds` order |
| InterviewerDashboard.FindEmail | src/components/InterviewerDashboard.jsx:78 | `findIndex` returns the first position with the e-mail, or −1 when there is none |
| InterviewerDashboard.KeepFirsts | src/components/InterviewerDashboard.jsx:77-79 | keeps exactly the first record of each e-mail, and no two kept records share one |
| InterviewerDashboard.Dedup | src/components/InterviewerDashboard.jsx:77-79 | the `findIndex` filter: a record is kept exactly when no earlier record has its e-mail; KeepFirsts, DedupKeepsEachEmailOnce and DedupPrefersFirstList state it |
| InterviewerDashboard.DedupKeepsEachEmailOnce | src/components/InterviewerDashboard.jsx:77-79 | no two results share an e-mail, every input e-mail is present, and every result comes from the input |
| InterviewerDashboard.DedupPrefersFirstList | src/components/InterviewerDashboard.jsx:62-79 | a local record wins over a database record with the same e-mail |
| InterviewerDashboard.InsertPermutes | src/components/InterviewerDashboard.jsx:81 | insertion adds exactly the one record |
| InterviewerDashboard.InsertSorted | src/components/InterviewerDashboard.jsx:81 | insertion into a list sorted by score keeps it sorted |
| InterviewerDashboard.InsertDistinct | src/components/InterviewerDashboard.jsx:81 | inserting a new e-mail keeps the e-mails distinct |
| InterviewerDashboard.SortByScore | src/components/InterviewerDashboard.jsx:81 | the sort by descending score, as an insertion sort; SortByScoreSpec states what it produces |
| InterviewerDashboard.SortByScoreSpec | src/components/InterviewerDashboard.jsx:81 | the sort is a permutation of its input, non-increasing by score, and keeps e-mails distinct |
| InterviewerDashboard.FilteredCandidates | src/components/InterviewerDashboard.jsx:62-81 | the list shown: combine, deduplicate, sort; FilteredCandidatesSpec states its properties |
| InterviewerDashboard.FilteredCandidatesSpec | src/components/InterviewerDashboard.jsx:62-81 | the list shown is a permutation of the deduplicated matches (local before database), sorted by score, with distinct e-mails, all matching the search |
| InterviewerDashboard.FindById | src/components/InterviewerDashboard.jsx:87 | `find` returns the first database record with the id, and none exactly when no record has it |
| InterviewerDashboard.SelectedCandidate | src/components/InterviewerDashboard.jsx:84-88 | nothing without a selection; the local record first, else the database's |
| InterviewerDashboard.SelectionPrefersLocal | src/components/InterviewerDashboard.jsx:84-88 | a selected candidate is shown exactly when the local table or the database has the id |
| ResumeUpload.Classify | src/components/ResumeUpload.jsx:105-118 | read as PDF exactly for the PDF type; accepted exactly for the PDF or DOCX type or a ".docx" name |
| ResumeUpload.SplitLines | src/components/ResumeUpload.jsx:65 | at least one piece, none holding a line break |
| ResumeUpload.SplitThenJoin | src/components/ResumeUpload.jsx:65 | joining the pieces with line breaks gives the text back |
| ResumeUpload.FirstFilledAt | src/components/ResumeUpload.jsx:66-68 | the position of the first line whose trim is not empty: every line before it is blank |
| ResumeUpload.FirstFilledSpec | src/components/ResumeUpload.jsx:66-68 | `map(trim).filter(Boolean)[0] \|\| ""` is the trim of the first line whose trim is not empty, and "" exactly when every line is blank |
| ResumeUpload.BlankJoin | src/components/ResumeUpload.jsx:65-69 | a text is blank exactly when all its lines are |
| ResumeUpload.NameFromDocx | src/components/ResumeUpload.jsx:62-70 | the DOCX name: the first line of the text whose trim is not empty, trimmed, or ""; FirstFilledSpec, DocxNameEmptyIff and DocxNameIsOneTrimmedLine state it |
| ResumeUpload.DocxNameEmptyIff | src/components/ResumeUpload.jsx:62-70 | the DOCX name is empty exactly when the text is all white space |
| ResumeUpload.TrimIsSolid | src/components/ResumeUpload.jsx:158-162 | a non-empty trim has no white space at either end and takes its characters from the input |
| ResumeUpload.DocxNameIsOneTrimmedLine | src/components/ResumeUpload.jsx:62-70 | a non-empty DOCX name holds no line break and no white space at either end |
| ResumeUpload.IsValidEmail | src/components/ResumeUpload.jsx:146-149 | the e-mail pattern as a matcher over split positions; EmailIff states which addresses it accepts |
| ResumeUpload.EmailMatchFollowsRule | src/components/ResumeUpload.jsx:146-149 | a match of the pattern has no white space, exactly one '@' after a non-empty part, and a '.' inside the part after it |
| ResumeUpload.EmailRuleMatches | src/components/ResumeUpload.jsx:146-149 | every address following that rule matches the pattern |
| ResumeUpload.EmailIff | src/components/ResumeUpload.jsx:146-149 | the pattern accepts exactly the addresses that follow the rule |
| ResumeUpload.IsValidPhone | src/components/ResumeUpload.jsx:151-155 | the phone pattern `^\d{6,15}$`; PhoneIff states which strings it accepts |
| ResumeUpload.DigitsThenEndIff | src/components/ResumeUpload.jsx:151-155 | `^\d{lo,hi}$` accepts exactly the all-digit strings of length lo to hi |
| ResumeUpload.PhoneIff | src/components/ResumeUpload.jsx:151-155 | a phone number is valid exactly when it is 6 to 15 decimal digits |
| ResumeUpload.TrimKeepsSolid | src/components/ResumeUpload.jsx:158-162 | a string with no white space at either end is its own trim |
| ResumeUpload.ValidValuesAreTrimmed | src/components/ResumeUpload.jsx:146-162 | valid addresses and phone numbers are their own trim |
| ResumeUpload.TrimIdempotent | src/components/ResumeUpload.jsx:158-162 | trimming twice is trimming once |
| ResumeUpload.CheckModal | src/components/ResumeUpload.jsx:157-178 | the dialog's checks on the trimmed fields; ModalCheckOrder states their order and outcome |
| ResumeUpload.ModalCheckOrder | src/components/ResumeUpload.jsx:157-178 | a blank field is refused first, then a bad address, then a bad phone number; accepted fields are the trimmed ones and pass all three checks |
| ResumeUpload.AcceptedFieldsPassAgain | src/components/ResumeUpload.jsx:157-178 | accepted fields pass the checks again unchanged |
| ResumeUpload.Payload | src/components/ResumeUpload.jsx:180-182 | the added candidate carries the three fields and status "not-started", nothing else |
| ResumeUpload.PayloadId | src/components/ResumeUpload.jsx:183 | `newCandidate.payload.id` as written: the payload has no `id` key, so the value is undefined |
| ResumeUpload.PayloadIdCreditsAnotherCandidate | src/components/ResumeUpload.jsx:183 | as written the selection is undefined, and the finished interview is credited to an earlier open candidate |
| ResumeUpload.SelectingFreshIdCreditsNewCandidate | src/components/ResumeUpload.jsx:131-134 | selecting the drawn id credits the candidate just added, with its name, e-mail and phone |
| ResumeUpload.StartCandidateAsWritten | src/components/ResumeUpload.jsx:180-185 | adds the candidate under the drawn id, sets the selection to `newCandidate.payload.id` (undefined), resets the session and stores the résumé text |
| ResumeUpload.StartCandidate | src/components/ResumeUpload.jsx:131-134 | the corrected start of the first Findings row: adds the candidate under the drawn id, selects that id, resets the session and stores the résumé text |
| ResumeUpload.ModalSessionNeverOffered | src/components/ResumeUpload.jsx:185 | a session begun from the dialog has an empty résumé text and is never offered for continuation |
| ResumeUpload.FileOutcome | src/components/ResumeUpload.jsx:92-144 | a candidate is considered exactly for an accepted type whose parsing succeeded; it is added exactly when name, e-mail and phone are all non-empty, and otherwise the dialog asks |
| ResumeUpload.BlankDocxAsksForName | src/components/ResumeUpload.jsx:114-129 | a DOCX whose text is all white space always opens the dialog |
| ResumeUpload.ResumeUploadForm.constructor | src/components/ResumeUpload.jsx:18-20 | the form starts with empty fields and the dialog hidden |
| ResumeUpload.ResumeUploadForm.HandleFile | src/components/ResumeUpload.jsx:92-144 | a missing field opens the dialog with the found values and adds nothing; otherwise exactly one candidate is added and started, and the selection is set to `newCandidate.payload.id`, which is undefined; all other endings change nothing |
| ResumeUpload.ResumeUploadForm.EditName | src/components/ResumeUpload.jsx:254-259 | typing changes only the name field |
| ResumeUpload.ResumeUploadForm.EditEmail | src/components/ResumeUpload.jsx:254-259 | typing changes only the e-mail field |
| ResumeUpload.ResumeUploadForm.EditPhone | src/components/ResumeUpload.jsx:254-259 | typing changes only the phone field |
| ResumeUpload.ResumeUploadForm.Cancel | src/components/ResumeUpload.jsx:269 | cancel hides the dialog |
| ResumeUpload.ResumeUploadForm.HandleModalSubmit | src/components/ResumeUpload.jsx:157-189 | a refused check changes nothing; accepted fields are added and start a session whose résumé text is "", the selection is set to `newCandidate.payload.id`, which is undefined, and the dialog closes |

## Left out

- The `fetch` calls to the backend are network I/O. This covers question generation, answer evaluation, the final summary, and the candidate GET, POST and PUT (`src/components/InterviewChat.jsx:266-317`). The evaluator's score and feedback and the summary text are parameters.
- React effect scheduling, `setInterval` and dependency arrays are not modelled. The tick, auto-submit, resume and timer set-up are separate step functions, and nothing orders them.
- The restoration effect (`src/components/InterviewChat.jsx:79-90`) is not modelled. When the chat mounts with persisted questions (`src/components/Interviewee.jsx:114`), it is skipped while `loading` is true. It runs on its own one render later, after the effect at `src/components/InterviewChat.jsx:74` calls `setLoading(false)`. The resume effect (lines 93-106) does not run in that render, because none of its dependencies changed. Nothing is lost: `pausedTimeLeft` is null at mount, so the count and expiry flag the restoration effect sets equal those the mount's resume effect set and those the timer effect sets in that render (lines 125-131, taken because `isResuming` is true).
- The restoration effect also runs whenever the questions or the index change after loading. When the session is not paused, the resume effect runs in the same render and is declared after it, so its count is the one that stays. A change of questions or index while paused would let the restoration effect reset the count to the question's full time, and the model does not capture that case.
- The chat's `loading` flag is not modelled. It only gates the restoration effect, which is left out, and the markup.
- The awaits inside `handleSubmit` are not interleaved. The in-flight flag is only the guard, raised and lowered within one call.
- InterviewChat.ChatSession.HandleSubmit: requires every recorded answer to carry a score. A missing score makes the source's average NaN, and `ChatTotal` and `ChatAverage` return `None` for that case.
- The `setAiSummary(summary)` call at `src/components/InterviewChat.jsx:241` is not a local setter. It calls the slice's action creator, imported at line 5, without `dispatch`. The action object it builds is discarded and no state changes, so it has no member.
- The PDF and DOCX parsers and the largest-font name heuristic (`src/components/ResumeUpload.jsx:38-59,73-90`) are foreign libraries. The extracted text and the PDF name are parameters.
- The regex search of `extractFields` (`src/components/ResumeUpload.jsx:23-35`) is left out. The e-mail and phone it finds are parameters, and its name result is unused.
- The `alert`, `console.error` and `navigate` calls of the handlers are left out. A refused dialog check and a parser failure change no state in the model.
- Persistence is I/O and is treated as a no-op. This covers `localStorage.setItem` in `src/features/candidatesSlice.js:35` and the persisted store.
- `Date.now()` and `uuidv4()` are parameters. A fresh id must not already be in the table.
- `checkUnfinishedSession` (`src/features/interviewSlice.js:140-143`) changes nothing and has no member.
- Routing, `src/App.jsx`, `src/main.jsx`, `src/pages/Interviewer.jsx` and all markup are not part of this model.
- Floating point is not modelled. `Math.round(index / total * 100)` and `/ 1000 / 60` are computed exactly on integers, which can differ from the floating-point result at exact halves.
- Unicode `toLowerCase` becomes ASCII lower-casing, and `localeCompare` on ids becomes plain lexicographic order.
- InterviewerDashboard.SortByScore: the sort is proved to be a permutation and non-increasing by score. That records with equal scores keep their order (JavaScript's sort is stable) is not proved.
- A database record with neither `_id` nor `id` gets the id "" instead of `undefined`.
- The initial `{}` objects of the upload form read as three empty fields.
- A question's `time || 0` is taken as the question's `time`. The two differ only for a falsy non-number, which the integer model cannot hold.

### Behaviour of the code that a reader might not expect

- Installing an empty question list is accepted; nothing reports an error.
- `submitAnswer` has no guard against a completed session; only the chat's guard stops it.
- `restoreSession` accepts a snapshot whose index and answers disagree, and reports nothing.
- The fallback candidate is the open one with the greatest id, not the most recently created one. Random ids carry no order of creation.
- After a pause, a later question starts from the saved count, not at its full limit (second row of Findings).
- `resetInterview` leaves `aiSummary` and `timeLeft` as they were.
- `completeInterview` can set the final score a second time, with the score the chat supplies.

## Findings

| source | as written | input that shows it | evidently intended | confidence | as-written member | corrected member |
|---|---|---|---|---|---|---|
| src/components/ResumeUpload.jsx:183 | both `handleModalSubmit` and `handleFile` (line 134) select the new candidate as `newCandidate.payload.id`, but the `addCandidate` payload has no `id` (it is drawn inside the reducer), so the selection is `undefined` | an open candidate with id "z" exists and the new candidate gets id "a": the finished interview is credited to "z" | select the id the new candidate is stored under | high, not executed | ResumeUpload.PayloadIdCreditsAnotherCandidate | ResumeUpload.SelectingFreshIdCreditsNewCandidate |
| src/components/InterviewChat.jsx:99-174 | the count saved by a pause (line 163) is never cleared, so when the index moves on the resume effect restarts the next question from that saved count | pause with 12 s left on question 1, resume, submit; question 2 has a limit of 60 s and starts at 12 s | a new question starts at its own full limit | medium, not executed | InterviewChat.SavedCountOutlivesItsQuestion | InterviewChat.NextQuestionGetsFullTime |
