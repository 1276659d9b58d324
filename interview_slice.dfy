/**
 * The interview session slice (src/features/interviewSlice.js).
 *
 * `Interview` is the slice's state as a value and each of its member
 * functions is one reducer, given the old state and the action's payload
 * (the clock `Date.now()` is the parameter `now`). `InterviewStore` is the
 * same state as an object whose methods update its fields in place, the
 * way the reducers mutate their Immer draft; each method is tied to its
 * reducer function.
 */
module InterviewSlice {
  import opened Common

  /** A generated question: its text, its difficulty label and its time limit in seconds. */
  datatype Question = Question(q: string, difficulty: string, time: int)

  /**
   * A recorded answer. `score` is absent when the evaluator returned none;
   * `difficulty` is absent in the final answer the chat writes to the
   * candidate record.
   */
  datatype Answer = Answer(
    question: string,
    answer: string,
    difficulty: Option<string>,
    score: Option<int>,
    feedback: string)

  /** The payload of `setProgress`: every field it copies into the state. */
  datatype Progress = Progress(
    currentQuestionIndex: int,
    answers: seq<Answer>,
    completed: bool,
    finalScore: int,
    paused: bool,
    timeLeft: int,
    summary: Option<string>)

  /** A persisted session handed to `restoreSession`; `None` is a missing field. */
  datatype Snapshot = Snapshot(
    questions: Option<seq<Question>>,
    currentQuestionIndex: Option<int>,
    answers: Option<seq<Answer>>,
    completed: Option<bool>,
    finalScore: Option<int>,
    summary: Option<string>,
    resumeText: Option<string>,
    sessionId: Option<string>,
    sessionStartTime: Option<int>,
    lastActivityTime: Option<int>,
    paused: Option<bool>,
    pausedTimeLeft: Option<int>)

  /** `x || null` for a number: zero is falsy and becomes null. */
  function NonZero(x: Option<int>): (r: Option<int>)
    ensures r.Some? <==> x.Some? && x.value != 0
    ensures r.Some? ==> r == x
  {
    if x.Some? && x.value != 0 then x else None
  }

  /** `s || null` for a string: the empty string is falsy and becomes null. */
  function NonEmpty(x: Option<string>): (r: Option<string>)
    ensures r.Some? <==> Truthy(x)
    ensures r.Some? ==> r == x
  {
    if Truthy(x) then x else None
  }

  /** The score an answer contributes to the total: `a.score || 0`. */
  function ScoreOf(a: Answer): int {
    a.score.GetOr(0)
  }

  /** `answers.reduce((sum, a) => sum + (a.score || 0), 0)`, folded from the left. */
  function TotalScore(answers: seq<Answer>): int {
    if answers == [] then 0
    else TotalScore(answers[..|answers| - 1]) + ScoreOf(answers[|answers| - 1])
  }

  lemma TotalScoreAppend(answers: seq<Answer>, a: Answer)
    ensures TotalScore(answers + [a]) == TotalScore(answers) + ScoreOf(a)
  {
    assert (answers + [a])[..|answers|] == answers;
  }

  /** When every score lies in [lo, hi], the total lies in [lo * n, hi * n]. */
  lemma {:induction false} TotalScoreBounds(answers: seq<Answer>, lo: int, hi: int)
    requires forall i :: 0 <= i < |answers| ==> lo <= ScoreOf(answers[i]) <= hi
    ensures lo * |answers| <= TotalScore(answers) <= hi * |answers|
  {
    if answers != [] {
      var init := answers[..|answers| - 1];
      TotalScoreBounds(init, lo, hi);
      assert lo * |answers| == lo * |init| + lo;
      assert hi * |answers| == hi * |init| + hi;
    }
  }

  /** The final score: the rounded mean of the scores, or 0 when there are no answers. */
  function FinalAverage(answers: seq<Answer>): int {
    if |answers| > 0 then RoundDiv(TotalScore(answers), |answers|) else 0
  }

  /** The final score lies in the range of the answers' scores, and is 0 without answers. */
  lemma FinalAverageBounds(answers: seq<Answer>, lo: int, hi: int)
    requires forall i :: 0 <= i < |answers| ==> lo <= ScoreOf(answers[i]) <= hi
    ensures answers == [] ==> FinalAverage(answers) == 0
    ensures answers != [] ==> lo <= FinalAverage(answers) <= hi
  {
    if answers != [] {
      TotalScoreBounds(answers, lo, hi);
      RoundDivBounds(TotalScore(answers), |answers|, lo, hi);
    }
  }

  /** The summary line written on completion. */
  function AnsweredSummary(n: nat): string {
    "You answered " + DecimalString(n) + " questions."
  }

  /** The difference the session keeps between the question index and the number of answers. */
  function Offset(s: Interview): int {
    s.currentQuestionIndex - |s.answers|
  }

  /** The question index equals the number of recorded answers. */
  predicate Aligned(s: Interview) {
    s.currentQuestionIndex == |s.answers|
  }

  /**
   * The session invariant that guarded submissions keep: one answer per
   * passed question, the index within the question list, and completion
   * exactly when every question of a non-empty list has been answered.
   */
  predicate SessionInvariant(s: Interview) {
    && Aligned(s)
    && 0 <= s.currentQuestionIndex <= |s.questions|
    && (s.completed <==> |s.questions| > 0 && s.currentQuestionIndex == |s.questions|)
  }

  datatype Interview = Interview(
    questions: seq<Question>,
    currentQuestionIndex: int,
    answers: seq<Answer>,
    completed: bool,
    paused: bool,
    finalScore: int,
    timeLeft: int,
    aiSummary: string,
    pausedTimeLeft: Option<int>,
    resumeText: string,
    sessionId: Option<string>,
    sessionStartTime: Option<int>,
    lastActivityTime: Option<int>,
    resumingFromSession: bool,
    summary: Option<string>)
  {
    /** `setQuestions`: installs the questions and starts a fresh session at `now`. */
    function SetQuestions(qs: seq<Question>, now: nat): (r: Interview)
      ensures r.questions == qs && r.answers == [] && Aligned(r) && !r.completed && r.finalScore == 0
      ensures Truthy(r.sessionId) && r.sessionStartTime == Some(now) && r.lastActivityTime == Some(now)
      ensures r.resumeText == resumeText && r.paused == paused && r.pausedTimeLeft == pausedTimeLeft
    {
      this.(questions := qs, currentQuestionIndex := 0, completed := false, answers := [],
            finalScore := 0, sessionId := Some(DecimalString(now)),
            sessionStartTime := Some(now), lastActivityTime := Some(now))
    }

    /** `setAiSummary`. */
    function SetAiSummary(text: string): Interview {
      this.(aiSummary := text)
    }

    /** `setResumeText`. */
    function SetResumeText(text: string): Interview {
      this.(resumeText := text)
    }

    /**
     * `submitAnswer`: appends the answer, advances the index by one and,
     * once the index reaches the end of the question list, completes the
     * session with the rounded mean score.
     */
    function SubmitAnswer(a: Answer, now: nat): (r: Interview)
      ensures r.answers == answers + [a] && r.questions == questions
      ensures r.currentQuestionIndex == currentQuestionIndex + 1 && Offset(r) == Offset(this)
      ensures r.lastActivityTime == Some(now)
      ensures r.completed <==> completed || r.currentQuestionIndex >= |questions|
      ensures r.currentQuestionIndex >= |questions| ==>
                r.finalScore == FinalAverage(r.answers) && r.summary == Some(AnsweredSummary(|r.answers|))
      ensures r.currentQuestionIndex < |questions| ==>
                r.finalScore == finalScore && r.summary == summary
      ensures r.resumeText == resumeText && r.sessionId == sessionId && r.paused == paused
    {
      var next := this.(answers := answers + [a], currentQuestionIndex := currentQuestionIndex + 1,
                        lastActivityTime := Some(now));
      if next.currentQuestionIndex >= |questions| then
        next.(completed := true, finalScore := FinalAverage(next.answers),
              summary := Some(AnsweredSummary(|next.answers|)))
      else
        next
    }

    /**
     * `completeInterview`: always completes; a numeric `finalScore` in the
     * payload is used as given, otherwise the mean of the recorded answers.
     */
    function CompleteInterview(supplied: Option<int>): (r: Interview)
      ensures r.completed
      ensures r.finalScore == if supplied.Some? then supplied.value else FinalAverage(answers)
      ensures r.summary == Some(AnsweredSummary(|answers|))
      ensures r.answers == answers && r.currentQuestionIndex == currentQuestionIndex && r.questions == questions
    {
      this.(completed := true,
            finalScore := if supplied.Some? then supplied.value else FinalAverage(answers),
            summary := Some(AnsweredSummary(|answers|)))
    }

    /** `resetInterview`: clears the session; `aiSummary` and `timeLeft` are not touched. */
    function ResetInterview(): (r: Interview)
      ensures r.aiSummary == aiSummary && r.timeLeft == timeLeft
      ensures r.questions == [] && Aligned(r) && r.currentQuestionIndex == 0
    {
      Interview([], 0, [], false, false, 0, timeLeft, aiSummary, None, "", None, None, None, false, Some(""))
    }

    /** `pauseInterview`. */
    function PauseInterview(now: nat): Interview {
      this.(paused := true, lastActivityTime := Some(now))
    }

    /** `resumeInterview`. */
    function ResumeInterview(now: nat): Interview {
      this.(paused := false, lastActivityTime := Some(now))
    }

    /** `resumeFromSession`: like `resumeInterview`, and raises the resuming flag. */
    function ResumeFromSession(now: nat): Interview {
      this.(paused := false, lastActivityTime := Some(now), resumingFromSession := true)
    }

    /** `nextQuestion`: advances only while a further question exists, otherwise completes. */
    function NextQuestion(): Interview {
      if currentQuestionIndex + 1 < |questions| then this.(currentQuestionIndex := currentQuestionIndex + 1)
      else this.(completed := true)
    }

    /** `setPausedTimeLeft`. */
    function SetPausedTimeLeft(t: Option<int>): Interview {
      this.(pausedTimeLeft := t)
    }

    /** `setTimeLeft`. */
    function SetTimeLeft(t: int): Interview {
      this.(timeLeft := t)
    }

    /** `setProgress`: copies the payload's progress fields and stamps the activity time. */
    function SetProgress(p: Progress, now: nat): Interview {
      this.(currentQuestionIndex := p.currentQuestionIndex, answers := p.answers,
            completed := p.completed, finalScore := p.finalScore, paused := p.paused,
            timeLeft := p.timeLeft, summary := p.summary, lastActivityTime := Some(now))
    }

    /**
     * `restoreSession`: a null payload changes nothing; otherwise every
     * field is taken from the snapshot, with JavaScript's `||` defaults for
     * missing or falsy values, and the resuming flag is cleared.
     */
    function RestoreSession(payload: Option<Snapshot>): (r: Interview)
      ensures payload.None? ==> r == this
      ensures payload.Some? ==> var d := payload.value;
                && (d.questions.None? ==> r.questions == [])
                && (d.questions.Some? ==> r.questions == d.questions.value)
                && (d.currentQuestionIndex.None? ==> r.currentQuestionIndex == 0)
                && (d.currentQuestionIndex.Some? ==> r.currentQuestionIndex == d.currentQuestionIndex.value)
                && (d.answers.None? ==> r.answers == [])
                && (d.answers.Some? ==> r.answers == d.answers.value)
                && (d.completed.None? ==> !r.completed)
                && (d.completed.Some? ==> r.completed == d.completed.value)
                && (d.finalScore.None? ==> r.finalScore == 0)
                && (d.finalScore.Some? ==> r.finalScore == d.finalScore.value)
                && (d.summary.None? ==> r.summary == Some(""))
                && (d.summary.Some? ==> r.summary == d.summary)
                && (d.resumeText.None? ==> r.resumeText == "")
                && (d.resumeText.Some? ==> r.resumeText == d.resumeText.value)
      ensures payload.Some? ==> var d := payload.value;
                && (Truthy(d.sessionId) ==> r.sessionId == d.sessionId)
                && (!Truthy(d.sessionId) ==> r.sessionId.None?)
                && (d.sessionStartTime.Some? && d.sessionStartTime.value != 0 ==> r.sessionStartTime == d.sessionStartTime)
                && (d.sessionStartTime.None? || d.sessionStartTime.value == 0 ==> r.sessionStartTime.None?)
                && (d.lastActivityTime.Some? && d.lastActivityTime.value != 0 ==> r.lastActivityTime == d.lastActivityTime)
                && (d.lastActivityTime.None? || d.lastActivityTime.value == 0 ==> r.lastActivityTime.None?)
                && (d.paused.None? ==> !r.paused)
                && (d.paused.Some? ==> r.paused == d.paused.value)
                && (d.pausedTimeLeft.Some? && d.pausedTimeLeft.value != 0 ==> r.pausedTimeLeft == d.pausedTimeLeft)
                && (d.pausedTimeLeft.None? || d.pausedTimeLeft.value == 0 ==> r.pausedTimeLeft.None?)
                && !r.resumingFromSession
                && r.aiSummary == aiSummary && r.timeLeft == timeLeft
    {
      match payload
      case None => this
      case Some(d) =>
        this.(questions := d.questions.GetOr([]),
              currentQuestionIndex := d.currentQuestionIndex.GetOr(0),
              answers := d.answers.GetOr([]),
              completed := d.completed.GetOr(false),
              finalScore := d.finalScore.GetOr(0),
              summary := Some(d.summary.GetOr("")),
              resumeText := d.resumeText.GetOr(""),
              sessionId := NonEmpty(d.sessionId),
              sessionStartTime := NonZero(d.sessionStartTime),
              lastActivityTime := NonZero(d.lastActivityTime),
              paused := d.paused.GetOr(false),
              pausedTimeLeft := NonZero(d.pausedTimeLeft),
              resumingFromSession := false)
    }

    /** `clearResumingFlag`. */
    function ClearResumingFlag(): Interview {
      this.(resumingFromSession := false)
    }
  }

  /** The slice's initial state. */
  function Initial(): Interview {
    Interview([], 0, [], false, false, 0, 0, "", None, "", None, None, None, false, None)
  }

  // -----------------------------------------------------------------------
  // Properties of the reducers

  /** A reset returns every field it touches to its initial value; `summary` becomes "". */
  lemma ResetIsInitial(s: Interview)
    ensures s.ResetInterview() == Initial().(aiSummary := s.aiSummary, timeLeft := s.timeLeft, summary := Some(""))
    ensures SessionInvariant(s.ResetInterview())
  {
  }

  /** Resetting twice is the same as resetting once. */
  lemma ResetIdempotent(s: Interview)
    ensures s.ResetInterview().ResetInterview() == s.ResetInterview()
  {
  }

  /** Installing questions starts a session that satisfies the invariant at index 0. */
  lemma SetQuestionsEstablishesInvariant(s: Interview, qs: seq<Question>, now: nat)
    ensures SessionInvariant(s.SetQuestions(qs, now))
    ensures Offset(s.SetQuestions(qs, now)) == 0
  {
  }

  /**
   * A submission that the chat lets through (session not completed, a
   * question at the current index) keeps the invariant: completion is
   * reached exactly when the last question is answered.
   */
  lemma SubmitAnswerPreservesInvariant(s: Interview, a: Answer, now: nat)
    requires SessionInvariant(s)
    requires !s.completed && s.currentQuestionIndex < |s.questions|
    ensures SessionInvariant(s.SubmitAnswer(a, now))
    ensures s.SubmitAnswer(a, now).completed <==> |s.answers| + 1 == |s.questions|
  {
  }

  /** On completion by `submitAnswer`, dispatching `completeInterview` without a score changes nothing. */
  lemma CompletionRecomputesSameScore(s: Interview, a: Answer, now: nat)
    requires s.currentQuestionIndex + 1 >= |s.questions|
    ensures s.SubmitAnswer(a, now).CompleteInterview(None) == s.SubmitAnswer(a, now)
  {
  }

  /** Supplying the derived mean to `completeInterview` gives the same state as supplying nothing. */
  lemma SuppliedScoreMatchesDerived(s: Interview)
    ensures s.CompleteInterview(Some(FinalAverage(s.answers))) == s.CompleteInterview(None)
  {
  }

  /** The pause, resume and timer reducers leave the session's progress alone. */
  lemma TimerReducersPreserveInvariant(s: Interview, now: nat, t: int, p: Option<int>)
    requires SessionInvariant(s)
    ensures SessionInvariant(s.PauseInterview(now)) && SessionInvariant(s.ResumeInterview(now))
    ensures SessionInvariant(s.ResumeFromSession(now)) && SessionInvariant(s.ClearResumingFlag())
    ensures SessionInvariant(s.SetTimeLeft(t)) && SessionInvariant(s.SetPausedTimeLeft(p))
  {
  }

  /** `nextQuestion` never moves the index past the last question. */
  lemma NextQuestionStaysInRange(s: Interview)
    requires 0 <= s.currentQuestionIndex < |s.questions|
    ensures 0 <= s.NextQuestion().currentQuestionIndex < |s.questions|
    ensures s.NextQuestion().completed <==> s.completed || s.currentQuestionIndex == |s.questions| - 1
    ensures s.NextQuestion().answers == s.answers
  {
  }

  function SampleQuestion(): Question {
    Question("Explain closures.", "easy", 60)
  }

  /** `nextQuestion` moves the index without recording an answer, so it breaks the alignment. */
  lemma NextQuestionBreaksAlignment()
    ensures var s := Initial().SetQuestions([SampleQuestion(), SampleQuestion()], 1);
            SessionInvariant(s) && !Aligned(s.NextQuestion())
  {
  }

  /** `setProgress` installs whatever index and answers it is given. */
  lemma SetProgressBreaksAlignment()
    ensures var s := Initial().SetQuestions([SampleQuestion()], 1);
            SessionInvariant(s) && !Aligned(s.SetProgress(Progress(1, [], false, 0, false, 0, None), 2))
  {
  }

  /** `restoreSession` accepts a snapshot whose index and answers disagree; it does not reject it. */
  lemma RestoreAcceptsMisalignedSnapshot()
    ensures var snap := Snapshot(Some([SampleQuestion(), SampleQuestion()]), Some(1), Some([]),
                                 None, None, None, None, None, None, None, None, None);
            !Aligned(Initial().RestoreSession(Some(snap)))
  {
  }

  /** Restoring a null payload changes nothing. */
  lemma RestoreNullIsNoOp(s: Interview)
    ensures s.RestoreSession(None) == s
  {
  }

  /**
   * Restoring a snapshot with no fields gives the initial session values,
   * keeps `aiSummary` and `timeLeft`, and clears the resuming flag; a saved
   * `pausedTimeLeft` of 0 comes back as null.
   */
  lemma RestoreDefaults(s: Interview, snap: Snapshot)
    ensures var empty := Snapshot(None, None, None, None, None, None, None, None, None, None, None, None);
            s.RestoreSession(Some(empty)) ==
              Initial().(aiSummary := s.aiSummary, timeLeft := s.timeLeft, summary := Some(""))
    ensures snap.pausedTimeLeft == Some(0) ==> s.RestoreSession(Some(snap)).pausedTimeLeft == None
    ensures !s.RestoreSession(Some(snap)).resumingFromSession
  {
  }

  /**
   * A worked example: two questions, answers scored 7 and
   * 5; the session completes after the second with final score 6.
   */
  lemma TwoQuestionScenario(now: nat)
    ensures var s0 := Initial().SetQuestions([Question("Q1", "easy", 30), Question("Q2", "medium", 45)], now);
            var s1 := s0.SubmitAnswer(Answer("Q1", "ans1", Some("easy"), Some(7), ""), now);
            var s2 := s1.SubmitAnswer(Answer("Q2", "No Answer", Some("medium"), Some(5), ""), now);
            && s1.currentQuestionIndex == 1 && !s1.completed
            && s2.currentQuestionIndex == 2 && s2.completed && s2.finalScore == 6
  {
    var a1 := Answer("Q1", "ans1", Some("easy"), Some(7), "");
    var a2 := Answer("Q2", "No Answer", Some("medium"), Some(5), "");
    TotalScoreAppend([], a1);
    TotalScoreAppend([a1], a2);
    assert [a1] + [a2] == [a1, a2];
    assert TotalScore([a1, a2]) == 12;
  }

  /**
   * The slice's state as an object; each method performs one reducer on
   * the fields in place. The reducers that rewrite many fields do so
   * through the `Assign...` steps and `RecordAnswer`, each of which
   * overwrites one group of fields and nothing else. These steps only
   * group the field writes of the reducers below; no statement of the
   * source corresponds to them on its own.
   */
  class InterviewStore {
    var questions: seq<Question>
    var currentQuestionIndex: int
    var answers: seq<Answer>
    var completed: bool
    var paused: bool
    var finalScore: int
    var timeLeft: int
    var aiSummary: string
    var pausedTimeLeft: Option<int>
    var resumeText: string
    var sessionId: Option<string>
    var sessionStartTime: Option<int>
    var lastActivityTime: Option<int>
    var resumingFromSession: bool
    var summary: Option<string>

    /** The current state as a value. */
    function Data(): Interview
      reads this
    {
      Interview(questions, currentQuestionIndex, answers, completed, paused, finalScore, timeLeft,
                aiSummary, pausedTimeLeft, resumeText, sessionId, sessionStartTime, lastActivityTime,
                resumingFromSession, summary)
    }

    constructor ()
      ensures Data() == Initial()
    {
      questions, currentQuestionIndex, answers := [], 0, [];
      completed, paused, finalScore, timeLeft := false, false, 0, 0;
      aiSummary, pausedTimeLeft, resumeText := "", None, "";
      sessionId, sessionStartTime, lastActivityTime := None, None, None;
      resumingFromSession, summary := false, None;
    }

    /** Overwrites the question list and the progress through it. */
    method AssignProgress(qs: seq<Question>, index: int, recorded: seq<Answer>, done: bool, score: int)
      modifies this`questions, this`currentQuestionIndex, this`answers, this`completed, this`finalScore
      ensures questions == qs && currentQuestionIndex == index && answers == recorded
      ensures completed == done && finalScore == score
    {
      questions := qs;
      currentQuestionIndex := index;
      completed := done;
      answers := recorded;
      finalScore := score;
    }

    /** Overwrites the session identifier and its two timestamps. */
    method AssignSessionStamps(id: Option<string>, started: Option<int>, lastActive: Option<int>)
      modifies this`sessionId, this`sessionStartTime, this`lastActivityTime
      ensures sessionId == id && sessionStartTime == started && lastActivityTime == lastActive
    {
      sessionId := id;
      sessionStartTime := started;
      lastActivityTime := lastActive;
    }

    /** Overwrites the pause flag, the saved time and the resuming flag. */
    method AssignPauseState(isPaused: bool, saved: Option<int>, resuming: bool)
      modifies this`paused, this`pausedTimeLeft, this`resumingFromSession
      ensures paused == isPaused && pausedTimeLeft == saved && resumingFromSession == resuming
    {
      paused := isPaused;
      pausedTimeLeft := saved;
      resumingFromSession := resuming;
    }

    /** Marks the interview completed with the given score and summary. */
    method AssignOutcome(score: int, text: Option<string>)
      modifies this`completed, this`finalScore, this`summary
      ensures completed && finalScore == score && summary == text
    {
      completed := true;
      finalScore := score;
      summary := text;
    }

    /** Overwrites the completion summary and the résumé text. */
    method AssignTexts(text: Option<string>, resume: string)
      modifies this`summary, this`resumeText
      ensures summary == text && resumeText == resume
    {
      summary := text;
      resumeText := resume;
    }

    /** Overwrites everything that belongs to the session but not to the question list. */
    method AssignSession(text: Option<string>, resume: string, id: Option<string>, started: Option<int>,
                         lastActive: Option<int>, isPaused: bool, saved: Option<int>)
      modifies this`summary, this`resumeText, this`sessionId, this`sessionStartTime, this`lastActivityTime,
               this`paused, this`pausedTimeLeft, this`resumingFromSession
      ensures summary == text && resumeText == resume
      ensures sessionId == id && sessionStartTime == started && lastActivityTime == lastActive
      ensures paused == isPaused && pausedTimeLeft == saved && !resumingFromSession
    {
      AssignTexts(text, resume);
      AssignSessionStamps(id, started, lastActive);
      AssignPauseState(isPaused, saved, false);
    }

    /** Appends an answer, advances the question index and stamps the activity time. */
    method RecordAnswer(a: Answer, now: nat)
      modifies this`answers, this`currentQuestionIndex, this`lastActivityTime
      ensures answers == old(answers) + [a] && currentQuestionIndex == old(currentQuestionIndex) + 1
      ensures lastActivityTime == Some(now)
    {
      answers := answers + [a];
      currentQuestionIndex := currentQuestionIndex + 1;
      lastActivityTime := Some(now);
    }

    method SetQuestions(qs: seq<Question>, now: nat)
      modifies this
      ensures Data() == old(Data()).SetQuestions(qs, now)
    {
      AssignProgress(qs, 0, [], false, 0);
      AssignSessionStamps(Some(DecimalString(now)), Some(now), Some(now));
    }

    method SetAiSummary(text: string)
      modifies this
      ensures Data() == old(Data()).SetAiSummary(text)
    {
      aiSummary := text;
    }

    method SetResumeText(text: string)
      modifies this
      ensures Data() == old(Data()).SetResumeText(text)
    {
      resumeText := text;
    }

    method SubmitAnswer(a: Answer, now: nat)
      modifies this
      ensures Data() == old(Data()).SubmitAnswer(a, now)
    {
      RecordAnswer(a, now);
      if currentQuestionIndex >= |questions| {
        AssignOutcome(FinalAverage(answers), Some(AnsweredSummary(|answers|)));
      }
    }

    method CompleteInterview(supplied: Option<int>)
      modifies this
      ensures Data() == old(Data()).CompleteInterview(supplied)
    {
      var score := if supplied.Some? then supplied.value else FinalAverage(answers);
      AssignOutcome(score, Some(AnsweredSummary(|answers|)));
    }

    method ResetInterview()
      modifies this
      ensures Data() == old(Data()).ResetInterview()
    {
      AssignProgress([], 0, [], false, 0);
      AssignSession(Some(""), "", None, None, None, false, None);
    }

    method PauseInterview(now: nat)
      modifies this
      ensures Data() == old(Data()).PauseInterview(now)
    {
      paused := true;
      lastActivityTime := Some(now);
    }

    method ResumeInterview(now: nat)
      modifies this
      ensures Data() == old(Data()).ResumeInterview(now)
    {
      paused := false;
      lastActivityTime := Some(now);
    }

    method ResumeFromSession(now: nat)
      modifies this
      ensures Data() == old(Data()).ResumeFromSession(now)
    {
      paused := false;
      lastActivityTime := Some(now);
      resumingFromSession := true;
    }

    method NextQuestion()
      modifies this
      ensures Data() == old(Data()).NextQuestion()
    {
      if currentQuestionIndex + 1 < |questions| {
        currentQuestionIndex := currentQuestionIndex + 1;
      } else {
        completed := true;
      }
    }

    method SetPausedTimeLeft(t: Option<int>)
      modifies this
      ensures Data() == old(Data()).SetPausedTimeLeft(t)
    {
      pausedTimeLeft := t;
    }

    method SetTimeLeft(t: int)
      modifies this
      ensures Data() == old(Data()).SetTimeLeft(t)
    {
      timeLeft := t;
    }

    method SetProgress(p: Progress, now: nat)
      modifies this
      ensures Data() == old(Data()).SetProgress(p, now)
    {
      AssignProgress(questions, p.currentQuestionIndex, p.answers, p.completed, p.finalScore);
      paused := p.paused;
      timeLeft := p.timeLeft;
      summary := p.summary;
      lastActivityTime := Some(now);
    }

    method RestoreSession(payload: Option<Snapshot>)
      modifies this
      ensures Data() == old(Data()).RestoreSession(payload)
    {
      if payload.Some? {
        var d := payload.value;
        AssignProgress(d.questions.GetOr([]), d.currentQuestionIndex.GetOr(0), d.answers.GetOr([]),
                       d.completed.GetOr(false), d.finalScore.GetOr(0));
        AssignSession(Some(d.summary.GetOr("")), d.resumeText.GetOr(""), NonEmpty(d.sessionId),
                      NonZero(d.sessionStartTime), NonZero(d.lastActivityTime),
                      d.paused.GetOr(false), NonZero(d.pausedTimeLeft));
      }
    }

    method ClearResumingFlag()
      modifies this
      ensures Data() == old(Data()).ClearResumingFlag()
    {
      resumingFromSession := false;
    }
  }
}
