/**
 * The "welcome back" prompt (src/components/WelcomeBackModal.jsx): the
 * session summary it shows (elapsed time in whole minutes, progress as a
 * rounded percentage) and its continue button.
 */
module WelcomeBackModal {
  import opened Common
  import opened InterviewSlice
  import CandidatesSlice
  import UiSlice
  import InterviewChat
  import IntervieweePage

  /** The `candidateData` prop; `None` is a field that is undefined. */
  datatype CandidateData = CandidateData(
    resumeText: string,
    questions: Option<seq<Question>>,
    currentQuestionIndex: Option<int>,
    answers: Option<seq<Answer>>,
    sessionStartTime: Option<int>)

  /** `candidateData.currentQuestionIndex || 0`. */
  function IndexOf(d: CandidateData): (n: int)
    ensures d.currentQuestionIndex.None? ==> n == 0
    ensures d.currentQuestionIndex.Some? ==> n == d.currentQuestionIndex.value
  {
    d.currentQuestionIndex.GetOr(0)
  }

  /** `candidateData.questions?.length || 0`. */
  function TotalQuestions(d: CandidateData): (n: nat)
    ensures d.questions.None? ==> n == 0
    ensures d.questions.Some? ==> n == |d.questions.value|
  {
    if d.questions.Some? then |d.questions.value| else 0
  }

  /** `candidateData.answers?.length || 0`. */
  function AnswersCount(d: CandidateData): (n: nat)
    ensures d.answers.None? ==> n == 0
    ensures d.answers.Some? ==> n == |d.answers.value|
  {
    if d.answers.Some? then |d.answers.value| else 0
  }

  /** The prop as the page builds it from the interview store. */
  function FromSession(s: Interview): CandidateData {
    CandidateData(s.resumeText, Some(s.questions), Some(s.currentQuestionIndex), Some(s.answers), s.sessionStartTime)
  }

  // -----------------------------------------------------------------------
  // Progress

  /** `getProgressPercentage`: 0 without questions, else `Math.round(index / total * 100)`. */
  function ProgressPercentage(index: int, total: nat): int {
    if total == 0 then 0 else RoundDiv(100 * index, total)
  }

  /** Within the question list, progress is a percentage: between 0 and 100, 0 at the start and 100 at the end. */
  lemma ProgressBounds(index: int, total: nat)
    requires 0 <= index <= total
    ensures 0 <= ProgressPercentage(index, total) <= 100
    ensures index == 0 ==> ProgressPercentage(index, total) == 0
    ensures total > 0 && index == total ==> ProgressPercentage(index, total) == 100
  {
    if total > 0 {
      MulMonotone(100, index, total);
      assert 100 * total == total * 100;
      RoundDivBounds(100 * index, total, 0, 100);
      if index == 0 {
        RoundDivExact(0, total);
      }
      if index == total {
        RoundDivExact(100, total);
        assert 100 * index == 100 * total;
      }
    }
  }

  /** Progress never decreases as the index advances. */
  lemma ProgressMonotone(i: int, j: int, total: nat)
    requires total > 0 && i <= j
    ensures ProgressPercentage(i, total) <= ProgressPercentage(j, total)
  {
    var a, b := RoundDiv(100 * i, total), RoundDiv(100 * j, total);
    MulMonotone(100, i, j);
    assert 2 * total * (b + 1) == 2 * total * b + 2 * total;
    MulStrictCancel(2 * total, a, b + 1);
  }

  /** A prop without a question list shows 0%. */
  lemma NoQuestionsNoProgress(d: CandidateData)
    requires d.questions.None? || d.questions == Some([])
    ensures ProgressPercentage(IndexOf(d), TotalQuestions(d)) == 0
  {
  }

  // -----------------------------------------------------------------------
  // Elapsed time

  const MinuteMillis := 60 * 1000

  /** `Math.floor((now - start) / 1000 / 60)`: whole minutes, rounded down (also for a negative span). */
  function ElapsedMinutes(start: int, now: int): (m: int)
    ensures m * MinuteMillis <= now - start < (m + 1) * MinuteMillis
  {
    (now - start) / MinuteMillis
  }

  /** `getSessionDuration`. */
  function SessionDuration(start: Option<int>, now: int): string {
    if start.None? || start.value == 0 then "Unknown"
    else
      var m := ElapsedMinutes(start.value, now);
      if m < 1 then "Less than 1 minute"
      else if m == 1 then "1 minute"
      else DecimalString(m) + " minutes"
  }

  /** The duration text for each band of elapsed time. */
  lemma DurationBands(start: int, now: int)
    requires start != 0
    ensures SessionDuration(Some(start), now) == "Less than 1 minute" <==> now - start < MinuteMillis
    ensures SessionDuration(Some(start), now) == "1 minute" <==>
              MinuteMillis <= now - start < 2 * MinuteMillis
    ensures 2 * MinuteMillis <= now - start ==>
              exists n: nat :: n >= 2 && SessionDuration(Some(start), now) == DecimalString(n) + " minutes"
                               && n * MinuteMillis <= now - start < (n + 1) * MinuteMillis
  {
    var m := ElapsedMinutes(start, now);
    var d := SessionDuration(Some(start), now);
    if m >= 2 {
      assert d == DecimalString(m) + " minutes";
      assert d[|d| - 1] == 's';
    }
  }

  /** Without a (truthy) start time the duration is unknown. */
  lemma DurationUnknown(start: Option<int>, now: int)
    ensures SessionDuration(start, now) == "Unknown" <==> start.None? || start.value == 0
  {
    if start.Some? && start.value != 0 {
      var m := ElapsedMinutes(start.value, now);
      var d := SessionDuration(start, now);
      if m >= 2 {
        assert d == DecimalString(m) + " minutes";
        assert |d| > |"Unknown"|;
      }
    }
  }

  // -----------------------------------------------------------------------
  // The continue button

  /** `handleContinue`: a non-empty résumé text is put back into the store, then the page continues. */
  method HandleContinue(d: CandidateData, page: IntervieweePage.Page, store: InterviewStore,
                        table: CandidatesSlice.CandidateTable, ui: UiSlice.UiStore, now: nat)
    requires InterviewChat.Listed(table.Data())
    modifies page`showWelcomeBack, store, ui
    ensures var restored := if d.resumeText != "" then old(store.Data()).SetResumeText(d.resumeText) else old(store.Data());
            store.Data() == restored.ResumeFromSession(now)
    ensures ui.Data() == old(ui.Data()).SetSelectedCandidate(
                           IntervieweePage.ContinueSelection(old(ui.selectedCandidateId), table.Data()))
    ensures !page.showWelcomeBack
  {
    if d.resumeText != "" {
      store.SetResumeText(d.resumeText);
    }
    page.HandleContinueInterview(store, table, ui, now);
  }
}
