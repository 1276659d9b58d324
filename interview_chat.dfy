/**
 * The decision logic of the interview chat (src/components/InterviewChat.jsx).
 *
 * The pure parts are functions: the choice of at most two questions per
 * difficulty, the clamped timer tick, the submit guard, the "No Answer"
 * substitution, the chat's own final average, and the choice of the
 * candidate a finished interview is credited to. The component's local
 * state (`answer`, `timeLeft`, `submitting`, `timeExpired`, `paused`,
 * `pausedTimeLeft`, `modalOpen`, `isResuming`) is the class `ChatSession`,
 * whose handlers update it in place and dispatch to the stores. The answers
 * of the evaluation and summary services are parameters; `None` stands for
 * a request that failed.
 */
module InterviewChat {
  import opened Common
  import opened InterviewSlice
  import CandidatesSlice
  import UiSlice

  // -----------------------------------------------------------------------
  // Question selection

  /** `qs.filter((q) => q.difficulty === d)`. */
  function OfDifficulty(qs: seq<Question>, d: string): (r: seq<Question>)
    ensures |r| <= |qs|
    ensures forall q :: q in r <==> q in qs && q.difficulty == d
  {
    if qs == [] then []
    else (if qs[0].difficulty == d then [qs[0]] else []) + OfDifficulty(qs[1..], d)
  }

  /** `s.slice(0, 2)`. */
  function TakeTwo(s: seq<Question>): (r: seq<Question>)
    ensures |r| <= 2 && IsPrefixOf(r, s)
    ensures |s| <= 2 ==> r == s
  {
    if |s| <= 2 then s else s[..2]
  }

  predicate IsPrefixOf(r: seq<Question>, s: seq<Question>) {
    |r| <= |s| && s[..|r|] == r
  }

  /** The question list the chat installs: two easy, then two medium, then two hard ones. */
  function SelectQuestions(qs: seq<Question>): seq<Question> {
    TakeTwo(OfDifficulty(qs, "easy")) + TakeTwo(OfDifficulty(qs, "medium")) + TakeTwo(OfDifficulty(qs, "hard"))
  }

  /** The position of a difficulty in the installed list. */
  function Rank(q: Question): int {
    if q.difficulty == "easy" then 0 else if q.difficulty == "medium" then 1 else 2
  }

  lemma {:induction false} OfDifficultyAppend(a: seq<Question>, b: seq<Question>, d: string)
    ensures OfDifficulty(a + b, d) == OfDifficulty(a, d) + OfDifficulty(b, d)
  {
    if a == [] {
      assert a + b == b;
    } else {
      assert (a + b)[0] == a[0] && (a + b)[1..] == a[1..] + b;
      OfDifficultyAppend(a[1..], b, d);
    }
  }

  /** Filtering a list of one difficulty by that difficulty keeps all of it, by another keeps none. */
  lemma {:induction false} OfDifficultyUniform(s: seq<Question>, d: string, e: string)
    requires forall q :: q in s ==> q.difficulty == d
    ensures OfDifficulty(s, d) == s
    ensures e != d ==> OfDifficulty(s, e) == []
  {
    if s != [] {
      assert s[0] in s;
      OfDifficultyUniform(s[1..], d, e);
      assert [s[0]] + s[1..] == s;
    }
  }

  lemma TakeTwoUniform(s: seq<Question>, d: string)
    requires forall q :: q in s ==> q.difficulty == d
    ensures forall q :: q in TakeTwo(s) ==> q.difficulty == d && q in s
  {
    var r := TakeTwo(s);
    forall q | q in r
      ensures q.difficulty == d && q in s
    {
      var i :| 0 <= i < |r| && r[i] == q;
      assert s[i] == q;
    }
  }

  /**
   * Each difficulty's part of the installed list is the first two
   * questions of that difficulty in input order; other difficulties are dropped.
   */
  lemma SelectionByDifficulty(qs: seq<Question>, d: string)
    ensures d == "easy" ==> OfDifficulty(SelectQuestions(qs), d) == TakeTwo(OfDifficulty(qs, d))
    ensures d == "medium" ==> OfDifficulty(SelectQuestions(qs), d) == TakeTwo(OfDifficulty(qs, d))
    ensures d == "hard" ==> OfDifficulty(SelectQuestions(qs), d) == TakeTwo(OfDifficulty(qs, d))
    ensures d != "easy" && d != "medium" && d != "hard" ==> OfDifficulty(SelectQuestions(qs), d) == []
  {
    var e, m, h := TakeTwo(OfDifficulty(qs, "easy")), TakeTwo(OfDifficulty(qs, "medium")), TakeTwo(OfDifficulty(qs, "hard"));
    TakeTwoUniform(OfDifficulty(qs, "easy"), "easy");
    TakeTwoUniform(OfDifficulty(qs, "medium"), "medium");
    TakeTwoUniform(OfDifficulty(qs, "hard"), "hard");
    OfDifficultyAppend(e + m, h, d);
    OfDifficultyAppend(e, m, d);
    OfDifficultyUniform(e, "easy", d);
    OfDifficultyUniform(m, "medium", d);
    OfDifficultyUniform(h, "hard", d);
    if d == "easy" {
      assert e + [] + [] == e;
    } else if d == "medium" {
      assert [] + m + [] == m;
    } else if d == "hard" {
      assert [] + [] + h == h;
    }
  }

  /** At most six questions, all from the input, ordered easy before medium before hard. */
  lemma SelectionShape(qs: seq<Question>)
    ensures |SelectQuestions(qs)| <= 6
    ensures forall q :: q in SelectQuestions(qs) ==>
              q in qs && (q.difficulty == "easy" || q.difficulty == "medium" || q.difficulty == "hard")
    ensures forall i, j :: 0 <= i < j < |SelectQuestions(qs)| ==>
              Rank(SelectQuestions(qs)[i]) <= Rank(SelectQuestions(qs)[j])
  {
    var e, m, h := TakeTwo(OfDifficulty(qs, "easy")), TakeTwo(OfDifficulty(qs, "medium")), TakeTwo(OfDifficulty(qs, "hard"));
    TakeTwoUniform(OfDifficulty(qs, "easy"), "easy");
    TakeTwoUniform(OfDifficulty(qs, "medium"), "medium");
    TakeTwoUniform(OfDifficulty(qs, "hard"), "hard");
    var r := SelectQuestions(qs);
    assert r == e + m + h;
    forall i | 0 <= i < |r|
      ensures Rank(r[i]) == if i < |e| then 0 else if i < |e| + |m| then 1 else 2
    {
      if i < |e| {
        assert r[i] == e[i] && e[i] in e;
      } else if i < |e| + |m| {
        assert r[i] == m[i - |e|] && m[i - |e|] in m;
      } else {
        assert r[i] == h[i - |e| - |m|] && h[i - |e| - |m|] in h;
      }
    }
  }

  /** The timer starts at the first installed question's limit, or 0 without questions. */
  function FirstTimeLimit(qs: seq<Question>): (t: int)
    ensures |qs| > 0 ==> t == qs[0].time
    ensures |qs| == 0 ==> t == 0
  {
    if |qs| > 0 then qs[0].time else 0
  }

  /**
   * Loading a non-empty selection starts a session that satisfies the
   * invariant, and the count it starts with is the limit of the question
   * the session is on.
   */
  lemma LoadedCountIsCurrentLimit(generated: seq<Question>, s: Interview, now: nat)
    requires |SelectQuestions(generated)| > 0
    ensures var selected := SelectQuestions(generated);
            var loaded := s.SetQuestions(selected, now);
            SessionInvariant(loaded) && loaded.currentQuestionIndex == 0
            && FirstTimeLimit(selected) == loaded.questions[loaded.currentQuestionIndex].time
  {
    SetQuestionsEstablishesInvariant(s, SelectQuestions(generated), now);
  }

  // -----------------------------------------------------------------------
  // The timer

  /** One second of the countdown: `t > 0 ? t - 1 : 0`. */
  function TickValue(t: int): (r: int)
    ensures 0 <= r
    ensures t > 0 ==> r == t - 1 && r < t
    ensures t <= 0 ==> r == 0
  {
    if t > 0 then t - 1 else 0
  }

  /** The value after `k` ticks. */
  function Ticks(t: int, k: nat): int {
    if k == 0 then t else TickValue(Ticks(t, k - 1))
  }

  /** After `k` ticks a non-negative count has dropped by `k` or reached 0, and stays there. */
  lemma {:induction false} TicksClamp(t: int, k: nat)
    requires t >= 0
    ensures Ticks(t, k) == if t >= k then t - k else 0
  {
    if k > 0 {
      TicksClamp(t, k - 1);
    }
  }

  /** Ticking never increases the count and never goes below zero. */
  lemma {:induction false} TicksMonotone(t: int, k: nat)
    ensures k > 0 ==> 0 <= Ticks(t, k) <= (if t > 0 then t else 0)
  {
    if k > 1 {
      TicksMonotone(t, k - 1);
    }
  }

  /** The auto-submit effect fires when the count is 0 and has not fired for this expiry. */
  predicate AutoSubmitFires(timeLeft: int, timeExpired: bool) {
    timeLeft == 0 && !timeExpired
  }

  /**
   * The time a question's countdown resumes from: the time saved by the
   * last pause when there is one, else the question's full limit.
   */
  function ResumeTime(pausedTimeLeft: Option<int>, q: Question): (t: int)
    ensures pausedTimeLeft.Some? ==> t == pausedTimeLeft.value
    ensures pausedTimeLeft.None? ==> t == q.time
  {
    if pausedTimeLeft.Some? then pausedTimeLeft.value else q.time
  }

  /**
   * `pausedTimeLeft !== null ? pausedTimeLeft : questions[currentQuestionIndex]?.time || 0`:
   * the conditional binds looser than `||`, so a saved count is used even
   * when there is no current question.
   */
  function SetUpTime(pausedTimeLeft: Option<int>, s: Interview): int {
    if pausedTimeLeft.Some? then pausedTimeLeft.value
    else if 0 <= s.currentQuestionIndex < |s.questions| then s.questions[s.currentQuestionIndex].time
    else 0
  }

  // -----------------------------------------------------------------------
  // Submitting an answer

  /** The guard of `handleSubmit`: open session, questions loaded, no submission in flight, a current question. */
  predicate CanSubmit(s: Interview, submitting: bool) {
    !s.completed && |s.questions| > 0 && !submitting && 0 <= s.currentQuestionIndex < |s.questions|
  }

  /**
   * Under the session invariant the last test of the guard is implied by
   * the others: an open session with questions always has a current question.
   */
  lemma GuardUnderInvariant(s: Interview, submitting: bool)
    requires SessionInvariant(s)
    ensures CanSubmit(s, submitting) <==> !s.completed && |s.questions| > 0 && !submitting
  {
  }

  /** `answer || "No Answer"`: the text sent to the evaluator and recorded. */
  function SubmittedText(answer: string): (r: string)
    ensures r != []
    ensures answer != [] ==> r == answer
    ensures answer == [] ==> r == "No Answer"
  {
    if answer == [] then "No Answer" else answer
  }

  /** The evaluator's verdict on one answer. */
  datatype Evaluation = Evaluation(score: int, feedback: string)

  predicate AllScored(answers: seq<Answer>) {
    forall i :: 0 <= i < |answers| ==> answers[i].score.Some?
  }

  /** `answers.reduce((sum, a) => sum + a.score, 0)`; `None` is the NaN a missing score produces. */
  function ChatTotal(answers: seq<Answer>): (r: Option<int>)
    ensures r.Some? <==> AllScored(answers)
    ensures r.Some? ==> r.value == TotalScore(answers)
  {
    if answers == [] then Some(0)
    else
      var init := ChatTotal(answers[..|answers| - 1]);
      var last := answers[|answers| - 1];
      assert forall i :: 0 <= i < |answers| - 1 ==> answers[..|answers| - 1][i] == answers[i];
      if init.Some? && last.score.Some? then Some(init.value + last.score.value) else None
  }

  /** `Math.round(totalScore / allAnswers.length)`, the chat's own final average. */
  function ChatAverage(all: seq<Answer>): (r: Option<int>)
    requires |all| > 0
    ensures r.Some? <==> AllScored(all)
    ensures r.Some? ==> r.value == FinalAverage(all)
  {
    var total := ChatTotal(all);
    if total.Some? then Some(RoundDiv(total.value, |all|)) else None
  }

  /** The answer list the chat writes to the candidate: the raw text, and no difficulty. */
  function CandidateAnswers(prior: seq<Answer>, q: Question, answer: string, e: Evaluation): seq<Answer> {
    prior + [Answer(q.q, answer, None, Some(e.score), e.feedback)]
  }

  /** The recorded answer agrees with the candidate's copy on every score. */
  lemma {:induction false} SameScoresSameTotal(a: seq<Answer>, b: seq<Answer>)
    requires |a| == |b| && forall i :: 0 <= i < |a| ==> a[i].score == b[i].score
    ensures TotalScore(a) == TotalScore(b)
  {
    if a != [] {
      SameScoresSameTotal(a[..|a| - 1], b[..|b| - 1]);
    }
  }

  /** The updates written to the credited candidate. */
  function CompletionPatch(avg: int, summary: string, all: seq<Answer>): (p: CandidatesSlice.Patch)
    ensures p.score == Some(avg) && p.summary == Some(summary) && p.answers == Some(all)
    ensures p.status == Some("completed") && p.id.None? && p.name.None? && p.email.None? && p.phone.None?
  {
    CandidatesSlice.EmptyPatch().(score := Some(avg), summary := Some(summary), answers := Some(all),
                                  status := Some("completed"))
  }

  // -----------------------------------------------------------------------
  // The fallback candidate

  predicate IsOpen(c: CandidatesSlice.Candidate) {
    c.status == "not-started" || c.status == "in-progress"
  }

  /** Every listed id has a record, so `allIds.map((id) => byId[id])` yields records only. */
  predicate Listed(t: CandidatesSlice.Table) {
    forall i :: 0 <= i < |t.allIds| ==> t.allIds[i] in t.byId
  }

  /**
   * The `id` of `allIds.map(...).filter(open).sort(by id, descending)[0]`:
   * the greatest record id, in lexicographic order, among the listed
   * candidates that are not-started or in-progress; `None` when there is
   * none. The ranking and the result use each record's own `id` field,
   * not the key it is stored under.
   */
  function MostRecentOpen(ids: seq<string>, byId: map<string, CandidatesSlice.Candidate>): (r: Option<string>)
    requires forall i :: 0 <= i < |ids| ==> ids[i] in byId
    ensures r.None? <==> forall i :: 0 <= i < |ids| ==> !IsOpen(byId[ids[i]])
    ensures r.Some? ==> exists i :: 0 <= i < |ids| && IsOpen(byId[ids[i]]) && byId[ids[i]].id == r.value
    ensures r.Some? ==> forall i :: 0 <= i < |ids| && IsOpen(byId[ids[i]]) ==> LexLe(byId[ids[i]].id, r.value)
  {
    if ids == [] then None
    else
      var rest := MostRecentOpen(ids[1..], byId);
      var head := byId[ids[0]];
      assert forall i :: 1 <= i < |ids| ==> ids[i] == ids[1..][i - 1];
      if !IsOpen(head) then rest
      else if rest.None? then
        LexLeReflexive(head.id);
        Some(head.id)
      else if LexLe(rest.value, head.id) then
        LexLeReflexive(head.id);
        assert forall i :: 1 <= i < |ids| && IsOpen(byId[ids[i]]) ==> LexLe(byId[ids[1..][i - 1]].id, rest.value);
        LexLeAbove(ids, byId, rest.value, head.id);
        Some(head.id)
      else
        LexLeTotal(rest.value, head.id);
        rest
  }

  lemma {:induction false} LexLeReflexive(a: string)
    ensures LexLe(a, a)
  {
    if a != [] {
      LexLeReflexive(a[1..]);
    }
  }

  /** Every record id below `m` is below any `n` above `m`. */
  lemma LexLeAbove(ids: seq<string>, byId: map<string, CandidatesSlice.Candidate>, m: string, n: string)
    requires forall i :: 0 <= i < |ids| ==> ids[i] in byId
    requires forall i :: 1 <= i < |ids| && IsOpen(byId[ids[i]]) ==> LexLe(byId[ids[i]].id, m)
    requires LexLe(m, n)
    ensures forall i :: 1 <= i < |ids| && IsOpen(byId[ids[i]]) ==> LexLe(byId[ids[i]].id, n)
  {
    forall i | 1 <= i < |ids| && IsOpen(byId[ids[i]])
      ensures LexLe(byId[ids[i]].id, n)
    {
      LexLeTransitive(byId[ids[i]].id, m, n);
    }
  }

  /**
   * The candidate picked by the fallback is unique: an open candidate whose
   * id is above every other open candidate's id is the one picked.
   */
  lemma MostRecentOpenUnique(t: CandidatesSlice.Table, k: int)
    requires Listed(t)
    requires 0 <= k < |t.allIds| && IsOpen(t.byId[t.allIds[k]])
    requires forall i :: 0 <= i < |t.allIds| && IsOpen(t.byId[t.allIds[i]]) ==>
               LexLe(t.byId[t.allIds[i]].id, t.byId[t.allIds[k]].id)
    ensures MostRecentOpen(t.allIds, t.byId) == Some(t.byId[t.allIds[k]].id)
  {
    var r := MostRecentOpen(t.allIds, t.byId);
    assert r.Some?;
    var j :| 0 <= j < |t.allIds| && IsOpen(t.byId[t.allIds[j]]) && t.byId[t.allIds[j]].id == r.value;
    LexLeAntisymmetric(t.byId[t.allIds[k]].id, r.value);
  }

  /**
   * While every record is stored under its own id, the fallback's id is a
   * key of the table and names an open candidate, so crediting it lands.
   */
  lemma FallbackIsKeyWhenKeyedById(t: CandidatesSlice.Table)
    requires Listed(t) && CandidatesSlice.KeyedById(t.byId)
    ensures var r := MostRecentOpen(t.allIds, t.byId);
            r.Some? ==> r.value in t.allIds && r.value in t.byId && IsOpen(t.byId[r.value])
  {
    var r := MostRecentOpen(t.allIds, t.byId);
    if r.Some? {
      var j :| 0 <= j < |t.allIds| && IsOpen(t.byId[t.allIds[j]]) && t.byId[t.allIds[j]].id == r.value;
      assert t.byId[t.allIds[j]].id == t.allIds[j];
    }
  }

  /**
   * The candidate the finished interview is credited to: the selected one
   * when the selection is truthy, else the fallback.
   */
  function CreditTarget(selected: Option<string>, t: CandidatesSlice.Table): Option<string>
    requires Listed(t)
  {
    if Truthy(selected) then selected else MostRecentOpen(t.allIds, t.byId)
  }

  /** `updateCandidate` on the credit target, or no change when there is none. */
  function Credit(t: CandidatesSlice.Table, selected: Option<string>, p: CandidatesSlice.Patch): (r: CandidatesSlice.Table)
    requires Listed(t)
    ensures CreditTarget(selected, t).None? ==> r == t
    ensures CreditTarget(selected, t).Some? ==> r == t.Update(CreditTarget(selected, t).value, p)
  {
    match CreditTarget(selected, t)
    case None => t
    case Some(id) => t.Update(id, p)
  }

  /** Crediting keeps the table consistent and changes at most the one record it credits. */
  lemma CreditChangesOnlyTarget(t: CandidatesSlice.Table, selected: Option<string>, p: CandidatesSlice.Patch)
    requires Listed(t) && t.Valid()
    ensures Credit(t, selected, p).Valid()
    ensures Credit(t, selected, p).allIds == t.allIds
    ensures forall k :: k in t.byId && Some(k) != CreditTarget(selected, t) ==>
              Credit(t, selected, p).byId[k] == t.byId[k]
    ensures !Truthy(selected) && (forall i :: 0 <= i < |t.allIds| ==> !IsOpen(t.byId[t.allIds[i]])) ==>
              Credit(t, selected, p) == t
  {
    var target := CreditTarget(selected, t);
    if target.Some? {
      CandidatesSlice.UpdatePreservesConsistent(t, target.value, p);
    }
  }

  // -----------------------------------------------------------------------
  // The effect of one submission on the stores

  /** What a submission leaves behind: the session, the candidate table, and the answer box. */
  datatype Outcome = Outcome(session: Interview, table: CandidatesSlice.Table, answer: string)

  /**
   * `handleSubmit` on values. `eval` is the evaluator's reply and `summary`
   * the summary service's (`None`: the request failed and the rest of the
   * handler was skipped).
   */
  function Submit(s: Interview, t: CandidatesSlice.Table, selected: Option<string>, answer: string,
                  submitting: bool, eval: Option<Evaluation>, summary: Option<string>, now: nat): Outcome
    requires AllScored(s.answers) && Listed(t)
  {
    if !CanSubmit(s, submitting) || eval.None? then Outcome(s, t, answer)
    else Accept(s, t, selected, answer, eval.value, summary, now)
  }

  /** The part of `handleSubmit` after a successful evaluation. */
  function Accept(s: Interview, t: CandidatesSlice.Table, selected: Option<string>, answer: string,
                  e: Evaluation, summary: Option<string>, now: nat): Outcome
    requires AllScored(s.answers) && Listed(t) && 0 <= s.currentQuestionIndex < |s.questions|
  {
    var q := s.questions[s.currentQuestionIndex];
    var recorded := s.SubmitAnswer(Answer(q.q, SubmittedText(answer), Some(q.difficulty), Some(e.score), e.feedback), now);
    if s.currentQuestionIndex != |s.questions| - 1 || summary.None? then Outcome(recorded, t, "")
    else
      var all := CandidateAnswers(s.answers, q, answer, e);
      var f := Finish(recorded, t, selected, all, summary.value);
      Outcome(f.session, f.table, "")
  }

  /** Stores the summary, completes with the chat's average and credits the candidate. */
  function Finish(s: Interview, t: CandidatesSlice.Table, selected: Option<string>, all: seq<Answer>,
                  summary: string): Outcome
    requires AllScored(all) && |all| > 0 && Listed(t)
  {
    var avg := ChatAverage(all).value;
    Outcome(s.SetAiSummary(summary).CompleteInterview(Some(avg)),
            Credit(t, selected, CompletionPatch(avg, summary, all)), "")
  }

  /** A submission the guard refuses, or whose evaluation fails, changes nothing. */
  lemma RefusedSubmitHasNoEffect(s: Interview, t: CandidatesSlice.Table, selected: Option<string>, answer: string,
                                 submitting: bool, summary: Option<string>, now: nat, eval: Option<Evaluation>)
    requires AllScored(s.answers) && Listed(t)
    requires !CanSubmit(s, submitting) || eval.None?
    ensures Submit(s, t, selected, answer, submitting, eval, summary, now) == Outcome(s, t, answer)
  {
  }

  /**
   * An accepted submission records exactly one answer, substituting
   * "No Answer" for an empty one, keeps the index-answers offset, and
   * clears the answer box.
   */
  lemma AcceptedSubmitRecordsOneAnswer(s: Interview, t: CandidatesSlice.Table, selected: Option<string>, answer: string,
                                       submitting: bool, e: Evaluation, summary: Option<string>, now: nat)
    requires AllScored(s.answers) && Listed(t) && CanSubmit(s, submitting)
    ensures var o := Submit(s, t, selected, answer, submitting, Some(e), summary, now);
            && |o.session.answers| == |s.answers| + 1 && o.session.answers[..|s.answers|] == s.answers
            && o.session.answers[|s.answers|].answer == SubmittedText(answer)
            && o.session.answers[|s.answers|].score == Some(e.score)
            && Offset(o.session) == Offset(s) && o.answer == ""
            && AllScored(o.session.answers)
  {
    var o := Submit(s, t, selected, answer, submitting, Some(e), summary, now);
    assert o.session.answers == s.answers + [o.session.answers[|s.answers|]];
  }

  /**
   * Answering the last question with the summary service up completes the
   * session; the score the chat supplies equals the slice's own mean of the
   * recorded answers, and the credited candidate gets that score and
   * status "completed".
   */
  lemma LastSubmitCompletes(s: Interview, t: CandidatesSlice.Table, selected: Option<string>, answer: string,
                            submitting: bool, e: Evaluation, text: string, now: nat)
    requires AllScored(s.answers) && Listed(t) && CanSubmit(s, submitting)
    requires s.currentQuestionIndex == |s.questions| - 1
    ensures var o := Submit(s, t, selected, answer, submitting, Some(e), Some(text), now);
            && o.session.completed && o.session.aiSummary == text
            && o.session.finalScore == FinalAverage(o.session.answers)
            && (CreditTarget(selected, t).Some? && CreditTarget(selected, t).value in t.byId ==>
                  var c := o.table.byId[CreditTarget(selected, t).value];
                  c.status == "completed" && c.score == o.session.finalScore)
  {
    var q := s.questions[s.currentQuestionIndex];
    var all := CandidateAnswers(s.answers, q, answer, e);
    var o := Submit(s, t, selected, answer, submitting, Some(e), Some(text), now);
    var recorded := s.answers + [Answer(q.q, SubmittedText(answer), Some(q.difficulty), Some(e.score), e.feedback)];
    assert o.session.answers == recorded;
    assert forall i :: 0 <= i < |all| ==> all[i].score == recorded[i].score by {
      forall i | 0 <= i < |all| ensures all[i].score == recorded[i].score {
        if i < |s.answers| {
          assert all[i] == s.answers[i] == recorded[i];
        }
      }
    }
    SameScoresSameTotal(all, recorded);
  }

  /** Answering an earlier question neither completes the session nor touches the candidate table. */
  lemma EarlierSubmitLeavesTable(s: Interview, t: CandidatesSlice.Table, selected: Option<string>, answer: string,
                                 submitting: bool, eval: Option<Evaluation>, summary: Option<string>, now: nat)
    requires AllScored(s.answers) && Listed(t) && CanSubmit(s, submitting)
    requires SessionInvariant(s) && s.currentQuestionIndex < |s.questions| - 1
    ensures var o := Submit(s, t, selected, answer, submitting, eval, summary, now);
            o.table == t && !o.session.completed && SessionInvariant(o.session)
  {
  }

  // -----------------------------------------------------------------------
  // The component's local state

  datatype Chat = Chat(
    answer: string,
    timeLeft: int,
    submitting: bool,
    timeExpired: bool,
    paused: bool,
    pausedTimeLeft: Option<int>,
    modalOpen: bool,
    isResuming: bool)
  {
    /** The interval callback. */
    function Tick(): (r: Chat)
      ensures r.timeLeft == TickValue(timeLeft) && r.(timeLeft := timeLeft) == this
    {
      this.(timeLeft := TickValue(timeLeft))
    }

    /** The auto-submit effect: marks the expiry when it fires; `handleSubmit` is then called. */
    function AutoSubmit(): (r: Chat)
      ensures AutoSubmitFires(timeLeft, timeExpired) ==> r == this.(timeExpired := true)
      ensures !AutoSubmitFires(timeLeft, timeExpired) ==> r == this
      ensures !AutoSubmitFires(r.timeLeft, r.timeExpired)
    {
      if AutoSubmitFires(timeLeft, timeExpired) then this.(timeExpired := true) else this
    }

    /** `handlePauseInterview`: saves the count, pauses and opens the modal. */
    function Pause(): (r: Chat)
      ensures r.pausedTimeLeft == Some(timeLeft) && r.paused && r.modalOpen
      ensures r.timeLeft == timeLeft && r.answer == answer && r.timeExpired == timeExpired
    {
      this.(pausedTimeLeft := Some(timeLeft), paused := true, modalOpen := true)
    }

    /** `handleResumeInterview`: unpauses and closes the modal; the saved count is kept. */
    function Resume(): (r: Chat)
      ensures !r.paused && !r.modalOpen && r.isResuming && r.pausedTimeLeft == pausedTimeLeft
    {
      this.(paused := false, modalOpen := false, isResuming := true)
    }

    /**
     * The resume effect (question or pause state changed): an unpaused chat
     * with a current question restarts its count from `ResumeTime`.
     */
    function QuestionChanged(s: Interview): (r: Chat)
      ensures !paused && 0 <= s.currentQuestionIndex < |s.questions| ==>
                r.timeLeft == ResumeTime(pausedTimeLeft, s.questions[s.currentQuestionIndex])
                && !r.timeExpired && r.isResuming
      ensures paused || !(0 <= s.currentQuestionIndex < |s.questions|) ==> r == this
    {
      if !paused && 0 <= s.currentQuestionIndex < |s.questions| then
        this.(timeLeft := ResumeTime(pausedTimeLeft, s.questions[s.currentQuestionIndex]),
              timeExpired := false, isResuming := true)
      else this
    }

    /**
     * The resume effect as evidently intended when the question changes:
     * the saved count belongs to the question that was paused, so it is
     * discarded and the new question starts from its own limit.
     */
    function NextQuestionStart(s: Interview): (r: Chat)
      ensures r.pausedTimeLeft.None?
      ensures !paused && 0 <= s.currentQuestionIndex < |s.questions| ==>
                r.timeLeft == s.questions[s.currentQuestionIndex].time && !r.timeExpired && r.isResuming
    {
      this.(pausedTimeLeft := None).QuestionChanged(s)
    }

    /**
     * The set-up part of the timer effect, for a running session that is not
     * resuming from a restored snapshot: a count of 0, or a pending resume,
     * restarts from the saved count when there is one, whether or not there
     * is a current question; else from the current question's limit, or 0
     * when there is no current question.
     */
    function TimerSetUp(s: Interview): (r: Chat)
      requires !s.completed && !paused && |s.questions| > 0 && !s.resumingFromSession
      ensures (timeLeft == 0 || isResuming) && 0 <= s.currentQuestionIndex < |s.questions| ==>
                r.timeLeft == ResumeTime(pausedTimeLeft, s.questions[s.currentQuestionIndex])
      ensures (timeLeft == 0 || isResuming) && pausedTimeLeft.Some? ==> r.timeLeft == pausedTimeLeft.value
      ensures (timeLeft == 0 || isResuming) && pausedTimeLeft.None? && !(0 <= s.currentQuestionIndex < |s.questions|) ==>
                r.timeLeft == 0
      ensures timeLeft == 0 || isResuming ==> !r.timeExpired && !r.isResuming
      ensures timeLeft == 0 || isResuming ==> r == this.(timeExpired := r.timeExpired, timeLeft := r.timeLeft, isResuming := r.isResuming)
      ensures !(timeLeft == 0 || isResuming) ==> r == this
    {
      if timeLeft == 0 || isResuming then
        this.(timeExpired := false, timeLeft := SetUpTime(pausedTimeLeft, s), isResuming := false)
      else this
    }
  }

  /** The chat's state when it first renders. */
  function InitialChat(): Chat {
    Chat("", 0, false, false, false, None, false, false)
  }

  /** A pause followed by a resume continues the countdown from where it stopped. */
  lemma PauseResumeKeepsCount(c: Chat, s: Interview)
    requires 0 <= s.currentQuestionIndex < |s.questions|
    ensures c.Pause().Resume().QuestionChanged(s).timeLeft == c.timeLeft
  {
  }

  /**
   * As written, the count saved by a pause is never cleared: once the
   * answer is submitted, the next question starts from that count instead
   * of its own limit.
   */
  lemma SavedCountOutlivesItsQuestion(c: Chat, s: Interview, a: Answer, now: nat)
    requires CanSubmit(s, false) && s.currentQuestionIndex + 1 < |s.questions|
    requires s.questions[s.currentQuestionIndex + 1].time != c.timeLeft
    ensures var next := s.SubmitAnswer(a, now);
            var restarted := c.Pause().Resume().QuestionChanged(next);
            restarted.timeLeft == c.timeLeft && restarted.timeLeft != next.questions[next.currentQuestionIndex].time
  {
  }

  /** With the saved count discarded, the next question gets its full limit. */
  lemma NextQuestionGetsFullTime(c: Chat, s: Interview, a: Answer, now: nat)
    requires CanSubmit(s, false) && s.currentQuestionIndex + 1 < |s.questions|
    ensures var next := s.SubmitAnswer(a, now);
            c.Pause().Resume().NextQuestionStart(next).timeLeft == s.questions[s.currentQuestionIndex + 1].time
  {
  }

  /** Once fired, the auto-submit stays quiet until the count is restarted. */
  lemma AutoSubmitOncePerExpiry(c: Chat)
    ensures c.AutoSubmit().AutoSubmit() == c.AutoSubmit()
    ensures AutoSubmitFires(c.timeLeft, c.timeExpired) ==>
              c.AutoSubmit().Tick().AutoSubmit() == c.AutoSubmit().Tick()
  {
  }

  /**
   * The chat as an object: the handlers update its fields in place and
   * dispatch to the interview store and the candidate table.
   */
  class ChatSession {
    var answer: string
    var timeLeft: int
    var submitting: bool
    var timeExpired: bool
    var paused: bool
    var pausedTimeLeft: Option<int>
    var modalOpen: bool
    var isResuming: bool

    function Data(): Chat
      reads this
    {
      Chat(answer, timeLeft, submitting, timeExpired, paused, pausedTimeLeft, modalOpen, isResuming)
    }

    constructor ()
      ensures Data() == InitialChat()
    {
      answer, timeLeft, submitting, timeExpired := "", 0, false, false;
      paused, pausedTimeLeft, modalOpen, isResuming := false, None, false, false;
    }

    /**
     * The question-loading effect: only a session without questions asks the
     * generator; a successful reply (`generated`) installs the selection in
     * the store and starts the count at the first selected question's limit.
     * A failed request changes nothing.
     */
    method LoadQuestions(generated: Option<seq<Question>>, store: InterviewStore, now: nat)
      modifies this`timeLeft, store
      ensures |old(store.questions)| > 0 || generated.None? ==>
                timeLeft == old(timeLeft) && store.Data() == old(store.Data())
      ensures |old(store.questions)| == 0 && generated.Some? ==>
                var selected := SelectQuestions(generated.value);
                store.Data() == old(store.Data()).SetQuestions(selected, now) && timeLeft == FirstTimeLimit(selected)
    {
      if |store.questions| == 0 && generated.Some? {
        var selected := SelectQuestions(generated.value);
        store.SetQuestions(selected, now);
        timeLeft := FirstTimeLimit(selected);
      }
    }

    /** The text area's `onChange`. */
    method Type(text: string)
      modifies this`answer
      ensures answer == text
    {
      answer := text;
    }

    method Tick()
      modifies this
      ensures Data() == old(Data()).Tick()
    {
      timeLeft := if timeLeft > 0 then timeLeft - 1 else 0;
    }

    /** Reports whether `handleSubmit` is to be called. */
    method AutoSubmit() returns (fire: bool)
      modifies this
      ensures fire <==> AutoSubmitFires(old(timeLeft), old(timeExpired))
      ensures Data() == old(Data()).AutoSubmit()
    {
      fire := timeLeft == 0 && !timeExpired;
      if fire {
        timeExpired := true;
      }
    }

    method HandlePause(store: InterviewStore, now: nat)
      modifies this, store
      ensures Data() == old(Data()).Pause()
      ensures store.Data() == old(store.Data()).PauseInterview(now)
    {
      pausedTimeLeft := Some(timeLeft);
      paused := true;
      modalOpen := true;
      store.PauseInterview(now);
    }

    method HandleResume(store: InterviewStore, now: nat)
      modifies this, store
      ensures Data() == old(Data()).Resume()
      ensures store.Data() == old(store.Data()).ResumeInterview(now)
    {
      paused := false;
      modalOpen := false;
      isResuming := true;
      store.ResumeInterview(now);
    }

    method QuestionChanged(store: InterviewStore)
      modifies this
      ensures Data() == old(Data()).QuestionChanged(store.Data())
    {
      if !paused && 0 <= store.currentQuestionIndex < |store.questions| {
        timeLeft := ResumeTime(pausedTimeLeft, store.questions[store.currentQuestionIndex]);
        timeExpired := false;
        isResuming := true;
      }
    }

    /** The resume effect after the question index moved on, with the saved count discarded. */
    method StartNextQuestion(store: InterviewStore)
      modifies this
      ensures Data() == old(Data()).NextQuestionStart(store.Data())
    {
      pausedTimeLeft := None;
      if !paused && 0 <= store.currentQuestionIndex < |store.questions| {
        timeLeft := store.questions[store.currentQuestionIndex].time;
        timeExpired := false;
        isResuming := true;
      }
    }

    /**
     * The timer effect's set-up: nothing for a finished, paused or empty
     * session; a session restored from a snapshot restarts the current
     * question at its full limit and clears the store's resuming flag;
     * otherwise `TimerSetUp`.
     */
    method TimerEffect(store: InterviewStore)
      modifies this, store
      ensures old(store.completed) || old(paused) || |old(store.questions)| == 0 ==>
                Data() == old(Data()) && store.Data() == old(store.Data())
      ensures !old(store.completed) && !old(paused) && |old(store.questions)| > 0 && old(store.resumingFromSession) ==>
                var s := old(store.Data());
                (0 <= s.currentQuestionIndex < |s.questions| ==>
                   Data() == old(Data()).(timeExpired := false, timeLeft := s.questions[s.currentQuestionIndex].time)
                   && store.Data() == s.ClearResumingFlag())
                && (!(0 <= s.currentQuestionIndex < |s.questions|) ==> Data() == old(Data()) && store.Data() == s)
      ensures !old(store.completed) && !old(paused) && |old(store.questions)| > 0 && !old(store.resumingFromSession) ==>
                Data() == old(Data()).TimerSetUp(old(store.Data())) && store.Data() == old(store.Data())
    {
      if store.completed || paused || |store.questions| == 0 {
        return;
      }
      if store.resumingFromSession {
        if 0 <= store.currentQuestionIndex < |store.questions| {
          timeExpired := false;
          timeLeft := store.questions[store.currentQuestionIndex].time;
          store.ClearResumingFlag();
        }
        return;
      }
      if timeLeft == 0 || isResuming {
        var full := SetUpTime(pausedTimeLeft, store.Data());
        timeExpired := false;
        timeLeft := full;
        isResuming := false;
      }
    }

    /**
     * `handleSubmit`. The in-flight flag is raised for the duration of the
     * call and lowered in the `finally`, so it ends as it began.
     */
    method HandleSubmit(store: InterviewStore, table: CandidatesSlice.CandidateTable, ui: UiSlice.UiStore,
                        eval: Option<Evaluation>, summary: Option<string>, now: nat)
      requires AllScored(store.answers) && Listed(table.Data())
      modifies this, store, table
      ensures var o := Submit(old(store.Data()), old(table.Data()), ui.selectedCandidateId, old(answer),
                              old(submitting), eval, summary, now);
              store.Data() == o.session && table.Data() == o.table && Data() == old(Data()).(answer := o.answer)
    {
      if !CanSubmit(store.Data(), submitting) {
        return;
      }
      submitting := true;
      if eval.Some? {
        AcceptAnswer(store, table, ui.selectedCandidateId, eval.value, summary, now);
      }
      submitting := false;
    }

    /** Records the evaluated answer, clears the answer box and, after the last question, finishes. */
    method AcceptAnswer(store: InterviewStore, table: CandidatesSlice.CandidateTable, selected: Option<string>,
                  e: Evaluation, summary: Option<string>, now: nat)
      requires AllScored(store.answers) && Listed(table.Data())
      requires 0 <= store.currentQuestionIndex < |store.questions|
      modifies this`answer, store, table
      ensures var o := Accept(old(store.Data()), old(table.Data()), selected, old(answer), e, summary, now);
              store.Data() == o.session && table.Data() == o.table && answer == o.answer
    {
      var q := store.questions[store.currentQuestionIndex];
      var isLast := store.currentQuestionIndex == |store.questions| - 1;
      var prior := store.answers;
      var raw := answer;
      store.SubmitAnswer(Answer(q.q, SubmittedText(raw), Some(q.difficulty), Some(e.score), e.feedback), now);
      answer := "";
      if isLast && summary.Some? {
        FinishInterview(store, table, selected, CandidateAnswers(prior, q, raw, e), summary.value);
      }
    }
  }

  method FinishInterview(store: InterviewStore, table: CandidatesSlice.CandidateTable, selected: Option<string>,
                all: seq<Answer>, summary: string)
    requires AllScored(all) && |all| > 0 && Listed(table.Data())
    modifies store, table
    ensures var o := Finish(old(store.Data()), old(table.Data()), selected, all, summary);
            store.Data() == o.session && table.Data() == o.table
  {
    var avg := ChatAverage(all).value;
    store.SetAiSummary(summary);
    store.CompleteInterview(Some(avg));
    CreditCandidate(table, selected, CompletionPatch(avg, summary, all));
  }

  /** Dispatches `updateCandidate` to the credit target, if any. */
  method CreditCandidate(table: CandidatesSlice.CandidateTable, selected: Option<string>, p: CandidatesSlice.Patch)
    requires Listed(table.Data())
    modifies table
    ensures table.Data() == Credit(old(table.Data()), selected, p)
  {
    if Truthy(selected) {
      table.UpdateCandidate(selected.value, p);
    } else {
      var fallback := MostRecentOpen(table.allIds, table.byId);
      if fallback.Some? {
        table.UpdateCandidate(fallback.value, p);
      }
    }
  }
}
