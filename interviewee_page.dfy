/**
 * The interviewee page (src/pages/Interviewee.jsx): on mount it looks for
 * an unfinished session and either offers to continue it (when the last
 * activity was less than 24 hours ago) or discards it; its two buttons
 * continue the session or start a new one.
 */
module IntervieweePage {
  import opened Common
  import opened InterviewSlice
  import CandidatesSlice
  import UiSlice
  import InterviewChat

  /** 24 hours in milliseconds. */
  const DayMillis := 24 * 60 * 60 * 1000

  /** The session has questions left to answer, a résumé and an id. */
  predicate HasUnfinishedSession(s: Interview) {
    |s.questions| > 0 && !s.completed && s.resumeText != "" && Truthy(s.sessionId)
    && s.currentQuestionIndex < |s.questions|
  }

  /** The last activity is known (and not 0) and strictly less than a day before `now`. */
  predicate IsRecentSession(lastActivityTime: Option<int>, now: int) {
    lastActivityTime.Some? && lastActivityTime.value != 0 && now - lastActivityTime.value < DayMillis
  }

  /** What the mount-time check does. */
  datatype Gate = ShowPrompt | ResetStale | NoSession

  function CheckGate(s: Interview, now: int): (g: Gate)
    ensures g == ShowPrompt <==> HasUnfinishedSession(s) && IsRecentSession(s.lastActivityTime, now)
    ensures g == ResetStale <==> HasUnfinishedSession(s) && !IsRecentSession(s.lastActivityTime, now)
    ensures g == NoSession <==> !HasUnfinishedSession(s)
  {
    if !HasUnfinishedSession(s) then NoSession
    else if IsRecentSession(s.lastActivityTime, now) then ShowPrompt
    else ResetStale
  }

  /** The threshold is strict: a session idle for exactly 24 hours is stale, one idle a millisecond less is not. */
  lemma DayThreshold(s: Interview, last: int)
    requires HasUnfinishedSession(s) && last != 0 && s.lastActivityTime == Some(last)
    ensures CheckGate(s, last + DayMillis) == ResetStale
    ensures CheckGate(s, last + DayMillis - 1) == ShowPrompt
  {
  }

  /** A session without a recorded activity time is always stale. */
  lemma NoActivityIsStale(s: Interview, now: int)
    requires HasUnfinishedSession(s) && NonZero(s.lastActivityTime).None?
    ensures CheckGate(s, now) == ResetStale
  {
  }

  /** A session with an empty résumé text never triggers the prompt nor the reset. */
  lemma EmptyResumeNeverPrompts(s: Interview, now: int)
    requires s.resumeText == ""
    ensures CheckGate(s, now) == NoSession
  {
  }

  /** After the stale session is discarded there is nothing left to check. */
  lemma ResetLeavesNoSession(s: Interview, now: int, later: int)
    ensures CheckGate(s.ResetInterview(), later) == NoSession
  {
  }

  /**
   * A session started by installing questions at time `t` and given a
   * résumé is offered for continuation exactly within the following day.
   */
  lemma FreshSessionGate(s: Interview, qs: seq<Question>, t: nat, text: string, now: int)
    requires |qs| > 0 && text != "" && t != 0
    ensures var started := s.SetResumeText(text).SetQuestions(qs, t);
            CheckGate(started, now) == (if now - t < DayMillis then ShowPrompt else ResetStale)
  {
    var started := s.SetResumeText(text).SetQuestions(qs, t);
    assert HasUnfinishedSession(started);
  }

  /** The page's local state: whether the prompt shows and whether the check has run. */
  class Page {
    var showWelcomeBack: bool
    var hasCheckedSession: bool

    constructor ()
      ensures !showWelcomeBack && !hasCheckedSession
    {
      showWelcomeBack := false;
      hasCheckedSession := false;
    }

    /** The mount effect: runs the check once, then never again. */
    method MountEffect(store: InterviewStore, now: int)
      modifies this, store
      ensures hasCheckedSession
      ensures old(hasCheckedSession) ==> showWelcomeBack == old(showWelcomeBack) && store.Data() == old(store.Data())
      ensures !old(hasCheckedSession) ==> CheckOutcome(old(store.Data()), now, old(showWelcomeBack), store.Data(), showWelcomeBack)
    {
      if !hasCheckedSession {
        CheckForUnfinishedSession(store, now);
        hasCheckedSession := true;
      }
    }

    /** `checkForUnfinishedSession`. */
    method CheckForUnfinishedSession(store: InterviewStore, now: int)
      modifies this`showWelcomeBack, store
      ensures CheckOutcome(old(store.Data()), now, old(showWelcomeBack), store.Data(), showWelcomeBack)
    {
      var unfinished := |store.questions| > 0 && !store.completed && store.resumeText != ""
                        && Truthy(store.sessionId) && store.currentQuestionIndex < |store.questions|;
      if unfinished {
        var recent := store.lastActivityTime.Some? && store.lastActivityTime.value != 0
                      && now - store.lastActivityTime.value < DayMillis;
        if recent {
          showWelcomeBack := true;
        } else {
          store.ResetInterview();
        }
      }
    }

    /**
     * `handleContinueInterview`: resumes the session and, when no candidate
     * is selected, selects the open candidate with the greatest id.
     */
    method HandleContinueInterview(store: InterviewStore, table: CandidatesSlice.CandidateTable,
                                   ui: UiSlice.UiStore, now: nat)
      requires InterviewChat.Listed(table.Data())
      modifies this`showWelcomeBack, store, ui
      ensures store.Data() == old(store.Data()).ResumeFromSession(now)
      ensures ui.Data() == old(ui.Data()).SetSelectedCandidate(ContinueSelection(old(ui.selectedCandidateId), table.Data()))
      ensures !showWelcomeBack
    {
      store.ResumeFromSession(now);
      if !Truthy(ui.selectedCandidateId) {
        var fallback := InterviewChat.MostRecentOpen(table.allIds, table.byId);
        if fallback.Some? {
          ui.SetSelectedCandidate(fallback);
        }
      }
      showWelcomeBack := false;
    }

    /** `handleStartNew`: discards the session and hides the prompt. */
    method HandleStartNew(store: InterviewStore)
      modifies this`showWelcomeBack, store
      ensures store.Data() == old(store.Data()).ResetInterview()
      ensures !showWelcomeBack
    {
      store.ResetInterview();
      showWelcomeBack := false;
    }
  }

  /** The state the mount-time check leaves behind: the prompt, a reset, or nothing. */
  predicate CheckOutcome(before: Interview, now: int, shownBefore: bool, after: Interview, shown: bool) {
    match CheckGate(before, now)
    case ShowPrompt => shown && after == before
    case ResetStale => shown == shownBefore && after == before.ResetInterview()
    case NoSession => shown == shownBefore && after == before
  }

  /**
   * The selection after "continue": an existing (truthy) selection is kept;
   * otherwise the fallback candidate when there is one, else the old value.
   */
  function ContinueSelection(selected: Option<string>, t: CandidatesSlice.Table): (r: Option<string>)
    requires InterviewChat.Listed(t)
    ensures Truthy(selected) ==> r == selected
    ensures !Truthy(selected) && InterviewChat.MostRecentOpen(t.allIds, t.byId).Some? ==>
              r == InterviewChat.MostRecentOpen(t.allIds, t.byId)
    ensures !Truthy(selected) && InterviewChat.MostRecentOpen(t.allIds, t.byId).None? ==> r == selected
  {
    if Truthy(selected) then selected
    else
      var fallback := InterviewChat.MostRecentOpen(t.allIds, t.byId);
      if fallback.Some? then fallback else selected
  }

  /** Continuing selects the candidate the chat would credit, so both fallbacks agree. */
  lemma ContinueAgreesWithCredit(selected: Option<string>, t: CandidatesSlice.Table)
    requires InterviewChat.Listed(t)
    ensures var r := ContinueSelection(selected, t);
            Truthy(r) ==> InterviewChat.CreditTarget(r, t) == InterviewChat.CreditTarget(selected, t)
  {
  }
}
