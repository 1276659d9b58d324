/**
 * The UI slice (src/features/uiSlice.js): which tab is showing and which
 * candidate the interview is attributed to.
 */
module UiSlice {
  import opened Common

  datatype Ui = Ui(activeTab: string, selectedCandidateId: Option<string>)
  {
    /** `setActiveTab`: changes the tab and nothing else. */
    function SetActiveTab(tab: string): (r: Ui)
      ensures r.activeTab == tab && r.selectedCandidateId == selectedCandidateId
    {
      this.(activeTab := tab)
    }

    /** `setSelectedCandidate`: changes the selection (possibly to null) and nothing else. */
    function SetSelectedCandidate(id: Option<string>): (r: Ui)
      ensures r.selectedCandidateId == id && r.activeTab == activeTab
    {
      this.(selectedCandidateId := id)
    }
  }

  /** The interviewee tab is showing and nobody is selected. */
  function Initial(): (u: Ui)
    ensures u.activeTab == "interviewee" && u.selectedCandidateId.None?
  {
    Ui("interviewee", None)
  }

  /** Applying either setter twice with the same payload is the same as applying it once. */
  lemma SettersIdempotent(u: Ui, tab: string, id: Option<string>)
    ensures u.SetActiveTab(tab).SetActiveTab(tab) == u.SetActiveTab(tab)
    ensures u.SetSelectedCandidate(id).SetSelectedCandidate(id) == u.SetSelectedCandidate(id)
  {
  }

  /** The two setters touch different fields, so their order does not matter. */
  lemma SettersCommute(u: Ui, tab: string, id: Option<string>)
    ensures u.SetActiveTab(tab).SetSelectedCandidate(id) == u.SetSelectedCandidate(id).SetActiveTab(tab)
  {
  }

  class UiStore {
    var activeTab: string
    var selectedCandidateId: Option<string>

    function Data(): Ui
      reads this
    {
      Ui(activeTab, selectedCandidateId)
    }

    constructor ()
      ensures Data() == Initial()
    {
      activeTab := "interviewee";
      selectedCandidateId := None;
    }

    method SetActiveTab(tab: string)
      modifies this
      ensures Data() == old(Data()).SetActiveTab(tab)
    {
      activeTab := tab;
    }

    method SetSelectedCandidate(id: Option<string>)
      modifies this
      ensures Data() == old(Data()).SetSelectedCandidate(id)
    {
      selectedCandidateId := id;
    }
  }
}
