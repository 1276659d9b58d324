/**
 * The per-candidate question timers (src/features/sessionsSlice.js): a
 * dictionary from candidate id to the question being timed and the moment
 * its timer started.
 */
module SessionsSlice {

  datatype TimerEntry = TimerEntry(questionIndex: int, startTimestamp: int)

  datatype Sessions = Sessions(timers: map<string, TimerEntry>)
  {
    /** `startQuestion`: (re)starts the candidate's timer, overwriting any earlier entry. */
    function StartQuestion(candidateId: string, questionIndex: int, startTimestamp: int): (r: Sessions)
      ensures candidateId in r.timers && r.timers[candidateId] == TimerEntry(questionIndex, startTimestamp)
      ensures r.timers.Keys == timers.Keys + {candidateId}
      ensures forall k :: k in timers && k != candidateId ==> r.timers[k] == timers[k]
    {
      Sessions(timers[candidateId := TimerEntry(questionIndex, startTimestamp)])
    }

    /** `clearSession`: deletes the candidate's entry and nothing else. */
    function ClearSession(candidateId: string): (r: Sessions)
      ensures candidateId !in r.timers
      ensures r.timers.Keys == timers.Keys - {candidateId}
      ensures forall k :: k in r.timers ==> r.timers[k] == timers[k]
    {
      Sessions(timers - {candidateId})
    }
  }

  /** No timer runs initially. */
  function Initial(): (s: Sessions)
    ensures |s.timers| == 0
  {
    Sessions(map[])
  }

  /** Clearing a candidate without a timer changes nothing. */
  lemma ClearAbsentIsNoOp(s: Sessions, candidateId: string)
    requires candidateId !in s.timers
    ensures s.ClearSession(candidateId) == s
  {
  }

  /** Starting and then clearing a candidate's timer leaves no entry for it, and the others as they were. */
  lemma StartThenClear(s: Sessions, candidateId: string, questionIndex: int, startTimestamp: int)
    ensures s.StartQuestion(candidateId, questionIndex, startTimestamp).ClearSession(candidateId)
            == s.ClearSession(candidateId)
  {
  }

  /** A second start for the same candidate replaces the first. */
  lemma RestartOverwrites(s: Sessions, candidateId: string, i1: int, t1: int, i2: int, t2: int)
    ensures s.StartQuestion(candidateId, i1, t1).StartQuestion(candidateId, i2, t2)
            == s.StartQuestion(candidateId, i2, t2)
  {
  }

  /** The timers as an object whose dictionary is updated by key assignment and `delete`. */
  class SessionStore {
    var timers: map<string, TimerEntry>

    function Data(): Sessions
      reads this
    {
      Sessions(timers)
    }

    constructor ()
      ensures Data() == Initial()
    {
      timers := map[];
    }

    method StartQuestion(candidateId: string, questionIndex: int, startTimestamp: int)
      modifies this
      ensures Data() == old(Data()).StartQuestion(candidateId, questionIndex, startTimestamp)
    {
      timers := timers[candidateId := TimerEntry(questionIndex, startTimestamp)];
    }

    method ClearSession(candidateId: string)
      modifies this
      ensures Data() == old(Data()).ClearSession(candidateId)
    {
      timers := timers - {candidateId};
    }
  }
}
