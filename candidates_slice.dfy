/**
 * The candidate table (src/features/candidatesSlice.js): a normalised
 * `byId` dictionary plus the `allIds` list that orders it.
 *
 * `Table` is the state as a value with one member function per reducer;
 * `CandidateTable` is the same state as an object whose methods assign,
 * delete and append in place. The identifier `uuidv4()` draws is the
 * parameter `freshId`; writing the table to `localStorage` is not modelled.
 */
module CandidatesSlice {
  import opened Common
  import InterviewSlice

  /** A candidate record. `chatHistory` is only ever stored, never read. */
  datatype Candidate = Candidate(
    id: string,
    name: string,
    email: string,
    phone: string,
    status: string,
    score: int,
    summary: string,
    chatHistory: seq<string>,
    answers: seq<InterviewSlice.Answer>)

  /** The payload of `addCandidate`; `None` is a field the caller left out. */
  datatype NewCandidate = NewCandidate(
    name: string,
    email: string,
    phone: string,
    status: Option<string>,
    score: Option<int>,
    summary: Option<string>,
    chatHistory: Option<seq<string>>,
    answers: Option<seq<InterviewSlice.Answer>>)

  /** The `updates` object of `updateCandidate`: the keys it carries are the `Some` fields. */
  datatype Patch = Patch(
    id: Option<string>,
    name: Option<string>,
    email: Option<string>,
    phone: Option<string>,
    status: Option<string>,
    score: Option<int>,
    summary: Option<string>,
    chatHistory: Option<seq<string>>,
    answers: Option<seq<InterviewSlice.Answer>>)
  {
    /** `{ ...c, ...updates }`: every key of the patch overwrites, every other field is kept. */
    function ApplyTo(c: Candidate): (r: Candidate)
      ensures id.None? ==> r.id == c.id
      ensures id.Some? ==> r.id == id.value
      ensures name.None? ==> r.name == c.name
      ensures name.Some? ==> r.name == name.value
      ensures email.None? ==> r.email == c.email
      ensures email.Some? ==> r.email == email.value
      ensures phone.None? ==> r.phone == c.phone
      ensures phone.Some? ==> r.phone == phone.value
      ensures status.None? ==> r.status == c.status
      ensures status.Some? ==> r.status == status.value
      ensures score.None? ==> r.score == c.score
      ensures score.Some? ==> r.score == score.value
      ensures summary.None? ==> r.summary == c.summary
      ensures summary.Some? ==> r.summary == summary.value
      ensures chatHistory.None? ==> r.chatHistory == c.chatHistory
      ensures chatHistory.Some? ==> r.chatHistory == chatHistory.value
      ensures answers.None? ==> r.answers == c.answers
      ensures answers.Some? ==> r.answers == answers.value
    {
      Candidate(id.GetOr(c.id), name.GetOr(c.name), email.GetOr(c.email), phone.GetOr(c.phone),
                status.GetOr(c.status), score.GetOr(c.score), summary.GetOr(c.summary),
                chatHistory.GetOr(c.chatHistory), answers.GetOr(c.answers))
    }
  }

  /** The patch with no keys. */
  function EmptyPatch(): Patch {
    Patch(None, None, None, None, None, None, None, None, None)
  }

  /**
   * The record `addCandidate` stores: the supplied values, destructuring
   * defaults for the missing ones, and "not-started" for a falsy status.
   */
  function NewRecord(p: NewCandidate, freshId: string): (c: Candidate)
    ensures c.id == freshId && c.name == p.name && c.email == p.email && c.phone == p.phone
    ensures c.status == (if Truthy(p.status) then p.status.value else "not-started")
    ensures p.score.None? ==> c.score == 0
    ensures p.score.Some? ==> c.score == p.score.value
    ensures p.summary.None? ==> c.summary == ""
    ensures p.summary.Some? ==> c.summary == p.summary.value
    ensures p.chatHistory.None? ==> c.chatHistory == []
    ensures p.chatHistory.Some? ==> c.chatHistory == p.chatHistory.value
    ensures p.answers.None? ==> c.answers == []
    ensures p.answers.Some? ==> c.answers == p.answers.value
  {
    Candidate(freshId, p.name, p.email, p.phone,
              if Truthy(p.status) then p.status.value else "not-started",
              p.score.GetOr(0), p.summary.GetOr(""), p.chatHistory.GetOr([]), p.answers.GetOr([]))
  }

  /** `ids.filter((cid) => cid !== x)`. */
  function Without(ids: seq<string>, x: string): (r: seq<string>)
    ensures forall y :: y in r <==> y in ids && y != x
    ensures |r| <= |ids|
  {
    if ids == [] then []
    else if ids[0] == x then Without(ids[1..], x)
    else [ids[0]] + Without(ids[1..], x)
  }

  /** Filtering distributes over concatenation: the kept identifiers keep their order. */
  lemma {:induction false} WithoutAppend(a: seq<string>, b: seq<string>, x: string)
    ensures Without(a + b, x) == Without(a, x) + Without(b, x)
  {
    if a != [] {
      assert (a + b)[0] == a[0] && (a + b)[1..] == a[1..] + b;
      WithoutAppend(a[1..], b, x);
      if a[0] != x {
        assert [a[0]] + (Without(a[1..], x) + Without(b, x)) == ([a[0]] + Without(a[1..], x)) + Without(b, x);
      }
    } else {
      assert a + b == b;
    }
  }

  /** Filtering out an identifier that is not there changes nothing. */
  lemma {:induction false} WithoutAbsent(ids: seq<string>, x: string)
    requires x !in ids
    ensures Without(ids, x) == ids
  {
    if ids != [] {
      WithoutAbsent(ids[1..], x);
    }
  }

  /** `candidates.map((c) => c.id)`. */
  function IdsOf(cs: seq<Candidate>): (r: seq<string>)
    ensures |r| == |cs| && forall i :: 0 <= i < |cs| ==> r[i] == cs[i].id
  {
    seq(|cs|, i requires 0 <= i < |cs| => cs[i].id)
  }

  /** `candidates.reduce((acc, c) => { acc[c.id] = c; return acc; }, {})`, folded from the left. */
  function IndexById(cs: seq<Candidate>): map<string, Candidate> {
    if cs == [] then map[] else IndexById(cs[..|cs| - 1])[cs[|cs| - 1].id := cs[|cs| - 1]]
  }

  /** Every id of the payload is a key, and no other key is. */
  lemma {:induction false} IndexByIdKeys(cs: seq<Candidate>)
    ensures forall k :: k in IndexById(cs) <==> exists i :: 0 <= i < |cs| && cs[i].id == k
  {
    if cs != [] {
      var init := cs[..|cs| - 1];
      IndexByIdKeys(init);
      assert IndexById(cs) == IndexById(init)[cs[|cs| - 1].id := cs[|cs| - 1]];
      forall k | k in IndexById(cs)
        ensures exists i :: 0 <= i < |cs| && cs[i].id == k
      {
        if k != cs[|cs| - 1].id {
          var i :| 0 <= i < |init| && init[i].id == k;
          assert cs[i].id == k;
        }
      }
      forall k | exists i :: 0 <= i < |cs| && cs[i].id == k
        ensures k in IndexById(cs)
      {
        var i :| 0 <= i < |cs| && cs[i].id == k;
        if i < |init| {
          assert init[i].id == k;
        }
      }
    }
  }

  /** Each key maps to the last record of the payload carrying that id. */
  lemma {:induction false} IndexByIdLastWins(cs: seq<Candidate>, i: int)
    requires 0 <= i < |cs|
    requires forall j :: i < j < |cs| ==> cs[j].id != cs[i].id
    ensures cs[i].id in IndexById(cs) && IndexById(cs)[cs[i].id] == cs[i]
  {
    if i < |cs| - 1 {
      var init := cs[..|cs| - 1];
      assert init[i] == cs[i];
      IndexByIdLastWins(init, i);
    }
  }

  /** `byId` and `allIds` name the same identifiers. */
  ghost predicate Consistent(byId: map<string, Candidate>, allIds: seq<string>) {
    forall k :: k in byId <==> k in allIds
  }

  /** Every record is stored under its own id. */
  ghost predicate KeyedById(byId: map<string, Candidate>) {
    forall k :: k in byId ==> byId[k].id == k
  }

  datatype Table = Table(allIds: seq<string>, byId: map<string, Candidate>)
  {
    ghost predicate Valid() {
      Consistent(byId, allIds)
    }

    /** `addCandidate`: stores the record under the fresh id and appends the id. */
    function Add(p: NewCandidate, freshId: string): (r: Table)
      ensures r.allIds == allIds + [freshId]
      ensures r.byId == byId[freshId := NewRecord(p, freshId)]
    {
      Table(allIds + [freshId], byId[freshId := NewRecord(p, freshId)])
    }

    /** `updateCandidate`: merges the patch into an existing record; an unknown id changes nothing. */
    function Update(id: string, patch: Patch): (r: Table)
      ensures r.allIds == allIds && r.byId.Keys == byId.Keys
      ensures id in byId ==> r.byId[id] == patch.ApplyTo(byId[id])
      ensures forall k :: k in byId && k != id ==> r.byId[k] == byId[k]
      ensures id !in byId ==> r == this
    {
      if id in byId then Table(allIds, byId[id := patch.ApplyTo(byId[id])]) else this
    }

    /** `removeCandidate`: deletes the key and every occurrence of the id. */
    function Remove(id: string): (r: Table)
      ensures id !in r.byId && id !in r.allIds
      ensures r.allIds == Without(allIds, id)
      ensures forall k :: k in r.byId <==> k in byId && k != id
      ensures forall k :: k in r.byId ==> r.byId[k] == byId[k]
    {
      Table(Without(allIds, id), byId - {id})
    }

    /**
     * `setCandidates`: the ids of the payload in order, and a dictionary
     * holding, under each of them, the last payload record carrying it.
     */
    function SetAll(cs: seq<Candidate>): (r: Table)
      ensures |r.allIds| == |cs| && forall i :: 0 <= i < |cs| ==> r.allIds[i] == cs[i].id
      ensures forall k :: k in r.byId <==> k in r.allIds
      ensures forall i :: 0 <= i < |cs| && (forall j :: i < j < |cs| ==> cs[j].id != cs[i].id) ==>
                cs[i].id in r.byId && r.byId[cs[i].id] == cs[i]
    {
      IndexByIdKeys(cs);
      forall i | 0 <= i < |cs| && (forall j :: i < j < |cs| ==> cs[j].id != cs[i].id)
        ensures cs[i].id in IndexById(cs) && IndexById(cs)[cs[i].id] == cs[i]
      {
        IndexByIdLastWins(cs, i);
      }
      var ids := IdsOf(cs);
      assert forall k :: k in ids <==> exists i :: 0 <= i < |cs| && cs[i].id == k by {
        forall k | k in ids ensures exists i :: 0 <= i < |cs| && cs[i].id == k {
          var i :| 0 <= i < |ids| && ids[i] == k;
          assert cs[i].id == k;
        }
      }
      Table(ids, IndexById(cs))
    }
  }

  /** The empty table the slice starts with. */
  function Initial(): (t: Table)
    ensures t.Valid() && t.allIds == [] && t.byId == map[]
  {
    Table([], map[])
  }

  // -----------------------------------------------------------------------
  // The table invariant

  /** Adding under a fresh id keeps keys and list in step. */
  lemma AddPreservesConsistent(t: Table, p: NewCandidate, freshId: string)
    requires t.Valid()
    ensures t.Add(p, freshId).Valid()
    ensures freshId !in t.allIds ==> freshId !in t.byId
  {
  }

  /** A merge never adds or removes keys. */
  lemma UpdatePreservesConsistent(t: Table, id: string, patch: Patch)
    requires t.Valid()
    ensures t.Update(id, patch).Valid()
  {
  }

  /** A removal drops the id from both sides. */
  lemma RemovePreservesConsistent(t: Table, id: string)
    requires t.Valid()
    ensures t.Remove(id).Valid()
  {
  }

  /** A bulk set produces a consistent table whatever the payload. */
  lemma SetAllConsistent(t: Table, cs: seq<Candidate>)
    ensures t.SetAll(cs).Valid() && KeyedById(t.SetAll(cs).byId)
  {
    var r := t.SetAll(cs);
    forall k | k in r.byId
      ensures r.byId[k].id == k
    {
      var i :| 0 <= i < |cs| && cs[i].id == k;
      var j := LastWithId(cs, k, i);
      assert r.byId[k] == cs[j];
    }
  }

  /** The last position at or after `i` whose record carries the id `k`. */
  ghost function LastWithId(cs: seq<Candidate>, k: string, i: int): (j: int)
    requires 0 <= i < |cs| && cs[i].id == k
    ensures i <= j < |cs| && cs[j].id == k
    ensures forall m :: j < m < |cs| ==> cs[m].id != k
    decreases |cs| - i
  {
    if exists m :: i < m < |cs| && cs[m].id == k then
      var m :| i < m < |cs| && cs[m].id == k;
      LastWithId(cs, k, m)
    else i
  }

  /** Every stored record keeps its own id under add, remove, and a patch that leaves `id` alone. */
  lemma KeyedByIdPreserved(t: Table, p: NewCandidate, freshId: string, id: string, patch: Patch)
    requires KeyedById(t.byId)
    ensures KeyedById(t.Add(p, freshId).byId)
    ensures KeyedById(t.Remove(id).byId)
    ensures patch.id.None? ==> KeyedById(t.Update(id, patch).byId)
  {
  }

  /** A patch whose `id` key differs files the record under a key that is no longer its id. */
  lemma PatchCanRenameRecord()
    ensures var c := Candidate("a", "n", "e", "p", "not-started", 0, "", [], []);
            var t := Table(["a"], map["a" := c]);
            var u := t.Update("a", EmptyPatch().(id := Some("b")));
            KeyedById(t.byId) && u.Valid() && !KeyedById(u.byId)
  {
  }

  /** Removing an id that is absent changes nothing. */
  lemma RemoveAbsentIsNoOp(t: Table, id: string)
    requires t.Valid() && id !in t.allIds
    ensures t.Remove(id) == t
  {
    WithoutAbsent(t.allIds, id);
  }

  /** After adding under a fresh id and removing it again, the table is as before. */
  lemma AddThenRemove(t: Table, p: NewCandidate, freshId: string)
    requires t.Valid() && freshId !in t.allIds
    ensures t.Add(p, freshId).Remove(freshId) == t
  {
    WithoutAppend(t.allIds, [freshId], freshId);
    WithoutAbsent(t.allIds, freshId);
    assert Without([freshId], freshId) == [];
  }

  /**
   * The table as an object. `allIds` and `byId` are the slice's two fields;
   * each method is one reducer, tied to the `Table` function of the same name.
   */
  class CandidateTable {
    var allIds: seq<string>
    var byId: map<string, Candidate>

    function Data(): Table
      reads this
    {
      Table(allIds, byId)
    }

    constructor ()
      ensures Data() == Initial()
    {
      allIds := [];
      byId := map[];
    }

    method AddCandidate(p: NewCandidate, freshId: string)
      requires freshId !in byId && freshId !in allIds
      modifies this
      ensures Data() == old(Data()).Add(p, freshId)
    {
      byId := byId[freshId := NewRecord(p, freshId)];
      allIds := allIds + [freshId];
    }

    method UpdateCandidate(id: string, patch: Patch)
      modifies this
      ensures Data() == old(Data()).Update(id, patch)
    {
      if id in byId {
        byId := byId[id := patch.ApplyTo(byId[id])];
      }
    }

    /** The ids are mapped out, then the records are folded into a fresh dictionary one by one. */
    method SetCandidates(cs: seq<Candidate>)
      modifies this
      ensures Data() == old(Data()).SetAll(cs)
    {
      allIds := IdsOf(cs);
      var acc: map<string, Candidate> := map[];
      for i := 0 to |cs|
        invariant acc == IndexById(cs[..i])
      {
        assert cs[..i + 1][..i] == cs[..i];
        acc := acc[cs[i].id := cs[i]];
      }
      assert cs[..|cs|] == cs;
      byId := acc;
    }

    method RemoveCandidate(id: string)
      modifies this
      ensures Data() == old(Data()).Remove(id)
    {
      byId := byId - {id};
      allIds := Without(allIds, id);
    }
  }
}
