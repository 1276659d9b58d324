/**
 * The interviewer's candidate list (src/components/InterviewerDashboard.jsx):
 * the local candidates, in table order, followed by the ones loaded from
 * the database, each list filtered by the search text; then one record per
 * email (the first one), sorted by score from highest to lowest. Also the
 * lookup of the candidate whose details are shown.
 */
module InterviewerDashboard {
  import opened Common
  import opened CandidatesSlice
  import InterviewChat

  // -----------------------------------------------------------------------
  // Records from the database

  /**
   * A record as the database returns it: `_id` may be missing, and
   * `fields` holds the rest, with a missing `id` read as "".
   */
  datatype DbRecord = DbRecord(mongoId: Option<string>, fields: Candidate)

  /**
   * `{ ...candidate, id: candidate._id || candidate.id }`. A record with
   * neither keeps the id "", which, like `undefined`, matches no selection.
   */
  function Normalise(r: DbRecord): (c: Candidate)
    ensures Truthy(r.mongoId) ==> c.id == r.mongoId.value
    ensures !Truthy(r.mongoId) ==> c.id == r.fields.id
    ensures c.(id := r.fields.id) == r.fields
  {
    if Truthy(r.mongoId) then r.fields.(id := r.mongoId.value) else r.fields
  }

  function NormaliseAll(rs: seq<DbRecord>): (cs: seq<Candidate>)
    ensures |cs| == |rs| && forall i :: 0 <= i < |rs| ==> cs[i] == Normalise(rs[i])
  {
    seq(|rs|, i requires 0 <= i < |rs| => Normalise(rs[i]))
  }

  // -----------------------------------------------------------------------
  // Search

  /** The search test: the lower-cased name or email contains the lower-cased search text. */
  predicate Matches(c: Candidate, search: string) {
    Contains(Lower(c.name), Lower(search)) || Contains(Lower(c.email), Lower(search))
  }

  /** A candidate matches exactly when the search text occurs, ignoring case, in the name or the email. */
  lemma MatchesIff(c: Candidate, search: string)
    ensures Matches(c, search) <==>
              (exists i :: OccursAt(Lower(c.name), Lower(search), i))
              || (exists i :: OccursAt(Lower(c.email), Lower(search), i))
  {
    ContainsIff(Lower(c.name), Lower(search));
    ContainsIff(Lower(c.email), Lower(search));
  }

  /** An empty search lets every candidate through. */
  lemma EmptySearchMatchesAll(c: Candidate)
    ensures Matches(c, "")
  {
    ContainsEmpty(Lower(c.name));
  }

  /** `cs.filter((c) => Matches(c, search))`. */
  function FilterMatches(cs: seq<Candidate>, search: string): (r: seq<Candidate>)
    ensures |r| <= |cs|
    ensures forall c :: c in r <==> c in cs && Matches(c, search)
  {
    if cs == [] then []
    else (if Matches(cs[0], search) then [cs[0]] else []) + FilterMatches(cs[1..], search)
  }

  /** With an empty search the filter keeps the whole list. */
  lemma {:induction false} FilterEmptySearch(cs: seq<Candidate>)
    ensures FilterMatches(cs, "") == cs
  {
    if cs != [] {
      EmptySearchMatchesAll(cs[0]);
      FilterEmptySearch(cs[1..]);
      assert [cs[0]] + cs[1..] == cs;
    }
  }

  /** `allIds.map((id) => byId[id])`. */
  function LocalRecords(t: Table): (cs: seq<Candidate>)
    requires InterviewChat.Listed(t)
    ensures |cs| == |t.allIds| && forall i :: 0 <= i < |cs| ==> cs[i] == t.byId[t.allIds[i]]
  {
    seq(|t.allIds|, i requires 0 <= i < |t.allIds| => t.byId[t.allIds[i]])
  }

  /** The list before deduplication: matching local records, then matching database records. */
  function Combined(t: Table, db: seq<Candidate>, search: string): seq<Candidate>
    requires InterviewChat.Listed(t)
  {
    FilterMatches(LocalRecords(t), search) + FilterMatches(db, search)
  }

  // -----------------------------------------------------------------------
  // Deduplication by email

  /** `xs.findIndex((t) => t.email === e)`, searching from position `k`. */
  function FindEmail(xs: seq<Candidate>, e: string, k: nat): (r: int)
    requires k <= |xs|
    ensures r == -1 || k <= r < |xs|
    ensures r == -1 ==> forall j :: k <= j < |xs| ==> xs[j].email != e
    ensures r != -1 ==> xs[r].email == e && forall j :: k <= j < r ==> xs[j].email != e
    decreases |xs| - k
  {
    if k == |xs| then -1 else if xs[k].email == e then k else FindEmail(xs, e, k + 1)
  }

  /** Position `i` holds the first record with its email. */
  predicate FirstWithEmail(xs: seq<Candidate>, i: int)
    requires 0 <= i < |xs|
  {
    FindEmail(xs, xs[i].email, 0) == i
  }

  /** The records from position `k` on that pass `index === self.findIndex(...)`. */
  function KeepFirsts(xs: seq<Candidate>, k: nat): (r: seq<Candidate>)
    requires k <= |xs|
    ensures forall c :: c in r ==> exists i :: k <= i < |xs| && xs[i] == c && FirstWithEmail(xs, i)
    ensures forall i :: k <= i < |xs| && FirstWithEmail(xs, i) ==> xs[i] in r
    ensures forall a, b :: 0 <= a < b < |r| ==> r[a].email != r[b].email
    decreases |xs| - k
  {
    if k == |xs| then []
    else
      var rest := KeepFirsts(xs, k + 1);
      if FirstWithEmail(xs, k) then
        assert forall c :: c in rest ==> c.email != xs[k].email;
        [xs[k]] + rest
      else rest
  }

  /** The deduplication step: the first record of every email, in list order. */
  function Dedup(xs: seq<Candidate>): seq<Candidate> {
    KeepFirsts(xs, 0)
  }

  /** Deduplication keeps one record per email: no two share one, and every email of the input is present. */
  lemma DedupKeepsEachEmailOnce(xs: seq<Candidate>)
    ensures DistinctEmails(Dedup(xs))
    ensures forall i :: 0 <= i < |xs| ==> exists c :: c in Dedup(xs) && c.email == xs[i].email
    ensures forall c :: c in Dedup(xs) ==> c in xs
  {
    forall i | 0 <= i < |xs|
      ensures exists c :: c in Dedup(xs) && c.email == xs[i].email
    {
      var f := FindEmail(xs, xs[i].email, 0);
      assert FirstWithEmail(xs, f);
      assert xs[f] in Dedup(xs);
    }
  }

  /** A record of the first list wins over any record of the second list with the same email. */
  lemma DedupPrefersFirstList(local: seq<Candidate>, db: seq<Candidate>, c: Candidate, l: Candidate)
    requires c in Dedup(local + db) && l in local && l.email == c.email
    ensures c in local
  {
    var xs := local + db;
    var i :| 0 <= i < |xs| && xs[i] == c && FirstWithEmail(xs, i);
    var j :| 0 <= j < |local| && local[j] == l;
    assert xs[j] == l;
    assert i <= j;
    assert xs[i] == local[i];
  }

  // -----------------------------------------------------------------------
  // Sorting by score

  predicate SortedByScore(s: seq<Candidate>) {
    forall i, j :: 0 <= i < j < |s| ==> s[i].score >= s[j].score
  }

  predicate DistinctEmails(s: seq<Candidate>) {
    forall a, b :: 0 <= a < b < |s| ==> s[a].email != s[b].email
  }

  /** Places `x` after every record scoring at least as much, before the first scoring less. */
  function Insert(x: Candidate, s: seq<Candidate>): seq<Candidate> {
    if s == [] then [x]
    else if s[0].score < x.score then [x] + s
    else [s[0]] + Insert(x, s[1..])
  }

  /** Insertion adds exactly the one record. */
  lemma {:induction false} InsertPermutes(x: Candidate, s: seq<Candidate>)
    ensures multiset(Insert(x, s)) == multiset(s) + multiset{x}
  {
    if s != [] && s[0].score >= x.score {
      InsertPermutes(x, s[1..]);
      assert s == [s[0]] + s[1..];
    }
  }

  /** Insertion into a sorted list gives a sorted list. */
  lemma {:induction false} InsertSorted(x: Candidate, s: seq<Candidate>)
    requires SortedByScore(s)
    ensures SortedByScore(Insert(x, s))
  {
    if s != [] && s[0].score >= x.score {
      InsertSorted(x, s[1..]);
      InsertPermutes(x, s[1..]);
      var rest := Insert(x, s[1..]);
      forall c | c in rest
        ensures c.score <= s[0].score
      {
        assert c in multiset(rest);
        assert c == x || c in multiset(s[1..]);
      }
      assert Insert(x, s) == [s[0]] + rest;
    }
  }

  /** Inserting a record whose email is new into a list with distinct emails keeps them distinct. */
  lemma {:induction false} InsertDistinct(x: Candidate, s: seq<Candidate>)
    requires DistinctEmails(s) && forall k :: 0 <= k < |s| ==> s[k].email != x.email
    ensures DistinctEmails(Insert(x, s))
  {
    var r := Insert(x, s);
    if s == [] {
    } else if s[0].score < x.score {
      assert r == [x] + s;
      forall a, b | 0 <= a < b < |r|
        ensures r[a].email != r[b].email
      {
        assert r[b] == s[b - 1];
        if a > 0 {
          assert r[a] == s[a - 1];
        }
      }
    } else {
      var tail := s[1..];
      assert forall k :: 0 <= k < |tail| ==> tail[k] == s[k + 1];
      InsertDistinct(x, tail);
      InsertPermutes(x, tail);
      var rest := Insert(x, tail);
      assert r == [s[0]] + rest;
      forall a, b | 0 <= a < b < |r|
        ensures r[a].email != r[b].email
      {
        var c := rest[b - 1];
        assert r[b] == c;
        if a == 0 {
          assert c in multiset(rest);
          if c != x {
            assert c in multiset(tail);
            var k :| 0 <= k < |tail| && tail[k] == c;
          }
        } else {
          assert r[a] == rest[a - 1];
        }
      }
    }
  }

  /** `.sort((a, b) => b.score - a.score)`, a stable sort from the highest score down. */
  function SortByScore(xs: seq<Candidate>): seq<Candidate> {
    if xs == [] then [] else Insert(xs[|xs| - 1], SortByScore(xs[..|xs| - 1]))
  }

  /** The sorted list is a rearrangement of the input, from the highest score down. */
  lemma {:induction false} SortByScoreSpec(xs: seq<Candidate>)
    ensures SortedByScore(SortByScore(xs))
    ensures multiset(SortByScore(xs)) == multiset(xs)
    ensures DistinctEmails(xs) ==> DistinctEmails(SortByScore(xs))
  {
    if xs != [] {
      var init, last := xs[..|xs| - 1], xs[|xs| - 1];
      assert xs == init + [last];
      SortByScoreSpec(init);
      InsertSorted(last, SortByScore(init));
      InsertPermutes(last, SortByScore(init));
      if DistinctEmails(xs) {
        var sorted := SortByScore(init);
        forall i | 0 <= i < |sorted|
          ensures sorted[i].email != last.email
        {
          assert sorted[i] in multiset(init);
          var k :| 0 <= k < |init| && init[k] == sorted[i];
          assert xs[k] == init[k];
        }
        InsertDistinct(last, SortByScore(init));
      }
    }
  }

  /** The list the dashboard shows. */
  function FilteredCandidates(t: Table, db: seq<Candidate>, search: string): seq<Candidate>
    requires InterviewChat.Listed(t)
  {
    SortByScore(Dedup(Combined(t, db, search)))
  }

  /**
   * The shown list is sorted from highest score down, is a rearrangement
   * of the deduplicated records, has one record per email, and every
   * record in it matches the search.
   */
  lemma FilteredCandidatesSpec(t: Table, db: seq<Candidate>, search: string)
    requires InterviewChat.Listed(t)
    ensures var r := FilteredCandidates(t, db, search);
            && SortedByScore(r)
            && multiset(r) == multiset(Dedup(Combined(t, db, search)))
            && DistinctEmails(r)
            && (forall c :: c in r ==> Matches(c, search))
  {
    var xs := Combined(t, db, search);
    var d := Dedup(xs);
    DedupKeepsEachEmailOnce(xs);
    SortByScoreSpec(d);
    var r := FilteredCandidates(t, db, search);
    forall c | c in r
      ensures Matches(c, search)
    {
      assert c in multiset(d);
      assert c in xs;
    }
  }

  // -----------------------------------------------------------------------
  // The selected candidate

  /** `db.find((c) => c.id === id)`: the first record with the id, or nothing. */
  function FindById(db: seq<Candidate>, id: string): (r: Option<Candidate>)
    ensures r.Some? ==> exists i :: 0 <= i < |db| && db[i] == r.value && forall j :: 0 <= j < i ==> db[j].id != id
    ensures r.Some? ==> r.value.id == id
    ensures r.None? <==> forall i :: 0 <= i < |db| ==> db[i].id != id
  {
    if db == [] then None
    else if db[0].id == id then Some(db[0])
    else
      var r := FindById(db[1..], id);
      assert forall i :: 1 <= i < |db| ==> db[i] == db[1..][i - 1];
      r
  }

  /** `selectedCandidate`: nothing without a selection; the local record first, else the database's. */
  function SelectedCandidate(selected: Option<string>, t: Table, db: seq<Candidate>): (r: Option<Candidate>)
    ensures !Truthy(selected) ==> r.None?
    ensures Truthy(selected) && selected.value in t.byId ==> r == Some(t.byId[selected.value])
    ensures Truthy(selected) && selected.value !in t.byId ==> r == FindById(db, selected.value)
  {
    if !Truthy(selected) then None
    else if selected.value in t.byId then Some(t.byId[selected.value])
    else FindById(db, selected.value)
  }

  /** A database record with the selected id is shown only when no local record has that id. */
  lemma SelectionPrefersLocal(selected: Option<string>, t: Table, db: seq<Candidate>)
    requires Truthy(selected)
    ensures SelectedCandidate(selected, t, db).Some? <==>
              selected.value in t.byId || exists i :: 0 <= i < |db| && db[i].id == selected.value
  {
  }
}
