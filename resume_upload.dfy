/**
 * The résumé upload form (src/components/ResumeUpload.jsx): which files it
 * accepts, the name it takes from a DOCX text, the e-mail and phone
 * validators, the ordered checks of the "missing information" dialog, and
 * the two ways a candidate gets added.
 *
 * The PDF and DOCX parsers and the regular-expression search for an e-mail
 * address and a phone number in the text are outside the model: their
 * results (the text, or `None` when parsing throws; the PDF name; the
 * found e-mail and phone) are parameters.
 */
module ResumeUpload {
  import opened Common
  import opened InterviewSlice
  import CandidatesSlice
  import UiSlice
  import InterviewChat
  import IntervieweePage

  // -----------------------------------------------------------------------
  // The file gate

  const PdfMime := "application/pdf"
  const DocxMime := "application/vnd.openxmlformats-officedocument.wordprocessingml.document"

  /** How `handleFile` reads a file: as a PDF, as a DOCX, or not at all. */
  datatype FileKind = Pdf | Docx | Unsupported

  /** The type test of `handleFile`: the PDF type first, then the DOCX type or a ".docx" name. */
  function Classify(mime: string, fileName: string): (k: FileKind)
    ensures k == Pdf <==> mime == PdfMime
    ensures k != Unsupported <==> mime == PdfMime || mime == DocxMime || IsSuffix(".docx", fileName)
  {
    if mime == PdfMime then Pdf
    else if mime == DocxMime || IsSuffix(".docx", fileName) then Docx
    else Unsupported
  }

  // -----------------------------------------------------------------------
  // The name of a DOCX résumé

  /** `s.split("\n")`: the pieces between line breaks, in order; there is always at least one. */
  function SplitLines(s: string): (r: seq<string>)
    ensures |r| >= 1
    ensures forall i :: 0 <= i < |r| ==> '\n' !in r[i]
    decreases |s|
  {
    if s == [] then [""]
    else
      var rest := SplitLines(s[1..]);
      if s[0] == '\n' then [""] + rest
      else [[s[0]] + rest[0]] + rest[1..]
  }

  /** `lines.join("\n")`. */
  function JoinLines(ls: seq<string>): string
    requires |ls| >= 1
    decreases |ls|
  {
    if |ls| == 1 then ls[0] else ls[0] + "\n" + JoinLines(ls[1..])
  }

  /** Splitting loses nothing: joining the pieces back with line breaks gives the text. */
  lemma {:induction false} SplitThenJoin(s: string)
    ensures JoinLines(SplitLines(s)) == s
    decreases |s|
  {
    if s != [] {
      var rest := SplitLines(s[1..]);
      SplitThenJoin(s[1..]);
      if s[0] == '\n' {
        assert SplitLines(s) == [""] + rest;
        assert SplitLines(s)[1..] == rest;
        assert JoinLines(SplitLines(s)) == "" + "\n" + s[1..];
        assert s == [s[0]] + s[1..];
      } else if |rest| == 1 {
        assert JoinLines(SplitLines(s)) == [s[0]] + rest[0];
        assert s == [s[0]] + s[1..];
      } else {
        var r := SplitLines(s);
        assert r[0] == [s[0]] + rest[0] && r[1..] == rest[1..];
        assert JoinLines(rest) == rest[0] + "\n" + JoinLines(rest[1..]);
        assert JoinLines(r) == [s[0]] + rest[0] + "\n" + JoinLines(rest[1..]);
        assert s == [s[0]] + s[1..];
      }
    }
  }

  /** Every character is JavaScript white space. */
  predicate Blank(s: string) {
    forall i :: 0 <= i < |s| ==> IsJsWhitespace(s[i])
  }

  /** A line that `filter(Boolean)` drops once trimmed. */
  predicate BlankLine(l: string) {
    Trim(l) == ""
  }

  /** `lines.map((l) => l.trim()).filter(Boolean)[0] || ""`. */
  function FirstFilled(ls: seq<string>): string {
    if ls == [] then ""
    else if !BlankLine(ls[0]) then Trim(ls[0])
    else FirstFilled(ls[1..])
  }

  /** The position of the first line whose trim is not empty, or the number of lines when there is none. */
  function FirstFilledAt(ls: seq<string>): (i: nat)
    ensures i <= |ls|
    ensures forall j :: 0 <= j < i ==> BlankLine(ls[j])
    ensures i < |ls| ==> !BlankLine(ls[i])
  {
    if ls == [] || !BlankLine(ls[0]) then 0
    else
      var k := FirstFilledAt(ls[1..]);
      assert forall j :: 1 <= j < 1 + k ==> ls[j] == ls[1..][j - 1];
      1 + k
  }

  /**
   * The result is the trim of the first line whose trim is not empty, and
   * "" exactly when every line is blank.
   */
  lemma {:induction false} FirstFilledSpec(ls: seq<string>)
    ensures FirstFilled(ls) == if FirstFilledAt(ls) < |ls| then Trim(ls[FirstFilledAt(ls)]) else ""
    ensures FirstFilled(ls) == "" <==> forall i :: 0 <= i < |ls| ==> BlankLine(ls[i])
  {
    if ls != [] && BlankLine(ls[0]) {
      var tail := ls[1..];
      FirstFilledSpec(tail);
      if FirstFilledAt(tail) < |tail| {
        assert ls[FirstFilledAt(ls)] == tail[FirstFilledAt(tail)];
      }
    }
  }

  /** `extractNameFromDOCX` on the extracted text: the first line that is not blank, trimmed. */
  function NameFromDocx(text: string): string {
    FirstFilled(SplitLines(text))
  }

  /** A text is blank exactly when all its lines are. */
  lemma {:induction false} BlankJoin(ls: seq<string>)
    requires |ls| >= 1
    ensures Blank(JoinLines(ls)) <==> forall i :: 0 <= i < |ls| ==> Blank(ls[i])
    decreases |ls|
  {
    if |ls| > 1 {
      BlankJoin(ls[1..]);
      var tail := JoinLines(ls[1..]);
      var whole := ls[0] + "\n" + tail;
      assert JoinLines(ls) == whole;
      assert forall k :: 0 <= k < |ls[0]| ==> whole[k] == ls[0][k];
      assert forall k :: 0 <= k < |tail| ==> whole[|ls[0]| + 1 + k] == tail[k];
      assert forall i :: 1 <= i < |ls| ==> ls[i] == ls[1..][i - 1];
      if Blank(whole) {
        assert Blank(ls[0]) by {
          forall k | 0 <= k < |ls[0]|
            ensures IsJsWhitespace(ls[0][k])
          {
            assert whole[k] == ls[0][k];
          }
        }
        assert Blank(tail) by {
          forall k | 0 <= k < |tail|
            ensures IsJsWhitespace(tail[k])
          {
            assert whole[|ls[0]| + 1 + k] == tail[k];
          }
        }
      }
      if forall i :: 0 <= i < |ls| ==> Blank(ls[i]) {
        assert Blank(ls[0]);
        assert Blank(tail);
        forall k | 0 <= k < |whole|
          ensures IsJsWhitespace(whole[k])
        {
          if k < |ls[0]| {
            assert whole[k] == ls[0][k];
          } else if k > |ls[0]| {
            assert whole[k] == tail[k - |ls[0]| - 1];
          }
        }
      }
    }
  }

  /** The DOCX name is empty exactly when the whole text is white space. */
  lemma DocxNameEmptyIff(text: string)
    ensures NameFromDocx(text) == "" <==> Blank(text)
  {
    var ls := SplitLines(text);
    SplitThenJoin(text);
    BlankJoin(ls);
    FirstFilledSpec(ls);
    forall i | 0 <= i < |ls|
      ensures BlankLine(ls[i]) <==> Blank(ls[i])
    {
      TrimEmptyIff(ls[i]);
    }
  }

  /** A non-empty trim starts and ends with a character that is not white space, and takes its characters from the input. */
  lemma TrimIsSolid(s: string)
    requires Trim(s) != ""
    ensures var n := Trim(s);
            !IsJsWhitespace(n[0]) && !IsJsWhitespace(n[|n| - 1]) && forall k :: 0 <= k < |n| ==> n[k] in s
  {
    var front := TrimStart(s);
    var n := TrimEnd(front);
    TrimStartSpec(s);
    TrimEndSpec(front);
    assert n == front[..|n|];
    assert front == s[|s| - |front|..];
    assert n[0] == front[0];
    forall k | 0 <= k < |n|
      ensures n[k] in s
    {
      assert n[k] == s[|s| - |front| + k];
    }
  }

  /** A non-empty DOCX name is a trimmed line: it has no line break and no white space at either end. */
  lemma DocxNameIsOneTrimmedLine(text: string)
    requires NameFromDocx(text) != ""
    ensures var n := NameFromDocx(text);
            '\n' !in n && !IsJsWhitespace(n[0]) && !IsJsWhitespace(n[|n| - 1])
  {
    var ls := SplitLines(text);
    var n := NameFromDocx(text);
    FirstFilledSpec(ls);
    var i := FirstFilledAt(ls);
    TrimIsSolid(ls[i]);
    assert '\n' !in ls[i];
  }

  // -----------------------------------------------------------------------
  // The validators

  /** A character of the class `[^\s@]`. */
  predicate PlainChar(c: char) {
    !IsJsWhitespace(c) && c != '@'
  }

  /** The pattern `[^\s@]+`. */
  predicate PlainRun(s: string) {
    |s| > 0 && forall i :: 0 <= i < |s| ==> PlainChar(s[i])
  }

  /** `s` matches `^[^\s@]+@[^\s@]+\.[^\s@]+$` with the '@' at `k` and the '.' at `j`. */
  predicate EmailSplit(s: string, k: int, j: int) {
    0 <= k < j < |s| && s[k] == '@' && s[j] == '.'
    && PlainRun(s[..k]) && PlainRun(s[k + 1..j]) && PlainRun(s[j + 1..])
  }

  /** `isValidEmail`: the pattern matches for some placement of the '@' and the '.'. */
  predicate IsValidEmail(s: string) {
    exists k, j | 0 <= k < |s| && 0 <= j < |s| :: EmailSplit(s, k, j)
  }

  /** `s` holds an '@' at position `k` and nowhere else. */
  predicate OnlyAt(s: string, k: int) {
    0 <= k < |s| && s[k] == '@' && forall i :: 0 <= i < |s| && i != k ==> s[i] != '@'
  }

  /** A '.' that is neither the first nor the last character of `d`. */
  predicate InnerDot(d: string) {
    exists m :: 0 < m < |d| - 1 && d[m] == '.'
  }

  /**
   * The address rule without the pattern: no white space, exactly one '@',
   * something before it, and after it a '.' that is neither first nor last.
   */
  predicate EmailRule(s: string) {
    NoWhitespace(s) && exists k | 0 < k < |s| :: OnlyAt(s, k) && InnerDot(s[k + 1..])
  }

  /** A match of the pattern follows the rule. */
  lemma EmailMatchFollowsRule(s: string)
    requires IsValidEmail(s)
    ensures EmailRule(s)
  {
    var k, j :| 0 <= k < |s| && 0 <= j < |s| && EmailSplit(s, k, j);
    forall i | 0 <= i < |s|
      ensures !IsJsWhitespace(s[i]) && (i != k ==> s[i] != '@')
    {
      if i < k {
        assert s[..k][i] == s[i];
      } else if k < i < j {
        assert s[k + 1..j][i - k - 1] == s[i];
      } else if j < i {
        assert s[j + 1..][i - j - 1] == s[i];
      }
    }
    assert OnlyAt(s, k);
    var d := s[k + 1..];
    assert d[j - k - 1] == '.';
    assert InnerDot(d);
  }

  /** An address that follows the rule matches the pattern. */
  lemma EmailRuleMatches(s: string)
    requires EmailRule(s)
    ensures IsValidEmail(s)
  {
    var k :| 0 < k < |s| && OnlyAt(s, k) && InnerDot(s[k + 1..]);
    var d := s[k + 1..];
    var m :| 0 < m < |d| - 1 && d[m] == '.';
    var j := k + 1 + m;
    assert s[j] == '.';
    assert PlainRun(s[..k]) by {
      forall i | 0 <= i < k
        ensures PlainChar(s[..k][i])
      {
        assert s[..k][i] == s[i];
      }
    }
    assert PlainRun(s[k + 1..j]) by {
      var mid := s[k + 1..j];
      forall i | 0 <= i < |mid|
        ensures PlainChar(mid[i])
      {
        assert mid[i] == s[k + 1 + i];
      }
    }
    assert PlainRun(s[j + 1..]) by {
      var top := s[j + 1..];
      forall i | 0 <= i < |top|
        ensures PlainChar(top[i])
      {
        assert top[i] == s[j + 1 + i];
      }
    }
    assert EmailSplit(s, k, j);
  }

  /** The pattern of `isValidEmail` accepts exactly the addresses that follow the rule. */
  lemma EmailIff(s: string)
    ensures IsValidEmail(s) <==> EmailRule(s)
  {
    if IsValidEmail(s) {
      EmailMatchFollowsRule(s);
    }
    if EmailRule(s) {
      EmailRuleMatches(s);
    }
  }

  /** The pattern `\d{lo,hi}$`: at least `lo` and at most `hi` decimal digits, then the end. */
  predicate DigitsThenEnd(s: string, lo: nat, hi: nat)
    decreases |s|
  {
    if s == [] then lo == 0
    else hi > 0 && IsDigit(s[0]) && DigitsThenEnd(s[1..], if lo == 0 then 0 else lo - 1, hi - 1)
  }

  /** `isValidPhone`: `/^\d{6,15}$/.test(s)`. */
  predicate IsValidPhone(s: string) {
    DigitsThenEnd(s, 6, 15)
  }

  /** The bounded repetition accepts exactly the all-digit strings of an allowed length. */
  lemma {:induction false} DigitsThenEndIff(s: string, lo: nat, hi: nat)
    ensures DigitsThenEnd(s, lo, hi) <==> lo <= |s| <= hi && AllDigits(s)
    decreases |s|
  {
    if s != [] && hi > 0 {
      DigitsThenEndIff(s[1..], if lo == 0 then 0 else lo - 1, hi - 1);
      assert forall i :: 1 <= i < |s| ==> s[i] == s[1..][i - 1];
      if AllDigits(s) {
        assert AllDigits(s[1..]) by {
          forall i | 0 <= i < |s[1..]|
            ensures IsDigit(s[1..][i])
          {
            assert s[1..][i] == s[i + 1];
          }
        }
      }
    }
  }

  /** A valid phone number is exactly a string of 6 to 15 decimal digits. */
  lemma PhoneIff(s: string)
    ensures IsValidPhone(s) <==> 6 <= |s| <= 15 && AllDigits(s)
  {
    DigitsThenEndIff(s, 6, 15);
  }

  /** A string whose ends are not white space is its own trim. */
  lemma TrimKeepsSolid(s: string)
    requires s != [] && !IsJsWhitespace(s[0]) && !IsJsWhitespace(s[|s| - 1])
    ensures Trim(s) == s
  {
    assert TrimStart(s) == s;
  }

  /** Valid addresses and phone numbers carry no surrounding white space, so trimming keeps them. */
  lemma ValidValuesAreTrimmed(email: string, phone: string)
    ensures IsValidEmail(email) ==> Trim(email) == email
    ensures IsValidPhone(phone) ==> Trim(phone) == phone
  {
    if IsValidEmail(email) {
      EmailIff(email);
      TrimKeepsSolid(email);
    }
    if IsValidPhone(phone) {
      PhoneIff(phone);
      TrimKeepsSolid(phone);
    }
  }

  // -----------------------------------------------------------------------
  // The "missing information" dialog

  /** The three fields the form collects. */
  datatype Fields = Fields(name: string, email: string, phone: string)

  /** What the dialog's submit button does: one of three refusals, or the trimmed fields to add. */
  datatype ModalResult = MissingField | BadEmail | BadPhone | Accepted(fields: Fields)

  /** The three fields, each passed through `trim()`. */
  function TrimFields(f: Fields): Fields {
    Fields(Trim(f.name), Trim(f.email), Trim(f.phone))
  }

  /** The checks of `handleModalSubmit`, in order, on fields already trimmed. */
  function CheckTrimmed(t: Fields): ModalResult {
    if t.name == "" || t.email == "" || t.phone == "" then MissingField
    else if !IsValidEmail(t.email) then BadEmail
    else if !IsValidPhone(t.phone) then BadPhone
    else Accepted(t)
  }

  /** The dialog's submit button: trim, then check. */
  function CheckModal(f: Fields): ModalResult {
    CheckTrimmed(TrimFields(f))
  }

  /**
   * The dialog first refuses a blank field, then a bad address, then a bad
   * phone number; it accepts exactly the fields that pass all three, and
   * then adds them trimmed.
   */
  lemma ModalCheckOrder(f: Fields)
    ensures CheckModal(f) == MissingField <==> Blank(f.name) || Blank(f.email) || Blank(f.phone)
    ensures CheckModal(f) == BadEmail <==>
              !Blank(f.name) && !Blank(f.email) && !Blank(f.phone) && !EmailRule(Trim(f.email))
    ensures CheckModal(f) == BadPhone <==>
              !Blank(f.name) && !Blank(f.email) && !Blank(f.phone) && EmailRule(Trim(f.email))
              && !(6 <= |Trim(f.phone)| <= 15 && AllDigits(Trim(f.phone)))
    ensures CheckModal(f).Accepted? ==>
              CheckModal(f).fields == Fields(Trim(f.name), Trim(f.email), Trim(f.phone))
              && Trim(f.name) != "" && EmailRule(Trim(f.email))
              && 6 <= |Trim(f.phone)| <= 15 && AllDigits(Trim(f.phone))
  {
    TrimEmptyIff(f.name);
    TrimEmptyIff(f.email);
    TrimEmptyIff(f.phone);
    EmailIff(Trim(f.email));
    PhoneIff(Trim(f.phone));
  }

  /** Trimming twice is trimming once. */
  lemma TrimIdempotent(s: string)
    ensures Trim(Trim(s)) == Trim(s)
  {
    if Trim(s) != "" {
      TrimIsSolid(s);
      TrimKeepsSolid(Trim(s));
    }
  }

  /** Submitting the accepted fields again gives the same result: the checks are stable under trimming. */
  lemma AcceptedFieldsPassAgain(f: Fields)
    requires CheckModal(f).Accepted?
    ensures CheckModal(CheckModal(f).fields) == CheckModal(f)
  {
    TrimIdempotent(f.name);
    TrimIdempotent(f.email);
    TrimIdempotent(f.phone);
    assert TrimFields(TrimFields(f)) == TrimFields(f);
  }

  // -----------------------------------------------------------------------
  // Adding the candidate

  /** The `addCandidate` payload both paths build: the three fields and the status "not-started". */
  function Payload(f: Fields): (p: CandidatesSlice.NewCandidate)
    ensures p.name == f.name && p.email == f.email && p.phone == f.phone && p.status == Some("not-started")
    ensures p.score.None? && p.summary.None? && p.chatHistory.None? && p.answers.None?
  {
    CandidatesSlice.NewCandidate(f.name, f.email, f.phone, Some("not-started"), None, None, None, None)
  }

  /**
   * `newCandidate.payload.id` as written: the action `addCandidate(...)`
   * returns carries the object it was given, which has no `id` key (the
   * identifier is drawn inside the reducer), so the selection is undefined.
   */
  function PayloadId(p: CandidatesSlice.NewCandidate): Option<string> {
    None
  }

  /**
   * With the selection left undefined, the interview credits the open
   * candidate with the greatest id: here an earlier candidate "z" instead
   * of the new candidate "a".
   */
  lemma PayloadIdCreditsAnotherCandidate()
    ensures var earlier := Payload(Fields("Zoe", "zoe@x.io", "5550001"));
            var added := Payload(Fields("Al", "al@x.io", "5550002"));
            var t := CandidatesSlice.Initial().Add(earlier, "z").Add(added, "a");
            InterviewChat.CreditTarget(PayloadId(added), t) == Some("z")
  {
    var earlier := Payload(Fields("Zoe", "zoe@x.io", "5550001"));
    var added := Payload(Fields("Al", "al@x.io", "5550002"));
    var t := CandidatesSlice.Initial().Add(earlier, "z").Add(added, "a");
    assert t.allIds == ["z", "a"];
    assert InterviewChat.IsOpen(t.byId["z"]);
    var r := InterviewChat.MostRecentOpen(t.allIds, t.byId);
    assert t.allIds[0] == "z";
    assert LexLe("z", r.value);
    assert !LexLe("z", "a");
  }

  /** Selecting the drawn id instead makes the interview credit the candidate just added. */
  lemma SelectingFreshIdCreditsNewCandidate(t: CandidatesSlice.Table, p: CandidatesSlice.NewCandidate, freshId: string)
    requires InterviewChat.Listed(t) && freshId != ""
    ensures InterviewChat.Listed(t.Add(p, freshId))
    ensures InterviewChat.CreditTarget(Some(freshId), t.Add(p, freshId)) == Some(freshId)
    ensures var r := t.Add(p, freshId).byId[freshId];
            r.name == p.name && r.email == p.email && r.phone == p.phone
  {
  }

  /**
   * What both handlers do once the fields are settled, as written: adds the
   * candidate under the drawn id, selects `newCandidate.payload.id` (which is
   * undefined), discards the old session and stores the résumé text.
   */
  method StartCandidateAsWritten(p: CandidatesSlice.NewCandidate, freshId: string, text: string,
                                 table: CandidatesSlice.CandidateTable, ui: UiSlice.UiStore, store: InterviewStore)
    requires freshId !in table.byId && freshId !in table.allIds
    modifies table, ui, store
    ensures table.Data() == old(table.Data()).Add(p, freshId)
    ensures ui.Data() == old(ui.Data()).SetSelectedCandidate(PayloadId(p))
    ensures store.Data() == old(store.Data()).ResetInterview().SetResumeText(text)
  {
    table.AddCandidate(p, freshId);
    ui.SetSelectedCandidate(PayloadId(p));
    store.ResetInterview();
    store.SetResumeText(text);
  }

  /**
   * The corrected start: as `StartCandidateAsWritten`, but the selection is
   * the id the candidate is stored under.
   */
  method StartCandidate(p: CandidatesSlice.NewCandidate, freshId: string, text: string,
                        table: CandidatesSlice.CandidateTable, ui: UiSlice.UiStore, store: InterviewStore)
    requires freshId !in table.byId && freshId !in table.allIds
    modifies table, ui, store
    ensures table.Data() == old(table.Data()).Add(p, freshId)
    ensures ui.Data() == old(ui.Data()).SetSelectedCandidate(Some(freshId))
    ensures store.Data() == old(store.Data()).ResetInterview().SetResumeText(text)
  {
    table.AddCandidate(p, freshId);
    ui.SetSelectedCandidate(Some(freshId));
    store.ResetInterview();
    store.SetResumeText(text);
  }

  /**
   * The dialog path never stores a résumé text (`candidateData.text` is
   * never set), so the session it starts is never offered for
   * continuation, however far it gets.
   */
  lemma ModalSessionNeverOffered(s: Interview, qs: seq<Question>, started: nat, now: int)
    ensures var begun := s.ResetInterview().SetResumeText("").SetQuestions(qs, started);
            begun.resumeText == "" && IntervieweePage.CheckGate(begun, now) == IntervieweePage.NoSession
  {
  }

  // -----------------------------------------------------------------------
  // Handling a chosen file

  /** The chosen file: its MIME type and its name. */
  datatype Upload = Upload(mime: string, fileName: string)

  /** What `handleFile` ends in. */
  datatype FileStep =
    | NoFile
    | Refused
    | ParseFailed
    | AskMissing(found: Fields)
    | Admitted(found: Fields, text: string)

  /** The name `handleFile` works with: the PDF heuristic's for a PDF, else the DOCX text's first line. */
  function FoundName(u: Upload, text: string, pdfName: string): string {
    if u.mime == PdfMime then pdfName else NameFromDocx(text)
  }

  /**
   * `handleFile`: no file, an unsupported type or a parser failure end it;
   * otherwise the name (the PDF heuristic's, or the DOCX text's first
   * line), the e-mail and the phone either all have a value and the
   * candidate is added, or the dialog asks for the missing ones.
   */
  function FileOutcome(file: Option<Upload>, text: Option<string>, pdfName: string, email: string, phone: string): (r: FileStep)
    ensures r.AskMissing? || r.Admitted? <==>
              file.Some? && Classify(file.value.mime, file.value.fileName) != Unsupported && text.Some?
    ensures r.AskMissing? || r.Admitted? ==>
              r.found == Fields(FoundName(file.value, text.value, pdfName), email, phone)
    ensures r.Admitted? <==> (r.AskMissing? || r.Admitted?) && r.found.name != "" && email != "" && phone != ""
    ensures r.Admitted? ==> r.text == text.value
  {
    if file.None? then NoFile
    else
      var kind := Classify(file.value.mime, file.value.fileName);
      if kind == Unsupported then Refused
      else if text.None? then ParseFailed
      else
        var name := FoundName(file.value, text.value, pdfName);
        var found := Fields(name, email, phone);
        if name == "" || email == "" || phone == "" then AskMissing(found) else Admitted(found, text.value)
  }

  /** A DOCX upload whose text is all white space always opens the dialog, whatever else was found. */
  lemma BlankDocxAsksForName(u: Upload, text: string, email: string, phone: string)
    requires u.mime != PdfMime && IsSuffix(".docx", u.fileName) && Blank(text)
    ensures FileOutcome(Some(u), Some(text), "", email, phone) == AskMissing(Fields("", email, phone))
  {
    DocxNameEmptyIff(text);
  }

  /** The form's local state. */
  class ResumeUploadForm {
    var missingFields: Fields
    var modalVisible: bool
    var candidateData: Fields

    /** The initial `{}` objects read as empty fields. */
    constructor ()
      ensures missingFields == Fields("", "", "") && !modalVisible && candidateData == Fields("", "", "")
    {
      missingFields := Fields("", "", "");
      modalVisible := false;
      candidateData := Fields("", "", "");
    }

    /**
     * `handleFile`, with the parser results and the drawn id as parameters;
     * on the add path the selection is set to `newCandidate.payload.id`,
     * which is undefined.
     */
    method HandleFile(file: Option<Upload>, text: Option<string>, pdfName: string, email: string, phone: string,
                      freshId: string, table: CandidatesSlice.CandidateTable, ui: UiSlice.UiStore, store: InterviewStore)
      requires freshId !in table.byId && freshId !in table.allIds
      modifies this, table, ui, store
      ensures var step := FileOutcome(file, text, pdfName, email, phone);
              && (step.AskMissing? ==>
                    candidateData == step.found && missingFields == step.found && modalVisible
                    && table.Data() == old(table.Data()) && ui.Data() == old(ui.Data()) && store.Data() == old(store.Data()))
              && (step.Admitted? ==>
                    candidateData == step.found && missingFields == old(missingFields) && modalVisible == old(modalVisible)
                    && table.Data() == old(table.Data()).Add(Payload(step.found), freshId)
                    && ui.Data() == old(ui.Data()).SetSelectedCandidate(PayloadId(Payload(step.found)))
                    && store.Data() == old(store.Data()).ResetInterview().SetResumeText(step.text))
              && (!step.AskMissing? && !step.Admitted? ==>
                    candidateData == old(candidateData) && missingFields == old(missingFields) && modalVisible == old(modalVisible)
                    && table.Data() == old(table.Data()) && ui.Data() == old(ui.Data()) && store.Data() == old(store.Data()))
    {
      var step := FileOutcome(file, text, pdfName, email, phone);
      if step.AskMissing? {
        candidateData := step.found;
        missingFields := step.found;
        modalVisible := true;
      } else if step.Admitted? {
        candidateData := step.found;
        StartCandidateAsWritten(Payload(step.found), freshId, step.text, table, ui, store);
      }
    }

    /** Typing into one of the dialog's inputs. */
    method EditName(value: string)
      modifies this`missingFields
      ensures missingFields == old(missingFields).(name := value)
    {
      missingFields := missingFields.(name := value);
    }

    method EditEmail(value: string)
      modifies this`missingFields
      ensures missingFields == old(missingFields).(email := value)
    {
      missingFields := missingFields.(email := value);
    }

    method EditPhone(value: string)
      modifies this`missingFields
      ensures missingFields == old(missingFields).(phone := value)
    {
      missingFields := missingFields.(phone := value);
    }

    /** The dialog's cancel button. */
    method Cancel()
      modifies this`modalVisible
      ensures !modalVisible
    {
      modalVisible := false;
    }

    /**
     * `handleModalSubmit`: a refused check changes nothing; accepted fields
     * are added and start a fresh session whose résumé text is "", and the
     * selection is set to `newCandidate.payload.id`, which is undefined.
     */
    method HandleModalSubmit(freshId: string, table: CandidatesSlice.CandidateTable, ui: UiSlice.UiStore,
                             store: InterviewStore)
      requires freshId !in table.byId && freshId !in table.allIds
      modifies this`modalVisible, table, ui, store
      ensures var r := CheckModal(old(missingFields));
              && (!r.Accepted? ==>
                    modalVisible == old(modalVisible)
                    && table.Data() == old(table.Data()) && ui.Data() == old(ui.Data()) && store.Data() == old(store.Data()))
              && (r.Accepted? ==>
                    !modalVisible
                    && table.Data() == old(table.Data()).Add(Payload(r.fields), freshId)
                    && ui.Data() == old(ui.Data()).SetSelectedCandidate(PayloadId(Payload(r.fields)))
                    && store.Data() == old(store.Data()).ResetInterview().SetResumeText(""))
    {
      var r := CheckModal(missingFields);
      if r.Accepted? {
        StartCandidateAsWritten(Payload(r.fields), freshId, "", table, ui, store);
        modalVisible := false;
      }
    }
  }
}
