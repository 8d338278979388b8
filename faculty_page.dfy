/** The faculty dashboard (frontend/src/pages/facultypage.jsx): search and
    status filter over all requests, the status counters, the local patch
    after a status update, the approve/reject button gates, the CSV export,
    and the page state that login, refresh, selection, status update and
    logout change. */
module FacultyPage {
  import opened Wrappers
  import opened AsciiText
  import opened Sequences
  import opened RequestView
  import Csv

  // ---------------------------------------------------------------------------
  // Search and status filter
  // ---------------------------------------------------------------------------

  /** `(field?.toLowerCase() || "").includes(searchTerm.toLowerCase())`: an
      absent field reads as "". */
  predicate FieldMatches(field: Option<string>, searchTerm: string)
  {
    Contains(Lower(field.GetOr("")), Lower(searchTerm))
  }

  predicate SearchMatches(r: OdRequest, searchTerm: string)
  {
    FieldMatches(r.name, searchTerm) || FieldMatches(r.rollNo, searchTerm)
      || FieldMatches(r.studentEmail, searchTerm) || FieldMatches(r.reason, searchTerm)
  }

  predicate Keeps(r: OdRequest, searchTerm: string, filterStatus: string)
  {
    SearchMatches(r, searchTerm) && StatusMatches(r, filterStatus)
  }

  function Keep(searchTerm: string, filterStatus: string): OdRequest -> bool
  {
    (r: OdRequest) => Keeps(r, searchTerm, filterStatus)
  }

  /** `filteredRequests`: a filter only, no sort. */
  function FilteredRequests(odRequests: seq<OdRequest>, searchTerm: string, filterStatus: string)
    : seq<OdRequest>
  {
    Filter(odRequests, Keep(searchTerm, filterStatus))
  }

  /** The view keeps exactly the matching records, in collection order, each as
      often as in the collection, and only records of the filtered status
      unless the filter is "all". */
  lemma FilteredRequestsContents(odRequests: seq<OdRequest>, searchTerm: string, filterStatus: string)
    ensures var view := FilteredRequests(odRequests, searchTerm, filterStatus);
      && IsSubsequence(view, odRequests)
      && (forall x :: multiset(view)[x]
                        == if Keeps(x, searchTerm, filterStatus) then multiset(odRequests)[x] else 0)
      && (filterStatus != AnyStatus ==> forall i :: 0 <= i < |view| ==> view[i].status == filterStatus)
  {
    var view := FilteredRequests(odRequests, searchTerm, filterStatus);
    FilterIsSubsequence(odRequests, Keep(searchTerm, filterStatus));
    FilterMultiset(odRequests, Keep(searchTerm, filterStatus));
    forall i | 0 <= i < |view| ensures Keeps(view[i], searchTerm, filterStatus) {
      assert view[i] in view;
    }
  }

  /** With empty search text and the filter "all" every record is shown, in
      collection order, even one whose searched fields are all absent. */
  lemma EmptySearchKeepsAll(odRequests: seq<OdRequest>)
    ensures FilteredRequests(odRequests, "", AnyStatus) == odRequests
  {
    forall i | 0 <= i < |odRequests| ensures Keep("", AnyStatus)(odRequests[i]) {
      ContainsEmpty(Lower(odRequests[i].name.GetOr("")));
    }
    FilterKeepsAll(odRequests, Keep("", AnyStatus));
  }

  // ---------------------------------------------------------------------------
  // The local patch after a successful status update
  // ---------------------------------------------------------------------------

  function PatchOne(id: string, newStatus: string): OdRequest -> OdRequest
  {
    (r: OdRequest) => if r.id == id then r.(status := newStatus) else r
  }

  /** `prev.map(request => request._id === id ? {...request, status: newStatus} : request)`. */
  function PatchStatus(odRequests: seq<OdRequest>, id: string, newStatus: string): (r: seq<OdRequest>)
    ensures |r| == |odRequests|
    ensures forall i :: 0 <= i < |r| ==>
      r[i].(status := "") == odRequests[i].(status := "") && r[i].id == odRequests[i].id
    ensures forall i :: 0 <= i < |r| ==>
      r[i].status == if odRequests[i].id == id then newStatus else odRequests[i].status
  {
    Map(odRequests, PatchOne(id, newStatus))
  }

  /** Patching twice with the same status is patching once. */
  lemma PatchStatusIdempotent(odRequests: seq<OdRequest>, id: string, newStatus: string)
    ensures PatchStatus(PatchStatus(odRequests, id, newStatus), id, newStatus)
              == PatchStatus(odRequests, id, newStatus)
  {
  }

  /** When every entry with the id already has the status, nothing changes. */
  lemma PatchStatusNoChange(odRequests: seq<OdRequest>, id: string, newStatus: string)
    requires forall i :: 0 <= i < |odRequests| && odRequests[i].id == id ==> odRequests[i].status == newStatus
    ensures PatchStatus(odRequests, id, newStatus) == odRequests
  {
  }

  /** The effect of patching the single entry `k` that carries the id on the
      counter of one status `st`. */
  lemma PatchStatusCountOf(odRequests: seq<OdRequest>, id: string, newStatus: string, k: int, st: string)
    requires 0 <= k < |odRequests| && odRequests[k].id == id
    requires forall i :: 0 <= i < |odRequests| && i != k ==> odRequests[i].id != id
    ensures StatusCount(PatchStatus(odRequests, id, newStatus), st)
              + (if odRequests[k].status == st then 1 else 0)
            == StatusCount(odRequests, st) + (if newStatus == st then 1 else 0)
  {
    var s := odRequests;
    var a, b := s[..k], s[k + 1..];
    assert s == a + [s[k]] + b;
    assert PatchStatus(s, id, newStatus) == a + [s[k].(status := newStatus)] + b;
    CountAround(a, s[k], b, HasStatus(st));
    CountAround(a, s[k].(status := newStatus), b, HasStatus(st));
  }

  /** When one entry carries the id and its status changes from `o` to
      `newStatus`, the counter of `newStatus` grows by one, that of `o` drops
      by one and every other counter stays. */
  lemma PatchStatusCounts(odRequests: seq<OdRequest>, id: string, newStatus: string, k: int)
    requires 0 <= k < |odRequests| && odRequests[k].id == id
    requires forall i :: 0 <= i < |odRequests| && i != k ==> odRequests[i].id != id
    requires odRequests[k].status != newStatus
    ensures var r := PatchStatus(odRequests, id, newStatus);
      && StatusCount(r, newStatus) == StatusCount(odRequests, newStatus) + 1
      && StatusCount(r, odRequests[k].status) == StatusCount(odRequests, odRequests[k].status) - 1
      && (forall st :: st != newStatus && st != odRequests[k].status ==>
            StatusCount(r, st) == StatusCount(odRequests, st))
  {
    PatchStatusCountOf(odRequests, id, newStatus, k, newStatus);
    PatchStatusCountOf(odRequests, id, newStatus, k, odRequests[k].status);
    forall st | st != newStatus && st != odRequests[k].status
      ensures StatusCount(PatchStatus(odRequests, id, newStatus), st) == StatusCount(odRequests, st)
    {
      PatchStatusCountOf(odRequests, id, newStatus, k, st);
    }
  }

  // ---------------------------------------------------------------------------
  // Approve / Reject buttons
  // ---------------------------------------------------------------------------

  /** `disabled={selectedRequest.status === 'approved' || isLoading}`. */
  predicate ApproveDisabled(selected: OdRequest, isLoading: bool)
  {
    selected.status == Approved || isLoading
  }

  /** `disabled={selectedRequest.status === 'rejected' || isLoading}`. */
  predicate RejectDisabled(selected: OdRequest, isLoading: bool)
  {
    selected.status == Rejected || isLoading
  }

  /** The status a click on an enabled button requests always differs from the
      selection's status; the handler itself does not check this. */
  lemma EnabledButtonChangesStatus(selected: OdRequest, isLoading: bool)
    ensures !ApproveDisabled(selected, isLoading) ==> selected.status != Approved && !isLoading
    ensures !RejectDisabled(selected, isLoading) ==> selected.status != Rejected && !isLoading
    ensures selected.status == Approved ==> ApproveDisabled(selected, isLoading)
  {
  }

  // ---------------------------------------------------------------------------
  // CSV export
  // ---------------------------------------------------------------------------

  const CsvHeaders: seq<string> := ["Name", "Email", "Roll No", "Department", "Section",
                                    "Reason", "Venue", "Description", "Status", "Applied Date"]

  /** `"${value}"`: enclosed in quotes, inner quotes left as they are. */
  function QuoteField(v: string): string
  {
    [Csv.Quote] + v + [Csv.Quote]
  }

  /** The ten values of one record, absent ones as "". The applied date is
      rendered by `renderDate` (`toLocaleDateString`, outside this model). */
  function CsvValues(r: OdRequest, renderDate: int -> string): (vs: seq<string>)
    ensures |vs| == |CsvHeaders|
  {
    [r.name.GetOr(""), r.studentEmail.GetOr(""), r.rollNo.GetOr(""), r.deptName.GetOr(""),
     r.section.GetOr(""), r.reason.GetOr(""), r.venue.GetOr(""), r.description.GetOr(""),
     r.status, if r.appliedAt.Some? then renderDate(r.appliedAt.value) else ""]
  }

  function CsvRow(r: OdRequest, renderDate: int -> string): string
  {
    Join(Map(CsvValues(r, renderDate), QuoteField), Csv.Comma)
  }

  function CsvRowOf(renderDate: int -> string): OdRequest -> string
  {
    (r: OdRequest) => CsvRow(r, renderDate)
  }

  /** `csvData`: the header line, then one line per record in collection order. */
  function ExportCsv(odRequests: seq<OdRequest>, renderDate: int -> string): string
  {
    Join([Join(CsvHeaders, Csv.Comma)] + Map(odRequests, CsvRowOf(renderDate)), '\n')
  }

  /** Quoted values without inner quotes are read back by an RFC 4180 reader. */
  lemma {:induction false} QuotedValuesReadBack(values: seq<string>)
    requires |values| >= 1
    requires forall k :: 0 <= k < |values| ==> Csv.Quote !in values[k]
    ensures Csv.ParseRecord(Join(Map(values, QuoteField), Csv.Comma)) == Some(values)
    decreases |values|
  {
    var quoted := Map(values, QuoteField);
    var line := Join(quoted, Csv.Comma);
    if |values| == 1 {
      assert line == [Csv.Quote] + values[0] + [Csv.Quote];
      assert line[1..] == values[0] + [Csv.Quote] + "";
      Csv.QuotedBodyCloses(values[0], "");
      assert values == [values[0]];
    } else {
      var tail := Join(Map(values[1..], QuoteField), Csv.Comma);
      QuotedValuesReadBack(values[1..]);
      assert Map(values, QuoteField)[1..] == Map(values[1..], QuoteField);
      assert line == QuoteField(values[0]) + [Csv.Comma] + tail;
      assert line[1..] == values[0] + [Csv.Quote] + ([Csv.Comma] + tail);
      Csv.QuotedBodyCloses(values[0], [Csv.Comma] + tail);
      assert ([Csv.Comma] + tail)[1..] == tail;
      assert values == [values[0]] + values[1..];
    }
  }

  /** A row whose values hold no double quote reads back, field by field, as
      the record's ten values. */
  lemma CsvRowReadsBack(r: OdRequest, renderDate: int -> string)
    requires forall k :: 0 <= k < |CsvHeaders| ==> Csv.Quote !in CsvValues(r, renderDate)[k]
    ensures Csv.ParseRecord(CsvRow(r, renderDate)) == Some(CsvValues(r, renderDate))
  {
    QuotedValuesReadBack(CsvValues(r, renderDate));
  }

  /** Inner quotes are not doubled (RFC 4180 section 2, rule 7): a name such
      as `a"b` closes the enclosed field early and the row is not a record. */
  lemma CsvRowWithInnerQuoteUnreadable(r: OdRequest, renderDate: int -> string, x: string, y: string)
    requires r.name == Some(x + [Csv.Quote] + y)
    requires Csv.Quote !in x && y != [] && y[0] != Csv.Quote && y[0] != Csv.Comma
    ensures Csv.ParseRecord(CsvRow(r, renderDate)) == None
  {
    var values := CsvValues(r, renderDate);
    var tail := Join(Map(values[1..], QuoteField), Csv.Comma);
    assert Map(values, QuoteField)[1..] == Map(values[1..], QuoteField);
    var line := CsvRow(r, renderDate);
    assert line == [Csv.Quote] + (x + [Csv.Quote] + (y + [Csv.Quote] + [Csv.Comma] + tail));
    Csv.QuotedBodyCloses(x, y + [Csv.Quote] + [Csv.Comma] + tail);
  }

  lemma CsvRowAvoidsNewline(r: OdRequest, renderDate: int -> string)
    requires forall k :: 0 <= k < |CsvHeaders| ==> '\n' !in CsvValues(r, renderDate)[k]
    ensures '\n' !in CsvRow(r, renderDate)
  {
    var values := CsvValues(r, renderDate);
    var quoted := Map(values, QuoteField);
    forall m | 0 <= m < |quoted| ensures '\n' !in quoted[m] {
      assert quoted[m] == [Csv.Quote] + values[m] + [Csv.Quote];
    }
    JoinAvoids(quoted, Csv.Comma, '\n');
  }

  lemma HeaderAvoidsNewline()
    ensures '\n' !in Join(CsvHeaders, Csv.Comma)
  {
    forall k | 0 <= k < |CsvHeaders| ensures '\n' !in CsvHeaders[k] {
    }
    JoinAvoids(CsvHeaders, Csv.Comma, '\n');
  }

  lemma RowsAvoidNewline(odRequests: seq<OdRequest>, renderDate: int -> string)
    requires forall i, k :: 0 <= i < |odRequests| && 0 <= k < |CsvHeaders| ==>
               '\n' !in CsvValues(odRequests[i], renderDate)[k]
    ensures forall i :: 0 <= i < |odRequests| ==> '\n' !in Map(odRequests, CsvRowOf(renderDate))[i]
  {
    forall i | 0 <= i < |odRequests| ensures '\n' !in Map(odRequests, CsvRowOf(renderDate))[i] {
      CsvRowAvoidsNewline(odRequests[i], renderDate);
    }
  }

  /** When no value holds a line break, the export splits into the header line
      followed by exactly one row per record, in collection order. */
  lemma ExportCsvLines(odRequests: seq<OdRequest>, renderDate: int -> string)
    requires forall i, k :: 0 <= i < |odRequests| && 0 <= k < |CsvHeaders| ==>
               '\n' !in CsvValues(odRequests[i], renderDate)[k]
    ensures var lines := Split(ExportCsv(odRequests, renderDate), '\n');
      && |lines| == |odRequests| + 1
      && lines[0] == Join(CsvHeaders, Csv.Comma)
      && forall i :: 0 <= i < |odRequests| ==> lines[i + 1] == CsvRow(odRequests[i], renderDate)
  {
    var rows := Map(odRequests, CsvRowOf(renderDate));
    HeaderAvoidsNewline();
    RowsAvoidNewline(odRequests, renderDate);
    SplitOfJoinAfter(Join(CsvHeaders, Csv.Comma), rows, '\n');
  }

  // ---------------------------------------------------------------------------
  // Page state
  // ---------------------------------------------------------------------------

  datatype Credentials = Credentials(username: string, password: string)

  /** The password the page itself insists on, whatever the server answers. */
  const FacultyPassword := "admin123"

  /** `handleFacultyLogin` logs in only when the server accepted the
      credentials and the typed password is the page's own. */
  predicate LoginAccepted(responseOk: bool, credentials: Credentials)
  {
    responseOk && credentials.password == FacultyPassword
  }

  /** The component state the handlers change. `storedLoggedIn` and
      `storedUsername` are the `localStorage` entries "facultyLoggedIn" and
      "facultyUsername". Backend answers are parameters: a boolean for
      "response.ok", `Some(data)` / `None` for a list fetch. */
  class FacultyPortal {
    var isLoggedIn: bool
    var loginData: Credentials
    var odRequests: seq<OdRequest>
    var selected: Option<OdRequest>
    var storedLoggedIn: bool
    var storedUsername: Option<string>

    /** Mounting the page: a persisted login is resumed and the list fetched. */
    constructor (persistedLogin: bool, persistedUsername: Option<string>, fetched: Option<seq<OdRequest>>)
      ensures isLoggedIn == persistedLogin
      ensures odRequests == if persistedLogin then fetched.GetOr([]) else []
      ensures loginData == Credentials("", "") && selected == None
      ensures storedLoggedIn == persistedLogin && storedUsername == persistedUsername
    {
      isLoggedIn := persistedLogin;
      loginData := Credentials("", "");
      odRequests := if persistedLogin then fetched.GetOr([]) else [];
      selected := None;
      storedLoggedIn := persistedLogin;
      storedUsername := persistedUsername;
    }

    method EnterCredentials(credentials: Credentials)
      modifies this
      ensures loginData == credentials
      ensures isLoggedIn == old(isLoggedIn) && odRequests == old(odRequests) && selected == old(selected)
      ensures storedLoggedIn == old(storedLoggedIn) && storedUsername == old(storedUsername)
    {
      loginData := credentials;
    }

    /** `fetchAllODs`: a failed fetch keeps the collection it had. */
    method FetchAllODs(response: Option<seq<OdRequest>>)
      modifies this
      ensures odRequests == response.GetOr(old(odRequests))
      ensures isLoggedIn == old(isLoggedIn) && loginData == old(loginData) && selected == old(selected)
      ensures storedLoggedIn == old(storedLoggedIn) && storedUsername == old(storedUsername)
    {
      if response.Some? {
        odRequests := response.value;
      }
    }

    /** `handleFacultyLogin` once the server has answered (`responseOk`) and,
        when the login is accepted, the list fetch it starts has answered. */
    method HandleFacultyLogin(responseOk: bool, fetched: Option<seq<OdRequest>>)
      modifies this
      ensures var accepted := LoginAccepted(responseOk, old(loginData));
        && (accepted ==> isLoggedIn && storedLoggedIn && storedUsername == Some(loginData.username)
                         && odRequests == fetched.GetOr(old(odRequests)))
        && (!accepted ==> isLoggedIn == old(isLoggedIn) && storedLoggedIn == old(storedLoggedIn)
                          && storedUsername == old(storedUsername) && odRequests == old(odRequests))
      ensures loginData == old(loginData) && selected == old(selected)
    {
      if LoginAccepted(responseOk, loginData) {
        isLoggedIn := true;
        storedLoggedIn := true;
        storedUsername := Some(loginData.username);
        FetchAllODs(fetched);
      }
    }

    /** `handleLogout`: the collection itself is not cleared. */
    method HandleLogout()
      modifies this
      ensures !isLoggedIn && selected == None && loginData == Credentials("", "")
      ensures !storedLoggedIn && storedUsername == None
      ensures odRequests == old(odRequests)
    {
      isLoggedIn := false;
      selected := None;
      loginData := Credentials("", "");
      storedLoggedIn := false;
      storedUsername := None;
    }

    /** Clicking a row, and closing the details panel. */
    method Select(request: Option<OdRequest>)
      modifies this
      ensures selected == request
      ensures isLoggedIn == old(isLoggedIn) && loginData == old(loginData) && odRequests == old(odRequests)
      ensures storedLoggedIn == old(storedLoggedIn) && storedUsername == old(storedUsername)
    {
      selected := request;
    }

    /** `handleStatusUpdate(id, newStatus)` given the answer to the confirm
        dialog and whether the PATCH response was ok. */
    method HandleStatusUpdate(id: string, newStatus: string, confirmed: bool, responseOk: bool)
      modifies this
      ensures confirmed && responseOk ==> odRequests == PatchStatus(old(odRequests), id, newStatus)
      ensures confirmed && responseOk ==>
        selected == match old(selected)
                    case Some(s) => if s.id == id then Some(s.(status := newStatus)) else Some(s)
                    case None => None
      ensures !(confirmed && responseOk) ==> odRequests == old(odRequests) && selected == old(selected)
      ensures isLoggedIn == old(isLoggedIn) && loginData == old(loginData)
      ensures storedLoggedIn == old(storedLoggedIn) && storedUsername == old(storedUsername)
    {
      if !confirmed {
        return;
      }
      if !responseOk {
        return;
      }
      odRequests := PatchStatus(odRequests, id, newStatus);
      if selected.Some? && selected.value.id == id {
        selected := Some(selected.value.(status := newStatus));
      }
    }
  }
}
