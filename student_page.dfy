/** The student portal page (frontend/src/pages/Studentpage.jsx): the history
    view's search, status filter, sort and counters, the profile it derives
    from the login e-mail, and the page state that login, submission,
    refresh and logout change. */
module StudentPage {
  import opened Wrappers
  import opened AsciiText
  import opened Sequences
  import opened RequestView

  // ---------------------------------------------------------------------------
  // Search and status filter
  // ---------------------------------------------------------------------------

  /** `field?.toLowerCase().includes(searchTerm.toLowerCase())`: an absent
      field never matches, not even the empty search text. */
  predicate FieldMatches(field: Option<string>, searchTerm: string)
  {
    field.Some? && Contains(Lower(field.value), Lower(searchTerm))
  }

  predicate SearchMatches(r: OdRequest, searchTerm: string)
  {
    FieldMatches(r.venue, searchTerm) || FieldMatches(r.reason, searchTerm)
      || FieldMatches(r.description, searchTerm)
  }

  predicate Keeps(r: OdRequest, searchTerm: string, statusFilter: string)
  {
    SearchMatches(r, searchTerm) && StatusMatches(r, statusFilter)
  }

  function Keep(searchTerm: string, statusFilter: string): OdRequest -> bool
  {
    (r: OdRequest) => Keeps(r, searchTerm, statusFilter)
  }

  /** With empty search text a record is searchable iff one of venue, reason
      and description is present. */
  lemma EmptySearchMatches(r: OdRequest)
    ensures SearchMatches(r, "") <==> r.venue.Some? || r.reason.Some? || r.description.Some?
  {
    if r.venue.Some? { ContainsEmpty(Lower(r.venue.value)); }
    if r.reason.Some? { ContainsEmpty(Lower(r.reason.value)); }
    if r.description.Some? { ContainsEmpty(Lower(r.description.value)); }
  }

  /** The search text ignores letter case: typing it in capitals or in small
      letters finds the same records. */
  lemma SearchIgnoresCase(r: OdRequest, searchTerm: string)
    ensures SearchMatches(r, Upper(searchTerm)) <==> SearchMatches(r, searchTerm)
    ensures SearchMatches(r, Lower(searchTerm)) <==> SearchMatches(r, searchTerm)
  {
    LowerOfUpper(searchTerm);
    LowerIdempotent(searchTerm);
  }

  /** How a field's letters are rewritten: kept, in capitals, in small letters. */
  datatype Recase = AsIs | Capitals | Small

  function Recased(field: Option<string>, c: Recase): Option<string>
  {
    match field
    case None => None
    case Some(v) => Some(match c case AsIs => v case Capitals => Upper(v) case Small => Lower(v))
  }

  /** The searched fields ignore letter case too: rewriting any of venue,
      reason and description in capitals or in small letters finds the same
      records. */
  lemma SearchIgnoresFieldCase(r: OdRequest, searchTerm: string, venue: Recase, reason: Recase,
                               description: Recase)
    ensures var recased := r.(venue := Recased(r.venue, venue), reason := Recased(r.reason, reason),
                              description := Recased(r.description, description));
      SearchMatches(recased, searchTerm) <==> SearchMatches(r, searchTerm)
  {
    RecasedMatches(r.venue, venue, searchTerm);
    RecasedMatches(r.reason, reason, searchTerm);
    RecasedMatches(r.description, description, searchTerm);
  }

  lemma RecasedMatches(field: Option<string>, c: Recase, searchTerm: string)
    ensures FieldMatches(Recased(field, c), searchTerm) <==> FieldMatches(field, searchTerm)
  {
    if field.Some? {
      LowerOfUpper(field.value);
      LowerIdempotent(field.value);
    }
  }

  // ---------------------------------------------------------------------------
  // Sorting
  // ---------------------------------------------------------------------------

  datatype SortOrder = DateDesc | DateAsc | ByStatus | Unsorted

  /** The `switch (sortBy)` of the comparator: any other key compares every
      pair as equal. */
  function OrderOf(sortBy: string): (o: SortOrder)
    ensures o == Unsorted <==> sortBy !in {"date-desc", "date-asc", "status"}
  {
    if sortBy == "date-desc" then DateDesc
    else if sortBy == "date-asc" then DateAsc
    else if sortBy == "status" then ByStatus
    else Unsorted
  }

  /** `a.applied_at || a.date`; `None` when both are missing. */
  function TimeKey(r: OdRequest): Option<int>
  {
    if r.appliedAt.Some? then r.appliedAt else r.date
  }

  /** Strictly earlier; a missing timestamp (JavaScript's invalid date) is
      placed before every present one. */
  predicate Earlier(a: Option<int>, b: Option<int>)
  {
    match (a, b)
    case (None, Some(_)) => true
    case (Some(x), Some(y)) => x < y
    case _ => false
  }

  /** Lexicographic order of code points, the order `localeCompare` gives
      the three lower-case statuses ("approved" < "pending" < "rejected"). */
  predicate LexLess(a: string, b: string)
    decreases |a|
  {
    if a == [] then b != []
    else if b == [] then false
    else if a[0] != b[0] then a[0] < b[0]
    else LexLess(a[1..], b[1..])
  }

  lemma {:induction false} LexLessIrreflexive(a: string)
    ensures !LexLess(a, a)
    decreases |a|
  {
    if a != [] { LexLessIrreflexive(a[1..]); }
  }

  lemma {:induction false} LexLessTransitive(a: string, b: string, c: string)
    requires LexLess(a, b) && LexLess(b, c)
    ensures LexLess(a, c)
    decreases |a|
  {
    if a != [] && b != [] && c != [] && a[0] == b[0] && b[0] == c[0] {
      LexLessTransitive(a[1..], b[1..], c[1..]);
    }
  }

  lemma {:induction false} LexLessTotal(a: string, b: string)
    ensures a == b || LexLess(a, b) || LexLess(b, a)
    decreases |a|
  {
    if a != [] && b != [] && a[0] == b[0] {
      LexLessTotal(a[1..], b[1..]);
      if a[1..] == b[1..] {
        assert a == [a[0]] + a[1..] && b == [b[0]] + b[1..];
      }
    }
  }

  /** `a` must come before `b` under the comparator for `o`. */
  predicate Precedes(o: SortOrder, a: OdRequest, b: OdRequest)
  {
    match o
    case DateDesc => Earlier(TimeKey(b), TimeKey(a))
    case DateAsc => Earlier(TimeKey(a), TimeKey(b))
    case ByStatus => LexLess(a.status, b.status)
    case Unsorted => false
  }

  lemma PrecedesIrreflexive(o: SortOrder, a: OdRequest)
    ensures !Precedes(o, a, a)
  {
    if o == ByStatus { LexLessIrreflexive(a.status); }
  }

  lemma PrecedesTransitive(o: SortOrder, a: OdRequest, b: OdRequest, c: OdRequest)
    requires Precedes(o, a, b) && Precedes(o, b, c)
    ensures Precedes(o, a, c)
  {
    if o == ByStatus { LexLessTransitive(a.status, b.status, c.status); }
  }

  predicate SortedBy(o: SortOrder, s: seq<OdRequest>)
  {
    forall i, j :: 0 <= i < j < |s| ==> !Precedes(o, s[j], s[i])
  }

  /** Places `x` after every element it does not have to precede. */
  function Insert(x: OdRequest, s: seq<OdRequest>, o: SortOrder): (r: seq<OdRequest>)
    ensures multiset(r) == multiset(s) + multiset{x}
    ensures |r| == |s| + 1
  {
    if s == [] then [x]
    else if Precedes(o, x, s[0]) then [x] + s
    else
      assert s == [s[0]] + s[1..];
      [s[0]] + Insert(x, s[1..], o)
  }

  /** The stable insertion sort `Array.prototype.sort` is equivalent to for a
      consistent comparator: each element is inserted, in input order, into the
      already sorted prefix. */
  function Sort(s: seq<OdRequest>, o: SortOrder): (r: seq<OdRequest>)
    ensures multiset(r) == multiset(s)
    ensures |r| == |s|
    decreases |s|
  {
    if s == [] then []
    else
      assert s == s[..|s| - 1] + [s[|s| - 1]];
      Insert(s[|s| - 1], Sort(s[..|s| - 1], o), o)
  }

  lemma {:induction false} InsertSorted(x: OdRequest, s: seq<OdRequest>, o: SortOrder)
    requires SortedBy(o, s)
    ensures SortedBy(o, Insert(x, s, o))
    decreases |s|
  {
    if s == [] {
    } else if Precedes(o, x, s[0]) {
      var r := [x] + s;
      forall i, j | 0 <= i < j < |r| ensures !Precedes(o, r[j], r[i]) {
        if i == 0 {
          if Precedes(o, r[j], x) {
            PrecedesTransitive(o, r[j], x, s[0]);
            if j == 1 { PrecedesIrreflexive(o, s[0]); }
          }
        } else {
          assert r[i] == s[i - 1] && r[j] == s[j - 1];
        }
      }
    } else {
      InsertSorted(x, s[1..], o);
      var tail := Insert(x, s[1..], o);
      var r := [s[0]] + tail;
      forall i, j | 0 <= i < j < |r| ensures !Precedes(o, r[j], r[i]) {
        if i == 0 {
          var y := r[j];
          assert y in tail;
          assert y in multiset(tail);
          assert y == x || y in multiset(s[1..]);
          if y != x {
            var k :| 0 <= k < |s[1..]| && s[1..][k] == y;
            assert s[k + 1] == y;
          }
        } else {
          assert r[i] == tail[i - 1] && r[j] == tail[j - 1];
        }
      }
    }
  }

  lemma {:induction false} SortSorted(s: seq<OdRequest>, o: SortOrder)
    ensures SortedBy(o, Sort(s, o))
    decreases |s|
  {
    if s != [] {
      SortSorted(s[..|s| - 1], o);
      InsertSorted(s[|s| - 1], Sort(s[..|s| - 1], o), o);
    }
  }

  lemma {:induction false} InsertUnsorted(x: OdRequest, s: seq<OdRequest>)
    ensures Insert(x, s, Unsorted) == s + [x]
    decreases |s|
  {
    if s != [] {
      InsertUnsorted(x, s[1..]);
      assert [s[0]] + (s[1..] + [x]) == s + [x];
    }
  }

  /** Under an unknown sort key the comparator always answers 0 and the
      (stable) sort keeps the filtered order. */
  lemma {:induction false} SortUnsortedIdentity(s: seq<OdRequest>)
    ensures Sort(s, Unsorted) == s
    decreases |s|
  {
    if s != [] {
      SortUnsortedIdentity(s[..|s| - 1]);
      InsertUnsorted(s[|s| - 1], s[..|s| - 1]);
      assert s[..|s| - 1] + [s[|s| - 1]] == s;
    }
  }

  // ---------------------------------------------------------------------------
  // The derived history view and the counters
  // ---------------------------------------------------------------------------

  /** `filteredRequests`: filter, then sort by `sortBy`. */
  function FilteredRequests(odRequests: seq<OdRequest>, searchTerm: string,
                            statusFilter: string, sortBy: string): seq<OdRequest>
  {
    Sort(Filter(odRequests, Keep(searchTerm, statusFilter)), OrderOf(sortBy))
  }

  /** The view holds exactly the matching records of the collection, each as
      often as in the collection; there is no other record in it, and every
      record in it has the filtered status unless the filter is "all". */
  lemma FilteredRequestsContents(odRequests: seq<OdRequest>, searchTerm: string,
                                 statusFilter: string, sortBy: string)
    ensures var view := FilteredRequests(odRequests, searchTerm, statusFilter, sortBy);
      && multiset(view) <= multiset(odRequests)
      && (forall x :: multiset(view)[x]
                        == if Keeps(x, searchTerm, statusFilter) then multiset(odRequests)[x] else 0)
      && (forall i :: 0 <= i < |view| ==> SearchMatches(view[i], searchTerm))
      && (statusFilter != AnyStatus ==> forall i :: 0 <= i < |view| ==> view[i].status == statusFilter)
  {
    var view := FilteredRequests(odRequests, searchTerm, statusFilter, sortBy);
    var kept := Filter(odRequests, Keep(searchTerm, statusFilter));
    FilterMultiset(odRequests, Keep(searchTerm, statusFilter));
    assert multiset(view) == multiset(kept);
    forall i | 0 <= i < |view| ensures Keeps(view[i], searchTerm, statusFilter) {
      assert view[i] in multiset(view);
    }
  }

  /** A record with none of venue, reason and description is never shown,
      whatever the search text, filter and sort key. */
  lemma RecordWithoutTextHidden(odRequests: seq<OdRequest>, searchTerm: string,
                                statusFilter: string, sortBy: string, r: OdRequest)
    requires r.venue.None? && r.reason.None? && r.description.None?
    ensures r !in FilteredRequests(odRequests, searchTerm, statusFilter, sortBy)
  {
    FilteredRequestsContents(odRequests, searchTerm, statusFilter, sortBy);
  }

  /** "date-desc": present timestamps never increase along the view and the
      records without one come last. */
  lemma DateDescOrder(odRequests: seq<OdRequest>, searchTerm: string, statusFilter: string)
    ensures var view := FilteredRequests(odRequests, searchTerm, statusFilter, "date-desc");
      forall i, j :: 0 <= i < j < |view| && TimeKey(view[j]).Some? ==>
        TimeKey(view[i]).Some? && TimeKey(view[i]).value >= TimeKey(view[j]).value
  {
    SortSorted(Filter(odRequests, Keep(searchTerm, statusFilter)), DateDesc);
  }

  /** "date-asc": the records without a timestamp come first, then the present
      timestamps never decrease. */
  lemma DateAscOrder(odRequests: seq<OdRequest>, searchTerm: string, statusFilter: string)
    ensures var view := FilteredRequests(odRequests, searchTerm, statusFilter, "date-asc");
      forall i, j :: 0 <= i < j < |view| && TimeKey(view[i]).Some? ==>
        TimeKey(view[j]).Some? && TimeKey(view[i]).value <= TimeKey(view[j]).value
  {
    SortSorted(Filter(odRequests, Keep(searchTerm, statusFilter)), DateAsc);
  }

  /** "status": the statuses never decrease in lexicographic order. */
  lemma StatusOrder(odRequests: seq<OdRequest>, searchTerm: string, statusFilter: string)
    ensures var view := FilteredRequests(odRequests, searchTerm, statusFilter, "status");
      forall i, j :: 0 <= i < j < |view| ==>
        view[i].status == view[j].status || LexLess(view[i].status, view[j].status)
  {
    var view := FilteredRequests(odRequests, searchTerm, statusFilter, "status");
    SortSorted(Filter(odRequests, Keep(searchTerm, statusFilter)), ByStatus);
    forall i, j | 0 <= i < j < |view|
      ensures view[i].status == view[j].status || LexLess(view[i].status, view[j].status)
    {
      LexLessTotal(view[i].status, view[j].status);
    }
  }

  /** Any other sort key leaves the filtered records in collection order. */
  lemma OtherKeyKeepsOrder(odRequests: seq<OdRequest>, searchTerm: string,
                           statusFilter: string, sortBy: string)
    requires sortBy !in {"date-desc", "date-asc", "status"}
    ensures FilteredRequests(odRequests, searchTerm, statusFilter, sortBy)
              == Filter(odRequests, Keep(searchTerm, statusFilter))
    ensures IsSubsequence(FilteredRequests(odRequests, searchTerm, statusFilter, sortBy), odRequests)
  {
    SortUnsortedIdentity(Filter(odRequests, Keep(searchTerm, statusFilter)));
    FilterIsSubsequence(odRequests, Keep(searchTerm, statusFilter));
  }

  datatype Stats = Stats(total: nat, approved: nat, pending: nat, rejected: nat)

  /** `stats`: counted over the whole collection, not over the filtered view. */
  function ComputeStats(odRequests: seq<OdRequest>): (st: Stats)
    ensures st.total == |odRequests|
    ensures st.approved == multiset(Map(odRequests, StatusOf))[Approved]
    ensures st.pending == multiset(Map(odRequests, StatusOf))[Pending]
    ensures st.rejected == multiset(Map(odRequests, StatusOf))[Rejected]
    ensures st.approved + st.pending + st.rejected <= st.total
    ensures (forall i :: 0 <= i < |odRequests| ==> odRequests[i].status in {Approved, Pending, Rejected})
              ==> st.approved + st.pending + st.rejected == st.total
  {
    StatusCountsBounded(odRequests);
    StatusCountIsMultiplicity(odRequests, Approved);
    StatusCountIsMultiplicity(odRequests, Pending);
    StatusCountIsMultiplicity(odRequests, Rejected);
    Stats(|odRequests|, StatusCount(odRequests, Approved), StatusCount(odRequests, Pending),
          StatusCount(odRequests, Rejected))
  }

  /** A record with the given id and status and no other property. */
  function Sample(id: string, status: string): OdRequest
  {
    OdRequest(id, None, None, None, None, None, None, None, None, status, None, None)
  }

  /** Two approved, two pending and one rejected record. */
  lemma StatsExample()
    ensures ComputeStats([Sample("1", Approved), Sample("2", Pending), Sample("3", Approved),
                          Sample("4", Rejected), Sample("5", Pending)]) == Stats(5, 2, 2, 1)
  {
    var s := [Sample("1", Approved), Sample("2", Pending), Sample("3", Approved),
              Sample("4", Rejected), Sample("5", Pending)];
    assert Map(s, StatusOf) == [Approved, Pending, Approved, Rejected, Pending];
  }

  // ---------------------------------------------------------------------------
  // Profile derived from the login e-mail
  // ---------------------------------------------------------------------------

  datatype Profile = Profile(name: string, deptName: string)

  /** The part of `handleLogin` after a successful login call: the first
      '.'-piece of the text before '@' becomes the name (first character
      upper-cased), the second, without digits and upper-cased, the
      department. `None` stands for the TypeError JavaScript raises when the
      local part holds no '.' (`split('.')[1]` is undefined). */
  function DeriveProfile(email: string): (p: Option<Profile>)
    ensures p.Some? <==> '.' in Split(email, '@')[0]
  {
    var namePart := Split(email, '@')[0];
    var pieces := Split(namePart, '.');
    if |pieces| < 2 then None
    else Some(Profile(Capitalize(pieces[0]), Upper(StripDigits(pieces[1]))))
  }

  /** The profile of `first.second...@...`, for any pieces free of separators. */
  lemma {:induction false} DeriveProfileOfPieces(first: string, second: string, rest: string, domain: string)
    requires '@' !in first && '@' !in second && '@' !in rest
    requires '.' !in first && '.' !in second
    requires rest == "" || rest[0] == '.'
    ensures DeriveProfile(first + "." + second + rest + "@" + domain)
              == Some(Profile(Capitalize(first), Upper(StripDigits(second))))
  {
    var local := first + "." + second + rest;
    assert '@' !in local by {
      assert local == first + ("." + second + rest);
      assert '@' !in "." + second + rest;
    }
    assert first + "." + second + rest + "@" + domain == local + ['@'] + domain;
    FirstPiece(local, domain, '@');
    DeriveProfileOfLocal(first, second, rest);
  }

  /** The '.'-pieces of `first.second...`. */
  lemma DeriveProfileOfLocal(first: string, second: string, rest: string)
    requires '.' !in first && '.' !in second
    requires rest == "" || rest[0] == '.'
    ensures var pieces := Split(first + "." + second + rest, '.');
      |pieces| >= 2 && pieces[0] == first && pieces[1] == second
  {
    var local := first + "." + second + rest;
    assert local == first + ['.'] + (second + rest);
    FirstPiece(first, second + rest, '.');
    if rest == "" {
      assert second + rest == second;
      SplitPrefix(second, "", '.');
      assert second + "" == second;
    } else {
      assert second + rest == second + ['.'] + rest[1..];
      FirstPiece(second, rest[1..], '.');
    }
  }

  /** The worked example: "ravi.cse2021@..." gives the name "Ravi" and the
      department "CSE". */
  lemma DeriveProfileExample()
    ensures DeriveProfile("ravi.cse2021@citchennai.net") == Some(Profile("Ravi", "CSE"))
  {
    var email := "ravi.cse2021@citchennai.net";
    assert email == "ravi" + "." + "cse2021" + "" + "@" + "citchennai.net";
    DeriveProfileOfPieces("ravi", "cse2021", "", "citchennai.net");
    StripDigitsExample();
    CaseExample();
  }

  lemma CaseExample()
    ensures Upper("cse") == "CSE" && Capitalize("ravi") == "Ravi"
  {
    assert Upper("cse")[0] == 'C' && Upper("cse")[1] == 'S' && Upper("cse")[2] == 'E';
  }

  lemma StripDigitsExample()
    ensures StripDigits("cse2021") == "cse"
  {
    assert "cse2021" == "cse" + "2021";
    StripDigitsAppend("cse", "2021");
    StripDigitsOfLetters("cse");
    StripDigitsOfDigits("2021");
    assert "cse" + "" == "cse";
  }

  // ---------------------------------------------------------------------------
  // The submission form
  // ---------------------------------------------------------------------------

  datatype FormData = FormData(
    studentEmail: string, name: string, deptName: string, rollNo: string,
    section: string, reason: string, venue: string, description: string)

  const EmptyForm := FormData("", "", "", "", "", "", "", "")

  /** The reset after a submission and the "Clear Form" button: the request
      fields are blanked, the identity fields kept. */
  function ClearedForm(f: FormData): FormData
  {
    f.(rollNo := "", section := "", reason := "", venue := "", description := "")
  }

  /** After a reset nothing typed into the request fields survives: two forms
      reset to the same form iff they agree on e-mail, name and department. */
  lemma ClearedFormKeepsOnlyIdentity(f: FormData, g: FormData)
    ensures (ClearedForm(f) == ClearedForm(g))
            <==> (f.studentEmail == g.studentEmail && f.name == g.name && f.deptName == g.deptName)
    ensures ClearedForm(f).rollNo == "" && ClearedForm(f).section == "" && ClearedForm(f).reason == ""
              && ClearedForm(f).venue == "" && ClearedForm(f).description == ""
  {
  }

  /** The form after a successful login derives a profile. */
  function WithProfile(f: FormData, email: string, p: Profile): FormData
  {
    f.(studentEmail := email, name := p.name, deptName := p.deptName)
  }

  // ---------------------------------------------------------------------------
  // Page state
  // ---------------------------------------------------------------------------

  /** JavaScript truthiness of a `localStorage.getItem` result: present and
      not the empty string. */
  predicate Truthy(item: Option<string>)
  {
    item.Some? && item.value != ""
  }

  /** The component state the handlers change. `savedEmail` is the
      `localStorage` entry "studentEmail". Backend answers are parameters:
      `Some(data)` for a successful response, `None` for a failed one. */
  class StudentPortal {
    var isLoggedIn: bool
    var activeTab: string
    var studentEmail: string
    var formData: FormData
    var odRequests: seq<OdRequest>
    var savedEmail: Option<string>

    /** Mounting the page with the stored "studentInfo" and "studentEmail"
        entries: when both are present and non-empty the session is resumed
        under the stored address. */
    constructor (storedInfo: Option<string>, storedEmail: Option<string>)
      ensures activeTab == "apply" && odRequests == [] && savedEmail == storedEmail
      ensures isLoggedIn <==> Truthy(storedInfo) && Truthy(storedEmail)
      ensures isLoggedIn ==> studentEmail == storedEmail.value
                             && formData == EmptyForm.(studentEmail := storedEmail.value)
      ensures !isLoggedIn ==> studentEmail == "" && formData == EmptyForm
    {
      activeTab := "apply";
      odRequests := [];
      savedEmail := storedEmail;
      if Truthy(storedInfo) && Truthy(storedEmail) {
        isLoggedIn := true;
        studentEmail := storedEmail.value;
        formData := EmptyForm.(studentEmail := storedEmail.value);
      } else {
        isLoggedIn := false;
        studentEmail := "";
        formData := EmptyForm;
      }
    }

    /** Typing into the e-mail field of the login form. */
    method EnterEmail(email: string)
      modifies this
      ensures studentEmail == email
      ensures isLoggedIn == old(isLoggedIn) && activeTab == old(activeTab) && formData == old(formData)
      ensures odRequests == old(odRequests) && savedEmail == old(savedEmail)
    {
      studentEmail := email;
    }

    /** `handleLogin` once `api.login` has answered (`loginOk`). The session is
        recorded before the profile is derived, so an e-mail whose local part
        has no '.' still logs in, with the form left as it was. */
    method HandleLogin(loginOk: bool)
      modifies this
      ensures studentEmail == old(studentEmail) && activeTab == old(activeTab)
      ensures odRequests == old(odRequests)
      ensures !loginOk ==> isLoggedIn == old(isLoggedIn) && savedEmail == old(savedEmail)
                             && formData == old(formData)
      ensures loginOk ==> isLoggedIn && savedEmail == Some(studentEmail)
      ensures loginOk ==> formData == match DeriveProfile(studentEmail)
                                     case Some(p) => WithProfile(old(formData), studentEmail, p)
                                     case None => old(formData)
    {
      if loginOk {
        isLoggedIn := true;
        savedEmail := Some(studentEmail);
        var profile := DeriveProfile(studentEmail);
        if profile.Some? {
          formData := WithProfile(formData, studentEmail, profile.value);
        }
      }
    }

    /** `fetchStudentODs`: nothing without an e-mail; otherwise the collection
        becomes the response, or the empty sequence when the call fails. */
    method FetchStudentODs(response: Option<seq<OdRequest>>)
      modifies this
      ensures studentEmail == "" ==> odRequests == old(odRequests)
      ensures studentEmail != "" ==> odRequests == response.GetOr([])
      ensures isLoggedIn == old(isLoggedIn) && activeTab == old(activeTab)
      ensures studentEmail == old(studentEmail) && formData == old(formData)
      ensures savedEmail == old(savedEmail)
    {
      if studentEmail == "" {
        return;
      }
      match response {
        case Some(data) => odRequests := data;
        case None => odRequests := [];
      }
    }

    /** `confirmSubmit` once the submission has been answered (`submitted`)
        and, on success, the refresh it awaits has been answered (`refreshed`). */
    method ConfirmSubmit(submitted: bool, refreshed: Option<seq<OdRequest>>)
      modifies this
      ensures !submitted ==> activeTab == old(activeTab) && formData == old(formData)
                               && odRequests == old(odRequests)
      ensures submitted ==> activeTab == "history" && formData == ClearedForm(old(formData))
      ensures submitted ==> odRequests == if studentEmail == "" then old(odRequests) else refreshed.GetOr([])
      ensures isLoggedIn == old(isLoggedIn) && studentEmail == old(studentEmail)
      ensures savedEmail == old(savedEmail)
    {
      if submitted {
        activeTab := "history";
        FetchStudentODs(refreshed);
        formData := ClearedForm(formData);
      }
    }

    /** The "Clear Form" button. */
    method ClearForm()
      modifies this
      ensures formData == ClearedForm(old(formData))
      ensures isLoggedIn == old(isLoggedIn) && activeTab == old(activeTab)
      ensures studentEmail == old(studentEmail) && odRequests == old(odRequests)
      ensures savedEmail == old(savedEmail)
    {
      formData := ClearedForm(formData);
    }

    /** `handleLogout`: the session, the e-mail and the collection are cleared;
        the form is left as it was. */
    method HandleLogout()
      modifies this
      ensures !isLoggedIn && studentEmail == "" && odRequests == [] && savedEmail == None
      ensures activeTab == old(activeTab) && formData == old(formData)
    {
      isLoggedIn := false;
      studentEmail := "";
      odRequests := [];
      savedEmail := None;
    }
  }
}
