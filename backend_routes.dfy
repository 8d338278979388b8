/** The OD backend's route handlers (Backend/routes.py) over an abstract
    document collection: the student and faculty login checks, submission,
    the status update, and the three list queries. A MongoDB ObjectId is a
    96-bit number; its string form is 24 lower-case hexadecimal digits, and
    documents are kept under that form. */
module Routes {
  import opened Wrappers
  import opened AsciiText
  import opened Sequences
  import opened RequestView

  // ---------------------------------------------------------------------------
  // Responses
  // ---------------------------------------------------------------------------

  /** A handler's answer: a JSON body, or an `HTTPException` with its status
      code and detail text. */
  datatype Outcome<T> = Ok(value: T) | Fail(code: nat, detail: string)

  /** What FastAPI answers when a handler raises anything but `HTTPException`
      (here: a `KeyError` on a document that lacks a field). */
  const ServerError: Outcome<seq<OdRequest>> := Fail(500, "Internal Server Error")

  // ---------------------------------------------------------------------------
  // ObjectIds
  // ---------------------------------------------------------------------------

  /** The length of an ObjectId's string form. */
  const IdDigits: nat := 24

  /** The number of ObjectIds, 16 to the power 24. */
  const IdBound: nat := Pow16(IdDigits)

  type ObjectId = n: nat | n < IdBound

  /** `ObjectId.is_valid` on a string: exactly 24 hexadecimal digits, either case. */
  predicate IsValidObjectId(s: string)
  {
    |s| == IdDigits && AllHex(s)
  }

  function ParseObjectId(s: string): ObjectId
    requires IsValidObjectId(s)
  {
    HexValue(s)
  }

  /** `str(ObjectId)`: 24 lower-case hexadecimal digits. */
  function RenderObjectId(id: ObjectId): (s: string)
    ensures IsValidObjectId(s)
    ensures Lower(s) == s
  {
    HexString(id, IdDigits)
  }

  /** Rendering and parsing are inverse: every id comes back from its string ... */
  lemma ParseRenderObjectId(id: ObjectId)
    ensures ParseObjectId(RenderObjectId(id)) == id
  {
    HexValueOfString(id, IdDigits);
  }

  /** ... and a valid id string comes back, in lower case, from its id. */
  lemma RenderParseObjectId(s: string)
    requires IsValidObjectId(s)
    ensures RenderObjectId(ParseObjectId(s)) == Lower(s)
  {
    HexStringOfValue(s);
  }

  /** Distinct ids render as distinct strings. */
  lemma RenderObjectIdInjective(a: ObjectId, b: ObjectId)
    requires RenderObjectId(a) == RenderObjectId(b)
    ensures a == b
  {
    ParseRenderObjectId(a);
    ParseRenderObjectId(b);
  }

  /** The string form of the id a valid id string denotes. */
  function CanonicalId(s: string): (c: string)
    requires IsValidObjectId(s)
    ensures c == RenderObjectId(ParseObjectId(s))
  {
    RenderParseObjectId(s);
    Lower(s)
  }

  /** Two valid id strings denote the same ObjectId exactly when their
      string forms agree, so a document kept under its string form matches
      `{"_id": ObjectId(s)}` exactly when that form is `CanonicalId(s)`. */
  lemma SameObjectId(s: string, t: string)
    requires IsValidObjectId(s) && IsValidObjectId(t)
    ensures ParseObjectId(s) == ParseObjectId(t) <==> CanonicalId(s) == CanonicalId(t)
  {
    ParseRenderObjectId(ParseObjectId(s));
    ParseRenderObjectId(ParseObjectId(t));
  }

  // ---------------------------------------------------------------------------
  // Student login
  // ---------------------------------------------------------------------------

  const Domain := "@citchennai.net"

  /** The parts of a college email `name.departmentYEAR@citchennai.net`. */
  datatype EmailParts = EmailParts(name: string, dept: string, year: string)

  predicate WellFormed(p: EmailParts)
  {
    |p.name| >= 1 && AllLowerLetters(p.name) && |p.dept| >= 1 && AllLowerLetters(p.dept)
      && |p.year| == 4 && AllDigits(p.year)
  }

  function LocalPart(p: EmailParts): string
  {
    p.name + "." + p.dept + p.year
  }

  function EmailOf(p: EmailParts): string
  {
    LocalPart(p) + Domain
  }

  /** The part before the domain, when `e` ends with the domain (optionally
      followed by one line break, which Python's `$` lets through). */
  function BeforeDomain(e: string): Option<string>
  {
    if |e| >= |Domain| && e[|e| - |Domain|..] == Domain then Some(e[..|e| - |Domain|])
    else if |e| >= |Domain| + 1 && e[|e| - |Domain| - 1..] == Domain + "\n"
    then Some(e[..|e| - |Domain| - 1])
    else None
  }

  /** A local part `[a-z]+\.[a-z]+[0-9]{4}` read into its parts. */
  function ParseLocal(local: string): Option<EmailParts>
  {
    var pieces := Split(local, '.');
    if |pieces| != 2 || |pieces[1]| < 4 then None
    else
      var rest := pieces[1];
      var p := EmailParts(pieces[0], rest[..|rest| - 4], rest[|rest| - 4..]);
      if WellFormed(p) then Some(p) else None
  }

  /** `re.match(EMAIL_PATTERN, e)` for the already lower-cased `e`. */
  predicate MatchesEmailPattern(e: string)
  {
    var local := BeforeDomain(e);
    local.Some? && ParseLocal(local.value).Some?
  }

  /** The local part of a well-formed address holds one dot and no `@`, and
      reads back into the same parts. */
  lemma LocalPartParses(p: EmailParts)
    requires WellFormed(p)
    ensures ParseLocal(LocalPart(p)) == Some(p)
    ensures '@' !in LocalPart(p)
  {
    var rest := p.dept + p.year;
    assert '.' !in p.name && '.' !in p.dept && '.' !in p.year;
    assert '@' !in p.name && '@' !in p.dept && '@' !in p.year;
    assert LocalPart(p) == Join([p.name, rest], '.');
    SplitOfJoin([p.name, rest], '.');
    assert rest[..|rest| - 4] == p.dept && rest[|rest| - 4..] == p.year;
  }

  lemma BeforeDomainOf(local: string)
    ensures BeforeDomain(local + Domain) == Some(local)
    ensures BeforeDomain(local + Domain + "\n") == Some(local)
  {
    var e := local + Domain;
    assert e[|e| - |Domain|..] == Domain && e[..|e| - |Domain|] == local;
    var f := e + "\n";
    assert f[|f| - |Domain|..] != Domain by {
      assert f[|f| - 1] == '\n';
    }
    assert f[|f| - |Domain| - 1..] == Domain + "\n" && f[..|f| - |Domain| - 1] == local;
  }

  /** Every well-formed college email matches, also with one final line break. */
  lemma EmailPatternAcceptsParts(p: EmailParts)
    requires WellFormed(p)
    ensures MatchesEmailPattern(EmailOf(p)) && MatchesEmailPattern(EmailOf(p) + "\n")
  {
    LocalPartParses(p);
    BeforeDomainOf(LocalPart(p));
  }

  lemma BeforeDomainShape(e: string)
    requires BeforeDomain(e).Some?
    ensures e == BeforeDomain(e).value + Domain || e == BeforeDomain(e).value + Domain + "\n"
  {
    var local := BeforeDomain(e).value;
    if |e| >= |Domain| && e[|e| - |Domain|..] == Domain {
      assert e == e[..|e| - |Domain|] + e[|e| - |Domain|..];
    } else {
      assert e == e[..|e| - |Domain| - 1] + e[|e| - |Domain| - 1..];
    }
  }

  lemma ParsedLocalShape(local: string)
    requires ParseLocal(local).Some?
    ensures WellFormed(ParseLocal(local).value) && local == LocalPart(ParseLocal(local).value)
  {
    var pieces := Split(local, '.');
    var rest := pieces[1];
    JoinOfSplit(local, '.');
    assert Join(pieces, '.') == pieces[0] + "." + rest;
    assert rest == rest[..|rest| - 4] + rest[|rest| - 4..];
  }

  /** Only well-formed college emails match: a matching text is one of them,
      possibly followed by one line break. */
  lemma EmailPatternOnlyParts(e: string)
    requires MatchesEmailPattern(e)
    ensures var p := ParseLocal(BeforeDomain(e).value).value;
      WellFormed(p) && (e == EmailOf(p) || e == EmailOf(p) + "\n")
  {
    BeforeDomainShape(e);
    ParsedLocalShape(BeforeDomain(e).value);
  }

  datatype LoginResponse = LoginResponse(studentId: string, email: string, username: string, status: string)

  const InvalidEmailDetail := "Invalid college email format. Use name.departmentYEAR@citchennai.net"

  /** `POST /auth/login`. */
  function Login(email: string): (r: Outcome<LoginResponse>)
    ensures r.Ok? <==> MatchesEmailPattern(Lower(email))
    ensures r.Fail? ==> r == Fail(401, InvalidEmailDetail)
    ensures r.Ok? ==> r.value.email == Lower(email) && r.value.studentId == "STU123"
                      && r.value.status == "login successful"
  {
    var e := Lower(email);
    if !MatchesEmailPattern(e) then Fail(401, InvalidEmailDetail)
    else Ok(LoginResponse("STU123", e, Split(e, '@')[0], "login successful"))
  }

  /** The login sees only the lower-cased address. */
  lemma LoginIgnoresCase(email: string)
    ensures Login(email) == Login(Lower(email))
  {
    LowerIdempotent(email);
  }

  /** The username is what precedes the `@` of a well-formed address. */
  lemma UsernameOfParts(p: EmailParts, tail: string)
    requires WellFormed(p) && (tail == "" || tail == "\n")
    ensures Split(EmailOf(p) + tail, '@')[0] == LocalPart(p)
  {
    LocalPartParses(p);
    var host := "citchennai.net" + tail;
    assert EmailOf(p) + tail == LocalPart(p) + ['@'] + host;
    FirstPiece(LocalPart(p), host, '@');
  }

  /** An accepted login's username is the local part `name.departmentYEAR`. */
  lemma LoginUsername(email: string)
    requires Login(email).Ok?
    ensures var e := Lower(email); var p := ParseLocal(BeforeDomain(e).value).value;
      WellFormed(p) && Login(email).value.username == LocalPart(p)
  {
    var e := Lower(email);
    EmailPatternOnlyParts(e);
    var p := ParseLocal(BeforeDomain(e).value).value;
    if e == EmailOf(p) {
      UsernameOfParts(p, "");
      assert e == EmailOf(p) + "";
    } else {
      UsernameOfParts(p, "\n");
    }
  }

  // ---------------------------------------------------------------------------
  // Faculty login
  // ---------------------------------------------------------------------------

  datatype FacultyResponse = FacultyResponse(username: string, role: string, status: string)

  /** `POST /auth/faculty-login`: one fixed account. */
  function FacultyLogin(username: string, password: string): (r: Outcome<FacultyResponse>)
    ensures r.Ok? <==> username == "admin" && password == "admin123"
    ensures r.Ok? ==> r.value == FacultyResponse(username, "faculty", "login successful")
    ensures r.Fail? ==> r == Fail(401, "Invalid faculty credentials")
  {
    if username == "admin" && password == "admin123" then
      Ok(FacultyResponse(username, "faculty", "login successful"))
    else
      Fail(401, "Invalid faculty credentials")
  }

  // ---------------------------------------------------------------------------
  // Stored documents and submission
  // ---------------------------------------------------------------------------

  /** A document of the OD collection, its `_id` in string form. Fields other
      than `_id` and `status` may be missing from documents the handlers did
      not write themselves.
      `appliedAt` is in integer seconds, UTC. */
  datatype Document = Document(
    id: string,
    studentEmail: Option<string>,
    name: Option<string>,
    deptName: Option<string>,
    rollNo: Option<string>,
    section: Option<string>,
    reason: Option<string>,
    venue: Option<string>,
    description: Option<string>,
    status: string,
    appliedAt: Option<int>)

  /** The body of `POST /apply` (the `ODRequest` model without the two fields
      the handler overwrites). */
  datatype Submission = Submission(
    studentEmail: string, name: string, deptName: string, rollNo: string,
    section: string, reason: string, venue: string, description: string)

  /** The document `apply_od` inserts at time `now` under the id the store
      assigns. */
  function Admitted(sub: Submission, now: int, id: string): (d: Document)
    ensures d.status == Pending && d.appliedAt == Some(now) && d.id == id
    ensures d.studentEmail == Some(sub.studentEmail) && d.rollNo == Some(sub.rollNo)
    ensures d.name == Some(sub.name) && d.deptName == Some(sub.deptName) && d.section == Some(sub.section)
    ensures d.reason == Some(sub.reason) && d.venue == Some(sub.venue) && d.description == Some(sub.description)
  {
    Document(id, Some(sub.studentEmail), Some(sub.name), Some(sub.deptName), Some(sub.rollNo),
             Some(sub.section), Some(sub.reason), Some(sub.venue), Some(sub.description),
             Pending, Some(now))
  }

  datatype SubmitResponse = SubmitResponse(message: string, id: string)

  // ---------------------------------------------------------------------------
  // The three list queries as functions
  // ---------------------------------------------------------------------------

  /** A `get_all_od` entry: the whole document with `_id` as a string. */
  function FullView(d: Document): (r: OdRequest)
    ensures r.id == d.id && r.status == d.status && r.appliedAt == d.appliedAt
    ensures r.studentEmail == d.studentEmail && r.rollNo == d.rollNo && r.name == d.name
    ensures r.deptName == d.deptName && r.section == d.section
    ensures r.reason == d.reason && r.venue == d.venue && r.description == d.description
    ensures r.date.None?
  {
    OdRequest(d.id, d.studentEmail, d.name, d.deptName, d.rollNo, d.section,
              d.reason, d.venue, d.description, d.status, d.appliedAt, None)
  }

  /** The start of the UTC day holding `t` (`strftime("%Y-%m-%d")`). */
  function DayStart(t: int): (d: int)
    ensures d <= t < d + 86400 && d % 86400 == 0
  {
    t - t % 86400
  }

  /** A per-student entry: id, day, venue, reason, description (absent as
      ""), status and time; a document without `applied_at`, `venue` or
      `reason` cannot be projected. */
  function Project(d: Document): (r: Option<OdRequest>)
    ensures r.Some? <==> d.appliedAt.Some? && d.venue.Some? && d.reason.Some?
    ensures r.Some? ==> r.value.id == d.id && r.value.status == d.status
                        && r.value.appliedAt == d.appliedAt && r.value.date == Some(DayStart(d.appliedAt.value))
                        && r.value.description == Some(d.description.GetOr(""))
                        && r.value.venue == d.venue && r.value.reason == d.reason
    ensures r.Some? ==> r.value.studentEmail.None? && r.value.name.None? && r.value.deptName.None?
                        && r.value.rollNo.None? && r.value.section.None?
  {
    if d.appliedAt.None? || d.venue.None? || d.reason.None? then None
    else
      Some(OdRequest(d.id, None, None, None, None, None, d.reason, d.venue,
                     Some(d.description.GetOr("")), d.status, d.appliedAt,
                     Some(DayStart(d.appliedAt.value))))
  }

  /** Whether every document can be projected. */
  predicate AllProjectable(docs: seq<Document>)
  {
    forall i :: 0 <= i < |docs| ==> Project(docs[i]).Some?
  }

  /** The per-student answer for the matched documents, in collection order;
      one document that cannot be projected fails the whole request. */
  function ProjectAll(docs: seq<Document>): (r: Outcome<seq<OdRequest>>)
    ensures r.Ok? <==> AllProjectable(docs)
    ensures r.Ok? ==> |r.value| == |docs| && forall i :: 0 <= i < |docs| ==> Project(docs[i]) == Some(r.value[i])
    ensures r.Fail? ==> r == ServerError
  {
    if AllProjectable(docs) then Ok(seq(|docs|, i requires 0 <= i < |docs| => Project(docs[i]).value))
    else ServerError
  }

  function ByRollNo(rollNo: string): Document -> bool
  {
    (d: Document) => d.rollNo == Some(rollNo)
  }

  function ByEmail(email: string): Document -> bool
  {
    (d: Document) => d.studentEmail == Some(email)
  }

  /** One matched document that cannot be projected fails the query. */
  lemma UnprojectableFails(docs: seq<Document>, matches: Document -> bool, i: nat)
    requires i < |docs| && matches(docs[i]) && Project(docs[i]).None?
    ensures ProjectAll(Filter(docs, matches)) == ServerError
  {
    assert docs[i] in docs;
    var all := Filter(docs, matches);
    var j :| 0 <= j < |all| && all[j] == docs[i];
  }

  lemma ProjectOne(d: Document)
    requires Project(d).Some?
    ensures ProjectAll([d]) == Ok([Project(d).value])
  {
    assert [d][0] == d;
    var r := ProjectAll([d]);
    assert r.Ok?;
    assert r.value == [r.value[0]];
  }

  /** One step of the per-student loop: the next document, when matched and
      projectable, adds its projection at the end. */
  lemma QueryStep(docs: seq<Document>, matches: Document -> bool, i: nat, ods: seq<OdRequest>)
    requires i < |docs| && ProjectAll(Filter(docs[..i], matches)) == Ok(ods)
    requires matches(docs[i]) ==> Project(docs[i]).Some?
    ensures ProjectAll(Filter(docs[..i + 1], matches))
              == Ok(if matches(docs[i]) then ods + [Project(docs[i]).value] else ods)
  {
    FilterPrefixStep(docs, i, matches);
    var d := docs[i];
    if matches(d) {
      ProjectAllAppend(Filter(docs[..i], matches), [d]);
      ProjectOne(d);
    } else {
      assert Filter(docs[..i], matches) + [] == Filter(docs[..i], matches);
    }
  }

  /** Projecting a concatenation projects each part. */
  lemma ProjectAllAppend(a: seq<Document>, b: seq<Document>)
    ensures ProjectAll(a + b) == if ProjectAll(a).Ok? && ProjectAll(b).Ok?
                                 then Ok(ProjectAll(a).value + ProjectAll(b).value) else ServerError
  {
    if AllProjectable(a) && AllProjectable(b) {
      ProjectAllAppendOk(a, b);
    } else {
      ProjectAllAppendFails(a, b);
    }
  }

  lemma ProjectAllAppendOk(a: seq<Document>, b: seq<Document>)
    requires AllProjectable(a) && AllProjectable(b)
    ensures ProjectAll(a + b) == Ok(ProjectAll(a).value + ProjectAll(b).value)
  {
    var ab := a + b;
    var x, y := ProjectAll(a).value, ProjectAll(b).value;
    forall i | 0 <= i < |ab| ensures Project(ab[i]) == Some((x + y)[i]) {
      if i < |a| {
        assert ab[i] == a[i];
      } else {
        assert ab[i] == b[i - |a|];
      }
    }
    assert ProjectAll(ab).value == x + y;
  }

  lemma ProjectAllAppendFails(a: seq<Document>, b: seq<Document>)
    requires !(AllProjectable(a) && AllProjectable(b))
    ensures ProjectAll(a + b) == ServerError
  {
    var ab := a + b;
    if !AllProjectable(a) {
      var i :| 0 <= i < |a| && Project(a[i]).None?;
      assert ab[i] == a[i];
    } else {
      var i :| 0 <= i < |b| && Project(b[i]).None?;
      assert ab[|a| + i] == b[i];
    }
  }


  // ---------------------------------------------------------------------------
  // The status update as a function
  // ---------------------------------------------------------------------------

  /** The first document with the id (the one `update_one` touches). */
  function FindId(docs: seq<Document>, id: string): (r: Option<nat>)
    ensures r.Some? ==> r.value < |docs| && docs[r.value].id == id
                        && forall j :: 0 <= j < r.value ==> docs[j].id != id
    ensures r.None? ==> forall j :: 0 <= j < |docs| ==> docs[j].id != id
  {
    if docs == [] then None
    else if docs[0].id == id then Some(0)
    else
      match FindId(docs[1..], id)
      case None => None
      case Some(k) => Some(k + 1)
  }

  /** `PATCH /status/{request_id}`: the new documents and the answer. MongoDB
      counts a document as modified only when its status actually changes,
      so setting the status a request already has answers 404. */
  function UpdateStatus(docs: seq<Document>, requestId: string, status: string)
    : (r: (seq<Document>, Outcome<string>))
    ensures |r.0| == |docs|
    ensures r.1.Fail? <==> r.0 == docs
  {
    if !IsValidObjectId(requestId) then (docs, Fail(400, "Invalid ID format"))
    else
      match FindId(docs, CanonicalId(requestId))
      case Some(k) =>
        if docs[k].status != status then
          (docs[k := docs[k].(status := status)], Ok("OD status updated to " + status))
        else (docs, Fail(404, "Request not found"))
      case None => (docs, Fail(404, "Request not found"))
  }

  /** An update changes no id. */
  lemma UpdateKeepsIds(docs: seq<Document>, requestId: string, status: string)
    ensures forall j :: 0 <= j < |docs| ==> UpdateStatus(docs, requestId, status).0[j].id == docs[j].id
  {
  }

  /** A malformed id is refused with 400 and nothing changes. */
  lemma UpdateRejectsMalformedId(docs: seq<Document>, requestId: string, status: string)
    requires !IsValidObjectId(requestId)
    ensures UpdateStatus(docs, requestId, status) == (docs, Fail(400, "Invalid ID format"))
  {
  }

  /** The update succeeds exactly when a document with the id exists and the
      first such document has a different status; it then changes that
      document's status and nothing else. */
  lemma UpdateStatusEffect(docs: seq<Document>, requestId: string, status: string)
    requires IsValidObjectId(requestId)
    ensures var (after, answer) := UpdateStatus(docs, requestId, status);
      var k := FindId(docs, CanonicalId(requestId));
      && (answer.Ok? <==> k.Some? && docs[k.value].status != status)
      && (answer.Ok? ==>
            && answer.value == "OD status updated to " + status
            && after[k.value].status == status
            && after[k.value].(status := "") == docs[k.value].(status := "")
            && forall j :: 0 <= j < |docs| && j != k.value ==> after[j] == docs[j])
      && (answer.Fail? ==> answer == Fail(404, "Request not found"))
  {
  }

  /** Repeating a successful update answers 404 and changes nothing. */
  lemma UpdateTwiceFails(docs: seq<Document>, requestId: string, status: string)
    requires UpdateStatus(docs, requestId, status).1.Ok?
    ensures var after := UpdateStatus(docs, requestId, status).0;
      UpdateStatus(after, requestId, status) == (after, Fail(404, "Request not found"))
  {
    var k := FindId(docs, CanonicalId(requestId)).value;
    var after := UpdateStatus(docs, requestId, status).0;
    UpdateKeepsIds(docs, requestId, status);
    assert after[k].id == CanonicalId(requestId);
    assert FindId(after, CanonicalId(requestId)) == Some(k);
  }

  // ---------------------------------------------------------------------------
  // The collection
  // ---------------------------------------------------------------------------

  /** ObjectIds are unique in the collection. */
  predicate UniqueIds(docs: seq<Document>)
  {
    forall i, j :: 0 <= i < j < |docs| ==> docs[i].id != docs[j].id
  }

  lemma UniqueIdsAppend(docs: seq<Document>, d: Document)
    requires UniqueIds(docs) && forall i :: 0 <= i < |docs| ==> docs[i].id != d.id
    ensures UniqueIds(docs + [d])
  {
    var all := docs + [d];
    forall i, j | 0 <= i < j < |all| ensures all[i].id != all[j].id {
      assert all[i] == docs[i];
      if j < |docs| {
        assert all[j] == docs[j];
      }
    }
  }

  /** Ids are kept unique by any change that keeps every id in place. */
  lemma UniqueIdsSameIds(docs: seq<Document>, after: seq<Document>)
    requires UniqueIds(docs) && |after| == |docs|
    requires forall j :: 0 <= j < |docs| ==> after[j].id == docs[j].id
    ensures UniqueIds(after)
  {
  }

  /** Every stored id is the string form of an ObjectId: 24 hexadecimal
      digits in lower case. */
  predicate CanonicalIds(docs: seq<Document>)
  {
    forall i :: 0 <= i < |docs| ==> IsValidObjectId(docs[i].id) && Lower(docs[i].id) == docs[i].id
  }

  lemma CanonicalIdsAppend(docs: seq<Document>, d: Document)
    requires CanonicalIds(docs) && IsValidObjectId(d.id) && Lower(d.id) == d.id
    ensures CanonicalIds(docs + [d])
  {
    var all := docs + [d];
    forall i | 0 <= i < |all| ensures IsValidObjectId(all[i].id) && Lower(all[i].id) == all[i].id {
      if i < |docs| {
        assert all[i] == docs[i];
      }
    }
  }

  lemma CanonicalIdsSameIds(docs: seq<Document>, after: seq<Document>)
    requires CanonicalIds(docs) && |after| == |docs|
    requires forall j :: 0 <= j < |docs| ==> after[j].id == docs[j].id
    ensures CanonicalIds(after)
  {
  }

  /** The OD collection in natural (insertion) order, and the handlers that
      read and write it. */
  class OdStore {
    var docs: seq<Document>

    predicate Valid()
      reads this
    {
      UniqueIds(docs) && CanonicalIds(docs)
    }

    constructor ()
      ensures docs == [] && Valid()
    {
      docs := [];
    }

    /** `apply_od`: `newId` and `now` are the id the database assigns and the
        clock reading. */
    method ApplyOd(sub: Submission, now: int, newId: ObjectId) returns (r: SubmitResponse)
      requires Valid()
      requires forall i :: 0 <= i < |docs| ==> docs[i].id != RenderObjectId(newId)
      modifies this
      ensures Valid()
      ensures docs == old(docs) + [Admitted(sub, now, RenderObjectId(newId))]
      ensures r == SubmitResponse("OD Request submitted!", RenderObjectId(newId))
    {
      UniqueIdsAppend(docs, Admitted(sub, now, RenderObjectId(newId)));
      CanonicalIdsAppend(docs, Admitted(sub, now, RenderObjectId(newId)));
      docs := docs + [Admitted(sub, now, RenderObjectId(newId))];
      r := SubmitResponse("OD Request submitted!", RenderObjectId(newId));
    }

    /** `update_od_status`. */
    method UpdateOdStatus(requestId: string, status: string) returns (r: Outcome<string>)
      requires Valid()
      modifies this
      ensures Valid()
      ensures (docs, r) == UpdateStatus(old(docs), requestId, status)
    {
      var result := UpdateStatus(docs, requestId, status);
      UpdateKeepsIds(docs, requestId, status);
      UniqueIdsSameIds(docs, result.0);
      CanonicalIdsSameIds(docs, result.0);
      docs := result.0;
      r := result.1;
    }

    /** `get_all_od`: every document, in order, with its id as a string. */
    method GetAllOd() returns (ods: seq<OdRequest>)
      ensures ods == Map(docs, FullView)
    {
      ods := [];
      var i := 0;
      while i < |docs|
        invariant 0 <= i <= |docs|
        invariant ods == Map(docs[..i], FullView)
      {
        ods := ods + [FullView(docs[i])];
        assert docs[..i + 1] == docs[..i] + [docs[i]];
        i := i + 1;
      }
      assert docs[..i] == docs;
    }

    /** The loop both per-student routes run: walk the documents `matches`
        accepts and project each. */
    method Query(matches: Document -> bool) returns (r: Outcome<seq<OdRequest>>)
      ensures r == ProjectAll(Filter(docs, matches))
    {
      var all := docs;
      var ods: seq<OdRequest> := [];
      var i := 0;
      while i < |all|
        invariant 0 <= i <= |all|
        invariant ProjectAll(Filter(all[..i], matches)) == Ok(ods)
      {
        if matches(all[i]) {
          var entry := Project(all[i]);
          if entry.None? {
            UnprojectableFails(all, matches, i);
            return ServerError;
          }
          QueryStep(all, matches, i, ods);
          ods := ods + [entry.value];
        } else {
          QueryStep(all, matches, i, ods);
        }
        i := i + 1;
      }
      assert all[..i] == all;
      r := Ok(ods);
    }

    /** `get_student_od`. */
    method GetStudentOd(rollNo: string) returns (r: Outcome<seq<OdRequest>>)
      ensures r == ProjectAll(Filter(docs, ByRollNo(rollNo)))
    {
      r := Query(ByRollNo(rollNo));
    }

    /** `get_student_od_by_email`. */
    method GetStudentOdByEmail(email: string) returns (r: Outcome<seq<OdRequest>>)
      ensures r == ProjectAll(Filter(docs, ByEmail(email)))
    {
      r := Query(ByEmail(email));
    }
  }

  // ---------------------------------------------------------------------------
  // Properties across handlers
  // ---------------------------------------------------------------------------

  /** The per-student answer, when it succeeds, lists exactly the student's
      documents, in collection order, each once. */
  lemma ByEmailContents(docs: seq<Document>, email: string)
    requires ProjectAll(Filter(docs, ByEmail(email))).Ok?
    ensures var mine := Filter(docs, ByEmail(email)); var ods := ProjectAll(mine).value;
      && |ods| == Count(docs, ByEmail(email))
      && forall i :: 0 <= i < |ods| ==>
           Project(mine[i]) == Some(ods[i]) && mine[i].studentEmail == Some(email)
  {
    var mine := Filter(docs, ByEmail(email));
    forall i | 0 <= i < |mine| ensures mine[i].studentEmail == Some(email) {
      assert mine[i] in mine;
    }
  }

  /** A submission shows up last in its student's list, as pending, with the
      id the submission answer carried. */
  lemma ApplyThenListByEmail(docs: seq<Document>, sub: Submission, now: int, id: string)
    requires ProjectAll(Filter(docs, ByEmail(sub.studentEmail))).Ok?
    ensures var before := ProjectAll(Filter(docs, ByEmail(sub.studentEmail))).value;
      var after := ProjectAll(Filter(docs + [Admitted(sub, now, id)], ByEmail(sub.studentEmail)));
      && after.Ok?
      && |after.value| == |before| + 1
      && after.value[..|before|] == before
      && after.value[|before|].status == Pending
      && after.value[|before|].id == id
      && after.value[|before|].appliedAt == Some(now)
      && after.value[|before|].venue == Some(sub.venue)
      && after.value[|before|].reason == Some(sub.reason)
      && after.value[|before|].description == Some(sub.description)
  {
    var d := Admitted(sub, now, id);
    var keep := ByEmail(sub.studentEmail);
    FilterAppend(docs, [d], keep);
    FilterSingle(d, keep);
    ProjectOne(d);
    ProjectAllAppend(Filter(docs, keep), [d]);
    var before := ProjectAll(Filter(docs, keep)).value;
    assert (before + [Project(d).value])[..|before|] == before;
  }

  /** The faculty list after a successful update shows the new status for the
      updated request and the old entry for every other one. */
  lemma UpdateThenListAll(docs: seq<Document>, requestId: string, status: string)
    requires UpdateStatus(docs, requestId, status).1.Ok?
    ensures var after := Map(UpdateStatus(docs, requestId, status).0, FullView);
      var k := FindId(docs, CanonicalId(requestId)).value;
      && |after| == |docs|
      && after[k] == FullView(docs[k]).(status := status)
      && after[k].id == Lower(requestId)
      && forall j :: 0 <= j < |docs| && j != k ==> after[j] == FullView(docs[j])
  {
    UpdateStatusEffect(docs, requestId, status);
  }
}
