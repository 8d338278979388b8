# On-Duty Tracker — a verified Dafny model

The On-Duty (OD) Tracker lets students of one college ask for "on duty"
leave and lets faculty approve or reject these requests. This project models
its core in Dafny and proves properties of that model. The core has four
parts:

- **The FastAPI backend** (`Backend/routes.py`), module `Routes`. It covers
  the student login with its college-email pattern, the fixed faculty
  account, a request's submission, the status update by ObjectId, and the
  three list queries. The MongoDB collection is a class `OdStore` holding a
  sequence of documents. The two login handlers are functions of their
  input. The handlers that read or write the collection are methods of
  `OdStore`, each proved against a pure function of the old collection.
- **The student page** (`Studentpage.jsx`), module `StudentPage`. It covers
  the history view's search, status filter and sort, and the counters. It
  also covers the name and department the page derives from the login
  e-mail, plus the page state that login, submission, refresh, "Clear Form"
  and logout change. That state is class `StudentPortal`.
- **The faculty page** (`facultypage.jsx`), module `FacultyPage`. It covers
  search and filter, and the local patch of the list after a status update.
  It also covers the approve/reject button guards, the CSV export, and the
  page state of login, logout, selection and status update. That state is
  class `FacultyPortal`.
- **The dot-grid background** (`dotGrid.jsx`), module `DotGrid`. It covers
  the colour parser `hexToRgb`, the `throttle` gate as class `Throttle`, and
  `buildGrid` as class `DotGridCanvas` with the nested loops of `MakeDots`.

Shared modules:

- `Wrappers` holds `Option`.
- `AsciiText` holds case mapping, substring search, split/join, digit
  stripping and hexadecimal numerals.
- `Sequences` holds filter, count, map and subsequence.
- `RequestView` holds the OD request record both pages receive, and the
  status counters.
- `Csv` is a reader for one record, a looser reading of the grammar of
  section 2 of RFC 4180: a bare field may hold any character but comma and
  double quote, where that grammar's TEXTDATA admits only printable ASCII.
  It is the independent reference the CSV export is checked against.
- `CrossChecks` holds properties of the pages and the backend together:
  - The profile the student page derives from an address the backend
    accepted.
  - The combined faculty login gate.
  - The agreement between the faculty page's local patch and what the
    backend stores.

Modelling conventions:

- Backend answers, confirm dialogs, the clock and the ids the database
  assigns are parameters of the methods.
- Timestamps are integer seconds (UTC).
- A handler's HTTP error is `Outcome.Fail(code, detail)`.

Where the code and its description differ, the model follows the code:

- `update_od_status` answers 404 also for an existing request whose status
  is already the requested one. MongoDB's `modified_count` is 0 then.
- The per-student queries answer 500 when a matched document lacks
  `applied_at`, `venue` or `reason`. This is the `KeyError` the handler
  raises.
- Python's `$` lets the email pattern accept one final line break.

## Model

| member | source | states |
|---|---|---|
| Routes.Login | Backend/routes.py:14-31 | The login succeeds iff the lower-cased address matches `EMAIL_PATTERN`. A failure is 401 with the fixed detail. A success carries the lower-cased address, student id "STU123" and status "login successful". |
| Routes.MatchesEmailPattern | Backend/routes.py:12 | An address matches when it is a run of lower-case letters, one '.', lower-case letters, four digits and "@citchennai.net", optionally followed by one line break. |
| Routes.EmailPatternAcceptsParts | Backend/routes.py:12 | Every address `name.departmentYEAR@citchennai.net` matches (name and department lower-case letters, four-digit year), with or without one final line break. |
| Routes.EmailPatternOnlyParts | Backend/routes.py:12 | Only such addresses match, possibly followed by one line break. |
| Routes.LocalPartParses | Backend/routes.py:12 | The local part of a well-formed address reads back into the same name, department and year, and holds no '@'. |
| Routes.BeforeDomainOf | Backend/routes.py:12 | The domain suffix is recognised with and without the final line break `$` admits. |
| Routes.LoginIgnoresCase | Backend/routes.py:17 | An address and its lower-cased form get the same answer. |
| Routes.LoginUsername | Backend/routes.py:25-31 | An accepted login's username is the local part `name.departmentYEAR` of the address. |
| Routes.UsernameOfParts | Backend/routes.py:25 | What precedes the '@' of a well-formed address is its local part. |
| Routes.FacultyLogin | Backend/routes.py:71-80 | The login succeeds iff the username is "admin" and the password "admin123". It answers role "faculty" and status "login successful", else 401 "Invalid faculty credentials". |
| Routes.RenderObjectId | Backend/routes.py:42 | `str(ObjectId)` is a valid id string of 24 hexadecimal digits, all in lower case. |
| Routes.IsValidObjectId | Backend/routes.py:57 | A valid id string is exactly 24 hexadecimal digits, in either case. |
| Routes.ParseRenderObjectId | Backend/routes.py:42 | Every ObjectId parses back from its string form. |
| Routes.RenderParseObjectId | Backend/routes.py:57-61 | Parsing then rendering a valid id string gives its lower-case form. |
| Routes.RenderObjectIdInjective | Backend/routes.py:42 | Distinct ObjectIds have distinct string forms. |
| Routes.CanonicalId | Backend/routes.py:61 | The id string a request id selects is the rendering of the ObjectId it parses to. |
| Routes.SameObjectId | Backend/routes.py:61 | Two valid id strings name the same ObjectId iff their canonical forms are equal. |
| Routes.Admitted | Backend/routes.py:36-40 | The inserted document has status "pending", `applied_at` the current time, the assigned id, and every submitted field as sent: e-mail, name, department, roll number, section, reason, venue and description. |
| Routes.OdStore.constructor | Backend/routes.py:2 | The collection starts empty, with unique ids. |
| Routes.OdStore.ApplyOd | Backend/routes.py:33-43 | The collection grows by exactly the admitted document, and ids stay unique and canonical. The answer is "OD Request submitted!" with the new id's string. |
| Routes.FullView | Backend/routes.py:49-51 | A `get_all_od` entry carries every field of the document: id, status, time, e-mail, name, department, roll number, section, reason, venue and description. It has no `date`. |
| Routes.OdStore.GetAllOd | Backend/routes.py:45-52 | The loop returns every document's full view, in collection order. |
| Routes.DayStart | Backend/routes.py:89 | The `date` of an entry is the start of the UTC day holding `applied_at`. |
| Routes.Project | Backend/routes.py:87-95 | A per-student entry exists iff the document has `applied_at`, `venue` and `reason`. It carries id, status, time, day, venue, reason, and the description with absent read as "". E-mail, name, department, roll number and section are dropped. |
| Routes.ProjectAll | Backend/routes.py:85-96 | The answer succeeds iff every matched document can be projected. It then lists their entries in order; otherwise it is 500. |
| Routes.UnprojectableFails | Backend/routes.py:89-91 | One matched document lacking a required field makes the whole query answer 500. |
| Routes.QueryStep | Backend/routes.py:86-95 | One loop step appends the next matched document's entry. |
| Routes.ProjectAllAppend | Backend/routes.py:85-96 | Answering a concatenation answers each part and concatenates, or fails if either part fails. |
| Routes.OdStore.Query | Backend/routes.py:85-96 | The loop returns exactly the projection of the matched documents, in order, or the 500 failure. |
| Routes.OdStore.GetStudentOd | Backend/routes.py:82-96 | The answer is the projection of the documents with that roll number. |
| Routes.OdStore.GetStudentOdByEmail | Backend/routes.py:98-112 | The answer is the projection of the documents with that student e-mail. |
| Routes.ByEmailContents | Backend/routes.py:102-111 | A successful per-e-mail answer has one entry per document of that student, in order, and only that student's documents. |
| Routes.ApplyThenListByEmail | Backend/routes.py:33-112 | After a submission, the student's list is the old list plus one last entry: pending, with the returned id, the submission time and the venue, reason and description that were sent. |
| Routes.FindId | Backend/routes.py:60-61 | The document `update_one` targets is the first one with the id, and none before it has that id. |
| Routes.UpdateStatus | Backend/routes.py:55-68 | The collection is unchanged exactly when the answer is an error. |
| Routes.UpdateRejectsMalformedId | Backend/routes.py:57-58 | A request id that is not a valid ObjectId string answers 400 "Invalid ID format" and changes nothing. |
| Routes.UpdateStatusEffect | Backend/routes.py:60-68 | The update succeeds iff the addressed document exists and has a different status. It sets only that status, answers "OD status updated to …", and otherwise answers 404 "Request not found". |
| Routes.UpdateKeepsIds | Backend/routes.py:60-63 | An update changes no document's id. |
| Routes.UpdateTwiceFails | Backend/routes.py:65-68 | Repeating a successful update answers 404 and changes nothing. |
| Routes.OdStore.UpdateOdStatus | Backend/routes.py:54-68 | The new collection and answer are those of `UpdateStatus`, and ids stay unique and canonical. |
| Routes.UpdateThenListAll | Backend/routes.py:45-68 | After a successful update, the full list shows the new status for the addressed request, under its lower-case id, and every other entry unchanged. |
| Routes.UniqueIdsAppend | Backend/routes.py:40 | Inserting a document under a fresh id keeps ids unique. |
| Routes.UniqueIdsSameIds | Backend/routes.py:60-63 | A change that keeps every id in place keeps ids unique. |
| Routes.CanonicalIdsAppend | Backend/routes.py:40-42 | Inserting a document under the string form of an ObjectId keeps every stored id canonical. |
| Routes.CanonicalIdsSameIds | Backend/routes.py:60-63 | A change that keeps every id in place keeps every stored id canonical. |
| StudentPage.FilteredRequestsContents | frontend/src/pages/Studentpage.jsx:182-192 | The view holds exactly the records that match the search on venue, reason or description and the status filter, each as often as in the collection. |
| StudentPage.FilteredRequests | frontend/src/pages/Studentpage.jsx:182-200 | The history view: the records kept by the search and status filter, sorted by the chosen key. |
| StudentPage.EmptySearchMatches | frontend/src/pages/Studentpage.jsx:184-187 | With empty search text, a record is found iff one of venue, reason and description is present. |
| StudentPage.RecordWithoutTextHidden | frontend/src/pages/Studentpage.jsx:184-187 | A record with none of these fields is never shown. |
| StudentPage.SearchIgnoresCase | frontend/src/pages/Studentpage.jsx:185 | Typing the search text in capitals or in small letters finds exactly the same records. |
| StudentPage.SearchIgnoresFieldCase | frontend/src/pages/Studentpage.jsx:185-187 | Rewriting any of venue, reason and description in capitals or small letters finds exactly the same records. |
| StudentPage.OrderOf | frontend/src/pages/Studentpage.jsx:194-199 | Only "date-desc", "date-asc" and "status" select an order. |
| StudentPage.TimeKey | frontend/src/pages/Studentpage.jsx:195-196 | A record's sort time is `applied_at`, or else `date`. |
| StudentPage.Precedes | frontend/src/pages/Studentpage.jsx:193-200 | The strict order each sort key stands for: later times first, earlier times first, or statuses in code-point order; no order for any other key. |
| StudentPage.Insert | frontend/src/pages/Studentpage.jsx:193 | Inserting into the sorted view adds exactly one copy of the record. |
| StudentPage.Sort | frontend/src/pages/Studentpage.jsx:193-200 | Sorting permutes the filtered records. |
| StudentPage.InsertSorted | frontend/src/pages/Studentpage.jsx:193-200 | Insertion keeps a view sorted. |
| StudentPage.SortSorted | frontend/src/pages/Studentpage.jsx:193-200 | The sorted view is ordered by the comparator chosen. |
| StudentPage.DateDescOrder | frontend/src/pages/Studentpage.jsx:195 | With "date-desc", the `applied_at`-or-`date` times never increase along the view, and records without a time come last. |
| StudentPage.DateAscOrder | frontend/src/pages/Studentpage.jsx:196 | With "date-asc", records without a time come first, and the times then never decrease. |
| StudentPage.StatusOrder | frontend/src/pages/Studentpage.jsx:197 | With "status", statuses never decrease in lexicographic order. |
| StudentPage.LexLessIrreflexive | frontend/src/pages/Studentpage.jsx:197 | The status order is irreflexive. |
| StudentPage.LexLessTransitive | frontend/src/pages/Studentpage.jsx:197 | The status order is transitive. |
| StudentPage.LexLessTotal | frontend/src/pages/Studentpage.jsx:197 | The status order is total. |
| StudentPage.PrecedesIrreflexive | frontend/src/pages/Studentpage.jsx:193-200 | Each comparator is a strict order: irreflexive. |
| StudentPage.PrecedesTransitive | frontend/src/pages/Studentpage.jsx:193-200 | Each comparator is a strict order: transitive. |
| StudentPage.InsertUnsorted | frontend/src/pages/Studentpage.jsx:198 | Under any other key a record is inserted last. |
| StudentPage.SortUnsortedIdentity | frontend/src/pages/Studentpage.jsx:198 | Under any other key, sorting changes nothing. |
| StudentPage.OtherKeyKeepsOrder | frontend/src/pages/Studentpage.jsx:182-200 | Under any other key, the view is the filtered records in collection order. |
| StudentPage.ComputeStats | frontend/src/pages/Studentpage.jsx:202-207 | The total is the collection's size. Each counter is the number of records whose status is exactly its status. The three never exceed the total together, and they add up to it when every status is one of the three. |
| StudentPage.StatsExample | frontend/src/pages/Studentpage.jsx:202-207 | Two approved, two pending and one rejected record give total 5 and counters 2, 2 and 1. |
| StudentPage.DeriveProfile | frontend/src/pages/Studentpage.jsx:102-104 | A profile is derived iff the text before the first '@' contains a '.'. |
| StudentPage.DeriveProfileOfPieces | frontend/src/pages/Studentpage.jsx:102-111 | For `first.second…@…`, the name is `first` with its first letter in capitals, and the department is `second` without digits, in capitals. |
| StudentPage.DeriveProfileExample | frontend/src/pages/Studentpage.jsx:102-111 | "ravi.cse2021@citchennai.net" gives name "Ravi" and department "CSE". |
| StudentPage.ClearedFormKeepsOnlyIdentity | frontend/src/pages/Studentpage.jsx:142-149 | A reset blanks roll number, section, reason, venue and description. Two forms reset alike iff they agree on e-mail, name and department. |
| StudentPage.ClearedForm | frontend/src/pages/Studentpage.jsx:142-149 | The reset form keeps e-mail, name and department and blanks every other field. |
| StudentPage.StudentPortal.constructor | frontend/src/pages/Studentpage.jsx:43-78 | The page starts on the "apply" tab with no records. It resumes the session under the stored e-mail iff both stored entries are present and non-empty (the page itself never writes "studentInfo"). Otherwise it starts logged out with an empty form. |
| StudentPage.StudentPortal.EnterEmail | frontend/src/pages/Studentpage.jsx:302 | Typing sets only the e-mail. |
| StudentPage.StudentPortal.HandleLogin | frontend/src/pages/Studentpage.jsx:93-118 | A successful login sets the session and the stored e-mail. The derived profile fills the form's e-mail, name and department; with no '.' in the local part the form stays as it was. A failed login changes nothing. |
| StudentPage.StudentPortal.FetchStudentODs | frontend/src/pages/Studentpage.jsx:158-172 | Without an e-mail nothing changes. Otherwise the records become the response, or the empty list when the call fails. |
| StudentPage.StudentPortal.ConfirmSubmit | frontend/src/pages/Studentpage.jsx:125-156 | A successful submission switches to "history", refreshes the records and then resets the form. A failed one changes nothing. |
| StudentPage.StudentPortal.ClearForm | frontend/src/pages/Studentpage.jsx:619-627 | The button resets the form and nothing else. |
| StudentPage.StudentPortal.HandleLogout | frontend/src/pages/Studentpage.jsx:174-179 | Logout clears session, e-mail, records and the stored e-mail, and keeps tab and form. |
| RequestView.StatusCountsBounded | frontend/src/pages/facultypage.jsx:162-164 | The approved, pending and rejected counters never exceed the total, and they reach it when every status is one of the three. |
| RequestView.StatusCount | frontend/src/pages/facultypage.jsx:162-164 | `getStatusCount`: the number of records whose status equals the given one. |
| RequestView.StatusCountIsMultiplicity | frontend/src/pages/facultypage.jsx:162-164 | That number is how often the status occurs among the records' statuses. |
| RequestView.StatusFiltersDisjoint | frontend/src/pages/Studentpage.jsx:204-206 | No record is counted under two statuses. |
| FacultyPage.FilteredRequestsContents | frontend/src/pages/facultypage.jsx:150-160 | The view is a subsequence of the collection holding exactly the records that match. A match means the search on name, roll number, e-mail or reason (absent read as "") and the status filter, with each record as often as in the collection. |
| FacultyPage.FilteredRequests | frontend/src/pages/facultypage.jsx:150-160 | The faculty view: the records kept by the search and the status filter, in collection order. |
| FacultyPage.EmptySearchKeepsAll | frontend/src/pages/facultypage.jsx:150-160 | Empty search text with filter "all" shows the whole collection in order. |
| FacultyPage.PatchStatus | frontend/src/pages/facultypage.jsx:132-136 | Exactly the entries with the id get the new status, and all else is kept. |
| FacultyPage.PatchStatusIdempotent | frontend/src/pages/facultypage.jsx:132-136 | Patching twice is patching once. |
| FacultyPage.PatchStatusNoChange | frontend/src/pages/facultypage.jsx:132-136 | Patching to the status the entries already have changes nothing. |
| FacultyPage.PatchStatusCountOf | frontend/src/pages/facultypage.jsx:132-164 | Patching the one entry with the id moves it from its old status's counter to the new one's. |
| FacultyPage.PatchStatusCounts | frontend/src/pages/facultypage.jsx:132-164 | The new status's counter grows by one and the old one's drops by one. All other counters stay. |
| FacultyPage.EnabledButtonChangesStatus | frontend/src/pages/facultypage.jsx:644-659 | An enabled Approve or Reject button always asks for a status other than the current one, and never while loading. |
| FacultyPage.ApproveDisabled | frontend/src/pages/facultypage.jsx:646 | Approve is disabled for an approved request and while loading. |
| FacultyPage.RejectDisabled | frontend/src/pages/facultypage.jsx:654 | Reject is disabled for a rejected request and while loading. |
| FacultyPage.CsvValues | frontend/src/pages/facultypage.jsx:187-198 | Each row has one value per header. |
| FacultyPage.QuotedValuesReadBack | frontend/src/pages/facultypage.jsx:188-198 | Quoted values without inner quotes, joined by commas, are read back by the RFC 4180 reader. |
| FacultyPage.CsvRowReadsBack | frontend/src/pages/facultypage.jsx:187-198 | A row whose values hold no double quote reads back as the record's ten values, in header order. |
| FacultyPage.CsvRowWithInnerQuoteUnreadable | frontend/src/pages/facultypage.jsx:188 | A name with an inner double quote yields a row that is not a valid RFC 4180 record. Inner quotes are not doubled. |
| FacultyPage.CsvRowAvoidsNewline | frontend/src/pages/facultypage.jsx:187-198 | A row whose values hold no line break holds none. |
| FacultyPage.HeaderAvoidsNewline | frontend/src/pages/facultypage.jsx:184-186 | The header line holds no line break. |
| FacultyPage.RowsAvoidNewline | frontend/src/pages/facultypage.jsx:187-198 | No row holds a line break when no value does. |
| FacultyPage.ExportCsvLines | frontend/src/pages/facultypage.jsx:184-199 | The export splits into the header line followed by one row per record, in collection order. |
| FacultyPage.ExportCsv | frontend/src/pages/facultypage.jsx:182-199 | The export text: the header line and one row per record, joined by line breaks. |
| FacultyPage.CsvRow | frontend/src/pages/facultypage.jsx:187-198 | One row: the record's ten values, each quoted, joined by commas. |
| FacultyPage.QuoteField | frontend/src/pages/facultypage.jsx:188-197 | A value enclosed in double quotes, inner quotes left as they are. |
| FacultyPage.FacultyPortal.constructor | frontend/src/pages/facultypage.jsx:27-46 | Mounting resumes a persisted login and loads the list then. The form and selection start empty. |
| FacultyPage.FacultyPortal.EnterCredentials | frontend/src/pages/facultypage.jsx:270-285 | Typing sets only the credentials. |
| FacultyPage.FacultyPortal.FetchAllODs | frontend/src/pages/facultypage.jsx:48-63 | A successful fetch replaces the list. A failed one keeps it. |
| FacultyPage.FacultyPortal.HandleFacultyLogin | frontend/src/pages/facultypage.jsx:65-100 | The page logs in, stores the session and fetches the list iff the server accepted and the password is "admin123". Otherwise nothing changes. |
| FacultyPage.LoginAccepted | frontend/src/pages/facultypage.jsx:78-93 | The page admits a login only when the server answered ok and the password typed is "admin123". |
| FacultyPage.FacultyPortal.HandleLogout | frontend/src/pages/facultypage.jsx:102-109 | Logout clears session, selection, form and stored entries, and keeps the list. |
| FacultyPage.FacultyPortal.Select | frontend/src/pages/facultypage.jsx:497-556 | Clicking a row or closing the panel sets only the selection. |
| FacultyPage.FacultyPortal.HandleStatusUpdate | frontend/src/pages/facultypage.jsx:111-148 | After a confirmed, successful update, the list is patched, and a selection with the id gets the new status. Otherwise the list and selection are unchanged. |
| DotGrid.HexToRgb | frontend/src/components/dotGrid.jsx:22-30 | Every component is below 256. A text not matching `#?` plus six hexadecimal digits gives black; a matching one gives the values of its digit pairs. |
| DotGrid.MatchesColor | frontend/src/components/dotGrid.jsx:23 | A colour text matches when, after an optional '#', it is exactly six hexadecimal digits. |
| DotGrid.BodyRgb | frontend/src/components/dotGrid.jsx:25-29 | Each component read from six hexadecimal digits is below 256. |
| DotGrid.HexToRgbOfHexString | frontend/src/components/dotGrid.jsx:22-30 | Every colour is read back from its six-digit form, with or without '#'. |
| DotGrid.HexToRgbIgnoresCase | frontend/src/components/dotGrid.jsx:23 | The parser ignores letter case. |
| DotGrid.DefaultColors | frontend/src/components/dotGrid.jsx:35-53 | "#271E37" is (39, 30, 55) and "#5227FF" is (82, 39, 255). |
| DotGrid.Forwarded | frontend/src/components/dotGrid.jsx:11-20 | No more calls are forwarded than were made. |
| DotGrid.LastCall | frontend/src/components/dotGrid.jsx:11-20 | `lastCall` after a history of calls: it starts at 0 and moves to a call's time only when that call is forwarded. |
| DotGrid.ForwardedSpaced | frontend/src/components/dotGrid.jsx:11-20 | The first forwarded call is at time `limit` or later, and consecutive forwarded calls are at least `limit` apart. `lastCall` is the last forwarded time, or 0. |
| DotGrid.SpacedApart | frontend/src/components/dotGrid.jsx:15-17 | With a non-negative limit, neighbours spaced `limit` apart make any two entries `limit` apart. |
| DotGrid.ForwardedApart | frontend/src/components/dotGrid.jsx:11-20 | With a non-negative limit, any two forwarded calls are at least `limit` apart. |
| DotGrid.NegativeLimitExample | frontend/src/components/dotGrid.jsx:11-20 | With limit -10, calls at 0, -8 and -16 are all forwarded, although the first and last are only -16 apart. |
| DotGrid.LastCallNonNegative | frontend/src/components/dotGrid.jsx:12-16 | With a non-negative limit, `lastCall` never goes below 0. |
| DotGrid.EarlyCallDropped | frontend/src/components/dotGrid.jsx:12-15 | With a non-negative limit, a call before time `limit` is never forwarded. |
| DotGrid.Throttle.constructor | frontend/src/components/dotGrid.jsx:11-12 | `lastCall` starts at 0, with no calls. |
| DotGrid.Throttle.Call | frontend/src/components/dotGrid.jsx:13-19 | A call is forwarded iff `now - lastCall >= limit`. Only a forwarded call moves `lastCall`, and the forwarded history grows by exactly that call. |
| DotGrid.Iterations | frontend/src/components/dotGrid.jsx:82-83 | A `for` loop up to a negative bound runs zero times. |
| DotGrid.ComputeLayout | frontend/src/components/dotGrid.jsx:75-79 | The pitch is dot size plus gap. The columns are the most whole pitches that fit in width plus gap, and the rows the most that fit in height plus gap. Neither is negative when width plus gap (height plus gap) is not. |
| DotGrid.FloorFit | frontend/src/components/dotGrid.jsx:76-77 | `Math.floor(v / cell)` whole cells fit in `v`, and one more does not. |
| DotGrid.LayoutCentred | frontend/src/components/dotGrid.jsx:76-78 | The row of dots is centred: the margin left of the first dot equals the margin right of the last, and it is not negative. |
| DotGrid.RowDots | frontend/src/components/dotGrid.jsx:83-85 | A row has one dot per column. |
| DotGrid.GridSize | frontend/src/components/dotGrid.jsx:81-86 | The grid has rows × columns dots. |
| DotGrid.GridRowMajor | frontend/src/components/dotGrid.jsx:81-86 | The grid has rows × columns dots, and the dot at index `y * cols + x` is the dot of row `y`, column `x`. |
| DotGrid.RowDotsAt | frontend/src/components/dotGrid.jsx:83-84 | The `x`-th dot of a row is at column `x`. |
| DotGrid.MakeDots | frontend/src/components/dotGrid.jsx:81-86 | The nested loops build exactly the row-major grid. |
| DotGrid.DotGridCanvas.constructor | frontend/src/components/dotGrid.jsx:47-49 | The page starts without wrapper or canvas, and with no dots. |
| DotGrid.DotGridCanvas.Mount | frontend/src/components/dotGrid.jsx:47-48 | Attaching the wrapper and canvas elements sets the wrapper's size, and the dots stay as they were. |
| DotGrid.DotGridCanvas.BuildGrid | frontend/src/components/dotGrid.jsx:62-88 | Without wrapper or canvas the dots are unchanged. Otherwise they become the grid for the wrapper's size. |
| CrossChecks.AcceptedLoginHasProfile | frontend/src/pages/Studentpage.jsx:98-111 | When the backend (Backend/routes.py:17-19) accepts an address, the page's profile derivation from the address as typed succeeds. The department is the address's department in capitals, and the name is the address's name up to case. |
| CrossChecks.LowerCaseLoginProfile | frontend/src/pages/Studentpage.jsx:102-111 | For an accepted address typed in lower case, the name is the address's name with its first letter in capitals. |
| CrossChecks.AcceptedAddressPieces | frontend/src/pages/Studentpage.jsx:102-104 | An accepted address, in any case, splits at its first '.' and first '@' into a name and a department-and-year piece. |
| CrossChecks.FacultyGate | frontend/src/pages/facultypage.jsx:83-95 | Page and server together admit exactly "admin"/"admin123". The page's own password test never refuses what the server (Backend/routes.py:74) accepted. |
| CrossChecks.PatchAgreesWithStore | frontend/src/pages/facultypage.jsx:116-136 | After a successful PATCH of a listed request (Backend/routes.py:55-68), the page's patched list equals the list a refetch would return. The PATCH fails exactly when the request already has the status. |
| CrossChecks.SubmitThenApprove | Backend/routes.py:33-68 | A freshly submitted request can be approved by the id its submission returned. Approving it again answers 404. |

## Left out

- Network, timers and UI:
  - HTTP transport, JSON encoding, `api.js`, `main.py` and the database connection are not modelled.
  - The 30-second auto-refresh, the loading, password-visibility and "last updated" flags, alerts, toasts and all rendering are not modelled.
  - Backend answers and confirm dialogs are inputs of the page methods.
- Browser storage: `localStorage` is modelled only as plain fields.
- PDF export and the CSV file download (Blob, object URL, file name) are not modelled. The CSV text itself is modelled.
- Date formatting: `formatDate` and `toLocaleDateString` depend on the locale and are not modelled.
  - The CSV's date cell comes from a `renderDate` parameter.
  - ISO-8601 parsing is not modelled: times are integer seconds.
- `Backend/models.py`: pydantic validation is not modelled.
  - This includes the `EmailStr` checks and normalisation, which answer 422 before a handler runs.
  - The submission body is taken as already valid.
- Routes.OdStore.ApplyOd: the error answer 500 "Failed to submit request" is not modelled. `insert_one` always returns an id.
  - The new id is a parameter, required to be fresh, standing for the id the driver generates.
- Routes.IsValidObjectId: only 24-digit hexadecimal strings are accepted.
  - `bytes.fromhex` also skips whitespace inside a 24-character string; that case is not modelled.
- Routes.Project: it does not model documents whose `applied_at` exists but is not a date. Those too answer 500.
- The stored `status` is free text, as in the code. Documents lacking a status are not modelled.
- AsciiText.Lower: case mapping covers ASCII letters only. Python's `lower` and JavaScript's `toLowerCase`/`toUpperCase` also map other Unicode letters.
- StudentPage.LexLess: `localeCompare` is modelled as code-point order. This agrees with the locale order for the three lower-case statuses but need not for arbitrary text.
- StudentPage.Precedes: a record with neither `applied_at` nor `date` is sorted as earliest.
  - In JavaScript its comparison yields NaN, which `sort` treats as "equal", so that order is unspecified.
- DotGrid.ForwardedApart: it requires a non-negative limit. With a negative limit only neighbouring forwarded calls are spaced, as DotGrid.NegativeLimitExample shows.
- StudentPage.Sort: the order is proved and the result is proved a permutation, but stability is not stated. JavaScript's `sort` is stable.
- DotGrid.ComputeLayout: it requires dot size plus gap to be positive, so that case is excluded. With a zero pitch the source divides by zero and gets infinite or NaN counts. With a negative pitch the counts are negative whenever width plus gap is positive; the loops then run zero times, leaving an empty grid with a finite start.
- DotGrid.DotGridCanvas.BuildGrid: the canvas resize, device-pixel-ratio scaling and `getContext` are not modelled. Coordinates are exact reals, not floating point.
- DotGrid.Throttle.Call: `performance.now()` is an integer parameter, and the forwarded function is not modelled. The component's pointer and click handlers, the animation loop and the gsap inertia effect are out of scope.
- The root-level `routes.py`, `models.py` and `database.py`, `LandingPage.jsx` and `App.jsx` are not part of this model.
