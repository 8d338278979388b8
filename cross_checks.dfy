/** Properties that hold only of the pages and the backend together: what the
    student page derives from an address the backend accepted, the faculty
    login gate of page and server combined, and the agreement between the
    faculty page's local status patch and the backend's stored documents. */
module CrossChecks {
  import opened Wrappers
  import opened AsciiText
  import opened Sequences
  import opened RequestView
  import Routes
  import StudentPage
  import FacultyPage

  // ---------------------------------------------------------------------------
  // The student's profile
  // ---------------------------------------------------------------------------

  /** A character that is no letter is in a text exactly when it is in the
      text's lower-cased form. */
  lemma NonLetterInLower(s: string, c: char)
    requires !IsUpperLetter(c) && !IsLowerLetter(c)
    ensures c in Lower(s) <==> c in s
  {
    if c in s {
      var i :| 0 <= i < |s| && s[i] == c;
      LowerKeepsNonLetter(s, c, i);
    }
    if c in Lower(s) {
      var i :| 0 <= i < |s| && Lower(s)[i] == c;
      LowerKeepsNonLetter(s, c, i);
    }
  }

  lemma LowerSlice(s: string, i: nat, j: nat)
    requires i <= j <= |s|
    ensures Lower(s)[i..j] == Lower(s[i..j])
    ensures Lower(s)[..j] == Lower(s[..j])
  {
  }

  /** A character that is no letter is missing from a slice of a text when it
      is missing from the same slice of its lower-cased form. */
  lemma NonLetterMissing(s: string, i: nat, j: nat, c: char)
    requires i <= j <= |s| && !IsUpperLetter(c) && !IsLowerLetter(c)
    requires c !in Lower(s)[i..j]
    ensures c !in s[i..j]
  {
    LowerSlice(s, i, j);
    NonLetterInLower(s[i..j], c);
  }

  lemma NonLetterMissingPrefix(s: string, j: nat, c: char)
    requires j <= |s| && !IsUpperLetter(c) && !IsLowerLetter(c)
    requires c !in Lower(s)[..j]
    ensures c !in s[..j]
  {
    LowerSlice(s, 0, j);
    NonLetterInLower(s[..j], c);
  }

  /** A text cut at a '.' and a later '@'. */
  lemma Reassemble(s: string, n: nat, m: nat)
    requires n < m < |s| && s[n] == '.' && s[m] == '@'
    ensures s == s[..n] + "." + s[n + 1..m] + "" + "@" + s[m + 1..]
  {
    assert s == s[..n] + [s[n]] + s[n + 1..m] + [s[m]] + s[m + 1..];
  }

  /** The local part of a well-formed address: a name and a departmental
      piece, free of '.' and '@', around one '.'. */
  lemma LocalPieces(p: Routes.EmailParts)
    requires Routes.WellFormed(p)
    ensures var local := Routes.LocalPart(p); var n := |p.name|;
      && |local| > n && local[..n] == p.name && local[n] == '.' && local[n + 1..] == p.dept + p.year
      && '@' !in p.name && '.' !in p.name && '@' !in p.dept + p.year && '.' !in p.dept + p.year
  {
    var local := Routes.LocalPart(p);
    var n := |p.name|;
    assert local == p.name + ['.'] + (p.dept + p.year);
    assert AllLowerLetters(p.name) && AllLowerLetters(p.dept) && AllDigits(p.year);
    var rest := p.dept + p.year;
    assert forall i :: 0 <= i < |rest| ==> rest[i] != '@' && rest[i] != '.' by {
      forall i | 0 <= i < |rest| ensures rest[i] != '@' && rest[i] != '.' {
        if i < |p.dept| {
          assert rest[i] == p.dept[i];
        } else {
          assert rest[i] == p.year[i - |p.dept|];
        }
      }
    }
  }

  /** The lower-cased address around its '.' and its '@'. */
  lemma LoweredAddress(email: string, p: Routes.EmailParts)
    requires Routes.WellFormed(p)
    requires Lower(email) == Routes.EmailOf(p) || Lower(email) == Routes.EmailOf(p) + "\n"
    ensures var e := Lower(email); var n := |p.name|; var m := |Routes.LocalPart(p)|;
      && n < m < |e| && e[n] == '.' && e[m] == '@'
      && e[..n] == p.name && e[n + 1..m] == p.dept + p.year
      && '@' !in p.name && '.' !in p.name && '@' !in p.dept + p.year && '.' !in p.dept + p.year
  {
    var e := Lower(email);
    var local := Routes.LocalPart(p);
    var n, m := |p.name|, |local|;
    LocalPieces(p);
    assert m < |e| && e[..m] == local && e[m] == '@' by {
      var tail := if e == Routes.EmailOf(p) then Routes.Domain else Routes.Domain + "\n";
      assert e == local + tail;
      assert tail[0] == '@';
      assert e[m] == tail[0];
      assert e[..m] == local;
    }
    assert e[..n] == local[..n] && e[n + 1..m] == local[n + 1..] && e[n] == local[n];
  }

  /** The text before the first '@' of an address the backend accepts,
      split at its '.', with the lower-cased forms of the two pieces. */
  lemma AcceptedAddressPieces(email: string, p: Routes.EmailParts)
    requires Routes.WellFormed(p)
    requires Lower(email) == Routes.EmailOf(p) || Lower(email) == Routes.EmailOf(p) + "\n"
    ensures |p.name| < |Routes.LocalPart(p)| < |email|
    ensures var n := |p.name|; var m := |Routes.LocalPart(p)|;
      email == email[..n] + "." + email[n + 1..m] + "" + "@" + email[m + 1..]
    ensures var n := |p.name|; var m := |Routes.LocalPart(p)|;
      '@' !in email[..n] && '@' !in email[n + 1..m] && '.' !in email[..n] && '.' !in email[n + 1..m]
    ensures var n := |p.name|; var m := |Routes.LocalPart(p)|;
      Lower(email[..n]) == p.name && Lower(email[n + 1..m]) == p.dept + p.year
  {
    var n, m := |p.name|, |Routes.LocalPart(p)|;
    LoweredAddress(email, p);
    LowerKeepsNonLetter(email, '@', m);
    LowerKeepsNonLetter(email, '.', n);
    Reassemble(email, n, m);
    LowerSlice(email, n + 1, m);
    NonLetterMissingPrefix(email, n, '@');
    NonLetterMissingPrefix(email, n, '.');
    NonLetterMissing(email, n + 1, m, '@');
    NonLetterMissing(email, n + 1, m, '.');
  }

  /** When the backend accepts a student's address, the page's profile
      derivation (which reads the address as typed) does not fail: the
      prefilled department is the address's department in capitals, and the
      prefilled name is the address's name up to case. */
  lemma AcceptedLoginHasProfile(email: string)
    requires Routes.Login(email).Ok?
    ensures var e := Lower(email);
      var p := Routes.ParseLocal(Routes.BeforeDomain(e).value).value;
      var profile := StudentPage.DeriveProfile(email);
      && Routes.WellFormed(p)
      && profile.Some?
      && profile.value.deptName == Upper(p.dept)
      && Lower(profile.value.name) == p.name
  {
    var e := Lower(email);
    Routes.EmailPatternOnlyParts(e);
    var p := Routes.ParseLocal(Routes.BeforeDomain(e).value).value;
    AcceptedAddressPieces(email, p);
    var n, m := |p.name|, |Routes.LocalPart(p)|;
    var first, second := email[..n], email[n + 1..m];
    StudentPage.DeriveProfileOfPieces(first, second, "", email[m + 1..]);
    LowerOfCapitalize(first);
    calc {
      Upper(StripDigits(second));
      { UpperOfLower(StripDigits(second)); }
      Upper(Lower(StripDigits(second)));
      { StripDigitsOfLower(second); }
      Upper(StripDigits(p.dept + p.year));
      { StripDigitsAppend(p.dept, p.year);
        StripDigitsOfLetters(p.dept);
        StripDigitsOfDigits(p.year);
        assert p.dept + "" == p.dept; }
      Upper(p.dept);
    }
  }

  /** For an address typed in lower case the name is the address's name with
      its first letter capitalised. */
  lemma LowerCaseLoginProfile(p: Routes.EmailParts)
    requires Routes.WellFormed(p)
    ensures StudentPage.DeriveProfile(Routes.EmailOf(p))
              == Some(StudentPage.Profile(Capitalize(p.name), Upper(p.dept)))
  {
    LocalPieces(p);
    assert Routes.EmailOf(p) == p.name + "." + (p.dept + p.year) + "" + "@" + "citchennai.net";
    StudentPage.DeriveProfileOfPieces(p.name, p.dept + p.year, "", "citchennai.net");
    StripDigitsAppend(p.dept, p.year);
    StripDigitsOfLetters(p.dept);
    StripDigitsOfDigits(p.year);
    assert p.dept + "" == p.dept;
  }

  // ---------------------------------------------------------------------------
  // The faculty login
  // ---------------------------------------------------------------------------

  /** Page and server together let exactly the fixed account in; the page's
      own password test never refuses what the server accepted. */
  lemma FacultyGate(credentials: FacultyPage.Credentials)
    ensures var ok := Routes.FacultyLogin(credentials.username, credentials.password).Ok?;
      FacultyPage.LoginAccepted(ok, credentials) <==> credentials.username == "admin" && credentials.password == "admin123"
    ensures var ok := Routes.FacultyLogin(credentials.username, credentials.password).Ok?;
      FacultyPage.LoginAccepted(ok, credentials) == ok
  {
  }

  // ---------------------------------------------------------------------------
  // Status updates
  // ---------------------------------------------------------------------------

  /** The faculty page patches its list with the id of a listed request. When
      the backend reports success, the patched list is the listing a refetch
      would return; when it reports failure, the request already had that
      status. */
  lemma PatchAgreesWithStore(docs: seq<Routes.Document>, k: nat, status: string)
    requires Routes.UniqueIds(docs) && Routes.CanonicalIds(docs) && k < |docs|
    ensures var id := docs[k].id;
      var (after, answer) := Routes.UpdateStatus(docs, id, status);
      && (answer.Ok? ==> Map(after, Routes.FullView) == FacultyPage.PatchStatus(Map(docs, Routes.FullView), id, status))
      && (answer.Fail? <==> docs[k].status == status)
  {
    var id := docs[k].id;
    assert Routes.CanonicalId(id) == id;
    assert Routes.FindId(docs, id) == Some(k);
    Routes.UpdateStatusEffect(docs, id, status);
    var (after, answer) := Routes.UpdateStatus(docs, id, status);
    if answer.Ok? {
      var lhs := Map(after, Routes.FullView);
      var rhs := FacultyPage.PatchStatus(Map(docs, Routes.FullView), id, status);
      forall j | 0 <= j < |docs| ensures lhs[j] == rhs[j] {
        if j == k {
          assert after[k] == docs[k].(status := status);
        } else {
          assert after[j] == docs[j];
        }
      }
    }
  }

  /** A freshly submitted request can be approved, and approving it again is
      answered 404. */
  lemma SubmitThenApprove(docs: seq<Routes.Document>, sub: Routes.Submission, now: int, newId: Routes.ObjectId)
    requires forall i :: 0 <= i < |docs| ==> docs[i].id != Routes.RenderObjectId(newId)
    ensures var id := Routes.RenderObjectId(newId);
      var stored := docs + [Routes.Admitted(sub, now, id)];
      var (after, answer) := Routes.UpdateStatus(stored, id, Approved);
      && answer == Routes.Ok("OD status updated to " + Approved)
      && after[|docs|].status == Approved
      && Routes.UpdateStatus(after, id, Approved) == (after, Routes.Fail(404, "Request not found"))
  {
    var id := Routes.RenderObjectId(newId);
    var stored := docs + [Routes.Admitted(sub, now, id)];
    Routes.ParseRenderObjectId(newId);
    assert Routes.CanonicalId(id) == id;
    assert stored[|docs|].id == id;
    assert forall i :: 0 <= i < |docs| ==> stored[i].id != id by {
      forall i | 0 <= i < |docs| ensures stored[i].id != id {
        assert stored[i] == docs[i];
      }
    }
    assert Routes.FindId(stored, id) == Some(|docs|);
    assert stored[|docs|].status == Pending != Approved;
    var r := Routes.UpdateStatus(stored, id, Approved);
    assert r == (stored[|docs| := stored[|docs|].(status := Approved)], Routes.Ok("OD status updated to " + Approved));
    Routes.UpdateTwiceFails(stored, id, Approved);
  }
}
