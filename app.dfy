/** The request handlers of app.js: registration, login, representative login
    and password change for the Student and Faculty collections, as methods of
    a store that holds both collections. */
module App {
  import opened Options
  import opened JsStrings
  import opened Bcrypt
  import opened Jwt
  import opened EmailDomain
  import opened Records

  /** The local parts a faculty email may have; each is also the stored position. */
  const AllowedPositions: seq<string> := ["ao", "dean", "ada", "dsw"]

  /** Passwords shorter than this (in UTF-16 code units) are refused. */
  const MinPasswordLength: nat := 8

  /** `validatePostion(email)`: the text before the first `@` is an allowed
      position. So an email passes exactly when it is an allowed position,
      either alone or followed by `@` and anything at all. */
  predicate ValidatePosition(email: string): (valid: bool)
    ensures valid <==> exists p :: p in AllowedPositions && (email == p || p + "@" <= email)
  {
    assert forall p :: p in AllowedPositions ==> '@' !in p;
    BeforeFirstAmong(email, '@', AllowedPositions);
    BeforeFirst(email, '@') in AllowedPositions
  }

  /** The local part of `local@domain` is `local` when `local` has no `@`. */
  lemma LocalPartOf(local: string, domain: string)
    requires '@' !in local
    ensures BeforeFirst(local + "@" + domain, '@') == local
  {
    var email := local + "@" + domain;
    assert email[|local|] == '@';
    BeforeFirstUnique(email, '@', local);
  }

  /** An institutional email `local@rguktsklm.ac.in` with an `@`-free local part
      passes the domain gate, has `local` as its position, and passes the
      position check exactly when `local` is an allowed position. */
  lemma InstitutionalEmailOf(local: string)
    requires '@' !in local
    ensures ValidateEmailDomain(Some(local + Suffix)) == Next
    ensures BeforeFirst(local + Suffix, '@') == local
    ensures ValidatePosition(local + Suffix) <==> local in AllowedPositions
  {
    AcceptsAnyLocalPart(local);
    LocalPartOf(local, Suffix[1..]);
    assert Suffix == "@" + Suffix[1..];
    assert local + "@" + Suffix[1..] == local + Suffix;
  }

  /** An allowed position passes alone or in front of any domain. */
  lemma AllowedPositionExamples(domain: string)
    ensures ValidatePosition("ao@" + domain)
    ensures ValidatePosition("dean")
  {
    LocalPartOf("ao", domain);
    assert "ao" + "@" + domain == "ao@" + domain;
    BeforeFirstUnique("dean", '@', "dean");
  }

  /** The check compares the whole local part, case-sensitively. */
  lemma RejectedPositionExamples(domain: string)
    ensures !ValidatePosition("xyz@" + domain)
    ensures !ValidatePosition("AO@" + domain)
    ensures !ValidatePosition("aod@" + domain)
    ensures !ValidatePosition("")
  {
    LocalPartOf("xyz", domain);
    assert "xyz" + "@" + domain == "xyz@" + domain;
    LocalPartOf("AO", domain);
    assert "AO" + "@" + domain == "AO@" + domain;
    LocalPartOf("aod", domain);
    assert "aod" + "@" + domain == "aod@" + domain;
  }

  /** Why a handler refused a request. */
  datatype Reason =
    | InvalidDomain          // the email gate in front of the register routes
    | InvalidPosition        // faculty local part outside the allowed positions
    | AlreadyRegistered      // the email already has a document in the collection
    | PasswordTooShort
    | UnknownEmail           // no document with that email
    | WrongPassword
    | NotRepresentative
    | WrongCurrentPassword
    | NewPasswordTooShort

  /** What a handler answers. `Failed` is the 500 answer of a handler's `catch`;
      `Threw` is a handler that raises an error it does
      not catch itself, so it sends no response of its own. */
  datatype Response =
    | Ok(message: string, token: Option<Token>)
    | Rejected(reason: Reason, message: string)
    | Failed(message: string)  // an error the handler caught and answered with a 500
    | Threw

  const StudentRegistered := "Student email registration is successful"
  const StudentRegistrationFailed := "Failed to register student"
  const FacultyRegistrationFailed := "Failed to register faculty"
  const StudentAlreadyRegistered := "Student email is already registered"
  const FacultyRegistered := "Faculty email registration successful"
  const FacultyAlreadyRegistered := "Faculty email already exists"
  const InvalidFacultyEmail := "Invalid faculty email"
  const PasswordTooShortMessage := "Password is too short"
  const StudentLoggedIn := "Student login successful"
  const InvalidStudentEmail := "Invalid student email"
  const FacultyLoggedIn := "Faculty login successful"
  const RepresentativeLoggedIn := "Representative login successful"
  const InvalidRepresentativeEmail := "Invalid student representative email"
  const NotRepresentativeMessage := "Student email is not registered as representative email"
  const InvalidPasswordMessage := "Invalid password"
  const InvalidStudentAccount := "Invalid Student email"
  const InvalidFacultyAccount := "Invalid Faculty email"
  const InvalidCurrentPasswordMessage := "Invalid current password"
  const NewPasswordTooShortMessage := "New password is too short"
  const PasswordUpdated := "Password updated"

  /** A token for `email`, as every successful login issues it. */
  function TokenFor(email: string): (t: Option<Token>)
    ensures t.Some? && EmailClaim(t.value) == email
  {
    Some(Sign(Payload(email)))
  }

  /** The invariant the handlers keep on the two collections: one document per
      email in each, every email in the institution's domain, and every faculty
      position an allowed one. */
  ghost predicate Consistent(students: seq<Student>, faculty: seq<Faculty>): (r: bool)
    ensures r ==> forall i :: 0 <= i < |students| ==> FindOne(students, students[i].email) == Some(i)
    ensures r ==> forall i :: 0 <= i < |faculty| ==> FindOne(faculty, faculty[i].email) == Some(i)
  {
    var r := UniqueEmails(students) && UniqueEmails(faculty) &&
      (forall i :: 0 <= i < |students| ==> EndsWith(students[i].email, Suffix)) &&
      (forall i :: 0 <= i < |faculty| ==> EndsWith(faculty[i].email, Suffix)) &&
      (forall i :: 0 <= i < |faculty| ==> faculty[i].position in AllowedPositions);
    assert r ==> forall i :: 0 <= i < |students| ==> FindOne(students, students[i].email) == Some(i) by {
      if r {
        forall i | 0 <= i < |students| ensures FindOne(students, students[i].email) == Some(i) {
          FindOneFindsOwnEmail(students, i);
        }
      }
    }
    assert r ==> forall i :: 0 <= i < |faculty| ==> FindOne(faculty, faculty[i].email) == Some(i) by {
      if r {
        forall i | 0 <= i < |faculty| ensures FindOne(faculty, faculty[i].email) == Some(i) {
          FindOneFindsOwnEmail(faculty, i);
        }
      }
    }
    r
  }

  /** The Student and Faculty collections and the routes that act on them. */
  class CredentialStore {
    var students: seq<Student>
    var faculty: seq<Faculty>

    ghost predicate Valid()
      reads this
    {
      Consistent(students, faculty)
    }

    constructor ()
      ensures students == [] && faculty == []
      ensures Valid()
    {
      students := [];
      faculty := [];
    }

    /** `POST /student/register`, behind the email-domain gate. */
    method RegisterStudent(email: Option<string>, password: string, userName: string,
                           isRepresentative: Option<bool>, salt: Salt) returns (r: Response)
      modifies this
      ensures faculty == old(faculty)
      ensures ValidateEmailDomain(email).Reject? ==>
        r == Rejected(InvalidDomain, RejectionMessage) && students == old(students)
      ensures ValidateEmailDomain(email).Next? && FindOne(old(students), email.value).Some? ==>
        r == Rejected(AlreadyRegistered, StudentAlreadyRegistered) && students == old(students)
      ensures ValidateEmailDomain(email).Next? && FindOne(old(students), email.value).None? &&
              Utf16Length(password) < MinPasswordLength ==>
        r == Rejected(PasswordTooShort, PasswordTooShortMessage) && students == old(students)
      ensures ValidateEmailDomain(email).Next? && FindOne(old(students), email.value).None? &&
              Utf16Length(password) >= MinPasswordLength && userName == "" ==>
        r == Failed(StudentRegistrationFailed) && students == old(students)
      ensures r.Ok? <==>
        ValidateEmailDomain(email).Next? && FindOne(old(students), email.value).None? &&
        Utf16Length(password) >= MinPasswordLength && userName != ""
      ensures r.Ok? ==>
        r == Ok(StudentRegistered, None) &&
        students == old(students) +
          [StudentAccount(email.value, userName, Hash(password, salt),
                          isRepresentative.GetOr(DefaultIsRepresentative))]
      ensures old(Valid()) ==> Valid()
    {
      if ValidateEmailDomain(email).Reject? {
        return Rejected(InvalidDomain, RejectionMessage);
      }
      var address := email.value;
      if FindOne(students, address).Some? {
        return Rejected(AlreadyRegistered, StudentAlreadyRegistered);
      }
      if Utf16Length(password) < MinPasswordLength {
        return Rejected(PasswordTooShort, PasswordTooShortMessage);
      }
      var hashed := Hash(password, salt);
      if userName == "" {
        // `Student.create` fails the schema's `required` check on `userName`
        return Failed(StudentRegistrationFailed);
      }
      var created := StudentAccount(address, userName, hashed,
                                    isRepresentative.GetOr(DefaultIsRepresentative));
      AppendUnfoundKeepsUnique(students, created);
      students := students + [created];
      r := Ok(StudentRegistered, None);
    }

    /** `POST /faculty/register`, behind the email-domain gate. */
    method RegisterFaculty(email: Option<string>, password: string, userName: string,
                           salt: Salt) returns (r: Response)
      modifies this
      ensures students == old(students)
      ensures ValidateEmailDomain(email).Reject? ==>
        r == Rejected(InvalidDomain, RejectionMessage) && faculty == old(faculty)
      ensures ValidateEmailDomain(email).Next? && !ValidatePosition(email.value) ==>
        r == Rejected(InvalidPosition, InvalidFacultyEmail) && faculty == old(faculty)
      ensures ValidateEmailDomain(email).Next? && ValidatePosition(email.value) &&
              FindOne(old(faculty), email.value).Some? ==>
        r == Rejected(AlreadyRegistered, FacultyAlreadyRegistered) && faculty == old(faculty)
      ensures ValidateEmailDomain(email).Next? && ValidatePosition(email.value) &&
              FindOne(old(faculty), email.value).None? &&
              Utf16Length(password) < MinPasswordLength ==>
        r == Rejected(PasswordTooShort, PasswordTooShortMessage) && faculty == old(faculty)
      ensures ValidateEmailDomain(email).Next? && ValidatePosition(email.value) &&
              FindOne(old(faculty), email.value).None? &&
              Utf16Length(password) >= MinPasswordLength && userName == "" ==>
        r == Failed(FacultyRegistrationFailed) && faculty == old(faculty)
      ensures r.Ok? <==>
        ValidateEmailDomain(email).Next? && ValidatePosition(email.value) &&
        FindOne(old(faculty), email.value).None? && Utf16Length(password) >= MinPasswordLength &&
        userName != ""
      ensures r.Ok? ==>
        r == Ok(FacultyRegistered, None) &&
        faculty == old(faculty) +
          [FacultyAccount(email.value, userName, Hash(password, salt), BeforeFirst(email.value, '@'))] &&
        faculty[|faculty| - 1].position in AllowedPositions
      ensures old(Valid()) ==> Valid()
    {
      if ValidateEmailDomain(email).Reject? {
        return Rejected(InvalidDomain, RejectionMessage);
      }
      var address := email.value;
      var position := BeforeFirst(address, '@');
      if !ValidatePosition(address) {
        return Rejected(InvalidPosition, InvalidFacultyEmail);
      }
      if FindOne(faculty, address).Some? {
        return Rejected(AlreadyRegistered, FacultyAlreadyRegistered);
      }
      if Utf16Length(password) < MinPasswordLength {
        return Rejected(PasswordTooShort, PasswordTooShortMessage);
      }
      var hashed := Hash(password, salt);
      if userName == "" {
        // `Faculty.create` fails the schema's `required` check on `userName`
        return Failed(FacultyRegistrationFailed);
      }
      var created := FacultyAccount(address, userName, hashed, position);
      AppendUnfoundKeepsUnique(faculty, created);
      faculty := faculty + [created];
      r := Ok(FacultyRegistered, None);
    }

    /** `POST /student/login`. */
    method StudentLogin(email: string, password: string) returns (r: Response)
      ensures FindOne(students, email).None? ==> r == Rejected(UnknownEmail, InvalidStudentEmail)
      ensures FindOne(students, email).Some? &&
              Compare(password, students[FindOne(students, email).value].password) ==>
        r == Ok(StudentLoggedIn, TokenFor(email))
      ensures FindOne(students, email).Some? &&
              !Compare(password, students[FindOne(students, email).value].password) ==>
        r == Rejected(WrongPassword, InvalidPasswordMessage)
    {
      var found := FindOne(students, email);
      if found.None? {
        return Rejected(UnknownEmail, InvalidStudentEmail);
      }
      if Compare(password, students[found.value].password) {
        r := Ok(StudentLoggedIn, Some(Sign(Payload(email))));
      } else {
        r := Rejected(WrongPassword, InvalidPasswordMessage);
      }
    }

    /** `POST /representative/login`, as written: the flag is read from the
        lookup's result before that result is checked, so an unknown email
        makes the handler throw and the "invalid email" answer is never sent. */
    method RepresentativeLogin(email: string, password: string) returns (r: Response)
      ensures FindOne(students, email).None? ==> r == Threw
      ensures FindOne(students, email).Some? &&
              !students[FindOne(students, email).value].isRepresentative ==>
        r == Rejected(NotRepresentative, NotRepresentativeMessage)
      ensures FindOne(students, email).Some? &&
              students[FindOne(students, email).value].isRepresentative ==>
        if Compare(password, students[FindOne(students, email).value].password)
        then r == Ok(RepresentativeLoggedIn, TokenFor(email))
        else r == Rejected(WrongPassword, InvalidPasswordMessage)
    {
      var found := FindOne(students, email);
      if found.None? {
        // `const { isRepresentative } = dbEmail` with `dbEmail === null`
        return Threw;
      }
      var isRepresentative := students[found.value].isRepresentative;
      if !isRepresentative {
        return Rejected(NotRepresentative, NotRepresentativeMessage);
      }
      if Compare(password, students[found.value].password) {
        r := Ok(RepresentativeLoggedIn, Some(Sign(Payload(email))));
      } else {
        r := Rejected(WrongPassword, InvalidPasswordMessage);
      }
    }

    /** `POST /representative/login` with the null check moved before the flag
        is read, as the handler evidently intends. */
    method RepresentativeLoginChecked(email: string, password: string) returns (r: Response)
      ensures r != Threw
      ensures FindOne(students, email).None? ==>
        r == Rejected(UnknownEmail, InvalidRepresentativeEmail)
      ensures FindOne(students, email).Some? &&
              !students[FindOne(students, email).value].isRepresentative ==>
        r == Rejected(NotRepresentative, NotRepresentativeMessage)
      ensures FindOne(students, email).Some? &&
              students[FindOne(students, email).value].isRepresentative ==>
        if Compare(password, students[FindOne(students, email).value].password)
        then r == Ok(RepresentativeLoggedIn, TokenFor(email))
        else r == Rejected(WrongPassword, InvalidPasswordMessage)
    {
      var found := FindOne(students, email);
      if found.None? {
        return Rejected(UnknownEmail, InvalidRepresentativeEmail);
      }
      if !students[found.value].isRepresentative {
        return Rejected(NotRepresentative, NotRepresentativeMessage);
      }
      if Compare(password, students[found.value].password) {
        r := Ok(RepresentativeLoggedIn, Some(Sign(Payload(email))));
      } else {
        r := Rejected(WrongPassword, InvalidPasswordMessage);
      }
    }

    /** `POST /faculty/login`. */
    method FacultyLogin(email: string, password: string) returns (r: Response)
      ensures FindOne(faculty, email).None? ==> r == Rejected(UnknownEmail, InvalidFacultyEmail)
      ensures FindOne(faculty, email).Some? &&
              Compare(password, faculty[FindOne(faculty, email).value].password) ==>
        r == Ok(FacultyLoggedIn, TokenFor(email))
      ensures FindOne(faculty, email).Some? &&
              !Compare(password, faculty[FindOne(faculty, email).value].password) ==>
        r == Rejected(WrongPassword, InvalidPasswordMessage)
    {
      var found := FindOne(faculty, email);
      if found.None? {
        return Rejected(UnknownEmail, InvalidFacultyEmail);
      }
      if Compare(password, faculty[found.value].password) {
        r := Ok(FacultyLoggedIn, Some(Sign(Payload(email))));
      } else {
        r := Rejected(WrongPassword, InvalidPasswordMessage);
      }
    }

    /** `PUT /faculty/change-password`. There is no check that the new password
        differs from the old one. */
    method ChangeFacultyPassword(email: string, oldPassword: string, newPassword: string,
                                 salt: Salt) returns (r: Response)
      modifies this
      ensures students == old(students)
      ensures FindOne(old(faculty), email).None? ==>
        r == Rejected(UnknownEmail, InvalidFacultyAccount) && faculty == old(faculty)
      ensures FindOne(old(faculty), email).Some? &&
              !Compare(oldPassword, old(faculty)[FindOne(old(faculty), email).value].password) ==>
        r == Rejected(WrongCurrentPassword, InvalidCurrentPasswordMessage) && faculty == old(faculty)
      ensures FindOne(old(faculty), email).Some? &&
              Compare(oldPassword, old(faculty)[FindOne(old(faculty), email).value].password) &&
              Utf16Length(newPassword) < MinPasswordLength ==>
        r == Rejected(NewPasswordTooShort, NewPasswordTooShortMessage) && faculty == old(faculty)
      ensures r.Ok? <==>
        FindOne(old(faculty), email).Some? &&
        Compare(oldPassword, old(faculty)[FindOne(old(faculty), email).value].password) &&
        Utf16Length(newPassword) >= MinPasswordLength
      ensures r.Ok? ==>
        var i := FindOne(old(faculty), email).value;
        r == Ok(PasswordUpdated, None) &&
        faculty == old(faculty)[i := WithPassword(old(faculty)[i], Hash(newPassword, salt))]
      ensures old(Valid()) ==> Valid()
    {
      var found := FindOne(faculty, email);
      if found.None? {
        return Rejected(UnknownEmail, InvalidFacultyAccount);
      }
      var i := found.value;
      if !Compare(oldPassword, faculty[i].password) {
        return Rejected(WrongCurrentPassword, InvalidCurrentPasswordMessage);
      }
      if Utf16Length(newPassword) < MinPasswordLength {
        return Rejected(NewPasswordTooShort, NewPasswordTooShortMessage);
      }
      var hashed := Hash(newPassword, salt);
      PasswordUpdateKeepsEmails(faculty, i, hashed);
      faculty := faculty[i := WithPassword(faculty[i], hashed)];
      r := Ok(PasswordUpdated, None);
    }

    /** `PUT /student/change-password`. There is no check that the new password
        differs from the old one. */
    method ChangeStudentPassword(email: string, oldPassword: string, newPassword: string,
                                 salt: Salt) returns (r: Response)
      modifies this
      ensures faculty == old(faculty)
      ensures FindOne(old(students), email).None? ==>
        r == Rejected(UnknownEmail, InvalidStudentAccount) && students == old(students)
      ensures FindOne(old(students), email).Some? &&
              !Compare(oldPassword, old(students)[FindOne(old(students), email).value].password) ==>
        r == Rejected(WrongCurrentPassword, InvalidCurrentPasswordMessage) && students == old(students)
      ensures FindOne(old(students), email).Some? &&
              Compare(oldPassword, old(students)[FindOne(old(students), email).value].password) &&
              Utf16Length(newPassword) < MinPasswordLength ==>
        r == Rejected(NewPasswordTooShort, NewPasswordTooShortMessage) && students == old(students)
      ensures r.Ok? <==>
        FindOne(old(students), email).Some? &&
        Compare(oldPassword, old(students)[FindOne(old(students), email).value].password) &&
        Utf16Length(newPassword) >= MinPasswordLength
      ensures r.Ok? ==>
        var i := FindOne(old(students), email).value;
        r == Ok(PasswordUpdated, None) &&
        students == old(students)[i := WithPassword(old(students)[i], Hash(newPassword, salt))]
      ensures old(Valid()) ==> Valid()
    {
      var found := FindOne(students, email);
      if found.None? {
        return Rejected(UnknownEmail, InvalidStudentAccount);
      }
      var i := found.value;
      if !Compare(oldPassword, students[i].password) {
        return Rejected(WrongCurrentPassword, InvalidCurrentPasswordMessage);
      }
      if Utf16Length(newPassword) < MinPasswordLength {
        return Rejected(NewPasswordTooShort, NewPasswordTooShortMessage);
      }
      var hashed := Hash(newPassword, salt);
      PasswordUpdateKeepsEmails(students, i, hashed);
      students := students[i := WithPassword(students[i], hashed)];
      r := Ok(PasswordUpdated, None);
    }
  }
}
