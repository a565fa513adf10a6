/** Request sequences and what the handlers' contracts say they answer: first
    round trips on any store, then concrete sequences on an empty store, as
    after the first deploy. */
module Scenarios {
  import opened Options
  import opened JsStrings
  import opened Bcrypt
  import opened EmailDomain
  import opened Records
  import opened App

  /** On any store, a successful student registration is followed by a login
      that succeeds exactly with the registered password. */
  method RegisterThenLogin(store: CredentialStore, email: Option<string>, userName: string,
                           password: string, isRepresentative: Option<bool>, attempt: string,
                           salt: Salt)
    returns (registered: Response, login: Response)
    modifies store
    ensures registered.Ok? ==>
      email.Some? && (login.Ok? <==> attempt == password) &&
      (login.Ok? ==> login == Ok(StudentLoggedIn, TokenFor(email.value)))
  {
    var before := store.students;
    registered := store.RegisterStudent(email, password, userName, isRepresentative, salt);
    if registered.Ok? {
      FindOneAppended(before, store.students[|before|]);
      CompareOnlyOwnPassword(password, attempt, salt);
      login := store.StudentLogin(email.value, attempt);
    } else {
      login := registered;
    }
  }

  /** On any store, a successful faculty registration is followed by a login
      that succeeds exactly with the registered password. */
  method RegisterFacultyThenLogin(store: CredentialStore, email: Option<string>, userName: string,
                                  password: string, attempt: string, salt: Salt)
    returns (registered: Response, login: Response)
    modifies store
    ensures registered.Ok? ==>
      email.Some? && (login.Ok? <==> attempt == password) &&
      (login.Ok? ==> login == Ok(FacultyLoggedIn, TokenFor(email.value)))
  {
    var before := store.faculty;
    registered := store.RegisterFaculty(email, password, userName, salt);
    if registered.Ok? {
      FindOneAppended(before, store.faculty[|before|]);
      CompareOnlyOwnPassword(password, attempt, salt);
      login := store.FacultyLogin(email.value, attempt);
    } else {
      login := registered;
    }
  }

  /** On any store, after a successful faculty password change the login
      succeeds exactly with the new password. */
  method ChangeFacultyPasswordThenLogin(store: CredentialStore, email: string, oldPassword: string,
                                        newPassword: string, attempt: string, salt: Salt)
    returns (change: Response, login: Response)
    modifies store
    ensures change.Ok? ==> (login.Ok? <==> attempt == newPassword)
    ensures change.Ok? && login.Ok? ==> login == Ok(FacultyLoggedIn, TokenFor(email))
  {
    var before := store.faculty;
    change := store.ChangeFacultyPassword(email, oldPassword, newPassword, salt);
    if change.Ok? {
      FindOneAfterPasswordUpdate(before, email, Hash(newPassword, salt));
      CompareOnlyOwnPassword(newPassword, attempt, salt);
      login := store.FacultyLogin(email, attempt);
    } else {
      login := change;
    }
  }

  /** On any store, after a successful student password change the login
      succeeds exactly with the new password. */
  method ChangeStudentPasswordThenLogin(store: CredentialStore, email: string, oldPassword: string,
                                        newPassword: string, attempt: string, salt: Salt)
    returns (change: Response, login: Response)
    modifies store
    ensures change.Ok? ==> (login.Ok? <==> attempt == newPassword)
    ensures change.Ok? && login.Ok? ==> login == Ok(StudentLoggedIn, TokenFor(email))
  {
    var before := store.students;
    change := store.ChangeStudentPassword(email, oldPassword, newPassword, salt);
    if change.Ok? {
      FindOneAfterPasswordUpdate(before, email, Hash(newPassword, salt));
      CompareOnlyOwnPassword(newPassword, attempt, salt);
      login := store.StudentLogin(email, attempt);
    } else {
      login := change;
    }
  }

  /** On a store whose student emails are unique, as its invariant keeps them,
      every stored student logs in with the password its digest was made from:
      the lookup finds that very document. */
  method EveryStudentCanLogIn(store: CredentialStore, i: nat, password: string)
    returns (login: Response)
    requires UniqueEmails(store.students)
    requires i < |store.students| && Compare(password, store.students[i].password)
    ensures login == Ok(StudentLoggedIn, TokenFor(store.students[i].email))
  {
    FindOneFindsOwnEmail(store.students, i);
    login := store.StudentLogin(store.students[i].email, password);
  }

  /** A second registration of the same student email is refused and the
      collection keeps a single document for it. */
  method DuplicateStudentRegistration(local: string, userName: string, password: string,
                                      firstSalt: Salt, secondSalt: Salt)
    returns (first: Response, second: Response, documents: nat)
    requires Utf16Length(password) >= MinPasswordLength && userName != ""
    ensures first == Ok(StudentRegistered, None)
    ensures second == Rejected(AlreadyRegistered, StudentAlreadyRegistered)
    ensures documents == 1
  {
    var store := new CredentialStore();
    var email := local + Suffix;
    AcceptsAnyLocalPart(local);
    first := store.RegisterStudent(Some(email), password, userName, None, firstSalt);
    second := store.RegisterStudent(Some(email), password, userName, None, secondSalt);
    documents := |store.students|;
  }

  /** After a student registers, login succeeds with exactly the registered
      password and issues a token for that email; any other password is refused. */
  method StudentLoginAfterRegistration(local: string, userName: string, password: string,
                                       attempt: string, salt: Salt)
    returns (registered: Response, login: Response)
    requires Utf16Length(password) >= MinPasswordLength && userName != ""
    ensures registered == Ok(StudentRegistered, None)
    ensures login.Ok? <==> attempt == password
    ensures login.Ok? ==> login == Ok(StudentLoggedIn, TokenFor(local + Suffix))
    ensures !login.Ok? ==> login == Rejected(WrongPassword, InvalidPasswordMessage)
  {
    var store := new CredentialStore();
    var email := local + Suffix;
    AcceptsAnyLocalPart(local);
    registered := store.RegisterStudent(Some(email), password, userName, None, salt);
    CompareOnlyOwnPassword(password, attempt, salt);
    login := store.StudentLogin(email, attempt);
  }

  /** Representative login never issues a token to a student registered without
      the flag (absent or false), not even for the right password; with the flag
      it behaves like a student login. */
  method RepresentativeNeedsFlag(local: string, userName: string, password: string,
                                 attempt: string, isRepresentative: Option<bool>, salt: Salt)
    returns (login: Response)
    requires Utf16Length(password) >= MinPasswordLength && userName != ""
    ensures isRepresentative != Some(true) ==>
      login == Rejected(NotRepresentative, NotRepresentativeMessage)
    ensures isRepresentative == Some(true) ==>
      (login.Ok? <==> attempt == password) &&
      (login.Ok? ==> login.token == TokenFor(local + Suffix))
  {
    var store := new CredentialStore();
    var email := local + Suffix;
    AcceptsAnyLocalPart(local);
    var _ := store.RegisterStudent(Some(email), password, userName, isRepresentative, salt);
    CompareOnlyOwnPassword(password, attempt, salt);
    login := store.RepresentativeLogin(email, attempt);
  }

  /** On an empty store, representative login throws at the
      destructuring of the missing document; the corrected handler answers with
      the "invalid representative email" message instead. */
  method UnknownRepresentative(email: string, password: string)
    returns (asWritten: Response, corrected: Response)
    ensures asWritten == Threw
    ensures corrected == Rejected(UnknownEmail, InvalidRepresentativeEmail)
  {
    var store := new CredentialStore();
    asWritten := store.RepresentativeLogin(email, password);
    corrected := store.RepresentativeLoginChecked(email, password);
  }

  /** Faculty registration of `position@rguktsklm.ac.in`, for any allowed
      position, succeeds and stores that position. */
  method FacultyRegistrationDerivesPosition(local: string, userName: string, password: string,
                                            salt: Salt)
    returns (registered: Response, position: string)
    requires local in AllowedPositions
    requires Utf16Length(password) >= MinPasswordLength && userName != ""
    ensures registered == Ok(FacultyRegistered, None)
    ensures position == local
  {
    var store := new CredentialStore();
    assert '@' !in local;
    InstitutionalEmailOf(local);
    registered := store.RegisterFaculty(Some(local + Suffix), password, userName, salt);
    position := store.faculty[0].position;
  }

  /** An institutional email whose local part is not an allowed position is
      refused by the faculty handler and nothing is stored. */
  method FacultyPositionRefused(local: string, userName: string, password: string, salt: Salt)
    returns (outsider: Response, documents: nat)
    requires '@' !in local && local !in AllowedPositions
    requires Utf16Length(password) >= MinPasswordLength && userName != ""
    ensures outsider == Rejected(InvalidPosition, InvalidFacultyEmail)
    ensures documents == 0
  {
    var store := new CredentialStore();
    InstitutionalEmailOf(local);
    outsider := store.RegisterFaculty(Some(local + Suffix), password, userName, salt);
    documents := |store.faculty|;
  }

  /** An outside domain is refused by the gate before the faculty handler runs,
      and nothing is stored. */
  method ForeignDomainRefused(userName: string, password: string, salt: Salt)
    returns (foreign: Response, documents: nat)
    requires Utf16Length(password) >= MinPasswordLength && userName != ""
    ensures foreign == Rejected(InvalidDomain, RejectionMessage)
    ensures documents == 0
  {
    var store := new CredentialStore();
    SuffixMatchIsExact();
    foreign := store.RegisterFaculty(Some("john@gmail.com"), password, userName, salt);
    documents := |store.faculty|;
  }

  /** Changing a password to itself is accepted, and the same password still logs in. */
  method SamePasswordChange(local: string, userName: string, password: string,
                            firstSalt: Salt, secondSalt: Salt)
    returns (change: Response, login: Response)
    requires Utf16Length(password) >= MinPasswordLength && userName != ""
    ensures change == Ok(PasswordUpdated, None)
    ensures login == Ok(StudentLoggedIn, TokenFor(local + Suffix))
  {
    var store := new CredentialStore();
    var email := local + Suffix;
    AcceptsAnyLocalPart(local);
    var _ := store.RegisterStudent(Some(email), password, userName, None, firstSalt);
    change := store.ChangeStudentPassword(email, password, password, secondSalt);
    login := store.StudentLogin(email, password);
  }

  /** A wrong current password is refused and the stored hash stays as it was. */
  method WrongCurrentPasswordKeepsHash(local: string, userName: string, password: string,
                              wrong: string, newPassword: string, firstSalt: Salt, secondSalt: Salt)
    returns (change: Response, before: Digest, after: Digest)
    requires Utf16Length(password) >= MinPasswordLength && userName != ""
    requires wrong != password
    ensures change == Rejected(WrongCurrentPassword, InvalidCurrentPasswordMessage)
    ensures before == after == Hash(password, firstSalt)
  {
    var store := new CredentialStore();
    var email := local + Suffix;
    AcceptsAnyLocalPart(local);
    var _ := store.RegisterStudent(Some(email), password, userName, None, firstSalt);
    before := store.students[0].password;
    CompareOnlyOwnPassword(password, wrong, firstSalt);
    change := store.ChangeStudentPassword(email, wrong, newPassword, secondSalt);
    after := store.students[0].password;
  }

  /** After a faculty password change the old password no longer logs in and
      the new one does. */
  method FacultyPasswordRotation(local: string, userName: string, password: string,
                                 newPassword: string, firstSalt: Salt, secondSalt: Salt)
    returns (change: Response, oldLogin: Response, newLogin: Response)
    requires local in AllowedPositions
    requires Utf16Length(password) >= MinPasswordLength && userName != ""
    requires Utf16Length(newPassword) >= MinPasswordLength
    requires newPassword != password
    ensures change == Ok(PasswordUpdated, None)
    ensures oldLogin == Rejected(WrongPassword, InvalidPasswordMessage)
    ensures newLogin == Ok(FacultyLoggedIn, TokenFor(local + Suffix))
  {
    var store := new CredentialStore();
    var email := local + Suffix;
    assert '@' !in local;
    InstitutionalEmailOf(local);
    var _ := store.RegisterFaculty(Some(email), password, userName, firstSalt);
    change := store.ChangeFacultyPassword(email, password, newPassword, secondSalt);
    CompareOnlyOwnPassword(newPassword, password, secondSalt);
    oldLogin := store.FacultyLogin(email, password);
    newLogin := store.FacultyLogin(email, newPassword);
  }
}
