# mess-authentication: credential lifecycle

A Dafny model of the authentication backend of an institute's mess portal. The
backend keeps two collections, Student and Faculty. Each document holds an email,
a user name and a bcrypt hash of the password. A student document also has an
`isRepresentative` flag, and a faculty document has a `position`. Seven routes act
on them:

- register a student or a faculty member; both run behind the email-domain gate;
- log in as a student, as a faculty member, or as a student representative;
- change a student's or a faculty member's password.

Every successful login issues a token signed over `{ email }`; the signing library adds an issued-at (`iat`) claim, which the model leaves out, so a model token stands for its email claim only.

Modules:

- `JsStrings` (js_strings.dfy) covers the JavaScript string operations the code uses: `length` in UTF-16 code units, `endsWith`, and `split("@")[0]`.
- `Bcrypt` (bcrypt.dfy) and `Jwt` (jwt.dfy) stand in for the hashing and signing libraries.
- `EmailDomain` (email_domain.dfy) is the `validateEmailDomain` middleware, written as a pure decision.
- `Records` (records.dfy) holds the documents and the `findOne` / `updateOne` lookups.
- `App` (app.dfy) holds `validatePostion` and the class `CredentialStore`. The class owns both collections as sequences, and each route is one of its methods. A register route appends a document. A password change overwrites one document's password. A login changes nothing.
- `Scenarios` (scenarios.dfy) holds client methods. The first four state round trips on any store (register or change a password, then log in); `EveryStudentCanLogIn` states what login gives on any store whose student emails are unique; the rest run a sequence of requests against a fresh store and state the answers.

The class invariant `Valid()` (the predicate `App.Consistent`) says three things. Each collection has at most one document per email. Every stored email ends with `@rguktsklm.ac.in`. Every faculty position is one of `ao`, `dean`, `ada`, `dsw`. The constructor establishes it, and every mutating route ensures `old(Valid()) ==> Valid()`. The routes do not require it. They work on any store, as the code does, and take the first document with a matching email, as `findOne` and `updateOne` do.

Three behaviours a reader might expect are absent from the code, and the model keeps them absent:

- No route checks for missing request fields.
- The password-change routes do not reject a new password equal to the old one.
- Representative login reads the flag before it checks that the student exists (see Findings).

## Model

| member | source | states |
|---|---|---|
| JsStrings.Utf16Length | app.js:48 | `password.length` counts UTF-16 code units: at least the number of characters and at most twice it, and exactly it when every character lies in the Basic Multilingual Plane |
| JsStrings.BeforeFirst | app.js:142 | `email.split("@")[0]` is a prefix of the email that contains no `@` and stops at the first `@`, or at the end when there is none |
| JsStrings.BeforeFirstUnique | app.js:142 | those three properties determine the split's result uniquely |
| JsStrings.EndsWith | middlewares/validateEmailDomain.js:6 | `endsWith` holds exactly when the suffix fits and each of its characters equals the character at the same distance from the end of the string |
| JsStrings.EndsWithAppended | middlewares/validateEmailDomain.js:6 | any text followed by a suffix ends with that suffix |
| JsStrings.EndsWithSplits | middlewares/validateEmailDomain.js:6 | a string that ends with a suffix is its front part followed by the suffix |
| JsStrings.BeforeFirstAmong | app.js:142-146 | when no candidate contains the separator, the text before the first separator is a candidate exactly when the string is that candidate, alone or followed by the separator and anything |
| App.ValidatePosition | app.js:141-153 | `validatePostion(email)` holds exactly when the email is one of `ao`, `dean`, `ada`, `dsw`, either alone or followed by `@` and anything |
| App.LocalPartOf | app.js:159 | the derived position of `local@domain` is `local` whenever `local` has no `@` |
| App.InstitutionalEmailOf | app.js:159-161 | `local@rguktsklm.ac.in` with an `@`-free `local` passes the domain gate, derives position `local`, and passes the position check exactly when `local` is an allowed position |
| App.AllowedPositionExamples | app.js:144-148 | `ao@…` and a bare `dean` pass the position check |
| App.RejectedPositionExamples | app.js:144-152 | `xyz@…`, `AO@…` (case-sensitive), `aod@…` (whole local part compared) and the empty string fail the position check |
| EmailDomain.ValidateEmailDomain | middlewares/validateEmailDomain.js:2-15 | the middleware only decides: it passes the request on, or rejects it with the fixed domain message, and changes nothing |
| EmailDomain.MissingOrEmptyRejected | middlewares/validateEmailDomain.js:6-12 | an absent or empty email is rejected and the request is not passed on |
| EmailDomain.NextIffSuffix | middlewares/validateEmailDomain.js:6-14 | a present email is passed on exactly when it ends with `@rguktsklm.ac.in` |
| EmailDomain.AcceptsAnyLocalPart | middlewares/validateEmailDomain.js:6 | the local part is not inspected: any text, the empty text included, followed by the suffix passes |
| EmailDomain.PassedIsLocalPartAndSuffix | middlewares/validateEmailDomain.js:6 | every email that passes is some local part followed by exactly the suffix |
| EmailDomain.SuffixMatchIsExact | middlewares/validateEmailDomain.js:6 | the bare suffix passes, while `x@RGUKTSKLM.AC.IN` (case differs) and `john@gmail.com` are rejected |
| Bcrypt.Hash | app.js:55 | a hash records the salt it was made with |
| Bcrypt.Compare | app.js:88 | `bcrypt.compare` accepts a password exactly when it is the password the stored digest was made from (idealised; see Left out) |
| Bcrypt.CompareHash | app.js:88 | `bcrypt.compare` accepts a password against any hash made from it |
| Bcrypt.CompareOnlyOwnPassword | app.js:88 | `bcrypt.compare` accepts no other password against that hash |
| Jwt.Sign | app.js:90-91 | the signed token carries its payload unchanged |
| Jwt.EmailClaim | app.js:90-91 | the email claim of a token is the email whose `{ email }` payload signs to exactly that token |
| Jwt.SignedClaimRoundTrip | app.js:90-91 | the email claim read back from a login token is the email it was signed for |
| App.TokenFor | app.js:90-91 | a login issues a token whose email claim is the request's email |
| Records.FindOne | app.js:40 | `findOne({ email })` gives the first document with that email, and none exactly when no document has it |
| Options.GetOr | models/student.js:18-21 | an absent `isRepresentative` takes the schema default, and a given one is kept |
| Records.FindOneAppended | app.js:57-62 | after a document with a new email is created, `findOne` on that email finds it at the end of the collection |
| Records.FindOneSeesOnlyEmails | app.js:81 | `findOne({ email })` depends on the documents' emails alone |
| Records.FindOneAfterPasswordUpdate | app.js:256 | after `updateOne` changes the found document's password, `findOne` still finds that document |
| Records.FindOneFindsOwnEmail | app.js:40 | in a collection with unique emails the lookup finds every document at its own index |
| Records.AppendUnfoundKeepsUnique | app.js:40-62 | appending a document whose email the lookup did not find keeps emails unique |
| Records.WithPassword | app.js:256 | `updateOne({ email }, { password })` replaces the password and keeps the email, user name, kind of document, flag and position |
| Records.PasswordUpdateKeepsEmails | app.js:298 | overwriting one password keeps every email, so uniqueness is kept |
| App.Consistent | app.js:40-62 | the store invariant (`CredentialStore.Valid`): one document per email in each collection, every email ends with the institution's suffix, every faculty position is allowed; it implies that every document is the one `findOne` returns for its email |
| App.CredentialStore.constructor | models/student.js:28 | a new store has empty Student and Faculty collections (the Faculty model is created at models/faculty.js:28) and satisfies the invariant |
| App.CredentialStore.RegisterStudent | app.js:36-76 | after the gate, a registered email is refused, and then a password under 8 code units is refused, each leaving the store unchanged. An empty user name fails the schema's required check and gives the 500 "Failed to register student", store unchanged. Otherwise exactly one document is appended, holding the given email and user name, the hash of the password and the flag (false when absent), and the invariant is kept |
| App.CredentialStore.RegisterFaculty | app.js:156-198 | after the gate the position check runs first, before any lookup. Then a registered email is refused and then a short password, each leaving the store unchanged. An empty user name gives the 500 "Failed to register faculty", store unchanged. Otherwise exactly one document is appended whose position is the email's local part, an allowed position, and the invariant is kept |
| App.CredentialStore.StudentLogin | app.js:79-103 | an unknown email gives "Invalid student email"; a matching password gives a token for `{ email }`; otherwise "Invalid password". The store is not modified |
| App.CredentialStore.RepresentativeLogin | app.js:106-138 | an unknown email makes the handler throw. A student without the flag is refused, whatever the password. A flagged student gets a token only for a matching password. The store is not modified |
| App.CredentialStore.RepresentativeLoginChecked | app.js:106-138 | the same route with the missing-student check first: it never throws, and an unknown email gives "Invalid student representative email" |
| App.CredentialStore.FacultyLogin | app.js:201-225 | an unknown email gives "Invalid faculty email"; a matching password gives a token for `{ email }`; otherwise "Invalid password". The store is not modified |
| App.CredentialStore.ChangeFacultyPassword | app.js:228-267 | an unknown email, then a non-matching old password, then a new password under 8 code units are each refused with the store unchanged. Otherwise only the found document's password becomes the hash of the new one, an equal new password included, and the invariant is kept |
| App.CredentialStore.ChangeStudentPassword | app.js:270-309 | the same checks in the same order on the Student collection. On success only that student's password changes |
| Scenarios.RegisterThenLogin | app.js:57-96 | on any store, after a successful student registration the login succeeds exactly with the registered password and issues a token for that email |
| Scenarios.RegisterFacultyThenLogin | app.js:179-218 | on any store, after a successful faculty registration the login succeeds exactly with the registered password |
| Scenarios.ChangeFacultyPasswordThenLogin | app.js:255-256 | on any store, after a successful faculty password change the login succeeds exactly with the new password |
| Scenarios.ChangeStudentPasswordThenLogin | app.js:297-298 | on any store, after a successful student password change the login succeeds exactly with the new password |
| Scenarios.EveryStudentCanLogIn | app.js:81-96 | on a store whose student emails are unique (the uniqueness part of the invariant), every stored student logs in with the password its digest was made from and gets a token for its own email |
| Scenarios.DuplicateStudentRegistration | app.js:40-46 | a second registration of the same email is refused and one document remains |
| Scenarios.StudentLoginAfterRegistration | app.js:79-103 | after registering, login succeeds exactly with the registered password, and the token is for that email |
| Scenarios.RepresentativeNeedsFlag | app.js:117-122 | a student registered without `isRepresentative: true` is never given a representative token, even with the right password |
| Scenarios.UnknownRepresentative | app.js:108-116 | on an empty store, the route as written throws, and the corrected route answers with the invalid-email message |
| Scenarios.FacultyRegistrationDerivesPosition | app.js:159-184 | for every allowed position `p` (`ao`, `dean`, `ada`, `dsw`), registering `p@rguktsklm.ac.in` on a fresh store succeeds and stores position `p` |
| Scenarios.FacultyPositionRefused | app.js:159-161 | for every `@`-free local part that is not an allowed position, `local@rguktsklm.ac.in` passes the domain gate but is refused by the faculty route as an invalid faculty email, and nothing is stored |
| Scenarios.ForeignDomainRefused | app.js:156 | `john@gmail.com` sent to the faculty route is refused by the domain gate, and nothing is stored |
| Scenarios.SamePasswordChange | app.js:270-302 | changing a password to the same password is accepted, and that password still logs in |
| Scenarios.WrongCurrentPasswordKeepsHash | app.js:281-290 | a wrong current password is refused and the stored hash is unchanged |
| Scenarios.FacultyPasswordRotation | app.js:228-260 | for a faculty member registered as `p@rguktsklm.ac.in` with any allowed position `p`, after a password change the old password is refused at login and the new one logs in with the token for that email |

## Findings

| source | as written | input that shows it | evidently intended | confidence | as-written member | corrected member |
|---|---|---|---|---|---|---|
| app.js:108-116 | `const { isRepresentative } = dbEmail` runs before `if (!dbEmail)`, so a missing student makes the route throw a TypeError, and the 400 "Invalid student representative email" answer can never be sent | representative login with any email that has no Student document, e.g. on an empty store (`Scenarios.UnknownRepresentative`) | check for the missing document first and answer 400 "Invalid student representative email" | high; not executed | App.CredentialStore.RepresentativeLogin | App.CredentialStore.RepresentativeLoginChecked |

## Left out

- Server setup is not modelled: Express, `connectDB`, `mongoose.connect`, `app.listen`, cors, dotenv and the `/` route. This is I/O plumbing.
- `GET /students` is not modelled. It returns the Student collection and has no logic.
- Bcrypt internals are not modelled: the 10 cost rounds, how the salt is drawn, and timing resistance. The salt is a parameter of each route that hashes.
- Bcrypt.Hash: does not model that bcrypt reads only the first 72 bytes of the password's UTF-8 form; the model keeps the whole password as the digest's key. So `Bcrypt.Compare` and `Bcrypt.CompareOnlyOwnPassword` accept exactly the hashed password, while real bcrypt also accepts any password with the same first 72 bytes. The rows that rest on this are `Scenarios.StudentLoginAfterRegistration`, `Scenarios.RepresentativeNeedsFlag`, `Scenarios.FacultyPasswordRotation`, `Scenarios.WrongCurrentPasswordKeepsHash` and the four `Scenarios.…ThenLogin` round trips. They hold as stated only when every password compared is at most 72 UTF-8 bytes long: the registered or new password that was hashed, and also the attempt, the wrong current password or the old password it is compared against. A 72-byte password and the same text followed by more characters are one password to real bcrypt.
- JWT signing is not modelled: the fixed secret `"secret_token"` and the encoding. A token is the payload `{ email }` it carries.
- Jwt.Sign: does not model the `iat` (issued-at) claim that `jwt.sign` adds by default at app.js:91, 126 and 213, nor the clock it reads. Real tokens from two logins in different seconds differ; a model token depends on the email alone and stands only for its email claim. The exact tokens stated by the login routes and by `Scenarios.SamePasswordChange`, `Scenarios.FacultyPasswordRotation`, `Scenarios.StudentLoginAfterRegistration` and the `…ThenLogin` round trips are exact for that claim only.
- Of the `try`/`catch` 500 answers only the empty `userName` is modelled (outcome `Failed`). Storage or hashing failures, and the errors a missing or non-string `password`, `newPassword` or `userName` would raise, are not. The request fields other than `email` are present strings, and `isRepresentative` is an optional boolean. Mongoose's casting of non-boolean flag values is not modelled.
- A non-string JSON `email` is not modelled: the model's email is an absent value or a string. A number or an array gets past `!email` and makes `email.endsWith` throw in the domain gate, and in the login and password-change routes an object email would act as a query operator in `findOne({ email })`.
- The model does not say what Express or Node does after a handler throws. The throw at app.js:109 is the outcome `Threw`. Whether the request hangs or the process stops depends on versions outside this code.
- HTTP status codes, `console.log` output, and the difference between plain-text and JSON bodies are not modelled. Only the outcome and the message text are.
- The `createdAt`/`updatedAt` timestamps are not modelled.
- Two concurrent registrations of the same email can race. That is concurrency, and the code does not handle it. Each route is one atomic step here.
- JavaScript strings may hold unpaired surrogates, but Dafny characters cannot. `split` and `endsWith` are modelled on characters, which matches code units for well-formed strings because `@` and the suffix are ASCII.
