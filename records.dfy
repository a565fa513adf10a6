/** The two collections' documents, and the lookups the handlers run on them.
    Field lists and defaults follow models/student.js and models/faculty.js;
    the timestamps Mongoose adds are not modelled. */
module Records {
  import opened Options
  import opened Bcrypt

  /** `isRepresentative` when the register request leaves it out. */
  const DefaultIsRepresentative: bool := false

  /** `position` of a faculty document created without one. */
  const DefaultPosition: string := "Faculty"

  /** A stored document. `password` holds what `Bcrypt.Hash` made of the
      password, never the request's string itself (though the idealised digest
      keeps the whole password as its key). */
  datatype Account =
    | StudentAccount(email: string, userName: string, password: Digest, isRepresentative: bool)
    | FacultyAccount(email: string, userName: string, password: Digest, position: string)

  /** A document of the Student collection. */
  type Student = a: Account | a.StudentAccount?
    witness StudentAccount("", "", Digest(0, ""), DefaultIsRepresentative)

  /** A document of the Faculty collection. */
  type Faculty = a: Account | a.FacultyAccount?
    witness FacultyAccount("", "", Digest(0, ""), DefaultPosition)

  /** `Model.findOne({ email })`: the index of the first document with that
      email, or `None` (the source's `null`) when there is none. */
  function FindOne(docs: seq<Account>, email: string): (r: Option<nat>)
    ensures r.Some? ==> r.value < |docs| && docs[r.value].email == email
    ensures r.Some? ==> forall j :: 0 <= j < r.value ==> docs[j].email != email
    ensures r.None? <==> forall j :: 0 <= j < |docs| ==> docs[j].email != email
  {
    if docs == [] then None
    else if docs[0].email == email then Some(0)
    else
      match FindOne(docs[1..], email)
      case None => None
      case Some(k) => Some(k + 1)
  }

  /** At most one document per email. */
  ghost predicate UniqueEmails(docs: seq<Account>)
  {
    forall i, j :: 0 <= i < j < |docs| ==> docs[i].email != docs[j].email
  }

  /** In a collection with unique emails, the lookup finds each document by its own email. */
  lemma FindOneFindsOwnEmail(docs: seq<Account>, i: nat)
    requires UniqueEmails(docs) && i < |docs|
    ensures FindOne(docs, docs[i].email) == Some(i)
  {
  }

  /** After appending a document whose email was not found, the lookup finds it
      at the end. */
  lemma {:induction false} FindOneAppended(docs: seq<Account>, a: Account)
    requires FindOne(docs, a.email).None?
    ensures FindOne(docs + [a], a.email) == Some(|docs|)
  {
    if docs != [] {
      assert docs[0].email != a.email;
      assert (docs + [a])[1..] == docs[1..] + [a];
      FindOneAppended(docs[1..], a);
    }
  }

  /** The lookup depends on the emails alone: two collections with the same
      email at every index answer every lookup alike. */
  lemma {:induction false} FindOneSeesOnlyEmails(docs: seq<Account>, other: seq<Account>, email: string)
    requires |docs| == |other|
    requires forall j :: 0 <= j < |docs| ==> docs[j].email == other[j].email
    ensures FindOne(docs, email) == FindOne(other, email)
  {
    if docs != [] {
      FindOneSeesOnlyEmails(docs[1..], other[1..], email);
    }
  }

  /** Overwriting the password of the document the lookup finds does not move
      the lookup. */
  lemma FindOneAfterPasswordUpdate(docs: seq<Account>, email: string, d: Digest)
    requires FindOne(docs, email).Some?
    ensures var i := FindOne(docs, email).value;
      FindOne(docs[i := WithPassword(docs[i], d)], email) == Some(i)
  {
    var i := FindOne(docs, email).value;
    PasswordUpdateKeepsEmails(docs, i, d);
    FindOneSeesOnlyEmails(docs, docs[i := WithPassword(docs[i], d)], email);
  }

  /** Appending a document whose email the lookup does not find keeps emails unique. */
  lemma AppendUnfoundKeepsUnique(docs: seq<Account>, a: Account)
    requires FindOne(docs, a.email).None?
    ensures UniqueEmails(docs) ==> UniqueEmails(docs + [a])
  {
  }

  /** The document `Model.updateOne({ email }, { password })` leaves behind:
      the password replaced, every other field and the kind of document kept. */
  function WithPassword(a: Account, d: Digest): (b: Account)
    ensures b.password == d
    ensures b.email == a.email && b.userName == a.userName
    ensures b.StudentAccount? <==> a.StudentAccount?
    ensures a.StudentAccount? ==> b.isRepresentative == a.isRepresentative
    ensures a.FacultyAccount? ==> b.position == a.position
  {
    match a
    case StudentAccount(email, userName, _, isRepresentative) =>
      StudentAccount(email, userName, d, isRepresentative)
    case FacultyAccount(email, userName, _, position) =>
      FacultyAccount(email, userName, d, position)
  }

  /** Overwriting one document's password keeps every email, so keeps them unique. */
  lemma PasswordUpdateKeepsEmails(docs: seq<Account>, i: nat, d: Digest)
    requires i < |docs|
    ensures var updated := docs[i := WithPassword(docs[i], d)];
      |updated| == |docs| &&
      (forall j :: 0 <= j < |docs| ==> updated[j].email == docs[j].email) &&
      (UniqueEmails(docs) ==> UniqueEmails(updated))
  {
  }
}
