/** The `validateEmailDomain` middleware that runs in front of both register
    routes: it lets a request through only when its email carries the
    institution's domain. */
module EmailDomain {
  import opened Options
  import opened JsStrings

  const Suffix: string := "@rguktsklm.ac.in"

  const RejectionMessage: string :=
    "Invalid email domain. Only '@rguktsklm.ac.in' emails are allowed."

  /** What the middleware does with a request: pass it on to the handler
      (`next()`), or answer it with a 400 and the message. */
  datatype Decision = Next | Reject(message: string)

  /** `email` is `req.body.email`; `None` when the field is absent or null.
      The middleware reads the field and changes nothing in the request. */
  function ValidateEmailDomain(email: Option<string>): (d: Decision)
    ensures d.Reject? ==> d.message == RejectionMessage
  {
    if email.None? || email.value == "" || !EndsWith(email.value, Suffix) then
      Reject(RejectionMessage)
    else
      Next
  }

  /** An absent or empty email is answered with the rejection. */
  lemma MissingOrEmptyRejected(email: Option<string>)
    requires email.None? || email.value == ""
    ensures ValidateEmailDomain(email) == Reject(RejectionMessage)
  {
  }

  /** A present email is passed on exactly when it ends with the suffix: the
      emptiness test is subsumed, since the suffix itself is not empty. */
  lemma NextIffSuffix(email: string)
    ensures ValidateEmailDomain(Some(email)).Next? <==> EndsWith(email, Suffix)
  {
  }

  /** The local part is not inspected: any text followed by the suffix passes,
      the empty local part included. */
  lemma AcceptsAnyLocalPart(local: string)
    ensures ValidateEmailDomain(Some(local + Suffix)) == Next
  {
    EndsWithAppended(local, Suffix);
  }

  /** Every email that passes is some local part followed by exactly the suffix. */
  lemma PassedIsLocalPartAndSuffix(email: string)
    requires ValidateEmailDomain(Some(email)).Next?
    ensures |email| >= |Suffix|
    ensures email == email[..|email| - |Suffix|] + Suffix
  {
    EndsWithSplits(email, Suffix);
  }

  /** The match is case-sensitive and the domain must be the institution's. */
  lemma SuffixMatchIsExact()
    ensures ValidateEmailDomain(Some(Suffix)) == Next
    ensures ValidateEmailDomain(Some("x@RGUKTSKLM.AC.IN")).Reject?
    ensures ValidateEmailDomain(Some("john@gmail.com")).Reject?
  {
    AcceptsAnyLocalPart("");
    assert "" + Suffix == Suffix;
    var upper := "x@RGUKTSKLM.AC.IN";
    assert upper[|upper| - |Suffix|..][1] == 'R';
  }
}
