/** The password hasher the handlers call (`bcrypt.hash(password, 10)` and
    `bcrypt.compare(password, stored)`), as an idealised one-way function. */
module Bcrypt {

  /** The random salt `bcrypt.hash` draws for each call; the model takes it as a parameter. */
  type Salt = nat

  /** A stored password hash. The salt is kept in the clear, as bcrypt keeps it
      in its output string. The key stands for the digest of the password; the
      model keeps the whole password there, so no two passwords share a key.
      Real bcrypt reads only the first 72 bytes of the password's UTF-8 form. */
  datatype Digest = Digest(salt: Salt, key: string)

  /** `bcrypt.hash(password, 10)` drawing `salt`. */
  function Hash(password: string, salt: Salt): (d: Digest)
    ensures d.salt == salt
  {
    Digest(salt, password)
  }

  /** `bcrypt.compare(password, stored)`: hash the candidate with the stored
      salt and compare the outcome with the stored digest. */
  predicate Compare(password: string, stored: Digest): (r: bool)
    ensures r <==> password == stored.key
  {
    Hash(password, stored.salt) == stored
  }

  /** A password always matches a hash made from it, whatever the salt. */
  lemma CompareHash(password: string, salt: Salt)
    ensures Compare(password, Hash(password, salt))
  {
  }

  /** ... and no other password matches that hash. */
  lemma CompareOnlyOwnPassword(password: string, candidate: string, salt: Salt)
    ensures Compare(candidate, Hash(password, salt)) <==> candidate == password
  {
  }
}
