/** `HashBCrypt` (src/support/hash/hash_bcrypt.rs): a password is stored as its bcrypt
    digest and later checked against it. The bcrypt algorithm itself is a parameter: a
    `Hasher` gives the digest of a password under a salt, and the verdict of a candidate
    password against a digest; either may fail with a library error. */
module HashBcrypt {
  import opened Wrappers
  import opened Errors
  import Utf8

  /** What `bcrypt::hash` gives: a digest or a library error. */
  datatype HashOutcome = Hashed(digest: string) | HashFailed(cause: string)

  /** What `bcrypt::verify` gives: whether the candidate matches, or a library error. */
  datatype VerifyOutcome = Checked(matches: bool) | VerifyFailed(cause: string)

  /** The bcrypt library: `hash(password, salt)` and `verify(candidate, digest)`. The
      random salt `bcrypt::hash` draws is an explicit argument. */
  datatype Hasher = Hasher(hash: (string, nat) -> HashOutcome, verify: (string, string) -> VerifyOutcome)

  /** The longest key bcrypt reads, in bytes. */
  const MaxKeyLength := 72

  /** The key bcrypt derives from a password: its UTF-8 bytes with a NUL appended, cut
      to the first 72 bytes. Two passwords with the same key cannot be told apart. */
  function Key(password: string): (k: seq<byte>)
    ensures |k| <= MaxKeyLength
    ensures |Utf8.Encode(password)| < MaxKeyLength ==> k == Utf8.Encode(password) + [0]
    ensures |Utf8.Encode(password)| >= MaxKeyLength ==> k == Utf8.Encode(password)[..MaxKeyLength]
  {
    var bytes := Utf8.Encode(password) + [0];
    if |bytes| <= MaxKeyLength then bytes else bytes[..MaxKeyLength]
  }

  /** A digest made from a password verifies that password. */
  ghost predicate Complete(h: Hasher) {
    forall password, salt ::
      h.hash(password, salt).Hashed? ==> h.verify(password, h.hash(password, salt).digest) == Checked(true)
  }

  /** A digest made from a password verifies exactly the candidates with the same key. */
  ghost predicate Distinguishes(h: Hasher) {
    forall password, salt, candidate ::
      h.hash(password, salt).Hashed? ==>
        h.verify(candidate, h.hash(password, salt).digest) == Checked(Key(candidate) == Key(password))
  }

  /** `HashBCrypt::encode`: the digest of `data`, or 500 "BcryptError error: Error to hash :: …". */
  function Encode(h: Hasher, data: string, salt: nat): (r: Result<string>)
    ensures r.Ok? <==> h.hash(data, salt).Hashed?
    ensures r.Ok? ==> r.value == h.hash(data, salt).digest
    ensures r.Err? ==> r.error == ToBusinessError(LibraryError(Bcrypt, h.hash(data, salt).cause), "Error to hash", None)
  {
    match h.hash(data, salt)
    case Hashed(digest) => Ok(digest)
    case HashFailed(cause) => Err(ToBusinessError(LibraryError(Bcrypt, cause), "Error to hash", None))
  }

  /** `HashBCrypt::verify(data_hashed, data)`: whether `data` matches the digest, or
      500 "BcryptError error: Error to verify :: …". */
  function Verify(h: Hasher, dataHashed: string, data: string): (r: Result<bool>)
    ensures r.Ok? <==> h.verify(data, dataHashed).Checked?
    ensures r.Ok? ==> r.value == h.verify(data, dataHashed).matches
    ensures r.Err? ==> r.error == ToBusinessError(LibraryError(Bcrypt, h.verify(data, dataHashed).cause), "Error to verify", None)
  {
    match h.verify(data, dataHashed)
    case Checked(matches) => Ok(matches)
    case VerifyFailed(cause) => Err(ToBusinessError(LibraryError(Bcrypt, cause), "Error to verify", None))
  }

  /** A hasher that tells keys apart verifies every password against its own digest. */
  lemma DistinguishesIsComplete(h: Hasher)
    requires Distinguishes(h)
    ensures Complete(h)
  {
    forall password, salt | h.hash(password, salt).Hashed?
      ensures h.verify(password, h.hash(password, salt).digest) == Checked(true)
    {
      var digest := h.hash(password, salt).digest;
      assert h.verify(password, digest) == Checked(Key(password) == Key(password));
    }
  }

  /** A stored digest verifies the password it was made from and every other password
      with the same key, and refuses the rest. */
  lemma VerifyEncoded(h: Hasher, password: string, salt: nat, candidate: string)
    requires Distinguishes(h)
    requires Encode(h, password, salt).Ok?
    ensures Verify(h, Encode(h, password, salt).value, candidate) == Ok(Key(candidate) == Key(password))
  {
  }

  /** A stored digest verifies the password it was made from. */
  lemma VerifyOwnPassword(h: Hasher, password: string, salt: nat)
    requires Complete(h)
    requires Encode(h, password, salt).Ok?
    ensures Verify(h, Encode(h, password, salt).value, password) == Ok(true)
  {
  }

  /** Passwords of at most 71 bytes have the same key only if they are equal. */
  lemma ShortKeysDiffer(password: string, candidate: string)
    requires |Utf8.Encode(password)| < MaxKeyLength && |Utf8.Encode(candidate)| < MaxKeyLength
    ensures Key(candidate) == Key(password) <==> candidate == password
  {
    if Key(candidate) == Key(password) {
      var p, c := Utf8.Encode(password), Utf8.Encode(candidate);
      assert p == (p + [0])[..|p|] && c == (c + [0])[..|c|];
      Utf8.DecodeEncode(password);
      Utf8.DecodeEncode(candidate);
    }
  }

  /** Two different passwords that agree on their first 72 bytes have the same key, so
      either verifies against the digest of the other. */
  lemma LongPasswordsShareKey()
    ensures var common := seq(MaxKeyLength, i => 0x61 as byte);
      var password, candidate := Utf8.FromAscii(common + [0x78]), Utf8.FromAscii(common + [0x79]);
      candidate != password && Key(candidate) == Key(password)
  {
    var common := seq(MaxKeyLength, i => 0x61 as byte);
    var p, c := common + [0x78], common + [0x79];
    Utf8.EncodeFromAscii(p);
    Utf8.EncodeFromAscii(c);
    assert p[..MaxKeyLength] == common == c[..MaxKeyLength];
    assert p[MaxKeyLength] != c[MaxKeyLength];
  }

  /** Both operations fail only with a 500 and without tags. */
  lemma FailuresAreServerErrors(h: Hasher, data: string, salt: nat, digest: string)
    ensures Encode(h, data, salt).Err? ==> IntoResponse(Encode(h, data, salt).error).status == InternalServerError
    ensures Verify(h, digest, data).Err? ==> IntoResponse(Verify(h, digest, data).error).status == InternalServerError
  {
  }
}
