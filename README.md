# Credential and biometrics backend — a Dafny model

This project models the decision logic of a small HTTP backend. Customers sign up with an
e-mail and a password, which is stored as a bcrypt digest. They sign in and receive an
RS256 JSON Web Token in the `Authorization` header. Each customer can create, read and
update one biometric record: an image path plus a review status.

The model covers:

- **Errors** (`Errors`, `Observability`). Every failure becomes an `AppErrorData` of
  status, message and optional tags. Library errors become 500 with the message
  `"<prefix>: <operation> :: <cause>"`. JSON extractor rejections keep their own status.
  The response carries the status and a `{status, message}` body. It is logged at error
  level exactly when the status is 5xx.
- **Keys and tokens**:
  - `Base64` implements the padded standard alphabet of section 4 of RFC 4648 over bytes,
    as `data_encoding::BASE64` decodes it: a padded quantum may be followed by more
    quanta, so concatenated encodings decode to the concatenated bytes.
  - `Utf8` is the UTF-8 encoding of Unicode scalar values.
  - `HashBase64` chains the two, as the key loader does.
  - `Jwt` loads keys (base64, then PEM for RS256 only), signs and extracts claims. PEM
    parsing, RSA and the JWS compact serialisation are a parameter, `JwtBackend`, whose
    promises are the ghost predicate `Jwt.Sound`. A key problem is a 500. A token refused
    under a good key is a 401.
- **Validators and identifiers**:
  - `AuthValidators` and `BiometricsValidators` give 400 with fixed messages.
  - `Uuid` has the hyphenated text form, `Uuid::parse_str` for its four accepted lengths,
    and `to_uuid`.
- **Entities and queries**:
  - `AuthDomain` and `BiometricsDomain` hold the entities, their response forms and the
    table queries.
  - `Timestamp` is the RFC 3339 rendering at whole seconds (section 5.6 of RFC 3339),
    written as chrono writes it.
- **Unit of work and handlers**:
  - `Database` has a `Store` of committed tables, `Transaction` objects that see the
    committed tables plus their own writes, and `AppState`, which begins and commits them.
  - Each of the five handlers (`SingUpUseCase`, `SingInUseCase`, `CreateUseCase`,
    `GetByUseCase`, `UpdateUseCase`) is a method that runs validate → begin → read/write →
    commit. It returns early, without a commit, on the first error.
  - Each method is proved equal to a specification function over the tables. The
    properties are lemmas about that function.

External effects are parameters:

- The clock: `DateTime` values, and seconds for token expiry.
- The fresh version 7 id.
- The bcrypt salt, and the hasher itself (`HashBcrypt.Hasher`, with promises in
  `HashBcrypt.Complete` and `HashBcrypt.Distinguishes`). bcrypt reads at most 72 bytes of
  the password (`HashBcrypt.Key`), so two passwords that share those bytes verify alike.
- The JWT library.
- Database failures: `Database.DbFaults`, an optional cause for `begin`, a read, a write
  and `commit`.

The customer table is a map keyed by e-mail, so e-mails are unique by construction.
Unique ids are the invariant `AuthDomain.TableValid`. The biometrics table is a map keyed
by customer id. Its rows must name existing customers (`BiometricsDomain.TableValid`),
which models the foreign key.

## Model

| member | source | states |
|---|---|---|
| Observability.DefaultTags | backend/src/infra/observability.rs:1-4 | the default tags have no user id |
| Observability.ToTags | backend/src/infra/observability.rs:10-15 | `to_tags` copies the user id and gives a value equal to its input, hence idempotent |
| Errors.Fail | backend/src/infra/errors.rs:37-48 | `AppErrorData::new(...).to_business_error()` without tags is a `Business` error with exactly that status and message |
| Errors.GetTags | backend/src/infra/errors.rs:50-56 | the stored tags when present, otherwise the default tags (no user id) |
| Errors.ToAppErrorData | backend/src/infra/errors.rs:95-119 | a business error keeps its data; both reqwest variants become 500 "Reqwest client error :: cause" without tags; both JSON rejections keep their own status and body text without tags |
| Errors.BusinessRoundTrip | backend/src/infra/errors.rs:46-48 | wrapping data with `to_business_error` and unwrapping it gives it back, and the HTTP status is the data's status |
| Errors.ToBusinessError | backend/src/infra/errors.rs:145-241 | every library error becomes 500 with message "prefix: operation :: cause" and the caller's tags unchanged |
| Errors.LibraryMessageDeterminesCause | backend/src/infra/errors.rs:145-241 | under one library and one operation, the message of a library error determines its cause |
| Errors.IntoResponse | backend/src/infra/errors.rs:60-93 | the HTTP status is the error's status; the body is exactly {status, message}; the log level is error if and only if the status is 5xx, else info; the tags in the extensions are `get_tags` |
| Errors.LibraryErrorResponse | backend/src/infra/errors.rs:60-93 | a library error is answered 500, logged at error level with the caller's user id, and keeps its message in the body |
| Utf8.DecodeEncode | src/support/hash/base64.rs:10-11 | the bytes of a string always decode back to it, so `String::from_utf8` accepts them |
| Utf8.Encode | src/support/hash/base64.rs:8 | a text has at least as many bytes as characters |
| Utf8.Decode | src/support/hash/base64.rs:10-11 | a decoded text has at most as many characters as there are bytes, and at least a quarter as many |
| Utf8.EncodeDecode | src/support/hash/base64.rs:10-11 | bytes that decode as UTF-8 are exactly the encoding of the decoded string |
| Base64.Encode | src/support/hash/base64.rs:14-16 | the output is 4·⌈n/3⌉ ASCII symbols |
| Base64.DecodeEncode | src/support/hash/base64.rs:14-16 | decoding the encoding of any bytes gives them back |
| Base64.Decode | src/support/hash/base64.rs:7-9 | a text whose length is not a multiple of four is "invalid length"; a decoded text of n quanta gives between n and 3n bytes |
| Base64.DecodeConcat | src/support/hash/base64.rs:7-9 | decoding the concatenation of two decodable texts gives the concatenation of their bytes |
| Base64.PaddedQuantaConcatenate | src/support/hash/base64.rs:7-9 | `Zg==Zg==` decodes to `ff` although the encoding of `ff` is `ZmY=`: accepted text need not be canonical |
| Base64.EncodePaddedAtEndOnly | src/support/hash/base64.rs:14-16 | an encoding pads its last quantum only |
| Base64.EncodeDecodeCanonical | src/support/hash/base64.rs:6-16 | a decodable text padded in its last quantum only is the encoding of what it decodes to |
| Base64.EncodeDecode | src/support/hash/base64.rs:6-16 | a decodable text is the encoding of what it decodes to if and only if it is padded in its last quantum only |
| Base64.DecodeQuantum | src/support/hash/base64.rs:7-9 | a quantum is an "invalid padding length" exactly when its last three bytes are `=`; a decoded quantum gives one to three bytes, and one without padding is a full quantum |
| Base64.DecodeErrorKinds | src/support/hash/base64.rs:7-9 | `!A==`, `A!==`, `!AB=` and `Zg=g` are invalid symbols; `Z===` and `====` are invalid padding lengths |
| Base64.DecodeNeedsWholeQuanta | src/support/hash/base64.rs:7-9 | only text whose length is a multiple of four decodes |
| Base64.DecodeEmpty | src/support/hash/base64.rs:7-9 | the empty text decodes to no bytes |
| HashBase64.Decode | src/support/hash/base64.rs:6-12 | Ok only when the key's bytes are base64 of the result's UTF-8 bytes; invalid base64 is the DecodeError 500 "Failed to decode base64"; bytes that are not UTF-8 are the UTF8 500 "Failed to convert base64 bytes to string"; no other error |
| HashBase64.Encode | src/support/hash/base64.rs:14-16 | never fails; its bytes are the base64 encoding of the input's bytes, of length 4·⌈n/3⌉ |
| HashBase64.RoundTrip | src/support/hash/base64.rs:23-29 | `decode(encode(s)) == Ok(s)` for every string |
| HashBase64.DecodedKeyIsEncoding | src/support/hash/base64.rs:6-16 | a key that decodes is the encoding of what it decodes to if and only if its padding is in its last quantum only |
| HashBase64.DecodePaddedQuanta | src/support/hash/base64.rs:6-12 | the key `Zg==Zg==`, two padded quanta, decodes to `ff` |
| HashBase64.DecodeEmpty | src/support/hash/base64.rs:6-12 | the empty key decodes to the empty string |
| HashBase64.DecodeErrorMessages | src/support/hash/base64.rs:6-12 | the two failures are 500 with messages "DecodeError error: Failed to decode base64 :: …" and "UTF8 Error: Failed to convert base64 bytes to string :: …" |
| HashBase64.DecodeMisplacedBytes | src/support/hash/base64.rs:6-12 | the key `!A==` is the "invalid symbol" 500 and `Z===` the "invalid padding length" 500 |
| HashBase64.DecodeNeedsWholeQuanta | src/support/hash/base64.rs:7-9 | a key whose byte length is not a multiple of four is the "invalid length" 500 |
| HashBcrypt.Encode | src/support/hash/hash_bcrypt.rs:7-12 | the digest the library gives, or the library's error as 500 "BcryptError error: Error to hash :: …" |
| HashBcrypt.Verify | src/support/hash/hash_bcrypt.rs:14-19 | the library's verdict on the candidate against the digest, or 500 "BcryptError error: Error to verify :: …" |
| HashBcrypt.Key | src/support/hash/hash_bcrypt.rs:9 | bcrypt's key is the password's UTF-8 bytes with a NUL appended, cut to 72 bytes |
| HashBcrypt.DistinguishesIsComplete | src/support/hash/hash_bcrypt.rs:7-19 | a hasher that tells keys apart verifies every password against its own digest |
| HashBcrypt.VerifyEncoded | src/support/hash/hash_bcrypt.rs:7-19 | a digest verifies exactly the passwords whose bcrypt key equals that of the password it was made from |
| HashBcrypt.VerifyOwnPassword | src/support/hash/hash_bcrypt.rs:7-19 | a digest verifies the password it was made from |
| HashBcrypt.ShortKeysDiffer | src/support/hash/hash_bcrypt.rs:7-19 | passwords of at most 71 bytes have equal keys if and only if they are equal |
| HashBcrypt.LongPasswordsShareKey | src/support/hash/hash_bcrypt.rs:7-19 | two different passwords agreeing on their first 72 bytes have the same key |
| HashBcrypt.FailuresAreServerErrors | src/support/hash/hash_bcrypt.rs:7-19 | both operations fail only with 500 |
| Uuid.Version7IsNotNil | src/feature/auth/domain.rs:36 | a version 7 id, as `Uuid::now_v7` gives, is never nil |
| Uuid.ToText | src/feature/biometrics/validators.rs:11 | the text of a UUID has 36 characters, hyphens at 8, 13, 18 and 23, and is never empty |
| Uuid.ParseStr | src/infra/uuid.rs:11 | only texts of 32, 36, 38 or 45 characters (simple, hyphenated, braced, URN) parse |
| Uuid.ParseToText | src/infra/uuid.rs:11 | the text of a UUID parses back to it |
| Uuid.ToUuid | src/infra/uuid.rs:9-16 | Ok with the parsed id exactly when the text parses; otherwise 400 "Invalid UUID " followed by the text, without tags |
| Uuid.ToUuidOfText | src/infra/uuid.rs:9-16 | the text of a UUID converts back to it; the empty text is 400 "Invalid UUID " |
| Timestamp.YearText | backend/src/feature/biometrics/domain.rs:25-26 | years 0–9999 take four digits; others take a sign and at least four digits |
| Timestamp.DaysInMonth | backend/src/feature/biometrics/domain.rs:59-60 | months have 28 to 31 days, 29 exactly for February of a Gregorian leap year |
| Timestamp.ToRfc3339Secs | backend/src/feature/biometrics/domain.rs:25-26 | the rendering is the year's text plus 21 characters (25 for years 0–9999), with `T` between date and time and `+00:00` at the end |
| Timestamp.ParseToRfc3339Secs | backend/src/feature/biometrics/domain.rs:25-26 | for years 0–9999 the rendering is 25 characters and reads back as the date and the time to the second (a leap second shows as 60) |
| Timestamp.SecondsPrecision | backend/src/feature/biometrics/domain.rs:25-26 | the fraction of a second does not appear in the rendering |
| Jwt.NewClaims | src/support/jwt.rs:28-36 | `sub` is the customer id, `customer_email` the given e-mail, and `exp` is now plus the duration |
| Jwt.NewClaimsValidUntilExpiry | src/support/jwt.rs:28-36 | claims made for a positive duration are unexpired until that duration has passed |
| Jwt.EncodingKeyFor | src/support/jwt.rs:93-114 | a base64 or UTF-8 failure passes through unchanged; any algorithm but RS256 is 500 "Invalid jwt algorithm=…"; otherwise the key exactly when the PEM text is readable; every error is 500 |
| Jwt.DecodingKeyFor | src/support/jwt.rs:70-91 | the same for the public key |
| Jwt.GenerateJwt | src/support/jwt.rs:38-50 | the key first, then the RS256 signature; a key error passes through; a token exactly when the key loads and signing succeeds; every error is 500 |
| Jwt.ExtractClaims | src/support/jwt.rs:57-68 | the public key is loaded before the token is looked at; a key error passes through; a refused token is 401 "Invalid JWT: <debug>" without tags; an accepted token gives its claims |
| Jwt.ExtractJwt | src/support/jwt.rs:52-54 | claims exactly when the public key loads for RS256 and the library accepts the token under it, and then the library's claims; a key error passes through |
| Jwt.KeyOrTokenError | src/support/jwt.rs:52-68 | extraction fails with 401 exactly when the key is good and the token is refused, and with 500 exactly when the key is bad, whatever the token |
| Jwt.GenerateThenExtract | src/support/jwt.rs:122-134 | a token generated with a private key is extracted with the paired public key, before expiry, into the same claims |
| Jwt.EmptyKeys | src/support/jwt.rs:136-163 | an empty key passes base64 and fails at PEM reading with the 500 that names the private or the public key |
| Jwt.BadBase64Key | src/support/jwt.rs:70-71 | a key that is not base64 fails with the base64 error itself, in key loading, generation and extraction |
| AuthValidators.EmailAndPasswordNotEmpty | backend/src/feature/auth/validators.rs:9-19 | Ok exactly when both e-mail and password are non-empty; otherwise 400 "email and/or password is expected" without tags |
| BiometricsValidators.CustomerIdAndImageNotEmpty | src/feature/biometrics/validators.rs:10-20 | Ok exactly when the image path is non-empty (a UUID's text is never empty, so a nil id passes); otherwise 400 "customer_id and/or image_path is expected" |
| BiometricsValidators.CustomerIdNotEmpty | src/feature/biometrics/validators.rs:21-31 | Ok exactly when the id is not nil; otherwise 400 "customer_id is expected" |
| BiometricsValidators.Version7Passes | src/feature/biometrics/validators.rs:21-31 | a version 7 id always passes |
| AuthDomain.New | src/feature/auth/domain.rs:31-41 | the customer has the given id, e-mail and time and the bcrypt digest of the password; a hashing failure is passed on unchanged |
| AuthDomain.NewStoresVerifiableDigest | src/feature/auth/domain.rs:38 | the stored digest verifies exactly the passwords with the bcrypt key of the original password |
| AuthDomain.ToResponse | src/feature/auth/domain.rs:11-14 | the response carries only id and e-mail, those of the customer |
| AuthDomain.Ids | src/feature/auth/domain.rs:24-29 | the ids of the table are exactly the ids of its rows |
| AuthDomain.Insert | src/feature/auth/domain.rs:43-59 | stored exactly when there is no database failure and the e-mail and the id are free; the stored row gets the database's `created_at`; every failure is the `SqlError` of operation "insert" (500 "SQL Error: insert :: …") and leaves the table as it was: a database failure with its own cause, otherwise the unique violation |
| AuthDomain.InsertKeepsTableValid | src/feature/auth/domain.rs:43-59 | inserting keeps e-mails and ids unique |
| AuthDomain.IdsAfterInsert | src/feature/auth/domain.rs:43-59 | a successful insert adds exactly the new id |
| AuthDomain.GetBy | src/feature/auth/domain.rs:61-88 | the row with the e-mail; none is 404 "Customer not found"; a database failure is 500 "SQL Error: get by :: …" |
| AuthDomain.GetByAfterInsert | src/feature/auth/domain.rs:43-88 | a row read back after its insert is the stored row |
| AuthDomain.InsertTakenEmail | src/feature/auth/domain.rs:43-59 | inserting a taken e-mail is a 500 and changes nothing |
| BiometricsDomain.StatusText | backend/src/feature/biometrics/domain.rs:41-51 | the text of a status is non-empty snake case |
| BiometricsDomain.ParseStatus | backend/src/feature/biometrics/domain.rs:38-52 | a text read as a status is that status's text |
| BiometricsDomain.StatusTextRoundTrip | backend/src/feature/biometrics/domain.rs:38-52 | every status reads back from its text "in_analysis", "reproved", "take_again" or "conclued", and distinct statuses have distinct texts |
| BiometricsDomain.New | backend/src/feature/biometrics/domain.rs:63-74 | the record is `InAnalysis` with the given customer, path and two clock readings |
| BiometricsDomain.ToResponse | backend/src/feature/biometrics/domain.rs:19-29 | customer, path and status are copied; both timestamps are rendered in RFC 3339 at whole seconds |
| BiometricsDomain.ResponseTimesReadBack | backend/src/feature/biometrics/domain.rs:19-29 | the response's timestamps read back as the record's times to the second |
| BiometricsDomain.Insert | backend/src/feature/biometrics/domain.rs:76-93 | stored exactly when there is no database failure, the customer has no record yet and the customer exists; the stored row gets the database's `created_at`; every failure is the `SqlError` of operation "insert" (500 "SQL Error: insert :: …") and leaves the table as it was: a database failure with its own cause, else the unique violation for a customer with a record, else the foreign-key violation for a missing customer |
| BiometricsDomain.InsertKeepsTableValid | backend/src/feature/biometrics/domain.rs:76-93 | inserting keeps every record under its customer and every customer existing |
| BiometricsDomain.SetListsChecked | backend/src/feature/biometrics/domain.rs:99-106 | the statement as written is refused at `updated_at`; the statement with the comma is well formed |
| BiometricsDomain.UpdateWith | backend/src/feature/biometrics/domain.rs:95-116 | the row is updated exactly when there is no database failure, the statement is well formed and the row exists; it gets the new path, status and a fresh `updated_at` (not the record's own); every failure is the `SqlError` of operation "update" (500 "SQL Error: update :: …") and leaves the table as it was: a database failure with its own cause, else the syntax error at the token where the statement breaks, else row-not-found |
| BiometricsDomain.UpdateAsWritten | backend/src/feature/biometrics/domain.rs:95-116 | the update as written never changes the table, and fails with 500 |
| BiometricsDomain.UpdateAsWrittenAlwaysFails | backend/src/feature/biometrics/domain.rs:95-116 | the update as written always fails with 500 and changes nothing; without a database failure the error is the syntax error at `updated_at` |
| BiometricsDomain.Update | backend/src/feature/biometrics/domain.rs:95-116 | the corrected update succeeds exactly when there is no failure and the row exists; then the row gets the new path, status and `updated_at` and nothing else changes; a failure changes nothing |
| BiometricsDomain.UpdateReplacesFields | backend/src/feature/biometrics/domain.rs:95-116 | the corrected update succeeds exactly when there is no failure and the row exists; it replaces path, status and `updated_at`, keeps customer and `created_at`, and keeps the table valid |
| BiometricsDomain.GetBy | backend/src/feature/biometrics/domain.rs:118-145 | the record of the customer; none is 404 "Biometric not found"; a database failure is 500 "SQL Error: get by :: …" |
| Database.BeginError | src/infra/database.rs:10-15 | the error of a failed begin is 500 "SQL Error: Failed to begin transaction :: <cause>" without tags |
| Database.CommitError | src/infra/database.rs:17-24 | the error of a failed commit is 500 "SQL Error: Failed to commit transaction :: <cause>" without tags |
| Database.TransactionErrorsDistinct | src/infra/database.rs:10-24 | a failed begin is never reported as a failed commit, and each error determines its cause |
| Database.AppState.BeginTransaction | src/infra/database.rs:10-15 | a fresh open transaction over the committed tables, or the begin error |
| Database.AppState.CommitTransaction | src/infra/database.rs:17-26 | the transaction is closed either way; on success `Ok(())` and its tables become the committed ones; on failure the committed tables stay |
| Database.Transaction.InsertCustomer | src/feature/auth/domain.rs:43-59 | `Customer::insert` on the transaction's own tables |
| Database.Transaction.GetCustomerBy | src/feature/auth/domain.rs:61-88 | `Customer::get_by` on the transaction's own tables |
| Database.Transaction.InsertBiometrics | backend/src/feature/biometrics/domain.rs:76-93 | `Biometrics::insert`, with the foreign key checked against the customers the transaction sees |
| Database.Transaction.UpdateBiometrics | backend/src/feature/biometrics/domain.rs:95-116 | `Biometrics::update` with the corrected statement on the transaction's tables |
| Database.Transaction.GetBiometricsBy | backend/src/feature/biometrics/domain.rs:118-145 | `Biometrics::get_by` on the transaction's own tables |
| SingUpUseCase.SingUpSpec | backend/src/feature/auth/sing_up.rs:7-22 | on error the tables are unchanged; biometrics are never touched; on success the e-mail was new, is now stored, and the answer is the stored row's id and e-mail |
| SingUpUseCase.SingUp | backend/src/feature/auth/sing_up.rs:7-22 | the handler's answer and committed tables are those of `SingUpSpec` |
| SingUpUseCase.SingUpRejectsEmptyFields | backend/src/feature/auth/sing_up.rs:11 | an empty e-mail or password is 400 before any transaction, and nothing changes |
| SingUpUseCase.SingUpStoresCustomer | backend/src/feature/auth/sing_up.rs:11-21 | without failures, a new e-mail is stored with the password's digest and the database's time, and the answer is the id and e-mail |
| SingUpUseCase.SingUpTakenEmail | backend/src/feature/auth/sing_up.rs:14 | a taken e-mail is a 500 and nothing is committed |
| SingUpUseCase.SingUpKeepsConsistent | backend/src/feature/auth/sing_up.rs:11-15 | sign-up keeps the database consistent |
| SingInUseCase.SingInSpec | src/feature/auth/sing_in.rs:11-39 | success only for a stored e-mail whose digest verifies the password; the body is that customer's id and e-mail; the only header is `Authorization` |
| SingInUseCase.SingIn | src/feature/auth/sing_in.rs:11-39 | the handler answers as `SingInSpec`, leaves the committed tables as they were, and its header insertion never panics |
| SingInUseCase.SingInRejectsEmptyFields | src/feature/auth/sing_in.rs:15 | an empty e-mail or password is 400 |
| SingInUseCase.SingInUnknownEmail | src/feature/auth/sing_in.rs:17 | an unknown e-mail is the lookup's 404 |
| SingInUseCase.SingInPasswordByKey | src/feature/auth/sing_in.rs:19-37 | a password whose bcrypt key differs from that of the password the digest was made from is 401 "No access"; one with the same key is answered like the right password |
| SingInUseCase.SingInCommitsBeforeVerify | src/feature/auth/sing_in.rs:18-19 | a failed commit is answered before the password is looked at |
| SingInUseCase.SingInErrorStatus | src/feature/auth/sing_in.rs:15-38 | every failure is 400, 401, 404 or 500; 401 is exactly a password that does not match, with message "No access" |
| SingInUseCase.SignUpThenSignIn | src/feature/auth/sing_in.rs:19-29 | after a sign-up, signing in with the same credentials answers the new id and e-mail with the token of 30-second claims, or that token's generation error |
| SingInUseCase.SignInTokenNamesCustomer | src/feature/auth/sing_in.rs:20-29 | the header token, extracted with the paired public key within its lifetime, names the customer of the body |
| CreateUseCase.CreateSpec | src/feature/biometrics/create.rs:9-19 | on error the tables are unchanged; customers are never touched; on success the customer had no record and the answer is the stored record's response |
| CreateUseCase.Create | src/feature/biometrics/create.rs:9-19 | the handler's answer and committed tables are those of `CreateSpec` |
| CreateUseCase.CreateRejectsEmptyImage | src/feature/biometrics/create.rs:13 | an empty image path is 400 before any transaction, and nothing changes |
| CreateUseCase.CreateUnknownCustomer | src/feature/biometrics/create.rs:13-17 | a record for an unknown customer fails (500 once validation passes) and nothing is committed |
| CreateUseCase.CreateTwice | src/feature/biometrics/create.rs:16-17 | a second record for the same customer is a 500 and nothing is committed |
| CreateUseCase.CreateStoresRecord | src/feature/biometrics/create.rs:13-18 | without failures, the record is stored `InAnalysis` with the database's creation time and is answered as stored |
| CreateUseCase.CreateKeepsConsistent | src/feature/biometrics/create.rs:13-17 | creation keeps the database consistent |
| GetByUseCase.GetBySpec | src/feature/biometrics/get_by.rs:10-19 | success exactly when the id is not nil, nothing fails and a record exists; the answer is that record's response |
| GetByUseCase.GetByCustomer | src/feature/biometrics/get_by.rs:10-19 | the handler answers as `GetBySpec` and leaves the committed tables as they were |
| GetByUseCase.GetByRejectsNil | src/feature/biometrics/get_by.rs:14 | the nil id is 400 "customer_id is expected" |
| GetByUseCase.GetByMissing | src/feature/biometrics/get_by.rs:16 | a customer without a record is 404 "Biometric not found" |
| GetByUseCase.CreateThenGetBy | src/feature/biometrics/get_by.rs:14-18 | a record read right after its creation is answered as creation answered it |
| UpdateUseCase.UpdateSpecWith | src/feature/biometrics/update.rs:18-30 | on error the tables are unchanged; customers and the set of records are never changed otherwise; on success the answer is the written record's response |
| UpdateUseCase.UpdateSpec | src/feature/biometrics/update.rs:18-30 | Ok exactly when the image path is given, the record exists, the row named by its customer id exists, and no database step fails |
| UpdateUseCase.UpdateSpecAsWritten | src/feature/biometrics/update.rs:18-30 | with the statement as written the committed tables never change |
| UpdateUseCase.Update | src/feature/biometrics/update.rs:18-30 | the handler, with the corrected statement, answers and commits as `UpdateSpec` |
| UpdateUseCase.UpdateRejectsEmptyImage | src/feature/biometrics/update.rs:22 | an empty image path is 400 before any transaction, and nothing changes |
| UpdateUseCase.UpdateMissing | src/feature/biometrics/update.rs:24 | a missing record is 404 "Biometric not found" before any write |
| UpdateUseCase.UpdateReplacesImageAndStatus | src/feature/biometrics/update.rs:24-29 | only the path and the status change, with a fresh `updated_at`; customer and `created_at` stay; no other record changes |
| UpdateUseCase.UpdateKeepsConsistent | src/feature/biometrics/update.rs:24-28 | the corrected handler keeps the database consistent |
| UpdateUseCase.UpdateAsWrittenNeverWrites | src/feature/biometrics/update.rs:18-30 | with the statement as written the handler never succeeds and never changes anything; past validation, begin and the read it is a 500 |

## Left out

- I/O, `async` and concurrency: requests run one at a time. Transaction isolation and
  concurrent commits are not modelled. A transaction that is dropped without a commit
  leaves the store as it was.
- Connection-pool construction and environment reading (`DatabaseConfig::from_env`,
  `create_db_pool`), the HTTP client, the axum wiring and routes, the logging middleware,
  and the Android app are not part of this model.
- bcrypt, PEM parsing, RSA signing and the JWS compact serialisation are parameters whose
  promises are stated as `HashBcrypt.Complete`, `HashBcrypt.Distinguishes` and `Jwt.Sound`.
  `Distinguishes` compares bcrypt keys, which stand in for the hash comparison; collisions
  of distinct keys are not modelled. Constant-time comparison and
  the bcrypt cost factor are not modelled. The random salt is an explicit argument.
- The clock (`Utc::now`), the fresh version 7 id and database failures are parameters.
  Postgres's default for `created_at` is the `dbNow` argument.
- The rendered causes of library errors are approximations. Examples: the byte position
  in a base64 or UTF-8 error, the constraint names in Postgres messages, and the position
  of a syntax error. Constraint names come from migrations that are not part of this
  model.
- SQL semantics beyond the unique e-mail, unique id, one record per customer and the
  foreign key.
- JSON wire format: key names (including the `camelCase` rename) and serde extraction
  are not modelled. An extractor rejection is an `Errors.JsonRejection` value carrying
  its own status and text.
- Jwt.NewClaims: requires a non-negative expiry. A negative one makes the `usize`
  conversion panic in the source, and that panic is not modelled.
- SingInUseCase.SingIn: requires a sound JWT backend. That is what makes the header
  insertion's `expect` unreachable. A backend that produced a non-header token would
  panic there, which is not modelled.
- UpdateUseCase.UpdateSpecWith: states the written record under the customer id the read
  row holds. In a consistent database that is the id it was read under.
  `UpdateReplacesImageAndStatus` states the update under that assumption.
- Timestamp: `DateTime` admits values chrono cannot hold (a 31st of every month, a leap
  nanosecond count at any second, any year). `IsChronoValue` states chrono's calendar
  range. The rendering lemmas hold for all values, so no operation requires it.
- Uuid: parsing accepts the simple, hyphenated, braced and URN forms by length. The
  error kinds of `uuid::Error` are not distinguished, because `to_uuid` discards them.

## Findings

| source | as written | input that shows it | evidently intended | confidence | as-written member | corrected member |
|---|---|---|---|---|---|---|
| backend/src/feature/biometrics/domain.rs:99-106 | the `SET` list reads `status = $3` then `updated_at = $4` with no comma between them, so the database refuses the statement at `updated_at` | any update request with a non-empty image path for a customer who has a record: the handler answers 500 "SQL Error: update :: … syntax error at or near \"updated_at\"" and nothing changes | `SET image_path = $2, status = $3, updated_at = $4`, which replaces path, status and `updated_at` of the row | high on the missing comma; not executed | BiometricsDomain.UpdateAsWrittenAlwaysFails | BiometricsDomain.UpdateReplacesFields |
