# Educrypt credential issuance: a verified model

Educrypt is a mobile app that lets university staff issue signed academic
credentials and keep them on the device. This project models the app's only
stateful logic:

- **The credential log** (`store/credentials.ts`): an append-only JSON array of
  signed credentials under the storage key `educrypt_issued_credentials`.
  Duplicates are allowed. Each append reads the array, pushes one entry and
  writes the whole array back.
- **The snapshot log** (`store/snapshot.ts`): an insertion-ordered JSON array of
  credential hashes under `educrypt_snapshot_hashes`. A hash already present
  is not appended again, and then nothing is written.
- **Issuance** (`handleSubmit` in `app/screens/CredentialForm.tsx`) runs these
  steps in order:
  1. validate the four raw inputs;
  2. build the canonical JSON string;
  3. hash and sign that string;
  4. append the hash to the snapshot log;
  5. append the signed record to the credential log.

The device store (AsyncStorage) is the class `AsyncStorage.Storage`. It holds a
`map<string, Stored>`: a missing key is a key `getItem` reports as absent, and a
`Stored` value says what `JSON.parse` makes of the stored text. That is an array
of credentials, an array of strings, or `NotJson(text)` for text the parser
rejects. `NotJson("")` also covers the empty string, which the source's
`if (data)` treats as missing. Both reads return an empty list for `NotJson`.

The two logs are the classes `CredentialStore.CredentialLog` and
`SnapshotStore.SnapshotLog`. Both hold a reference to the one shared `Storage`
object. Each method is specified by a pure function on the map:
`WithCredential`, `WithoutCredentials`, `WithHash` and `WithoutHashes`.
Lemmas about those functions state what the source promises.

`hashData` and `signData` come from a cryptographic wrapper that is not part of
this model. They are passed in as function values:
- `hashData: string -> string`;
- `signData: string -> Option<string>`, where `None` means the call threw.

`setItem` can reject a write, so each append takes a `writeOk` flag: when it is
false, the write is refused, the call fails, and storage is left as it was.

Modules: `Wrappers` (Option), `Records` (the two record shapes), `AsyncStorage`,
`CredentialStore`, `SnapshotStore`, `CanonicalJson`, `Validation`, `Issuance`.

The canonical string is checked against a decoder, `CanonicalJson.ParseCanonical`.
Decoding the canonical string gives the four fields back, so two different
records never share a canonical form. The escaping follows section 7 of
RFC 8259 the way ECMAScript's `JSON.stringify` applies it: `"` and `\` are
escaped, control characters use the short forms where they exist and otherwise
`\u00` with two lower-case hex digits, and every other character is copied.

Where the design notes and the code differ, the model follows the code:
- The design describes the date as a "YYYY-MM-DD" value and the fields as
  non-empty. The code checks only the shape of the raw date, with no range
  check, and checks emptiness only after trimming. The stored values are the
  untrimmed inputs.
- The design says a failed write should leave prior state untouched. The code
  appends the snapshot hash before the credential, so a rejected credential
  write leaves an orphan hash in the snapshot log (`OrphanHashWhenCredentialWriteFails`).
- The design names distinct key-manager errors (generation, persistence, load).
  In the code they are all one thrown exception, and the form reports it as
  "Failed to issue credential." The model has a single `Failed` outcome.

## Model

| member | source | states |
|---|---|---|
| `CredentialStore.UnreadableLogIsEmpty` | store/credentials.ts:20-29 | a missing key or unparseable text reads as the empty log, not an error |
| `CredentialStore.CredentialLog.GetCredentials` | store/credentials.ts:20-30 | returns the log as stored, read without changing storage |
| `CredentialStore.WithCredential` | store/credentials.ts:14-17 | after an append the log reads back as the old log with `c` at the end (one longer, earlier entries in order); every other key is unchanged |
| `CredentialStore.CredentialLog.AddCredential` | store/credentials.ts:14-18 | the new storage is `WithCredential` of the old when the write is accepted; a rejected write fails and changes nothing |
| `CredentialStore.AppendTwiceKeepsBoth` | store/credentials.ts:14-17 | there is no membership check: appending the same credential twice leaves two copies |
| `CredentialStore.AppendOverwritesUnreadable` | store/credentials.ts:15-17 | appending onto unparseable text stores the one-element array `[c]`, so the unreadable data is lost |
| `CredentialStore.AppendAllInOrder` | store/credentials.ts:14-17 | appending `cs` one by one extends the log by exactly `cs`, in call order, whether or not its entries are distinct |
| `CredentialStore.WithoutCredentials` | store/credentials.ts:33 | after clearing, the key is gone and the log reads back empty; no other key changes |
| `CredentialStore.CredentialLog.ClearCredentials` | store/credentials.ts:32-33 | storage becomes `WithoutCredentials` of the old storage |
| `SnapshotStore.UnreadableSnapshotIsEmpty` | store/snapshot.ts:13-22 | a missing key or unparseable text reads as the empty list |
| `SnapshotStore.SnapshotLog.GetSnapshotHashes` | store/snapshot.ts:13-23 | returns the list as stored, read without changing storage |
| `SnapshotStore.WithHash` | store/snapshot.ts:5-11 | afterwards `h` is in the list; if it was already there storage is unchanged (no write); otherwise the list is the old list with `h` at the end; every other key is unchanged |
| `SnapshotStore.SnapshotLog.AddHashToSnapshot` | store/snapshot.ts:5-11 | the new storage is `WithHash` of the old; the call fails only when a write was needed and was rejected, and then nothing changes |
| `SnapshotStore.AddHashIdempotent` | store/snapshot.ts:5-11 | offering the same hash twice gives the storage of offering it once |
| `SnapshotStore.AddHashKeepsDistinct` | store/snapshot.ts:7-8 | a list without duplicates has none after an append |
| `SnapshotStore.AddAllHashes` | store/snapshot.ts:5-11 | offering hashes in order keeps the old list as a prefix, adds every offered hash and nothing else, and keeps the list free of duplicates |
| `SnapshotStore.WithoutHashes` | store/snapshot.ts:26 | after clearing, the key is gone and the list reads back empty; no other key changes |
| `SnapshotStore.SnapshotLog.ClearSnapshot` | store/snapshot.ts:25-27 | storage becomes `WithoutHashes` of the old storage |
| `Issuance.KeysDistinct` | store/credentials.ts:3 | the credential key, the snapshot key and the private-key key are three different keys |
| `Issuance.CredentialOpsLeaveOtherKeys` | store/credentials.ts:14-33 | appending or clearing credentials leaves the snapshot list and the private-key entry as they were |
| `Issuance.SnapshotOpsLeaveOtherKeys` | store/snapshot.ts:5-26 | offering a hash or clearing the snapshot leaves the credential log and the private-key entry as they were |
| `Validation.TrimEmptyIffBlank` | app/screens/CredentialForm.tsx:28-31 | a value fails the "required" check (empty after `trim()`) exactly when all of its characters are ECMAScript whitespace or line terminators |
| `Validation.TrimStartDropsLeadingBlank` | app/screens/CredentialForm.tsx:28-31 | removing leading whitespace leaves the longest suffix that is empty or starts with a non-whitespace character |
| `Validation.TrimEndDropsTrailingBlank` | app/screens/CredentialForm.tsx:28-31 | removing trailing whitespace leaves the longest prefix that is empty or ends with a non-whitespace character |
| `Validation.Errors` | app/screens/CredentialForm.tsx:27-32 | each "required" message is present exactly when its field is blank; the format message exactly when the raw date is non-empty and not `^\d{4}-\d{2}-\d{2}$`; messages are in the order name, degree, date, issuer, format; the list is empty exactly when all inputs are acceptable |
| `Validation.Validate` | app/screens/CredentialForm.tsx:27-32 | the pushes build exactly the list `Errors` describes |
| `Validation.NoRangeCheck` | app/screens/CredentialForm.tsx:32 | `2024-13-45` passes: month and day are not range-checked |
| `Validation.WhitespaceDateGetsBothMessages` | app/screens/CredentialForm.tsx:30-32 | a whitespace-only date gets the required message and the format message |
| `Validation.PaddedDateGetsFormatMessage` | app/screens/CredentialForm.tsx:30-32 | `" 2024-01-01"` is not blank, but the shape check runs on the untrimmed text, so it gets the format message |
| `CanonicalJson.CanonicalRoundTrip` | app/screens/CredentialForm.tsx:38-44 | the canonical string is the JSON object with exactly the keys name, degree, graduationDate, issuer in that order, and decoding it gives the raw fields back |
| `CanonicalJson.CanonicalInjective` | app/screens/CredentialForm.tsx:38-44 | different fields give different canonical strings: changing any one field changes the string that is hashed and signed |
| `CanonicalJson.EscapePlain` | app/screens/CredentialForm.tsx:44 | text with no quote, backslash or control character appears in the canonical string unchanged |
| `Issuance.Sign` | app/screens/CredentialForm.tsx:44-47 | the signed credential is the four fields plus `hashData` and `signData` of the same canonical string; it is absent exactly when signing throws |
| `Issuance.Record` | app/screens/CredentialForm.tsx:48-49 | the two appends run snapshot first: both succeed exactly when the credential write and any needed snapshot write are accepted; on failure the credential log is unchanged and the snapshot list is unchanged or has the hash |
| `Issuance.Submission` | app/screens/CredentialForm.tsx:26-58 | the submission is rejected exactly when validation fails, with `Errors` and unchanged storage; nothing is stored when signing throws; when it is issued, the credential of exactly these fields, signed over their canonical form, ends the credential log and its hash is in the snapshot list; a failure leaves the credential log unchanged; no key except the two log keys is touched |
| `Issuance.HandleSubmit` | app/screens/CredentialForm.tsx:26-58 | the sequence of validate, canonicalise, hash, sign, snapshot append and credential append, with an early return on errors, produces `Submission`'s outcome and storage |
| `Issuance.OrphanHashWhenCredentialWriteFails` | app/screens/CredentialForm.tsx:48-54 | when only the credential write is rejected, the hash stays in the snapshot list with no matching record, and the user sees a failure |
| `Issuance.IssuedIsSigned` | app/screens/CredentialForm.tsx:44-49 | a successful submission issues the signed credential of its fields and appends it to the credential log |
| `Issuance.IssueTwiceHashOnce` | app/screens/CredentialForm.tsx:48-49 | issuing an identical record twice issues the same credential, and its hash is in the snapshot list once: the second issuance leaves the list unchanged |
| `Issuance.IssueTwiceRecordedTwice` | app/screens/CredentialForm.tsx:48-49 | issuing an identical record twice puts two copies at the end of the credential log |
| `Issuance.SubmissionKeepsHashesRecorded` | app/screens/CredentialForm.tsx:48-49 | if every record's hash is in the snapshot list before a submission, it still is afterwards, whatever step fails |
| `Issuance.SubmissionKeepsRecordsSigned` | app/screens/CredentialForm.tsx:44-49 | submissions add only records whose hash and signature are over the canonical form of their own fields |

## Left out

- The cryptographic wrapper (`lib/crypto.ts`) is not part of this model. That
  covers RSA key generation, PEM encoding, SHA-256, PKCS#1 v1.5 signing and
  base64. `hashData` and `signData` are function parameters. So the model does
  not show that a hash is 64 lower-case hex characters or that a signature
  verifies.
- The lazy key creation inside `signData` is not modelled. On the first call it
  writes the PEM to `educrypt_private_key`; in the model signing never writes
  to storage.
- `signData` is treated as a function of its input: a fixed key and
  deterministic PKCS#1 v1.5 padding. `hashData` is assumed never to throw.
- Asynchronous interleaving is not modelled. Each store operation is one atomic
  step, so the lost update between two concurrent read-modify-write appends is
  not represented.
- The model assumes `getItem` always completes and `removeItem` always
  succeeds. Only a rejected `setItem` is modelled, through the `writeOk`
  parameters.
- `JSON.parse` and `JSON.stringify` on the logs are abstracted by `Stored`. The
  model assumes a written array reads back as the same array. Stored text that
  is valid JSON but not an array cannot be represented. An array of the other
  log's kind under a log key is excluded by the `Shaped` preconditions.
- Characters are Unicode scalar values, so lone UTF-16 surrogates, which
  `JSON.stringify` escapes, cannot occur. The decoder `ParseCanonical` is only
  the partner of the canonical form: it does not combine `\u` surrogate pairs.
- User-interface state is left out: `setErrors`, `setLoading`, `setSuccess`,
  `setModalVisible`, `setSignedCredential` and the alert. The returned `Outcome`
  stands in for them. File export, QR rendering, the other screens, navigation,
  components and theme are also left out.
