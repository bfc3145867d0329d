/** Issuing a credential from the form (`handleSubmit`): validate, build the
    canonical string from the raw inputs, hash and sign it, then append the
    hash to the snapshot log and only after that the signed record to the
    credential log. `hashData` and `signData` are the cryptographic
    collaborators, passed in as functions; `signData` yields None when it
    throws. */
module Issuance {
  import opened Wrappers
  import opened Records
  import opened AsyncStorage
  import opened CanonicalJson
  import opened Validation
  import CredentialStore
  import SnapshotStore

  /** How a submission ends. */
  datatype Outcome =
    /** validation failed: the messages are shown and nothing else happens */
    | Rejected(errors: seq<Message>)
    /** an exception was caught: the user sees "Failed to issue credential." */
    | Failed
    /** the signed credential is shown to the user */
    | Issued(credential: Credential)

  predicate LogsShaped(e: map<string, Stored>) {
    CredentialStore.Shaped(e) && SnapshotStore.Shaped(e)
  }

  /** The three storage keys the app uses are distinct. */
  lemma KeysDistinct()
    ensures CredentialStore.CredentialsKey != SnapshotStore.SnapshotKey
    ensures CredentialStore.CredentialsKey != PrivateKeyStorageKey
    ensures SnapshotStore.SnapshotKey != PrivateKeyStorageKey
  {
    assert |CredentialStore.CredentialsKey| == 27;
    assert |SnapshotStore.SnapshotKey| == 24;
    assert |PrivateKeyStorageKey| == 20;
  }

  /** Credential operations leave the snapshot log and the private key as
      they were. */
  lemma CredentialOpsLeaveOtherKeys(e: map<string, Stored>, c: Credential)
    requires LogsShaped(e)
    ensures var e' := CredentialStore.WithCredential(e, c);
      LogsShaped(e') && SnapshotStore.StoredHashes(e') == SnapshotStore.StoredHashes(e)
      && SameAt(e, e', PrivateKeyStorageKey)
    ensures var e' := CredentialStore.WithoutCredentials(e);
      LogsShaped(e') && SnapshotStore.StoredHashes(e') == SnapshotStore.StoredHashes(e)
      && SameAt(e, e', PrivateKeyStorageKey)
  {
    KeysDistinct();
    assert SameAt(e, CredentialStore.WithCredential(e, c), SnapshotStore.SnapshotKey);
    assert SameAt(e, CredentialStore.WithoutCredentials(e), SnapshotStore.SnapshotKey);
  }

  /** Snapshot operations leave the credential log and the private key as
      they were. */
  lemma SnapshotOpsLeaveOtherKeys(e: map<string, Stored>, h: string)
    requires LogsShaped(e)
    ensures var e' := SnapshotStore.WithHash(e, h);
      LogsShaped(e') && CredentialStore.StoredCredentials(e') == CredentialStore.StoredCredentials(e)
      && SameAt(e, e', PrivateKeyStorageKey)
    ensures var e' := SnapshotStore.WithoutHashes(e);
      LogsShaped(e') && CredentialStore.StoredCredentials(e') == CredentialStore.StoredCredentials(e)
      && SameAt(e, e', PrivateKeyStorageKey)
  {
    KeysDistinct();
    assert SameAt(e, SnapshotStore.WithHash(e, h), CredentialStore.CredentialsKey);
    assert SameAt(e, SnapshotStore.WithoutHashes(e), CredentialStore.CredentialsKey);
  }

  /** The hash and the signature of `c` are those of the canonical form of
      its own four fields. */
  predicate SignedOver(c: Credential, hashData: string -> string, signData: string -> Option<string>) {
    var canonical := Canonical(c.Unsigned());
    c.hash == hashData(canonical) && signData(canonical) == Some(c.signature)
  }

  /** The signed credential for `f`: its four fields plus the hash and the
      signature of the one canonical string; None when signing throws. */
  function Sign(f: Fields, hashData: string -> string, signData: string -> Option<string>): (r: Option<Credential>)
    ensures r.Some? <==> signData(Canonical(f)).Some?
    ensures r.Some? ==> r.value.Unsigned() == f && SignedOver(r.value, hashData, signData)
  {
    var canonical := Canonical(f);
    var hash := hashData(canonical);
    var signature :- signData(canonical);
    Some(Credential(f.name, f.degree, f.graduationDate, f.issuer, hash, signature))
  }

  /** The two appends of a submission, snapshot first: whether both
      succeeded, and the storage after them. A rejected snapshot write stops
      before the credential append; a rejected credential write leaves the
      snapshot append in place. */
  function Record(e: map<string, Stored>, c: Credential, snapshotWriteOk: bool, credentialWriteOk: bool)
    : (r: (bool, map<string, Stored>))
    requires LogsShaped(e)
    ensures LogsShaped(r.1)
    ensures r.0 <==> credentialWriteOk && (c.hash in SnapshotStore.StoredHashes(e) || snapshotWriteOk)
    ensures r.0 ==>
      && CredentialStore.StoredCredentials(r.1) == CredentialStore.StoredCredentials(e) + [c]
      && SnapshotStore.StoredHashes(r.1) == SnapshotStore.StoredHashes(SnapshotStore.WithHash(e, c.hash))
    ensures !r.0 ==>
      && CredentialStore.StoredCredentials(r.1) == CredentialStore.StoredCredentials(e)
      && (r.1 == e || r.1 == SnapshotStore.WithHash(e, c.hash))
    ensures forall k :: k != CredentialStore.CredentialsKey && k != SnapshotStore.SnapshotKey ==> SameAt(e, r.1, k)
  {
    if c.hash !in SnapshotStore.StoredHashes(e) && !snapshotWriteOk then (false, e)
    else
      var e1 := SnapshotStore.WithHash(e, c.hash);
      SnapshotOpsLeaveOtherKeys(e, c.hash);
      if !credentialWriteOk then (false, e1)
      else
        CredentialOpsLeaveOtherKeys(e1, c);
        (true, CredentialStore.WithCredential(e1, c))
  }

  /** The outcome of one submission and the storage after it. The two store
      writes are accepted or rejected as `snapshotWriteOk` and
      `credentialWriteOk` say. */
  function Submission(
    e: map<string, Stored>, f: Fields,
    hashData: string -> string, signData: string -> Option<string>,
    snapshotWriteOk: bool, credentialWriteOk: bool): (r: (Outcome, map<string, Stored>))
    requires LogsShaped(e)
    ensures LogsShaped(r.1)
    // nothing is hashed, signed or stored unless validation passes
    ensures r.0.Rejected? <==> !Acceptable(f)
    ensures r.0.Rejected? ==> r.0.errors == Errors(f) && r.1 == e
    // nothing is stored when signing throws
    ensures signData(Canonical(f)).None? ==> r.1 == e
    ensures r.0.Issued? <==>
      && Acceptable(f) && signData(Canonical(f)).Some? && credentialWriteOk
      && (hashData(Canonical(f)) in SnapshotStore.StoredHashes(e) || snapshotWriteOk)
    // success: the record of exactly these fields, signed over their canonical
    // form, ends both logs
    ensures r.0.Issued? ==>
      var c := r.0.credential;
      && c.Unsigned() == f && SignedOver(c, hashData, signData)
      && CredentialStore.StoredCredentials(r.1) == CredentialStore.StoredCredentials(e) + [c]
      && SnapshotStore.StoredHashes(r.1) == SnapshotStore.StoredHashes(SnapshotStore.WithHash(e, c.hash))
    // failure: the credential log is as before, the snapshot log as before or
    // with the hash added
    ensures r.0.Failed? ==>
      && CredentialStore.StoredCredentials(r.1) == CredentialStore.StoredCredentials(e)
      && (r.1 == e || r.1 == SnapshotStore.WithHash(e, hashData(Canonical(f))))
    // no other key, the private key's among them, is touched
    ensures forall k :: k != CredentialStore.CredentialsKey && k != SnapshotStore.SnapshotKey ==> SameAt(e, r.1, k)
  {
    var errs := Errors(f);
    if errs != [] then (Rejected(errs), e)
    else match Sign(f, hashData, signData)
      case None => (Failed, e)
      case Some(c) =>
        var (ok, e') := Record(e, c, snapshotWriteOk, credentialWriteOk);
        (if ok then Issued(c) else Failed, e')
  }

  /** handleSubmit over the two logs, which share one store. */
  method HandleSubmit(
    snapshot: SnapshotStore.SnapshotLog, credentials: CredentialStore.CredentialLog, f: Fields,
    hashData: string -> string, signData: string -> Option<string>,
    snapshotWriteOk: bool, credentialWriteOk: bool) returns (outcome: Outcome)
    requires snapshot.storage == credentials.storage
    requires LogsShaped(snapshot.storage.entries)
    modifies snapshot.storage
    ensures (outcome, snapshot.storage.entries)
      == Submission(old(snapshot.storage.entries), f, hashData, signData, snapshotWriteOk, credentialWriteOk)
  {
    var errs := Validate(f);
    if errs != [] {
      return Rejected(errs);
    }
    var canonical := Canonical(f);
    var hash := hashData(canonical);
    var signature := signData(canonical);
    if signature.None? {
      return Failed;
    }
    var signed := Credential(f.name, f.degree, f.graduationDate, f.issuer, hash, signature.value);
    var ok := snapshot.AddHashToSnapshot(hash, snapshotWriteOk);
    if !ok {
      return Failed;
    }
    ok := credentials.AddCredential(signed, credentialWriteOk);
    if !ok {
      return Failed;
    }
    return Issued(signed);
  }

  /** The snapshot append comes first: when only the credential write is
      rejected, the hash stays in the snapshot log with no record behind it. */
  lemma OrphanHashWhenCredentialWriteFails(
    e: map<string, Stored>, f: Fields, hashData: string -> string, signData: string -> Option<string>)
    requires LogsShaped(e) && Acceptable(f) && signData(Canonical(f)).Some?
    ensures var r := Submission(e, f, hashData, signData, true, false);
      && r.0 == Failed
      && hashData(Canonical(f)) in SnapshotStore.StoredHashes(r.1)
      && CredentialStore.StoredCredentials(r.1) == CredentialStore.StoredCredentials(e)
  {
  }

  /** A successful submission of acceptable fields issues their signed
      credential. */
  lemma IssuedIsSigned(
    e: map<string, Stored>, f: Fields, hashData: string -> string, signData: string -> Option<string>)
    requires LogsShaped(e) && Acceptable(f) && signData(Canonical(f)).Some?
    ensures var r := Submission(e, f, hashData, signData, true, true);
      && r.0 == Issued(Sign(f, hashData, signData).value)
      && CredentialStore.StoredCredentials(r.1) == CredentialStore.StoredCredentials(e) + [r.0.credential]
      && SnapshotStore.StoredHashes(r.1) == SnapshotStore.StoredHashes(SnapshotStore.WithHash(e, r.0.credential.hash))
  {
    var r := Submission(e, f, hashData, signData, true, true);
    var c := Sign(f, hashData, signData).value;
    assert r.0.credential.Unsigned() == c.Unsigned();
  }

  /** Issuing an identical record twice issues the same credential twice
      and puts its hash in the snapshot log once: the second issuance leaves
      the snapshot log as the first left it. */
  lemma IssueTwiceHashOnce(e: map<string, Stored>, f: Fields, hashData: string -> string, signData: string -> Option<string>)
    requires LogsShaped(e) && Acceptable(f) && signData(Canonical(f)).Some?
    requires SnapshotStore.NoDuplicates(SnapshotStore.StoredHashes(e))
    ensures var first := Submission(e, f, hashData, signData, true, true);
      var second := Submission(first.1, f, hashData, signData, true, true);
      && first.0.Issued? && second.0 == first.0
      && SnapshotStore.StoredHashes(second.1) == SnapshotStore.StoredHashes(first.1)
      && first.0.credential.hash in SnapshotStore.StoredHashes(second.1)
      && SnapshotStore.NoDuplicates(SnapshotStore.StoredHashes(second.1))
  {
    var c := Sign(f, hashData, signData).value;
    IssuedIsSigned(e, f, hashData, signData);
    var e1 := Submission(e, f, hashData, signData, true, true).1;
    SnapshotStore.AddHashKeepsDistinct(e, c.hash);
    IssuedIsSigned(e1, f, hashData, signData);
    assert SnapshotStore.WithHash(e1, c.hash) == e1;
  }

  /** Issuing an identical record twice puts two copies of it at the end of
      the credential log. */
  lemma IssueTwiceRecordedTwice(e: map<string, Stored>, f: Fields, hashData: string -> string, signData: string -> Option<string>)
    requires LogsShaped(e) && Acceptable(f) && signData(Canonical(f)).Some?
    ensures var first := Submission(e, f, hashData, signData, true, true);
      var second := Submission(first.1, f, hashData, signData, true, true);
      && first.0.Issued?
      && CredentialStore.StoredCredentials(second.1)
         == CredentialStore.StoredCredentials(e) + [first.0.credential, first.0.credential]
  {
    var c := Sign(f, hashData, signData).value;
    IssuedIsSigned(e, f, hashData, signData);
    var e1 := Submission(e, f, hashData, signData, true, true).1;
    IssuedIsSigned(e1, f, hashData, signData);
    assert [c] + [c] == [c, c];
  }

  /** Every record in the credential log has its hash in the snapshot log. */
  predicate HashesRecorded(e: map<string, Stored>)
    requires LogsShaped(e)
  {
    forall c :: c in CredentialStore.StoredCredentials(e) ==> c.hash in SnapshotStore.StoredHashes(e)
  }

  /** Submissions keep every recorded credential's hash in the snapshot log,
      whatever fails along the way. */
  lemma SubmissionKeepsHashesRecorded(
    e: map<string, Stored>, f: Fields, hashData: string -> string, signData: string -> Option<string>,
    snapshotWriteOk: bool, credentialWriteOk: bool)
    requires LogsShaped(e) && HashesRecorded(e)
    ensures var r := Submission(e, f, hashData, signData, snapshotWriteOk, credentialWriteOk);
      HashesRecorded(r.1)
  {
    var r := Submission(e, f, hashData, signData, snapshotWriteOk, credentialWriteOk);
    if r.1 != e {
      var h := hashData(Canonical(f));
      var e1 := SnapshotStore.WithHash(e, h);
      assert CredentialStore.StoredCredentials(e1) == CredentialStore.StoredCredentials(e) by {
        assert SameAt(e, e1, CredentialStore.CredentialsKey);
      }
      assert forall x :: x in SnapshotStore.StoredHashes(e) ==> x in SnapshotStore.StoredHashes(e1);
      if r.0.Issued? {
        assert SnapshotStore.StoredHashes(r.1) == SnapshotStore.StoredHashes(e1) by {
          assert SameAt(e1, r.1, SnapshotStore.SnapshotKey);
        }
      }
    }
  }

  /** Every record in the credential log carries the hash and the signature
      of its own canonical form. */
  predicate AllSignedOver(e: map<string, Stored>, hashData: string -> string, signData: string -> Option<string>)
    requires LogsShaped(e)
  {
    forall c :: c in CredentialStore.StoredCredentials(e) ==> SignedOver(c, hashData, signData)
  }

  /** Submissions add only records signed over their own fields. */
  lemma SubmissionKeepsRecordsSigned(
    e: map<string, Stored>, f: Fields, hashData: string -> string, signData: string -> Option<string>,
    snapshotWriteOk: bool, credentialWriteOk: bool)
    requires LogsShaped(e) && AllSignedOver(e, hashData, signData)
    ensures var r := Submission(e, f, hashData, signData, snapshotWriteOk, credentialWriteOk);
      AllSignedOver(r.1, hashData, signData)
  {
  }
}
