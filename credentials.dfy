/** The credential log: an append-only array of signed credentials kept as
    JSON text under one storage key. Duplicates are allowed; every append is
    a read-modify-write of the whole array. */
module CredentialStore {
  import opened Records
  import opened AsyncStorage

  const CredentialsKey: string := "educrypt_issued_credentials"

  /** The credential key holds no array of another kind (such text would be
      handed back unchecked as if it were credentials). */
  predicate Shaped(e: map<string, Stored>) {
    CredentialsKey in e ==> !e[CredentialsKey].StringArray?
  }

  /** What a read of the log yields: the stored array, or the empty log when
      the key is missing or its text does not parse. */
  function StoredCredentials(e: map<string, Stored>): seq<Credential>
    requires Shaped(e)
  {
    if CredentialsKey !in e then []
    else match e[CredentialsKey]
      case CredentialArray(cs) => cs
      case NotJson(_) => []
      case StringArray(_) => []
  }

  /** The storage after one append: the log read back is the old log with
      `c` at the end, and no other key changes. */
  function WithCredential(e: map<string, Stored>, c: Credential): (e': map<string, Stored>)
    requires Shaped(e)
    ensures Shaped(e')
    ensures StoredCredentials(e') == StoredCredentials(e) + [c]
    ensures forall k :: k != CredentialsKey ==> SameAt(e, e', k)
  {
    e[CredentialsKey := CredentialArray(StoredCredentials(e) + [c])]
  }

  /** The storage after the log is cleared: the key is gone, the log reads
      back empty, and no other key changes. */
  function WithoutCredentials(e: map<string, Stored>): (e': map<string, Stored>)
    ensures Shaped(e') && CredentialsKey !in e'
    ensures StoredCredentials(e') == []
    ensures forall k :: k != CredentialsKey ==> SameAt(e, e', k)
  {
    e - {CredentialsKey}
  }

  /** The storage after `cs` is appended one credential at a time. */
  function WithCredentials(e: map<string, Stored>, cs: seq<Credential>): (e': map<string, Stored>)
    requires Shaped(e)
    ensures Shaped(e')
    decreases |cs|
  {
    if cs == [] then e else WithCredentials(WithCredential(e, cs[0]), cs[1..])
  }

  /** A missing key and unparseable text both read as the empty log. */
  lemma UnreadableLogIsEmpty(e: map<string, Stored>)
    requires CredentialsKey !in e || e[CredentialsKey].NotJson?
    ensures Shaped(e) && StoredCredentials(e) == []
  {
  }

  /** Appending onto unparseable text writes the one-element array `[c]`:
      whatever the text held is gone. */
  lemma AppendOverwritesUnreadable(e: map<string, Stored>, c: Credential)
    requires CredentialsKey in e && e[CredentialsKey].NotJson?
    ensures Shaped(e)
    ensures WithCredential(e, c)[CredentialsKey] == CredentialArray([c])
  {
  }

  /** No membership check: appending the same credential twice leaves two
      copies at the end of the log. */
  lemma AppendTwiceKeepsBoth(e: map<string, Stored>, c: Credential)
    requires Shaped(e)
    ensures StoredCredentials(WithCredential(WithCredential(e, c), c)) == StoredCredentials(e) + [c, c]
  {
  }

  /** Appending `cs` in order extends the log by exactly `cs`, in call order,
      whether or not its elements are distinct. */
  lemma {:induction false} AppendAllInOrder(e: map<string, Stored>, cs: seq<Credential>)
    requires Shaped(e)
    ensures StoredCredentials(WithCredentials(e, cs)) == StoredCredentials(e) + cs
    ensures |StoredCredentials(WithCredentials(e, cs))| == |StoredCredentials(e)| + |cs|
    decreases |cs|
  {
    if cs != [] {
      var e1 := WithCredential(e, cs[0]);
      AppendAllInOrder(e1, cs[1..]);
      calc {
        StoredCredentials(WithCredentials(e, cs));
        StoredCredentials(WithCredentials(e1, cs[1..]));
        StoredCredentials(e1) + cs[1..];
        (StoredCredentials(e) + [cs[0]]) + cs[1..];
        { assert [cs[0]] + cs[1..] == cs; }
        StoredCredentials(e) + cs;
      }
    }
  }

  /** The credential log as the app's `store/credentials` module sees it:
      three operations over the one credential key of the shared store. */
  class CredentialLog {
    const storage: Storage

    constructor (storage: Storage)
      ensures this.storage == storage
    {
      this.storage := storage;
    }

    /** getCredentials. */
    method GetCredentials() returns (credentials: seq<Credential>)
      requires Shaped(storage.entries)
      ensures credentials == StoredCredentials(storage.entries)
    {
      credentials := [];
      if CredentialsKey in storage.entries {
        var stored := storage.entries[CredentialsKey];
        if stored.CredentialArray? {
          credentials := stored.credentials;
        }
      }
    }

    /** addCredential: read the log, push `c`, write the whole array back.
        `writeOk` says whether the store accepts the write; when it does
        not, the call fails and storage is as before. */
    method AddCredential(c: Credential, writeOk: bool) returns (ok: bool)
      requires Shaped(storage.entries)
      modifies storage
      ensures ok == writeOk
      ensures storage.entries == if ok then WithCredential(old(storage.entries), c) else old(storage.entries)
    {
      var credentials := GetCredentials();
      credentials := credentials + [c];
      if writeOk {
        storage.entries := storage.entries[CredentialsKey := CredentialArray(credentials)];
      }
      ok := writeOk;
    }

    /** clearCredentials: remove the key. */
    method ClearCredentials()
      modifies storage
      ensures storage.entries == WithoutCredentials(old(storage.entries))
    {
      storage.entries := storage.entries - {CredentialsKey};
    }
  }
}
