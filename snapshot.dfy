/** The snapshot log: an insertion-ordered list of credential hashes kept as
    JSON text under one storage key. A hash already present is not appended
    again, and then nothing is written. */
module SnapshotStore {
  import opened AsyncStorage

  const SnapshotKey: string := "educrypt_snapshot_hashes"

  /** The snapshot key holds no array of another kind. */
  predicate Shaped(e: map<string, Stored>) {
    SnapshotKey in e ==> !e[SnapshotKey].CredentialArray?
  }

  predicate NoDuplicates(s: seq<string>) {
    forall i, j :: 0 <= i < j < |s| ==> s[i] != s[j]
  }

  /** What a read of the log yields: the stored array, or the empty list when
      the key is missing or its text does not parse. */
  function StoredHashes(e: map<string, Stored>): seq<string>
    requires Shaped(e)
  {
    if SnapshotKey !in e then []
    else match e[SnapshotKey]
      case StringArray(hs) => hs
      case NotJson(_) => []
      case CredentialArray(_) => []
  }

  /** The storage after `h` is offered to the log: `h` is in the log read
      back; if it was there already storage is untouched, otherwise it is
      appended at the end; no other key changes. */
  function WithHash(e: map<string, Stored>, h: string): (e': map<string, Stored>)
    requires Shaped(e)
    ensures Shaped(e')
    ensures h in StoredHashes(e')
    ensures h in StoredHashes(e) ==> e' == e
    ensures h !in StoredHashes(e) ==> StoredHashes(e') == StoredHashes(e) + [h]
    ensures forall k :: k != SnapshotKey ==> SameAt(e, e', k)
  {
    var hashes := StoredHashes(e);
    if h in hashes then e else e[SnapshotKey := StringArray(hashes + [h])]
  }

  /** The storage after the log is cleared. */
  function WithoutHashes(e: map<string, Stored>): (e': map<string, Stored>)
    ensures Shaped(e') && SnapshotKey !in e'
    ensures StoredHashes(e') == []
    ensures forall k :: k != SnapshotKey ==> SameAt(e, e', k)
  {
    e - {SnapshotKey}
  }

  /** The storage after each of `hs` is offered in turn. */
  function WithHashes(e: map<string, Stored>, hs: seq<string>): (e': map<string, Stored>)
    requires Shaped(e)
    ensures Shaped(e')
    decreases |hs|
  {
    if hs == [] then e else WithHashes(WithHash(e, hs[0]), hs[1..])
  }

  /** A missing key and unparseable text both read as the empty list. */
  lemma UnreadableSnapshotIsEmpty(e: map<string, Stored>)
    requires SnapshotKey !in e || e[SnapshotKey].NotJson?
    ensures Shaped(e) && StoredHashes(e) == []
  {
  }

  /** Offering the same hash twice leaves the storage of offering it once. */
  lemma AddHashIdempotent(e: map<string, Stored>, h: string)
    requires Shaped(e)
    ensures WithHash(WithHash(e, h), h) == WithHash(e, h)
  {
  }

  /** A log without duplicates keeps having none. */
  lemma AddHashKeepsDistinct(e: map<string, Stored>, h: string)
    requires Shaped(e) && NoDuplicates(StoredHashes(e))
    ensures NoDuplicates(StoredHashes(WithHash(e, h)))
  {
  }

  /** Offering `hs` in order: the old log stays a prefix, every offered hash
      ends up in the log, nothing else enters it, and a log without
      duplicates keeps having none. */
  lemma {:induction false} AddAllHashes(e: map<string, Stored>, hs: seq<string>)
    requires Shaped(e)
    ensures var after := StoredHashes(WithHashes(e, hs));
      && StoredHashes(e) <= after
      && (forall h :: h in hs ==> h in after)
      && (forall h :: h in after ==> h in StoredHashes(e) || h in hs)
      && (NoDuplicates(StoredHashes(e)) ==> NoDuplicates(after))
    decreases |hs|
  {
    if hs != [] {
      var e1 := WithHash(e, hs[0]);
      AddAllHashes(e1, hs[1..]);
      if NoDuplicates(StoredHashes(e)) {
        AddHashKeepsDistinct(e, hs[0]);
      }
      forall h | h in hs ensures h in StoredHashes(WithHashes(e, hs)) {
        if h != hs[0] {
          assert h in hs[1..];
        } else {
          assert h in StoredHashes(e1);
        }
      }
    }
  }

  /** The snapshot log as the app's `store/snapshot` module sees it. */
  class SnapshotLog {
    const storage: Storage

    constructor (storage: Storage)
      ensures this.storage == storage
    {
      this.storage := storage;
    }

    /** getSnapshotHashes. */
    method GetSnapshotHashes() returns (hashes: seq<string>)
      requires Shaped(storage.entries)
      ensures hashes == StoredHashes(storage.entries)
    {
      hashes := [];
      if SnapshotKey in storage.entries {
        var stored := storage.entries[SnapshotKey];
        if stored.StringArray? {
          hashes := stored.strings;
        }
      }
    }

    /** addHashToSnapshot: read the list and, only when `h` is missing, push
        it and write the whole list back. `writeOk` says whether the store
        accepts that write; a rejected write fails the call and leaves
        storage as before. No write, no failure, when `h` is present. */
    method AddHashToSnapshot(h: string, writeOk: bool) returns (ok: bool)
      requires Shaped(storage.entries)
      modifies storage
      ensures ok == (h in StoredHashes(old(storage.entries)) || writeOk)
      ensures storage.entries == if ok then WithHash(old(storage.entries), h) else old(storage.entries)
    {
      var hashes := GetSnapshotHashes();
      ok := true;
      if h !in hashes {
        hashes := hashes + [h];
        if writeOk {
          storage.entries := storage.entries[SnapshotKey := StringArray(hashes)];
        } else {
          ok := false;
        }
      }
    }

    /** clearSnapshot: remove the key. */
    method ClearSnapshot()
      modifies storage
      ensures storage.entries == WithoutHashes(old(storage.entries))
    {
      storage.entries := storage.entries - {SnapshotKey};
    }
  }
}
