/** The device's persistent key-value store (AsyncStorage), abstracted as a
    map from key to what `JSON.parse` makes of the text stored there. A key
    absent from the map is a key `getItem` reports as missing. */
module AsyncStorage {
  import opened Records

  /** Where the private key's PEM text is kept; no operation of this model
      writes it, and the logs never touch it. */
  const PrivateKeyStorageKey: string := "educrypt_private_key"

  /** The stored text of one key, seen through `JSON.parse`. */
  datatype Stored =
    /** a JSON array of credential objects */
    | CredentialArray(credentials: seq<Credential>)
    /** a JSON array of strings */
    | StringArray(strings: seq<string>)
    /** text that `JSON.parse` rejects (a truncated write, the PEM of the
        private key) or the empty string, which a read treats as missing */
    | NotJson(text: string)

  /** The one store every module of the app shares. */
  class Storage {
    var entries: map<string, Stored>

    constructor (initial: map<string, Stored>)
      ensures entries == initial
    {
      entries := initial;
    }
  }

  /** True when the two maps agree on key `k`, both holding it or both not. */
  predicate SameAt(e: map<string, Stored>, e': map<string, Stored>, k: string) {
    (k in e <==> k in e') && (k in e ==> e[k] == e'[k])
  }
}
