/** The canonical form of a credential: `JSON.stringify` of the object with
    exactly the keys name, degree, graduationDate, issuer, in that order,
    holding the raw inputs. String escaping follows section 7 of RFC 8259 as
    ECMAScript's JSON.stringify applies it: `"` and `\` and the control
    characters are escaped (the short forms where they exist, otherwise
    `\u00` and two lower-case hex digits); every other character is copied.
    A decoder for this shape is the partner: decoding the canonical string
    gives the fields back, so no two credentials share a canonical form. */
module CanonicalJson {
  import opened Wrappers
  import opened Records

  /** The lower-case hex digit of `d`. */
  function HexDigit(d: nat): (c: char)
    requires d < 16
    ensures '0' <= c <= '9' || 'a' <= c <= 'f'
  {
    if d < 10 then ('0' as int + d) as char else ('a' as int + d - 10) as char
  }

  /** The value of a hex digit of either case. */
  function HexValue(c: char): (r: Option<nat>)
    ensures r.Some? ==> r.value < 16
  {
    if '0' <= c <= '9' then Some(c as int - '0' as int)
    else if 'a' <= c <= 'f' then Some(c as int - 'a' as int + 10)
    else if 'A' <= c <= 'F' then Some(c as int - 'A' as int + 10)
    else None
  }

  /** The value of four hex digits. */
  function HexQuad(q: string): (r: Option<nat>)
    requires |q| == 4
    ensures r.Some? ==> r.value < 0x10000
  {
    var a :- HexValue(q[0]);
    var b :- HexValue(q[1]);
    var c :- HexValue(q[2]);
    var d :- HexValue(q[3]);
    Some(((a * 16 + b) * 16 + c) * 16 + d)
  }

  /** One character as it appears between the quotes of a JSON string. */
  function EscapeChar(c: char): string {
    if c == '"' then "\\\""
    else if c == '\\' then "\\\\"
    else if c == '\U{8}' then "\\b"
    else if c == '\U{C}' then "\\f"
    else if c == '\n' then "\\n"
    else if c == '\r' then "\\r"
    else if c == '\t' then "\\t"
    else if c < ' ' then "\\u00" + [HexDigit(c as int / 16), HexDigit(c as int % 16)]
    else [c]
  }

  function Escape(s: string): string {
    if s == [] then [] else EscapeChar(s[0]) + Escape(s[1..])
  }

  function Quote(s: string): string {
    "\"" + Escape(s) + "\""
  }

  /** One `"key":"value"` member, after the text that opens it. */
  function Member(opening: string, value: string): string {
    opening + Quote(value)
  }

  /** The canonical string hashed and signed for a credential. */
  function Canonical(f: Fields): string {
    Member("{\"name\":", f.name)
    + Member(",\"degree\":", f.degree)
    + Member(",\"graduationDate\":", f.graduationDate)
    + Member(",\"issuer\":", f.issuer)
    + "}"
  }

  /** A character that JSON.stringify copies unchanged. */
  predicate Plain(c: char) {
    c >= ' ' && c != '"' && c != '\\'
  }

  // ---------------------------------------------------------------------
  // Decoding (section 7 of RFC 8259)
  // ---------------------------------------------------------------------

  /** The first character of a string body at the start of `t`, and how many
      characters of `t` spell it; None at the closing quote, at a raw control
      character, at a malformed escape and at a `\u` escape of a surrogate
      (surrogate pairs are not combined). */
  function ReadChar(t: string): (r: Option<(char, nat)>)
    ensures r.Some? ==> 1 <= r.value.1 <= |t| && t[0] != '"'
  {
    if |t| == 0 || t[0] == '"' || t[0] < ' ' then None
    else if t[0] != '\\' then Some((t[0], 1))
    else if |t| < 2 then None
    else if t[1] == '"' then Some(('"', 2))
    else if t[1] == '\\' then Some(('\\', 2))
    else if t[1] == '/' then Some(('/', 2))
    else if t[1] == 'b' then Some(('\U{8}', 2))
    else if t[1] == 'f' then Some(('\U{C}', 2))
    else if t[1] == 'n' then Some(('\n', 2))
    else if t[1] == 'r' then Some(('\r', 2))
    else if t[1] == 't' then Some(('\t', 2))
    else if t[1] == 'u' && |t| >= 6 then
      match HexQuad(t[2..6])
      case None => None
      case Some(v) => if 0xD800 <= v < 0xE000 then None else Some((v as char, 6))
    else None
  }

  /** Reads a string body up to and including its closing quote: the decoded
      string and what follows the quote. */
  function ReadString(t: string): Option<(string, string)>
    decreases |t|
  {
    if |t| == 0 then None
    else if t[0] == '"' then Some(([], t[1..]))
    else
      var (c, n) :- ReadChar(t);
      var (s, rest) :- ReadString(t[n..]);
      Some(([c] + s, rest))
  }

  /** What follows `lit` in `t`, when `t` starts with it. */
  function Expect(lit: string, t: string): (r: Option<string>)
    ensures r.Some? ==> t == lit + r.value
  {
    if lit <= t then Some(t[|lit|..]) else None
  }

  /** Reads a quoted string: the opening quote, the body, the closing quote. */
  function ReadQuoted(t: string): Option<(string, string)> {
    if |t| > 0 && t[0] == '"' then ReadString(t[1..]) else None
  }

  /** Reads one member: the opening text, then a quoted value. */
  function ReadMember(opening: string, t: string): Option<(string, string)> {
    var body :- Expect(opening, t);
    ReadQuoted(body)
  }

  /** Decodes a canonical string back into the fields it was made from. */
  function ParseCanonical(t: string): Option<Fields> {
    var (name, t1) :- ReadMember("{\"name\":", t);
    var (degree, t2) :- ReadMember(",\"degree\":", t1);
    var (date, t3) :- ReadMember(",\"graduationDate\":", t2);
    var (issuer, t4) :- ReadMember(",\"issuer\":", t3);
    if t4 == "}" then Some(Fields(name, degree, date, issuer)) else None
  }

  // ---------------------------------------------------------------------
  // Round trip
  // ---------------------------------------------------------------------

  lemma HexDigitRoundTrip(d: nat)
    requires d < 16
    ensures HexValue(HexDigit(d)) == Some(d)
  {
  }

  /** Decoding one escaped character gives it back and consumes exactly its
      escape. */
  lemma ReadEscapedChar(c: char, u: string)
    ensures |EscapeChar(c)| >= 1
    ensures ReadChar(EscapeChar(c) + u) == Some((c, |EscapeChar(c)|))
  {
    var t := EscapeChar(c) + u;
    if c < ' ' && c != '\U{8}' && c != '\U{C}' && c != '\n' && c != '\r' && c != '\t' {
      var hi, lo := c as int / 16, c as int % 16;
      HexDigitRoundTrip(hi);
      HexDigitRoundTrip(lo);
      assert t[2..6] == ['0', '0', HexDigit(hi), HexDigit(lo)];
      assert HexQuad(t[2..6]) == Some(c as int);
    }
  }

  lemma {:induction false} ReadEscaped(s: string, rest: string)
    ensures ReadString(Escape(s) + "\"" + rest) == Some((s, rest))
    decreases |s|
  {
    var t := Escape(s) + "\"" + rest;
    if s == [] {
      assert t == "\"" + rest;
    } else {
      var u := Escape(s[1..]) + "\"" + rest;
      assert t == EscapeChar(s[0]) + u;
      ReadEscapedChar(s[0], u);
      assert t[|EscapeChar(s[0])|..] == u;
      ReadEscaped(s[1..], rest);
      assert [s[0]] + s[1..] == s;
    }
  }

  lemma ExpectLiteral(lit: string, u: string)
    ensures Expect(lit, lit + u) == Some(u)
  {
    assert lit <= lit + u;
    assert (lit + u)[|lit|..] == u;
  }

  lemma QuotedRoundTrip(s: string, rest: string)
    ensures ReadQuoted(Quote(s) + rest) == Some((s, rest))
  {
    var body := Escape(s) + "\"" + rest;
    var t := Quote(s) + rest;
    assert t == "\"" + body;
    assert t[1..] == body;
    ReadEscaped(s, rest);
  }

  lemma MemberRoundTrip(opening: string, value: string, rest: string)
    ensures ReadMember(opening, Member(opening, value) + rest) == Some((value, rest))
  {
    assert Member(opening, value) + rest == opening + (Quote(value) + rest);
    ExpectLiteral(opening, Quote(value) + rest);
    QuotedRoundTrip(value, rest);
  }

  /** Four members read in turn, then the closing brace, decode to a record. */
  lemma ParseMembers(t: string, t1: string, t2: string, t3: string, f: Fields)
    requires ReadMember("{\"name\":", t) == Some((f.name, t1))
    requires ReadMember(",\"degree\":", t1) == Some((f.degree, t2))
    requires ReadMember(",\"graduationDate\":", t2) == Some((f.graduationDate, t3))
    requires ReadMember(",\"issuer\":", t3) == Some((f.issuer, "}"))
    ensures ParseCanonical(t) == Some(f)
  {
  }

  /** The canonical string as its four members and the closing brace. */
  lemma CanonicalMembers(f: Fields)
    ensures Canonical(f) == Member("{\"name\":", f.name) + (Member(",\"degree\":", f.degree)
      + (Member(",\"graduationDate\":", f.graduationDate) + (Member(",\"issuer\":", f.issuer) + "}")))
  {
  }

  /** Decoding the canonical string gives back the four fields. */
  lemma CanonicalRoundTrip(f: Fields)
    ensures ParseCanonical(Canonical(f)) == Some(f)
  {
    var t3 := Member(",\"issuer\":", f.issuer) + "}";
    var t2 := Member(",\"graduationDate\":", f.graduationDate) + t3;
    var t1 := Member(",\"degree\":", f.degree) + t2;
    var t := Member("{\"name\":", f.name) + t1;
    CanonicalMembers(f);
    MemberRoundTrip("{\"name\":", f.name, t1);
    MemberRoundTrip(",\"degree\":", f.degree, t2);
    MemberRoundTrip(",\"graduationDate\":", f.graduationDate, t3);
    MemberRoundTrip(",\"issuer\":", f.issuer, "}");
    ParseMembers(t, t1, t2, t3, f);
  }

  /** Different fields give different canonical strings: changing any one
      field changes the string that is hashed and signed. */
  lemma CanonicalInjective(f: Fields, g: Fields)
    ensures Canonical(f) == Canonical(g) ==> f == g
  {
    CanonicalRoundTrip(f);
    CanonicalRoundTrip(g);
  }

  /** A string of plain characters is copied into the canonical form as is. */
  lemma {:induction false} EscapePlain(s: string)
    requires forall i :: 0 <= i < |s| ==> Plain(s[i])
    ensures Escape(s) == s
    decreases |s|
  {
    if s != [] {
      EscapePlain(s[1..]);
      assert [s[0]] + s[1..] == s;
    }
  }
}
