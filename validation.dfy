/** The form's validation: an ordered list of error messages, one "required"
    message per field that is empty after trimming, then a format message
    when the raw date is non-empty and is not of the shape YYYY-MM-DD. */
module Validation {
  import opened Records

  /** The messages validation can produce. */
  datatype Message = NameRequired | DegreeRequired | DateRequired | IssuerRequired | DateFormat

  /** The text shown for each message. */
  function Text(m: Message): string {
    match m
    case NameRequired => "Name is required."
    case DegreeRequired => "Degree is required."
    case DateRequired => "Graduation date is required."
    case IssuerRequired => "Issuer is required."
    case DateFormat => "Graduation date must be in YYYY-MM-DD format."
  }

  /** The position of a message in the order the form validates its fields. */
  function Rank(m: Message): nat {
    match m
    case NameRequired => 0
    case DegreeRequired => 1
    case DateRequired => 2
    case IssuerRequired => 3
    case DateFormat => 4
  }

  /** The messages appear in the order the form validates its fields, each at most once. */
  predicate InCheckOrder(errs: seq<Message>) {
    forall i, j :: 0 <= i < j < |errs| ==> Rank(errs[i]) < Rank(errs[j])
  }

  /** The characters String.prototype.trim removes: ECMAScript's WhiteSpace
      (tab, vertical tab, form feed, space, no-break space, byte order mark
      and the other space separators of Unicode category Zs) and its
      LineTerminators (line feed, carriage return, line and paragraph
      separator). */
  predicate IsJsWhitespace(c: char) {
    c == '\t' || c == '\U{B}' || c == '\U{C}' || c == ' ' || c == '\U{A0}' || c == '\U{FEFF}'
    || c == '\n' || c == '\r' || c == '\U{2028}' || c == '\U{2029}'
    || c == '\U{1680}' || ('\U{2000}' <= c <= '\U{200A}') || c == '\U{202F}' || c == '\U{205F}' || c == '\U{3000}'
  }

  /** Nothing but whitespace (the empty string included). */
  predicate Blank(s: string) {
    forall i :: 0 <= i < |s| ==> IsJsWhitespace(s[i])
  }

  /** `s` without its leading whitespace. */
  function TrimStart(s: string): string
    decreases |s|
  {
    if s != [] && IsJsWhitespace(s[0]) then TrimStart(s[1..]) else s
  }

  /** `s` without its trailing whitespace. */
  function TrimEnd(s: string): string
    decreases |s|
  {
    if s != [] && IsJsWhitespace(s[|s| - 1]) then TrimEnd(s[..|s| - 1]) else s
  }

  /** String.prototype.trim. */
  function Trim(s: string): string {
    TrimEnd(TrimStart(s))
  }

  /** TrimStart drops the longest all-whitespace prefix: what remains is a
      suffix of `s` that is empty or starts with a non-whitespace character,
      and everything before it is whitespace. */
  lemma {:induction false} TrimStartDropsLeadingBlank(s: string)
    ensures var r := TrimStart(s);
      && |r| <= |s| && r == s[|s| - |r|..]
      && (r == [] || !IsJsWhitespace(r[0]))
      && Blank(s[..|s| - |r|])
    decreases |s|
  {
    if s != [] && IsJsWhitespace(s[0]) {
      TrimStartDropsLeadingBlank(s[1..]);
      var r := TrimStart(s);
      assert s[1..][|s| - 1 - |r|..] == s[|s| - |r|..];
      forall i | 0 <= i < |s| - |r| ensures IsJsWhitespace(s[i]) {
        if i > 0 {
          assert s[i] == s[1..][..|s| - 1 - |r|][i - 1];
        }
      }
    }
  }

  /** TrimEnd drops the longest all-whitespace suffix. */
  lemma {:induction false} TrimEndDropsTrailingBlank(s: string)
    ensures var r := TrimEnd(s);
      && |r| <= |s| && r == s[..|r|]
      && (r == [] || !IsJsWhitespace(r[|r| - 1]))
      && Blank(s[|r|..])
    decreases |s|
  {
    if s != [] && IsJsWhitespace(s[|s| - 1]) {
      var s' := s[..|s| - 1];
      TrimEndDropsTrailingBlank(s');
      var r := TrimEnd(s);
      assert s'[..|r|] == s[..|r|];
      forall i | |r| <= i < |s| ensures IsJsWhitespace(s[i]) {
        if i < |s| - 1 {
          assert s[i] == s'[|r|..][i - |r|];
        }
      }
    }
  }

  /** A value fails the "required" check exactly when it is all whitespace. */
  lemma TrimEmptyIffBlank(s: string)
    ensures Trim(s) == [] <==> Blank(s)
  {
    TrimStartDropsLeadingBlank(s);
    var t := TrimStart(s);
    TrimEndDropsTrailingBlank(t);
    if t == [] {
      assert s[..|s|] == s;
    } else {
      assert !IsJsWhitespace(s[|s| - |t|]);
    }
  }

  predicate IsAsciiDigit(c: char) {
    '0' <= c <= '9'
  }

  /** The regular expression ^\d{4}-\d{2}-\d{2}$ without flags: exactly ten
      characters, ASCII digits but for two hyphens at positions 4 and 7. No
      range of month or day is checked. */
  predicate MatchesDatePattern(s: string) {
    |s| == 10 && s[4] == '-' && s[7] == '-'
    && forall i :: 0 <= i < 10 && i != 4 && i != 7 ==> IsAsciiDigit(s[i])
  }

  /** The inputs validation lets through. */
  predicate Acceptable(f: Fields) {
    !Blank(f.name) && !Blank(f.degree) && !Blank(f.issuer) && MatchesDatePattern(f.graduationDate)
  }

  function When(b: bool, m: Message): seq<Message> {
    if b then [m] else []
  }

  /** Appending a message that ranks after everything already listed keeps
      the list in check order. */
  lemma AppendInOrder(errs: seq<Message>, b: bool, m: Message)
    requires InCheckOrder(errs)
    requires forall x :: x in errs ==> Rank(x) < Rank(m)
    ensures InCheckOrder(errs + When(b, m))
    ensures forall x :: x in errs + When(b, m) ==> Rank(x) <= Rank(m)
  {
  }

  /** The messages for the fields that failed validation. */
  function Collect(name: bool, degree: bool, date: bool, issuer: bool, format: bool): (errs: seq<Message>)
    ensures NameRequired in errs <==> name
    ensures DegreeRequired in errs <==> degree
    ensures DateRequired in errs <==> date
    ensures IssuerRequired in errs <==> issuer
    ensures DateFormat in errs <==> format
  {
    When(name, NameRequired) + When(degree, DegreeRequired) + When(date, DateRequired)
    + When(issuer, IssuerRequired) + When(format, DateFormat)
  }

  /** The collected messages are in check order. */
  lemma CollectInCheckOrder(name: bool, degree: bool, date: bool, issuer: bool, format: bool)
    ensures InCheckOrder(Collect(name, degree, date, issuer, format))
  {
    var e1 := When(name, NameRequired);
    AppendInOrder([], name, NameRequired);
    AppendInOrder(e1, degree, DegreeRequired);
    var e2 := e1 + When(degree, DegreeRequired);
    AppendInOrder(e2, date, DateRequired);
    var e3 := e2 + When(date, DateRequired);
    AppendInOrder(e3, issuer, IssuerRequired);
    var e4 := e3 + When(issuer, IssuerRequired);
    AppendInOrder(e4, format, DateFormat);
  }

  /** A date of the right shape is not blank. */
  lemma PatternNotBlank(s: string)
    ensures MatchesDatePattern(s) ==> !Blank(s)
  {
    if MatchesDatePattern(s) {
      assert IsAsciiDigit(s[0]);
    }
  }

  /** The error list of `handleSubmit`: each "required" message exactly when
      its field is blank, the format message exactly when the raw date is
      non-empty and does not match, in check order, and no message at all
      exactly when the inputs are acceptable. */
  function Errors(f: Fields): (errs: seq<Message>)
    ensures NameRequired in errs <==> Blank(f.name)
    ensures DegreeRequired in errs <==> Blank(f.degree)
    ensures DateRequired in errs <==> Blank(f.graduationDate)
    ensures IssuerRequired in errs <==> Blank(f.issuer)
    ensures DateFormat in errs <==> f.graduationDate != [] && !MatchesDatePattern(f.graduationDate)
    ensures InCheckOrder(errs)
    ensures errs == [] <==> Acceptable(f)
  {
    TrimEmptyIffBlank(f.name);
    TrimEmptyIffBlank(f.degree);
    TrimEmptyIffBlank(f.graduationDate);
    TrimEmptyIffBlank(f.issuer);
    PatternNotBlank(f.graduationDate);
    CollectInCheckOrder(Trim(f.name) == [], Trim(f.degree) == [], Trim(f.graduationDate) == [],
                        Trim(f.issuer) == [], f.graduationDate != [] && !MatchesDatePattern(f.graduationDate));
    Collect(Trim(f.name) == [], Trim(f.degree) == [], Trim(f.graduationDate) == [],
            Trim(f.issuer) == [], f.graduationDate != [] && !MatchesDatePattern(f.graduationDate))
  }

  /** The validation step of `handleSubmit`, pushing onto `errs` check by
      check. */
  method Validate(f: Fields) returns (errs: seq<Message>)
    ensures errs == Errors(f)
  {
    var nameMissing, degreeMissing := Trim(f.name) == [], Trim(f.degree) == [];
    var dateMissing, issuerMissing := Trim(f.graduationDate) == [], Trim(f.issuer) == [];
    var malformed := f.graduationDate != [] && !MatchesDatePattern(f.graduationDate);
    errs := [];
    if nameMissing {
      errs := errs + [NameRequired];
    }
    assert errs == When(nameMissing, NameRequired);
    ghost var before := errs;
    if degreeMissing {
      errs := errs + [DegreeRequired];
    }
    assert errs == before + When(degreeMissing, DegreeRequired);
    before := errs;
    if dateMissing {
      errs := errs + [DateRequired];
    }
    assert errs == before + When(dateMissing, DateRequired);
    before := errs;
    if issuerMissing {
      errs := errs + [IssuerRequired];
    }
    assert errs == before + When(issuerMissing, IssuerRequired);
    before := errs;
    if malformed {
      errs := errs + [DateFormat];
    }
    assert errs == before + When(malformed, DateFormat);
  }

  /** A date of the right shape with month 13 and day 45 passes. */
  lemma NoRangeCheck(f: Fields)
    requires f == Fields("Ada Lovelace", "BSc", "2024-13-45", "Analytical University")
    ensures Errors(f) == []
  {
    assert !IsJsWhitespace(f.name[0]) && !IsJsWhitespace(f.degree[0]) && !IsJsWhitespace(f.issuer[0]);
    assert MatchesDatePattern(f.graduationDate);
    assert Acceptable(f);
  }

  /** A whitespace-only date gets both the required and the format message. */
  lemma WhitespaceDateGetsBothMessages(f: Fields)
    requires f == Fields("Ada Lovelace", "BSc", "   ", "Analytical University")
    ensures Errors(f) == [DateRequired, DateFormat]
  {
    assert !IsJsWhitespace(f.name[0]) && !IsJsWhitespace(f.degree[0]) && !IsJsWhitespace(f.issuer[0]);
    TrimEmptyIffBlank(f.name);
    TrimEmptyIffBlank(f.degree);
    TrimEmptyIffBlank(f.graduationDate);
    TrimEmptyIffBlank(f.issuer);
  }

  /** The shape check sees the untrimmed date: a leading space is a format
      error though the date is not blank. */
  lemma PaddedDateGetsFormatMessage(f: Fields)
    requires f == Fields("Ada Lovelace", "BSc", " 2024-01-01", "Analytical University")
    ensures Errors(f) == [DateFormat]
  {
    assert !IsJsWhitespace(f.name[0]) && !IsJsWhitespace(f.degree[0]) && !IsJsWhitespace(f.issuer[0]);
    assert !IsJsWhitespace(f.graduationDate[1]);
    TrimEmptyIffBlank(f.name);
    TrimEmptyIffBlank(f.degree);
    TrimEmptyIffBlank(f.graduationDate);
    TrimEmptyIffBlank(f.issuer);
  }
}
