/** The part of JSON the honeypot writes and reads back: string, integer and
    null scalars and objects nested to any depth (the record's headers are a
    string-to-string object), written the way Python's
    `json.dumps` writes them with its default separators (", " and ": ").
    Parsers accept exactly the text the encoders produce, so each encoder and
    its parser are proved mutually inverse. */
module Json {
  import opened Seqs
  import opened Text

  /** A scalar JSON value: a string, a number, or null (Python's None). */
  datatype Value = Str(text: string) | Num(n: int) | Null

  /** Characters written as a two-character backslash escape. */
  predicate IsEscaped(c: char) {
    c == '"' || c == '\\' || c == '\n' || c == '\r' || c == '\t'
  }

  /** Text with no character that JSON escapes. Network addresses are such text. */
  predicate Plain(s: string) {
    forall i :: 0 <= i < |s| ==> !IsEscaped(s[i])
  }

  function EscapeChar(c: char): string {
    if c == '"' then "\\\""
    else if c == '\\' then "\\\\"
    else if c == '\n' then "\\n"
    else if c == '\r' then "\\r"
    else if c == '\t' then "\\t"
    else [c]
  }

  /** The character the escape `\e` stands for, if `e` names one. */
  function Unescape(e: char): Option<char> {
    if e == '"' then Some('"')
    else if e == '\\' then Some('\\')
    else if e == 'n' then Some('\n')
    else if e == 'r' then Some('\r')
    else if e == 't' then Some('\t')
    else None
  }

  /** Escapes and `Unescape` agree, in both directions. */
  lemma EscapeCharUnescape(c: char)
    ensures IsEscaped(c) ==> |EscapeChar(c)| == 2 && EscapeChar(c)[0] == '\\'
                             && Unescape(EscapeChar(c)[1]) == Some(c)
    ensures !IsEscaped(c) ==> EscapeChar(c) == [c]
  {
  }

  lemma UnescapeEscapeChar(e: char, c: char)
    requires Unescape(e) == Some(c)
    ensures IsEscaped(c) && EscapeChar(c) == ['\\', e]
  {
  }

  function Escape(s: string): string {
    if |s| == 0 then "" else EscapeChar(s[0]) + Escape(s[1..])
  }

  /** Escaping works character by character, so it splits over a join. */
  lemma {:induction false} EscapeAppend(a: string, b: string)
    ensures Escape(a + b) == Escape(a) + Escape(b)
  {
    if |a| > 0 {
      assert (a + b)[0] == a[0];
      assert (a + b)[1..] == a[1..] + b;
      EscapeAppend(a[1..], b);
    } else {
      assert a + b == b;
    }
  }

  /** Text with nothing to escape that occurs in `s` still occurs, verbatim,
      in the escaped text of `s`. */
  lemma EscapeKeepsPlain(s: string, sub: string)
    requires Plain(sub) && Contains(s, sub)
    ensures Contains(Escape(s), sub)
  {
    var i :| OccursAt(s, sub, i);
    var pre, post := s[..i], s[i + |sub|..];
    assert s == pre + sub + post;
    EscapeAppend(pre + sub, post);
    EscapeAppend(pre, sub);
    EscapePlain(sub);
    ContainsAt(sub, sub, 0);
    ContainsRight(Escape(pre), sub, sub);
    ContainsLeft(Escape(pre) + sub, Escape(post), sub);
  }

  /** A JSON string literal. */
  function Quote(s: string): string {
    "\"" + Escape(s) + "\""
  }

  /** Text with nothing to escape is written verbatim inside the quotes. */
  lemma {:induction false} EscapePlain(s: string)
    requires Plain(s)
    ensures Escape(s) == s
  {
    if |s| > 0 {
      EscapePlain(s[1..]);
      assert s == [s[0]] + s[1..];
    }
  }

  /** Reads the body of a string literal, after its opening quote, up to and
      including the closing quote; the rest of the text is returned. */
  function ParseChars(s: string): (r: Option<(string, string)>)
    decreases |s|
    ensures r.Some? ==> |r.value.1| < |s|
  {
    if |s| == 0 then None
    else if s[0] == '"' then Some(("", s[1..]))
    else if s[0] == '\\' then
      if |s| < 2 then None
      else match Unescape(s[1])
        case None => None
        case Some(c) =>
          match ParseChars(s[2..])
          case None => None
          case Some(p) => Some(([c] + p.0, p.1))
    else if IsEscaped(s[0]) then None
    else match ParseChars(s[1..])
      case None => None
      case Some(p) => Some(([s[0]] + p.0, p.1))
  }

  lemma {:induction false} ParseCharsEscaped(s: string, rest: string)
    ensures ParseChars(Escape(s) + "\"" + rest) == Some((s, rest))
  {
    if |s| == 0 {
      assert Escape(s) + "\"" + rest == "\"" + rest;
    } else {
      var tail := Escape(s[1..]) + "\"" + rest;
      ParseCharsEscaped(s[1..], rest);
      ParseCharsStep(s[0], tail);
      assert Escape(s) + "\"" + rest == EscapeChar(s[0]) + tail;
      assert s == [s[0]] + s[1..];
    }
  }

  /** One written character, then text the parser reads. */
  lemma ParseCharsStep(c: char, tail: string)
    requires ParseChars(tail).Some?
    ensures ParseChars(EscapeChar(c) + tail)
            == Some(([c] + ParseChars(tail).value.0, ParseChars(tail).value.1))
  {
    var t := EscapeChar(c) + tail;
    EscapeCharUnescape(c);
    if IsEscaped(c) {
      assert t[2..] == tail;
    } else {
      assert t[1..] == tail;
    }
  }

  lemma {:induction false} ParseCharsCanonical(t: string)
    requires ParseChars(t).Some?
    ensures t == Escape(ParseChars(t).value.0) + "\"" + ParseChars(t).value.1
    decreases |t|
  {
    var p := ParseChars(t).value;
    if t[0] == '"' {
      assert t == "\"" + t[1..];
    } else if t[0] == '\\' {
      var c := Unescape(t[1]).value;
      var q := ParseChars(t[2..]).value;
      ParseCharsCanonical(t[2..]);
      UnescapeEscapeChar(t[1], c);
      assert ([c] + q.0)[1..] == q.0;
      assert t == [t[0], t[1]] + t[2..];
    } else {
      var q := ParseChars(t[1..]).value;
      ParseCharsCanonical(t[1..]);
      EscapeCharUnescape(t[0]);
      assert ([t[0]] + q.0)[1..] == q.0;
      assert t == [t[0]] + t[1..];
    }
  }

  function ParseString(s: string): (r: Option<(string, string)>)
    ensures r.Some? ==> |r.value.1| < |s|
  {
    if |s| > 0 && s[0] == '"' then ParseChars(s[1..]) else None
  }

  /** Reading a written string literal returns the string and the rest. */
  lemma ParseQuote(s: string, rest: string)
    ensures ParseString(Quote(s) + rest) == Some((s, rest))
  {
    ParseCharsEscaped(s, rest);
    assert (Quote(s) + rest)[1..] == Escape(s) + "\"" + rest;
  }

  /** Whatever `ParseString` accepts is a written string literal. */
  lemma ParseStringCanonical(s: string)
    requires ParseString(s).Some?
    ensures s == Quote(ParseString(s).value.0) + ParseString(s).value.1
  {
    ParseCharsCanonical(s[1..]);
    assert s == "\"" + s[1..];
  }

  /** Length of the run of digits at the start of `s`. */
  function DigitRun(s: string): (k: nat)
    ensures k <= |s| && AllDigits(s[..k])
    ensures k < |s| ==> !IsDigit(s[k])
  {
    if |s| > 0 && IsDigit(s[0]) then
      var k := 1 + DigitRun(s[1..]);
      assert s[..k] == [s[0]] + s[1..][..k - 1];
      k
    else 0
  }

  /** A number ends where the next character is not a digit. */
  predicate Delimited(rest: string) {
    |rest| == 0 || !IsDigit(rest[0])
  }

  lemma {:induction false} DigitRunOf(d: string, rest: string)
    requires AllDigits(d) && Delimited(rest)
    ensures DigitRun(d + rest) == |d|
  {
    if |d| > 0 {
      assert (d + rest)[1..] == d[1..] + rest;
      DigitRunOf(d[1..], rest);
    } else {
      assert d + rest == rest;
    }
  }

  /** Reads a non-negative integer written without leading zeros. */
  function ParseNat(s: string): Option<(nat, string)> {
    var k := DigitRun(s);
    if k == 0 || (s[0] == '0' && k > 1) then None
    else Some((DigitsValue(s[..k]), s[k..]))
  }

  /** Reading canonical digits returns the number they denote and the rest. */
  lemma ParseNatDigits(d: string, rest: string)
    requires CanonicalDigits(d) && Delimited(rest)
    ensures ParseNat(d + rest) == Some((DigitsValue(d), rest))
  {
    DigitRunOf(d, rest);
    assert (d + rest)[..|d|] == d;
    assert (d + rest)[|d|..] == rest;
  }

  lemma ParseNatText(n: nat, rest: string)
    requires Delimited(rest)
    ensures ParseNat(NatText(n) + rest) == Some((n, rest))
  {
    ParseNatDigits(NatText(n), rest);
  }

  lemma ParseNatCanonical(s: string)
    requires ParseNat(s).Some?
    ensures s == NatText(ParseNat(s).value.0) + ParseNat(s).value.1
    ensures Delimited(ParseNat(s).value.1)
  {
    var k := DigitRun(s);
    assert s[..k][0] == s[0];
    CanonicalIsNatText(s[..k]);
    assert s == s[..k] + s[k..];
  }

  /** Reads an integer: digits, optionally after a minus sign ("-0" is not
      what Python writes, so it is refused). */
  function ParseInt(s: string): Option<(int, string)> {
    if StartsWith(s, "-") then
      match ParseNat(s[1..])
      case None => None
      case Some(p) =>
        var n: int := p.0;
        if n == 0 then None else Some((-n, p.1))
    else
      match ParseNat(s)
      case None => None
      case Some(p) => Some((p.0, p.1))
  }

  /** A scalar as `json.dumps` writes it. */
  function EncodeValue(v: Value): string {
    match v
    case Str(t) => Quote(t)
    case Num(n) => IntText(n)
    case Null => "null"
  }

  function ParseValue(s: string): (r: Option<(Value, string)>)
    ensures r.Some? ==> |r.value.1| < |s|
  {
    if StartsWith(s, "\"") then
      match ParseString(s)
      case None => None
      case Some(p) => Some((Str(p.0), p.1))
    else if StartsWith(s, "null") then Some((Null, s[4..]))
    else
      match ParseInt(s)
      case None => None
      case Some(p) => Some((Num(p.0), p.1))
  }

  lemma ParseIntText(n: int, rest: string)
    requires Delimited(rest)
    ensures ParseInt(IntText(n) + rest) == Some((n, rest))
  {
    if n < 0 {
      ParseNegativeDigits(NatText(-n), rest);
    } else {
      ParseNonNegativeDigits(NatText(n), rest);
    }
  }

  lemma ParseNonNegativeDigits(d: string, rest: string)
    requires CanonicalDigits(d) && Delimited(rest)
    ensures ParseInt(d + rest) == Some((DigitsValue(d), rest))
  {
    ParseNatDigits(d, rest);
    assert (d + rest)[0] == d[0];
  }

  lemma ParseNegativeDigits(d: string, rest: string)
    requires CanonicalDigits(d) && DigitsValue(d) > 0 && Delimited(rest)
    ensures ParseInt("-" + d + rest) == Some((0 - DigitsValue(d), rest))
  {
    var s := "-" + d + rest;
    Assoc("-", d, rest);
    PrefixOf("-", d + rest);
    ParseNatDigits(d, rest);
    assert StartsWith(s, "-") && ParseNat(s[1..]) == Some((DigitsValue(d), rest));
    var n: int := DigitsValue(d);
    assert n != 0;
  }

  /** Whatever `ParseInt` accepts is a written integer. */
  lemma ParseIntCanonical(s: string)
    requires ParseInt(s).Some?
    ensures s == IntText(ParseInt(s).value.0) + ParseInt(s).value.1
  {
    if StartsWith(s, "-") {
      var p := ParseNat(s[1..]).value;
      ParseNatCanonical(s[1..]);
      assert s == "-" + s[1..];
      Assoc("-", NatText(p.0), p.1);
    } else {
      ParseNatCanonical(s);
    }
  }

  /** Reading a written scalar returns it and the rest, provided the rest
      cannot be taken for more digits of a number. */
  lemma ParseEncodedValue(v: Value, rest: string)
    requires Delimited(rest)
    ensures ParseValue(EncodeValue(v) + rest) == Some((v, rest))
  {
    var s := EncodeValue(v) + rest;
    match v
    case Str(t) =>
      ParseQuote(t, rest);
    case Num(n) =>
      ParseIntText(n, rest);
      assert s[0] == '-' || IsDigit(s[0]);
      assert !StartsWith(s, "\"") && !StartsWith(s, "null");
    case Null =>
      assert s[4..] == rest;
  }

  /** Whatever `ParseValue` accepts is a written scalar. */
  lemma ParseValueCanonical(s: string)
    requires ParseValue(s).Some?
    ensures s == EncodeValue(ParseValue(s).value.0) + ParseValue(s).value.1
  {
    if StartsWith(s, "\"") {
      ParseStringCanonical(s);
    } else if StartsWith(s, "null") {
      assert s == "null" + s[4..];
    } else {
      ParseIntCanonical(s);
    }
  }

  /** Consumes the literal `prefix`. */
  function Expect(s: string, prefix: string): (r: Option<string>)
    ensures r.Some? ==> s == prefix + r.value
  {
    if StartsWith(s, prefix) then
      assert s == prefix + s[|prefix|..];
      Some(s[|prefix|..])
    else None
  }

  lemma ExpectPrefix(prefix: string, rest: string)
    ensures Expect(prefix + rest, prefix) == Some(rest)
  {
    assert (prefix + rest)[..|prefix|] == prefix;
    assert (prefix + rest)[|prefix|..] == rest;
  }

  /** A JSON document: a scalar, or an object whose members keep the order
      they were written in (a Python dict keeps insertion order). */
  datatype Json = Scalar(v: Value) | Object(members: seq<(string, Json)>)

  /** A document as `json.dumps` writes it. */
  function Encode(j: Json): string
    decreases j
  {
    match j
    case Scalar(v) => EncodeValue(v)
    case Object(ms) => if |ms| == 0 then "{}" else "{" + MembersText(ms)
  }

  /** One `"key": value` member. */
  function MemberText(m: (string, Json)): string
    decreases m
  {
    Quote(m.0) + (": " + Encode(m.1))
  }

  /** The members of a non-empty object, in order, and the closing brace. */
  function MembersText(ms: seq<(string, Json)>): string
    requires |ms| > 0
    decreases ms
  {
    MemberText(ms[0]) + (if |ms| == 1 then "}" else ", " + MembersText(ms[1..]))
  }

  /** Reads one document and returns it with the rest of the text. */
  function ParseJson(s: string): (r: Option<(Json, string)>)
    ensures r.Some? ==> |r.value.1| < |s|
    decreases |s|, 2
  {
    if StartsWith(s, "{}") then Some((Object([]), s[2..]))
    else if StartsWith(s, "{") then
      var ms :- ParseMembers(s[1..]);
      Some((Object(ms.0), ms.1))
    else
      var v :- ParseValue(s);
      Some((Scalar(v.0), v.1))
  }

  function ParseMember(s: string): (r: Option<((string, Json), string)>)
    ensures r.Some? ==> |r.value.1| < |s|
    decreases |s|, 0
  {
    var key :- ParseString(s);
    var afterColon :- Expect(key.1, ": ");
    var val :- ParseJson(afterColon);
    Some(((key.0, val.0), val.1))
  }

  /** Reads members up to and including the closing brace. */
  function ParseMembers(s: string): (r: Option<(seq<(string, Json)>, string)>)
    ensures r.Some? ==> |r.value.1| < |s|
    decreases |s|, 1
  {
    var m :- ParseMember(s);
    if StartsWith(m.1, "}") then Some(([m.0], m.1[1..]))
    else if StartsWith(m.1, ", ") then
      var more :- ParseMembers(m.1[2..]);
      Some(([m.0] + more.0, more.1))
    else None
  }

  /** `ParseMembers` after a first member `m` that leaves `after`. */
  lemma ParseMembersAfter(s: string, m: (string, Json), after: string)
    requires ParseMember(s) == Some((m, after))
    ensures StartsWith(after, "}") ==> ParseMembers(s) == Some(([m], after[1..]))
    ensures !StartsWith(after, "}") && StartsWith(after, ", ") && ParseMembers(after[2..]).Some? ==>
              ParseMembers(s) == Some(([m] + ParseMembers(after[2..]).value.0, ParseMembers(after[2..]).value.1))
    ensures ParseMembers(s).Some? ==>
              StartsWith(after, "}") || (StartsWith(after, ", ") && ParseMembers(after[2..]).Some?)
  {
  }

  /** The text of a member list: its first member, then either the closing
      brace or a comma and the remaining members. */
  lemma MembersTextSplit(ms: seq<(string, Json)>, rest: string)
    requires |ms| > 0
    ensures |ms| == 1 ==> MembersText(ms) + rest == MemberText(ms[0]) + ("}" + rest)
    ensures |ms| > 1 ==> MembersText(ms) + rest == MemberText(ms[0]) + (", " + (MembersText(ms[1..]) + rest))
  {
    if |ms| == 1 {
      Assoc(MemberText(ms[0]), "}", rest);
    } else {
      Assoc(MemberText(ms[0]), ", " + MembersText(ms[1..]), rest);
      Assoc(", ", MembersText(ms[1..]), rest);
    }
  }

  /** Reading a written document returns it and the rest, provided the rest
      cannot be taken for more digits of a number. */
  lemma {:induction false} ParseEncoded(j: Json, rest: string)
    requires Delimited(rest)
    ensures ParseJson(Encode(j) + rest) == Some((j, rest))
    decreases j
  {
    var s := Encode(j) + rest;
    match j
    case Scalar(v) =>
      ParseScalarText(v, rest);
    case Object(ms) =>
      if |ms| == 0 {
        ParseEmptyObject(rest);
      } else {
        var t := MembersText(ms) + rest;
        MembersTextQuoted(ms);
        ParseMembersText(ms, rest);
        ParseAfterBrace(t);
        Assoc("{", MembersText(ms), rest);
      }
  }

  /** A written scalar read as a document. */
  lemma ParseScalarText(v: Value, rest: string)
    requires Delimited(rest)
    ensures ParseJson(EncodeValue(v) + rest) == Some((Scalar(v), rest))
  {
    var s := EncodeValue(v) + rest;
    ParseEncodedValue(v, rest);
    ValueNotBrace(v);
    assert s[0] == EncodeValue(v)[0];
    assert s[..1][0] != '{';
  }

  /** No scalar is written starting with a brace. */
  lemma ValueNotBrace(v: Value)
    ensures |EncodeValue(v)| > 0 && EncodeValue(v)[0] != '{'
  {
    if v.Num? {
      assert EncodeValue(v)[0] == IntText(v.n)[0];
    }
  }

  lemma {:induction false} ParseMemberText(m: (string, Json), rest: string)
    requires Delimited(rest)
    ensures ParseMember(MemberText(m) + rest) == Some((m, rest))
    decreases m
  {
    var afterColon := Encode(m.1) + rest;
    assert MemberText(m) + rest == Quote(m.0) + (": " + afterColon);
    ParseQuote(m.0, ": " + afterColon);
    ExpectPrefix(": ", afterColon);
    ParseEncoded(m.1, rest);
  }

  lemma {:induction false} ParseMembersText(ms: seq<(string, Json)>, rest: string)
    requires |ms| > 0
    ensures ParseMembers(MembersText(ms) + rest) == Some((ms, rest))
    decreases ms
  {
    MembersTextSplit(ms, rest);
    var s := MembersText(ms) + rest;
    if |ms| == 1 {
      ParseMemberText(ms[0], "}" + rest);
      ParseLastMember(s, ms[0], rest);
      assert ms == [ms[0]];
    } else {
      var inner := MembersText(ms[1..]) + rest;
      ParseMembersText(ms[1..], rest);
      ParseMemberText(ms[0], ", " + inner);
      ParseMemberThenMore(s, ms[0], inner);
      assert ms == [ms[0]] + ms[1..];
    }
  }

  /** A member followed by the closing brace ends the list. */
  lemma ParseLastMember(s: string, m: (string, Json), rest: string)
    requires ParseMember(s) == Some((m, "}" + rest))
    ensures ParseMembers(s) == Some(([m], rest))
  {
    ParseMembersAfter(s, m, "}" + rest);
    PrefixOf("}", rest);
  }

  /** A member followed by a comma is followed by further members. */
  lemma ParseMemberThenMore(s: string, m: (string, Json), inner: string)
    requires ParseMember(s) == Some((m, ", " + inner))
    requires ParseMembers(inner).Some?
    ensures ParseMembers(s) == Some(([m] + ParseMembers(inner).value.0, ParseMembers(inner).value.1))
  {
    var after := ", " + inner;
    PrefixOf(", ", inner);
    assert after[0] == ',';
    ParseMembersAfter(s, m, after);
  }

  /** Member text starts with the quote of its first key. */
  lemma MembersTextQuoted(ms: seq<(string, Json)>)
    requires |ms| > 0
    ensures |MembersText(ms)| > 0 && MembersText(ms)[0] == '"'
  {
    assert MembersText(ms)[0] == MemberText(ms[0])[0] == Quote(ms[0].0)[0];
  }

  /** An opening brace before a member list reads as an object. */
  lemma ParseAfterBrace(t: string)
    requires |t| > 0 && t[0] == '"' && ParseMembers(t).Some?
    ensures ParseJson("{" + t) == Some((Object(ParseMembers(t).value.0), ParseMembers(t).value.1))
  {
    var s := "{" + t;
    PrefixOf("{", t);
    assert s[1] == t[0];
    assert s[..2][1] == '"';
  }

  lemma ParseEmptyObject(rest: string)
    ensures ParseJson("{}" + rest) == Some((Object([]), rest))
  {
    PrefixOf("{}", rest);
  }

  /** Whatever `ParseJson` accepts is a written document: the parser takes
      nothing but what the encoder writes. */
  lemma {:induction false} ParseCanonical(s: string)
    requires ParseJson(s).Some?
    ensures s == Encode(ParseJson(s).value.0) + ParseJson(s).value.1
    decreases |s|, 2
  {
    if StartsWith(s, "{}") {
      assert s == "{}" + s[2..];
    } else if StartsWith(s, "{") {
      var r := ParseMembers(s[1..]).value;
      ParseMembersCanonical(s[1..]);
      assert s == "{" + s[1..];
    } else {
      ParseValueCanonical(s);
    }
  }

  lemma {:induction false} ParseMemberCanonical(s: string)
    requires ParseMember(s).Some?
    ensures s == MemberText(ParseMember(s).value.0) + ParseMember(s).value.1
    decreases |s|, 0
  {
    var key := ParseString(s).value;
    var afterColon := Expect(key.1, ": ").value;
    ParseStringCanonical(s);
    ParseCanonical(afterColon);
  }

  lemma {:induction false} ParseMembersCanonical(s: string)
    requires ParseMembers(s).Some?
    ensures |ParseMembers(s).value.0| > 0
    ensures s == MembersText(ParseMembers(s).value.0) + ParseMembers(s).value.1
    decreases |s|, 1
  {
    var m := ParseMember(s).value;
    ParseMemberCanonical(s);
    ParseMembersAfter(s, m.0, m.1);
    if StartsWith(m.1, "}") {
      assert m.1 == "}" + m.1[1..];
      JoinLast(m.0, m.1[1..]);
    } else {
      var more := ParseMembers(m.1[2..]).value;
      ParseMembersCanonical(m.1[2..]);
      assert m.1 == ", " + m.1[2..];
      JoinMore(m.0, more.0, more.1);
    }
  }

  lemma JoinLast(m: (string, Json), rest: string)
    ensures MemberText(m) + ("}" + rest) == MembersText([m]) + rest
  {
    MembersTextSplit([m], rest);
  }

  lemma JoinMore(m: (string, Json), ms: seq<(string, Json)>, rest: string)
    requires |ms| > 0
    ensures MemberText(m) + (", " + (MembersText(ms) + rest)) == MembersText([m] + ms) + rest
  {
    MembersTextSplit([m] + ms, rest);
    assert ([m] + ms)[1..] == ms;
  }

  /** Python's text-mode line iteration ends a line at either character. */
  predicate IsLineBreak(c: char) {
    c == '\n' || c == '\r'
  }

  predicate SingleLine(s: string) {
    forall i :: 0 <= i < |s| ==> !IsLineBreak(s[i])
  }

  lemma SingleLineConcat(a: string, b: string)
    requires SingleLine(a) && SingleLine(b)
    ensures SingleLine(a + b)
  {
  }

  lemma {:induction false} EscapeSingleLine(s: string)
    ensures SingleLine(Escape(s))
  {
    if |s| > 0 {
      EscapeSingleLine(s[1..]);
    }
  }

  lemma QuoteSingleLine(s: string)
    ensures SingleLine(Quote(s))
  {
    EscapeSingleLine(s);
    SingleLineConcat("\"", Escape(s));
    SingleLineConcat("\"" + Escape(s), "\"");
  }

  /** No written document spans more than one line: line breaks inside
      strings are escaped. */
  lemma {:induction false} EncodeSingleLine(j: Json)
    ensures SingleLine(Encode(j))
    decreases j
  {
    match j
    case Scalar(v) =>
      if v.Str? {
        QuoteSingleLine(v.text);
      }
    case Object(ms) =>
      if |ms| > 0 {
        MembersSingleLine(ms);
        SingleLineConcat("{", MembersText(ms));
      }
  }

  lemma {:induction false} MembersSingleLine(ms: seq<(string, Json)>)
    requires |ms| > 0
    ensures SingleLine(MembersText(ms))
    decreases ms
  {
    MemberSingleLine(ms[0]);
    if |ms| > 1 {
      MembersSingleLine(ms[1..]);
      SingleLineConcat(", ", MembersText(ms[1..]));
    }
    SingleLineConcat(MemberText(ms[0]), if |ms| == 1 then "}" else ", " + MembersText(ms[1..]));
  }

  lemma {:induction false} MemberSingleLine(m: (string, Json))
    ensures SingleLine(MemberText(m))
    decreases m
  {
    QuoteSingleLine(m.0);
    EncodeSingleLine(m.1);
    SingleLineConcat(": ", Encode(m.1));
    SingleLineConcat(Quote(m.0), ": " + Encode(m.1));
  }

  /** The text of a member's value appears in the text of its object. */
  lemma {:induction false} MembersContain(ms: seq<(string, Json)>, i: nat, sub: string)
    requires i < |ms| && Contains(Encode(ms[i].1), sub)
    ensures Contains(MembersText(ms), sub)
    decreases i
  {
    var tail := if |ms| == 1 then "}" else ", " + MembersText(ms[1..]);
    if i == 0 {
      ContainsRight(": ", Encode(ms[0].1), sub);
      ContainsRight(Quote(ms[0].0), ": " + Encode(ms[0].1), sub);
      ContainsLeft(MemberText(ms[0]), tail, sub);
    } else {
      assert ms[1..][i - 1] == ms[i];
      MembersContain(ms[1..], i - 1, sub);
      ContainsRight(", ", MembersText(ms[1..]), sub);
      ContainsRight(MemberText(ms[0]), tail, sub);
    }
  }

  lemma ObjectContains(ms: seq<(string, Json)>, i: nat, sub: string)
    requires i < |ms| && Contains(Encode(ms[i].1), sub)
    ensures Contains(Encode(Object(ms)), sub)
  {
    MembersContain(ms, i, sub);
    ContainsRight("{", MembersText(ms), sub);
  }

  /** A non-empty object's text starts with its first key and a colon; a
      plain key is written verbatim between its quotes. */
  lemma FirstKeyAt(ms: seq<(string, Json)>)
    requires |ms| > 0 && Plain(ms[0].0)
    ensures OccursAt(Encode(Object(ms)), "\"" + ms[0].0 + "\":", 1)
  {
    var s := Encode(Object(ms));
    var k := Quote(ms[0].0);
    var mt := MemberText(ms[0]);
    var tail := if |ms| == 1 then "}" else ", " + MembersText(ms[1..]);
    assert s == "{" + MembersText(ms);
    assert MembersText(ms) == mt + tail;
    assert mt == k + (": " + Encode(ms[0].1));
    assert mt[..|k|] == k;
    assert mt[|k|] == ':';
    assert s[1..1 + |k| + 1] == mt[..|k| + 1];
    assert mt[..|k| + 1] == k + ":";
    EscapePlain(ms[0].0);
  }
}
