/** The attempt record `log_attempt` builds and the JSON text it is logged
    as: an object with eight keys in a fixed order (timestamp, ip_address,
    username, password, country, city, user_agent, headers). */
module Records {
  import opened Seqs
  import opened Text
  import opened Json

  /** One captured login attempt. `timestamp` is the capture time in whole
      seconds, written as a JSON string of its decimal digits. `username`,
      `password`, `country` and `city` are nullable (Python None). */
  datatype Record = Record(
    timestamp: nat,
    ipAddress: string,
    username: Value,
    password: Value,
    country: Value,
    city: Value,
    userAgent: string,
    headers: seq<(string, string)>)

  /** The keys of the record's dict, in insertion order. */
  const Keys := ["timestamp", "ip_address", "username", "password",
                 "country", "city", "user_agent", "headers"]

  /** The request headers as a JSON object of strings. */
  function HeaderMembers(h: seq<(string, string)>): (ms: seq<(string, Json)>)
    ensures |ms| == |h|
    ensures forall i :: 0 <= i < |h| ==> ms[i] == (h[i].0, Scalar(Str(h[i].1)))
  {
    if |h| == 0 then []
    else [(h[0].0, Scalar(Str(h[0].1)))] + HeaderMembers(h[1..])
  }

  /** The headers an object of strings lists; None when a value is not a string. */
  function HeadersOf(ms: seq<(string, Json)>): (h: Option<seq<(string, string)>>)
    ensures h.Some? ==> |h.value| == |ms|
  {
    if |ms| == 0 then Some([])
    else if ms[0].1.Scalar? && ms[0].1.v.Str? then
      var rest :- HeadersOf(ms[1..]);
      Some([(ms[0].0, ms[0].1.v.text)] + rest)
    else None
  }

  /** Headers written as an object read back as themselves. */
  lemma {:induction false} HeadersRoundTrip(h: seq<(string, string)>)
    ensures HeadersOf(HeaderMembers(h)) == Some(h)
  {
    if |h| > 0 {
      HeadersRoundTrip(h[1..]);
      assert HeaderMembers(h)[1..] == HeaderMembers(h[1..]);
      assert h == [h[0]] + h[1..];
    }
  }

  /** An object that reads as headers is the object those headers are written as. */
  lemma {:induction false} HeadersCanonical(ms: seq<(string, Json)>)
    requires HeadersOf(ms).Some?
    ensures HeaderMembers(HeadersOf(ms).value) == ms
  {
    if |ms| > 0 {
      HeadersCanonical(ms[1..]);
      var h := HeadersOf(ms).value;
      assert h[1..] == HeadersOf(ms[1..]).value;
      assert HeaderMembers(h)[1..] == HeaderMembers(h[1..]);
    }
  }

  /** The dict `log_attempt` builds, with its insertion order. */
  function ToJson(r: Record): Json {
    Object([
      ("timestamp", Scalar(Str(NatText(r.timestamp)))),
      ("ip_address", Scalar(Str(r.ipAddress))),
      ("username", Scalar(r.username)),
      ("password", Scalar(r.password)),
      ("country", Scalar(r.country)),
      ("city", Scalar(r.city)),
      ("user_agent", Scalar(Str(r.userAgent))),
      ("headers", Object(HeaderMembers(r.headers)))])
  }

  /** The timestamp text: decimal digits of a whole number of seconds. */
  function ParseTimestamp(t: string): Option<nat> {
    match ParseNat(t)
    case None => None
    case Some(p) => if p.1 == "" then Some(p.0) else None
  }

  lemma ParseTimestampText(n: nat)
    ensures ParseTimestamp(NatText(n)) == Some(n)
  {
    ParseNatText(n, "");
    assert NatText(n) + "" == NatText(n);
  }

  lemma ParseTimestampCanonical(t: string)
    requires ParseTimestamp(t).Some?
    ensures t == NatText(ParseTimestamp(t).value)
  {
    ParseNatCanonical(t);
    assert NatText(ParseNat(t).value.0) + "" == NatText(ParseNat(t).value.0);
  }

  /** Whether the members carry the record's keys, in order. */
  predicate HasKeys(ms: seq<(string, Json)>) {
    |ms| == |Keys| && forall i :: 0 <= i < |ms| ==> ms[i].0 == Keys[i]
  }

  /** The record a document describes; None for any other document. */
  function FromJson(j: Json): Option<Record> {
    if !j.Object? || !HasKeys(j.members) then None
    else
      var ms := j.members;
      match (ms[0].1, ms[1].1, ms[6].1, ms[7].1)
      case (Scalar(Str(stampText)), Scalar(Str(ip)), Scalar(Str(agent)), Object(hs)) =>
        if ms[2].1.Scalar? && ms[3].1.Scalar? && ms[4].1.Scalar? && ms[5].1.Scalar? then
          var stamp :- ParseTimestamp(stampText);
          var headers :- HeadersOf(hs);
          Some(Record(stamp, ip, ms[2].1.v, ms[3].1.v, ms[4].1.v, ms[5].1.v, agent, headers))
        else None
      case _ => None
  }

  lemma FromToJson(r: Record)
    ensures FromJson(ToJson(r)) == Some(r)
  {
    ParseTimestampText(r.timestamp);
    HeadersRoundTrip(r.headers);
  }

  lemma ToFromJson(j: Json)
    requires FromJson(j).Some?
    ensures ToJson(FromJson(j).value) == j
  {
    var ms := j.members;
    var r := FromJson(j).value;
    ParseTimestampCanonical(ms[0].1.v.text);
    HeadersCanonical(ms[7].1.members);
    var t := ToJson(r).members;
    assert |t| == |ms|;
    forall i | 0 <= i < |ms|
      ensures t[i] == ms[i]
    {
      assert t[i].0 == Keys[i];
    }
  }

  /** The record as `json.dumps` writes the dict. */
  function Serialize(r: Record): (s: string)
    ensures Parse(s) == Some(r)
    ensures SingleLine(s)
  {
    var s := Encode(ToJson(r));
    ParseEncoded(ToJson(r), "");
    assert s + "" == s;
    FromToJson(r);
    EncodeSingleLine(ToJson(r));
    s
  }

  /** Reads back a record from its JSON text; any other text gives None. */
  function Parse(s: string): (r: Option<Record>)
    ensures r.Some? ==> s == Encode(ToJson(r.value))
  {
    var p :- ParseJson(s);
    if p.1 == "" then
      var r := FromJson(p.0);
      if r.Some? then
        ParseCanonical(s);
        ToFromJson(p.0);
        assert Encode(p.0) + "" == Encode(p.0);
        r
      else None
    else None
  }

  /** Every record comes back from its own JSON text. */
  lemma RoundTrip(r: Record)
    ensures Parse(Serialize(r)) == Some(r)
  {
    ParseEncoded(ToJson(r), "");
    assert Serialize(r) + "" == Serialize(r);
    FromToJson(r);
  }

  /** Only a record's own JSON text reads back as that record: the parser
      accepts nothing but what the serializer writes. */
  lemma Canonical(s: string)
    requires Parse(s).Some?
    ensures s == Serialize(Parse(s).value)
  {
    var p := ParseJson(s).value;
    ParseCanonical(s);
    ToFromJson(p.0);
    assert Encode(p.0) + "" == Encode(p.0);
  }

  /** A record's JSON text never breaks a line, so it is logged as one line. */
  lemma SerializeSingleLine(r: Record)
    ensures SingleLine(Serialize(r))
  {
    EncodeSingleLine(ToJson(r));
  }

  /** The key the dashboard filters on appears in every record's text. */
  lemma SerializeHasTimestampKey(r: Record)
    ensures Contains(Serialize(r), "\"timestamp\":")
  {
    TimestampPlain();
    FirstKeyAt(ToJson(r).members);
    assert "\"" + "timestamp" + "\":" == "\"timestamp\":";
    ContainsAt(Serialize(r), "\"timestamp\":", 1);
  }

  lemma TimestampPlain()
    ensures Plain("timestamp")
  {
    var k := "timestamp";
    forall i | 0 <= i < |k|
      ensures !IsEscaped(k[i])
    {
    }
  }

  /** Plain text appears verbatim in its string literal. */
  lemma QuoteContains(s: string, sub: string)
    requires Plain(s) && Contains(s, sub)
    ensures Contains(Quote(s), sub)
  {
    EscapePlain(s);
    ContainsRight("\"", s, sub);
    ContainsLeft("\"" + s, "\"", sub);
  }

  /** A plain address appears verbatim in the text of a record carrying it. */
  lemma SerializeMentionsIp(r: Record)
    requires Plain(r.ipAddress)
    ensures Contains(Serialize(r), r.ipAddress)
  {
    ContainsAt(r.ipAddress, r.ipAddress, 0);
    QuoteContains(r.ipAddress, r.ipAddress);
    ObjectContains(ToJson(r).members, 1, r.ipAddress);
  }

  /** Text with nothing to escape that occurs in a string occurs in that
      string's literal. */
  lemma QuoteKeepsPlain(s: string, sub: string)
    requires Plain(sub) && Contains(s, sub)
    ensures Contains(Quote(s), sub)
  {
    EscapeKeepsPlain(s, sub);
    ContainsRight("\"", Escape(s), sub);
    ContainsLeft("\"" + Escape(s), "\"", sub);
  }

  /** Any text free of escaped characters inside a password appears in the
      record's JSON text, whatever else the password holds. */
  lemma SerializeContainsPassword(r: Record, sub: string)
    requires r.password.Str? && Plain(sub) && Contains(r.password.text, sub)
    ensures Contains(Serialize(r), sub)
  {
    QuoteKeepsPlain(r.password.text, sub);
    ObjectContains(ToJson(r).members, 3, sub);
  }

  /** The same holds of the value of any header: it is written inside the
      nested `headers` object. */
  lemma SerializeContainsHeaderValue(r: Record, k: nat, sub: string)
    requires k < |r.headers| && Plain(sub) && Contains(r.headers[k].1, sub)
    ensures Contains(Serialize(r), sub)
  {
    var hs := HeaderMembers(r.headers);
    QuoteKeepsPlain(r.headers[k].1, sub);
    assert hs[k].1 == Scalar(Str(r.headers[k].1));
    ObjectContains(hs, k, sub);
    assert ToJson(r).members[7].1 == Object(hs);
    ObjectContains(ToJson(r).members, 7, sub);
  }
}
