/** `log_attempt`: resolve the origin, build the record, append its line to
    the log, then count the log lines that mention the origin and decide
    whether to alert. The user-agent parser is an opaque, deterministic
    function passed in; the mail transport is reduced to the decision to
    hand it a message. */
module Ingest {
  import opened Seqs
  import opened Text
  import opened Json
  import opened Records
  import opened Geolocation
  import opened EventLog

  /** An alert is raised once this many log lines mention the origin. */
  const AlertThreshold := 3

  /** One call of `log_attempt`: the clock reading of its log lines, the
      capture time in seconds, the form fields (Null when absent), the request
      headers as (name, value) pairs, and the outcome of the location lookup. */
  datatype Submission = Submission(
    at: Clock,
    timestamp: nat,
    ip: string,
    username: Value,
    password: Value,
    headers: seq<(string, string)>,
    lookup: Lookup)

  /** The `MAIL_USERNAME` and `MAIL_PASSWORD` settings (None when unset). */
  datatype MailSettings = MailSettings(username: Option<string>, password: Option<string>)

  /** Both settings present and non-empty (Python truthiness). */
  predicate MailConfigured(m: MailSettings) {
    m.username.Some? && m.username.value != "" && m.password.Some? && m.password.value != ""
  }

  /** `headers.get('User-Agent', 'Unknown')`: the first value under that name. */
  function UserAgentHeader(headers: seq<(string, string)>): (ua: string)
    ensures (forall i :: 0 <= i < |headers| ==> headers[i].0 != "User-Agent") ==> ua == "Unknown"
    ensures forall i :: 0 <= i < |headers| && headers[i].0 == "User-Agent"
                        && (forall j :: 0 <= j < i ==> headers[j].0 != "User-Agent")
                        ==> ua == headers[i].1
  {
    if |headers| == 0 then "Unknown"
    else if headers[0].0 == "User-Agent" then headers[0].1
    else
      var ua := UserAgentHeader(headers[1..]);
      assert forall i :: 1 <= i < |headers| ==> headers[i] == headers[1..][i - 1];
      ua
  }

  /** What one call of `log_attempt` leaves behind. `alert` says that
      `send_alert_email` is called; `mailSent` that it gets past its guard
      and hands a message to the mail transport. */
  datatype Outcome = Outcome(log: Log, record: Record, mentions: nat, alert: bool, mailSent: bool)

  /** The lines `log_attempt` writes: the lookup error, when there was one,
      then the record. */
  function Write(log: Log, sub: Submission, classify: string -> string): (w: (Log, Record))
    ensures |w.0| == |log| + 1 + (if Resolve(sub.ip, sub.lookup).logged.Some? then 1 else 0)
    ensures w.0[..|log|] == log
    ensures w.0[|w.0| - 1] == FormatLine(sub.at, Serialize(w.1))
    ensures Resolve(sub.ip, sub.lookup).logged.Some? ==>
              w.0[|log|] == FormatLine(sub.at, Resolve(sub.ip, sub.lookup).logged.value)
    ensures w.1.timestamp == sub.timestamp && w.1.ipAddress == sub.ip
    ensures w.1.username == sub.username && w.1.password == sub.password
    ensures w.1.country == Resolve(sub.ip, sub.lookup).geo.country
    ensures w.1.city == Resolve(sub.ip, sub.lookup).geo.city
    ensures w.1.headers == sub.headers
    ensures w.1.userAgent == classify(UserAgentHeader(sub.headers))
  {
    var res := Resolve(sub.ip, sub.lookup);
    var afterLookup := match res.logged
      case None => log
      case Some(m) => log + [FormatLine(sub.at, m)];
    var record := Record(sub.timestamp, sub.ip, sub.username, sub.password,
                         res.geo.country, res.geo.city, classify(UserAgentHeader(sub.headers)),
                         sub.headers);
    var written := afterLookup + [FormatLine(sub.at, Serialize(record))];
    assert written[..|log|] == log;
    (written, record)
  }

  function LogAttempt(log: Log, sub: Submission, classify: string -> string, mail: MailSettings)
    : (o: Outcome)
    ensures (o.log, o.record) == Write(log, sub, classify)
    ensures o.mentions == Mentions(o.log, sub.ip)
    ensures Plain(sub.ip) ==> o.mentions >= 1
    ensures o.alert <==> o.mentions >= AlertThreshold
    ensures o.mailSent <==> o.alert && MailConfigured(mail)
  {
    var w := Write(log, sub, classify);
    var n := Mentions(w.0, sub.ip);
    if Plain(sub.ip) then
      RecordLineMentionsIp(sub.at, w.1);
      assert Contains(w.0[|w.0| - 1], sub.ip);
      Outcome(w.0, w.1, n, n >= AlertThreshold, n >= AlertThreshold && MailConfigured(mail))
    else
      Outcome(w.0, w.1, n, n >= AlertThreshold, n >= AlertThreshold && MailConfigured(mail))
  }

  /** The logged line of a record carrying a plain address mentions it. */
  lemma RecordLineMentionsIp(at: Clock, r: Record)
    requires Plain(r.ipAddress)
    ensures Contains(FormatLine(at, Serialize(r)), r.ipAddress)
  {
    SerializeMentionsIp(r);
    ContainsWithin(AscTime(at) + Separator, Serialize(r), "", r.ipAddress);
    assert AscTime(at) + Separator + Serialize(r) + "" == FormatLine(at, Serialize(r));
  }

  /** The error line of a raised lookup mentions the address too. */
  lemma ErrorLineMentionsIp(at: Clock, ip: string, lookup: Lookup)
    requires Resolve(ip, lookup).logged.Some?
    ensures Contains(FormatLine(at, Resolve(ip, lookup).logged.value), ip)
  {
    var m := Resolve(ip, lookup).logged.value;
    ErrorMentionsIp(ip, lookup);
    ContainsWithin(AscTime(at) + Separator, m, "", ip);
    assert AscTime(at) + Separator + m + "" == FormatLine(at, m);
  }

  /** The count the alert decision uses grows by one per attempt from a plain
      address, and by two when the lookup raised, since the error line
      written before the record also mentions the address. */
  lemma MentionsPerAttempt(log: Log, sub: Submission, classify: string -> string, mail: MailSettings)
    requires Plain(sub.ip)
    ensures LogAttempt(log, sub, classify, mail).mentions
            == Mentions(log, sub.ip) + (if Resolve(sub.ip, sub.lookup).logged.Some? then 2 else 1)
  {
    var o := LogAttempt(log, sub, classify, mail);
    var res := Resolve(sub.ip, sub.lookup);
    var line := o.log[|o.log| - 1];
    RecordLineMentionsIp(sub.at, o.record);
    if res.logged.Some? {
      var err := FormatLine(sub.at, res.logged.value);
      ErrorLineMentionsIp(sub.at, sub.ip, sub.lookup);
      assert o.log == log + [err] + [line];
      MentionsAppend(log, err, sub.ip);
      MentionsAppend(log + [err], line, sub.ip);
    } else {
      assert o.log == log + [line];
      MentionsAppend(log, line, sub.ip);
    }
  }

  /** Another origin's attempt counts toward `needle` whenever `needle` is a
      substring of that origin's address (say "1.2.3.4" in "11.2.3.45"). */
  lemma SubstringOriginCounted(log: Log, sub: Submission, classify: string -> string,
                               mail: MailSettings, needle: string)
    requires Plain(sub.ip)
    requires Contains(sub.ip, needle)
    ensures Mentions(LogAttempt(log, sub, classify, mail).log, needle) >= Mentions(log, needle) + 1
  {
    var o := LogAttempt(log, sub, classify, mail);
    var res := Resolve(sub.ip, sub.lookup);
    var line := o.log[|o.log| - 1];
    RecordLineMentionsIp(sub.at, o.record);
    ContainsTransitive(line, sub.ip, needle);
    if res.logged.Some? {
      var err := FormatLine(sub.at, res.logged.value);
      assert o.log == (log + [err]) + [line];
      MentionsAppend(log, err, needle);
      MentionsAppend(log + [err], line, needle);
    } else {
      assert o.log == log + [line];
      MentionsAppend(log, line, needle);
    }
  }

  lemma ContainsExampleOverlap()
    ensures Contains("11.2.3.45", "1.2.3.4")
  {
    assert "11.2.3.45"[1..8] == "1.2.3.4";
    ContainsAt("11.2.3.45", "1.2.3.4", 1);
  }

  /** The log after a run of attempts, each on the log the previous one left. */
  function Attempts(log: Log, subs: seq<Submission>, classify: string -> string, mail: MailSettings)
    : (after: Log)
    ensures |after| >= |log| + |subs|
    decreases |subs|
  {
    if |subs| == 0 then log
    else Attempts(LogAttempt(log, subs[0], classify, mail).log, subs[1..], classify, mail)
  }

  /** Attempts from one plain address whose lookups log nothing each add
      exactly one mention of it. */
  lemma {:induction false} MentionsAcrossAttempts(log: Log, subs: seq<Submission>,
                                                  classify: string -> string,
                                                  mail: MailSettings, ip: string)
    requires Plain(ip)
    requires forall i :: 0 <= i < |subs| ==>
               subs[i].ip == ip && Resolve(ip, subs[i].lookup).logged.None?
    ensures Mentions(Attempts(log, subs, classify, mail), ip) == Mentions(log, ip) + |subs|
    decreases |subs|
  {
    if |subs| > 0 {
      var o := LogAttempt(log, subs[0], classify, mail);
      MentionsPerAttempt(log, subs[0], classify, mail);
      MentionsAcrossAttempts(o.log, subs[1..], classify, mail, ip);
    }
  }

  /** From a log that never mentions the address, the first two attempts do
      not alert and every attempt from the third on does: the attempt that
      follows `|earlier|` others alerts exactly when there were at least two. */
  lemma AlertFromThirdAttempt(log: Log, earlier: seq<Submission>, sub: Submission,
                              classify: string -> string, mail: MailSettings)
    requires Plain(sub.ip) && Mentions(log, sub.ip) == 0
    requires Resolve(sub.ip, sub.lookup).logged.None?
    requires forall i :: 0 <= i < |earlier| ==>
               earlier[i].ip == sub.ip && Resolve(sub.ip, earlier[i].lookup).logged.None?
    ensures LogAttempt(Attempts(log, earlier, classify, mail), sub, classify, mail).alert
            <==> |earlier| >= 2
  {
    MentionsAcrossAttempts(log, earlier, classify, mail, sub.ip);
    MentionsPerAttempt(Attempts(log, earlier, classify, mail), sub, classify, mail);
  }

  /** When every lookup for a non-loopback address raises, each attempt adds
      two mentions, so the second attempt already alerts. */
  lemma {:induction false} FailedLookupsAlertOnSecondAttempt(log: Log, first: Submission,
                                                             second: Submission,
                                                             classify: string -> string,
                                                             mail: MailSettings)
    requires Plain(first.ip) && !IsLoopback(first.ip) && second.ip == first.ip
    requires first.lookup.Raised? && second.lookup.Raised?
    requires Mentions(log, first.ip) == 0
    ensures !LogAttempt(log, first, classify, mail).alert
    ensures LogAttempt(LogAttempt(log, first, classify, mail).log, second, classify, mail).alert
  {
    var o := LogAttempt(log, first, classify, mail);
    MentionsPerAttempt(log, first, classify, mail);
    MentionsPerAttempt(o.log, second, classify, mail);
  }
}
