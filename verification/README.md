# HoneypotEL core in Dafny

HoneypotEL is a fake login page. Every submitted attempt is resolved to a
location (`get_geolocation`). It is then written to `honeypot.log` as one JSON
line behind the `%(asctime)s - %(message)s` prefix (`log_attempt`). Once the
log holds three lines that mention the attempt's address, a mail alert is
sent, as long as mail credentials are configured (`send_alert_email`). A
dashboard (`update_metrics`) re-reads the log on a timer and computes:

- the stat cards: total attempts, unique addresses, most common username,
  and most common location;
- the tables behind its charts: hourly counts, per-location counts, and the
  top ten usernames and user agents.

This project models that core:

- `seqs.dfy` (`Seqs`): Option, counting, deduplication, tallies, and the
  filter-and-map used by the log reader.
- `text.dfy` (`Text`):
  - substring search;
  - Python's `line.split(' - ')[-1]` (`LastSegment`);
  - decimal digits and zero padding.
- `json.dfy` (`Json`): the part of JSON the honeypot writes, as `json.dumps`
  writes it with the default `", "` and `": "` separators. It also holds a
  parser for exactly that text. Encoder and parser are proved inverse in both
  directions.
- `records.dfy` (`Records`): the eight-key attempt record and its JSON text,
  with the round trip lifted from documents to records.
- `geolocation.dfy` (`Geolocation`): `get_geolocation`. The HTTP outcome is an
  input: either the exception it raised, or a status code with a decoded
  payload.
- `eventlog.dfy` (`EventLog`):
  - the log as an append-only sequence of lines;
  - the `asctime` shape;
  - the line format;
  - the count `sum(1 for line in f if ip in line)`.
- `ingest.dfy` (`Ingest`): `log_attempt`. It covers the record built from the
  form, the headers and the location; the lines written; the mention count;
  the alert threshold of 3; and the mail guard.
- `reader.dfy` (`LogReader`): the dashboard's pass over the log file. A line
  is kept only if it contains `"timestamp":`. Its last `" - "` piece is then
  parsed; a line that fails is skipped, and a missing file gives no records.
- `analytics.dfy` (`Analytics`):
  - the frame computations: `mode()[0]`, `unique()`, the hourly `Grouper`,
    `groupby(['country', 'city']).size()`, and `groupby(...).size().nlargest(10)`;
  - the empty state;
  - a refresh that raises, which is a mode taken over a column with no value;
  - the four cards.

Behaviours of the code that the model makes explicit:

- The alert counts lines containing the address as a substring. Another
  origin whose address contains it (`1.2.3.4` inside `11.2.3.45`) also counts
  toward it: `Ingest.SubstringOriginCounted`.
- When a lookup raises, its error line also names the address. Each such
  attempt therefore adds two mentions, and the second attempt already alerts:
  `Ingest.FailedLookupsAlertOnSecondAttempt`.
- The reader keeps only the text after a line's last `" - "`. A record whose
  text holds `" - "`, for example in a password or a header value such as
  `a - b`, never comes back as itself: `LogReader.RecordLineRoundTrip`,
  `LogReader.PasswordWithSeparatorVanishes` and
  `LogReader.HeaderWithSeparatorVanishes`.
- `mode()[0]` returns the modes in sorted order, so a tie goes to the least
  value and not to the first one seen: `Analytics.ModeTieGoesToLeast`. In a
  column mixing numbers and strings, numbers sort before strings, which is the
  order pandas uses for mixed values (`Analytics.ValueLess`).
- The location card pairs the city mode with the country mode, each taken on
  its own column. It can name a (city, country) pair that no attempt came
  from: `Analytics.LocationMayPairUnseen`.

## Model

| member | source | states |
|---|---|---|
| Geolocation.Resolve | app.py:74-90 | Loopback names give the Local location with no lookup. A raised lookup gives Unknown plus the error message naming the address. A non-200 status gives Unknown with nothing logged. A 200 takes each of country_name, city, latitude and longitude from the payload, falling back to "Unknown", "Unknown", 0 and 0 one by one. |
| Geolocation.LoopbackIgnoresLookup | app.py:76-77 | For 127.0.0.1 and localhost the result is the same whatever the lookup would have answered. |
| Geolocation.ErrorMentionsIp | app.py:88-89 | The logged lookup error always contains the address. |
| Text.Contains | app.py:139 | `needle in line` holds exactly when the needle occurs at some position of the line. |
| Text.LastSegment | dashboard.py:90 | The piece is a suffix of the line that holds no " - ". It is the whole line when the line holds none, and otherwise starts right after an occurrence of " - ". |
| Text.PadValue | app.py:25 | A field padded to w digits shows the last w decimal digits of its value: the digits denote the value modulo 10^w. |
| EventLog.FormatLine | app.py:25 | A line is the time prefix in the YYYY-MM-DD HH:MM:SS,mmm shape, then " - ", then the message unchanged. |
| EventLog.AscTime | app.py:25 | The time prefix always has the shape YYYY-MM-DD HH:MM:SS,mmm: digits where the pattern has them, and the literal separators elsewhere. |
| EventLog.LineSplitsAfterTime | dashboard.py:90 | Splitting a written line at its last " - " yields the last " - " piece of the message alone: the time prefix never contributes a separator. |
| EventLog.Mentions | app.py:138-139 | The count is at most the number of lines. It is zero exactly when no line contains the needle. |
| EventLog.MentionsAppend | app.py:139 | Appending a line raises the count by one exactly when that line contains the needle, and never lowers it. |
| Ingest.UserAgentHeader | app.py:119 | The value of the first User-Agent header, and "Unknown" when there is none. |
| Ingest.Write | app.py:114-135 | The old log is kept as a prefix. Then come the lookup error line, only when the lookup raised, and last the record's line. The record carries the submitted fields, the resolved country and city, the classified user agent and the headers. |
| Ingest.LogAttempt | app.py:114-141 | The count is taken over the log that includes the new lines, and is at least 1 for a plain address. The alert fires exactly when the count reaches 3. Mail goes out exactly when the alert fires and both mail settings are non-empty. |
| Ingest.RecordLineMentionsIp | app.py:135-139 | The record line written for a plain address contains that address. |
| Ingest.ErrorLineMentionsIp | app.py:89 | The lookup error line contains the address too. |
| Ingest.MentionsPerAttempt | app.py:138-140 | One attempt from a plain address adds exactly one mention, or two when its lookup raised. |
| Ingest.SubstringOriginCounted | app.py:139 | An attempt from any address that contains the needle as a substring raises the needle's count. |
| Ingest.ContainsExampleOverlap | app.py:139 | "1.2.3.4" occurs inside "11.2.3.45". |
| Ingest.MentionsAcrossAttempts | app.py:138-140 | A run of attempts from one plain address whose lookups log nothing adds exactly one mention per attempt. |
| Ingest.AlertFromThirdAttempt | app.py:140-141 | Starting from a log that never mentions the address, and with every lookup logging nothing, an attempt alerts exactly when at least two attempts from that address came before it. When lookups raise, one earlier attempt is enough: see `Ingest.FailedLookupsAlertOnSecondAttempt`. |
| Ingest.FailedLookupsAlertOnSecondAttempt | app.py:138-141 | When every lookup for a non-loopback address raises, the first attempt does not alert and the second does. |
| Json.ParseEncodedValue | app.py:135 | Reading back a written scalar (string, integer or null) returns it and leaves the following text unread. |
| Json.ParseValueCanonical | dashboard.py:90 | Any text read as a scalar starts with exactly that scalar's written form. |
| Json.ParseEncoded | app.py:135 | Reading back any written document, objects nested to any depth included, returns that document and leaves the rest unread. |
| Json.ParseCanonical | dashboard.py:90 | Whatever is read as a document is exactly that document's written text followed by the unread rest; no other spelling is accepted. |
| Json.EscapeKeepsPlain | app.py:135 | Text with nothing to escape that occurs in a string still occurs, verbatim, in the string's escaped form. |
| Json.EncodeSingleLine | app.py:135 | No written document contains a line break, because breaks inside strings are escaped. |
| Json.ObjectContains | app.py:135 | The text of any member's value appears inside the text of its object. |
| Json.FirstKeyAt | app.py:123-124 | An object whose first key is plain has `"key":` right after its opening brace. |
| Records.HeadersRoundTrip | app.py:131 | Headers written as an object of strings read back as the same list of pairs. |
| Records.FromToJson | app.py:123-132 | The document built from a record describes that record, field by field. |
| Records.ToFromJson | dashboard.py:90 | A document that describes a record is exactly the document that record is written as. |
| Records.Serialize | app.py:135 | A record's JSON text is one line, and it parses back to that record. |
| Records.Parse | dashboard.py:90 | Text parses as a record only when it is exactly the JSON text of that record. |
| Records.RoundTrip | app.py:135 | Every record reads back from its own JSON text. |
| Records.Canonical | dashboard.py:90 | Any text that reads as a record is that record's own JSON text. |
| Records.SerializeSingleLine | app.py:135 | A record's JSON text is a single log line. |
| Records.SerializeHasTimestampKey | dashboard.py:89 | Every record's text contains the marker `"timestamp":` that the dashboard filters on. |
| Records.SerializeMentionsIp | app.py:125 | A plain address appears verbatim in its record's text. |
| Records.SerializeContainsPassword | app.py:127 | Any text free of escaped characters inside a password appears in the record's text, whatever else the password holds. |
| Records.SerializeContainsHeaderValue | app.py:131 | Any text free of escaped characters inside a header value appears in the record's text. |
| Records.ParseTimestampText | app.py:124 | A timestamp's text reads back as that timestamp. |
| LogReader.ReadLine | dashboard.py:88-93 | A line without `"timestamp":` gives nothing. A line with it gives whatever its last " - " piece parses as, and nothing when that piece does not parse. A record read from a line is exactly the text of that piece. |
| LogReader.ReadLines | dashboard.py:87-93 | At most one record per line, and a record is among those read exactly when some line reads as it. |
| LogReader.ReadLog | dashboard.py:85-95 | A missing file gives no records. An existing file gives the records its lines read as, at most one per line. |
| LogReader.SkipsUnreadable | dashboard.py:92-93 | An unreadable line drops out alone: the records before and after it come back, in order. |
| LogReader.RecordLineRoundTrip | dashboard.py:90 | A logged record reads back as itself exactly when its JSON text holds no " - ". |
| LogReader.PasswordWithSeparatorVanishes | dashboard.py:90 | Any password containing " - " keeps its attempt from ever reading back as itself. |
| LogReader.HeaderWithSeparatorVanishes | dashboard.py:90 | Any header value containing " - " keeps its attempt from ever reading back as itself. |
| LogReader.AppendedRecordReadBack | dashboard.py:87-91 | Reading a log that ends in a record line gives the earlier lines' records, then that record exactly when its text holds no " - ". |
| LogReader.AttemptReadBack | dashboard.py:87-91 | After an attempt, the reader sees what it saw before, then whatever the lookup error line yields, then the new record exactly when its text holds no " - ". |
| Seqs.FilterMapFrom | dashboard.py:87-93 | A value is among the records read exactly when some line yields it. |
| Seqs.FilterMapConcat | dashboard.py:87-93 | Reading two runs of lines gives the first run's records followed by the second run's. |
| Analytics.Mode | dashboard.py:107 | There is no mode exactly when every value of the column is null. Otherwise the mode is a non-null value of the column that outranks every other non-null value: strictly more frequent, or as frequent and smaller. |
| Analytics.ModeUnique | dashboard.py:107 | A column has at most one value with that property. |
| Analytics.ModeCharacterized | dashboard.py:107 | The mode is a value exactly when that value has the property above. |
| Analytics.ModeTieGoesToLeast | dashboard.py:107 | Between "root" and "admin", equally frequent, the mode is "admin". |
| Analytics.LocationMayPairUnseen | dashboard.py:108 | For four attempts from (A, Y), (A, X), (B, Z) and (C, Z), the city mode is A and the country mode is Z, yet no attempt came from both. |
| Analytics.Top | dashboard.py:146 | At most n rows, each a distinct key with its frequency. Rows are in rank order: count descending, then key ascending. Every key left out ranks below every row kept. |
| Analytics.Largest | dashboard.py:136 | Exactly min(n, number of distinct values) rows, so at least one when there are values. Each row is a value of the column with its frequency. Rows are in rank order (count descending, then value ascending), so counts never rise down the table. Every value left out ranks below every row kept, and so occurs no more often than any of them. |
| Analytics.Hourly | dashboard.py:111-112 | One bucket per hour, from the hour of the earliest attempt to the hour of the latest, with no gaps. Each bucket holds the number of attempts in its hour, so empty hours count 0. |
| Analytics.HourlyCoversAll | dashboard.py:112 | The hourly counts add up to the number of attempts. |
| Analytics.GeoPairs | dashboard.py:122 | Every pair kept has both fields set, and every attempt with both set contributes its (country, city) pair. When no record lacks a field, nothing is dropped. That no other row is dropped, with multiplicity, is `Analytics.GeoPairsCount`. |
| Analytics.GeoPairsCount | dashboard.py:122 | A location with both fields set occurs among the pairs exactly as often as in the frame's (country, city) column. |
| Analytics.GeoCounts | dashboard.py:122 | Each location appears once. Its count is its positive number of attempts, both among the kept pairs and in the frame's (country, city) column. Every attempt with both fields set has its location listed. |
| Analytics.GeoCountsCoverAll | dashboard.py:122 | The location counts add up to the number of attempts with both fields set. |
| Analytics.Aggregate | dashboard.py:97-146 | No records gives the empty state. The refresh raises exactly when the username, city or country column is entirely null. Otherwise it gives: the total; the number of distinct addresses, between 1 and the total; the three modes; hourly and location tables whose counts add up; and the two top-ten tables. |
| Analytics.Summary | dashboard.py:105-146 | For a non-empty frame with its modes given, the metrics as above, with the distinct-address count equal to the size of the set of addresses. |
| Analytics.ModesPresent | dashboard.py:107-108 | The three modes all exist exactly when none of the username, city and country columns is entirely null. |
| Analytics.Cards | dashboard.py:99-108 | The empty state shows "0", "0", "None", "None". A refresh that raised updates nothing. Otherwise the total and unique cards are the canonical decimal text of their counts, and the location card is "city, country". |
| Analytics.Refresh | dashboard.py:84-108 | A refresh raises exactly when some record was read and the username, city or country column is entirely null. A file with no readable record shows the zero cards. Otherwise the first two cards are the decimal text of the number of records and of the number of distinct addresses. |
| Analytics.EmptyLogCards | dashboard.py:94-102 | A missing log, or one without any readable record, shows the zero cards. |

## Left out

- The Flask routes and templates, argparse and the Dash layout: none of them writes to the log or takes part in counting.
- The rate limiter (app.py:46-55, 148): it only decides whether a request is served. Any line the limiter library itself writes to the log is not modelled.
- Concurrency: each server runs with `threaded=True` (app.py:175), and further ports are served from their own threads (app.py:183-186). Two `log_attempt` calls can therefore interleave between one's append (app.py:135) and its count (app.py:138-139). The model applies attempts one at a time, so its counts are those of a serial run.
- Other log lines: the model's log holds only the lines `log_attempt` writes. The `get_local_ips` error line (app.py:71), the mail error line (app.py:112), the start-up error line (app.py:177) and the server's own request lines go to the same file. Request lines carry the client's address, so in the running program they add mentions that the model's count does not see.
- The mail transport (app.py:96-112): the model only decides whether a message is handed over. The message body, `datetime.now()` inside it, `mail.send` and its error line are left out.
- `user_agents.parse`: an opaque deterministic parameter `classify`, because it is foreign code.
- The charts built from the tables (plotly figures): the model stops at the tables.
- Records.ToJson: the timestamp is a whole number of seconds written as a JSON string of its digits, not the text of `datetime.now().isoformat()`. The hour of an attempt is therefore `t / 3600` rather than what `pd.to_datetime` parses.
- EventLog.AscTime: the clock reading is an input. Its fields are padded but not range-checked; a real clock keeps them in range.
- Json.ParseJson: the reader accepts exactly what `json.dumps` writes, and `json.loads` is more lenient (whitespace, other escapes, floats, nested arrays). A line the model rejects that `json.loads` would accept is one that the writer never produces.
- Json.Escape: only `"`, `\`, newline, carriage return and tab are escaped. `json.dumps` also writes `\b` for backspace, `\f` for form feed, and `\u` escapes for other control characters and for non-ASCII text (`ensure_ascii`); none of these is modelled. So Plain text means text free of the five escaped characters.
- Latitude and longitude are JSON scalars (`Num`, or whatever the payload held), not floating point. They never reach the log, so no property depends on them.
- Geolocation.Resolve: a `response.json()` that raises is folded into `Raised`, like a failed request.
- LogReader.ReadLine: only eight-key record objects in the order `log_attempt` writes them are read as records. Other JSON lines that contain `"timestamp":` would become rows of the frame in pandas but are skipped here; the honeypot itself writes none.
- Line terminators: a line is a string without its terminator. A message containing a line break (an exception text) is kept as one entry, although the file would split it; record lines never contain one (`Records.SerializeSingleLine`).
- Headers: the headers are a list of pairs, and duplicate header names (which `dict(headers)` would merge) are assumed absent. The User-Agent lookup is an exact, case-sensitive match on the first pair.
- Analytics.GeoCounts: rows are listed in order of first appearance, not in the sorted key order `groupby` produces. Counts and coverage are unaffected.
- Text.LastSegment: when occurrences of " - " overlap (as in " - - "), the contract says the piece follows some occurrence, not which one the left-to-right scan stops at. The definition follows the scan.
- Analytics.Refresh: the username and location cards are stated through `Analytics.Cards` and `Analytics.Aggregate`, not restated in terms of the file.
- Analytics.Cards: a refresh that raises (a mode over a column without values) is the value None, standing for Dash keeping the previous outputs.
