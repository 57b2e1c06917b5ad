/** The dashboard's pass over `honeypot.log`: every line that mentions the
    timestamp key is cut at its last " - " and the piece after it is parsed
    as a record; a line that fails is skipped, and a missing file reads as
    no records at all. */
module LogReader {
  import opened Seqs
  import opened Text
  import opened Json
  import opened Records
  import opened EventLog
  import opened Ingest

  /** The marker of a JSON entry: `"timestamp":`. */
  const TimestampKey := "\"timestamp\":"

  /** One line of the file: the record it carries, or None when it is
      filtered out or does not parse. A record read back is exactly the text
      after the line's last separator. */
  function ReadLine(line: string): (r: Option<Record>)
    ensures r.Some? ==> Contains(line, TimestampKey)
    ensures r.Some? ==> Serialize(r.value) == LastSegment(line, Separator)
    ensures !Contains(line, TimestampKey) ==> r.None?
    ensures Contains(line, TimestampKey) ==> r == Parse(LastSegment(line, Separator))
  {
    if Contains(line, TimestampKey) then
      var seg := LastSegment(line, Separator);
      var p := Parse(seg);
      if p.Some? then Canonical(seg); p else None
    else None
  }

  /** The records of a run of lines, in order, skipping the ones that fail:
      a record is read exactly when some line reads as it. */
  function ReadLines(lines: seq<string>): (rs: seq<Record>)
    ensures |rs| <= |lines|
    ensures forall r :: r in rs <==> exists i :: 0 <= i < |lines| && ReadLine(lines[i]) == Some(r)
  {
    FilterMapFrom(lines, ReadLine);
    FilterMap(lines, ReadLine)
  }

  /** A line that does not read as a record drops out and takes nothing else
      with it: every record before and after it still comes back, in order. */
  lemma SkipsUnreadable(before: seq<string>, bad: string, after: seq<string>)
    requires ReadLine(bad).None?
    ensures ReadLines(before + [bad] + after) == ReadLines(before) + ReadLines(after)
  {
    FilterMapConcat(before + [bad], after, ReadLine);
    FilterMapConcat(before, [bad], ReadLine);
    FilterMapSingle(bad, ReadLine);
  }

  /** The file's records; `FileNotFoundError` gives the empty list. */
  function ReadLog(file: Option<Log>): (rs: seq<Record>)
    ensures file.None? ==> rs == []
    ensures file.Some? ==> |rs| <= |file.value|
    ensures file.Some? ==> rs == ReadLines(file.value)
  {
    match file
    case None => []
    case Some(lines) => ReadLines(lines)
  }

  /** A logged record comes back as itself exactly when its JSON text holds
      no " - ": otherwise the reader parses only the piece after the last
      separator, which is shorter than the record's text. */
  lemma RecordLineRoundTrip(at: Clock, r: Record)
    ensures ReadLine(FormatLine(at, Serialize(r))) == Some(r) <==> !Contains(Serialize(r), Separator)
  {
    var text := Serialize(r);
    var line := FormatLine(at, text);
    SerializeHasTimestampKey(r);
    ContainsWithin(AscTime(at) + Separator, text, "", TimestampKey);
    assert AscTime(at) + Separator + text + "" == line;
    LineSplitsAfterTime(at, text);
    var seg := LastSegment(line, Separator);
    assert seg == LastSegment(text, Separator);
    if !Contains(text, Separator) {
      RoundTrip(r);
    } else if Parse(seg).Some? {
      Canonical(seg);
      assert |seg| < |text|;
    }
  }

  /** The separator has nothing to escape, so JSON writes it verbatim. */
  lemma SeparatorPlain()
    ensures Plain(Separator)
  {
    forall i | 0 <= i < |Separator|
      ensures !IsEscaped(Separator[i])
    {
    }
  }

  /** A password holding " - " (say "a - b") makes its attempt vanish from
      what the dashboard reads. */
  lemma PasswordWithSeparatorVanishes(at: Clock, r: Record)
    requires r.password.Str? && Contains(r.password.text, Separator)
    ensures ReadLine(FormatLine(at, Serialize(r))) != Some(r)
  {
    SeparatorPlain();
    SerializeContainsPassword(r, Separator);
    RecordLineRoundTrip(at, r);
  }

  /** So does a header value holding " - ", such as a User-Agent "a - b". */
  lemma HeaderWithSeparatorVanishes(at: Clock, r: Record, k: nat)
    requires k < |r.headers| && Contains(r.headers[k].1, Separator)
    ensures ReadLine(FormatLine(at, Serialize(r))) != Some(r)
  {
    SeparatorPlain();
    SerializeContainsHeaderValue(r, k, Separator);
    RecordLineRoundTrip(at, r);
  }

  /** Reading a log that ends with a record's line: the records before it,
      then that record when its text holds no separator, and otherwise
      anything but that record. */
  lemma AppendedRecordReadBack(earlier: seq<string>, at: Clock, r: Record)
    ensures var line := FormatLine(at, Serialize(r));
            && ReadLines(earlier + [line]) == ReadLines(earlier) + ReadLines([line])
            && (ReadLines([line]) == [r] <==> !Contains(Serialize(r), Separator))
  {
    var line := FormatLine(at, Serialize(r));
    FilterMapConcat(earlier, [line], ReadLine);
    FilterMapSingle(line, ReadLine);
    RecordLineRoundTrip(at, r);
  }

  /** What the dashboard reads after an attempt: the records it read before,
      those of the lookup error line (if one was written), then the new
      record when its text holds no separator, and otherwise not that
      record. */
  lemma AttemptReadBack(log: Log, sub: Submission, classify: string -> string, mail: MailSettings)
    ensures var o := LogAttempt(log, sub, classify, mail);
            var last := o.log[|o.log| - 1];
            && ReadLines(o.log) == ReadLines(log) + ReadLines(o.log[|log|..|o.log| - 1]) + ReadLines([last])
            && (ReadLines([last]) == [o.record] <==> !Contains(Serialize(o.record), Separator))
  {
    var o := LogAttempt(log, sub, classify, mail);
    var mid := o.log[|log|..|o.log| - 1];
    assert o.log == (log + mid) + [o.log[|o.log| - 1]];
    AppendedRecordReadBack(log + mid, sub.at, o.record);
    FilterMapConcat(log, mid, ReadLine);
  }
}
