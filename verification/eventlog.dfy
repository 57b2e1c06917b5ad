/** The log file `honeypot.log` as an append-only sequence of text lines.
    Every entry is written through the format `%(asctime)s - %(message)s`. */
module EventLog {
  import opened Text

  /** A wall-clock reading, as `logging` renders it in `asctime`. */
  datatype Clock = Clock(year: nat, month: nat, day: nat, hour: nat, minute: nat,
                         second: nat, millis: nat)

  /** `s` has the shape of `pattern`: a '0' in the pattern marks a digit,
      any other character stands for itself. */
  predicate Fits(s: string, pattern: string) {
    && |s| == |pattern|
    && forall i :: 0 <= i < |s| ==> if pattern[i] == '0' then IsDigit(s[i]) else s[i] == pattern[i]
  }

  lemma FitsConcat(a: string, pa: string, b: string, pb: string)
    requires Fits(a, pa) && Fits(b, pb)
    ensures Fits(a + b, pa + pb)
  {
    forall i | 0 <= i < |a + b|
      ensures if (pa + pb)[i] == '0' then IsDigit((a + b)[i]) else (a + b)[i] == (pa + pb)[i]
    {
      if i >= |a| {
        assert (a + b)[i] == b[i - |a|] && (pa + pb)[i] == pb[i - |a|];
      }
    }
  }

  /** The shape of `asctime`. */
  const DatePattern := "0000-00-00"
  const TimePattern := "00:00:00,000"
  const StampPattern := "0000-00-00 00:00:00,000"

  function DateText(c: Clock): (s: string)
    ensures Fits(s, DatePattern)
  {
    Pad(c.year, 4) + "-" + Pad(c.month, 2) + "-" + Pad(c.day, 2)
  }

  function TimeText(c: Clock): (s: string)
    ensures Fits(s, TimePattern)
  {
    Pad(c.hour, 2) + ":" + Pad(c.minute, 2) + ":" + Pad(c.second, 2) + "," + Pad(c.millis, 3)
  }

  /** `asctime`: "YYYY-MM-DD HH:MM:SS,mmm". */
  function AscTime(c: Clock): (s: string)
    ensures Fits(s, StampPattern)
  {
    var date := DateText(c);
    var time := TimeText(c);
    FitsConcat(date, DatePattern, " ", " ");
    FitsConcat(date + " ", DatePattern + " ", time, TimePattern);
    assert DatePattern + " " + TimePattern == StampPattern;
    date + " " + time
  }

  /** What `logging` puts between the time and the message. */
  const Separator := " - "

  /** One line of the log: the time, the separator, the message. */
  function FormatLine(at: Clock, message: string): (line: string)
    ensures |line| == |StampPattern| + |Separator| + |message|
    ensures Fits(line[..|StampPattern|], StampPattern)
    ensures line[|StampPattern|..|StampPattern| + |Separator|] == Separator
    ensures line[|StampPattern| + |Separator|..] == message
  {
    var a := AscTime(at);
    var line := a + Separator + message;
    assert line[..|a|] == a;
    assert line[|a|..|a| + |Separator|] == Separator;
    assert line[|a| + |Separator|..] == message;
    line
  }

  /** The time contains no separator and cannot run into the one after it,
      so the leftmost separator of a line is the one the format wrote, and
      Python's `line.split(' - ')[-1]` returns the last piece of the message. */
  lemma {:induction false} LineSplitsAfterTime(at: Clock, message: string)
    ensures LastSegment(FormatLine(at, message), Separator) == LastSegment(message, Separator)
  {
    var a := AscTime(at);
    StampHasNoSeparator(at, message);
    SplitAfter(a, Separator, message);
  }

  /** No separator starts inside the timestamp: its only space is followed by
      a digit, and the separator is a space followed by a dash. */
  lemma StampHasNoSeparator(at: Clock, message: string)
    ensures forall j :: 0 <= j < |AscTime(at)| ==> !OccursAt(AscTime(at) + Separator + message, Separator, j)
  {
    var a := AscTime(at);
    var s := a + Separator + message;
    forall j | 0 <= j < |a|
      ensures !OccursAt(s, Separator, j)
    {
      if j == 10 {
        assert s[j + 1] == a[11];
        assert IsDigit(a[11]);
        assert s[j + 1] != '-';
      } else {
        assert s[j] == a[j];
        assert StampPattern[j] != ' ';
        assert s[j] != ' ';
      }
    }
  }

  type Log = seq<string>

  /** Python's `sum(1 for line in f if needle in line)`: how many lines of the
      log contain `needle` as a substring. */
  function Mentions(log: Log, needle: string): (n: nat)
    ensures n <= |log|
    ensures n == 0 <==> forall i :: 0 <= i < |log| ==> !Contains(log[i], needle)
  {
    if |log| == 0 then 0
    else
      var init := log[..|log| - 1];
      assert forall i :: 0 <= i < |init| ==> init[i] == log[i];
      Mentions(init, needle) + (if Contains(log[|log| - 1], needle) then 1 else 0)
  }

  /** Appending a line adds one mention exactly when the line contains the
      needle; no append ever lowers the count. */
  lemma MentionsAppend(log: Log, line: string, needle: string)
    ensures Mentions(log + [line], needle)
            == Mentions(log, needle) + (if Contains(line, needle) then 1 else 0)
    ensures Mentions(log + [line], needle) >= Mentions(log, needle)
  {
    assert (log + [line])[..|log|] == log;
  }
}
