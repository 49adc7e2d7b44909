/** What the reader makes of the files the logger writes: the line stream of
    a written or appended file, the fields of a logged record, and the file
    names on either side. */
module ReadBack {
  import opened Text
  import opened LineFormat
  import opened ReaderSpec
  import opened Logger

  predicate NoNewline(s: string) {
    forall k :: 0 <= k < |s| ==> s[k] != '\n'
  }

  /** After the newline in `s + "\n" + line` there is one line left to
      read, `line` itself. */
  lemma TailLine(t: string, s: string, line: string)
    requires t == s + "\n" + line && |line| >= 1 && NoNewline(line)
    ensures LinesFrom(t, |s| + 1) == [line]
  {
    assert t[|s| + 1..] == line;
    assert FindChar(t, '\n', |s| + 1) == -1 by {
      assert forall k :: |s| + 1 <= k < |t| ==> t[k] == line[k - |s| - 1];
    }
    LinesFromStep(t, |s| + 1);
    assert NextLine(t, |s| + 1) == line;
  }

  /** `line` is the last of `lines`. */
  ghost predicate LastIs(lines: seq<string>, line: string) {
    |lines| >= 1 && lines[|lines| - 1] == line
  }

  /** Reading one more line first does not change which line comes last. */
  lemma LastAfterStep(t: string, p: nat, line: string)
    requires p < |t|
    requires LastIs(LinesFrom(t, p + |NextLine(t, p)|), line)
    ensures LastIs(LinesFrom(t, p), line)
  {
    var tail := LinesFrom(t, p + |NextLine(t, p)|);
    LinesFromStep(t, p);
    assert LinesFrom(t, p) == [NextLine(t, p)] + tail;
    assert ([NextLine(t, p)] + tail)[|tail|] == tail[|tail| - 1];
  }

  /** A line read before the newline at `m - 1` ends at `m` at the latest. */
  lemma StopsBefore(t: string, m: nat, p: nat)
    requires 1 <= m <= |t| && t[m - 1] == '\n' && p < m
    ensures p + |NextLine(t, p)| <= m
  {
  }

  /** When a newline ends just before `m` and reading from `m` ends with
      `line`, reading from any position up to `m` ends with `line` too. */
  lemma {:induction false} LastLineFrom(t: string, m: nat, line: string, p: nat)
    requires 1 <= m <= |t| && t[m - 1] == '\n' && LastIs(LinesFrom(t, m), line)
    requires p <= m
    ensures LastIs(LinesFrom(t, p), line)
    decreases m - p
  {
    if p < m {
      StopsBefore(t, m, p);
      LastLineFrom(t, m, line, p + |NextLine(t, p)|);
      LastAfterStep(t, p, line);
    }
  }

  /** Reading `s + "\n" + line` from the start ends with `line` itself. */
  lemma LastLineRead(t: string, s: string, line: string)
    requires t == s + "\n" + line && |line| >= 1 && NoNewline(line)
    ensures LastIs(LinesFrom(t, 0), line)
  {
    TailLine(t, s, line);
    assert t[|s|] == '\n';
    LastLineFrom(t, |s| + 1, line, 0);
  }

  /** A file that starts with a newline is read first as the empty line `"\n"`. */
  lemma FirstLineIsEmpty(t: string)
    requires |t| >= 1 && t[0] == '\n'
    ensures NextLine(t, 0) == "\n"
    ensures LinesFrom(t, 0) == ["\n"] + LinesFrom(t, 1)
  {
    assert FindChar(t, '\n', 0) == 0;
    LinesFromStep(t, 0);
  }

  /** A non-empty line without a newline, written by `write_line`, is read
      back as an empty line followed by that line. */
  lemma WrittenLineIsRead(line: string)
    requires |line| >= 1 && NoNewline(line)
    ensures LinesFrom("\n" + line, 0) == ["\n", line]
  {
    var t := "\n" + line;
    assert t == "" + "\n" + line;
    FirstLineIsEmpty(t);
    TailLine(t, "", line);
  }

  /** `write_line("")`, and so `write_header` of no fields, leaves a file read
      back as the single line `"\n"`. */
  lemma EmptyWriteIsRead()
    ensures LinesFrom("\n", 0) == ["\n"]
  {
    FirstLineIsEmpty("\n");
    assert LinesFrom("\n", 1) == [];
  }

  /** Header fields without newlines give a header without newlines, and a
      non-empty one when there is a field. */
  lemma {:induction false} JoinedNoNewline(fields: seq<string>)
    requires forall i :: 0 <= i < |fields| ==> NoNewline(fields[i])
    ensures NoNewline(Joined(fields))
    ensures fields != [] ==> |Joined(fields)| >= 1
  {
    if fields != [] {
      var tail := Joined(fields[1..]);
      JoinedNoNewline(fields[1..]);
      var j := Joined(fields);
      assert j == fields[0] + [Sep] + tail;
      forall k | 0 <= k < |j|
        ensures j[k] != '\n'
      {
        if k > |fields[0]| {
          assert j[k] == tail[k - |fields[0]| - 1];
        }
      }
    }
  }

  /** A header written by `write_header` reads back as the empty line and then
      the header, when there is a field and no field holds a newline. */
  lemma WrittenHeaderIsRead(fields: seq<string>)
    requires fields != [] && forall i :: 0 <= i < |fields| ==> NoNewline(fields[i])
    ensures LinesFrom("\n" + Joined(fields), 0) == ["\n", Joined(fields)]
  {
    JoinedNoNewline(fields);
    WrittenLineIsRead(Joined(fields));
  }

  /** The empty line every write starts with never passes the reader's
      `':'` probe, so it is never buffered. */
  lemma LeadingNewlineIsDiscarded(t: string, q: Query, parse: string -> int)
    ensures |LinesFrom("\n" + t, 0)| >= 1 && LinesFrom("\n" + t, 0)[0] == "\n"
    ensures !Accepted("\n", q, parse)
  {
    FirstLineIsEmpty("\n" + t);
    forall k
      ensures !OccursAt(":", "\n", k)
    {
      if 0 <= k && k + 1 <= 1 {
        assert "\n"[k..k + 1] == "\n";
      }
    }
  }

  /** A record appended by `log_absolute_mqtt` is the last line the reader
      reads from the file, and the reader's split gives back its time and its
      topic followed by the separator. */
  lemma AppendedRecordIsReadLast(s: string, time: string, topic: string, message: string)
    requires NoSep(time) && NoSep(topic)
    requires NoNewline(RecordLine(time, topic, message))
    ensures LastIs(LinesFrom(s + "\n" + RecordLine(time, topic, message), 0), RecordLine(time, topic, message))
    ensures TimestampField(RecordLine(time, topic, message)) == time
    ensures TopicField(RecordLine(time, topic, message)) == topic + [Sep]
  {
    var line := RecordLine(time, topic, message);
    LastLineRead(s + "\n" + line, s, line);
    RecordFields(time, topic, message, "");
    assert line + "" == line;
  }

  /** The reader's three tests on a logged record: the time window applies to
      the logged time, but the topic filter sees the topic WITH the
      separator after it. */
  lemma RecordAccepted(time: string, topic: string, message: string, q: Query, parse: string -> int)
    requires NoSep(time) && NoSep(topic)
    ensures Accepted(RecordLine(time, topic, message), q, parse)
      <==> && Contains(RecordLine(time, topic, message), ":")
           && q.epoch <= parse(time) <= q.terminus
           && FilterMatches(q.filter, topic + [Sep])
  {
    RecordFields(time, topic, message, "");
    assert RecordLine(time, topic, message) + "" == RecordLine(time, topic, message);
  }

  /** The logger's dated name meets the reader's daily path when the logger
      is given the prefix with a leading `/` and the file type with its dot,
      and the reader's day formats as the logger's date. */
  lemma DayFileName(prefix: string, filetype: string, dev: Device, day: int, month: int, date: int, year: int)
    requires dev.mdy(day) == IntToString(month) + "-" + IntToString(date) + "-" + IntToString(year)
    ensures DatedName("/" + prefix, month, date, year, "." + filetype) == DayPath(prefix, filetype, dev, day)
  {
  }
}
