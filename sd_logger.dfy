/** Class SDLogger: names the log file and writes lines and records to it on
    the card. */
module Logger {
  import opened Text
  import opened LineFormat
  import opened Storage

  /** The extension the one-argument constructor adds: the `filetype` member. */
  const DefaultFileType: string := ".csv"

  /** The dated file name of the five-argument constructor and `set_filename`:
      `prefix_M-D-Y` with the file type written straight after the year (no
      dot is inserted). */
  function DatedName(prefix: string, month: int, day: int, year: int, filetype: string): string {
    prefix + "_" + IntToString(month) + "-" + IntToString(day) + "-" + IntToString(year) + filetype
  }

  /** The time stamp `log_relative_mqtt` logs: `time + "+" + offset`. */
  function RelativeTime(time: string, offset: int): string {
    time + "+" + IntToString(offset)
  }

  /** What the card holds at `path`, the empty string for a missing file. */
  function Contents(files: map<string, string>, path: string): string {
    if path in files then files[path] else ""
  }

  class SdLogger {
    /** The card the log file lives on. */
    const sd: SdCard
    /** The name of the file this logger writes. */
    var filename: string

    /** `SDLogger(filename)`: the default file type is appended. */
    constructor Named(sd: SdCard, filename: string)
      ensures this.sd == sd && this.filename == filename + DefaultFileType
    {
      this.sd := sd;
      this.filename := filename + DefaultFileType;
    }

    /** `SDLogger(prefix, month, day, year, filetype)`. */
    constructor Dated(sd: SdCard, prefix: string, month: int, day: int, year: int, filetype: string)
      ensures this.sd == sd && filename == DatedName(prefix, month, day, year, filetype)
    {
      this.sd := sd;
      filename := prefix + "_" + IntToString(month) + "-" + IntToString(day) + "-" + IntToString(year) + filetype;
    }

    /** `set_filename(fn)`: the name is taken as it is. */
    method SetFilename(fn: string)
      modifies this
      ensures filename == fn
    {
      filename := fn;
    }

    /** `set_filename(prefix, month, day, year, filetype)`. */
    method SetDatedFilename(prefix: string, month: int, day: int, year: int, filetype: string)
      modifies this
      ensures filename == DatedName(prefix, month, day, year, filetype)
    {
      filename := prefix + "_" + IntToString(month) + "-" + IntToString(day) + "-" + IntToString(year) + filetype;
    }

    /** `f.write(...)` on the open log file: the characters go to its end. */
    method Write(chunk: string)
      requires filename in sd.files
      modifies sd
      ensures sd.files == old(sd.files)[filename := old(sd.files[filename]) + chunk]
    {
      sd.files := sd.files[filename := sd.files[filename] + chunk];
    }

    /** `write_line`: the file is opened for writing, which empties it, then
        a newline and the line are written. Only the log file changes. */
    method WriteLine(line: string)
      modifies sd
      ensures sd.files == old(sd.files)[filename := "\n" + line]
    {
      sd.files := sd.files[filename := ""];
      Write("\n");
      assert "" + "\n" == "\n";
      Write(line);
    }

    /** `append_line`: the file is opened for appending, which creates it
        when missing, then a newline and the line are added at its end. Only
        the log file changes. */
    method AppendLine(line: string)
      modifies sd
      ensures sd.files == old(sd.files)[filename := Contents(old(sd.files), filename) + "\n" + line]
    {
      if filename !in sd.files {
        sd.files := sd.files[filename := ""];
      }
      Write("\n");
      Write(line);
    }

    /** `log_absolute_mqtt`: appends the record `time;topic;message;`. */
    method LogAbsoluteMqtt(time: string, mqttTopic: string, mqttMessage: string)
      modifies sd
      ensures sd.files == old(sd.files)[filename :=
        Contents(old(sd.files), filename) + "\n" + RecordLine(time, mqttTopic, mqttMessage)]
    {
      var line := time + [Sep] + mqttTopic + [Sep] + mqttMessage + [Sep];
      AppendLine(line);
    }

    /** `log_relative_mqtt`: the same as `log_absolute_mqtt` with the time
        stamp `time+offset`. */
    method LogRelativeMqtt(time: string, offset: int, mqttTopic: string, mqttMessage: string)
      modifies sd
      ensures sd.files == old(sd.files)[filename :=
        Contents(old(sd.files), filename) + "\n" + RecordLine(RelativeTime(time, offset), mqttTopic, mqttMessage)]
    {
      var t := time + "+" + IntToString(offset);
      LogAbsoluteMqtt(t, mqttTopic, mqttMessage);
    }

    /** `write_header`: every field followed by the separator, written with
        `write_line`, so the header replaces whatever the file held. */
    method WriteHeader(fields: seq<string>)
      modifies sd
      ensures sd.files == old(sd.files)[filename := "\n" + Joined(fields)]
    {
      var header := "";
      for i := 0 to |fields|
        invariant header == Joined(fields[..i])
        invariant sd.files == old(sd.files)
      {
        assert fields[..i + 1] == fields[..i] + [fields[i]];
        JoinedSnoc(fields[..i], fields[i]);
        header := header + fields[i] + [Sep];
      }
      assert fields[..|fields|] == fields;
      WriteLine(header);
    }
  }

  // ---------------------------------------------------------------- file names

  /** The decimal text of a number is followed by the first dash after its
      first character (the only dash it can hold is a leading minus sign). */
  lemma IntThenDash(n: int, rest: string)
    ensures FindChar(IntToString(n) + "-" + rest, '-', 1) == |IntToString(n)|
  {
    var a := IntToString(n);
    var pre, f := a[..1], a[1..];
    assert forall k :: 0 <= k < |f| ==> IsDigit(f[k]) by {
      if n < 0 {
        assert f == NatToString(-n);
      }
    }
    FindCharAfter(pre, f, '-', rest);
    assert pre + f == a;
  }

  /** `to_string(n) + "-" + rest` splits in only one way. */
  lemma IntThenDashInjective(m: int, rest: string, m2: int, rest2: string)
    requires IntToString(m) + "-" + rest == IntToString(m2) + "-" + rest2
    ensures m == m2 && rest == rest2
  {
    var a, a2 := IntToString(m), IntToString(m2);
    IntThenDash(m, rest);
    IntThenDash(m2, rest2);
    var s := a + "-" + rest;
    assert a == s[..|a|] && rest == s[|a| + 1..];
    var s2 := a2 + "-" + rest2;
    assert a2 == s2[..|a2|] && rest2 == s2[|a2| + 1..];
    IntToStringInjective(m, m2);
  }

  /** The dated name is the prefix and underscore, the date, and the file type. */
  lemma DatedNameShape(prefix: string, month: int, day: int, year: int, filetype: string)
    ensures DatedName(prefix, month, day, year, filetype)
      == (prefix + "_") + (IntToString(month) + "-" + (IntToString(day) + "-" + IntToString(year))) + filetype
  {
  }

  /** The same head and tail around two middles: the middles are equal. */
  lemma Middle<T>(head: seq<T>, x: seq<T>, x2: seq<T>, tail: seq<T>)
    requires head + x + tail == head + x2 + tail
    ensures x == x2
  {
    var s := head + x + tail;
    assert x == s[|head|..|s| - |tail|];
    assert x2 == (head + x2 + tail)[|head|..|s| - |tail|];
  }

  /** For the same prefix and file type, distinct dates give distinct file
      names, whatever the signs of month, day and year. */
  lemma DatedNameInjective(prefix: string, filetype: string, month: int, day: int, year: int,
                           month2: int, day2: int, year2: int)
    requires DatedName(prefix, month, day, year, filetype) == DatedName(prefix, month2, day2, year2, filetype)
    ensures month == month2 && day == day2 && year == year2
  {
    var m, d, y := IntToString(month), IntToString(day), IntToString(year);
    var m2, d2, y2 := IntToString(month2), IntToString(day2), IntToString(year2);
    DatedNameShape(prefix, month, day, year, filetype);
    DatedNameShape(prefix, month2, day2, year2, filetype);
    Middle(prefix + "_", m + "-" + (d + "-" + y), m2 + "-" + (d2 + "-" + y2), filetype);
    IntThenDashInjective(month, d + "-" + y, month2, d2 + "-" + y2);
    IntThenDashInjective(day, y, day2, y2);
    IntToStringInjective(year, year2);
  }

  // ---------------------------------------------------------------- relative time

  /** The relative time stamp keeps both parts: when `time` holds no `'+'`,
      the first `'+'` ends the time and what follows reads back as the offset. */
  lemma RelativeTimeRoundTrip(time: string, offset: int)
    requires forall k :: 0 <= k < |time| ==> time[k] != '+'
    ensures FindChar(RelativeTime(time, offset), '+', 0) == |time|
    ensures RelativeTime(time, offset)[..|time|] == time
    ensures RelativeTime(time, offset)[|time| + 1..] == IntToString(offset)
    ensures ParseInt(IntToString(offset)) == offset
  {
    var r := RelativeTime(time, offset);
    assert r == time + ['+'] + IntToString(offset);
    FindCharAfter("", time, '+', IntToString(offset));
    assert "" + time == time;
    assert r[..|time|] == time;
    assert r[|time| + 1..] == IntToString(offset);
    IntToStringRoundTrip(offset);
  }

  /** The relative time stamp adds no separator, so it stays one record field. */
  lemma RelativeTimeNoSep(time: string, offset: int)
    requires NoSep(time)
    ensures NoSep(RelativeTime(time, offset))
  {
    var r := RelativeTime(time, offset);
    var o := IntToString(offset);
    assert forall k :: 0 <= k < |o| ==> o[k] == '-' || IsDigit(o[k]) by {
      if offset < 0 {
        assert forall k :: 1 <= k < |o| ==> o[k] == NatToString(-offset)[k - 1];
      }
    }
    assert forall k :: |time| + 1 <= k < |r| ==> r[k] == o[k - |time| - 1];
  }
}
