/** The flat record format shared by the writer and the reader: fields each
    followed by the separator `;` (the `separator` members of both classes),
    and the reader's cheap split of a line into its timestamp and topic fields. */
module LineFormat {
  import opened Text

  /** The field separator, `";"` in both the logger and the reader. */
  const Sep: char := ';'

  predicate NoSep(s: string) {
    forall i :: 0 <= i < |s| ==> s[i] != Sep
  }

  /** Each field followed by the separator, as `write_header` accumulates
      `header += i + separator`. */
  function Joined(fields: seq<string>): string {
    if fields == [] then "" else fields[0] + [Sep] + Joined(fields[1..])
  }

  /** The line `log_absolute_mqtt` appends: `time;topic;message;`. */
  function RecordLine(time: string, topic: string, message: string): string {
    time + [Sep] + topic + [Sep] + message + [Sep]
  }

  /** Splits a line at every separator; a trailing empty field is ignored.
      This is the decoder the record format is designed for; the reader itself
      only carves out the first two fields (see TimestampField and TopicField). */
  function SplitFields(s: string): seq<string>
    decreases |s|
  {
    var k := FindChar(s, Sep, 0);
    if k == -1 then (if s == "" then [] else [s])
    else [s[..k]] + SplitFields(s[k + 1..])
  }

  /** The reader's timestamp field: `line.substr(0, first_sc)`, the whole line
      when there is no separator. */
  function TimestampField(line: string): string {
    Substr(line, 0, FindChar(line, Sep, 0))
  }

  /** The reader's topic field: `line.substr(first_sc + 1, second_sc - first_sc)`.
      The length is one more than the topic, so the second separator is kept. */
  function TopicField(line: string): string {
    var firstSc := FindChar(line, Sep, 0);
    var secondSc := FindChar(line, Sep, firstSc + 1);
    Substr(line, firstSc + 1, secondSc - firstSc)
  }

  /** Appending one more field adds it and one separator at the end; this is
      the step `write_header`'s loop takes. */
  lemma {:induction false} JoinedSnoc(fields: seq<string>, f: string)
    ensures Joined(fields + [f]) == Joined(fields) + f + [Sep]
  {
    if fields != [] {
      assert (fields + [f])[1..] == fields[1..] + [f];
      JoinedSnoc(fields[1..], f);
    }
  }

  /** Splitting a line of joined fields gives the fields back, provided none of
      them contains the separator (the format has no escaping). */
  lemma {:induction false} SplitJoined(fields: seq<string>)
    requires forall i :: 0 <= i < |fields| ==> NoSep(fields[i])
    ensures SplitFields(Joined(fields)) == fields
  {
    if fields != [] {
      var s := Joined(fields);
      FindCharAfter("", fields[0], Sep, Joined(fields[1..]));
      assert "" + fields[0] == fields[0];
      assert s[..|fields[0]|] == fields[0];
      assert s[|fields[0]| + 1..] == Joined(fields[1..]);
      SplitJoined(fields[1..]);
    }
  }

  /** A record line is its three fields joined. */
  lemma RecordLineIsJoined(time: string, topic: string, message: string)
    ensures RecordLine(time, topic, message) == Joined([time, topic, message])
  {
    assert [message][1..] == [];
    assert Joined([message]) == message + [Sep];
    assert [topic, message][1..] == [message];
    assert Joined([topic, message]) == topic + [Sep] + message + [Sep];
    assert [time, topic, message][1..] == [topic, message];
  }

  /** Round trip of the record format: decoding an encoded record gives its
      fields back when no field contains the separator. */
  lemma RecordRoundTrip(time: string, topic: string, message: string)
    requires NoSep(time) && NoSep(topic) && NoSep(message)
    ensures SplitFields(RecordLine(time, topic, message)) == [time, topic, message]
  {
    RecordLineIsJoined(time, topic, message);
    SplitJoined([time, topic, message]);
  }

  /** What the reader's split makes of a line the logger wrote, whatever follows
      it on the line: the timestamp field is the time, and the topic field is the
      topic WITH the separator after it. */
  lemma RecordFields(time: string, topic: string, message: string, tail: string)
    requires NoSep(time) && NoSep(topic)
    ensures TimestampField(RecordLine(time, topic, message) + tail) == time
    ensures TopicField(RecordLine(time, topic, message) + tail) == topic + [Sep]
  {
    var line := RecordLine(time, topic, message) + tail;
    var pre := time + [Sep];
    var rest := message + [Sep] + tail;
    assert line == pre + topic + [Sep] + rest;
    assert line == "" + time + [Sep] + (topic + [Sep] + rest);
    FindCharAfter("", time, Sep, topic + [Sep] + rest);
    FindCharAfter(pre, topic, Sep, rest);
    var firstSc := FindChar(line, Sep, 0);
    var secondSc := FindChar(line, Sep, firstSc + 1);
    assert firstSc == |time| && secondSc == |pre| + |topic|;
    assert line[..|time|] == time;
    assert line[|pre|..|pre| + |topic| + 1] == topic + [Sep];
  }

  /** The split on a line without any separator: the whole line is the
      timestamp field and the topic field is empty. */
  lemma FieldsWithoutSep(line: string)
    requires NoSep(line)
    ensures TimestampField(line) == line
    ensures TopicField(line) == ""
  {
    var firstSc := FindChar(line, Sep, 0);
    assert firstSc == -1;
    assert line[0..] == line;
    assert Substr(line, 0, firstSc + 1 - 1 - firstSc) == "";
  }

  /** The split on a line with exactly one separator: the topic field is
      everything after it. */
  lemma FieldsWithOneSep(f: string, rest: string)
    requires NoSep(f) && NoSep(rest)
    ensures TimestampField(f + [Sep] + rest) == f
    ensures TopicField(f + [Sep] + rest) == rest
  {
    var line := f + [Sep] + rest;
    FindCharAfter("", f, Sep, rest);
    assert "" + f == f;
    assert forall k :: |f| + 1 <= k < |line| ==> line[k] == rest[k - |f| - 1];
    assert line[|f| + 1..] == rest;
  }
}
