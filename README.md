# SD logger and reader, modelled in Dafny

This firmware keeps a log of MQTT traffic on an SD card. The card holds one
CSV-like file per day, and each line of a file is a record `time;topic;message;`.
This project models two classes:

- `SDLogger` names the day's file and writes lines, headers and records to it.
- `SDReader` answers a time-range query. It walks the daily files of the
  window, keeps the lines whose timestamp falls in the window and whose topic
  passes a filter, and publishes them page by page as JSON payloads on the
  topic `datagator/data/time_range/<MAC>`.

Modules:

- `Text`: the standard-library string operations the code relies on.
  - `find` as the reader stores it, in an `int`, so that a miss is -1.
  - `substr`, including its clamping of lengths and of negative lengths.
  - `to_string`, with a parser that reads its output back.
- `LineFormat`: the record format the two classes share.
  - The separator `;`.
  - `write_header`'s joined fields and `log_absolute_mqtt`'s record line.
  - The reader's split of a line into its timestamp and topic fields.
- `Storage`: the card is a class whose field maps paths to contents. A file
  opened for reading is a value holding its data and a position.
- `ReaderSpec`: the reader's pipeline as functions.
  - `NextLine` and `LinesFrom` are the line stream of `read_line`.
  - `Scan` is the loop of `read_entry_range`: publish a full page, otherwise
    read one line and buffer it if it passes the three tests.
  - `JsonPage` is the page envelope.
  - `Days`, `DayPath` and `RangeMails` describe the walk over the daily files.
- `Reader`: class `SdReader`. Its fields are the open flag, the file handle,
  the current file name, and an outbox that records every publish call in
  order. Every method is proved against `ReaderSpec`.
- `Logger`: class `SdLogger`. Each of its methods states the card's complete
  new contents.
- `ReadBack`: what the reader makes of the files the logger writes.

The timestamp parser `TimeStamp(s).get_epoch()`, the day formatter
`TimeStamp(i).get_mdy()` and `WiFi.macAddress()` are not part of this model.
They are fields of the `Device` value the reader is given, so every result
holds for any parser, formatter and address.

## Model

| member | source | states |
|---|---|---|
| Text.IntToString | SDReader.cpp:55-56 | definition of `to_string` of an `int` or `long`: a minus sign before the digits of a negative value; `IntToStringRoundTrip` is its inverse |
| LineFormat.Joined | SDLogger.cpp:140-143 | definition of `write_header`'s accumulated header: every field followed by the separator |
| LineFormat.RecordLine | SDLogger.cpp:117-119 | definition of the record `time;topic;message;` |
| LineFormat.SplitFields | SDLogger.cpp:117-119 | no source function: the decoder the record format is designed for, splitting at every separator; it is the partner of `Joined` and `RecordLine` in `SplitJoined` and `RecordRoundTrip` |
| LineFormat.TimestampField | SDReader.cpp:198-200 | definition of the reader's timestamp field: the line up to its first separator, the whole line when there is none |
| LineFormat.TopicField | SDReader.cpp:198-201 | definition of the reader's topic field as written: from after the first separator, with a length one more than the topic, so the second separator is kept; `RecordFields`, `FieldsWithoutSep` and `FieldsWithOneSep` state what it gives |
| ReaderSpec.FilterMatches | SDReader.cpp:18-32 | definition of the filter test: a filter of exactly one empty string matches everything, otherwise some non-empty entry must occur in the target; `TopicFilterMatch`'s loop is proved equal to it |
| ReaderSpec.LinesFrom | SDReader.cpp:189-194 | definition of the successive `read_line` results while bytes are available |
| ReaderSpec.Accepted | SDReader.cpp:195-210 | definition of the three tests before a line is buffered: it contains `:`, its parsed timestamp field is inside the inclusive window, and its topic field passes the filter |
| ReaderSpec.QuotedEntries | SDReader.cpp:47-50 | definition of the array entries: each line quoted and followed by a comma |
| ReaderSpec.JsonArray | SDReader.cpp:47-52 | definition of the `"data"` array: the entries between brackets, with the last comma kept |
| ReaderSpec.JsonPage | SDReader.cpp:54-57 | definition of the page envelope, with the file name unquoted |
| ReaderSpec.PageSize | SDReader.cpp:65-68 | definition of the page size: the sum of the line lengths |
| ReaderSpec.PublishTopic | SDReader.cpp:221 | definition of the topic: `datagator/data/time_range/` followed by the MAC address |
| ReaderSpec.PageMail | SDReader.cpp:217-221 | definition of one page's mail: timed by the parsed timestamp fields of its first and last lines, not retained |
| ReaderSpec.Flatten | SDReader.cpp:67-68 | the pieces put together in order, for the lines of a file or the lines of the pages |
| ReaderSpec.Days | SDReader.cpp:149 | definition of the loop counter values: from the epoch in steps of 86400, while strictly below the terminus; `DaysExactly` states them |
| ReaderSpec.DayPath | SDReader.cpp:150-151 | definition of the tested path `"/" + prefix + "_" + mdy + "." + filetype` |
| ReaderSpec.RangeMails | SDReader.cpp:149-165 | definition of what the day walk publishes: for each day in order, its file's mails when the path exists, nothing otherwise |
| ReaderSpec.HandleAfter | SDReader.cpp:156-161 | definition of the handle the walk leaves: the last existing file read to its end, or the handle from before |
| Logger.DatedName | SDLogger.cpp:14-18 | definition of the dated name `prefix_M-D-Y` followed by the file type, the same at SDLogger.cpp:50-54 |
| Logger.RelativeTime | SDLogger.cpp:129 | definition of the relative time stamp `time + "+" + to_string(offset)` |
| Logger.SdLogger.Write | SDLogger.cpp:90-93 | one `f.write` on the open file: the characters go to its end and no other file changes |
| Text.FindChar | SDReader.cpp:198-199 | `find` of a character from a position: -1 exactly when there is none from that position on, otherwise the first position that holds it |
| Text.FindStr | SDReader.cpp:26 | `find` of a string from a position: -1 exactly when it occurs nowhere from there, otherwise its first occurrence |
| Text.FindStrFromStart | SDReader.cpp:195 | searching from the start succeeds exactly when the pattern is a substring |
| Text.Substr | SDReader.cpp:200-201 | `substr`'s length is clamped to the end of the string, and a negative length reads to the end; the result is that slice of the string |
| Text.NatToString | SDLogger.cpp:15-17 | `to_string` of a non-negative number is digits only, with no leading zero |
| Text.IntToStringRoundTrip | SDReader.cpp:55-56 | the decimal text of any number (minus sign exactly when it is negative) parses back to the number |
| Text.IntToStringInjective | SDLogger.cpp:15-17 | distinct numbers have distinct decimal texts |
| LineFormat.JoinedSnoc | SDLogger.cpp:141-143 | one more header field adds that field and a separator at the end |
| LineFormat.SplitJoined | SDLogger.cpp:139-143 | splitting joined fields at the separator gives back the fields, when none of them holds the separator |
| LineFormat.RecordLineIsJoined | SDLogger.cpp:117-119 | a record line is the three fields joined |
| LineFormat.RecordRoundTrip | SDLogger.cpp:117-119 | splitting a record line gives back time, topic and message, when none holds the separator |
| LineFormat.RecordFields | SDReader.cpp:198-201 | on a logged record, whatever follows it, the reader's timestamp field is the time, but its topic field is the topic with the second separator still attached |
| LineFormat.FieldsWithoutSep | SDReader.cpp:198-201 | a line without a separator is all timestamp field, and its topic field is empty |
| LineFormat.FieldsWithOneSep | SDReader.cpp:198-201 | with a single separator, the topic field is everything after it |
| ReaderSpec.NextLine | SDReader.cpp:111-126 | one line is a slice of the file from the position; it is non-empty while bytes remain; a newline can only be its last character; and a line that does not end in a newline ends the file |
| ReaderSpec.LinesFromStep | SDReader.cpp:189-194 | reading from a position with bytes left yields one line and then what follows after it |
| ReaderSpec.LinesFromConcat | SDReader.cpp:111-126 | the lines read one after another, put together, are exactly the file from the start position, with nothing lost or repeated |
| ReaderSpec.LinesFromShape | SDReader.cpp:116-123 | every line read is non-empty, and every line but the last ends in a newline |
| ReaderSpec.Scan | SDReader.cpp:189-228 | every published page holds exactly `page_length` lines, and the buffer left over holds at most that many |
| ReaderSpec.ScanCons | SDReader.cpp:193-227 | one step of the loop: a full buffer is published before the next line is read; otherwise the line is buffered exactly when it passes |
| ReaderSpec.ScanRead | SDReader.cpp:193-212 | when the buffer has room, the scan of the file equals the scan after reading one line, with the line buffered exactly when it passes |
| ReaderSpec.ScanPublish | SDReader.cpp:214-227 | when the buffer is full and bytes remain, the buffer is published and the scan goes on with an empty buffer |
| ReaderSpec.ReadKeepsSplit | SDReader.cpp:193-212 | reading a line preserves the invariant of `read_entry_range`'s loop: published pages plus the scan of the remainder make up the whole scan |
| ReaderSpec.PublishKeepsSplit | SDReader.cpp:214-227 | publishing a page preserves that invariant, with the page moved to the published side |
| ReaderSpec.SplitAtEnd | SDReader.cpp:189 | at the end of the file the pages published so far are the whole scan |
| ReaderSpec.ScanKeepsLinesInOrder | SDReader.cpp:189-228 | the published pages, then the leftover buffer, are exactly the passing lines in file order |
| ReaderSpec.ScanKeepsOnlyPassingLines | SDReader.cpp:193-212 | every published and every buffered line passed the test |
| ReaderSpec.FileScanAccepts | SDReader.cpp:195-210 | every line of a file's pages contains `:`, has its parsed timestamp field inside the inclusive window, and has a topic field that passes the filter |
| ReaderSpec.FileScanInOrder | SDReader.cpp:189-228 | a file's pages, then its leftover lines, are the file's accepted lines in file order |
| ReaderSpec.ShortScanPublishesNothing | SDReader.cpp:189-228 | with fewer passing lines than a page holds, nothing is published and those lines are left in the buffer |
| ReaderSpec.FullPageAtEndIsNotPublished | SDReader.cpp:189-214 | an example of the rule below: a one-line file read one line per page publishes nothing |
| ReaderSpec.ScanSnoc | SDReader.cpp:189-228 | one more line at the end of the stream publishes the leftover buffer only when it is full, and is then buffered exactly when it passes |
| ReaderSpec.LastLineFillsPage | SDReader.cpp:189-228 | when the last line read passes and fills the page, the published pages are unchanged and the full page stays in the buffer, unsent |
| ReaderSpec.QuotedEntriesLength | SDReader.cpp:47-52 | the array entries are three characters longer per line than the lines themselves |
| ReaderSpec.JsonPageLength | SDReader.cpp:40-58 | the payload's length is 52 plus the lengths of the file name and the two decimal times, plus the page size, plus three per line |
| ReaderSpec.FlattenSnoc | SDReader.cpp:67-68 | one more line adds its text at the end of the lines put together |
| ReaderSpec.PageSizeIsConcatLength | SDReader.cpp:65-68 | the page size is the length of the page's lines put together |
| ReaderSpec.PageSizeAppend | SDReader.cpp:65-68 | the page size of two pages put together is the sum of their sizes |
| ReaderSpec.PagesOfLengthSnoc | SDReader.cpp:193 | adding a page of `page_length` lines keeps every page at that length |
| ReaderSpec.MailsSnoc | SDReader.cpp:221 | publishing one more page adds its mail at the end of the mails |
| ReaderSpec.DaysExactly | SDReader.cpp:149 | the walk visits `epoch + k*86400` for every `k` that keeps the value strictly below the terminus, and no other day |
| ReaderSpec.DaysStep | SDReader.cpp:149 | one iteration moves the day from the days still to visit to the days visited |
| ReaderSpec.TwoDayWindow | SDReader.cpp:149 | a window of exactly two days visits two days, and the terminus itself is not visited |
| ReaderSpec.RangeMailsSnoc | SDReader.cpp:149-165 | one more day adds the mails of its file, named by its path, when the file exists, and adds nothing when it is missing |
| ReaderSpec.HandleAfterSnoc | SDReader.cpp:156-161 | one more day leaves its file's handle at the end of the file when the file exists, and leaves the handle unchanged otherwise |
| ReaderSpec.RangeMailsTopic | SDReader.cpp:221 | every mail goes to `datagator/data/time_range/` followed by the MAC address, with retain off |
| ReaderSpec.MissingFilesPublishNothing | SDReader.cpp:156-165 | when no candidate path exists, nothing is published |
| Reader.SdReader.TopicFilterMatch | SDReader.cpp:18-32 | the result is true exactly when the filter is a single empty string, or when some non-empty entry occurs in the target |
| Reader.SdReader.BuildJsonPage | SDReader.cpp:40-58 | the payload is the envelope with the file name unquoted, both times in decimal, and every entry quoted and followed by a comma, the last one included |
| Reader.SdReader.CalculatePageSize | SDReader.cpp:65-86 | the result is the page size, the sum of the line lengths |
| Reader.SdReader.ReadLine | SDReader.cpp:111-126 | with no file open: returns "" and the handle is unchanged; otherwise returns the next line from the handle's position and advances the position by the line's length |
| Reader.SdReader.OpenFile | SDReader.cpp:156-158 | opening an existing path gives a handle on its contents at position 0 |
| Reader.SdReader.CloseFile | SDReader.cpp:142-143 | no file is open afterwards; the rest of the state is unchanged |
| Reader.SdReader.BufferNextLine | SDReader.cpp:193-212 | reads one line; the buffer grows by that line exactly when the line passes the three tests; the loop invariant is kept |
| Reader.SdReader.PublishPage | SDReader.cpp:214-227 | sends one mail for the full page, timed by the parsed timestamp fields of its first and last lines, and leaves the buffer empty with the loop invariant kept |
| Reader.SdReader.ReadEntryRange | SDReader.cpp:177-229 | reads the open file to its end; the mails sent are exactly one per page of the scan of the rest of the file, in order; the last, partial page is not sent |
| Reader.SdReader.ReadDayFile | SDReader.cpp:156-165 | for one day: an existing file is opened, read to its end and closed, and its mails are added; a missing file adds nothing |
| Reader.SdReader.ReadEntryRangeFromFiles | SDReader.cpp:132-172 | ends with no file open; leaves `filename` at the last day's path; the mails are every existing day's file mails in day order; the handle is left on the last existing file |
| Logger.SdLogger.Named | SDLogger.cpp:6-10 | the file name is the given name followed by the default `.csv` |
| Logger.SdLogger.Dated | SDLogger.cpp:13-19 | the file name is `prefix_M-D-Y` with the file type straight after the year |
| Logger.SdLogger.SetFilename | SDLogger.cpp:41-43 | the file name becomes the given name, as it is |
| Logger.SdLogger.SetDatedFilename | SDLogger.cpp:49-55 | the file name becomes the dated name |
| Logger.SdLogger.WriteLine | SDLogger.cpp:87-95 | the log file then holds a newline and the line, whatever it held before; no other file changes |
| Logger.SdLogger.AppendLine | SDLogger.cpp:101-109 | the log file's old contents (empty when it was missing) gain a newline and the line; no other file changes |
| Logger.SdLogger.LogAbsoluteMqtt | SDLogger.cpp:116-122 | appends the record `time;topic;message;` |
| Logger.SdLogger.LogRelativeMqtt | SDLogger.cpp:128-132 | appends the record whose time is `time+offset` |
| Logger.SdLogger.WriteHeader | SDLogger.cpp:139-146 | the log file then holds a newline and every field followed by the separator, replacing whatever it held before |
| Logger.IntThenDash | SDLogger.cpp:15-17 | in `to_string(n) + "-" + rest`, the first dash after the first character ends the number, whatever the sign of `n` |
| Logger.IntThenDashInjective | SDLogger.cpp:15-17 | `to_string(n) + "-" + rest` splits in only one way, for any integer `n` |
| Logger.DatedNameInjective | SDLogger.cpp:13-19 | for the same prefix and file type, distinct dates give distinct file names, whatever the signs of month, day and year |
| Logger.RelativeTimeRoundTrip | SDLogger.cpp:129 | when the time holds no `+`, the first `+` ends the time, and what follows parses back to the offset |
| Logger.RelativeTimeNoSep | SDLogger.cpp:129 | the relative time stamp adds no separator, so the record keeps three fields |
| ReadBack.TailLine | SDLogger.cpp:104-107 | after the last written newline, the single line left to read is the line written |
| ReadBack.LastLineFrom | SDReader.cpp:116-123 | reading from any position up to a newline ends with the same last line as reading from just after it |
| ReadBack.LastLineRead | SDLogger.cpp:101-109 | reading a file that ends in a newline and then the appended line yields that line as its last line |
| ReadBack.FirstLineIsEmpty | SDLogger.cpp:90 | a file starting with a newline is read first as the line `"\n"` |
| ReadBack.WrittenLineIsRead | SDLogger.cpp:87-95 | a file made by `write_line` of a non-empty line without a newline reads back as the line `"\n"` and then the line |
| ReadBack.EmptyWriteIsRead | SDLogger.cpp:87-95 | a file made by `write_line("")`, or by `write_header` of no fields, reads back as the single line `"\n"` |
| ReadBack.JoinedNoNewline | SDLogger.cpp:139-143 | a header of fields without newlines holds no newline, and is non-empty when there is a field |
| ReadBack.WrittenHeaderIsRead | SDLogger.cpp:139-146 | a file made by `write_header` of at least one field, none holding a newline, reads back as the line `"\n"` and then the header |
| ReadBack.LeadingNewlineIsDiscarded | SDReader.cpp:195 | the empty first line every written file starts with fails the `:` probe, so it is never buffered |
| ReadBack.AppendedRecordIsReadLast | SDLogger.cpp:116-122 | a record appended by `log_absolute_mqtt` is the last line the reader reads; its timestamp field is the time and its topic field is the topic plus `;` |
| ReadBack.RecordAccepted | SDReader.cpp:195-210 | a logged record is buffered exactly when it contains `:`, its time parses into the window, and the filter passes the topic with `;` after it |
| ReadBack.DayFileName | SDReader.cpp:151 | the logger's dated name equals the reader's daily path when it is given the prefix with a leading `/`, the file type with its dot, and a date that is the reader's `mdy` of the day |

## Left out

- Card set-up and teardown are not modelled. This covers `initialize_sd_card`, `close_card`, the `sd.begin` call in `SDLogger(filename)` and the unused default constructor. `sd.exists` becomes `path in files`.
- `SDLogger::open_file`'s try/catch and its error prints are left out. Opening is taken to succeed, as both write methods assume.
- Serial debug output, heap reports and the page-size warning of `calculate_page_size` are observations only. The heap-trace code is commented out in the source.
- The MQTT transport is left out. `MQTTMailer::mailMessage` becomes the append of a `Mail` value to the reader's `outbox`, and `mqtt_client` is not modelled.
- The file-scope helper `print_heap_debug` is debug output only.
- `TimeStamp` and `WiFi.macAddress()` are not part of this model; the reader receives them as the `Device` value. For that reason the TimeStamp-rebuilt `epoch` and `terminus` of a page are only as good as `Device.parse`.
- `SDReader::open_file` and `SDReader::close_file` are called but not defined in `SDReader.cpp`. `OpenFile` and `CloseFile` model them as the least they must do: open at position 0, and clear the open flag.
- The `File f` parameter of `read_entry_range` is never used by the source, which reads `this->fp`, so `ReadEntryRange` has no such parameter.
- Machine integer widths are not modelled. This covers the `int` loop counter of `read_entry_range_from_files`, the `int` sum of `calculate_page_size`, and `find` results stored in an `int`. All of these are unbounded here.
- Reader.SdReader.ReadEntryRange: requires `page_length >= 1`, and so does `ReadEntryRangeFromFiles`. With 0 the source reads `data[0]` of an empty vector and never reads again. A negative length compares as unsigned in the source, so no page is ever published; the model does not cover that case.
- JSON well-formedness is not claimed, and neither is escaping of quotes in lines. As written, the file name is unquoted and the array has a trailing comma; `JsonPage` states exactly that text.
- `SDLoggerDataEntry`, `main.cpp` and the class headers other than the logger's defaults are not part of this model.
- The five-argument `SDLogger` constructor and `set_filename` take a parameter `filetype` that shadows the member of that name. The model follows the source: the member's `.csv` is used only by `SDLogger(filename)`.
- Several source behaviours are modelled as written, not corrected, and are shown by lemmas:
  - Lines still buffered when a file ends are never published (`ShortScanPublishesNothing`, `LastLineFillsPage`, `FullPageAtEndIsNotPublished`).
  - The topic field keeps its trailing `;` (`RecordFields`).
  - Every written file starts with an empty line (`WrittenLineIsRead`, `LeadingNewlineIsDiscarded`).
  - `write_header` overwrites the file, although its comment says it appends (`WriteHeader`).
  - The reader adds `/` and `.` around the prefix and file type, and the logger does not (`DayFileName`).
