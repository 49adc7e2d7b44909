/** Class SDReader: retrieves logged lines from the daily files on the card,
    filters them by time window and topic, and publishes them page by page. */
module Reader {
  import opened Text
  import opened LineFormat
  import opened Storage
  import opened ReaderSpec

  class SdReader {
    /** The card the daily files live on. */
    const sd: SdCard
    /** The timestamp collaborators and the MAC address. */
    const dev: Device
    /** The path of the file being read; it names the file in every page. */
    var filename: string
    var fileOpen: bool
    /** The handle of the file being read. */
    var fp: File
    /** Every `mailMessage` call made so far, in order. */
    var outbox: seq<Mail>

    ghost predicate Valid()
      reads this
    {
      fp.pos <= |fp.data|
    }

    constructor (sd: SdCard, dev: Device, filename: string)
      ensures Valid()
      ensures this.sd == sd && this.dev == dev && this.filename == filename
      ensures !fileOpen && fp == File("", 0) && outbox == []
    {
      this.sd := sd;
      this.dev := dev;
      this.filename := filename;
      fileOpen := false;
      fp := File("", 0);
      outbox := [];
    }

    /** `topic_filter_match`: walks the filter; an empty entry matches only
        when it is the whole filter, a non-empty entry matches when `find`
        locates it in the target. */
    static method TopicFilterMatch(filter: seq<string>, target: string) returns (r: bool)
      ensures r <==> FilterMatches(filter, target)
    {
      var checkDefault := |filter| == 1;
      var i := 0;
      while i < |filter|
        invariant 0 <= i <= |filter|
        invariant !(checkDefault && i >= 1 && filter[0] == "")
        invariant forall j :: 0 <= j < i && filter[j] != "" ==> !Contains(target, filter[j])
      {
        var f := filter[i];
        FindStrFromStart(target, f);
        if checkDefault && f == "" {
          return true;
        } else if f != "" && FindStr(target, f, 0) != -1 {
          return true;
        }
        i := i + 1;
      }
      return false;
    }

    /** `build_json_page`: the array is accumulated entry by entry, then
        wrapped in the envelope. */
    static method BuildJsonPage(fileName: string, epoch: int, terminus: int, data: seq<string>) returns (r: string)
      ensures r == JsonPage(fileName, epoch, terminus, data)
    {
      var arr := "[";
      for i := 0 to |data|
        invariant arr == "[" + QuotedEntries(data[..i])
      {
        assert data[..i + 1][..i] == data[..i];
        arr := arr + "\"" + data[i] + "\",";
      }
      assert data[..|data|] == data;
      arr := arr + "]";
      assert arr == JsonArray(data);
      r := "{ \"file name\":" + fileName
        + ", \"epoch\": " + IntToString(epoch)
        + ", \"terminus\": " + IntToString(terminus)
        + ", \"data\": " + arr + "}";
    }

    /** `calculate_page_size`: sums the line lengths. */
    static method CalculatePageSize(page: seq<string>) returns (size: int)
      ensures size == PageSize(page)
    {
      size := 0;
      for i := 0 to |page|
        invariant size == PageSize(page[..i])
      {
        assert page[..i + 1][..i] == page[..i];
        size := size + |page[i]|;
      }
      assert page[..|page|] == page;
    }

    /** `read_line`: nothing when no file is open; otherwise characters are
        read until one is a newline or none is available. */
    method ReadLine() returns (line: string)
      requires Valid()
      modifies this
      ensures Valid()
      ensures !old(fileOpen) ==> line == "" && fp == old(fp)
      ensures old(fileOpen) ==>
        line == NextLine(old(fp.data), old(fp.pos)) && fp == File(old(fp.data), old(fp.pos) + |line|)
      ensures fileOpen == old(fileOpen) && filename == old(filename) && outbox == old(outbox)
    {
      if !fileOpen {
        return "";
      }
      ghost var s, p0 := fp.data, fp.pos;
      line := "";
      while fp.pos < |fp.data|
        invariant fp.data == s && p0 <= fp.pos <= |s|
        invariant line == s[p0..fp.pos]
        invariant forall k :: p0 <= k < fp.pos ==> s[k] != '\n'
        invariant fileOpen == old(fileOpen) && filename == old(filename) && outbox == old(outbox)
        decreases |s| - fp.pos
      {
        var c := fp.data[fp.pos];
        assert s[p0..fp.pos + 1] == s[p0..fp.pos] + [c];
        fp := fp.(pos := fp.pos + 1);
        line := line + [c];
        if c == '\n' {
          assert FindChar(s, '\n', p0) == fp.pos - 1;
          return;
        }
      }
      assert FindChar(s, '\n', p0) == -1;
    }

    /** Opening an existing file: the handle reads it from the start. */
    method OpenFile(path: string)
      requires path in sd.files
      modifies this
      ensures Valid() && fileOpen
      ensures fp == File(sd.files[path], 0)
      ensures filename == old(filename) && outbox == old(outbox)
    {
      fp := File(sd.files[path], 0);
      fileOpen := true;
    }

    method CloseFile()
      modifies this
      ensures !fileOpen
      ensures fp == old(fp) && filename == old(filename) && outbox == old(outbox)
    {
      fileOpen := false;
    }

    /** Where `read_entry_range` stands in a file: the scan `whole` of the
        file split into the pages published so far and what is still to come
        from the current position and buffer `data`, and one mail sent per
        page published. */
    ghost predicate Progress(whole: seq<seq<string>>, pages: seq<seq<string>>, data: seq<string>,
                             n: int, keep: string -> bool, sent: seq<Mail>)
      reads this
      requires n >= 1
    {
      && Valid()
      && |data| <= n
      && PagesOfLength(pages, n)
      && ScanSplit(whole, pages, fp.data, fp.pos, data, n, keep)
      && outbox == sent + Mails(pages, filename, dev)
    }

    /** The branch of `read_entry_range`'s loop taken while the page has room:
        one line is read; it is buffered if it contains `':'`, its timestamp
        field parses into the window and its topic field passes the filter. */
    method BufferNextLine(q: Query, data: seq<string>, ghost keep: string -> bool,
                          ghost whole: seq<seq<string>>, ghost pages: seq<seq<string>>, ghost sent: seq<Mail>)
      returns (next: seq<string>)
      requires q.pageLength >= 1 && keep == AcceptFn(q, dev.parse)
      requires fileOpen && fp.pos < |fp.data| && |data| < q.pageLength
      requires Progress(whole, pages, data, q.pageLength, keep, sent)
      modifies this
      ensures fileOpen && filename == old(filename) && outbox == old(outbox)
      ensures fp == File(old(fp.data), old(fp.pos) + |NextLine(old(fp.data), old(fp.pos))|)
      ensures next == if keep(NextLine(old(fp.data), old(fp.pos)))
                      then data + [NextLine(old(fp.data), old(fp.pos))] else data
      ensures Progress(whole, pages, next, q.pageLength, keep, sent)
    {
      ReadKeepsSplit(whole, pages, fp.data, fp.pos, data, q.pageLength, keep);
      next := data;
      var line := ReadLine();
      assert keep(line) == Accepted(line, q, dev.parse);
      FindStrFromStart(line, ":");
      if FindStr(line, ":", 0) == -1 {
        return;
      }
      var firstSc := FindChar(line, Sep, 0);
      var secondSc := FindChar(line, Sep, firstSc + 1);
      var lTs := Substr(line, 0, firstSc);
      var lTopic := Substr(line, firstSc + 1, secondSc - firstSc);
      assert lTs == TimestampField(line) && lTopic == TopicField(line);
      var ts := dev.parse(lTs);
      if ts >= q.epoch && ts <= q.terminus {
        var matches := TopicFilterMatch(q.filter, lTopic);
        if matches {
          next := data + [line];
        }
      }
    }

    /** The branch of `read_entry_range`'s loop taken when the page is full:
        the page goes out on the device's time-range topic, timed by the
        timestamp fields of its first and last lines. */
    method PublishPage(data: seq<string>, ghost n: int, ghost keep: string -> bool,
                       ghost whole: seq<seq<string>>, ghost pages: seq<seq<string>>, ghost sent: seq<Mail>)
      requires n >= 1 && |data| == n && fp.pos < |fp.data|
      requires Progress(whole, pages, data, n, keep, sent)
      modifies this
      ensures outbox == old(outbox) + [PageMail(data, filename, dev)]
      ensures fp == old(fp) && fileOpen == old(fileOpen) && filename == old(filename)
      ensures Progress(whole, pages + [data], [], n, keep, sent)
    {
      PublishKeepsSplit(whole, pages, fp.data, fp.pos, data, n, keep);
      MailsSnoc(pages, data, filename, dev);
      PagesOfLengthSnoc(pages, data, n);
      var first := data[0];
      var last := data[|data| - 1];
      var e := dev.parse(Substr(first, 0, FindChar(first, Sep, 0)));
      var t := dev.parse(Substr(last, 0, FindChar(last, Sep, 0)));
      var json := BuildJsonPage(filename, e, t, data);
      outbox := outbox + [Mail(PublishTopic(dev.mac), json, false)];
    }

    /** `read_entry_range`: reads the open file to its end, buffering the lines
        that pass the three tests and publishing each full page before the next
        line is read. What it publishes is `Scan` over the lines read, one
        mail per page; the lines buffered at the end are dropped. */
    method ReadEntryRange(epoch: int, terminus: int, topicFilter: seq<string>, pageLength: int)
      requires Valid() && fileOpen && pageLength >= 1
      modifies this
      ensures Valid() && fileOpen && filename == old(filename)
      ensures fp == File(old(fp.data), |old(fp.data)|)
      ensures outbox == old(outbox)
        + FileMails(old(fp.data), old(fp.pos), old(filename), Query(epoch, terminus, topicFilter, pageLength), dev)
    {
      var q := Query(epoch, terminus, topicFilter, pageLength);
      ghost var s := fp.data;
      ghost var keep := AcceptFn(q, dev.parse);
      ghost var whole := Scan(LinesFrom(s, fp.pos), [], pageLength, keep).pages;
      ghost var pages: seq<seq<string>> := [];
      assert [] + Scan(LinesFrom(s, fp.pos), [], pageLength, keep).pages == whole;
      var data: seq<string> := [];
      while fp.pos < |fp.data|
        invariant fp.data == s && fileOpen && filename == old(filename)
        invariant Progress(whole, pages, data, pageLength, keep, old(outbox))
        decreases |s| - fp.pos, |data|
      {
        if |data| < pageLength {
          data := BufferNextLine(q, data, keep, whole, pages, old(outbox));
        } else {
          PublishPage(data, pageLength, keep, whole, pages, old(outbox));
          pages := pages + [data];
          data := [];
        }
      }
      SplitAtEnd(whole, pages, s, data, pageLength, keep);
    }

    /** Where `read_entry_range_from_files` stands after the days `visited`:
        no file open, and one batch of mails per existing day's file. */
    ghost predicate Walked(visited: seq<int>, q: Query, prefix: string, filetype: string,
                           sent: seq<Mail>)
      reads this, sd
      requires q.pageLength >= 1
    {
      && Valid() && !fileOpen
      && outbox == sent + RangeMails(sd.files, visited, q, prefix, filetype, dev)
    }

    /** The body of `read_entry_range_from_files`' loop once `filename` is set
        to the day's path: an existing file is opened, read with
        `ReadEntryRange` and closed; a missing one is passed over. */
    method ReadDayFile(q: Query, ghost day: int, ghost visited: seq<int>, ghost prefix: string,
                       ghost filetype: string, ghost sent: seq<Mail>)
      requires q.pageLength >= 1 && filename == DayPath(prefix, filetype, dev, day)
      requires Walked(visited, q, prefix, filetype, sent)
      modifies this
      ensures filename == old(filename)
      ensures Walked(visited + [day], q, prefix, filetype, sent)
      ensures fp == if filename in sd.files then File(sd.files[filename], |sd.files[filename]|) else old(fp)
    {
      RangeMailsSnoc(sd.files, visited, day, q, prefix, filetype, dev);
      assert Query(q.epoch, q.terminus, q.filter, q.pageLength) == q;
      ghost var before := RangeMails(sd.files, visited, q, prefix, filetype, dev);
      if filename in sd.files {
        ghost var path := filename;
        OpenFile(filename);
        ghost var text := fp.data;
        ghost var sentBefore := outbox;
        assert text == sd.files[path] && fp.pos == 0;
        ReadEntryRange(q.epoch, q.terminus, q.filter, q.pageLength);
        ghost var mails := FileMails(text, 0, path, q, dev);
        assert outbox == sentBefore + mails;
        CloseFile();
        Assoc(sent, before, mails);
      } else {
        AppendNothing(before);
      }
    }

    /** `read_entry_range_from_files`: closes any open file, then for each
        day of the window sets `filename` to the day's path and reads that
        file if it exists. */
    method ReadEntryRangeFromFiles(epoch: int, terminus: int, topicFilter: seq<string>, pageLength: int,
                                   prefix: string, filetype: string)
      requires Valid() && pageLength >= 1
      modifies this
      ensures Valid() && !fileOpen
      ensures var days := Days(epoch, terminus);
        filename == if days == [] then old(filename) else DayPath(prefix, filetype, dev, days[|days| - 1])
      ensures outbox == old(outbox) + RangeMails(sd.files, Days(epoch, terminus),
        Query(epoch, terminus, topicFilter, pageLength), prefix, filetype, dev)
      ensures fp == HandleAfter(sd.files, Days(epoch, terminus), old(fp), prefix, filetype, dev)
    {
      var q := Query(epoch, terminus, topicFilter, pageLength);
      ghost var h0 := fp;
      if fileOpen {
        CloseFile();
      }
      var i := epoch;
      ghost var visited: seq<int> := [];
      while i < terminus
        invariant Days(epoch, terminus) == visited + Days(i, terminus)
        invariant filename == if visited == [] then old(filename) else DayPath(prefix, filetype, dev, visited[|visited| - 1])
        invariant Walked(visited, q, prefix, filetype, old(outbox))
        invariant fp == HandleAfter(sd.files, visited, h0, prefix, filetype, dev)
        decreases terminus - i
      {
        var mdy := dev.mdy(i);
        var testFn := "/" + prefix + "_" + mdy + "." + filetype;
        filename := testFn;
        ReadDayFile(q, i, visited, prefix, filetype, old(outbox));
        HandleAfterSnoc(sd.files, visited, i, h0, prefix, filetype, dev);
        DaysStep(visited, i, terminus);
        visited := visited + [i];
        i := i + SecondsPerDay;
      }
      assert visited + [] == visited;
    }
  }
}
