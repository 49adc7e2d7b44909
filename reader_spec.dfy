/** What the reader's retrieval pipeline computes, as functions: the topic
    filter, the line stream of one file, the per-file scan that fills and
    publishes pages, the JSON page envelope, and the walk over daily files.
    The methods of class SdReader are proved against these. */
module ReaderSpec {
  import opened Text
  import opened LineFormat
  import opened Storage

  /** The collaborators the reader calls but whose code is not in this model:
      `TimeStamp(s).get_epoch()` (parse), `TimeStamp(i).get_mdy()` (mdy) and
      `WiFi.macAddress()` (mac). They are parameters of the model. */
  datatype Device = Device(parse: string -> int, mdy: int -> string, mac: string)

  /** The arguments of `read_entry_range`: an inclusive time window, the topic
      filter and the number of lines per page. */
  datatype Query = Query(epoch: int, terminus: int, filter: seq<string>, pageLength: int)

  /** One `mailMessage` call: topic, payload and the retain flag. */
  datatype Mail = Mail(topic: string, payload: string, retain: bool)

  /** The published result of a scan: the pages handed to the publisher, in
      order, and the lines still buffered when the file ran out. */
  datatype ScanResult = ScanResult(pages: seq<seq<string>>, rest: seq<string>)

  // ---------------------------------------------------------------- topic filter

  /** `topic_filter_match`: a filter holding exactly one empty string matches
      every target; otherwise some non-empty entry must occur in the target
      (empty entries of a longer filter never match). */
  ghost predicate FilterMatches(filter: seq<string>, target: string) {
    (|filter| == 1 && filter[0] == "")
    || exists i :: 0 <= i < |filter| && filter[i] != "" && Contains(target, filter[i])
  }

  // ---------------------------------------------------------------- line stream

  /** What one `read_line` returns from position `p`: the characters up to and
      including the first newline, or up to the end of the file. */
  function NextLine(s: string, p: nat): (r: string)
    requires p <= |s|
    ensures p + |r| <= |s| && r == s[p..p + |r|]
    ensures p < |s| ==> |r| >= 1
    ensures forall k :: 0 <= k < |r| - 1 ==> r[k] != '\n'
    ensures |r| >= 1 && r[|r| - 1] != '\n' ==> p + |r| == |s|
  {
    var q := FindChar(s, '\n', p);
    if q == -1 then s[p..] else s[p..q + 1]
  }

  /** The successive results of `read_line` from position `p` until the file
      is exhausted. */
  function LinesFrom(s: string, p: nat): seq<string>
    requires p <= |s|
    decreases |s| - p
  {
    if p == |s| then [] else var line := NextLine(s, p); [line] + LinesFrom(s, p + |line|)
  }

  /** One `read_line` and then the rest. */
  lemma LinesFromStep(s: string, p: nat)
    requires p < |s|
    ensures LinesFrom(s, p) == [NextLine(s, p)] + LinesFrom(s, p + |NextLine(s, p)|)
  {
  }

  /** The pieces put together, in order. */
  function Flatten<T>(pieces: seq<seq<T>>): seq<T> {
    if pieces == [] then [] else pieces[0] + Flatten(pieces[1..])
  }

  /** Reading line after line loses and repeats nothing: the lines put
      together are the file from the starting position on. */
  lemma {:induction false} LinesFromConcat(s: string, p: nat)
    requires p <= |s|
    ensures Flatten(LinesFrom(s, p)) == s[p..]
    decreases |s| - p
  {
    if p < |s| {
      var line := NextLine(s, p);
      var k := p + |line|;
      calc {
        Flatten(LinesFrom(s, p));
        Flatten([line] + LinesFrom(s, k));
        { FlattenCons(line, LinesFrom(s, k)); }
        line + Flatten(LinesFrom(s, k));
        { LinesFromConcat(s, k); }
        s[p..k] + s[k..];
        { SliceSplit(s, p, k); }
        s[p..];
      }
    } else {
      assert s[p..] == [];
    }
  }

  lemma SliceSplit<T>(s: seq<T>, p: nat, k: nat)
    requires p <= k <= |s|
    ensures s[p..] == s[p..k] + s[k..]
  {
  }

  lemma FlattenCons<T>(x: seq<T>, pieces: seq<seq<T>>)
    ensures Flatten([x] + pieces) == x + Flatten(pieces)
  {
    assert ([x] + pieces)[1..] == pieces;
  }

  /** Every line but possibly the last ends with its newline, and none holds
      a newline anywhere else. */
  lemma {:induction false} LinesFromShape(s: string, p: nat)
    requires p <= |s|
    ensures forall i :: 0 <= i < |LinesFrom(s, p)| ==> |LinesFrom(s, p)[i]| >= 1
    ensures forall i :: 0 <= i < |LinesFrom(s, p)| - 1 ==>
      LinesFrom(s, p)[i][|LinesFrom(s, p)[i]| - 1] == '\n'
    decreases |s| - p
  {
    if p < |s| {
      var line := NextLine(s, p);
      var k := p + |line|;
      LinesFromShape(s, k);
      LinesFromStep(s, p);
      var ls, tail := LinesFrom(s, p), LinesFrom(s, k);
      forall i | 0 <= i < |ls|
        ensures |ls[i]| >= 1
      {
        if i > 0 {
          assert ls[i] == tail[i - 1];
        }
      }
      forall i | 0 <= i < |ls| - 1
        ensures ls[i][|ls[i]| - 1] == '\n'
      {
        if i == 0 {
          assert k < |s|;
        } else {
          assert ls[i] == tail[i - 1];
        }
      }
    }
  }

  // ---------------------------------------------------------------- one file

  /** The three tests `read_entry_range` applies to a line before it buffers
      it: the `':'` probe, the inclusive time window on the parsed timestamp
      field, and the topic filter on the topic field. */
  ghost predicate Accepted(line: string, q: Query, parse: string -> int) {
    && Contains(line, ":")
    && q.epoch <= parse(TimestampField(line)) <= q.terminus
    && FilterMatches(q.filter, TopicField(line))
  }

  /** Accepted as a function value, the form in which the scan takes it. */
  ghost function AcceptFn(q: Query, parse: string -> int): string -> bool {
    line => Accepted(line, q, parse)
  }

  /** The loop of `read_entry_range` over the lines still to be read, with
      page buffer `buf`, page length `n` and line test `keep`: while bytes are
      available, a full buffer is published and cleared (without reading),
      otherwise the next line is read and buffered if it passes the test. When
      the lines run out the buffer is left as it is. */
  function Scan(lines: seq<string>, buf: seq<string>, n: int, keep: string -> bool): (r: ScanResult)
    requires n >= 1 && |buf| <= n
    ensures forall i :: 0 <= i < |r.pages| ==> |r.pages[i]| == n
    ensures |r.rest| <= n
  {
    if lines == [] then ScanResult([], buf)
    else
      var full := |buf| == n;
      var cleared := if full then [] else buf;
      var r := Scan(lines[1..], if keep(lines[0]) then cleared + [lines[0]] else cleared, n, keep);
      if full then ScanResult([buf] + r.pages, r.rest) else r
  }

  /** One step of the scan, as the reader's loop takes it: a full buffer is
      published first, then the line is tested. */
  lemma ScanCons(line: string, lines: seq<string>, buf: seq<string>, n: int, keep: string -> bool)
    requires n >= 1 && |buf| <= n
    ensures |buf| == n ==>
      Scan([line] + lines, buf, n, keep)
        == ScanResult([buf] + Scan(lines, if keep(line) then [line] else [], n, keep).pages,
                      Scan(lines, if keep(line) then [line] else [], n, keep).rest)
    ensures |buf| < n ==>
      Scan([line] + lines, buf, n, keep) == Scan(lines, if keep(line) then buf + [line] else buf, n, keep)
  {
    assert ([line] + lines)[0] == line && ([line] + lines)[1..] == lines;
    assert [] + [line] == [line];
  }

  /** The step the reader's loop takes when the buffer has room: the next line
      is read and buffered if it passes the test. */
  lemma ScanRead(s: string, p: nat, buf: seq<string>, n: int, keep: string -> bool)
    requires p < |s| && n >= 1 && |buf| < n
    ensures Scan(LinesFrom(s, p), buf, n, keep)
      == Scan(LinesFrom(s, p + |NextLine(s, p)|), if keep(NextLine(s, p)) then buf + [NextLine(s, p)] else buf, n, keep)
  {
    var line := NextLine(s, p);
    LinesFromStep(s, p);
    ScanCons(line, LinesFrom(s, p + |line|), buf, n, keep);
  }

  /** The step the reader's loop takes when the buffer is full and bytes remain:
      the page is published and the scan goes on from an empty buffer, nothing
      having been read. */
  lemma ScanPublish(lines: seq<string>, buf: seq<string>, n: int, keep: string -> bool)
    requires lines != [] && n >= 1 && |buf| == n
    ensures Scan(lines, buf, n, keep)
      == ScanResult([buf] + Scan(lines, [], n, keep).pages, Scan(lines, [], n, keep).rest)
  {
  }

  /** The scan of a whole file, split where the reader's loop stands: the pages
      published so far, then what the scan of the rest from the current buffer
      publishes. This is the invariant of the loop of `read_entry_range`. */
  ghost predicate ScanSplit(whole: seq<seq<string>>, pages: seq<seq<string>>, s: string, p: nat,
                            buf: seq<string>, n: int, keep: string -> bool)
    requires p <= |s| && n >= 1 && |buf| <= n
  {
    whole == pages + Scan(LinesFrom(s, p), buf, n, keep).pages
  }

  /** Reading one line keeps the split. */
  lemma ReadKeepsSplit(whole: seq<seq<string>>, pages: seq<seq<string>>, s: string, p: nat,
                       buf: seq<string>, n: int, keep: string -> bool)
    requires p < |s| && n >= 1 && |buf| < n
    requires ScanSplit(whole, pages, s, p, buf, n, keep)
    ensures ScanSplit(whole, pages, s, p + |NextLine(s, p)|,
                      if keep(NextLine(s, p)) then buf + [NextLine(s, p)] else buf, n, keep)
  {
    ScanRead(s, p, buf, n, keep);
  }

  /** Publishing a full page keeps the split, with the page moved to the
      published side and the buffer empty. */
  lemma PublishKeepsSplit(whole: seq<seq<string>>, pages: seq<seq<string>>, s: string, p: nat,
                          buf: seq<string>, n: int, keep: string -> bool)
    requires p < |s| && n >= 1 && |buf| == n
    requires ScanSplit(whole, pages, s, p, buf, n, keep)
    ensures ScanSplit(whole, pages + [buf], s, p, [], n, keep)
  {
    var lines := LinesFrom(s, p);
    assert lines != [];
    ScanPublish(lines, buf, n, keep);
    var after := Scan(lines, [], n, keep).pages;
    assert pages + ([buf] + after) == (pages + [buf]) + after;
  }

  /** At the end of the file the split is the whole scan's published pages. */
  lemma SplitAtEnd(whole: seq<seq<string>>, pages: seq<seq<string>>, s: string, buf: seq<string>, n: int, keep: string -> bool)
    requires n >= 1 && |buf| <= n
    requires ScanSplit(whole, pages, s, |s|, buf, n, keep)
    ensures whole == pages
  {
    assert LinesFrom(s, |s|) == [];
    assert pages + [] == pages;
  }

  /** The lines that pass the test, in order. */
  function Kept(lines: seq<string>, keep: string -> bool): seq<string> {
    if lines == [] then []
    else (if keep(lines[0]) then [lines[0]] else []) + Kept(lines[1..], keep)
  }


  lemma Assoc<T>(a: seq<T>, b: seq<T>, c: seq<T>)
    ensures (a + b) + c == a + (b + c)
  {
  }

  lemma AppendNothing<T>(a: seq<T>)
    ensures a + [] == a
  {
  }

  lemma Regroup<T>(a: seq<T>, b: seq<T>, c: seq<T>, d: seq<T>)
    requires b + c == d
    ensures (a + b) + c == a + d
  {
  }

  /** Pages keep file order: the published pages followed by the lines left in
      the buffer are exactly the lines that passed the test, in the order read. */
  lemma {:induction false} ScanKeepsLinesInOrder(lines: seq<string>, buf: seq<string>, n: int, keep: string -> bool)
    requires n >= 1 && |buf| <= n
    ensures Flatten(Scan(lines, buf, n, keep).pages) + Scan(lines, buf, n, keep).rest
            == buf + Kept(lines, keep)
  {
    if lines != [] {
      var full := |buf| == n;
      var cleared := if full then [] else buf;
      var line := lines[0];
      var add := if keep(line) then [line] else [];
      var next := if keep(line) then cleared + [line] else cleared;
      var r := Scan(lines[1..], next, n, keep);
      var tail := Kept(lines[1..], keep);
      ScanKeepsLinesInOrder(lines[1..], next, n, keep);
      assert Kept(lines, keep) == add + tail;
      if full {
        assert Scan(lines, buf, n, keep) == ScanResult([buf] + r.pages, r.rest);
        FlattenCons(buf, r.pages);
        assert next == add;
        Regroup(buf, Flatten(r.pages), r.rest, add + tail);
      } else {
        assert Scan(lines, buf, n, keep) == r;
        assert next == buf + add;
        Regroup(buf, add, tail, add + tail);
      }
    }
  }

  /** Every buffered, and so every published, line passed the test. */
  lemma {:induction false} ScanKeepsOnlyPassingLines(lines: seq<string>, buf: seq<string>, n: int, keep: string -> bool)
    requires n >= 1 && |buf| <= n
    requires forall j :: 0 <= j < |buf| ==> keep(buf[j])
    ensures forall i, j :: 0 <= i < |Scan(lines, buf, n, keep).pages| && 0 <= j < |Scan(lines, buf, n, keep).pages[i]|
              ==> keep(Scan(lines, buf, n, keep).pages[i][j])
    ensures forall j :: 0 <= j < |Scan(lines, buf, n, keep).rest| ==> keep(Scan(lines, buf, n, keep).rest[j])
  {
    if lines != [] {
      var full := |buf| == n;
      var cleared := if full then [] else buf;
      var next := if keep(lines[0]) then cleared + [lines[0]] else cleared;
      ScanKeepsOnlyPassingLines(lines[1..], next, n, keep);
    }
  }

  /** The scan of one whole file as `read_entry_range` runs it. */
  ghost function FileScan(s: string, q: Query, parse: string -> int): ScanResult
    requires q.pageLength >= 1
  {
    Scan(LinesFrom(s, 0), [], q.pageLength, AcceptFn(q, parse))
  }

  /** In the reader's terms: every line of every published page, and every line
      left in the buffer, contains `':'`, has its timestamp in the window and
      its topic field passes the filter. */
  lemma FileScanAccepts(s: string, q: Query, parse: string -> int)
    requires q.pageLength >= 1
    ensures forall i, j :: 0 <= i < |FileScan(s, q, parse).pages| && 0 <= j < |FileScan(s, q, parse).pages[i]|
              ==> Accepted(FileScan(s, q, parse).pages[i][j], q, parse)
    ensures forall j :: 0 <= j < |FileScan(s, q, parse).rest| ==> Accepted(FileScan(s, q, parse).rest[j], q, parse)
  {
    ScanKeepsOnlyPassingLines(LinesFrom(s, 0), [], q.pageLength, AcceptFn(q, parse));
  }

  /** In the reader's terms: the published pages, then the lines left over,
      are the file's accepted lines in file order. */
  lemma FileScanInOrder(s: string, q: Query, parse: string -> int)
    requires q.pageLength >= 1
    ensures Flatten(FileScan(s, q, parse).pages) + FileScan(s, q, parse).rest
            == Kept(LinesFrom(s, 0), AcceptFn(q, parse))
  {
    ScanKeepsLinesInOrder(LinesFrom(s, 0), [], q.pageLength, AcceptFn(q, parse));
  }

  /** As written, fewer passing lines than a page holds publish nothing;
      those lines stay in the buffer and are dropped. */
  lemma ShortScanPublishesNothing(lines: seq<string>, n: int, keep: string -> bool)
    requires n >= 1
    requires |Kept(lines, keep)| < n
    ensures Scan(lines, [], n, keep).pages == []
    ensures Scan(lines, [], n, keep).rest == Kept(lines, keep)
  {
    var r := Scan(lines, [], n, keep);
    ScanKeepsLinesInOrder(lines, [], n, keep);
    if r.pages != [] {
      assert false;
    }
    assert Flatten(r.pages) + r.rest == r.rest;
  }

  /** One more line at the end of the stream: it first publishes the buffer
      left over if that is full, then is tested like any other line. */
  lemma {:induction false} ScanSnoc(lines: seq<string>, last: string, buf: seq<string>, n: int, keep: string -> bool)
    requires n >= 1 && |buf| <= n
    ensures var r := Scan(lines, buf, n, keep);
      Scan(lines + [last], buf, n, keep)
        == if |r.rest| == n then ScanResult(r.pages + [r.rest], if keep(last) then [last] else [])
           else ScanResult(r.pages, if keep(last) then r.rest + [last] else r.rest)
    decreases |lines|
  {
    if lines == [] {
      assert [] + [last] == [last];
      ScanCons(last, [], buf, n, keep);
    } else {
      var line := lines[0];
      var cleared := if |buf| == n then [] else buf;
      var next := if keep(line) then cleared + [line] else cleared;
      assert lines == [line] + lines[1..];
      assert lines + [last] == [line] + (lines[1..] + [last]);
      ScanCons(line, lines[1..], buf, n, keep);
      ScanCons(line, lines[1..] + [last], buf, n, keep);
      assert [] + [line] == [line];
      ScanSnoc(lines[1..], last, next, n, keep);
      var r0 := Scan(lines[1..], next, n, keep);
      if |buf| == n {
        assert [buf] + (r0.pages + [r0.rest]) == ([buf] + r0.pages) + [r0.rest];
      }
    }
  }

  /** As written, a page filled by the last line of the stream is never
      published: the scan ends with that full page still in the buffer. */
  lemma LastLineFillsPage(lines: seq<string>, last: string, buf: seq<string>, n: int, keep: string -> bool)
    requires n >= 1 && |buf| <= n && keep(last)
    requires |Scan(lines, buf, n, keep).rest| == n - 1
    ensures Scan(lines + [last], buf, n, keep).pages == Scan(lines, buf, n, keep).pages
    ensures Scan(lines + [last], buf, n, keep).rest == Scan(lines, buf, n, keep).rest + [last]
    ensures |Scan(lines + [last], buf, n, keep).rest| == n
  {
    ScanSnoc(lines, last, buf, n, keep);
  }

  /** As written, even a full page is published only if the file has more
      bytes after the line that filled it: a one-line file read one line per
      page publishes nothing. */
  lemma FullPageAtEndIsNotPublished(line: string, keep: string -> bool)
    requires |line| >= 1 && keep(line)
    requires forall k :: 0 <= k < |line| ==> line[k] != '\n'
    ensures Scan(LinesFrom(line, 0), [], 1, keep) == ScanResult([], [line])
  {
    assert NextLine(line, 0) == line;
    assert LinesFrom(line, 0) == [line];
    ScanCons(line, [], [], 1, keep);
  }

  // ---------------------------------------------------------------- pages

  /** The entries of the JSON array, each quoted and followed by a comma. */
  function QuotedEntries(data: seq<string>): string {
    if data == [] then "" else QuotedEntries(data[..|data| - 1]) + "\"" + data[|data| - 1] + "\","
  }

  /** The page envelope `build_json_page` emits: the file name unquoted, a
      trailing comma inside the array. */
  function JsonPage(fileName: string, epoch: int, terminus: int, data: seq<string>): string {
    "{ \"file name\":" + fileName
    + ", \"epoch\": " + IntToString(epoch)
    + ", \"terminus\": " + IntToString(terminus)
    + ", \"data\": " + JsonArray(data) + "}"
  }

  /** The `"data"` array: the entries between brackets. */
  function JsonArray(data: seq<string>): string {
    "[" + QuotedEntries(data) + "]"
  }

  /** `calculate_page_size`: the total length of the page's lines. */
  function PageSize(page: seq<string>): nat {
    if page == [] then 0 else PageSize(page[..|page| - 1]) + |page[|page| - 1]|
  }

  lemma {:induction false} QuotedEntriesLength(data: seq<string>)
    ensures |QuotedEntries(data)| == PageSize(data) + 3 * |data|
  {
    if data != [] {
      QuotedEntriesLength(data[..|data| - 1]);
    }
  }

  /** The published payload is the page size plus three characters per line
      plus the envelope: this is what ties `page_length` to the transport's
      payload ceiling. */
  lemma JsonPageLength(fileName: string, epoch: int, terminus: int, data: seq<string>)
    ensures |JsonPage(fileName, epoch, terminus, data)|
            == 52 + |fileName| + |IntToString(epoch)| + |IntToString(terminus)| + PageSize(data) + 3 * |data|
  {
    QuotedEntriesLength(data);
  }

  lemma {:induction false} FlattenSnoc<T>(pieces: seq<seq<T>>, x: seq<T>)
    ensures Flatten(pieces + [x]) == Flatten(pieces) + x
  {
    if pieces != [] {
      assert (pieces + [x])[1..] == pieces[1..] + [x];
      FlattenSnoc(pieces[1..], x);
    }
  }

  /** The page size is the length of the page's lines put together. */
  lemma {:induction false} PageSizeIsConcatLength(page: seq<string>)
    ensures PageSize(page) == |Flatten(page)|
  {
    if page != [] {
      var init := page[..|page| - 1];
      PageSizeIsConcatLength(init);
      FlattenSnoc(init, page[|page| - 1]);
      assert init + [page[|page| - 1]] == page;
    }
  }

  lemma {:induction false} PageSizeAppend(a: seq<string>, b: seq<string>)
    ensures PageSize(a + b) == PageSize(a) + PageSize(b)
    decreases |b|
  {
    if b == [] {
      assert a + b == a;
    } else {
      assert (a + b)[..|a + b| - 1] == a + b[..|b| - 1];
      PageSizeAppend(a, b[..|b| - 1]);
    }
  }

  /** The topic every page is published on. */
  function PublishTopic(mac: string): string {
    "datagator/data/time_range/" + mac
  }

  /** The mail for one full page: its epoch and terminus are the parsed
      timestamp fields of the page's first and last lines. */
  function PageMail(page: seq<string>, fileName: string, dev: Device): Mail
    requires |page| >= 1
  {
    var epoch := dev.parse(TimestampField(page[0]));
    var terminus := dev.parse(TimestampField(page[|page| - 1]));
    Mail(PublishTopic(dev.mac), JsonPage(fileName, epoch, terminus, page), false)
  }

  predicate PagesOfLength(pages: seq<seq<string>>, n: int) {
    forall i :: 0 <= i < |pages| ==> |pages[i]| == n
  }

  lemma PagesOfLengthSnoc(pages: seq<seq<string>>, page: seq<string>, n: int)
    requires PagesOfLength(pages, n) && |page| == n
    ensures PagesOfLength(pages + [page], n)
  {
    var ps := pages + [page];
    assert forall i :: 0 <= i < |pages| ==> ps[i] == pages[i];
    assert ps[|pages|] == page;
  }

  /** The mails for a sequence of pages, one per page and in page order. */
  function Mails(pages: seq<seq<string>>, fileName: string, dev: Device): seq<Mail>
    requires forall i :: 0 <= i < |pages| ==> |pages[i]| >= 1
  {
    seq(|pages|, i requires 0 <= i < |pages| => PageMail(pages[i], fileName, dev))
  }

  /** Publishing one more page adds its mail at the end. */
  lemma MailsSnoc(pages: seq<seq<string>>, page: seq<string>, fileName: string, dev: Device)
    requires forall i :: 0 <= i < |pages| ==> |pages[i]| >= 1
    requires |page| >= 1
    ensures Mails(pages + [page], fileName, dev) == Mails(pages, fileName, dev) + [PageMail(page, fileName, dev)]
  {
    var ps := pages + [page];
    assert forall i :: 0 <= i < |pages| ==> ps[i] == pages[i];
  }

  /** The mails `read_entry_range` sends for the file `s` read from position
      `p`, every page being named `fileName`. */
  ghost function FileMails(s: string, p: nat, fileName: string, q: Query, dev: Device): seq<Mail>
    requires p <= |s| && q.pageLength >= 1
  {
    Mails(Scan(LinesFrom(s, p), [], q.pageLength, AcceptFn(q, dev.parse)).pages, fileName, dev)
  }

  // ---------------------------------------------------------------- days

  const SecondsPerDay: int := 86400

  /** The loop counter values of `read_entry_range_from_files`: from `from` in
      steps of one day, while strictly below `until`. */
  function Days(from: int, until: int): seq<int>
    decreases until - from
  {
    if from < until then [from] + Days(from + SecondsPerDay, until) else []
  }

  /** The walk visits exactly `from + k * 86400` for every `k` that keeps the
      value strictly below `until`, and no more. */
  lemma {:induction false} DaysExactly(from: int, until: int)
    ensures forall k :: 0 <= k < |Days(from, until)| ==>
      Days(from, until)[k] == from + k * SecondsPerDay && Days(from, until)[k] < until
    ensures from + |Days(from, until)| * SecondsPerDay >= until
    decreases until - from
  {
    if from < until {
      DaysExactly(from + SecondsPerDay, until);
      var ds := Days(from, until);
      assert ds[1..] == Days(from + SecondsPerDay, until);
      forall k | 1 <= k < |ds|
        ensures ds[k] == from + k * SecondsPerDay
      {
        assert ds[k] == ds[1..][k - 1];
      }
    }
  }

  /** One more step of the walk moves the next day from the days to come to
      the days visited. */
  lemma DaysStep(visited: seq<int>, day: int, until: int)
    requires day < until
    ensures visited + Days(day, until) == (visited + [day]) + Days(day + SecondsPerDay, until)
  {
    assert Days(day, until) == [day] + Days(day + SecondsPerDay, until);
  }

  /** A window of two whole days starting at midnight visits the first two
      days and not the third. */
  lemma TwoDayWindow(start: int)
    ensures Days(start, start + 2 * SecondsPerDay) == [start, start + SecondsPerDay]
  {
    assert Days(start + 2 * SecondsPerDay, start + 2 * SecondsPerDay) == [];
  }

  /** The path tested for the day containing `day`: `"/" + prefix + "_" + mdy + "." + filetype`. */
  function DayPath(prefix: string, filetype: string, dev: Device, day: int): string {
    "/" + prefix + "_" + dev.mdy(day) + "." + filetype
  }

  /** What one step of the walk publishes: nothing for a missing file. */
  ghost function DayMails(files: map<string, string>, day: int, q: Query, prefix: string, filetype: string, dev: Device): seq<Mail>
    requires q.pageLength >= 1
  {
    var path := DayPath(prefix, filetype, dev, day);
    if path in files then FileMails(files[path], 0, path, q, dev) else []
  }

  /** What the walk over `days` publishes, day after day. */
  ghost function RangeMails(files: map<string, string>, days: seq<int>, q: Query, prefix: string, filetype: string, dev: Device): seq<Mail>
    requires q.pageLength >= 1
  {
    if days == [] then []
    else RangeMails(files, days[..|days| - 1], q, prefix, filetype, dev)
         + DayMails(files, days[|days| - 1], q, prefix, filetype, dev)
  }

  /** One more day adds that day's mails at the end, nothing when its file is
      missing and the mails of its file, named by its path, when it exists. */
  lemma RangeMailsSnoc(files: map<string, string>, days: seq<int>, day: int, q: Query, prefix: string, filetype: string, dev: Device)
    requires q.pageLength >= 1
    ensures var path := DayPath(prefix, filetype, dev, day);
      RangeMails(files, days + [day], q, prefix, filetype, dev)
        == RangeMails(files, days, q, prefix, filetype, dev)
           + if path in files then FileMails(files[path], 0, path, q, dev) else []
  {
    assert (days + [day])[..|days|] == days;
  }

  /** The file handle left behind by the walk: the last existing file read to
      its end, or the handle from before when no candidate file existed. */
  function HandleAfter(files: map<string, string>, days: seq<int>, h: File, prefix: string, filetype: string, dev: Device): File {
    if days == [] then h
    else
      var path := DayPath(prefix, filetype, dev, days[|days| - 1]);
      if path in files then File(files[path], |files[path]|)
      else HandleAfter(files, days[..|days| - 1], h, prefix, filetype, dev)
  }

  /** One more day leaves the handle of its file, read to the end, when the
      file exists, and the handle from before when it does not. */
  lemma HandleAfterSnoc(files: map<string, string>, days: seq<int>, day: int, h: File, prefix: string, filetype: string, dev: Device)
    ensures var path := DayPath(prefix, filetype, dev, day);
      HandleAfter(files, days + [day], h, prefix, filetype, dev)
        == if path in files then File(files[path], |files[path]|) else HandleAfter(files, days, h, prefix, filetype, dev)
  {
    assert (days + [day])[..|days|] == days;
  }

  /** Every mail goes to the device's time-range topic, not retained. */
  lemma {:induction false} RangeMailsTopic(files: map<string, string>, days: seq<int>, q: Query, prefix: string, filetype: string, dev: Device)
    requires q.pageLength >= 1
    ensures forall i :: 0 <= i < |RangeMails(files, days, q, prefix, filetype, dev)| ==>
      RangeMails(files, days, q, prefix, filetype, dev)[i].topic == PublishTopic(dev.mac)
      && !RangeMails(files, days, q, prefix, filetype, dev)[i].retain
    decreases |days|
  {
    if days != [] {
      RangeMailsTopic(files, days[..|days| - 1], q, prefix, filetype, dev);
    }
  }

  /** Missing files are skipped: when no candidate path exists nothing is published. */
  lemma {:induction false} MissingFilesPublishNothing(files: map<string, string>, days: seq<int>, q: Query, prefix: string, filetype: string, dev: Device)
    requires q.pageLength >= 1
    requires forall i :: 0 <= i < |days| ==> DayPath(prefix, filetype, dev, days[i]) !in files
    ensures RangeMails(files, days, q, prefix, filetype, dev) == []
    decreases |days|
  {
    if days != [] {
      MissingFilesPublishNothing(files, days[..|days| - 1], q, prefix, filetype, dev);
    }
  }
}
