/** `RedisLogHandler`: one application's log, kept as a live list in Redis plus page files. */
module LogHandler {
  import opened Wrappers

  /** A stored record: the id the counter gave it and the logged content. */
  datatype Record = Record(id: nat, message: string)

  /** One application's keys: the counter, the record list, and the dumped pages by file number. */
  datatype AppLog = AppLog(count: nat, live: seq<Record>, pages: map<int, seq<Record>>)

  const EMPTY := AppLog(0, [], map[])

  /** What `record_get` comes back with; parsing a record that is not there is a TypeError. */
  datatype Answer = Found(record: Record) | Nothing | TypeError

  // ---------------------------------------------------------------------------------------
  // Page arithmetic
  // ---------------------------------------------------------------------------------------

  /** `math.ceil(identifier / max_size)`. */
  function PageOf(identifier: int, maxSize: nat): int
    requires maxSize >= 1
  {
    (identifier + maxSize - 1) / maxSize
  }

  /** `_map_identifier`: the page's last id, and the index within the page (-1 for its last record). */
  function MapIdentifier(identifier: int, maxSize: nat): (int, int)
    requires maxSize >= 1
  {
    (PageOf(identifier, maxSize) * maxSize, identifier % maxSize - 1)
  }

  lemma PageBounds(identifier: int, maxSize: nat)
    requires maxSize >= 1
    ensures (PageOf(identifier, maxSize) - 1) * maxSize < identifier <= PageOf(identifier, maxSize) * maxSize
  {
    var n := identifier + maxSize - 1;
    assert n == (n / maxSize) * maxSize + n % maxSize;
    assert (PageOf(identifier, maxSize) - 1) * maxSize == PageOf(identifier, maxSize) * maxSize - maxSize;
  }

  lemma PageUnique(identifier: int, maxSize: nat, k: int)
    requires maxSize >= 1 && (k - 1) * maxSize < identifier <= k * maxSize
    ensures PageOf(identifier, maxSize) == k
  {
    var p := PageOf(identifier, maxSize);
    PageBounds(identifier, maxSize);
    if p < k { ProductMonotone(p, k - 1, maxSize); }
    if k < p { ProductMonotone(k, p - 1, maxSize); }
  }

  lemma ProductMonotone(a: int, b: int, m: nat)
    requires a <= b
    ensures a * m <= b * m
  {}

  /** The index within a page: -1 stands for the last record of a full page. */
  lemma IndexInPage(identifier: int, maxSize: nat)
    requires maxSize >= 1
    ensures var k, (part, index) := PageOf(identifier, maxSize), MapIdentifier(identifier, maxSize);
      index == if identifier == part then -1 else identifier - (k - 1) * maxSize - 1
  {
    var k := PageOf(identifier, maxSize);
    PageBounds(identifier, maxSize);
    var r := identifier - (k - 1) * maxSize;
    assert k * maxSize == (k - 1) * maxSize + maxSize;
    if r == maxSize {
      RemainderIs(identifier, k, 0, maxSize);
    } else {
      RemainderIs(identifier, k - 1, r, maxSize);
    }
  }

  lemma RemainderIs(n: int, q: int, r: int, m: nat)
    requires n == q * m + r && 0 <= r < m
    ensures n % m == r
  {
    var d := n / m - q;
    assert n == (n / m) * m + n % m;
    assert d * m == r - n % m by { assert (n / m) * m - q * m == d * m; }
    if d >= 1 { ProductMonotone(1, d, m); }
    if d <= -1 { ProductMonotone(d, -1, m); }
  }

  /** `lindex` and Python indexing: negative indexes count from the end. */
  function At(list: seq<Record>, index: int): Option<Record> {
    if 0 <= index < |list| then Some(list[index])
    else if -|list| <= index < 0 then Some(list[|list| + index])
    else None
  }

  // ---------------------------------------------------------------------------------------
  // The handler
  // ---------------------------------------------------------------------------------------

  /** The log after one more message. */
  function Handled(log: AppLog, message: string, maxSize: nat, dump: bool): AppLog
    requires maxSize >= 1
  {
    var id := log.count + 1;
    var pushed := log.live + [Record(id, message)];
    if |pushed| <= maxSize then AppLog(id, pushed, log.pages)
    else
      var part := MapIdentifier(id - 1, maxSize).0;
      AppLog(id, pushed[maxSize..], if dump then log.pages[part := pushed[..maxSize]] else log.pages)
  }

  /** The log after a run of messages, oldest first, from an empty log. */
  function Run(messages: seq<string>, maxSize: nat, dump: bool): AppLog
    requires maxSize >= 1
  {
    if messages == [] then EMPTY
    else Handled(Run(messages[..|messages| - 1], maxSize, dump), messages[|messages| - 1], maxSize, dump)
  }

  /** What `record_get` answers. */
  function Lookup(log: AppLog, identifier: int, maxSize: nat, dump: bool): Answer
    requires maxSize >= 1
  {
    var (part, index) := MapIdentifier(identifier, maxSize);
    if identifier > log.count then Nothing
    else if part > log.count - maxSize then
      var found := At(log.live, index);
      if found.None? then TypeError else Found(found.value)
    else if dump && part in log.pages && log.pages[part] != [] && |log.pages[part]| > index then
      var found := At(log.pages[part], index);
      if found.None? then Nothing else Found(found.value)
    else Nothing
  }

  class RedisLogHandler {
    const maxSize: nat
    const dump: bool
    var counters: map<string, nat>
    var lists: map<string, seq<Record>>
    var files: map<string, map<int, seq<Record>>>

    ghost predicate Valid()
    {
      maxSize >= 1
    }

    constructor (maxSize: nat, dump: bool)
      requires maxSize >= 1
      ensures Valid() && this.maxSize == maxSize && this.dump == dump
      ensures forall app :: Log(app) == EMPTY
    {
      this.maxSize, this.dump := maxSize, dump;
      counters, lists, files := map[], map[], map[];
    }

    /** The application's part of the database; missing keys read as empty. */
    ghost function Log(app: string): AppLog
      reads this
    {
      AppLog(if app in counters then counters[app] else 0,
             if app in lists then lists[app] else [],
             if app in files then files[app] else map[])
    }

    /** `_dump_records`. */
    method DumpRecords(app: string, part: int)
      requires Valid()
      modifies this`files
      ensures Log(app) == old(Log(app)).(pages := old(Log(app)).pages[part :=
        if |old(Log(app)).live| <= maxSize then old(Log(app)).live else old(Log(app)).live[..maxSize]])
      ensures forall other :: other != app ==> Log(other) == old(Log(other))
    {
      var live := if app in lists then lists[app] else [];
      var records := if |live| <= maxSize then live else live[..maxSize];
      var pages := if app in files then files[app] else map[];
      files := files[app := pages[part := records]];
    }

    /** `_clean_up`. */
    method CleanUp(app: string)
      requires Valid()
      modifies this`lists
      ensures Log(app) == old(Log(app)).(live :=
        if |old(Log(app)).live| <= maxSize then [] else old(Log(app)).live[maxSize..])
      ensures forall other :: other != app ==> Log(other) == old(Log(other))
    {
      var live := if app in lists then lists[app] else [];
      lists := lists[app := if |live| <= maxSize then [] else live[maxSize..]];
    }

    /** `_handle`: logs one message of an application; other applications' logs stay as they are. */
    method Handle(app: string, message: string)
      requires Valid()
      modifies this
      ensures Valid()
      ensures Log(app) == Handled(old(Log(app)), message, maxSize, dump)
      ensures forall other :: other != app ==> Log(other) == old(Log(other))
    {
      var id := (if app in counters then counters[app] else 0) + 1;
      counters := counters[app := id];
      var live := (if app in lists then lists[app] else []) + [Record(id, message)];
      lists := lists[app := live];
      if |live| > maxSize {
        if dump {
          var (part, _) := MapIdentifier(id - 1, maxSize);
          DumpRecords(app, part);
        }
        CleanUp(app);
      }
    }

    /** `records_count`. */
    method RecordsCount(app: string) returns (n: nat)
      ensures n == Log(app).count
    {
      n := if app in counters then counters[app] else 0;
    }

    /** `record_get`. */
    method RecordGet(identifier: int, app: string) returns (answer: Answer)
      requires Valid()
      ensures answer == Lookup(Log(app), identifier, maxSize, dump)
    {
      var count := RecordsCount(app);
      var (part, index) := MapIdentifier(identifier, maxSize);
      if identifier > count {
        return Nothing;
      }
      if part > count - maxSize {
        var record := At(if app in lists then lists[app] else [], index);
        return if record.None? then TypeError else Found(record.value);
      }
      if dump {
        if app in files && part in files[app] {
          var records := files[app][part];
          if records != [] && |records| > index {
            var record := At(records, index);
            return if record.None? then Nothing else Found(record.value);
          }
        }
      }
      return Nothing;
    }

    /** `remove_all_records`: the application starts over; files go only when dumping is on. */
    method RemoveAllRecords(app: string)
      requires Valid()
      modifies this
      ensures Valid()
      ensures Log(app) == if dump then EMPTY else EMPTY.(pages := old(Log(app)).pages)
      ensures forall other :: other != app ==> Log(other) == old(Log(other))
    {
      counters := counters - {app};
      lists := lists - {app};
      if dump {
        files := files - {app};
      }
    }
  }

  // ---------------------------------------------------------------------------------------
  // Theorems
  // ---------------------------------------------------------------------------------------

  /** The whole log a run of messages stands for: record i has id i. */
  function Whole(messages: seq<string>): (r: seq<Record>)
    ensures |r| == |messages|
    ensures forall i :: 0 <= i < |r| ==> r[i] == Record(i + 1, messages[i])
  {
    seq(|messages|, i requires 0 <= i < |messages| => Record(i + 1, messages[i]))
  }

  /** The number of pages already moved out of the live list. */
  function FullPages(count: nat, maxSize: nat): nat
    requires maxSize >= 1
  {
    if count == 0 then 0 else (count - 1) / maxSize
  }

  lemma FullPagesBounds(count: nat, maxSize: nat)
    requires maxSize >= 1
    ensures var q := FullPages(count, maxSize);
      0 <= q * maxSize <= count <= q * maxSize + maxSize &&
      (count > 0 ==> q * maxSize < count && q + 1 == PageOf(count, maxSize))
  {
    if count > 0 {
      var q := FullPages(count, maxSize);
      assert count - 1 == q * maxSize + (count - 1) % maxSize;
      assert (q + 1) * maxSize == q * maxSize + maxSize;
      PageUnique(count, maxSize, q + 1);
      ProductMonotone(0, q, maxSize);
    }
  }

  lemma FullPagesUnique(count: nat, maxSize: nat, q: nat)
    requires maxSize >= 1 && q * maxSize < count <= q * maxSize + maxSize
    ensures FullPages(count, maxSize) == q
  {
    var p := FullPages(count, maxSize);
    FullPagesBounds(count, maxSize);
    assert (q + 1 - 1) * maxSize == q * maxSize && (q + 1) * maxSize == q * maxSize + maxSize;
    PageUnique(count, maxSize, q + 1);
  }

  /** How a log of `count` records is laid out: q full pages out, the rest live. */
  ghost predicate LaidOut(log: AppLog, whole: seq<Record>, maxSize: nat, dump: bool)
    requires maxSize >= 1
  {
    var q := FullPages(|whole|, maxSize);
    && log.count == |whole|
    && 0 <= q * maxSize <= |whole|
    && log.live == whole[q * maxSize..]
    && (!dump ==> log.pages == map[])
    && (dump ==> forall part :: part in log.pages <==> IsPage(part, q, maxSize))
    && (dump ==> forall k :: 1 <= k <= q ==> HoldsPage(log.pages, whole, k, maxSize))
  }

  ghost predicate IsPage(part: int, q: nat, maxSize: nat) {
    exists k :: 1 <= k <= q && part == k * maxSize
  }

  /** Page file kM holds the records with ids (k-1)M+1..kM. */
  ghost predicate HoldsPage(pages: map<int, seq<Record>>, whole: seq<Record>, k: int, maxSize: nat) {
    && k * maxSize in pages
    && 0 <= (k - 1) * maxSize <= k * maxSize <= |whole|
    && pages[k * maxSize] == whole[(k - 1) * maxSize..k * maxSize]
  }

  lemma LaidOutStep(log: AppLog, whole: seq<Record>, message: string, maxSize: nat, dump: bool)
    requires maxSize >= 1 && LaidOut(log, whole, maxSize, dump)
    ensures LaidOut(Handled(log, message, maxSize, dump), whole + [Record(|whole| + 1, message)], maxSize, dump)
  {
    var q := FullPages(|whole|, maxSize);
    FullPagesBounds(|whole|, maxSize);
    if |whole| + 1 - q * maxSize <= maxSize {
      StepOnPage(log, whole, message, maxSize, dump, q);
    } else {
      StepToNextPage(log, whole, message, maxSize, dump, q);
    }
  }

  /** The page has room: the record joins the live list. */
  lemma StepOnPage(log: AppLog, whole: seq<Record>, message: string, maxSize: nat, dump: bool, q: nat)
    requires maxSize >= 1 && LaidOut(log, whole, maxSize, dump) && q == FullPages(|whole|, maxSize)
    requires 0 <= q * maxSize <= |whole| && |whole| + 1 - q * maxSize <= maxSize
    ensures LaidOut(Handled(log, message, maxSize, dump), whole + [Record(|whole| + 1, message)], maxSize, dump)
  {
    var more, after := whole + [Record(|whole| + 1, message)], Handled(log, message, maxSize, dump);
    FullPagesUnique(|more|, maxSize, q);
    assert after.live == more[q * maxSize..] && after.pages == log.pages;
    if dump {
      forall k | 1 <= k <= q ensures HoldsPage(after.pages, more, k, maxSize) {
        assert HoldsPage(log.pages, whole, k, maxSize);
      }
    }
  }

  /** The page is full: it is dumped, and the record starts the next one. */
  lemma StepToNextPage(log: AppLog, whole: seq<Record>, message: string, maxSize: nat, dump: bool, q: nat)
    requires maxSize >= 1 && LaidOut(log, whole, maxSize, dump) && q == FullPages(|whole|, maxSize)
    requires 0 <= q * maxSize <= |whole| <= q * maxSize + maxSize && |whole| + 1 - q * maxSize > maxSize
    ensures LaidOut(Handled(log, message, maxSize, dump), whole + [Record(|whole| + 1, message)], maxSize, dump)
  {
    var more, after := whole + [Record(|whole| + 1, message)], Handled(log, message, maxSize, dump);
    assert (q + 1) * maxSize == q * maxSize + maxSize == |whole|;
    FullPagesUnique(|more|, maxSize, q + 1);
    PageUnique(|whole|, maxSize, q + 1);
    NextPage(log, whole, message, maxSize, dump, q * maxSize);
    if dump { DumpedPage(log, whole, more, q, maxSize, after); }
  }

  /** The live list starting after id `start` is full: it goes to its page, the new record stays. */
  lemma NextPage(log: AppLog, whole: seq<Record>, message: string, maxSize: nat, dump: bool, start: nat)
    requires maxSize >= 1 && log.count == |whole| == start + maxSize && log.live == whole[start..]
    requires MapIdentifier(|whole|, maxSize).0 == |whole|
    ensures var more, after := whole + [Record(|whole| + 1, message)], Handled(log, message, maxSize, dump);
      && after.count == |more| && after.live == more[|whole|..]
      && after.pages == if dump then log.pages[|whole| := more[start..|whole|]] else log.pages
  {
    var more, pushed := whole + [Record(|whole| + 1, message)], log.live + [Record(|whole| + 1, message)];
    assert pushed == more[start..];
    assert pushed[maxSize..] == more[|whole|..] && pushed[..maxSize] == more[start..|whole|];
  }

  /** The page dumped when the live list overflows takes its place after the others. */
  lemma DumpedPage(log: AppLog, whole: seq<Record>, more: seq<Record>, q: nat, maxSize: nat, after: AppLog)
    requires maxSize >= 1 && LaidOut(log, whole, maxSize, true) && q == FullPages(|whole|, maxSize)
    requires |whole| == (q + 1) * maxSize && whole <= more && 0 <= q * maxSize <= |whole|
    requires after.pages == log.pages[(q + 1) * maxSize := more[q * maxSize..(q + 1) * maxSize]]
    ensures forall part :: part in after.pages <==> IsPage(part, q + 1, maxSize)
    ensures forall k :: 1 <= k <= q + 1 ==> HoldsPage(after.pages, more, k, maxSize)
  {
    forall part ensures part in after.pages <==> IsPage(part, q + 1, maxSize) {
      if IsPage(part, q, maxSize) {
        var k :| 1 <= k <= q && part == k * maxSize;
        assert 1 <= k <= q + 1;
      }
      if part == (q + 1) * maxSize {
        assert IsPage(part, q + 1, maxSize);
      } else if IsPage(part, q + 1, maxSize) {
        var k :| 1 <= k <= q + 1 && part == k * maxSize;
        assert k <= q;
      }
    }
    forall k | 1 <= k <= q + 1 ensures HoldsPage(after.pages, more, k, maxSize) {
      if k <= q {
        assert HoldsPage(log.pages, whole, k, maxSize);
        DifferentPages(k, q + 1, maxSize);
      } else {
        assert (k - 1) * maxSize == q * maxSize;
      }
    }
  }

  lemma DifferentPages(j: int, k: int, m: nat)
    requires m >= 1 && j < k
    ensures j * m < k * m
  {
    ProductMonotone(j, k - 1, m);
    assert (k - 1) * m == k * m - m;
  }

  /** After any run the dumped pages and the live list are laid out page by page. */
  lemma {:induction false} RunLaidOut(messages: seq<string>, maxSize: nat, dump: bool)
    requires maxSize >= 1
    ensures LaidOut(Run(messages, maxSize, dump), Whole(messages), maxSize, dump)
  {
    if messages == [] {
      assert 0 * maxSize == 0;
    } else {
      var front := messages[..|messages| - 1];
      RunLaidOut(front, maxSize, dump);
      LaidOutStep(Run(front, maxSize, dump), Whole(front), messages[|messages| - 1], maxSize, dump);
      assert Whole(messages) == Whole(front) + [Record(|front| + 1, messages[|messages| - 1])];
    }
  }

  /** Pages 1..k, one after the other. */
  function Pages(log: AppLog, k: nat, maxSize: nat): seq<Record> {
    if k == 0 then []
    else Pages(log, k - 1, maxSize) + (if k * maxSize in log.pages then log.pages[k * maxSize] else [])
  }

  lemma {:induction false} PagesArePrefix(log: AppLog, whole: seq<Record>, k: nat, maxSize: nat)
    requires maxSize >= 1 && LaidOut(log, whole, maxSize, true) && k <= FullPages(|whole|, maxSize)
    ensures 0 <= k * maxSize <= |whole| && Pages(log, k, maxSize) == whole[..k * maxSize]
  {
    if k == 0 {
      assert k * maxSize == 0;
    } else {
      PagesArePrefix(log, whole, k - 1, maxSize);
      assert HoldsPage(log.pages, whole, k, maxSize);
      assert whole[..(k - 1) * maxSize] + whole[(k - 1) * maxSize..k * maxSize] == whole[..k * maxSize];
    }
  }

  /** Nothing is lost: with dumping on, the dumped pages in order followed by the live list are the
      whole log, and the live list has 1 to M records. */
  lemma NothingLost(messages: seq<string>, maxSize: nat)
    requires maxSize >= 1 && messages != []
    ensures var log, c := Run(messages, maxSize, true), |messages|;
      && log.count == c
      && Pages(log, FullPages(c, maxSize), maxSize) + log.live == Whole(messages)
      && 1 <= |log.live| <= maxSize
  {
    var log, c, whole := Run(messages, maxSize, true), |messages|, Whole(messages);
    var q := FullPages(c, maxSize);
    RunLaidOut(messages, maxSize, true);
    FullPagesBounds(c, maxSize);
    PagesArePrefix(log, whole, q, maxSize);
    assert whole[..q * maxSize] + whole[q * maxSize..] == whole;
  }

  /** Page file kM exists exactly when more than kM records were logged, holds ids (k-1)M+1..kM,
      and there are no other files. */
  lemma PageFiles(messages: seq<string>, maxSize: nat, k: int)
    requires maxSize >= 1 && messages != [] && k >= 1
    ensures k * maxSize in Run(messages, maxSize, true).pages <==> |messages| > k * maxSize
    ensures |messages| > k * maxSize ==> HoldsPage(Run(messages, maxSize, true).pages, Whole(messages), k, maxSize)
    ensures forall part :: part in Run(messages, maxSize, true).pages ==> exists j :: j >= 1 && part == j * maxSize
  {
    var log, c := Run(messages, maxSize, true), |messages|;
    var q := FullPages(c, maxSize);
    RunLaidOut(messages, maxSize, true);
    FullPagesBounds(c, maxSize);
    PageExists(log, c, q, k, maxSize);
    forall part | part in log.pages ensures exists j :: j >= 1 && part == j * maxSize {
      var j :| 1 <= j <= q && part == j * maxSize;
    }
  }

  lemma PageExists(log: AppLog, c: nat, q: nat, k: int, maxSize: nat)
    requires maxSize >= 1 && k >= 1
    requires q * maxSize < c <= q * maxSize + maxSize
    requires forall part :: part in log.pages <==> IsPage(part, q, maxSize)
    ensures k * maxSize in log.pages <==> c > k * maxSize
    ensures c > k * maxSize <==> k <= q
  {
    if k <= q {
      ProductMonotone(k, q, maxSize);
      assert IsPage(k * maxSize, q, maxSize);
    } else {
      ProductMonotone(q + 1, k, maxSize);
      assert (q + 1) * maxSize == q * maxSize + maxSize;
      if IsPage(k * maxSize, q, maxSize) {
        var j :| 1 <= j <= q && k * maxSize == j * maxSize;
        DifferentPages(j, k, maxSize);
      }
    }
  }

  /** Whether the record with this id can still be read: it is on the current page, or its page ends
      at least a page size before the newest record. */
  predicate Readable(identifier: int, count: nat, maxSize: nat)
    requires maxSize >= 1
  {
    PageOf(identifier, maxSize) == PageOf(count, maxSize) || PageOf(identifier, maxSize) * maxSize <= count - maxSize
  }

  /** With dumping on, `record_get(i)` answers with record i exactly when i is readable. */
  lemma LookupExact(messages: seq<string>, maxSize: nat, i: int)
    requires maxSize >= 1 && 1 <= i <= |messages|
    ensures Lookup(Run(messages, maxSize, true), i, maxSize, true) == Found(Whole(messages)[i - 1])
       <==> Readable(i, |messages|, maxSize)
  {
    var log, whole := Run(messages, maxSize, true), Whole(messages);
    RunLaidOut(messages, maxSize, true);
    PageIsOut(i, |messages|, maxSize);
    if PageOf(i, maxSize) == PageOf(|messages|, maxSize) {
      LookupCurrentPage(log, whole, maxSize, i, true);
    } else {
      LookupOldPage(log, whole, maxSize, i);
    }
  }

  /** The ids that cannot be read back are those of the page before the current one, while the current
      one is partly full. */
  lemma Unreadable(i: int, c: nat, maxSize: nat)
    requires maxSize >= 1 && 1 <= i <= c
    ensures !Readable(i, c, maxSize) <==> PageOf(i, maxSize) == PageOf(c, maxSize) - 1 && c % maxSize != 0
  {
    var q, k := FullPages(c, maxSize), PageOf(i, maxSize);
    PageIsOut(i, c, maxSize);
    FullPagesBounds(c, maxSize);
    assert (q - 1) * maxSize == q * maxSize - maxSize;
    if k < q { ProductMonotone(k, q - 1, maxSize); }
    PartlyFull(c, maxSize);
  }

  /** The count divides into full pages exactly when the current page is full. */
  lemma PartlyFull(c: nat, maxSize: nat)
    requires maxSize >= 1 && c >= 1
    ensures c % maxSize == 0 <==> c == FullPages(c, maxSize) * maxSize + maxSize
  {
    var q := FullPages(c, maxSize);
    FullPagesBounds(c, maxSize);
    assert (q + 1) * maxSize == q * maxSize + maxSize;
    if c == q * maxSize + maxSize {
      RemainderIs(c, q + 1, 0, maxSize);
    } else {
      RemainderIs(c, q, c - q * maxSize, maxSize);
    }
  }

  /** The count is the number of messages logged. */
  lemma RunCount(messages: seq<string>, maxSize: nat, dump: bool)
    requires maxSize >= 1
    ensures Run(messages, maxSize, dump).count == |messages|
  {
    RunLaidOut(messages, maxSize, dump);
  }

  /** An id above the count answers nothing. */
  lemma LookupBeyond(messages: seq<string>, maxSize: nat, i: int, dump: bool)
    requires maxSize >= 1 && i > |messages|
    ensures Lookup(Run(messages, maxSize, dump), i, maxSize, dump) == Nothing
  {
    RunCount(messages, maxSize, dump);
  }

  /** With dumping off, `record_get(i)` answers with record i exactly on the current page, and with
      nothing on a page that ended at least a page size before the newest record. */
  lemma LookupWithoutDump(messages: seq<string>, maxSize: nat, i: int)
    requires maxSize >= 1 && 1 <= i <= |messages|
    ensures Lookup(Run(messages, maxSize, false), i, maxSize, false) == Found(Whole(messages)[i - 1])
       <==> PageOf(i, maxSize) == PageOf(|messages|, maxSize)
    ensures PageOf(i, maxSize) != PageOf(|messages|, maxSize) && Readable(i, |messages|, maxSize) ==>
      Lookup(Run(messages, maxSize, false), i, maxSize, false) == Nothing
  {
    var log, whole := Run(messages, maxSize, false), Whole(messages);
    RunLaidOut(messages, maxSize, false);
    PageIsOut(i, |messages|, maxSize);
    if PageOf(i, maxSize) == PageOf(|messages|, maxSize) {
      LookupCurrentPage(log, whole, maxSize, i, false);
    } else if !Readable(i, |messages|, maxSize) {
      LookupWrong(messages, maxSize, i, false);
    } else {
      MapsToPage(i, maxSize);
    }
  }

  /** What is answered for an id that cannot be read back, with dumping on or off: the record a page
      size later, the newest one for the last id of the page, or a TypeError when there is none. */
  lemma LookupWrong(messages: seq<string>, maxSize: nat, i: int, dump: bool)
    requires maxSize >= 1 && 1 <= i <= |messages| && !Readable(i, |messages|, maxSize)
    ensures var c, whole := |messages|, Whole(messages);
      Lookup(Run(messages, maxSize, dump), i, maxSize, dump) ==
        if i == PageOf(i, maxSize) * maxSize then Found(whole[c - 1])
        else if i + maxSize <= c then Found(whole[i + maxSize - 1])
        else TypeError
  {
    var log, whole := Run(messages, maxSize, dump), Whole(messages);
    var q, k := FullPages(|messages|, maxSize), PageOf(i, maxSize);
    RunLaidOut(messages, maxSize, dump);
    PageIsOut(i, |messages|, maxSize);
    Unreadable(i, |messages|, maxSize);
    FullPagesBounds(|messages|, maxSize);
    MapsToPage(i, maxSize);
    assert (q - 1) * maxSize + maxSize == q * maxSize && k == q;
    WrongEntry(log, whole, maxSize, i, q * maxSize, dump);
  }

  lemma WrongEntry(log: AppLog, whole: seq<Record>, maxSize: nat, i: int, end: int, dump: bool)
    requires maxSize >= 1 && MapsTo(i, maxSize, end - maxSize) && 0 < i <= end < |whole| && |whole| - maxSize < end
    requires log.count == |whole| && log.live == whole[end..]
    ensures Lookup(log, i, maxSize, dump) ==
      if i == end then Found(whole[|whole| - 1])
      else if i + maxSize <= |whole| then Found(whole[i + maxSize - 1])
      else TypeError
  {}

  /** An id in the log is on the current page or on one of the pages before it. */
  lemma PageIsOut(i: int, c: nat, maxSize: nat)
    requires maxSize >= 1 && 1 <= i <= c
    ensures PageOf(c, maxSize) == FullPages(c, maxSize) + 1
    ensures 1 <= PageOf(i, maxSize) <= FullPages(c, maxSize) + 1
  {
    var q, k := FullPages(c, maxSize), PageOf(i, maxSize);
    FullPagesBounds(c, maxSize);
    PageBounds(i, maxSize);
    assert (q + 1) * maxSize == q * maxSize + maxSize;
    if k > q + 1 { ProductMonotone(q + 1, k - 1, maxSize); }
    if k < 1 { ProductMonotone(k, 0, maxSize); }
  }

  /** Where an id is looked for: on the page of ids base+1..base+M, at the mapped index. */
  ghost predicate MapsTo(i: int, maxSize: nat, base: int)
    requires maxSize >= 1
  {
    base < i <= base + maxSize &&
    MapIdentifier(i, maxSize) == (base + maxSize, if i == base + maxSize then -1 else i - base - 1)
  }

  lemma MapsToPage(i: int, maxSize: nat)
    requires maxSize >= 1
    ensures MapsTo(i, maxSize, (PageOf(i, maxSize) - 1) * maxSize)
  {
    PageBounds(i, maxSize);
    IndexInPage(i, maxSize);
    assert PageOf(i, maxSize) * maxSize == (PageOf(i, maxSize) - 1) * maxSize + maxSize;
  }

  /** The mapped index finds the record in the list that starts after id `base` and ends no later than
      the page does. */
  lemma PageEntry(list: seq<Record>, whole: seq<Record>, base: int, maxSize: nat, i: int)
    requires 0 <= base < i <= base + |list| <= |whole| && |list| <= maxSize
    requires list == whole[base..base + |list|]
    ensures At(list, if i == base + maxSize then -1 else i - base - 1) == Some(whole[i - 1])
  {}

  /** On the current page the live list has the record at the mapped index. */
  lemma LookupLive(log: AppLog, whole: seq<Record>, maxSize: nat, i: int, base: int, dump: bool)
    requires maxSize >= 1 && MapsTo(i, maxSize, base) && 0 <= base && i <= |whole| <= base + maxSize
    requires log.count == |whole| && log.live == whole[base..]
    ensures Lookup(log, i, maxSize, dump) == Found(whole[i - 1])
  {
    assert log.live == whole[base..base + |log.live|];
    PageEntry(log.live, whole, base, maxSize, i);
  }

  /** On a page that ended at least a page size ago the page file has it. */
  lemma LookupFile(log: AppLog, whole: seq<Record>, maxSize: nat, i: int, base: int)
    requires maxSize >= 1 && MapsTo(i, maxSize, base) && 0 <= base && base + maxSize <= |whole| - maxSize
    requires log.count == |whole|
    requires base + maxSize in log.pages && log.pages[base + maxSize] == whole[base..base + maxSize]
    ensures Lookup(log, i, maxSize, true) == Found(whole[i - 1])
  {
    PageEntry(log.pages[base + maxSize], whole, base, maxSize, i);
  }

  /** A page that ended more recently is looked for in the live list, which has only later records. */
  lemma LookupTooRecent(log: AppLog, whole: seq<Record>, maxSize: nat, i: int, base: int, liveBase: int)
    requires maxSize >= 1 && MapsTo(i, maxSize, base) && |whole| - maxSize < base + maxSize <= liveBase <= |whole|
    requires 1 <= i && log.count == |whole| && log.live == whole[liveBase..]
    requires forall j :: 0 <= j < |whole| ==> whole[j].id == j + 1
    ensures Lookup(log, i, maxSize, true) != Found(whole[i - 1])
  {
    OtherRecords(log.live, whole, liveBase, MapIdentifier(i, maxSize).1, i);
  }

  lemma LookupCurrentPage(log: AppLog, whole: seq<Record>, maxSize: nat, i: int, dump: bool)
    requires maxSize >= 1 && 1 <= i <= |whole| && LaidOut(log, whole, maxSize, dump)
    requires PageOf(i, maxSize) == FullPages(|whole|, maxSize) + 1
    ensures Lookup(log, i, maxSize, dump) == Found(whole[i - 1])
  {
    FullPagesBounds(|whole|, maxSize);
    MapsToPage(i, maxSize);
    LookupLive(log, whole, maxSize, i, FullPages(|whole|, maxSize) * maxSize, dump);
  }

  /** On an earlier page the record comes from the page file, unless the page is so recent that the
      handler looks in the live list instead. */
  lemma LookupOldPage(log: AppLog, whole: seq<Record>, maxSize: nat, i: int)
    requires maxSize >= 1 && 1 <= i <= |whole| && LaidOut(log, whole, maxSize, true)
    requires forall j :: 0 <= j < |whole| ==> whole[j].id == j + 1
    requires 1 <= PageOf(i, maxSize) <= FullPages(|whole|, maxSize)
    ensures Lookup(log, i, maxSize, true) == Found(whole[i - 1]) <==> PageOf(i, maxSize) * maxSize <= |whole| - maxSize
  {
    var q, k := FullPages(|whole|, maxSize), PageOf(i, maxSize);
    FullPagesBounds(|whole|, maxSize);
    MapsToPage(i, maxSize);
    ProductMonotone(k, q, maxSize);
    assert HoldsPage(log.pages, whole, k, maxSize);
    var base := (k - 1) * maxSize;
    assert k * maxSize == base + maxSize;
    if k * maxSize <= |whole| - maxSize {
      LookupFile(log, whole, maxSize, i, base);
    } else {
      LookupTooRecent(log, whole, maxSize, i, base, q * maxSize);
    }
  }

  /** Nothing in the live list is a record before it. */
  lemma OtherRecords(live: seq<Record>, whole: seq<Record>, base: int, index: int, i: int)
    requires 0 <= base <= |whole| && live == whole[base..] && 1 <= i <= base
    requires forall j :: 0 <= j < |whole| ==> whole[j].id == j + 1
    ensures At(live, index) != Some(whole[i - 1])
  {
    var found := At(live, index);
    assert found.Some? ==> found.value in live && found.value.id > base;
  }

  /** Every record can be read back exactly when the current page is full or is the only one. */
  lemma AllReadable(messages: seq<string>, maxSize: nat)
    requires maxSize >= 1 && messages != []
    ensures (forall i :: 1 <= i <= |messages| ==>
               Lookup(Run(messages, maxSize, true), i, maxSize, true) == Found(Whole(messages)[i - 1]))
       <==> (|messages| % maxSize == 0 || |messages| <= maxSize)
  {
    var log, c := Run(messages, maxSize, true), |messages|;
    var q := FullPages(c, maxSize);
    FullPagesBounds(c, maxSize);
    assert (q + 1) * maxSize == q * maxSize + maxSize;
    if c % maxSize == 0 || c <= maxSize {
      forall i | 1 <= i <= c ensures Lookup(log, i, maxSize, true) == Found(Whole(messages)[i - 1]) {
        LookupExact(messages, maxSize, i);
        AllPagesReadable(c, maxSize, i);
      }
    } else {
      var i := q * maxSize;
      assert q != 0;
      ProductMonotone(1, q, maxSize);
      LookupExact(messages, maxSize, i);
      assert (q - 1) * maxSize == i - maxSize;
      PageUnique(i, maxSize, q);
      if c == q * maxSize + maxSize { RemainderIs(c, q + 1, 0, maxSize); }
    }
  }

  lemma AllPagesReadable(c: nat, maxSize: nat, i: int)
    requires maxSize >= 1 && 1 <= i <= c && (c % maxSize == 0 || c <= maxSize)
    ensures Readable(i, c, maxSize)
  {
    var k, p := PageOf(i, maxSize), PageOf(c, maxSize);
    PageBounds(i, maxSize);
    PageBounds(c, maxSize);
    if k > p { ProductMonotone(p, k - 1, maxSize); }
    if k < p {
      ProductMonotone(k, p - 1, maxSize);
      assert (p - 1) * maxSize == p * maxSize - maxSize;
      if c <= maxSize {
        if p >= 2 { ProductMonotone(1, p - 1, maxSize); }
        if k <= 0 { ProductMonotone(k, 0, maxSize); }
      } else {
        IndexInPage(c, maxSize);
      }
    }
  }
}
