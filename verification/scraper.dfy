/**
 The regexlib scraper (scraper.py): the cleaning of one scraped table cell
 into a `category,regex` CSV row, the row filtering of `scrape_html`, the
 download-path scheme and its inverse, the per-worker drain, and the
 coordinator's merge of the batches it receives.
 */
module Scraper {
  import opened Wrappers
  import opened Seqs
  import opened Text
  import opened WorkQueue

  /** A CSV row: the dict handed to `csv.DictWriter`, keyed by column name. */
  type Row = map<string, string>

  /**
   The second cell of a `<tr class="expression">` as lxml exposes it.
   `scraped_regex[0]` raises IndexError when the cell has no child element
   (`NoChild`); the child's `.text` is None when it has no leading text.
   */
  datatype Cell = NoChild | FirstChild(text: Option<string>)

  /**
   `HTMLParser().unescape`, whose behaviour is outside this model, as an
   arbitrary function; `None` means the call raised.
   */
  type Unescape = string -> Option<string>

  /** A (category, html filename) pair taken from the task queue. */
  datatype Item = Item(category: string, filename: string)

  /**
   The parsed regex cells of every html file that can be opened and parsed;
   a file missing here is one whose `open` or `html.fromstring` raises.
   */
  type Documents = map<string, seq<Cell>>

  const CategoryKey: string := "category"
  const RegexKey: string := "regex"

  predicate IsQuoted(s: string)
  {
    |s| >= 1 && s[0] == '"' && s[|s| - 1] == '"'
  }

  /**
   Removal of one optional pair of surrounding double quotes. Python's
   `s[1:-1]` is empty for a one-character string, so a lone `"` becomes empty.
   */
  function StripQuotes(s: string): (r: string)
    ensures IsQuoted(s) ==> (s == "\"" && r == "") || s == "\"" + r + "\""
    ensures !IsQuoted(s) ==> r == s
    ensures multiset(r) <= multiset(s)
  {
    if IsQuoted(s) then
      if |s| >= 2 then
        var inner := s[1..|s| - 1];
        assert s == [s[0]] + inner + [s[|s| - 1]];
        assert [s[0]] == "\"" && [s[|s| - 1]] == "\"";
        inner
      else
        assert s == [s[0]];
        ""
    else s
  }

  /** Quoting and then stripping gives back the text: exactly one layer is removed. */
  lemma StripQuotesOfQuoted(t: string)
    ensures StripQuotes("\"" + t + "\"") == t
  {
    var s := "\"" + t + "\"";
    assert IsQuoted(s);
    assert s[1..|s| - 1] == t;
  }

  /** Stripping is not repeated: a doubly quoted text keeps its inner quotes. */
  lemma StripQuotesOnce()
    ensures StripQuotes("\"\"x\"\"") == "\"x\""
  {
    StripQuotesOfQuoted("\"x\"");
    assert "\"\"x\"\"" == "\"" + "\"x\"" + "\"";
  }

  /** The cell text after extraction, the utf-8 round trip and unescaping, or `None` if any of them raised. */
  function CellText(cell: Cell, unescape: Unescape): (r: Option<string>)
    ensures r.Some? <==> cell.FirstChild? && cell.text.Some? && unescape(cell.text.value).Some?
    ensures r.Some? ==> r == unescape(cell.text.value)
  {
    match cell
    case NoChild => None
    case FirstChild(None) => None
    case FirstChild(Some(t)) => unescape(t)
  }

  /**
   The cleaning of scraper.py:86-89: every space deleted, then one pair of
   surrounding double quotes removed.
   */
  function CleanRegex(unescaped: string): (r: string)
    ensures var t := Remove(unescaped, ' ');
            if IsQuoted(t) then (t == "\"" && r == "") || t == "\"" + r + "\"" else r == t
    ensures ' ' !in r
    ensures multiset(r) <= multiset(unescaped)
  {
    var spaceless := Remove(unescaped, ' ');
    var r := StripQuotes(spaceless);
    assert multiset(spaceless)[' '] == 0;
    assert ' ' !in multiset(r);
    r
  }

  /**
   `to_csv_row`: a row for a cell whose text can be read and has no newline,
   holding the category and the cleaned text; `None` otherwise.
   */
  function ToCsvRow(category: string, cell: Cell, unescape: Unescape): (r: Option<Row>)
    ensures r.None? <==> CellText(cell, unescape).None? || '\n' in CellText(cell, unescape).value
    ensures r.Some? ==> r.value.Keys == {CategoryKey, RegexKey} && r.value[CategoryKey] == category
    ensures r.Some? ==> r.value[RegexKey] == CleanRegex(CellText(cell, unescape).value)
    ensures r.Some? ==> ' ' !in r.value[RegexKey] && '\n' !in r.value[RegexKey]
    ensures r.Some? ==> multiset(r.value[RegexKey]) <= multiset(CellText(cell, unescape).value)
  {
    match CellText(cell, unescape)
    case None => None
    case Some(unescaped) =>
      if '\n' in unescaped then None
      else
        var clean := CleanRegex(unescaped);
        assert '\n' !in multiset(unescaped);
        assert '\n' !in multiset(clean);
        Some(map[CategoryKey := category][RegexKey := clean])
  }

  /** A cell whose unescaped text is already clean (no space, no newline, not quoted) is stored verbatim. */
  lemma ToCsvRowKeepsCleanText(category: string, raw: string, unescape: Unescape, t: string)
    requires unescape(raw) == Some(t)
    requires ' ' !in t && '\n' !in t && !IsQuoted(t)
    ensures ToCsvRow(category, FirstChild(Some(raw)), unescape).Some?
    ensures ToCsvRow(category, FirstChild(Some(raw)), unescape).value[RegexKey] == t
  {
    RemoveAbsent(t, ' ');
  }

  /** Cleaning a quoted text removes the quotes and the spaces, and nothing else. */
  lemma CleanRegexOfQuoted(t: string)
    ensures CleanRegex("\"" + t + "\"") == Remove(t, ' ')
  {
    var q := "\"";
    RemoveAppend(q + t, q, ' ');
    RemoveAppend(q, t, ' ');
    RemoveAbsent(q, ' ');
    assert Remove(q + t + q, ' ') == q + Remove(t, ' ') + q;
    StripQuotesOfQuoted(Remove(t, ' '));
  }

  lemma QuotingAddsNoNewline(t: string)
    requires '\n' !in t
    ensures '\n' !in "\"" + t + "\""
  {
  }

  /** A cell whose unescaped text is quoted loses the quotes and its spaces, and nothing else. */
  lemma ToCsvRowUnquotes(category: string, raw: string, unescape: Unescape, t: string)
    requires unescape(raw) == Some("\"" + t + "\"")
    requires '\n' !in t
    ensures ToCsvRow(category, FirstChild(Some(raw)), unescape).Some?
    ensures ToCsvRow(category, FirstChild(Some(raw)), unescape).value[RegexKey] == Remove(t, ' ')
  {
    var s := "\"" + t + "\"";
    CleanRegexOfQuoted(t);
    QuotingAddsNoNewline(t);
    assert CellText(FirstChild(Some(raw)), unescape) == Some(s);
  }

  function CellToRow(category: string, unescape: Unescape): Cell -> Option<Row>
  {
    cell => ToCsvRow(category, cell, unescape)
  }

  /** The rows `scrape_html` keeps for a page: the non-None `to_csv_row` results, in cell order. */
  function RowsOf(category: string, cells: seq<Cell>, unescape: Unescape): (r: seq<Row>)
    ensures |r| <= |cells|
  {
    Somes(MapSeq(CellToRow(category, unescape), cells))
  }

  /** Scraping one more cell appends its row, if any, to the rows kept so far. */
  lemma RowsOfSnoc(category: string, cells: seq<Cell>, unescape: Unescape, i: nat)
    requires i < |cells|
    ensures RowsOf(category, cells[..i + 1], unescape)
            == RowsOf(category, cells[..i], unescape)
               + (match ToCsvRow(category, cells[i], unescape) case Some(row) => [row] case None => [])
  {
    var f := CellToRow(category, unescape);
    var after := MapSeq(f, cells[..i + 1]);
    assert after[..i] == MapSeq(f, cells[..i]);
    assert after[i] == ToCsvRow(category, cells[i], unescape);
  }

  /** Every kept row carries the page's category; every row `to_csv_row` produced is kept. */
  lemma RowsOfShape(category: string, cells: seq<Cell>, unescape: Unescape)
    ensures forall j :: 0 <= j < |RowsOf(category, cells, unescape)| ==>
              RowsOf(category, cells, unescape)[j].Keys == {CategoryKey, RegexKey}
              && RowsOf(category, cells, unescape)[j][CategoryKey] == category
    ensures forall i :: 0 <= i < |cells| && ToCsvRow(category, cells[i], unescape).Some? ==>
              ToCsvRow(category, cells[i], unescape).value in RowsOf(category, cells, unescape)
  {
    var mapped := MapSeq(CellToRow(category, unescape), cells);
    var rows := Somes(mapped);
    forall j | 0 <= j < |rows|
      ensures rows[j].Keys == {CategoryKey, RegexKey} && rows[j][CategoryKey] == category
    {
      var k :| 0 <= k < |mapped| && mapped[k] == Some(rows[j]);
      assert mapped[k] == ToCsvRow(category, cells[k], unescape);
    }
    forall i | 0 <= i < |cells| && ToCsvRow(category, cells[i], unescape).Some?
      ensures ToCsvRow(category, cells[i], unescape).value in rows
    {
      assert mapped[i] == ToCsvRow(category, cells[i], unescape);
    }
  }

  /** A page yields one row per cell exactly when `to_csv_row` returns a row for every cell. */
  lemma RowsOfAllKept(category: string, cells: seq<Cell>, unescape: Unescape)
    ensures |RowsOf(category, cells, unescape)| == |cells|
            <==> forall i :: 0 <= i < |cells| ==> ToCsvRow(category, cells[i], unescape).Some?
  {
    var mapped := MapSeq(CellToRow(category, unescape), cells);
    assert forall i :: 0 <= i < |cells| ==> mapped[i] == ToCsvRow(category, cells[i], unescape);
  }

  /** The loop of `scrape_html`; a row dict is never empty, so `if csv_row` only drops `None`. */
  method ScrapeHtml(category: string, cells: seq<Cell>, unescape: Unescape) returns (csvRows: seq<Row>)
    ensures csvRows == RowsOf(category, cells, unescape)
    ensures |csvRows| <= |cells|
    ensures forall j :: 0 <= j < |csvRows| ==>
              csvRows[j].Keys == {CategoryKey, RegexKey} && csvRows[j][CategoryKey] == category
    ensures forall i :: 0 <= i < |cells| && ToCsvRow(category, cells[i], unescape).Some? ==>
              ToCsvRow(category, cells[i], unescape).value in csvRows
  {
    csvRows := [];
    var i := 0;
    while i < |cells|
      invariant 0 <= i <= |cells|
      invariant csvRows == RowsOf(category, cells[..i], unescape)
    {
      var row := ToCsvRow(category, cells[i], unescape);
      RowsOfSnoc(category, cells, unescape, i);
      if row.Some? {
        csvRows := csvRows + [row.value];
      }
      i := i + 1;
    }
    assert cells[..i] == cells;
    RowsOfShape(category, cells, unescape);
  }

  const HtmlDir: string := "downloaded_html"

  /** `f.split('/')[1]`, which raises IndexError when `f` has no `/`. */
  function CategoryOf(filename: string): (r: Option<string>)
    ensures r.Some? <==> '/' in filename
    ensures r.Some? ==> '/' !in r.value
  {
    var parts := Split(filename, '/');
    SplitSeveral(filename, '/');
    if |parts| < 2 then None else Some(parts[1])
  }

  /** A page file name `NN.html` holds no `/`. */
  lemma PageFileHasNoSlash(index: nat)
    ensures '/' !in ZeroPad(index, 2) + ".html"
  {
    var file := ZeroPad(index, 2) + ".html";
    forall i | 0 <= i < |file|
      ensures file[i] != '/'
    {
      if i < |ZeroPad(index, 2)| {
        assert IsDigit(ZeroPad(index, 2)[i]);
      }
    }
  }

  /**
   `'downloaded_html/%s/%02d.html' % (category, index)`. For a category
   without `/`, the path splits into exactly the directory, the category and
   the page file, so `f.split('/')[1]` gives back the category.
   */
  function HtmlPath(category: string, index: nat): (r: string)
    ensures '/' !in category ==> Split(r, '/') == [HtmlDir, category, ZeroPad(index, 2) + ".html"]
    ensures '/' !in category ==> CategoryOf(r) == Some(category)
  {
    var file := ZeroPad(index, 2) + ".html";
    var r := HtmlDir + "/" + category + "/" + file;
    if '/' !in category then
      PageFileHasNoSlash(index);
      assert HtmlDir + "/" + category + "/" + file == HtmlDir + ['/'] + category + ['/'] + file;
      SplitThree(HtmlDir, category, file, '/');
      r
    else r
  }

  /** A text splits at most one way into a part ending in `/` and a `/`-free rest. */
  lemma SlashEndedSplit(d1: string, f1: string, d2: string, f2: string)
    requires |d1| > 0 && d1[|d1| - 1] == '/' && '/' !in f1
    requires |d2| > 0 && d2[|d2| - 1] == '/' && '/' !in f2
    requires d1 + f1 == d2 + f2
    ensures d1 == d2 && f1 == f2
  {
    var p := d1 + f1;
    assert p[|d1| - 1] == '/' && p[|d2| - 1] == '/';
    assert forall k :: |d1| <= k < |p| ==> p[k] == f1[k - |d1|] != '/';
    assert forall k :: |d2| <= k < |p| ==> p[k] == f2[k - |d2|] != '/';
    assert f1 == p[|d1|..] == f2;
    assert d1 == p[..|d1|] == d2;
  }

  /**
   Distinct (category, index) pairs get distinct path strings, even for
   categories that contain `/`: the page file holds no `/`, so the last `/`
   of a path marks where its page file starts.
   */
  lemma HtmlPathInjective(c1: string, i1: nat, c2: string, i2: nat)
    ensures HtmlPath(c1, i1) == HtmlPath(c2, i2) ==> c1 == c2 && i1 == i2
  {
    if HtmlPath(c1, i1) == HtmlPath(c2, i2) {
      var f1, f2 := ZeroPad(i1, 2) + ".html", ZeroPad(i2, 2) + ".html";
      var d1, d2 := HtmlDir + "/" + c1 + "/", HtmlDir + "/" + c2 + "/";
      var p := HtmlPath(c1, i1);
      assert p == d1 + f1 && p == d2 + f2;
      PageFileHasNoSlash(i1);
      PageFileHasNoSlash(i2);
      SlashEndedSplit(d1, f1, d2, f2);
      assert c1 == d1[|HtmlDir| + 1..|d1| - 1] == c2;
      assert ZeroPad(i1, 2) == f1[..|f1| - 5] == f2[..|f2| - 5] == ZeroPad(i2, 2);
      ZeroPadInjective(i1, i2, 2);
    }
  }

  /**
   The enqueue loop of `main_task` over the globbed filenames: one item per
   file, labelled with its second path component; `None` when some filename
   has no `/` and `f.split('/')[1]` raises.
   */
  function Enqueue(filenames: seq<string>): (r: Option<seq<Item>>)
    ensures r.Some? <==> forall k :: 0 <= k < |filenames| ==> CategoryOf(filenames[k]).Some?
    ensures r.Some? ==> |r.value| == |filenames|
    ensures r.Some? ==> forall k :: 0 <= k < |filenames| ==>
              r.value[k].filename == filenames[k] && Some(r.value[k].category) == CategoryOf(filenames[k])
  {
    if |filenames| == 0 then Some([])
    else
      var n := |filenames| - 1;
      match Enqueue(filenames[..n])
      case None => None
      case Some(items) =>
        match CategoryOf(filenames[n])
        case None => None
        case Some(category) => Some(items + [Item(category, filenames[n])])
  }

  /**
   Enqueuing downloaded pages labels each with the category it was
   downloaded under, when no category contains `/`.
   */
  lemma EnqueueRecoversCategories(categories: seq<string>, indices: seq<nat>)
    requires |categories| == |indices|
    requires forall k :: 0 <= k < |categories| ==> '/' !in categories[k]
    ensures var paths := seq(|categories|, k requires 0 <= k < |categories| => HtmlPath(categories[k], indices[k]));
            Enqueue(paths).Some?
            && forall k :: 0 <= k < |categories| ==> Enqueue(paths).value[k] == Item(categories[k], paths[k])
  {
    var paths := seq(|categories|, k requires 0 <= k < |categories| => HtmlPath(categories[k], indices[k]));
    assert forall k :: 0 <= k < |categories| ==> CategoryOf(paths[k]) == Some(categories[k]);
  }

  /** The rows one queue item yields: `scrape_html` on a readable page, nothing otherwise. */
  function ItemRowsOf(docs: Documents, unescape: Unescape): (f: Item -> seq<Row>)
    ensures forall item: Item :: item.filename !in docs ==> f(item) == []
    ensures forall item: Item :: item.filename in docs ==> |f(item)| <= |docs[item.filename]|
  {
    (item: Item) => if item.filename in docs then RowsOf(item.category, docs[item.filename], unescape) else []
  }

  /**
   What one scraper worker put on the output queue: one batch per item,
   published as soon as the item is scraped. An unreadable page raises an
   exception other than `queue.Empty`, which ends the worker.
   */
  datatype ScrapeRun = ScrapeRun(published: seq<seq<Row>>, crashed: bool)

  /** Every dequeued page can be opened. */
  predicate AllPagesPresent(items: seq<Item>, docs: Documents)
  {
    forall k :: 0 <= k < |items| ==> items[k].filename in docs
  }

  /** Every page is present iff every earlier page is and the last one is. */
  lemma PagesPresentStep(items: seq<Item>, docs: Documents)
    requires |items| > 0
    ensures AllPagesPresent(items, docs)
            <==> AllPagesPresent(items[..|items| - 1], docs) && items[|items| - 1].filename in docs
  {
    var n := |items| - 1;
    assert forall k :: 0 <= k < n ==> items[..n][k] == items[k];
  }

  /**
   `worker` over the items it dequeued, in order: batches for every item up
   to the first unreadable page; the worker ends there.
   */
  function ScrapeWorker(items: seq<Item>, docs: Documents, unescape: Unescape): (r: ScrapeRun)
    ensures r.crashed <==> !AllPagesPresent(items, docs)
    ensures !r.crashed ==> r.published == MapSeq(ItemRowsOf(docs, unescape), items)
    ensures r.crashed ==> |r.published| < |items| && items[|r.published|].filename !in docs
    ensures r.crashed ==> AllPagesPresent(items[..|r.published|], docs)
    ensures r.crashed ==> r.published == MapSeq(ItemRowsOf(docs, unescape), items[..|r.published|])
  {
    if |items| == 0 then ScrapeRun([], false)
    else
      var n := |items| - 1;
      var f := ItemRowsOf(docs, unescape);
      var before := ScrapeWorker(items[..n], docs, unescape);
      PagesPresentStep(items, docs);
      if before.crashed then
        var p := |before.published|;
        assert items[..n][..p] == items[..p];
        assert items[..n][p] == items[p];
        before
      else if items[n].filename !in docs then
        assert items[..n] == items[..|before.published|];
        ScrapeRun(before.published, true)
      else
        ScrapeWorkerStep(items, docs, unescape);
        ScrapeRun(before.published + [f(items[n])], false)
  }

  /** A worker whose pages all open publishes one more batch for one more item. */
  lemma ScrapeWorkerStep(items: seq<Item>, docs: Documents, unescape: Unescape)
    requires |items| > 0
    ensures MapSeq(ItemRowsOf(docs, unescape), items)
            == MapSeq(ItemRowsOf(docs, unescape), items[..|items| - 1]) + [ItemRowsOf(docs, unescape)(items[|items| - 1])]
  {
    var n := |items| - 1;
    assert items == items[..n] + [items[n]];
    MapSeqAppend(ItemRowsOf(docs, unescape), items[..n], [items[n]]);
  }

  /** The collection loop of `main_task`: `csv_rows += batch` for every batch received before the idle timeout. */
  method CollectRows(received: seq<seq<Row>>) returns (csvRows: seq<Row>)
    ensures csvRows == Concat(received)
    ensures |csvRows| == SumLengths(received)
  {
    csvRows := [];
    var i := 0;
    while i < |received|
      invariant 0 <= i <= |received|
      invariant csvRows == Concat(received[..i])
    {
      assert received[..i + 1][..i] == received[..i];
      csvRows := csvRows + received[i];
      i := i + 1;
    }
    assert received[..i] == received;
  }

  /** The batches each worker published, one list per worker. */
  function PublishedEach(dequeued: seq<seq<Item>>, docs: Documents, unescape: Unescape): seq<seq<seq<Row>>>
  {
    seq(|dequeued|, w requires 0 <= w < |dequeued| => ScrapeWorker(dequeued[w], docs, unescape).published)
  }

  /** Every batch every worker published, worker by worker. */
  function AllPublished(dequeued: seq<seq<Item>>, docs: Documents, unescape: Unescape): seq<seq<Row>>
  {
    Concat(PublishedEach(dequeued, docs, unescape))
  }

  /**
   End to end: when every page is readable and every published batch arrives
   before the idle timeout (in any order), the collected rows are, as a
   multiset, exactly the rows of every enqueued item, whatever the schedule.
   */
  lemma ScraperEndToEnd(items: seq<Item>, docs: Documents, unescape: Unescape, schedule: seq<nat>, workers: nat)
    requires ValidSchedule(schedule, |items|, workers)
    requires AllPagesPresent(items, docs)
    ensures forall received: seq<seq<Row>> |
              multiset(received) == multiset(AllPublished(Drain(items, schedule, workers), docs, unescape)) ::
              multiset(Concat(received)) == multiset(FlatMap(ItemRowsOf(docs, unescape), items))
  {
    var published := AllPublished(Drain(items, schedule, workers), docs, unescape);
    PublishedRows(items, docs, unescape, schedule, workers);
    forall received: seq<seq<Row>> | multiset(received) == multiset(published)
      ensures multiset(Concat(received)) == multiset(FlatMap(ItemRowsOf(docs, unescape), items))
    {
      ConcatPermutation(received, published);
    }
  }

  /** Taken worker by worker, the workers' batches hold the rows of every enqueued page, as a multiset. */
  lemma PublishedRows(items: seq<Item>, docs: Documents, unescape: Unescape, schedule: seq<nat>, workers: nat)
    requires ValidSchedule(schedule, |items|, workers)
    requires AllPagesPresent(items, docs)
    ensures multiset(Concat(AllPublished(Drain(items, schedule, workers), docs, unescape)))
            == multiset(FlatMap(ItemRowsOf(docs, unescape), items))
  {
    var d := Drain(items, schedule, workers);
    DrainPartitions(items, schedule, workers);
    PartsKeep(d, items, (item: Item) => item.filename in docs);
    WorkersPublishEveryItem(d, docs, unescape);
    FlatMapPermutation(ItemRowsOf(docs, unescape), Concat(d), items);
  }

  lemma WorkerPublishesAll(items: seq<Item>, docs: Documents, unescape: Unescape)
    requires AllPagesPresent(items, docs)
    ensures ScrapeWorker(items, docs, unescape).published == MapSeq(ItemRowsOf(docs, unescape), items)
  {
  }

  /** Workers whose pages all open publish, between them, one batch per item of their lists. */
  lemma WorkersPublishEveryItem(d: seq<seq<Item>>, docs: Documents, unescape: Unescape)
    requires forall w :: 0 <= w < |d| ==> AllPagesPresent(d[w], docs)
    ensures AllPublished(d, docs, unescape) == MapSeq(ItemRowsOf(docs, unescape), Concat(d))
  {
    var f := ItemRowsOf(docs, unescape);
    forall w | 0 <= w < |d|
      ensures PublishedEach(d, docs, unescape)[w] == MapEach(f, d)[w]
    {
      WorkerPublishesAll(d[w], docs, unescape);
    }
    assert PublishedEach(d, docs, unescape) == MapEach(f, d);
    MapSeqOfConcat(f, d);
  }


}
