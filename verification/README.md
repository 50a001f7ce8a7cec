# Worker-pool scraping and filtering, modelled in Dafny

The repository holds two small programs built on the same worker-pool
pattern. A coordinator fills a task queue, starts N worker processes that
drain it with non-blocking gets, and merges the batches the workers put on
an output queue.

- `scraper.py` scrapes regular expressions from downloaded regexlib pages.
  Each table cell is cleaned into a `category,regex` CSV row
  (`to_csv_row`). `scrape_html` keeps the rows that survive cleaning, and
  each worker puts one batch per page. The coordinator concatenates the
  batches it receives until an idle timeout.
- `q4.py` filters JSON-lines files. Each worker keeps the records whose
  `provider` is not `"GitHub"`. It puts at most one batch: a worker that
  got no file, or that hit a file it could not read or parse, puts
  nothing, and a worker that does put keeps only the records of the last
  file it read. `main_task` enqueues 100 file names and waits for exactly
  one batch per process.

This project models the sequential parts of both programs as pure
functions over immutable sequences, and proves what they compute:

- cleaning a cell;
- the download-path scheme and how the category is read back from it;
- a worker's drain, as a fold over the items it dequeued;
- the coordinators' merges.

The queue is abstracted as a *schedule*: `schedule[k]` names the worker
whose get received the k-th item. The queue is FIFO, and everything is
enqueued before any worker starts. The model assumes that a worker's get
fails only once the queue is empty, so the schedule fixes what each worker
processed: `WorkQueue.DrainOwn` proves that worker `w` gets exactly the
items whose pop it won, in queue order (see "## Left out" for what this
assumption hides).

Files:

- `wrappers.dfy`: `Option` and `Result`. They stand for Python's `None`
  returns and raised exceptions.
- `seqs.dfy`: concatenation of batches, map, flat map and "keep the
  non-None values", with the order and permutation lemmas used by both
  coordinators.
- `text.dfy`: `str.replace(c, "")`, `str.split(sep)` and its inverse
  `join`, the `%0Nd` format and its inverse.
- `work_queue.dfy`: the queue drained according to a schedule, and the
  partition lemma.
- `scraper.dfy`: `scraper.py`.
- `q4.dfy`: `q4.py`.

External calls are parameters or already-parsed inputs:

- `HTMLParser().unescape` is an arbitrary function `string -> Option<string>`.
  `None` means the call raised.
- lxml's cell lookup is the `Cell` datatype: no child element, or a child
  whose `.text` is present or missing.
- An html file is its parsed cells. A file that cannot be opened or parsed
  is absent from the `Documents` map.
- A JSON-lines file is its lines, each of which `json.loads` either parses
  or rejects. A file that cannot be opened is absent from the `FileSystem` map.

## Model

| member | source | states |
|---|---|---|
| Scraper.StripQuotes | scraper.py:87-89 | a text that starts and ends with `"` loses exactly one character at each end, and a lone `"` becomes empty; any other text is unchanged; no character is added |
| Scraper.StripQuotesOfQuoted | scraper.py:88-89 | round trip: putting quotes around any text and then stripping gives back that text |
| Scraper.StripQuotesOnce | scraper.py:88-89 | stripping happens once: `""x""` becomes `"x"` |
| Scraper.CellText | scraper.py:77-80 | a cell yields text exactly when it has a child, the child's `.text` is present, and unescaping it does not raise; the text is then the unescaped `.text` |
| Scraper.CleanRegex | scraper.py:86-89 | with `t` the unescaped text with its spaces deleted: if `t` starts and ends with `"`, the regex is `t` without its first and last character (empty for a lone `"`); otherwise it is `t`. The regex contains no space, and every character in it (with its multiplicity) comes from the unescaped text |
| Scraper.ToCsvRow | scraper.py:74-98 | no row exactly when the cell has no child, its text is None, unescaping raises, or the unescaped text contains a newline; otherwise the row has exactly the keys `category` and `regex`, `category` is the given category, and `regex` is the cleaned form of the cell's unescaped text, with no space, no newline and no character outside that text |
| Scraper.ToCsvRowKeepsCleanText | scraper.py:80-90 | an unescaped text with no space, no newline and no surrounding quotes is stored verbatim |
| Scraper.CleanRegexOfQuoted | scraper.py:86-89 | cleaning a quoted text gives the inner text with its spaces deleted |
| Scraper.ToCsvRowUnquotes | scraper.py:80-90 | an unescaped quoted text without newline becomes a row whose regex is the inner text with its spaces deleted |
| Scraper.RowsOfSnoc | scraper.py:62-65 | scraping one more cell appends that cell's row, if it has one, after the rows kept so far |
| Scraper.RowsOfShape | scraper.py:61-65 | every kept row has the page's category and exactly the two keys, and every row `to_csv_row` produced is kept |
| Scraper.RowsOf | scraper.py:61-65 | the rows of a page are never more than its cells |
| Scraper.RowsOfAllKept | scraper.py:61-65 | a page keeps as many rows as it has cells exactly when every cell yields a row |
| Scraper.ItemRowsOf | scraper.py:53-65 | a readable page yields at most one row per cell; for a page that cannot be read the value is only a placeholder `[]`, since `scrape_html` raises there and `Scraper.ScrapeWorker` treats that page as a crash and never uses its rows |
| Scraper.ScrapeHtml | scraper.py:61-65 | `csv_rows` is the non-None `to_csv_row` results in cell order; there are at most as many as cells; each has the page's category; none produced is dropped |
| Seqs.Somes | scraper.py:61-65 | keeping the present values never lengthens the list; nothing is dropped exactly when every entry is present; every kept value comes from the input, and every present value is kept |
| Seqs.SomesAppend | scraper.py:61-65 | filtering two runs of results and joining them is the same as filtering the joined runs, so relative order is kept |
| Text.Remove | scraper.py:86 | `replace(" ", "")` leaves no space and deletes nothing else: the character counts are the input's with the spaces set to zero |
| Text.RemoveAppend | scraper.py:86 | deletion works piece by piece, so the kept characters stay in order |
| Text.RemoveAbsent | scraper.py:86 | a text without spaces is unchanged |
| Text.Split | scraper.py:154 | `split('/')` always yields at least one piece, and no piece contains the separator |
| Text.SplitPrefix | scraper.py:154 | a separator-free prefix becomes the start of the first piece |
| Text.Join | scraper.py:142 | building a `/`-separated path from its components starts with the first component, and gives just that component only when there is one |
| Text.JoinSeparators | scraper.py:154 | joining separator-free pieces puts exactly one separator between consecutive pieces: one fewer separators than pieces |
| Text.SplitSeveral | scraper.py:154 | `split('/')` yields a second piece exactly when the text contains `/` |
| Text.SplitThree | scraper.py:142-154 | `a/b/c` with separator-free `a`, `b`, `c` splits into exactly `[a, b, c]` |
| Text.SplitJoin | scraper.py:154 | splitting a join of separator-free pieces gives back the pieces |
| Text.JoinSplit | scraper.py:154 | joining the pieces of a split gives back the text |
| Text.ZeroPad | scraper.py:142 | `%02d` / `%03d` produce only digits, at least the requested width, longer only when the number needs it |
| Text.ZeroPadRoundTrip | q4.py:41 | parsing a zero-padded number gives back the number |
| Text.ZeroPadOfParse | q4.py:41 | a non-empty digit string is the zero-padded form of its value at its own width |
| Text.DigitsBelowThousand | q4.py:40-41 | every index below 1000, and so every index of `range(100)`, pads with `%03d` to exactly three digits |
| Text.ZeroPadInjective | q4.py:40-42 | different numbers never format to the same text |
| Scraper.CategoryOf | scraper.py:154 | `f.split('/')[1]` has a value exactly when the path contains `/`, and that value contains no `/` |
| Scraper.HtmlPath | scraper.py:142 | a download path built from a category without `/` splits into exactly `downloaded_html`, the category and the page file `NN.html`, and `f.split('/')[1]` on it gives back the category |
| Scraper.HtmlPathInjective | scraper.py:139-143 | distinct (category, index) pairs get distinct download path strings, for every category, including one that contains `/` |
| Scraper.SlashEndedSplit | scraper.py:142 | a path splits at most one way into a part ending in `/` and a `/`-free page file, so the page file and everything before it are determined by the path |
| Scraper.Enqueue | scraper.py:151-157 | items are produced exactly when every filename has a second path component, one item per file in glob order, labelled with that component |
| Scraper.EnqueueRecoversCategories | scraper.py:142-157 | enqueuing downloaded pages labels each page with the category it was downloaded under |
| Scraper.ScrapeWorker | scraper.py:102-113 | a worker publishes one batch per dequeued page, in order, until the first unreadable page, where it stops; it ends early exactly when some page is unreadable, and then every page whose batch it put was readable |
| Scraper.CollectRows | scraper.py:172-178 | the collected rows are the received batches concatenated in arrival order, and their number is the sum of the batch lengths |
| Scraper.ScraperEndToEnd | scraper.py:151-176 | with every page readable and every batch received before the timeout, in any order and under any schedule, the output holds exactly the rows of all enqueued pages, as a multiset |
| Scraper.PublishedRows | scraper.py:102-113 | with every page readable, the batches the workers publish hold, between them, the rows of every enqueued page, as a multiset, whatever the schedule |
| Seqs.Concat | q4.py:52-54 | the merged length is the sum of the batch lengths |
| Seqs.ConcatAppend | scraper.py:172-176 | merging two runs of batches and joining them is the same as merging all the batches |
| Seqs.ConcatPermutation | scraper.py:172-176 | arrival order does not change the multiset of merged records |
| Seqs.MapSeqPermutation | q4.py:52-54 | mapping a permutation gives a permutation of the images |
| Seqs.FlatMapPermutation | q4.py:52-54 | the multiset of all records depends only on the multiset of files, not on their order |
| Seqs.FlatMapOfConcat | q4.py:52-54 | flattening each worker's results and then merging equals flattening all the workers' files together |
| Seqs.MapSeqOfConcat | scraper.py:172-176 | mapping each worker's items and then merging equals mapping all items together |
| WorkQueue.Drain | q4.py:18-20 | a drain gives one list of dequeued items per worker |
| WorkQueue.DrainOwn | q4.py:18-20 | worker `w`'s list is exactly the items whose pop the schedule gives to `w`, in queue order |
| WorkQueue.DrainPartitions | q4.py:18-20 | every enqueued item is dequeued by exactly one worker: the workers' lists together are the queue's items, as a multiset |
| Seqs.PartsKeep | q4.py:18-20 | a property every enqueued item has holds for every item of every worker's list |
| WorkQueue.IdleWorkerExists | q4.py:40-48 | with more workers than items, some worker dequeues nothing |
| Q4.KeepLine | q4.py:24-25 | a line can be tested exactly when it parses to an object with a `provider` key; an unparsable line raises the JSON error; a tested line is kept exactly when its provider is not `"GitHub"` |
| Q4.ReadRecords | q4.py:22-26 | a missing file raises the no-such-file error; a file yields its records exactly when it exists and every line can be tested |
| Q4.FilterLines | q4.py:22-26 | a file succeeds exactly when every line parses to an object with a `provider` key, and then yields at most one record per line |
| Q4.FilterLinesStep | q4.py:23-26 | one more testable line adds its record at the end when its provider is not `"GitHub"`, and adds nothing otherwise |
| Q4.FilterLinesSound | q4.py:25-26 | every record a file yields has a provider other than `"GitHub"` and is one of the file's lines |
| Q4.FilterLinesComplete | q4.py:25-26 | every line of a readable file whose provider is not `"GitHub"` contributes its record |
| Q4.FilterLinesFirstFailure | q4.py:23-25 | a failing file fails with what its first untestable line raises, and every earlier line was testable |
| Q4.FilterLinesAppend | q4.py:23-26 | within a file, kept records keep their line order |
| Q4.AfterFiles | q4.py:18-28 | after each file, the worker's `lines` holds exactly the kept records of the last file read, is unbound if no file was read, or the worker has ended at the first unreadable file |
| Q4.Task | q4.py:14-30 | a worker publishes exactly one batch if and only if it dequeued at least one file and all of them could be read; the batch is the kept records of the last file only, and all of them are non-GitHub; with no file it fails on the unbound `lines` |
| Q4.TaskAccumulating | q4.py:14-30 | with `lines` bound once before the loop, a worker publishes a batch exactly when all its files can be read, even with no file; the batch is the kept records of all its files in dequeue order |
| Q4.AccumulateStep | q4.py:19-27 | with accumulation, the records of a run of files are those of all but the last followed by those of the last |
| Q4.JsonIndex | q4.py:41 | a name reads back as an index only if it is `data/json/mybinder`, that index zero-padded to the width of the digits, and `.json` |
| Q4.JsonName | q4.py:41 | `"data/json/mybinder%03d.json" % i` reads back as `i`, and for indices below 1000 the digits are exactly three wide |
| Q4.WorkList | q4.py:40-42 | exactly 100 names; the i-th reads back as index i and is exactly as long as prefix, three digits and suffix, so it is `data/json/mybinder` + `%03d` of i + `.json`; no two names are equal |
| Q4.CollectCounted | q4.py:52-54 | `main_task` finishes exactly when at least `nprocs` batches arrive; it then returns the first `nprocs` batches concatenated in arrival order, with the sum of their lengths as length |
| Q4.IdleWorkerBlocksCollect | q4.py:18-30 | as written, if any worker dequeues no file, fewer batches than processes ever arrive |
| Q4.TooManyWorkersBlockCollect | q4.py:40-54 | as written, with more processes than files (more than the 100 of `main_task`), fewer batches than processes are put under every schedule, so the counted collection never completes |
| Q4.LinesResetLosesRecords | q4.py:19-30 | as written, a worker that reads two one-record files publishes only the second record, where the accumulating worker publishes both |
| Q4.AccumulatingPipelineKeepsAll | q4.py:40-54 | with the accumulating worker and every file readable, for any list of files (the 100 names of `main_task` among them), any schedule and any arrival order, exactly one batch per process arrives, and together the batches hold every kept record of the files, as a multiset |

## Findings

| source | as written | input that shows it | evidently intended | confidence | as-written member | corrected member |
|---|---|---|---|---|---|---|
| q4.py:21 | `lines = []` is inside the dequeue loop, so each new file discards the records of the files the worker read before | one worker dequeues `mybinder000.json` and `mybinder001.json`, each with one record whose provider is not GitHub; it publishes one record instead of two | `lines` accumulates the kept records of every file the worker dequeued | not executed; high (the output is meant to hold the records of all 100 files) | Q4.LinesResetLosesRecords | Q4.TaskAccumulating |
| q4.py:30 | a worker whose first `get(block=False)` raises `queue.Empty` reaches `out_q.put(lines)` with `lines` never assigned, raises UnboundLocalError and puts nothing, so `out_q.get()` at q4.py:54 waits forever | `nprocs = 101`: at most 100 workers receive a file | every worker puts one batch, empty if it got no file, so the counted collection ends | not executed; high for more than 100 processes, timing-dependent otherwise | Q4.IdleWorkerBlocksCollect | Q4.AccumulatingPipelineKeepsAll |

The end-to-end lemma for `q4.py` (`Q4.AccumulatingPipelineKeepsAll`) uses
the corrected worker. The as-written worker `Q4.Task` is modelled as
written, and its behaviour is stated in its contract.

Behaviour worth noting:

- `scraper.py` puts one batch per page, inside `scrape_html`, not one batch
  per worker at exit.
- In both programs, an exception other than `queue.Empty` ends the worker.
  The model records that as a crash, not as a skipped item.
- `ScrapeWorker` keeps the batches already put before such a crash, because
  they are already on the queue.

## Left out

- Processes, queues, the non-blocking `get` and the 1-second idle timeout are not modelled as such. They are concurrency and timing. A run is represented by its schedule and by the batches that arrive. Which batches arrive before the timeout is an input to `Scraper.CollectRows`.
- `HTMLParser().unescape` is a foreign library call. It is an arbitrary function parameter, so every property holds for any unescaping. On Python 3.9 and later the method no longer exists. There every call raises, which the model covers as `None`, giving no rows.
- The `bytes(..., 'utf-8')` / `str(..., 'utf-8')` round trip (scraper.py:78-79) is the identity. Dafny strings hold only Unicode scalar values, so the encoding error a lone surrogate would raise cannot occur.
- lxml parsing and XPath selection, and `json.loads`: their results are taken as already-parsed inputs (`Cell`, `Json`, `Line`).
- `download_html`, `requests`, `os.system('rm -rf ...')`, `glob`, `os.makedirs`, and file open/read/write are I/O. Only the names they use (`Scraper.HtmlPath`) and whether a file can be read are modelled.
- `get_urls`, the pandas `groupby`, `csv.DictWriter` quoting, `json.dump` and argparse are library wrappers and output formatting. Only the path scheme of the download loop is modelled: it is proved injective within and across categories.
- `perf_counter` timing, `log` and `print` are output only.
- Scraper.HtmlPath / Scraper.CategoryOf: a category containing `/` is not covered by the round trip. Such a category would create nested directories that the glob `downloaded_html/*/*.html` does not list.
- Workers are assumed to see `queue.Empty` only once the queue is drained. For a `multiprocessing.Queue`, `get(block=False)` can raise `queue.Empty` while items are still in flight from the feeder thread, so a worker may stop early and leave items to others or to nobody; the model does not cover those runs.
- WorkQueue.Drain: a schedule may assign items to a worker after the point where that worker crashed. A crashed process dequeues nothing more, so in a real run those items go to the other workers; the model's crashed worker simply ignores them. The end-to-end lemmas assume no crash, where the two agree.
- Scraper.HtmlPathInjective: the lemma is about path strings, not files. The file system resolves `//`, `.` and `..`, so two distinct strings can still name one file. For example, categories `"a"` and `"a/"` (or `""` and `"."`) at the same index give one file, and the later page overwrites the earlier.
- Text.ZeroPad: negative numbers are not modelled. The indices formatted by both programs count up from 0.
