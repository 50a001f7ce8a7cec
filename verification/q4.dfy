/**
 The JSON-lines filter (q4.py): each worker drains file names from the task
 queue and keeps the records whose provider is not "GitHub". It puts at most
 one batch on the output queue, holding only the last file's kept records; a
 worker with no file or an unreadable file puts nothing. `main_task` enqueues
 100 file names and waits for exactly one batch per worker.
 */
module Q4 {
  import opened Wrappers
  import opened Seqs
  import opened Text
  import opened WorkQueue

  /**
   A value as `json.loads` returns it. Only objects and strings matter to
   the filter; numbers, booleans, null and arrays are kept by their text.
   */
  datatype Json = JString(s: string) | JObject(fields: map<string, Json>) | JOther(literal: string)

  /** One line of a file: `None` when `json.loads` raises on it. */
  type Line = Option<Json>

  /** The lines of every file that `open` succeeds on. */
  type FileSystem = map<string, seq<Line>>

  /** The exceptions that end a worker; none of them is the `queue.Empty` the worker catches. */
  datatype WorkerError =
    | NoSuchFile(name: string)  // `open` raises
    | BadJson                   // `json.loads` raises
    | NotAnObject               // `data["provider"]` on a non-object raises TypeError
    | MissingProvider           // `data["provider"]` raises KeyError
    | UnboundLines              // `out_q.put(lines)` with `lines` never assigned

  /** What a worker leaves behind: the one batch it put, or the exception that ended it before the put. */
  datatype Outcome = Published(batch: seq<Json>) | Crashed(failure: WorkerError)

  function PublishedBatch(o: Outcome): Option<seq<Json>>
  {
    match o
    case Published(batch) => Some(batch)
    case Crashed(_) => None
  }

  const ProviderKey: string := "provider"
  const GitHub: Json := JString("GitHub")

  /** A record the filter keeps: an object whose provider is anything but the string "GitHub". */
  predicate Kept(record: Json)
  {
    record.JObject? && ProviderKey in record.fields && record.fields[ProviderKey] != GitHub
  }

  /** The test `data["provider"] != "GitHub"` on one line: keep or not, or what it raises. */
  function KeepLine(line: Line): (r: Result<bool, WorkerError>)
    ensures r.Success? <==> line.Some? && line.value.JObject? && ProviderKey in line.value.fields
    ensures r.Success? ==> (r.value <==> Kept(line.value))
    ensures line.None? ==> r == Failure(BadJson)
  {
    match line
    case None => Failure(BadJson)
    case Some(JObject(fields)) =>
      if ProviderKey in fields then Success(fields[ProviderKey] != GitHub) else Failure(MissingProvider)
    case Some(_) => Failure(NotAnObject)
  }

  /**
   The inner loop over one file's lines: the kept records in line order, or
   the exception raised by the first line on which the provider test cannot be evaluated.
   */
  function FilterLines(lines: seq<Line>): (r: Result<seq<Json>, WorkerError>)
    ensures r.Success? <==> forall i :: 0 <= i < |lines| ==> KeepLine(lines[i]).Success?
    ensures r.Success? ==> |r.value| <= |lines|
  {
    if |lines| == 0 then Success([])
    else
      var n := |lines| - 1;
      assert forall k :: 0 <= k < n ==> lines[..n][k] == lines[k];
      match FilterLines(lines[..n])
      case Failure(e) => Failure(e)
      case Success(kept) =>
        match KeepLine(lines[n])
        case Failure(e) => Failure(e)
        case Success(keep) => if keep then Success(kept + [lines[n].value]) else Success(kept)
  }

  /** Every record the filter yields passes the test and comes from one of the lines. */
  lemma {:induction false} FilterLinesSound(lines: seq<Line>)
    requires FilterLines(lines).Success?
    ensures forall j :: 0 <= j < |FilterLines(lines).value| ==>
              Kept(FilterLines(lines).value[j]) && Some(FilterLines(lines).value[j]) in lines
  {
    if |lines| > 0 {
      var n := |lines| - 1;
      assert lines == lines[..n] + [lines[n]];
      FilterLinesSound(lines[..n]);
      FilterLinesStep(lines);
    }
  }

  /** Every line holding a record that passes the test contributes it. */
  lemma {:induction false} FilterLinesComplete(lines: seq<Line>)
    requires FilterLines(lines).Success?
    ensures forall i :: 0 <= i < |lines| && lines[i].Some? && Kept(lines[i].value) ==>
              lines[i].value in FilterLines(lines).value
  {
    if |lines| > 0 {
      var n := |lines| - 1;
      FilterLinesComplete(lines[..n]);
      FilterLinesStep(lines);
      forall i | 0 <= i < |lines| && lines[i].Some? && Kept(lines[i].value)
        ensures lines[i].value in FilterLines(lines).value
      {
        if i < n {
          assert lines[..n][i] == lines[i];
        }
      }
    }
  }

  /** A failing file fails with what its first untestable line raises. */
  lemma {:induction false} FilterLinesFirstFailure(lines: seq<Line>)
    requires FilterLines(lines).Failure?
    ensures exists i :: 0 <= i < |lines| && KeepLine(lines[i]) == Failure(FilterLines(lines).error)
                        && forall k :: 0 <= k < i ==> KeepLine(lines[k]).Success?
  {
    var n := |lines| - 1;
    assert forall k :: 0 <= k < n ==> lines[..n][k] == lines[k];
    if FilterLines(lines[..n]).Failure? {
      FilterLinesFirstFailure(lines[..n]);
      var i :| 0 <= i < n && KeepLine(lines[..n][i]) == Failure(FilterLines(lines[..n]).error)
               && forall k :: 0 <= k < i ==> KeepLine(lines[..n][k]).Success?;
      assert KeepLine(lines[i]) == Failure(FilterLines(lines).error);
    } else {
      assert KeepLine(lines[n]) == Failure(FilterLines(lines).error);
    }
  }

  /** The kept records of a line run whose last line is testable: those before it, then that line when kept. */
  lemma FilterLinesStep(lines: seq<Line>)
    requires |lines| > 0 && FilterLines(lines[..|lines| - 1]).Success?
    requires KeepLine(lines[|lines| - 1]).Success?
    ensures FilterLines(lines).Success?
    ensures var last := lines[|lines| - 1];
            FilterLines(lines).value
            == FilterLines(lines[..|lines| - 1]).value + (if KeepLine(last).value then [last.value] else [])
  {
  }

  /** Line order is kept: filtering two runs of lines and joining is filtering the joined lines. */
  lemma {:induction false} FilterLinesAppend(a: seq<Line>, b: seq<Line>)
    requires FilterLines(a).Success? && FilterLines(b).Success?
    ensures FilterLines(a + b).Success?
    ensures FilterLines(a + b).value == FilterLines(a).value + FilterLines(b).value
    decreases |b|
  {
    if |b| == 0 {
      assert a + b == a;
    } else {
      var n := |b| - 1;
      var ab := a + b;
      assert ab[..|ab| - 1] == a + b[..n] && ab[|ab| - 1] == b[n];
      assert FilterLines(b[..n]).Success? by {
        assert forall k :: 0 <= k < n ==> b[..n][k] == b[k];
      }
      FilterLinesAppend(a, b[..n]);
      FilterLinesStep(b);
      FilterLinesStep(ab);
    }
  }

  /** `with open(f) as json_file:` and the loop over its lines. */
  function ReadRecords(fs: FileSystem, name: string): (r: Result<seq<Json>, WorkerError>)
    ensures r.Success? <==> name in fs && forall i :: 0 <= i < |fs[name]| ==> KeepLine(fs[name][i]).Success?
    ensures name !in fs ==> r == Failure(NoSuchFile(name))
  {
    if name in fs then FilterLines(fs[name]) else Failure(NoSuchFile(name))
  }

  /** The kept records of a file, or nothing when reading it raises. */
  function RecordsOf(fs: FileSystem): string -> seq<Json>
  {
    name => match ReadRecords(fs, name) case Success(records) => records case Failure(_) => []
  }

  predicate AllReadable(fs: FileSystem, files: seq<string>)
  {
    forall i :: 0 <= i < |files| ==> ReadRecords(fs, files[i]).Success?
  }

  /** The first file, if any, whose reading raises, and what it raises. */
  predicate FirstFailure(fs: FileSystem, files: seq<string>, failure: WorkerError)
  {
    exists i :: 0 <= i < |files| && ReadRecords(fs, files[i]) == Failure(failure)
                && forall k :: 0 <= k < i ==> ReadRecords(fs, files[k]).Success?
  }

  /** One more file is readable-or-not on top of its predecessors. */
  lemma ReadableStep(fs: FileSystem, files: seq<string>)
    requires |files| > 0
    ensures AllReadable(fs, files)
            <==> AllReadable(fs, files[..|files| - 1]) && ReadRecords(fs, files[|files| - 1]).Success?
  {
    var n := |files| - 1;
    assert forall k :: 0 <= k < n ==> files[..n][k] == files[k];
  }

  /** A failure among the first files stays the first failure when more files follow. */
  lemma FirstFailureKept(fs: FileSystem, files: seq<string>, failure: WorkerError)
    requires |files| > 0 && FirstFailure(fs, files[..|files| - 1], failure)
    ensures FirstFailure(fs, files, failure)
  {
    var n := |files| - 1;
    var i :| 0 <= i < n && ReadRecords(fs, files[..n][i]) == Failure(failure)
             && forall k :: 0 <= k < i ==> ReadRecords(fs, files[..n][k]).Success?;
    assert forall k :: 0 <= k < n ==> files[..n][k] == files[k];
  }

  /** After readable files, the first unreadable file gives the first failure. */
  lemma FirstFailureAtLast(fs: FileSystem, files: seq<string>)
    requires |files| > 0 && AllReadable(fs, files[..|files| - 1])
    requires ReadRecords(fs, files[|files| - 1]).Failure?
    ensures FirstFailure(fs, files, ReadRecords(fs, files[|files| - 1]).error)
  {
    var n := |files| - 1;
    assert forall k :: 0 <= k < n ==> files[..n][k] == files[k];
  }

  /** A worker of q4.py:14-28 between two gets: `lines` still unbound (`None`) or bound, or already ended by an exception. */
  datatype WorkerState = Running(lines: Option<seq<Json>>) | Dead(failure: WorkerError)

  /**
   The worker's state after processing `files` in order. `lines` is reset
   for every file, so only the last file's records survive.
   */
  function AfterFiles(fs: FileSystem, files: seq<string>): (r: WorkerState)
    ensures r.Running? <==> AllReadable(fs, files)
    ensures r.Running? ==> (r.lines.None? <==> |files| == 0)
    ensures r.Running? && |files| > 0 ==> r.lines.value == ReadRecords(fs, files[|files| - 1]).value
    ensures r.Dead? ==> FirstFailure(fs, files, r.failure)
  {
    if |files| == 0 then Running(None)
    else
      var n := |files| - 1;
      ReadableStep(fs, files);
      match AfterFiles(fs, files[..n])
      case Dead(e) =>
        FirstFailureKept(fs, files, e);
        Dead(e)
      case Running(_) =>
        match ReadRecords(fs, files[n])
        case Failure(e) =>
          FirstFailureAtLast(fs, files);
          Dead(e)
        case Success(records) => Running(Some(records))
  }

  /**
   `task` as written, over the files this worker dequeued (in order). It
   publishes exactly one batch iff it dequeued at least one file and every
   file could be read; the batch is the kept records of the last file only.
   A worker that dequeued nothing reaches `out_q.put(lines)` with `lines`
   unbound and publishes nothing.
   */
  function Task(fs: FileSystem, files: seq<string>): (r: Outcome)
    ensures r.Published? <==> |files| > 0 && AllReadable(fs, files)
    ensures |files| == 0 ==> r == Crashed(UnboundLines)
    ensures r.Published? ==> r.batch == ReadRecords(fs, files[|files| - 1]).value
    ensures r.Published? ==> forall j :: 0 <= j < |r.batch| ==> Kept(r.batch[j])
    ensures r.Crashed? && |files| > 0 ==> FirstFailure(fs, files, r.failure)
  {
    match AfterFiles(fs, files)
    case Dead(e) => Crashed(e)
    case Running(None) => Crashed(UnboundLines)
    case Running(Some(records)) =>
      FilterLinesSound(fs[files[|files| - 1]]);
      Published(records)
  }

  /** The records of all files are those of all but the last, then the last's. */
  lemma AccumulateStep(fs: FileSystem, files: seq<string>)
    requires |files| > 0 && ReadRecords(fs, files[|files| - 1]).Success?
    ensures FlatMap(RecordsOf(fs), files)
            == FlatMap(RecordsOf(fs), files[..|files| - 1]) + ReadRecords(fs, files[|files| - 1]).value
  {
    var n := |files| - 1;
    assert files == files[..n] + [files[n]];
    FlatMapAppend(RecordsOf(fs), files[..n], [files[n]]);
    assert RecordsOf(fs)(files[n]) == ReadRecords(fs, files[n]).value;
    assert MapSeq(RecordsOf(fs), [files[n]]) == [ReadRecords(fs, files[n]).value];
    ConcatSingleton(ReadRecords(fs, files[n]).value);
  }

  /**
   `task` with `lines = []` moved before the loop and not reset per file:
   every worker publishes one batch, possibly empty, holding the kept records
   of all its files in dequeue order.
   */
  function TaskAccumulating(fs: FileSystem, files: seq<string>): (r: Outcome)
    ensures r.Published? <==> AllReadable(fs, files)
    ensures r.Published? ==> r.batch == FlatMap(RecordsOf(fs), files)
    ensures r.Crashed? ==> FirstFailure(fs, files, r.failure)
  {
    if |files| == 0 then Published([])
    else
      var n := |files| - 1;
      ReadableStep(fs, files);
      match TaskAccumulating(fs, files[..n])
      case Crashed(e) =>
        FirstFailureKept(fs, files, e);
        Crashed(e)
      case Published(lines) =>
        match ReadRecords(fs, files[n])
        case Failure(e) =>
          FirstFailureAtLast(fs, files);
          Crashed(e)
        case Success(records) =>
          AccumulateStep(fs, files);
          Published(lines + records)
  }

  const JsonPrefix: string := "data/json/mybinder"
  const JsonSuffix: string := ".json"
  const FileCount: nat := 100

  /**
   The index a work-list name was built from, or `None` for any other text:
   a name that parses is the prefix, its digits zero-padded to their own
   width, and the suffix.
   */
  function JsonIndex(name: string): (r: Option<nat>)
    ensures r.Some? ==> |name| > |JsonPrefix| + |JsonSuffix|
    ensures r.Some? ==> name == JsonPrefix + ZeroPad(r.value, |name| - |JsonPrefix| - |JsonSuffix|) + JsonSuffix
  {
    if |name| <= |JsonPrefix| + |JsonSuffix| then None
    else
      var middle := name[|JsonPrefix|..|name| - |JsonSuffix|];
      if name[..|JsonPrefix|] == JsonPrefix && name[|name| - |JsonSuffix|..] == JsonSuffix && AllDigits(middle)
      then
        ZeroPadOfParse(middle);
        assert name == name[..|JsonPrefix|] + middle + name[|name| - |JsonSuffix|..];
        Some(ParseDigits(middle))
      else None
  }

  /** `"data/json/mybinder%03d.json" % i`: the index reads back from the name, padded to three digits. */
  function JsonName(i: nat): (r: string)
    ensures JsonIndex(r) == Some(i)
    ensures i < 1000 ==> |r| == |JsonPrefix| + 3 + |JsonSuffix|
  {
    var digits := ZeroPad(i, 3);
    var r := JsonPrefix + digits + JsonSuffix;
    assert r[..|JsonPrefix|] == JsonPrefix;
    assert r[|r| - |JsonSuffix|..] == JsonSuffix;
    assert r[|JsonPrefix|..|r| - |JsonSuffix|] == digits;
    ZeroPadRoundTrip(i, 3);
    if i < 1000 then DigitsBelowThousand(i); r else r
  }

  /**
   The names enqueued by `main_task`: 100 names, the i-th one built from
   index i (so in increasing index order), no two alike.
   */
  function WorkList(): (r: seq<string>)
    ensures |r| == FileCount
    ensures forall i :: 0 <= i < |r| ==> JsonIndex(r[i]) == Some(i)
    ensures forall i, j :: 0 <= i < j < |r| ==> r[i] != r[j]
    ensures forall i :: 0 <= i < |r| ==> |r[i]| == |JsonPrefix| + 3 + |JsonSuffix|
  {
    seq(FileCount, i requires 0 <= i < FileCount => JsonName(i))
  }

  /**
   The counted collection of q4.py:52-54: one blocking `out_q.get()` per
   spawned process, in arrival order. `arrivals` are the batches that are
   ever put; when fewer than `nprocs` arrive, a get waits forever (`None`).
   */
  method CollectCounted(nprocs: int, arrivals: seq<seq<Json>>) returns (out: Option<seq<Json>>)
    ensures out.None? <==> nprocs > |arrivals|
    ensures out.Some? && nprocs <= 0 ==> out.value == []
    ensures out.Some? && nprocs > 0 ==> out.value == Concat(arrivals[..nprocs])
    ensures out.Some? && nprocs > 0 ==> |out.value| == SumLengths(arrivals[..nprocs])
  {
    var procs := if nprocs < 0 then 0 else nprocs;
    var lines: seq<Json> := [];
    var p := 0;
    while p < procs
      invariant 0 <= p <= procs
      invariant p <= |arrivals|
      invariant lines == Concat(arrivals[..p])
    {
      if p >= |arrivals| {
        return None;
      }
      assert arrivals[..p + 1][..p] == arrivals[..p];
      lines := lines + arrivals[p];
      p := p + 1;
    }
    return Some(lines);
  }

  /** The batches the workers put, in worker order (their arrival order may differ). */
  function Batches(outcomes: seq<Outcome>): seq<seq<Json>>
  {
    Somes(MapSeq(PublishedBatch, outcomes))
  }

  function AsWrittenOutcomes(fs: FileSystem, dequeued: seq<seq<string>>): seq<Outcome>
  {
    seq(|dequeued|, w requires 0 <= w < |dequeued| => Task(fs, dequeued[w]))
  }

  function AccumulatingOutcomes(fs: FileSystem, dequeued: seq<seq<string>>): seq<Outcome>
  {
    seq(|dequeued|, w requires 0 <= w < |dequeued| => TaskAccumulating(fs, dequeued[w]))
  }

  /**
   As written, a worker whose first get finds the queue empty never puts a
   batch, so fewer batches than processes ever arrive and the counted
   collection waits forever.
   */
  lemma IdleWorkerBlocksCollect(fs: FileSystem, dequeued: seq<seq<string>>, arrivals: seq<seq<Json>>)
    requires exists w :: 0 <= w < |dequeued| && |dequeued[w]| == 0
    requires multiset(arrivals) == multiset(Batches(AsWrittenOutcomes(fs, dequeued)))
    ensures |arrivals| < |dequeued|
  {
    var outcomes := AsWrittenOutcomes(fs, dequeued);
    var mapped := MapSeq(PublishedBatch, outcomes);
    var w :| 0 <= w < |dequeued| && |dequeued[w]| == 0;
    assert outcomes[w] == Task(fs, dequeued[w]) == Crashed(UnboundLines);
    assert mapped[w] == PublishedBatch(outcomes[w]) == None;
    assert |Batches(outcomes)| < |dequeued|;
    calc {
      |arrivals|;
      |multiset(arrivals)|;
      |multiset(Batches(outcomes))|;
      |Batches(outcomes)|;
    }
  }

  /**
   With more processes than files (more than 100 in `main_task`) some worker
   gets no file, so the workers as written put fewer batches than there are
   processes, whatever the schedule, and `main_task` never finishes.
   */
  lemma TooManyWorkersBlockCollect(fs: FileSystem, files: seq<string>, nprocs: nat, schedule: seq<nat>)
    requires ValidSchedule(schedule, |files|, nprocs)
    requires nprocs > |files|
    ensures |Batches(AsWrittenOutcomes(fs, Drain(files, schedule, nprocs)))| < nprocs
  {
    var batches := Batches(AsWrittenOutcomes(fs, Drain(files, schedule, nprocs)));
    IdleWorkerExists(files, schedule, nprocs);
    IdleWorkerBlocksCollect(fs, Drain(files, schedule, nprocs), batches);
  }

  /**
   As written, a worker that dequeues two files publishes only the second
   file's records: here one record is lost, where the accumulating worker
   publishes both.
   */
  lemma LinesResetLosesRecords()
    ensures var r0 := JObject(map[ProviderKey := JString("GKE")]);
            var r1 := JObject(map[ProviderKey := JString("OVH")]);
            var fs := map[JsonName(0) := [Some(r0)], JsonName(1) := [Some(r1)]];
            Task(fs, [JsonName(0), JsonName(1)]) == Published([r1])
            && TaskAccumulating(fs, [JsonName(0), JsonName(1)]) == Published([r0, r1])
  {
    var r0 := JObject(map[ProviderKey := JString("GKE")]);
    var r1 := JObject(map[ProviderKey := JString("OVH")]);
    var f0, f1 := JsonName(0), JsonName(1);
    var fs := map[f0 := [Some(r0)], f1 := [Some(r1)]];
    var files := [f0, f1];
    KeptSingleLine(r0, "GKE");
    KeptSingleLine(r1, "OVH");
    assert ReadRecords(fs, f0).Success? && ReadRecords(fs, f0).value == [r0];
    assert ReadRecords(fs, f1).Success? && ReadRecords(fs, f1).value == [r1];
    assert AllReadable(fs, files);
    var mapped := MapSeq(RecordsOf(fs), files);
    assert mapped == [[r0], [r1]];
    assert FlatMap(RecordsOf(fs), files) == [r0, r1] by {
      assert mapped == [[r0]] + [[r1]];
      ConcatAppend([[r0]], [[r1]]);
      ConcatSingleton([r0]);
      ConcatSingleton([r1]);
    }
  }

  /** A file of one line holding an object with a non-GitHub provider yields that object. */
  lemma KeptSingleLine(r: Json, provider: string)
    requires r == JObject(map[ProviderKey := JString(provider)])
    requires provider != "GitHub"
    ensures FilterLines([Some(r)]).Success? && FilterLines([Some(r)]).value == [r]
  {
    assert KeepLine(Some(r)) == Success(true);
    assert [Some(r)][..0] == [];
  }

  /**
   End to end with the accumulating worker: whatever the schedule and the
   arrival order, when every file can be read, exactly one batch per process
   arrives, and together they hold every kept record of the files (the 100
   names of `WorkList` in `main_task`), each as often as it occurs there.
   */
  lemma AccumulatingPipelineKeepsAll(fs: FileSystem, files: seq<string>, nprocs: nat, schedule: seq<nat>)
    requires ValidSchedule(schedule, |files|, nprocs)
    requires AllReadable(fs, files)
    ensures var batches := Batches(AccumulatingOutcomes(fs, Drain(files, schedule, nprocs)));
            forall arrivals: seq<seq<Json>> | multiset(arrivals) == multiset(batches) ::
              |arrivals| == nprocs && multiset(Concat(arrivals)) == multiset(FlatMap(RecordsOf(fs), files))
  {
    var f := RecordsOf(fs);
    var d := Drain(files, schedule, nprocs);
    DrainPartitions(files, schedule, nprocs);
    PartsKeep(d, files, (name: string) => ReadRecords(fs, name).Success?);
    AccumulatingBatches(fs, d);
    FlatMapOfConcat(f, d);
    FlatMapPermutation(f, Concat(d), files);
    forall arrivals: seq<seq<Json>> | multiset(arrivals) == multiset(FlatMapEach(f, d))
      ensures |arrivals| == nprocs && multiset(Concat(arrivals)) == multiset(FlatMap(f, files))
    {
      assert |arrivals| == |multiset(arrivals)| == |multiset(FlatMapEach(f, d))| == nprocs;
      ConcatPermutation(arrivals, FlatMapEach(f, d));
    }
  }

  /** When every worker can read all its files, each publishes the records of all of them. */
  lemma AccumulatingBatches(fs: FileSystem, d: seq<seq<string>>)
    requires forall w :: 0 <= w < |d| ==> AllReadable(fs, d[w])
    ensures Batches(AccumulatingOutcomes(fs, d)) == FlatMapEach(RecordsOf(fs), d)
  {
    var outcomes := AccumulatingOutcomes(fs, d);
    var mapped := MapSeq(PublishedBatch, outcomes);
    var batches := FlatMapEach(RecordsOf(fs), d);
    forall w | 0 <= w < |d|
      ensures mapped[w] == Some(batches[w])
    {
      AccumulatingPublishes(fs, d[w]);
    }
    SomesAllPresent(mapped, batches);
  }

  lemma AccumulatingPublishes(fs: FileSystem, files: seq<string>)
    requires AllReadable(fs, files)
    ensures PublishedBatch(TaskAccumulating(fs, files)) == Some(FlatMap(RecordsOf(fs), files))
  {
  }
}
