/**
 The shared task queue of both programs, drained by workers with
 non-blocking gets. The queue is FIFO and every item is enqueued before any
 worker starts, so a run is described by its schedule: `schedule[k]` is the
 worker whose `get(block=False)` returned the k-th item. Which worker wins a
 pop is decided by the operating system and is left free here.
 */
module WorkQueue {
  import opened Wrappers
  import opened Seqs

  /** A schedule for `count` items among `workers` workers: one winner per item. */
  predicate ValidSchedule(schedule: seq<nat>, count: nat, workers: nat)
  {
    |schedule| == count && forall k :: 0 <= k < |schedule| ==> schedule[k] < workers
  }

  /**
   The items each worker dequeued, in the order it dequeued them: entry `w` is
   the list of items worker `w` went on to process.
   */
  function Drain<T>(items: seq<T>, schedule: seq<nat>, workers: nat): (d: seq<seq<T>>)
    requires ValidSchedule(schedule, |items|, workers)
    ensures |d| == workers
  {
    if |items| == 0 then seq(workers, _ => [])
    else
      var k := |items| - 1;
      var before := Drain(items[..k], schedule[..k], workers);
      before[schedule[k] := before[schedule[k]] + [items[k]]]
  }

  /**
   The items the schedule hands to worker `w`, each in its queue position:
   `Some(item)` where `w` won the pop, `None` where another worker did.
   */
  function Assigned<T>(items: seq<T>, schedule: seq<nat>, w: nat): (a: seq<Option<T>>)
    requires |schedule| == |items|
    ensures |a| == |items|
  {
    seq(|items|, k requires 0 <= k < |items| => if schedule[k] == w then Some(items[k]) else None)
  }

  /**
   What the schedule means: worker `w` processes exactly the items whose pop
   it won, in queue order.
   */
  lemma {:induction false} DrainOwn<T>(items: seq<T>, schedule: seq<nat>, workers: nat, w: nat)
    requires ValidSchedule(schedule, |items|, workers) && w < workers
    ensures Drain(items, schedule, workers)[w] == Somes(Assigned(items, schedule, w))
  {
    if |items| > 0 {
      var k := |items| - 1;
      DrainOwn(items[..k], schedule[..k], workers, w);
      var a := Assigned(items, schedule, w);
      assert a[..k] == Assigned(items[..k], schedule[..k], w);
      assert a == a[..k] + [a[k]];
      SomesAppend(a[..k], [a[k]]);
    }
  }

  /** Appending one item to one worker's list adds exactly that item to the union. */
  lemma ConcatUpdate<T>(d: seq<seq<T>>, w: nat, x: T)
    requires w < |d|
    ensures multiset(Concat(d[w := d[w] + [x]])) == multiset(Concat(d)) + multiset{x}
  {
    var e := d[w := d[w] + [x]];
    ConcatSplitAt(d, w);
    ConcatSplitAt(e, w);
    assert e[..w] == d[..w] && e[w + 1..] == d[w + 1..];
  }

  /**
   Partition: every enqueued item is dequeued by exactly one worker, so the
   workers' lists together hold each item exactly as often as the queue did.
   */
  lemma {:induction false} DrainPartitions<T>(items: seq<T>, schedule: seq<nat>, workers: nat)
    requires ValidSchedule(schedule, |items|, workers)
    ensures multiset(Concat(Drain(items, schedule, workers))) == multiset(items)
  {
    if |items| == 0 {
      ConcatOfEmpties(Drain(items, schedule, workers));
    } else {
      var k := |items| - 1;
      var before := Drain(items[..k], schedule[..k], workers);
      DrainPartitions(items[..k], schedule[..k], workers);
      ConcatUpdate(before, schedule[k], items[k]);
      assert items == items[..k] + [items[k]];
    }
  }

  /**
   Pigeonhole: with more workers than items, some worker's first
   non-blocking get already finds the queue empty.
   */
  lemma IdleWorkerExists<T>(items: seq<T>, schedule: seq<nat>, workers: nat)
    requires ValidSchedule(schedule, |items|, workers)
    requires workers > |items|
    ensures exists w :: 0 <= w < workers && |Drain(items, schedule, workers)[w]| == 0
  {
    var d := Drain(items, schedule, workers);
    DrainPartitions(items, schedule, workers);
    assert |Concat(d)| == |items| by {
      calc {
        |Concat(d)|;
        |multiset(Concat(d))|;
        |multiset(items)|;
        |items|;
      }
    }
    if forall w :: 0 <= w < workers ==> |d[w]| != 0 {
      SumLengthsAtLeastCount(d);
      assert false;
    }
  }
}
