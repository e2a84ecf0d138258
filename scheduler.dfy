/** The SeekAll job: with no queue it fans out one SeekAll per queue; with a
    queue it concatenates the iterative, seek-once and seek-continually
    streams and emits at most `max_per_minute` of them. */
module Scheduler {
  import opened Types
  import opened Iterative
  import opened Seekables

  /** The stream of one queue: iterative jobs, then seek-once jobs, then
      seek-continually jobs. */
  function QueueStream(rows: seq<Response>, queueId: int, classes: seq<SeekableClass>): (jobs: seq<Job>)
  {
    IterativeJobs(rows, queueId) + SeekJobsOf(classes, true) + SeekJobsOf(classes, false)
  }

  /** Seeding does not depend on the queue: a queue without stored responses
      gets the seek-once and seek-continually jobs of every registered class,
      which its budget is then charged for. */
  lemma SeedingIgnoresQueue(rows: seq<Response>, queueId: int, classes: seq<SeekableClass>)
    requires forall i :: 0 <= i < |rows| ==> rows[i].queueId != queueId
    ensures QueueStream(rows, queueId, classes) == SeekJobsOf(classes, true) + SeekJobsOf(classes, false)
  {
    NoResponsesNoIterativeJobs(rows, queueId);
  }

  /** The part of the stream a job can come from: 0 for an iterative Seek
      (it has a url), 1 for a Seek of a seek-once class, 2 otherwise. */
  function Phase(classes: seq<SeekableClass>, j: Job): (p: nat)
  {
    if !j.Seek? then 2
    else if j.url.Some? then 0
    else if exists c :: c in classes && c.name == j.target.className && InMode(c, true) then 1
    else 2
  }

  /** The registry is keyed by class name. */
  predicate UniqueNames(classes: seq<SeekableClass>)
  {
    forall a, b :: a in classes && b in classes && a.name == b.name ==> a == b
  }

  /** Iterative jobs have phase 0, seek-once jobs phase 1 and seek-continually
      jobs phase 2. */
  lemma PhasesOfStream(rows: seq<Response>, queueId: int, classes: seq<SeekableClass>)
    requires UniqueNames(classes)
    ensures forall j :: j in IterativeJobs(rows, queueId) ==> Phase(classes, j) == 0
    ensures forall j :: j in SeekJobsOf(classes, true) ==> Phase(classes, j) == 1
    ensures forall j :: j in SeekJobsOf(classes, false) ==> Phase(classes, j) == 2
  {
    forall j | j in IterativeJobs(rows, queueId) ensures Phase(classes, j) == 0 {
      IterativeJobsSound(rows, queueId, j);
    }
    forall j | j in SeekJobsOf(classes, true) ensures Phase(classes, j) == 1 {
      SeekJobsInMode(classes, true, j);
    }
    forall j | j in SeekJobsOf(classes, false) ensures Phase(classes, j) == 2 {
      SeekJobsInMode(classes, false, j);
      var c :| c in classes && c.name == j.target.className && InMode(c, false);
      ContinualWins(c);
    }
  }

  /** No seek-once job precedes an iterative job and no seek-continually job
      precedes a seek-once job. */
  lemma StreamOrdered(rows: seq<Response>, queueId: int, classes: seq<SeekableClass>)
    requires UniqueNames(classes)
    ensures var s := QueueStream(rows, queueId, classes);
      forall k, l :: 0 <= k < l < |s| ==> Phase(classes, s[k]) <= Phase(classes, s[l])
  {
    var a := IterativeJobs(rows, queueId);
    var b := SeekJobsOf(classes, true);
    var c := SeekJobsOf(classes, false);
    var s := a + b + c;
    PhasesOfStream(rows, queueId, classes);
    forall k | 0 <= k < |s|
      ensures Phase(classes, s[k]) == if k < |a| then 0 else if k < |a| + |b| then 1 else 2
    {
      if k < |a| {
        assert s[k] in a;
      } else if k < |a| + |b| {
        assert s[k] == b[k - |a|];
      } else {
        assert s[k] == c[k - |a| - |b|];
      }
    }
  }

  /** PHP's loose `max_per_minute == 0`: true for 0 and for null. */
  predicate LooselyZero(maxPerMinute: Option<int>)
  {
    maxPerMinute.None? || maxPerMinute.value == 0
  }

  /** How many jobs the counter lets through: the budget when positive, else none. */
  function Quota(maxPerMinute: Option<int>): (n: nat)
  {
    if maxPerMinute.Some? && maxPerMinute.value > 0 then maxPerMinute.value else 0
  }

  function Min(a: int, b: int): (m: int)
  {
    if a < b then a else b
  }

  /** One SeekAll job per queue, in queue order. */
  function FanOut(queues: seq<Queue>): (jobs: seq<Job>)
  {
    seq(|queues|, i requires 0 <= i < |queues| => SeekAll(queues[i]))
  }

  /** The counter loop over a stream: each pulled job is let through while
      the count of jobs pulled before it is below `max`, and the first one
      that is not ends the loop. */
  function Cutoff(stream: seq<Job>, dispatched: int, max: int): (jobs: seq<Job>)
    decreases |stream|
  {
    if stream == [] || dispatched >= max then []
    else [stream[0]] + Cutoff(stream[1..], dispatched + 1, max)
  }

  /** The counter lets through exactly a prefix: as many jobs as the budget
      has room left for, or the whole stream when it is shorter. */
  lemma {:induction false} CutoffIsPrefix(stream: seq<Job>, dispatched: int, max: int)
    ensures Cutoff(stream, dispatched, max) == stream[..Min(if max > dispatched then max - dispatched else 0, |stream|)]
    decreases |stream|
  {
    if stream != [] && dispatched < max {
      CutoffIsPrefix(stream[1..], dispatched + 1, max);
      var n := Min(max - dispatched - 1, |stream| - 1);
      assert stream[1..][..n] == stream[1..n + 1];
      assert [stream[0]] + stream[1..n + 1] == stream[..n + 1];
    }
  }

  /** The jobs SeekAll emits, given the stored responses and the registry. */
  function Generate(queue: Option<Queue>, allQueues: seq<Queue>, rows: seq<Response>, classes: seq<SeekableClass>): (jobs: seq<Job>)
  {
    match queue
    case None => FanOut(allQueues)
    case Some(q) =>
      if LooselyZero(q.maxPerMinute) then []
      else
        Cutoff(QueueStream(rows, q.id, classes), 0, q.maxPerMinute.value)
  }

  /** For a queue, SeekAll emits the first min(max(0, max_per_minute), |stream|)
      jobs of the stream, in order; a null, zero or negative budget emits nothing. */
  lemma {:induction false} BudgetCutoff(q: Queue, allQueues: seq<Queue>, rows: seq<Response>, classes: seq<SeekableClass>)
    ensures var s := QueueStream(rows, q.id, classes);
      var out := Generate(Some(q), allQueues, rows, classes);
      && |out| == Min(Quota(q.maxPerMinute), |s|)
      && out == s[..|out|]
      && (q.maxPerMinute.Some? ==> |out| <= if q.maxPerMinute.value < 0 then 0 else q.maxPerMinute.value)
      && (q.maxPerMinute.None? || q.maxPerMinute.value <= 0 ==> out == [])
  {
    if !LooselyZero(q.maxPerMinute) {
      CutoffIsPrefix(QueueStream(rows, q.id, classes), 0, q.maxPerMinute.value);
    }
  }

  /** With no queue, SeekAll emits one SeekAll per queue in queue order, and
      no Seek job, whatever the budgets. */
  lemma FanOutPerQueue(allQueues: seq<Queue>, rows: seq<Response>, classes: seq<SeekableClass>)
    ensures var out := Generate(None, allQueues, rows, classes);
      && |out| == |allQueues|
      && (forall i :: 0 <= i < |out| ==> out[i] == SeekAll(allQueues[i]))
      && (forall j :: j in out ==> !j.Seek?)
  {
  }

  /** What SeekAll emits for a queue keeps the stream's order: iterative
      jobs, then seek-once jobs, then seek-continually jobs. */
  lemma GeneratedOrdered(q: Queue, allQueues: seq<Queue>, rows: seq<Response>, classes: seq<SeekableClass>)
    requires UniqueNames(classes)
    ensures var out := Generate(Some(q), allQueues, rows, classes);
      forall k, l :: 0 <= k < l < |out| ==> Phase(classes, out[k]) <= Phase(classes, out[l])
  {
    StreamOrdered(rows, q.id, classes);
    BudgetCutoff(q, allQueues, rows, classes);
    var s := QueueStream(rows, q.id, classes);
    var out := Generate(Some(q), allQueues, rows, classes);
    forall k, l | 0 <= k < l < |out| ensures Phase(classes, out[k]) <= Phase(classes, out[l]) {
      assert out[k] == s[k] && out[l] == s[l];
    }
  }

  /** Builds the queue's stream: iterative jobs (recording `seekable_urls`
      on the way), then seek-once jobs, then seek-continually jobs. */
  method JobsForQueue(store: ResponseStore, queueId: int, classes: seq<SeekableClass>) returns (jobs: seq<Job>)
    modifies store
    ensures jobs == QueueStream(old(store.rows), queueId, classes)
    ensures store.rows == AfterPass(old(store.rows), queueId)
  {
    var iterative := SeekIterativeJobs(store, queueId);
    var once := SeekJobs(classes, true);
    var continual := SeekJobs(classes, false);
    jobs := iterative + once + continual;
  }

  /** The fan-out loop: a SeekAll scoped to each queue, in queue order. */
  method SeekAllQueues(allQueues: seq<Queue>) returns (jobs: seq<Job>)
    ensures jobs == FanOut(allQueues)
  {
    jobs := [];
    for i := 0 to |allQueues|
      invariant |jobs| == i
      invariant forall k :: 0 <= k < i ==> jobs[k] == SeekAll(allQueues[k])
    {
      jobs := jobs + [SeekAll(allQueues[i])];
    }
  }

  /** SeekAll's job list: the fan-out when no queue is set, nothing when the
      budget is loosely 0, and otherwise the queue's stream cut by a counter
      that stops at the first job past the budget. */
  method GetJobs(queue: Option<Queue>, allQueues: seq<Queue>, store: ResponseStore, classes: seq<SeekableClass>)
    returns (jobs: seq<Job>)
    modifies store
    ensures jobs == Generate(queue, allQueues, old(store.rows), classes)
    ensures store.rows ==
      if queue.None? || LooselyZero(queue.value.maxPerMinute) then old(store.rows)
      else AfterPass(old(store.rows), queue.value.id)
  {
    if queue.None? {
      jobs := SeekAllQueues(allQueues);
      return;
    }
    jobs := [];
    var q := queue.value;
    if LooselyZero(q.maxPerMinute) {
      return;
    }
    var max := q.maxPerMinute.value;
    var stream := JobsForQueue(store, q.id, classes);
    var dispatched := 0;
    var i := 0;
    while i < |stream|
      invariant 0 <= i <= |stream|
      invariant dispatched == i
      invariant jobs + Cutoff(stream[i..], dispatched, max) == Cutoff(stream, 0, max)
    {
      var reached := dispatched >= max;
      dispatched := dispatched + 1;
      if reached {
        return;
      }
      assert stream[i..][1..] == stream[i + 1..];
      jobs := jobs + [stream[i]];
      i := i + 1;
    }
  }

  /** The job's unique id: its class name followed by the queue's name, if any. */
  function UniqueId(jobClass: string, queue: Option<Queue>): (id: string)
  {
    jobClass + (if queue.Some? then queue.value.name else "")
  }

  /** Two SeekAll jobs for queues share their unique id exactly when the
      queues share their name. */
  lemma UniqueIdPerQueueName(jobClass: string, q1: Queue, q2: Queue)
    ensures UniqueId(jobClass, Some(q1)) == UniqueId(jobClass, Some(q2)) <==> q1.name == q2.name
  {
    if UniqueId(jobClass, Some(q1)) == UniqueId(jobClass, Some(q2)) {
      assert q1.name == UniqueId(jobClass, Some(q1))[|jobClass|..];
    }
  }

  /** A SeekAll with no queue shares its unique id with that of a queue
      whose name is empty. */
  lemma UniqueIdUnsetQueue(jobClass: string, q: Queue)
    requires q.name == ""
    ensures UniqueId(jobClass, None) == UniqueId(jobClass, Some(q)) == jobClass
  {
  }

  /** A queue with a budget of 2 and one response that knows of 3 urls and
      has fetched one of them: the two missing urls use up the budget, and
      no seeding job is emitted in this run, whatever seek-once and
      seek-continually work is pending. */
  lemma BudgetSpentOnPagination(q: Queue, r: Response, classes: seq<SeekableClass>, u1: string, u2: string, u3: string)
    requires q.maxPerMinute == Some(2) && r.queueId == q.id && r.seekableUrls == Some(3)
    requires r.childUrls == [u1] && r.candidateUrls == [u1, u2, u3] && u2 != u1 && u3 != u1
    ensures Generate(Some(q), [], [r], classes)
      == [Seek(r.seekable, r.endpoint, Some(u2)), Seek(r.seekable, r.endpoint, Some(u3))]
  {
    var expected := [Seek(r.seekable, r.endpoint, Some(u2)), Seek(r.seekable, r.endpoint, Some(u3))];
    OneFetchedOfThree(r, q.id, u1, u2, u3);
    var s := QueueStream([r], q.id, classes);
    assert s[..2] == expected by {
      assert s == expected + (SeekJobsOf(classes, true) + SeekJobsOf(classes, false));
    }
    CutoffIsPrefix(s, 0, 2);
  }

  lemma OneFetchedOfThree(r: Response, queueId: int, u1: string, u2: string, u3: string)
    requires r.queueId == queueId && r.seekableUrls == Some(3)
    requires r.childUrls == [u1] && r.candidateUrls == [u1, u2, u3] && u2 != u1 && u3 != u1
    ensures IterativeJobs([r], queueId) == [Seek(r.seekable, r.endpoint, Some(u2)), Seek(r.seekable, r.endpoint, Some(u3))]
  {
    assert Unsought([u3], [u1]) == [u3];
    assert Unsought([u2, u3], [u1]) == [u2, u3];
    assert Unsought([u1, u2, u3], [u1]) == [u2, u3];
    assert [r][..0] == [];
  }

  /** A null budget compares loosely equal to 0: such a queue emits nothing,
      however much work is pending. */
  lemma NullBudgetEmitsNothing(q: Queue, allQueues: seq<Queue>, rows: seq<Response>, classes: seq<SeekableClass>)
    requires q.maxPerMinute.None?
    ensures Generate(Some(q), allQueues, rows, classes) == []
  {
  }
}
