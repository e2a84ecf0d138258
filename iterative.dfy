/** Resuming pagination: the responses of a queue whose seekable urls are not
    yet all followed, the one-time recording of `seekable_urls`, and the Seek
    job for every candidate url that no child response was fetched from. */
module Iterative {
  import opened Types

  /** The query's condition on a response: the number of seekable urls is
      not known yet, or it is positive and exceeds the number of children. */
  predicate NeedsSeeking(r: Response)
  {
    r.seekableUrls.None? || (r.seekableUrls.value > 0 && |r.childUrls| < r.seekableUrls.value)
  }

  /** A response the cursor visits: its endpoint is in the queue and it needs seeking. */
  predicate Selected(r: Response, queueId: int)
  {
    r.queueId == queueId && NeedsSeeking(r)
  }

  /** The candidate urls rejected when some child was already fetched from them,
      in candidate order and with the candidates' repetitions. */
  function Unsought(candidates: seq<string>, children: seq<string>): (r: seq<string>)
    ensures |r| <= |candidates|
    ensures forall u :: u in r <==> u in candidates && u !in children
  {
    if candidates == [] then []
    else
      assert candidates == [candidates[0]] + candidates[1..];
      if candidates[0] in children then Unsought(candidates[1..], children)
      else [candidates[0]] + Unsought(candidates[1..], children)
  }

  /** Each surviving url occurs as often as among the candidates; a fetched
      one does not occur at all. */
  lemma {:induction false} UnsoughtCounts(candidates: seq<string>, children: seq<string>, u: string)
    ensures multiset(Unsought(candidates, children))[u] == if u in children then 0 else multiset(candidates)[u]
  {
    if candidates != [] {
      assert candidates == [candidates[0]] + candidates[1..];
      UnsoughtCounts(candidates[1..], children, u);
    }
  }

  /** Rejecting urls commutes with splitting the candidates: the urls that
      survive keep the order they had among the candidates. */
  lemma {:induction false} UnsoughtAppend(a: seq<string>, b: seq<string>, children: seq<string>)
    ensures Unsought(a + b, children) == Unsought(a, children) + Unsought(b, children)
  {
    if a == [] {
      assert a + b == b;
    } else {
      assert (a + b)[1..] == a[1..] + b;
      UnsoughtAppend(a[1..], b, children);
    }
  }

  /** A Seek of the response's seekable through its endpoint for each url. */
  function SeeksFor(r: Response, urls: seq<string>): (jobs: seq<Job>)
  {
    seq(|urls|, k requires 0 <= k < |urls| => Seek(r.seekable, r.endpoint, Some(urls[k])))
  }

  /** The jobs emitted for one visited response. */
  function ResponseJobs(r: Response): (jobs: seq<Job>)
  {
    if r.candidateUrls == [] then []
    else SeeksFor(r, Unsought(r.candidateUrls, r.childUrls))
  }

  /** The jobs of one response are exactly the Seeks of its candidate urls that
      no child was fetched from, one per occurrence, in candidate order. */
  lemma ResponseJobsExact(r: Response)
    ensures |ResponseJobs(r)| == |Unsought(r.candidateUrls, r.childUrls)|
    ensures forall k :: 0 <= k < |ResponseJobs(r)| ==>
      ResponseJobs(r)[k] == Seek(r.seekable, r.endpoint, Some(Unsought(r.candidateUrls, r.childUrls)[k]))
    ensures r.candidateUrls == [] ==> ResponseJobs(r) == []
  {
  }

  /** A response yields a Seek of url `u` iff `u` is a candidate that no
      child was fetched from. */
  lemma ResponseJobsContain(r: Response, u: string)
    ensures Seek(r.seekable, r.endpoint, Some(u)) in ResponseJobs(r) <==>
      u in r.candidateUrls && u !in r.childUrls
  {
    var us := Unsought(r.candidateUrls, r.childUrls);
    var job := Seek(r.seekable, r.endpoint, Some(u));
    if u in us {
      var k :| 0 <= k < |us| && us[k] == u;
      assert ResponseJobs(r)[k] == job;
    }
    if job in ResponseJobs(r) {
      var k :| 0 <= k < |ResponseJobs(r)| && ResponseJobs(r)[k] == job;
      assert us[k] == u;
    }
  }

  /** A response yields nothing exactly when every candidate url was already
      fetched by a child: pagination is resumed until no url is left. */
  lemma AllFetchedYieldsNothing(r: Response)
    ensures ResponseJobs(r) == [] <==> forall u :: u in r.candidateUrls ==> u in r.childUrls
  {
    if r.candidateUrls != [] {
      var us := Unsought(r.candidateUrls, r.childUrls);
      if us != [] {
        assert ResponseJobs(r)[0] == Seek(r.seekable, r.endpoint, Some(us[0]));
        assert us[0] in us;
      }
    }
  }

  /** The response once its `seekable_urls` is recorded: written, with the
      candidate count, only while it is still null. */
  function Recorded(r: Response): (r': Response)
  {
    if r.seekableUrls.None? then r.(seekableUrls := Some(|r.candidateUrls|)) else r
  }

  /** The responses after one pass over a queue. */
  function AfterPass(rows: seq<Response>, queueId: int): (rows': seq<Response>)
  {
    seq(|rows|, i requires 0 <= i < |rows| => if Selected(rows[i], queueId) then Recorded(rows[i]) else rows[i])
  }

  /** A pass writes `seekable_urls` of exactly the selected responses whose
      count is still null, to their candidate count; a count that is already
      set is never changed, and nothing else of a response is. */
  lemma {:induction false} PassSetsCountOnce(rows: seq<Response>, queueId: int, i: nat)
    requires i < |rows|
    ensures AfterPass(rows, queueId)[i].seekableUrls ==
      if rows[i].seekableUrls.None? && rows[i].queueId == queueId then Some(|rows[i].candidateUrls|)
      else rows[i].seekableUrls
    ensures AfterPass(rows, queueId)[i] == rows[i].(seekableUrls := AfterPass(rows, queueId)[i].seekableUrls)
  {
    var r := rows[i];
    if r.seekableUrls.None? && r.queueId == queueId {
      assert Selected(r, queueId);
    }
  }

  /** A second pass over the same responses writes nothing: after one pass
      every response of the queue has its count recorded. */
  lemma {:induction false} AfterPassIdempotent(rows: seq<Response>, queueId: int)
    ensures AfterPass(AfterPass(rows, queueId), queueId) == AfterPass(rows, queueId)
  {
    var once := AfterPass(rows, queueId);
    var twice := AfterPass(once, queueId);
    forall i | 0 <= i < |rows| ensures twice[i] == once[i] {
      PassSetsCountOnce(rows, queueId, i);
      PassSetsCountOnce(once, queueId, i);
    }
  }

  /** Selection counts children, not the urls they came from: a response whose
      count is first recorded as no more than its number of children is not
      resumed after that pass, whatever urls its children were fetched from. */
  lemma ResumeStopsAtChildCount(rows: seq<Response>, queueId: int, i: nat)
    requires i < |rows| && rows[i].queueId == queueId && rows[i].seekableUrls.None?
    requires |rows[i].candidateUrls| <= |rows[i].childUrls|
    ensures Selected(rows[i], queueId)
    ensures !Selected(AfterPass(rows, queueId)[i], queueId)
  {
    PassSetsCountOnce(rows, queueId, i);
  }

  /** Two children fetched from the same url `a` and candidates `a`, `b`: the
      first pass seeks `b` and records a count of 2, and the next pass seeks
      nothing, although no child was fetched from `b`. */
  lemma RepeatedChildUrlStopsResume(r: Response, queueId: int)
    requires r.queueId == queueId && r.seekableUrls.None?
    requires r.childUrls == ["a", "a"] && r.candidateUrls == ["a", "b"]
    ensures IterativeJobs([r], queueId) == [Seek(r.seekable, r.endpoint, Some("b"))]
    ensures IterativeJobs(AfterPass([r], queueId), queueId) == []
    ensures "b" !in AfterPass([r], queueId)[0].childUrls
  {
    assert Unsought(["b"], r.childUrls) == ["b"];
    assert Unsought(["a", "b"], r.childUrls) == ["b"];
    assert [r][..0] == [];
    var after := AfterPass([r], queueId);
    ResumeStopsAtChildCount([r], queueId, 0);
    assert after[..0] == [];
  }

  /** The iterative jobs of a queue: the jobs of every selected response, in cursor order. */
  function IterativeJobs(rows: seq<Response>, queueId: int): (jobs: seq<Job>)
    decreases |rows|
  {
    if rows == [] then []
    else
      var last := rows[|rows| - 1];
      IterativeJobs(rows[..|rows| - 1], queueId) + (if Selected(last, queueId) then ResponseJobs(last) else [])
  }

  /** A queue none of whose endpoints has a stored response has no iterative jobs. */
  lemma {:induction false} NoResponsesNoIterativeJobs(rows: seq<Response>, queueId: int)
    requires forall i :: 0 <= i < |rows| ==> rows[i].queueId != queueId
    ensures IterativeJobs(rows, queueId) == []
    decreases |rows|
  {
    if rows != [] {
      NoResponsesNoIterativeJobs(rows[..|rows| - 1], queueId);
    }
  }

  /** `j` seeks, through the endpoint of `r`, selected in the queue, a
      candidate url of `r` that none of its children was fetched from. */
  predicate SeeksFrom(j: Job, r: Response, queueId: int)
  {
    && Selected(r, queueId)
    && j.Seek? && j.target == r.seekable && j.endpoint == r.endpoint
    && j.url.Some? && j.url.value in r.candidateUrls && j.url.value !in r.childUrls
  }

  /** Every iterative job seeks, through a selected response's endpoint, a
      candidate url of that response that none of its children was fetched from. */
  lemma {:induction false} IterativeJobsSound(rows: seq<Response>, queueId: int, j: Job)
    requires j in IterativeJobs(rows, queueId)
    ensures j.Seek? && j.url.Some?
    ensures exists i :: 0 <= i < |rows| && SeeksFrom(j, rows[i], queueId)
  {
    var n := |rows|;
    var last := rows[n - 1];
    var front := rows[..n - 1];
    if j in IterativeJobs(front, queueId) {
      IterativeJobsSound(front, queueId, j);
      var i :| 0 <= i < |front| && SeeksFrom(j, front[i], queueId);
      assert rows[i] == front[i];
    } else {
      assert Selected(last, queueId) && j in ResponseJobs(last);
      ResponseJobsExact(last);
      var us := Unsought(last.candidateUrls, last.childUrls);
      var k :| 0 <= k < |ResponseJobs(last)| && ResponseJobs(last)[k] == j;
      assert us[k] in us;
      assert SeeksFrom(j, rows[n - 1], queueId);
    }
  }

  /** Conversely every candidate url of a selected response that no child
      was fetched from is sought. */
  lemma {:induction false} IterativeJobsComplete(rows: seq<Response>, queueId: int, i: nat, u: string)
    requires i < |rows| && Selected(rows[i], queueId)
    requires u in rows[i].candidateUrls && u !in rows[i].childUrls
    ensures Seek(rows[i].seekable, rows[i].endpoint, Some(u)) in IterativeJobs(rows, queueId)
  {
    var n := |rows|;
    var job := Seek(rows[i].seekable, rows[i].endpoint, Some(u));
    var front := rows[..n - 1];
    if i < n - 1 {
      assert front[i] == rows[i];
      IterativeJobsComplete(front, queueId, i, u);
      assert job in IterativeJobs(front, queueId);
    } else {
      ResponseJobsContain(rows[i], u);
      assert job in ResponseJobs(rows[n - 1]);
    }
    assert IterativeJobs(rows, queueId) == IterativeJobs(front, queueId)
      + (if Selected(rows[n - 1], queueId) then ResponseJobs(rows[n - 1]) else []);
  }

  /** The stored responses; the only state SeekAll writes is the
      `seekable_urls` column of a response. */
  class ResponseStore {
    var rows: seq<Response>

    constructor (rows: seq<Response>)
      ensures this.rows == rows
    {
      this.rows := rows;
    }

    /** Saves one response in place. */
    method Save(i: nat, r: Response)
      requires i < |rows|
      modifies this
      ensures rows == old(rows)[i := r]
    {
      rows := rows[i := r];
    }
  }

  /** Emits a Seek of the response's seekable through its endpoint for each url, in order. */
  method EmitSeeks(r: Response, urls: seq<string>) returns (jobs: seq<Job>)
    ensures |jobs| == |urls|
    ensures forall k :: 0 <= k < |urls| ==> jobs[k] == Seek(r.seekable, r.endpoint, Some(urls[k]))
  {
    jobs := [];
    var k := 0;
    while k < |urls|
      invariant 0 <= k <= |urls|
      invariant jobs == SeeksFor(r, urls[..k])
    {
      jobs := jobs + [Seek(r.seekable, r.endpoint, Some(urls[k]))];
      k := k + 1;
    }
  }

  /** Handles the response at position `i` of the cursor: when it is selected,
      records its `seekable_urls` while still null and emits its jobs. */
  method Visit(store: ResponseStore, i: nat, queueId: int) returns (emitted: seq<Job>)
    requires i < |store.rows|
    modifies store
    ensures store.rows == old(store.rows)[i := AfterPass(old(store.rows), queueId)[i]]
    ensures emitted == if Selected(old(store.rows)[i], queueId) then ResponseJobs(old(store.rows)[i]) else []
  {
    var response := store.rows[i];
    emitted := [];
    if Selected(response, queueId) {
      var urls := response.candidateUrls;
      if response.seekableUrls.None? {
        store.Save(i, response.(seekableUrls := Some(|urls|)));
      }
      if urls != [] {
        emitted := EmitSeeks(response, Unsought(urls, response.childUrls));
      }
    }
  }

  /** Visits the selected responses of the queue in order, records each one's
      `seekable_urls` while still null, and emits a Seek for every candidate
      url that no child was fetched from. */
  method SeekIterativeJobs(store: ResponseStore, queueId: int) returns (jobs: seq<Job>)
    modifies store
    ensures store.rows == AfterPass(old(store.rows), queueId)
    ensures jobs == IterativeJobs(old(store.rows), queueId)
  {
    ghost var rows0 := store.rows;
    ghost var after := AfterPass(rows0, queueId);
    jobs := [];
    var i := 0;
    while i < |store.rows|
      invariant 0 <= i <= |rows0| == |store.rows|
      invariant forall k :: 0 <= k < i ==> store.rows[k] == after[k]
      invariant forall k :: i <= k < |rows0| ==> store.rows[k] == rows0[k]
      invariant jobs == IterativeJobs(rows0[..i], queueId)
    {
      var emitted := Visit(store, i, queueId);
      assert rows0[..i + 1][..i] == rows0[..i];
      jobs := jobs + emitted;
      i := i + 1;
    }
    assert rows0[..i] == rows0;
    assert store.rows == after;
  }
}
