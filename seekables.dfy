/** Seeding seekables: the registry is split into seek-once and
    seek-continually classes, and every endpoint of a class in the mode picks
    the first instance it matches whose key this class's pass has not taken. */
module Seekables {
  import opened Types

  /** The class filter of one mode: once-mode takes the classes that seek
      once and not continually, continual mode those that seek continually. */
  predicate InMode(c: SeekableClass, seekOnce: bool)
  {
    if seekOnce then c.seekOnce && !c.seekContinually else c.seekContinually
  }

  /** The registry entries of one mode, in registry order. */
  function Classify(classes: seq<SeekableClass>, seekOnce: bool): (r: seq<SeekableClass>)
    ensures |r| <= |classes|
    ensures forall c :: c in r <==> c in classes && InMode(c, seekOnce)
    ensures forall c :: c in r ==> !InMode(c, !seekOnce)
  {
    if classes == [] then []
    else
      assert classes == [classes[0]] + classes[1..];
      (if InMode(classes[0], seekOnce) then [classes[0]] else []) + Classify(classes[1..], seekOnce)
  }

  /** Classification distributes over concatenation, so the kept classes stay
      in registry order, each once. */
  lemma {:induction false} ClassifyAppend(a: seq<SeekableClass>, b: seq<SeekableClass>, seekOnce: bool)
    ensures Classify(a + b, seekOnce) == Classify(a, seekOnce) + Classify(b, seekOnce)
  {
    if a == [] {
      assert a + b == b;
    } else {
      assert (a + b)[1..] == a[1..] + b;
      ClassifyAppend(a[1..], b, seekOnce);
    }
  }

  /** Both modes of one class cannot hold at once: a class tagged both ways
      is seeded continually only. */
  lemma ContinualWins(c: SeekableClass)
    ensures InMode(c, true) <==> c.seekOnce && !c.seekContinually
    ensures InMode(c, false) <==> c.seekContinually
    ensures !(InMode(c, true) && InMode(c, false))
  {
  }

  /** The instances without any Data, in query order. */
  function WithoutData(instances: seq<Instance>): (r: seq<Instance>)
    ensures |r| <= |instances|
    ensures forall x :: x in r <==> x in instances && !x.hasData
  {
    if instances == [] then []
    else
      assert instances == [instances[0]] + instances[1..];
      (if instances[0].hasData then [] else [instances[0]]) + WithoutData(instances[1..])
  }

  /** The filter distributes over concatenation, so the rows it keeps stay
      in query order. */
  lemma {:induction false} WithoutDataAppend(a: seq<Instance>, b: seq<Instance>)
    ensures WithoutData(a + b) == WithoutData(a) + WithoutData(b)
  {
    if a == [] {
      assert a + b == b;
    } else {
      assert (a + b)[1..] == a[1..] + b;
      WithoutDataAppend(a[1..], b);
    }
  }

  /** The base query of a class: in once-mode only the instances without Data. */
  function BaseQuery(c: SeekableClass, seekOnce: bool): (base: seq<Instance>)
    ensures forall x :: x in base <==> x in c.instances && (seekOnce ==> !x.hasData)
  {
    if seekOnce then WithoutData(c.instances) else c.instances
  }

  /** An instance the endpoint's query admits: it matches the closure and its
      key is not among those already taken. */
  predicate Admissible(x: Instance, matching: set<Key>, taken: seq<Key>)
  {
    x.key in matching && x.key !in taken
  }

  /** `base[i]` is admissible and no instance before it is. */
  predicate FirstAdmissible(base: seq<Instance>, i: nat, matching: set<Key>, taken: seq<Key>)
    requires i < |base|
  {
    Admissible(base[i], matching, taken) && forall j :: 0 <= j < i ==> !Admissible(base[j], matching, taken)
  }

  /** The query's `first()`: the first admissible instance, if any. */
  function FirstMatch(base: seq<Instance>, matching: set<Key>, taken: seq<Key>): (r: Option<Instance>)
    ensures r.Some? ==> exists i :: 0 <= i < |base| && base[i] == r.value && FirstAdmissible(base, i, matching, taken)
    ensures r.None? ==> forall j :: 0 <= j < |base| ==> !Admissible(base[j], matching, taken)
  {
    if base == [] then None
    else if Admissible(base[0], matching, taken) then
      Some(base[0])
    else
      var r := FirstMatch(base[1..], matching, taken);
      assert forall j :: 1 <= j < |base| ==> base[j] == base[1..][j - 1];
      if r.Some? then
        var i :| 0 <= i < |base[1..]| && base[1..][i] == r.value && FirstAdmissible(base[1..], i, matching, taken);
        assert base[i + 1] == r.value && FirstAdmissible(base, i + 1, matching, taken);
        r
      else r
  }

  /** `rows[i]` has no Data and is admissible, and every row before it has
      Data or is not admissible. */
  predicate FirstAdmissibleWithoutData(rows: seq<Instance>, i: nat, matching: set<Key>, taken: seq<Key>)
    requires i < |rows|
  {
    && !rows[i].hasData && Admissible(rows[i], matching, taken)
    && forall j :: 0 <= j < i ==> rows[j].hasData || !Admissible(rows[j], matching, taken)
  }

  /** `r` is what `first()` should give over the rows without Data of
      `rows`: the first admissible one in row order, or nothing when none is. */
  predicate FirstWithoutData(rows: seq<Instance>, r: Option<Instance>, matching: set<Key>, taken: seq<Key>)
  {
    && (r.Some? ==> exists i :: 0 <= i < |rows| && rows[i] == r.value && FirstAdmissibleWithoutData(rows, i, matching, taken))
    && (r.None? ==> forall j :: 0 <= j < |rows| ==> rows[j].hasData || !Admissible(rows[j], matching, taken))
  }

  /** `first()` over a row followed by more rows. */
  lemma FirstMatchCons(x: Instance, rest: seq<Instance>, matching: set<Key>, taken: seq<Key>)
    ensures FirstMatch([x] + rest, matching, taken)
      == if Admissible(x, matching, taken) then Some(x) else FirstMatch(rest, matching, taken)
  {
    assert ([x] + rest)[1..] == rest;
  }

  /** The answer for `rows` from the answer for all rows but the first. */
  lemma FirstWithoutDataCons(rows: seq<Instance>, r: Option<Instance>, matching: set<Key>, taken: seq<Key>)
    requires rows != [] && FirstWithoutData(rows[1..], r, matching, taken)
    ensures FirstWithoutData(rows, if !rows[0].hasData && Admissible(rows[0], matching, taken) then Some(rows[0]) else r,
      matching, taken)
  {
    var rest := rows[1..];
    assert forall j :: 1 <= j < |rows| ==> rows[j] == rest[j - 1];
    if !rows[0].hasData && Admissible(rows[0], matching, taken) {
      assert FirstAdmissibleWithoutData(rows, 0, matching, taken);
    } else if r.Some? {
      var i :| 0 <= i < |rest| && rest[i] == r.value && FirstAdmissibleWithoutData(rest, i, matching, taken);
      assert FirstAdmissibleWithoutData(rows, i + 1, matching, taken);
    }
  }

  /** In once-mode `first()` picks, in the class's own row order, the first
      row without Data that is admissible, and nothing only when there is none. */
  lemma {:induction false} FirstMatchWithoutData(rows: seq<Instance>, matching: set<Key>, taken: seq<Key>)
    ensures FirstWithoutData(rows, FirstMatch(WithoutData(rows), matching, taken), matching, taken)
  {
    if rows != [] {
      var rest := rows[1..];
      var r := FirstMatch(WithoutData(rest), matching, taken);
      FirstMatchWithoutData(rest, matching, taken);
      FirstWithoutDataCons(rows, r, matching, taken);
      var picked := if !rows[0].hasData && Admissible(rows[0], matching, taken) then Some(rows[0]) else r;
      if !rows[0].hasData {
        assert WithoutData(rows) == [rows[0]] + WithoutData(rest);
        FirstMatchCons(rows[0], WithoutData(rest), matching, taken);
      } else {
        assert WithoutData(rows) == WithoutData(rest);
      }
      assert FirstMatch(WithoutData(rows), matching, taken) == picked;
    }
  }

  /** Taking more keys never lets `first()` find a row it did not find, and
      keeps its pick while that pick's key stays untaken. */
  lemma FirstMatchGrowTaken(base: seq<Instance>, matching: set<Key>, taken: seq<Key>, taken': seq<Key>)
    requires forall k :: k in taken ==> k in taken'
    ensures FirstMatch(base, matching, taken).None? ==> FirstMatch(base, matching, taken').None?
    ensures FirstMatch(base, matching, taken).Some? && FirstMatch(base, matching, taken).value.key !in taken' ==>
      FirstMatch(base, matching, taken') == FirstMatch(base, matching, taken)
  {
    var m := FirstMatch(base, matching, taken);
    var m' := FirstMatch(base, matching, taken');
    if m'.Some? {
      var i' :| 0 <= i' < |base| && base[i'] == m'.value && FirstAdmissible(base, i', matching, taken');
      assert Admissible(base[i'], matching, taken);
      if m.Some? && m.value.key !in taken' {
        var i :| 0 <= i < |base| && base[i] == m.value && FirstAdmissible(base, i, matching, taken);
        assert Admissible(base[i], matching, taken');
        assert !(i' < i) && !(i < i');
      }
    } else if m.Some? {
      var i :| 0 <= i < |base| && base[i] == m.value && FirstAdmissible(base, i, matching, taken);
      assert !Admissible(base[i], matching, taken');
      assert m.value.key in taken';
    }
  }

  /** The Seeks of one class's pass over the endpoints `rules`, given the keys
      `taken` by earlier endpoints of the pass: each endpoint seeks the first
      admissible instance when its key is truthy, and takes that key. */
  function EndpointJobs(className: string, base: seq<Instance>, rules: seq<EndpointRule>, taken: seq<Key>): (jobs: seq<Job>)
    decreases |rules|
  {
    if rules == [] then []
    else
      var m := FirstMatch(base, rules[0].matching, taken);
      if m.Some? && Truthy(m.value.key) then
        [Seek(Target(className, m.value.key), rules[0].endpointClass, None)]
          + EndpointJobs(className, base, rules[1..], taken + [m.value.key])
      else
        EndpointJobs(className, base, rules[1..], taken)
  }

  /** The `k`-th job of a pass seeks, without a url, an instance of the base
      query whose key is truthy and was not taken before the pass, through
      one of the pass's endpoints, and the instance matches that endpoint. */
  predicate PassJob(j: Job, className: string, base: seq<Instance>, rules: seq<EndpointRule>, taken: seq<Key>)
  {
    && j.Seek? && j.url.None? && j.target.className == className
    && Truthy(j.target.key) && j.target.key !in taken
    && (exists x :: x in base && x.key == j.target.key)
    && (exists rule :: rule in rules && rule.endpointClass == j.endpoint && j.target.key in rule.matching)
  }

  /** A class's pass yields at most one job per endpoint, each a Seek of a
      matching instance of the base query with a truthy key not taken
      before, and no two of its jobs share an instance key. */
  lemma {:induction false} EndpointJobsSound(className: string, base: seq<Instance>, rules: seq<EndpointRule>, taken: seq<Key>)
    ensures var jobs := EndpointJobs(className, base, rules, taken);
      && |jobs| <= |rules|
      && (forall k :: 0 <= k < |jobs| ==> PassJob(jobs[k], className, base, rules, taken))
      && (forall k, l :: 0 <= k < l < |jobs| ==> jobs[k].target.key != jobs[l].target.key)
    decreases |rules|
  {
    if rules != [] {
      var m := FirstMatch(base, rules[0].matching, taken);
      var jobs := EndpointJobs(className, base, rules, taken);
      assert forall rule :: rule in rules[1..] ==> rule in rules;
      if m.Some? && Truthy(m.value.key) {
        var key := m.value.key;
        var rest := EndpointJobs(className, base, rules[1..], taken + [key]);
        EndpointJobsSound(className, base, rules[1..], taken + [key]);
        assert jobs == [jobs[0]] + rest;
        var i :| 0 <= i < |base| && base[i] == m.value && FirstAdmissible(base, i, rules[0].matching, taken);
        assert PassJob(jobs[0], className, base, rules, taken);
        forall k | 1 <= k < |jobs| ensures PassJob(jobs[k], className, base, rules, taken)
          && jobs[0].target.key != jobs[k].target.key
        {
          assert jobs[k] == rest[k - 1];
          assert PassJob(rest[k - 1], className, base, rules[1..], taken + [key]);
        }
      } else {
        EndpointJobsSound(className, base, rules[1..], taken);
      }
    }
  }

  /** The instance keys of the Seeks among `jobs`, in order. */
  function SeekKeys(jobs: seq<Job>): (keys: seq<Key>)
    decreases |jobs|
  {
    if jobs == [] then []
    else (if jobs[0].Seek? then [jobs[0].target.key] else []) + SeekKeys(jobs[1..])
  }

  /** `j` goes through the endpoint of `rule` and seeks `base[i]`, the first
      instance of `base` that the endpoint matches and whose key is not in `taken`. */
  predicate PickedVia(j: Job, base: seq<Instance>, rule: EndpointRule, i: int, taken: seq<Key>)
  {
    && j.Seek? && rule.endpointClass == j.endpoint
    && 0 <= i < |base| && base[i].key == j.target.key && FirstAdmissible(base, i, rule.matching, taken)
  }

  /** `j` seeks, through one of the endpoints `rules`, the first instance it
      matches whose key is not in `taken`. */
  predicate PicksFirst(j: Job, base: seq<Instance>, rules: seq<EndpointRule>, taken: seq<Key>)
  {
    exists rule, i :: rule in rules && 0 <= i < |base| && PickedVia(j, base, rule, i, taken)
  }

  /** Every job of `jobs` picks first, counting as taken the keys in `taken`
      and those of the jobs before it. */
  predicate AllPickFirst(jobs: seq<Job>, base: seq<Instance>, rules: seq<EndpointRule>, taken: seq<Key>)
  {
    forall k :: 0 <= k < |jobs| ==> PicksFirst(jobs[k], base, rules, taken + SeekKeys(jobs[..k]))
  }

  /** Picks among the later endpoints are picks among all of them. */
  lemma AllPickFirstWiden(jobs: seq<Job>, base: seq<Instance>, rules: seq<EndpointRule>, taken: seq<Key>)
    requires rules != [] && AllPickFirst(jobs, base, rules[1..], taken)
    ensures AllPickFirst(jobs, base, rules, taken)
  {
    forall k | 0 <= k < |jobs| ensures PicksFirst(jobs[k], base, rules, taken + SeekKeys(jobs[..k])) {
      var rule, i :| rule in rules[1..] && PickedVia(jobs[k], base, rule, i, taken + SeekKeys(jobs[..k]));
      assert rule in rules;
    }
  }

  /** A first pick followed by picks that count its key as taken. */
  lemma AllPickFirstCons(j: Job, rest: seq<Job>, base: seq<Instance>, rules: seq<EndpointRule>, taken: seq<Key>)
    requires rules != [] && j.Seek? && PicksFirst(j, base, rules, taken)
    requires AllPickFirst(rest, base, rules, taken + [j.target.key])
    ensures AllPickFirst([j] + rest, base, rules, taken)
  {
    var jobs := [j] + rest;
    assert taken + SeekKeys(jobs[..0]) == taken;
    forall k | 1 <= k < |jobs| ensures PicksFirst(jobs[k], base, rules, taken + SeekKeys(jobs[..k])) {
      assert jobs[k] == rest[k - 1];
      assert jobs[..k][1..] == rest[..k - 1];
      assert taken + SeekKeys(jobs[..k]) == taken + [j.target.key] + SeekKeys(rest[..k - 1]);
    }
  }

  /** Every job of a pass seeks the first instance its endpoint matches among
      those whose key was taken neither before the pass nor by an earlier job
      of the pass. */
  lemma {:induction false} EndpointJobsPickFirst(className: string, base: seq<Instance>, rules: seq<EndpointRule>, taken: seq<Key>)
    ensures AllPickFirst(EndpointJobs(className, base, rules, taken), base, rules, taken)
    decreases |rules|
  {
    if rules != [] {
      var m := FirstMatch(base, rules[0].matching, taken);
      if m.Some? && Truthy(m.value.key) {
        var key := m.value.key;
        var j := Seek(Target(className, key), rules[0].endpointClass, None);
        var rest := EndpointJobs(className, base, rules[1..], taken + [key]);
        EndpointJobsPickFirst(className, base, rules[1..], taken + [key]);
        AllPickFirstWiden(rest, base, rules, taken + [key]);
        var i :| 0 <= i < |base| && base[i] == m.value && FirstAdmissible(base, i, rules[0].matching, taken);
        assert PickedVia(j, base, rules[0], i, taken);
        AllPickFirstCons(j, rest, base, rules, taken);
      } else {
        EndpointJobsPickFirst(className, base, rules[1..], taken);
        AllPickFirstWiden(EndpointJobs(className, base, rules[1..], taken), base, rules, taken);
      }
    }
  }

  /** The keys a pass takes are all truthy. */
  lemma {:induction false} PassKeysTruthy(className: string, base: seq<Instance>, rules: seq<EndpointRule>, taken: seq<Key>)
    ensures forall k :: k in SeekKeys(EndpointJobs(className, base, rules, taken)) ==> Truthy(k)
    decreases |rules|
  {
    if rules != [] {
      var m := FirstMatch(base, rules[0].matching, taken);
      var jobs := EndpointJobs(className, base, rules, taken);
      if m.Some? && Truthy(m.value.key) {
        var rest := EndpointJobs(className, base, rules[1..], taken + [m.value.key]);
        PassKeysTruthy(className, base, rules[1..], taken + [m.value.key]);
        assert jobs[1..] == rest;
      } else {
        PassKeysTruthy(className, base, rules[1..], taken);
      }
    }
  }

  /** The endpoint of `rule` got a job among `jobs`, or its query finds no
      row with a truthy key once the keys in `taken` are excluded. */
  predicate Served(jobs: seq<Job>, base: seq<Instance>, rule: EndpointRule, taken: seq<Key>)
  {
    || (exists j :: j in jobs && j.Seek? && j.endpoint == rule.endpointClass)
    || FirstMatch(base, rule.matching, taken).None?
    || !Truthy(FirstMatch(base, rule.matching, taken).value.key)
  }

  /** No endpoint is skipped while a truthy-keyed row it matches is left:
      every endpoint of the pass got a job, or its query, run against all the
      keys taken by the end of the pass, finds nothing or a falsy key. */
  lemma {:induction false} EndpointJobsComplete(className: string, base: seq<Instance>, rules: seq<EndpointRule>, taken: seq<Key>, e: nat)
    requires e < |rules|
    ensures Served(EndpointJobs(className, base, rules, taken), base, rules[e],
      taken + SeekKeys(EndpointJobs(className, base, rules, taken)))
    decreases |rules|
  {
    var m := FirstMatch(base, rules[0].matching, taken);
    var jobs := EndpointJobs(className, base, rules, taken);
    if m.Some? && Truthy(m.value.key) {
      var key := m.value.key;
      var rest := EndpointJobs(className, base, rules[1..], taken + [key]);
      assert jobs == [jobs[0]] + rest;
      assert jobs[1..] == rest;
      assert taken + SeekKeys(jobs) == taken + [key] + SeekKeys(rest);
      if e == 0 {
        assert jobs[0] in jobs;
      } else {
        EndpointJobsComplete(className, base, rules[1..], taken + [key], e - 1);
        assert rules[1..][e - 1] == rules[e];
        if exists j :: j in rest && j.Seek? && j.endpoint == rules[e].endpointClass {
          var j :| j in rest && j.Seek? && j.endpoint == rules[e].endpointClass;
          assert j in jobs;
        }
      }
    } else {
      assert jobs == EndpointJobs(className, base, rules[1..], taken);
      if e == 0 {
        PassKeysTruthy(className, base, rules[1..], taken);
        FirstMatchGrowTaken(base, rules[0].matching, taken, taken + SeekKeys(jobs));
      } else {
        EndpointJobsComplete(className, base, rules[1..], taken, e - 1);
        assert rules[1..][e - 1] == rules[e];
      }
    }
  }

  /** The pass over `rules` is the pass over its first `e` endpoints followed
      by the pass over the rest, which starts with the keys the first part took:
      the endpoints are served in registration order. */
  lemma {:induction false} EndpointJobsSplit(className: string, base: seq<Instance>, rules: seq<EndpointRule>, taken: seq<Key>, e: nat)
    requires e <= |rules|
    ensures EndpointJobs(className, base, rules, taken)
      == EndpointJobs(className, base, rules[..e], taken)
        + EndpointJobs(className, base, rules[e..], taken + SeekKeys(EndpointJobs(className, base, rules[..e], taken)))
    decreases e
  {
    var front := EndpointJobs(className, base, rules[..e], taken);
    if e == 0 {
      assert rules[..0] == [] && rules[0..] == rules;
      assert taken + SeekKeys(front) == taken;
    } else {
      var m := FirstMatch(base, rules[0].matching, taken);
      assert rules[..e][0] == rules[0];
      assert rules[..e][1..] == rules[1..][..e - 1];
      assert rules[1..][e - 1..] == rules[e..];
      if m.Some? && Truthy(m.value.key) {
        var key := m.value.key;
        var front' := EndpointJobs(className, base, rules[1..][..e - 1], taken + [key]);
        EndpointJobsSplit(className, base, rules[1..], taken + [key], e - 1);
        assert front == [front[0]] + front';
        assert front[1..] == front';
        assert taken + SeekKeys(front) == taken + [key] + SeekKeys(front');
      } else {
        EndpointJobsSplit(className, base, rules[1..], taken, e - 1);
      }
    }
  }

  /** At its own turn, endpoint `e` seeks the first row it matches whose key
      was not taken before the pass or by the endpoints registered before it,
      when that key is truthy, and yields nothing otherwise. */
  lemma EndpointAtTurn(className: string, base: seq<Instance>, rules: seq<EndpointRule>, taken: seq<Key>, e: nat)
    requires e < |rules|
    ensures var before := EndpointJobs(className, base, rules[..e], taken);
      var m := FirstMatch(base, rules[e].matching, taken + SeekKeys(before));
      EndpointJobs(className, base, rules[..e + 1], taken)
        == before + (if m.Some? && Truthy(m.value.key) then [Seek(Target(className, m.value.key), rules[e].endpointClass, None)] else [])
  {
    var upto := rules[..e + 1];
    EndpointJobsSplit(className, base, upto, taken, e);
    assert upto[..e] == rules[..e];
    assert upto[e..] == [rules[e]];
    assert [rules[e]][1..] == [];
  }

  /** All jobs are Seeks and no two go through the same endpoint class. */
  predicate DistinctEndpoints(jobs: seq<Job>)
  {
    forall k, l :: 0 <= k < l < |jobs| ==> jobs[k].Seek? && jobs[l].Seek? && jobs[k].endpoint != jobs[l].endpoint
  }

  /** Endpoints registered under distinct classes each yield at most one job:
      no endpoint class appears twice among a pass's jobs. */
  lemma {:induction false} OneJobPerEndpoint(className: string, base: seq<Instance>, rules: seq<EndpointRule>, taken: seq<Key>)
    requires forall e, f :: 0 <= e < f < |rules| ==> rules[e].endpointClass != rules[f].endpointClass
    ensures DistinctEndpoints(EndpointJobs(className, base, rules, taken))
    decreases |rules|
  {
    if rules != [] {
      var m := FirstMatch(base, rules[0].matching, taken);
      var taken' := if m.Some? && Truthy(m.value.key) then taken + [m.value.key] else taken;
      var rest := EndpointJobs(className, base, rules[1..], taken');
      OneJobPerEndpoint(className, base, rules[1..], taken');
      if m.Some? && Truthy(m.value.key) {
        EndpointJobsSound(className, base, rules[1..], taken');
        var jobs := EndpointJobs(className, base, rules, taken);
        assert jobs == [jobs[0]] + rest;
        forall l | 0 < l < |jobs| ensures jobs[l].Seek? && jobs[0].endpoint != jobs[l].endpoint {
          assert jobs[l] == rest[l - 1];
          assert PassJob(rest[l - 1], className, base, rules[1..], taken');
          var rule :| rule in rules[1..] && rule.endpointClass == rest[l - 1].endpoint;
          var e :| 0 <= e < |rules[1..]| && rules[1..][e] == rule;
          assert rules[e + 1] == rule;
        }
      } else {
        assert EndpointJobs(className, base, rules, taken) == rest;
      }
    }
  }

  /** The jobs of one class in one mode: a pass over its endpoints, starting
      with no key taken. */
  function ClassJobs(c: SeekableClass, seekOnce: bool): (jobs: seq<Job>)
  {
    EndpointJobs(c.name, BaseQuery(c, seekOnce), c.endpoints, [])
  }

  /** The jobs of the selected classes, one class after the other. */
  function PassJobs(selected: seq<SeekableClass>, seekOnce: bool): (jobs: seq<Job>)
    decreases |selected|
  {
    if selected == [] then [] else ClassJobs(selected[0], seekOnce) + PassJobs(selected[1..], seekOnce)
  }

  /** The seek jobs of one mode. */
  function SeekJobsOf(classes: seq<SeekableClass>, seekOnce: bool): (jobs: seq<Job>)
  {
    PassJobs(Classify(classes, seekOnce), seekOnce)
  }

  /** Some instance of `c` with this key may be sought in the mode. */
  predicate HasSeekable(c: SeekableClass, key: Key, seekOnce: bool)
  {
    exists x :: x in c.instances && x.key == key && (seekOnce ==> !x.hasData)
  }

  /** `j` is a plain Seek (no url) of an instance of a class of the mode, one
      without Data in once-mode. */
  predicate SeeksInMode(j: Job, classes: seq<SeekableClass>, seekOnce: bool)
  {
    && j.Seek? && j.url.None? && Truthy(j.target.key)
    && exists c :: c in classes && c.name == j.target.className && InMode(c, seekOnce) && HasSeekable(c, j.target.key, seekOnce)
  }

  /** Every seek job of a mode seeks, without a url, a truthy-keyed instance of
      a registered class of that mode; in once-mode an instance without Data. */
  lemma {:induction false} SeekJobsInMode(classes: seq<SeekableClass>, seekOnce: bool, j: Job)
    requires j in SeekJobsOf(classes, seekOnce)
    ensures SeeksInMode(j, classes, seekOnce)
  {
    PassJobsInMode(classes, Classify(classes, seekOnce), seekOnce, j);
  }

  /** The jobs of classes of the mode, one class after the other, seek in that mode. */
  lemma {:induction false} PassJobsInMode(classes: seq<SeekableClass>, selected: seq<SeekableClass>, seekOnce: bool, j: Job)
    requires forall c :: c in selected ==> c in classes && InMode(c, seekOnce)
    requires j in PassJobs(selected, seekOnce)
    ensures SeeksInMode(j, classes, seekOnce)
  {
    var c := selected[0];
    if j in ClassJobs(c, seekOnce) {
      var jobs := ClassJobs(c, seekOnce);
      var k :| 0 <= k < |jobs| && jobs[k] == j;
      EndpointJobsSound(c.name, BaseQuery(c, seekOnce), c.endpoints, []);
      assert PassJob(jobs[k], c.name, BaseQuery(c, seekOnce), c.endpoints, []);
      var x :| x in BaseQuery(c, seekOnce) && x.key == j.target.key;
      assert HasSeekable(c, j.target.key, seekOnce);
    } else {
      assert forall c :: c in selected[1..] ==> c in selected;
      PassJobsInMode(classes, selected[1..], seekOnce, j);
    }
  }

  /** An instance with Data is never seeded in once-mode (when the keys of a
      class identify its instances). */
  lemma SoughtNeverSeededOnce(classes: seq<SeekableClass>, c: SeekableClass, x: Instance)
    requires forall a, b :: a in classes && b in classes && a.name == b.name ==> a == b
    requires c in classes && x in c.instances && x.hasData
    requires forall y :: y in c.instances && y.key == x.key ==> y == x
    ensures forall j :: j in SeekJobsOf(classes, true) ==> j.Seek? && j.target != Target(c.name, x.key)
  {
    forall j | j in SeekJobsOf(classes, true) ensures j.Seek? && j.target != Target(c.name, x.key) {
      SeekJobsInMode(classes, true, j);
    }
  }

  /** The seek jobs of one mode, as `getSeekJobs` does: for every class
      of the mode, a pass over its endpoints that collects the keys taken. */
  method SeekJobs(classes: seq<SeekableClass>, seekOnce: bool) returns (jobs: seq<Job>)
    ensures jobs == SeekJobsOf(classes, seekOnce)
  {
    var selected := Classify(classes, seekOnce);
    jobs := [];
    var i := 0;
    while i < |selected|
      invariant 0 <= i <= |selected|
      invariant jobs + PassJobs(selected[i..], seekOnce) == PassJobs(selected, seekOnce)
    {
      var classJobs := SeekClass(selected[i], seekOnce);
      assert PassJobs(selected[i..], seekOnce) == classJobs + PassJobs(selected[i + 1..], seekOnce) by {
        assert selected[i..][1..] == selected[i + 1..];
      }
      jobs := jobs + classJobs;
      i := i + 1;
    }
    assert selected[i..] == [];
  }

  /** One class's pass: each endpoint, in order, seeks the first instance of
      the base query that matches it and whose key is not yet taken. */
  method SeekClass(c: SeekableClass, seekOnce: bool) returns (jobs: seq<Job>)
    ensures jobs == ClassJobs(c, seekOnce)
  {
    var base := BaseQuery(c, seekOnce);
    var keys: seq<Key> := [];
    jobs := [];
    var e := 0;
    while e < |c.endpoints|
      invariant 0 <= e <= |c.endpoints|
      invariant jobs + EndpointJobs(c.name, base, c.endpoints[e..], keys) == ClassJobs(c, seekOnce)
    {
      var rule := c.endpoints[e];
      assert c.endpoints[e..][1..] == c.endpoints[e + 1..];
      var seekable := FirstMatch(base, rule.matching, keys);
      if seekable.Some? && Truthy(seekable.value.key) {
        var key := seekable.value.key;
        var job := Seek(Target(c.name, key), rule.endpointClass, None);
        assert EndpointJobs(c.name, base, c.endpoints[e..], keys)
          == [job] + EndpointJobs(c.name, base, c.endpoints[e + 1..], keys + [key]);
        keys := keys + [key];
        jobs := jobs + [job];
      } else {
        assert EndpointJobs(c.name, base, c.endpoints[e..], keys)
          == EndpointJobs(c.name, base, c.endpoints[e + 1..], keys);
      }
      e := e + 1;
    }
  }
}
