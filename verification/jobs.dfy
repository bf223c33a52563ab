/** The in-memory job table of the server (`JOBS` in `app.py`): creation of upload jobs, their
    completion and failure records, the retention purge, cancel requests, the lookup of one
    job and the listing of recent jobs. Times are integers (microseconds since the epoch). */
module Jobs {
  import opened Wrappers
  import opened Seqs
  import opened Text
  import ServerGuards

  datatype Status = Processing | Completed | Failed | Canceled

  /** The text stored under `"status"`. */
  function StatusName(s: Status): string
  {
    match s
    case Processing => "processing"
    case Completed => "completed"
    case Failed => "failed"
    case Canceled => "canceled"
  }

  /** A stored `finished_at`: absent or `None`, text that does not parse as a date, or a time. */
  datatype Stamp = Missing | Malformed | At(t: int)

  /** One job record; `None` stands for a key the record does not have. */
  datatype Job = Job(
    status: Status,
    filename: Option<string>,
    jobLabel: Option<string>,
    createdAt: Option<int>,
    updatedAt: Option<int>,
    finishedAt: Stamp,
    rowsTotal: Option<int>,
    rowsInserted: Option<int>,
    rowsSkipped: Option<int>,
    error: Option<string>,
    progress: Option<int>,
    rowsProcessed: Option<int>,
    cancelRequested: bool)

  /** The empty record `{}` that `JOBS.get(job_id, {})` falls back to; every update of it sets
      the status, so the status here is never observed. */
  const Blank: Job :=
    Job(Processing, None, None, None, None, Missing, None, None, None, None, None, None, false)

  const HourMicros: int := 3_600_000_000

  /** The default retention of `purge_jobs`: two hours. */
  const DefaultRetention: int := 2 * HourMicros

  /** `purge_jobs` deletes the job: it is not processing, and its finish time is missing,
      unreadable, or more than `retention` before `now`. */
  predicate Expired(job: Job, now: int, retention: int)
  {
    job.status != Processing && (job.finishedAt.At? ==> now - job.finishedAt.t > retention)
  }

  function ExpiredIds(jobs: map<string, Job>, now: int, retention: int): set<string>
  {
    set id | id in jobs && Expired(jobs[id], now, retention)
  }

  /** `ids` without the members of `gone`, in order. */
  function Without(ids: seq<string>, gone: set<string>): (r: seq<string>)
    ensures forall x :: x in r <==> x in ids && x !in gone
    decreases |ids|
  {
    if ids == [] then []
    else (if ids[0] in gone then [] else [ids[0]]) + Without(ids[1..], gone)
  }

  lemma {:induction false} WithoutDistinct(ids: seq<string>, gone: set<string>)
    requires Distinct(ids)
    ensures Distinct(Without(ids, gone))
    decreases |ids|
  {
    if ids != [] {
      WithoutDistinct(ids[1..], gone);
      var rest := Without(ids[1..], gone);
      assert ids[0] !in ids[1..];
      assert ids[0] !in rest;
    }
  }

  lemma {:induction false} WithoutTwice(ids: seq<string>, a: set<string>, b: set<string>)
    ensures Without(Without(ids, a), b) == Without(ids, a + b)
    decreases |ids|
  {
    if ids != [] {
      WithoutTwice(ids[1..], a, b);
      var head := if ids[0] in a then [] else [ids[0]];
      var w := Without(ids, a);
      assert w == head + Without(ids[1..], a);
      WithoutAppend(head, Without(ids[1..], a), b);
      if ids[0] !in a {
        assert Without(head, b) == (if ids[0] in b then [] else [ids[0]]) + Without([], b);
      }
    }
  }

  lemma {:induction false} WithoutNothing(ids: seq<string>)
    ensures Without(ids, {}) == ids
    decreases |ids|
  {
    if ids != [] {
      WithoutNothing(ids[1..]);
      assert [ids[0]] + ids[1..] == ids;
    }
  }

  lemma {:induction false} WithoutAppend(x: seq<string>, y: seq<string>, gone: set<string>)
    ensures Without(x + y, gone) == Without(x, gone) + Without(y, gone)
    decreases |x|
  {
    if x == [] {
      assert x + y == y;
    } else {
      var head := if x[0] in gone then [] else [x[0]];
      assert Without(x + y, gone) == head + Without(x[1..] + y, gone) by {
        assert (x + y)[0] == x[0] && (x + y)[1..] == x[1..] + y;
      }
      assert Without(x, gone) == head + Without(x[1..], gone);
      WithoutAppend(x[1..], y, gone);
      AppendAssoc(head, Without(x[1..], gone), Without(y, gone));
    }
  }

  // ---------------------------------------------------------------- the public view

  /** `job_public_view(job_id, job)`: every field but `cancel_requested`. */
  datatype View = View(
    jobId: string,
    status: Status,
    filename: Option<string>,
    jobLabel: Option<string>,
    createdAt: Option<int>,
    updatedAt: Option<int>,
    finishedAt: Stamp,
    rowsTotal: Option<int>,
    rowsInserted: Option<int>,
    rowsSkipped: Option<int>,
    error: Option<string>,
    progress: Option<int>,
    rowsProcessed: Option<int>)

  function PublicView(id: string, job: Job): (v: View)
    ensures v.jobId == id && v.status == job.status && v.updatedAt == job.updatedAt
  {
    View(id, job.status, job.filename, job.jobLabel, job.createdAt, job.updatedAt, job.finishedAt,
         job.rowsTotal, job.rowsInserted, job.rowsSkipped, job.error, job.progress, job.rowsProcessed)
  }

  /** Two records have the same public view exactly when they differ at most in
      `cancel_requested`: the view keeps every other field. */
  lemma PublicViewDropsOnlyCancel(id: string, a: Job, b: Job)
    ensures PublicView(id, a) == PublicView(id, b) <==> a.(cancelRequested := b.cancelRequested) == b
  {
  }

  /** A cancel request shows in the public view only as a newer `updated_at`. */
  lemma CancelInvisibleInView(id: string, job: Job, now: int)
    ensures PublicView(id, job.(cancelRequested := true, updatedAt := Some(now)))
              == PublicView(id, job).(updatedAt := Some(now))
  {
  }

  function ViewsOf(ids: seq<string>, jobs: map<string, Job>): (r: seq<View>)
    requires forall id :: id in ids ==> id in jobs
    ensures |r| == |ids|
    ensures forall i :: 0 <= i < |ids| ==> r[i] == PublicView(ids[i], jobs[ids[i]])
  {
    seq(|ids|, i requires 0 <= i < |ids| => PublicView(ids[i], jobs[ids[i]]))
  }

  // ---------------------------------------------------------------- recent-jobs ordering

  /** `sort_key`: `updated_at`, else `created_at`, else `""` (`None`), which sorts last. ISO
      timestamps of one format compare as text in the order of the times they denote. */
  function RecencyKey(v: View): Option<int>
  {
    if v.updatedAt.Some? then v.updatedAt else v.createdAt
  }

  /** Key `a` may precede key `b` in a newest-first order. */
  predicate AtLeast(a: Option<int>, b: Option<int>)
  {
    b.None? || (a.Some? && a.value >= b.value)
  }

  predicate NewestFirst(vs: seq<View>)
  {
    forall i, j :: 0 <= i < j < |vs| ==> AtLeast(RecencyKey(vs[i]), RecencyKey(vs[j]))
  }

  /** Places `v` after every view whose key is at least its own. */
  function InsertByRecency(vs: seq<View>, v: View): seq<View>
    decreases |vs|
  {
    if vs == [] then [v]
    else if AtLeast(RecencyKey(vs[0]), RecencyKey(v)) then [vs[0]] + InsertByRecency(vs[1..], v)
    else [v] + vs
  }

  /** `jobs.sort(key=sort_key, reverse=True)`: Python's sort is stable, also in reverse. */
  function SortByRecency(vs: seq<View>): seq<View>
    decreases |vs|
  {
    if vs == [] then [] else InsertByRecency(SortByRecency(vs[..|vs| - 1]), vs[|vs| - 1])
  }

  /** `v` alone when its key is `k`, nothing otherwise. */
  function Keyed(v: View, k: Option<int>): seq<View>
  {
    if RecencyKey(v) == k then [v] else []
  }

  /** The views with key `k`, in order. */
  function WithKey(vs: seq<View>, k: Option<int>): seq<View>
    decreases |vs|
  {
    if vs == [] then [] else Keyed(vs[0], k) + WithKey(vs[1..], k)
  }

  lemma WithKeyCons(x: View, s: seq<View>, k: Option<int>)
    ensures WithKey([x] + s, k) == Keyed(x, k) + WithKey(s, k)
  {
    assert ([x] + s)[1..] == s;
  }

  lemma {:induction false} WithKeyAppend(a: seq<View>, b: seq<View>, k: Option<int>)
    ensures WithKey(a + b, k) == WithKey(a, k) + WithKey(b, k)
    decreases |a|
  {
    if a == [] {
      assert a + b == b;
    } else {
      assert a == [a[0]] + a[1..];
      assert a + b == [a[0]] + (a[1..] + b);
      WithKeyCons(a[0], a[1..] + b, k);
      WithKeyCons(a[0], a[1..], k);
      WithKeyAppend(a[1..], b, k);
      AppendAssoc(Keyed(a[0], k), WithKey(a[1..], k), WithKey(b, k));
    }
  }

  lemma {:induction false} WithKeyAbsent(vs: seq<View>, k: Option<int>)
    requires forall i :: 0 <= i < |vs| ==> RecencyKey(vs[i]) != k
    ensures WithKey(vs, k) == []
    decreases |vs|
  {
    if vs != [] {
      WithKeyAbsent(vs[1..], k);
    }
  }

  lemma {:induction false} InsertMultiset(vs: seq<View>, v: View)
    ensures multiset(InsertByRecency(vs, v)) == multiset(vs) + multiset{v}
    decreases |vs|
  {
    if vs != [] && AtLeast(RecencyKey(vs[0]), RecencyKey(v)) {
      InsertMultiset(vs[1..], v);
      assert vs == [vs[0]] + vs[1..];
    }
  }

  /** Every view after position 0 of a newest-first listing has a key at most the first's. */
  lemma HeadBounds(vs: seq<View>, x: View)
    requires NewestFirst(vs) && vs != [] && x in multiset(vs[1..])
    ensures AtLeast(RecencyKey(vs[0]), RecencyKey(x))
  {
    var m :| 0 <= m < |vs[1..]| && vs[1..][m] == x;
    assert vs[m + 1] == x;
  }

  lemma TailSorted(vs: seq<View>)
    requires NewestFirst(vs) && vs != []
    ensures NewestFirst(vs[1..])
  {
    forall i, j | 0 <= i < j < |vs[1..]|
      ensures AtLeast(RecencyKey(vs[1..][i]), RecencyKey(vs[1..][j]))
    {
      assert vs[1..][i] == vs[i + 1] && vs[1..][j] == vs[j + 1];
    }
  }

  /** A view bounding every view of a newest-first listing may go in front of it. */
  lemma PrependSorted(x: View, rest: seq<View>)
    requires NewestFirst(rest)
    requires forall j :: 0 <= j < |rest| ==> AtLeast(RecencyKey(x), RecencyKey(rest[j]))
    ensures NewestFirst([x] + rest)
  {
    var r := [x] + rest;
    forall i, j | 0 <= i < j < |r| ensures AtLeast(RecencyKey(r[i]), RecencyKey(r[j])) {
      assert r[j] == rest[j - 1];
      if i > 0 {
        assert r[i] == rest[i - 1];
      }
    }
  }

  /** A view that may not follow the head of a newest-first listing is strictly newer than
      every view in it. */
  lemma NewerThanAll(vs: seq<View>, v: View)
    requires NewestFirst(vs) && vs != [] && !AtLeast(RecencyKey(vs[0]), RecencyKey(v))
    ensures forall j :: 0 <= j < |vs| ==> AtLeast(RecencyKey(v), RecencyKey(vs[j]))
                                          && RecencyKey(vs[j]) != RecencyKey(v)
  {
    forall j | 0 <= j < |vs|
      ensures AtLeast(RecencyKey(v), RecencyKey(vs[j])) && RecencyKey(vs[j]) != RecencyKey(v)
    {
      if j > 0 {
        assert AtLeast(RecencyKey(vs[0]), RecencyKey(vs[j]));
      }
    }
  }

  /** Inserting below the head keeps every view after the head no newer than it. */
  lemma InsertBelowHead(vs: seq<View>, v: View)
    requires NewestFirst(vs) && vs != [] && AtLeast(RecencyKey(vs[0]), RecencyKey(v))
    ensures forall j :: 0 <= j < |InsertByRecency(vs[1..], v)| ==>
              AtLeast(RecencyKey(vs[0]), RecencyKey(InsertByRecency(vs[1..], v)[j]))
  {
    var rest := InsertByRecency(vs[1..], v);
    InsertMultiset(vs[1..], v);
    forall j | 0 <= j < |rest| ensures AtLeast(RecencyKey(vs[0]), RecencyKey(rest[j])) {
      assert rest[j] in multiset(rest);
      if rest[j] != v {
        HeadBounds(vs, rest[j]);
      }
    }
  }

  lemma {:induction false} InsertSorted(vs: seq<View>, v: View)
    requires NewestFirst(vs)
    ensures NewestFirst(InsertByRecency(vs, v))
    decreases |vs|
  {
    if vs != [] {
      if AtLeast(RecencyKey(vs[0]), RecencyKey(v)) {
        TailSorted(vs);
        InsertSorted(vs[1..], v);
        InsertBelowHead(vs, v);
        PrependSorted(vs[0], InsertByRecency(vs[1..], v));
      } else {
        NewerThanAll(vs, v);
        PrependSorted(v, vs);
      }
    }
  }

  lemma {:induction false} InsertWithKey(vs: seq<View>, v: View, k: Option<int>)
    requires NewestFirst(vs)
    ensures WithKey(InsertByRecency(vs, v), k) == WithKey(vs, k) + Keyed(v, k)
    decreases |vs|
  {
    if vs == [] {
      assert InsertByRecency(vs, v) == [v] + vs;
    } else if AtLeast(RecencyKey(vs[0]), RecencyKey(v)) {
      TailSorted(vs);
      InsertWithKey(vs[1..], v, k);
      InsertBelowWithKey(vs, v, k);
    } else {
      assert InsertByRecency(vs, v) == [v] + vs;
      if RecencyKey(v) == k {
        NewerThanAll(vs, v);
        WithKeyAbsent(vs, k);
      }
    }
  }

  /** Inserting below the head adds to the views of a key what inserting into the tail adds. */
  lemma InsertBelowWithKey(vs: seq<View>, v: View, k: Option<int>)
    requires vs != [] && AtLeast(RecencyKey(vs[0]), RecencyKey(v))
    requires WithKey(InsertByRecency(vs[1..], v), k) == WithKey(vs[1..], k) + Keyed(v, k)
    ensures WithKey(InsertByRecency(vs, v), k) == WithKey(vs, k) + Keyed(v, k)
  {
    var rest := InsertByRecency(vs[1..], v);
    assert InsertByRecency(vs, v) == [vs[0]] + rest;
    assert vs == [vs[0]] + vs[1..];
    WithKeyCons(vs[0], rest, k);
    WithKeyCons(vs[0], vs[1..], k);
    AppendAssoc(Keyed(vs[0], k), WithKey(vs[1..], k), Keyed(v, k));
  }

  /** One step of the sort keeps, for every key, the views with that key in their order. */
  lemma SortStepWithKey(init: seq<View>, last: View, k: Option<int>)
    requires NewestFirst(SortByRecency(init))
    requires WithKey(SortByRecency(init), k) == WithKey(init, k)
    ensures WithKey(InsertByRecency(SortByRecency(init), last), k) == WithKey(init + [last], k)
  {
    InsertWithKey(SortByRecency(init), last, k);
    WithKeyAppend(init, [last], k);
    assert WithKey([last], k) == Keyed(last, k) + WithKey([], k);
  }

  /** The listing is newest first, holds every view exactly as often as before, and views with
      the same key keep their order (the sort is stable). */
  lemma {:induction false} SortByRecencyProperties(vs: seq<View>)
    ensures NewestFirst(SortByRecency(vs))
    ensures multiset(SortByRecency(vs)) == multiset(vs)
    ensures forall k :: WithKey(SortByRecency(vs), k) == WithKey(vs, k)
    decreases |vs|
  {
    if vs != [] {
      var init := vs[..|vs| - 1];
      var last := vs[|vs| - 1];
      assert vs == init + [last];
      SortByRecencyProperties(init);
      InsertSorted(SortByRecency(init), last);
      InsertMultiset(SortByRecency(init), last);
      forall k ensures WithKey(SortByRecency(vs), k) == WithKey(vs, k) {
        SortStepWithKey(init, last, k);
      }
    }
  }

  // ---------------------------------------------------------------- the upload job's file type

  datatype UploadFormat = CsvUpload | JsonUpload | OtherUpload

  /** The suffix test of `process_upload` on the lower-cased file name. */
  function FormatOf(filename: string): UploadFormat
  {
    if EndsWith(Lower(filename), ".csv") then CsvUpload
    else if EndsWith(Lower(filename), ".json") then JsonUpload
    else OtherUpload
  }

  datatype CancelOutcome = NotFound | Ignored(jobStatus: Status) | Accepted

  const UnsupportedMessage: string := "Only CSV or JSON supported"

  /** What `process_upload` ends with: the `(total, inserted)` counts, or the message of the
      exception that fails the job. A name with neither suffix and, for a CSV file, a missing
      key column fail before `outcome` is looked at. */
  function UploadResult(filename: string, csvColumns: seq<string>, plan: ServerGuards.UploadPlan,
                        outcome: Result<(int, int), string>): (r: Result<(int, int), string>)
    ensures FormatOf(filename) == OtherUpload ==> r == Err(UnsupportedMessage)
    ensures FormatOf(filename) == CsvUpload && ServerGuards.CsvColumnCheck(csvColumns, plan).Err? ==>
              r == Err(ServerGuards.CsvColumnCheck(csvColumns, plan).error)
    ensures r.Ok? <==>
              (FormatOf(filename) != OtherUpload && outcome.Ok?
               && (FormatOf(filename) == CsvUpload ==> ServerGuards.CsvColumnCheck(csvColumns, plan).Ok?))
    ensures FormatOf(filename) == JsonUpload ==> r == outcome
    ensures r.Ok? ==> r == outcome
  {
    if FormatOf(filename) == OtherUpload then Err(UnsupportedMessage)
    else if FormatOf(filename) == CsvUpload && ServerGuards.CsvColumnCheck(csvColumns, plan).Err? then
      Err(ServerGuards.CsvColumnCheck(csvColumns, plan).error)
    else outcome
  }

  /** The record `upload_data` stores for a new upload job. */
  function NewUploadJob(filename: string, table: string, now: int): (job: Job)
    ensures job.status == Processing && !Expired(job, now, DefaultRetention)
  {
    Job(Processing, Some(filename), Some("Upload to " + table), Some(now), Some(now), Missing,
        None, None, None, None, Some(0), None, false)
  }

  /** A job that finished at `finished` is deleted by a purge exactly when it finished more than
      `retention` before the purge. */
  lemma FinishedRetention(job: Job, finished: int, now: int, retention: int)
    requires job.status != Processing && job.finishedAt == At(finished)
    ensures Expired(job, now, retention) <==> now - finished > retention
  {
  }

  /** Deleting the next id of `toDelete` from the map and from the order deletes one more
      prefix element of `toDelete` from both. */
  lemma DeleteStep(ids: seq<string>, table: map<string, Job>, toDelete: seq<string>, i: nat)
    requires i < |toDelete|
    ensures (table - ServerGuards.ToSet(toDelete[..i])) - {toDelete[i]}
            == table - ServerGuards.ToSet(toDelete[..i + 1])
    ensures Without(Without(ids, ServerGuards.ToSet(toDelete[..i])), {toDelete[i]})
            == Without(ids, ServerGuards.ToSet(toDelete[..i + 1]))
  {
    var before := ServerGuards.ToSet(toDelete[..i]);
    assert ServerGuards.ToSet(toDelete[..i + 1]) == before + {toDelete[i]} by {
      assert toDelete[..i + 1] == toDelete[..i] + [toDelete[i]];
    }
    WithoutTwice(ids, before, {toDelete[i]});
  }

  /** `JOBS`: the job records and the order in which their ids were first stored. */
  class JobTable {
    var order: seq<string>
    var jobs: map<string, Job>

    ghost predicate Valid()
      reads this
    {
      Distinct(order) && forall id :: id in jobs <==> id in order
    }

    constructor()
      ensures Valid() && order == [] && jobs == map[]
    {
      order := [];
      jobs := map[];
    }

    /** `JOBS.get(job_id, {})`. */
    function Stored(id: string): Job
      reads this
    {
      if id in jobs then jobs[id] else Blank
    }

    /** `JOBS[job_id] = job`: a new id goes to the end, a known one keeps its place. */
    method Store(id: string, job: Job)
      requires Valid()
      modifies this
      ensures Valid()
      ensures jobs == old(jobs)[id := job]
      ensures order == if id in old(jobs) then old(order) else old(order) + [id]
    {
      if id !in jobs {
        order := order + [id];
      }
      jobs := jobs[id := job];
    }

    /** `purge_jobs(retention)` at time `now`: collects the expired ids in table order, then
        pops them. */
    method Purge(now: int, retention: int)
      requires Valid()
      modifies this
      ensures Valid()
      ensures jobs == old(jobs) - ExpiredIds(old(jobs), now, retention)
      ensures order == Without(old(order), ExpiredIds(old(jobs), now, retention))
      ensures forall id :: id in old(jobs) && old(jobs)[id].status == Processing ==>
                id in jobs && jobs[id] == old(jobs)[id]
    {
      var ids := order;
      var table := jobs;
      var toDelete: seq<string> := [];
      for i := 0 to |ids|
        invariant forall id :: id in toDelete <==> id in ids[..i] && Expired(table[id], now, retention)
      {
        assert ids[..i + 1] == ids[..i] + [ids[i]];
        var job := table[ids[i]];
        if job.status != Processing {
          if !job.finishedAt.At? {
            toDelete := toDelete + [ids[i]];
          } else if now - job.finishedAt.t > retention {
            toDelete := toDelete + [ids[i]];
          }
        }
      }
      assert ids[..|ids|] == ids;
      ghost var gone := ExpiredIds(table, now, retention);
      assert forall id :: id in toDelete <==> id in gone;
      WithoutNothing(ids);
      assert ServerGuards.ToSet(toDelete[..0]) == {};
      for i := 0 to |toDelete|
        invariant jobs == table - ServerGuards.ToSet(toDelete[..i])
        invariant order == Without(ids, ServerGuards.ToSet(toDelete[..i]))
      {
        DeleteStep(ids, table, toDelete, i);
        jobs := jobs - {toDelete[i]};
        order := Without(order, {toDelete[i]});
      }
      assert toDelete[..|toDelete|] == toDelete;
      assert ServerGuards.ToSet(toDelete) == gone;
      WithoutDistinct(ids, gone);
    }

    /** `upload_data` once the request is accepted: the purge, then the new processing job
        under an id `generate_job_id` found unused. */
    method CreateUploadJob(id: string, filename: string, table: string, now: int)
      requires Valid()
      requires id in jobs ==> Expired(jobs[id], now, DefaultRetention)
      modifies this
      ensures Valid()
      ensures jobs == (old(jobs) - ExpiredIds(old(jobs), now, DefaultRetention))[id := NewUploadJob(filename, table, now)]
      ensures order == Without(old(order), ExpiredIds(old(jobs), now, DefaultRetention)) + [id]
    {
      Purge(now, DefaultRetention);
      Store(id, NewUploadJob(filename, table, now));
    }

    /** The success record of `process_upload`. */
    method Complete(id: string, total: int, inserted: int, now: int)
      requires Valid()
      modifies this
      ensures Valid()
      ensures jobs == old(jobs)[id := old(Stored(id)).(status := Completed, rowsTotal := Some(total),
                rowsInserted := Some(inserted), rowsSkipped := Some(total - inserted),
                updatedAt := Some(now), finishedAt := At(now), progress := Some(100))]
      ensures order == if id in old(jobs) then old(order) else old(order) + [id]
    {
      var job := Stored(id);
      Store(id, job.(status := Completed, rowsTotal := Some(total), rowsInserted := Some(inserted),
                     rowsSkipped := Some(total - inserted), updatedAt := Some(now),
                     finishedAt := At(now), progress := Some(100)));
    }

    /** The failure record of `process_upload`. */
    method Fail(id: string, message: string, now: int)
      requires Valid()
      modifies this
      ensures Valid()
      ensures jobs == old(jobs)[id := old(Stored(id)).(status := Failed, error := Some(message),
                updatedAt := Some(now), finishedAt := At(now))]
      ensures order == if id in old(jobs) then old(order) else old(order) + [id]
    {
      var job := Stored(id);
      Store(id, job.(status := Failed, error := Some(message), updatedAt := Some(now), finishedAt := At(now)));
    }

    /** `process_upload` around the database work: `filename` is the uploaded file's name
        (`upload_data` lower-cases it before the suffix tests), `csvColumns` the header columns
        `get_csv_header_columns` reads from a CSV file, and `outcome` the `(total, inserted)`
        counts of the insert or the text of the exception it raised. */
    method FinishUpload(id: string, plan: ServerGuards.UploadPlan, filename: string,
                        csvColumns: seq<string>, outcome: Result<(int, int), string>, now: int)
      requires Valid()
      modifies this
      ensures Valid()
      ensures id in jobs && jobs[id].finishedAt == At(now) && jobs[id].updatedAt == Some(now)
      ensures forall other :: other != id ==> (other in jobs <==> other in old(jobs))
      ensures forall other :: other != id && other in jobs ==> jobs[other] == old(jobs)[other]
      ensures jobs[id].status == Completed || jobs[id].status == Failed
      ensures jobs[id].status == Completed <==>
                (FormatOf(filename) != OtherUpload && outcome.Ok?
                 && (FormatOf(filename) == CsvUpload ==> ServerGuards.CsvColumnCheck(csvColumns, plan).Ok?))
      ensures jobs[id].status == Completed ==>
                jobs[id].rowsSkipped == Some(outcome.value.0 - outcome.value.1) && jobs[id].progress == Some(100)
      ensures FormatOf(filename) == OtherUpload ==> jobs[id].error == Some(UnsupportedMessage)
      ensures FormatOf(filename) == CsvUpload && ServerGuards.CsvColumnCheck(csvColumns, plan).Err? ==>
                jobs[id].error == Some(ServerGuards.CsvColumnCheck(csvColumns, plan).error)
      ensures UploadResult(filename, csvColumns, plan, outcome).Ok? ==>
                var counts := UploadResult(filename, csvColumns, plan, outcome).value;
                jobs == old(jobs)[id := old(Stored(id)).(status := Completed, rowsTotal := Some(counts.0),
                  rowsInserted := Some(counts.1), rowsSkipped := Some(counts.0 - counts.1),
                  updatedAt := Some(now), finishedAt := At(now), progress := Some(100))]
      ensures UploadResult(filename, csvColumns, plan, outcome).Err? ==>
                jobs == old(jobs)[id := old(Stored(id)).(status := Failed,
                  error := Some(UploadResult(filename, csvColumns, plan, outcome).error),
                  updatedAt := Some(now), finishedAt := At(now))]
      ensures order == if id in old(jobs) then old(order) else old(order) + [id]
    {
      ghost var result := UploadResult(filename, csvColumns, plan, outcome);
      var format := FormatOf(filename);
      if format == OtherUpload {
        Fail(id, UnsupportedMessage, now);
        return;
      }
      if format == CsvUpload {
        var check := ServerGuards.CsvColumnCheck(csvColumns, plan);
        if check.Err? {
          Fail(id, check.error, now);
          return;
        }
      }
      match outcome {
        case Ok(counts) => Complete(id, counts.0, counts.1, now);
        case Err(message) => Fail(id, message, now);
      }
    }

    /** `cancel_transfer(job_id)` at time `now`. */
    method Cancel(id: string, now: int) returns (outcome: CancelOutcome)
      requires Valid()
      modifies this
      ensures Valid()
      ensures order == Without(old(order), ExpiredIds(old(jobs), now, DefaultRetention))
      ensures var live := old(jobs) - ExpiredIds(old(jobs), now, DefaultRetention);
              && (outcome == NotFound <==> id !in live)
              && (outcome == Accepted <==> id in live && live[id].status == Processing)
              && (outcome.Ignored? ==> id in live && outcome.jobStatus == live[id].status
                                       && outcome.jobStatus != Processing)
              && (outcome == Accepted ==>
                    jobs == live[id := live[id].(cancelRequested := true, updatedAt := Some(now))])
              && (outcome != Accepted ==> jobs == live)
    {
      Purge(now, DefaultRetention);
      if id !in jobs {
        return NotFound;
      }
      var job := jobs[id];
      if job.status != Processing {
        return Ignored(job.status);
      }
      jobs := jobs[id := job.(cancelRequested := true, updatedAt := Some(now))];
      return Accepted;
    }

    /** `job_status(job_id)` at time `now`: `None` answers 404. */
    method JobStatus(id: string, now: int) returns (view: Option<View>)
      requires Valid()
      modifies this
      ensures Valid()
      ensures jobs == old(jobs) - ExpiredIds(old(jobs), now, DefaultRetention)
      ensures order == Without(old(order), ExpiredIds(old(jobs), now, DefaultRetention))
      ensures view.None? <==> id !in jobs
      ensures view.Some? ==> view.value == PublicView(id, jobs[id])
    {
      Purge(now, DefaultRetention);
      if id in jobs {
        view := Some(PublicView(id, jobs[id]));
      } else {
        view := None;
      }
    }

    /** `get_recent_jobs(hours)` at time `now`: purge with a retention of `hours`, then every
        remaining job, newest first. */
    method RecentJobs(now: int, hours: int) returns (views: seq<View>)
      requires Valid()
      modifies this
      ensures Valid()
      ensures jobs == old(jobs) - ExpiredIds(old(jobs), now, hours * HourMicros)
      ensures order == Without(old(order), ExpiredIds(old(jobs), now, hours * HourMicros))
      ensures views == SortByRecency(ViewsOf(order, jobs))
      ensures NewestFirst(views) && multiset(views) == multiset(ViewsOf(order, jobs))
    {
      Purge(now, hours * HourMicros);
      views := SortByRecency(ViewsOf(order, jobs));
      SortByRecencyProperties(ViewsOf(order, jobs));
    }
  }
}
