/** One tick of the browser's job-card poller (`monitorJobCard` in `script.js`): what the card
    shows and whether the interval is cleared, given the answer of `/job-status/{id}`. */
module Polling {
  import opened Wrappers
  import opened JsonValue
  import Jobs

  /** The effect of one tick on the job card. */
  datatype Tick =
    | ConnectionError              // the fetch, `res.json()` or a property read threw
    | CardGone                     // the card was removed from the page
    | ShowCompleted
    | ShowFailed(message: string)
    | ShowProgress(percent: string)
    | NoChange                     // any other status, or none at all

  /** The interval is cleared after this tick. */
  predicate Stops(t: Tick)
  {
    t.ConnectionError? || t.CardGone? || t.ShowCompleted? || t.ShowFailed?
  }

  /** `job.status`: a member of an object; `undefined` on any other non-null value. */
  function StatusOf(job: Json): Option<Json>
  {
    if job.JObj? then Get(job.fields, "status") else None
  }

  function Member(job: Json, key: string): Option<Json>
  {
    if job.JObj? then Get(job.fields, key) else None
  }

  /** One tick: `response` is the parsed body, `None` when the request or the parse threw;
      `cardPresent` says whether the job card is still on the page. */
  function PollTick(response: Option<Json>, cardPresent: bool): (t: Tick)
    ensures Stops(t) <==>
              (|| response.None?
               || !cardPresent
               || response.value.JNull?
               || StatusOf(response.value) == Some(JStr("completed"))
               || StatusOf(response.value) == Some(JStr("failed")))
    ensures t.ShowProgress? <==>
              (response.Some? && cardPresent && StatusOf(response.value) == Some(JStr("processing")))
  {
    if response.None? then ConnectionError
    else if !cardPresent then CardGone
    else if response.value.JNull? then ConnectionError
    else
      var job := response.value;
      var status := StatusOf(job);
      if status == Some(JStr("completed")) then ShowCompleted
      else if status == Some(JStr("failed")) then
        var error := Member(job, "error");
        ShowFailed(if error.Some? && Truthy(error.value) then JsString(error.value)
                   else "Unknown error occurred")
      else if status == Some(JStr("processing")) then
        var progress := Member(job, "progress");
        ShowProgress(JsString(if progress.Some? && Truthy(progress.value) then progress.value
                              else JNum(0)) + "%")
      else NoChange
  }

  /** Against a job the server reports, polling stops exactly for a completed or failed job;
      a canceled job is polled on. */
  lemma StopsOnlyWhenFinished(fields: seq<(string, Json)>, s: Jobs.Status)
    requires Get(fields, "status") == Some(JStr(Jobs.StatusName(s)))
    ensures Stops(PollTick(Some(JObj(fields)), true)) <==> (s == Jobs.Completed || s == Jobs.Failed)
    ensures s == Jobs.Canceled ==> PollTick(Some(JObj(fields)), true) == NoChange
  {
    assert Jobs.StatusName(Jobs.Completed) == "completed";
    assert Jobs.StatusName(Jobs.Failed) == "failed";
    assert Jobs.StatusName(Jobs.Processing) == "processing";
  }

  /** The 404 body `{"detail": "job not found"}` has no status: the poller keeps polling. */
  lemma UnknownJobKeepsPolling()
    ensures PollTick(Some(JObj([("detail", JStr("job not found"))])), true) == NoChange
  {
    assert Get([("detail", JStr("job not found"))], "status") == None;
  }
}
