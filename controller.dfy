/** The `data` handler of src/routes/controller.ts: with no completed scan in the last hour
    and no refresh job active, it enqueues one job per page; it answers with the tokens
    stored or refreshed within the last day. */
module Controller {
  import opened Wrappers
  import opened Numerals
  import opened MarketScan
  import opened Scheduling
  import opened DisplayDate

  const PageCount: int := 20
  const HourMs: int := 3_600_000
  const DayMs: int := 86_400_000
  const RefreshJobName: string := "fetch-market"
  const ConflictMessage: string := "Refresh already in progress!!"
  const NoUpdateText: string := "No last update date!"
  const RangeText: string := "Top " + NatStr(PageCount * 100) + " tokens are being parsed for market data"
  const LimitsText: string := "Limit of 1 hour per refresh has been set."

  /** removeOnComplete / removeOnFail: `true`, or `{ age }` in seconds. */
  datatype Retention = RemoveAlways | KeepFor(ageSeconds: int)
  datatype Backoff = Backoff(kind: string, delayMs: int)
  datatype JobOptions = JobOptions(removeOnComplete: Retention, removeOnFail: Retention, attempts: int, backoff: Backoff)

  /** queueOptions of src/utils/queue.ts. */
  const QueueOptions: JobOptions := JobOptions(KeepFor(3600), KeepFor(3600), 3, Backoff("exponential", 5000))

  /** `{ ...queueOptions, removeOnFail: true, attempts: 1, removeOnComplete: true }` */
  const RefreshOptions: JobOptions := QueueOptions.(removeOnFail := RemoveAlways, attempts := 1, removeOnComplete := RemoveAlways)

  /** A queued job: its name, the page of its payload and its options. */
  datatype Job = Job(name: string, page: int, options: JobOptions)

  /** The jobs one refresh enqueues, in order. */
  function RefreshJobs(): seq<Job> {
    seq(PageCount, i => Job(RefreshJobName, i + 1, RefreshOptions))
  }

  function JobPages(jobs: seq<Job>): set<int> {
    set j | j in jobs :: j.page
  }

  /** A refresh enqueues one job for each page 1..20, in page order, each tried once,
      removed when it ends, and keeping the queue's exponential backoff. */
  lemma RefreshJobsCoverPages()
    ensures forall p :: p in JobPages(RefreshJobs()) <==> 1 <= p <= PageCount
    ensures forall i, k :: 0 <= i < k < |RefreshJobs()| ==> RefreshJobs()[i].page < RefreshJobs()[k].page
    ensures forall j :: j in RefreshJobs() ==>
      j.name == RefreshJobName && j.options.attempts == 1
      && j.options.removeOnComplete == RemoveAlways && j.options.removeOnFail == RemoveAlways
      && j.options.backoff == QueueOptions.backoff
  {
    var jobs := RefreshJobs();
    forall p | 1 <= p <= PageCount
      ensures p in JobPages(jobs)
    {
      assert jobs[p - 1].page == p;
    }
  }

  /** The deploy queue. */
  class JobQueue {
    var jobs: seq<Job>

    constructor ()
      ensures jobs == []
    {
      jobs := [];
    }

    /** queue.deploy.add(name, { page }, options) */
    method Add(name: string, page: int, options: JobOptions)
      modifies this
      ensures jobs == old(jobs) + [Job(name, page, options)]
    {
      jobs := jobs + [Job(name, page, options)];
    }
  }

  /** The lastUpdate row is found by `timestamp > now - 1 hour`. */
  predicate Recent(last: Option<LastUpdate>, now: int) {
    last.Some? && last.value.timestamp > now - HourMs
  }

  /** The findMany filter: updated and created within [now - 1 day, now]. */
  predicate InWindow(row: StoredToken, now: int) {
    now - DayMs <= row.updatedAt <= now && now - DayMs <= row.createdAt <= now
  }

  /** The rows the handler returns. */
  function RecentTokens(rows: map<string, StoredToken>, now: int): (r: map<string, StoredToken>)
    ensures r.Keys <= rows.Keys
    ensures forall id :: id in r ==> r[id] == rows[id] && InWindow(r[id], now)
    ensures forall id :: id in rows && InWindow(rows[id], now) ==> id in r
  {
    map id | id in rows && InWindow(rows[id], now) :: rows[id]
  }

  /** A token first stored by a transaction within the last day is returned, with the last
      record that transaction wrote for it. */
  lemma NewDetectionListed(rows: map<string, StoredToken>, batch: seq<TokenRecord>, at: int, now: int, i: int)
    requires 0 <= i < |batch| && batch[i].id !in rows
    requires forall k :: i < k < |batch| ==> batch[k].id != batch[i].id
    requires now - DayMs <= at <= now
    ensures var out := RecentTokens(UpsertAll(rows, batch, at), now);
      batch[i].id in out && out[batch[i].id].record == batch[i]
  {
    UpsertAllAt(rows, batch, at, batch[i].id);
  }

  /** A token whose row was created more than a day ago is not returned even when a
      transaction has just refreshed it: the creation time is kept by the upsert and the
      filter also bounds it. */
  lemma RefreshedOldTokenHidden(rows: map<string, StoredToken>, batch: seq<TokenRecord>, at: int, now: int, id: string)
    requires id in rows && rows[id].createdAt < now - DayMs
    ensures id !in RecentTokens(UpsertAll(rows, batch, at), now)
  {
    UpsertAllAt(rows, batch, at, id);
  }

  /** The handler's answer: a conflict error, or the report. */
  datatype Reply =
    | Conflict(message: string)
    | Report(lastUpdatedOn: string, range: string, limits: string, tokens: map<string, StoredToken>)

  /** data(req, res) at time `now` on a host `offset` ms ahead of UTC, with the lastUpdate
      row, the number of active jobs and the token table as the handler reads them. */
  method Data(queue: JobQueue, last: Option<LastUpdate>, activeCount: nat, rows: map<string, StoredToken>,
              now: int, offset: int) returns (reply: Reply)
    modifies queue
    ensures reply.Conflict? <==> !Recent(last, now) && activeCount != 0
    ensures reply.Conflict? ==> reply.message == ConflictMessage && queue.jobs == old(queue.jobs)
    ensures Recent(last, now) ==> queue.jobs == old(queue.jobs)
    ensures !Recent(last, now) && activeCount == 0 ==> queue.jobs == old(queue.jobs) + RefreshJobs()
    ensures reply.Report? ==>
      reply.tokens == RecentTokens(rows, now) && reply.range == RangeText && reply.limits == LimitsText
      && reply.lastUpdatedOn == if Recent(last, now) then DateLocale(last.value.timestamp, offset) else NoUpdateText
  {
    var lu := if Recent(last, now) then last else None;
    if lu.None? {
      if activeCount != 0 {
        return Conflict(ConflictMessage);
      }
      for i := 1 to PageCount + 1
        invariant queue.jobs == old(queue.jobs) + RefreshJobs()[..i - 1]
      {
        queue.Add(RefreshJobName, i, RefreshOptions);
        assert RefreshJobs()[..i] == RefreshJobs()[..i - 1] + [Job(RefreshJobName, i, RefreshOptions)];
      }
      assert RefreshJobs()[..PageCount] == RefreshJobs();
    }
    var tokens := RecentTokens(rows, now);
    var shown := if lu.Some? then DateLocale(lu.value.timestamp, offset) else NoUpdateText;
    reply := Report(shown, RangeText, LimitsText, tokens);
  }
}
