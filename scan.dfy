/** The page loop of `run` in src/scripts/fetch-market.ts: tokens of a page evaluated one by
    one, failures skipped, matches stored as one upsert transaction per page. */
module MarketScan {
  import opened Wrappers
  import opened Series
  import opened Surge

  /** Pages 1..20 of the ranked list are scanned. */
  const Pages: int := 20
  const CoinUrlPrefix: string := "https://www.coingecko.com/en/coins/"

  /** One entry of the top list, as `list(page)` maps it. */
  datatype Coin = Coin(id: string, symbol: string, marketCap: real, currentVolume: real)

  /** How the `try` body of the token loop ended: with the chart `history(token.id)` gave, or
      with an exception thrown anywhere in the body (a transport error, a response without
      the sample arrays, or a later throw while building the record); the catch treats
      every exception alike. */
  datatype Fetched = Fetched(chart: Chart) | FetchFailed

  /** The object pushed to `results` for a surging token. */
  datatype TokenRecord = TokenRecord(id: string, symbol: string, url: string, marketCap: real, surge: Surge)

  /** symbol.toUpperCase() for ASCII letters. */
  function Upper(s: string): (r: string)
    ensures |r| == |s|
    ensures forall i :: 0 <= i < |s| ==> r[i] == if 'a' <= s[i] <= 'z' then (s[i] as int - 32) as char else s[i]
  {
    if s == [] then []
    else [if 'a' <= s[0] <= 'z' then (s[0] as int - 32) as char else s[0]] + Upper(s[1..])
  }

  /** The body of the token loop: None when the body threw or the rule found nothing. */
  function Evaluate(coin: Coin, fetched: Fetched): (r: Option<TokenRecord>)
    ensures fetched.FetchFailed? ==> r.None?
    ensures r.Some? ==>
      && fetched.Fetched?
      && Some(r.value.surge) == Detect(FromSamples(fetched.chart.prices), FromSamples(fetched.chart.volumes))
      && r.value.id == coin.id && r.value.url == CoinUrlPrefix + coin.id && r.value.marketCap == coin.marketCap
  {
    match fetched
    case FetchFailed => None
    case Fetched(chart) =>
      match Detect(FromSamples(chart.prices), FromSamples(chart.volumes))
      case None => None
      case Some(s) => Some(TokenRecord(coin.id, Upper(coin.symbol), CoinUrlPrefix + coin.id, coin.marketCap, s))
  }

  /** What the loop body gives for each token of a page, in order. */
  function Outcomes(tokens: seq<(Coin, Fetched)>): (os: seq<Option<TokenRecord>>)
    ensures |os| == |tokens|
    ensures forall i :: 0 <= i < |tokens| ==> os[i] == Evaluate(tokens[i].0, tokens[i].1)
  {
    seq(|tokens|, i requires 0 <= i < |tokens| => Evaluate(tokens[i].0, tokens[i].1))
  }

  /** The records pushed to `results`, in order, by a run of loop bodies. */
  function Collect(os: seq<Option<TokenRecord>>): seq<TokenRecord> {
    if os == [] then []
    else Collect(os[..|os| - 1]) + (if os[|os| - 1].Some? then [os[|os| - 1].value] else [])
  }

  /** The `results` of a page whose tokens, in order, were fetched as given. */
  function PageBatch(tokens: seq<(Coin, Fetched)>): seq<TokenRecord> {
    Collect(Outcomes(tokens))
  }

  /** The token loop of one page: every token in order, a thrown fetch caught and skipped. */
  method ProcessPage(tokens: seq<(Coin, Fetched)>) returns (results: seq<TokenRecord>)
    ensures results == PageBatch(tokens)
  {
    results := [];
    for i := 0 to |tokens|
      invariant results == Collect(Outcomes(tokens[..i]))
    {
      assert Outcomes(tokens[..i + 1])[..i] == Outcomes(tokens[..i]);
      var (coin, fetched) := tokens[i];
      if fetched.Fetched? {
        var prices, volumes := History(fetched.chart);
        var found := Detect(prices, volumes);
        if found.Some? {
          results := results + [TokenRecord(coin.id, Upper(coin.symbol), CoinUrlPrefix + coin.id, coin.marketCap, found.value)];
        }
      }
    }
    assert tokens[..|tokens|] == tokens;
  }

  lemma {:induction false} CollectConcat(a: seq<Option<TokenRecord>>, b: seq<Option<TokenRecord>>)
    ensures Collect(a + b) == Collect(a) + Collect(b)
    decreases |b|
  {
    if b == [] {
      assert a + b == a;
    } else {
      var b' := b[..|b| - 1];
      assert (a + b)[..|a + b| - 1] == a + b';
      CollectConcat(a, b');
    }
  }

  lemma {:induction false} CollectMembers(os: seq<Option<TokenRecord>>, r: TokenRecord)
    ensures r in Collect(os) <==> exists i :: 0 <= i < |os| && os[i] == Some(r)
  {
    if os != [] {
      var init := os[..|os| - 1];
      CollectMembers(init, r);
      if exists i :: 0 <= i < |init| && init[i] == Some(r) {
        var i :| 0 <= i < |init| && init[i] == Some(r);
        assert os[i] == init[i];
      }
      if exists i :: 0 <= i < |os| && os[i] == Some(r) {
        var i :| 0 <= i < |os| && os[i] == Some(r);
        if i < |init| {
          assert os[i] == init[i];
        }
      }
    }
  }

  lemma OutcomesConcat(a: seq<(Coin, Fetched)>, b: seq<(Coin, Fetched)>)
    ensures Outcomes(a + b) == Outcomes(a) + Outcomes(b)
  {
    var l, r := Outcomes(a + b), Outcomes(a) + Outcomes(b);
    forall i | 0 <= i < |l|
      ensures l[i] == r[i]
    {
      if i < |a| {
        assert (a + b)[i] == a[i];
      } else {
        assert (a + b)[i] == b[i - |a|];
      }
    }
  }

  /** A page's batch is the batches of its parts, one after the other. */
  lemma BatchConcat(a: seq<(Coin, Fetched)>, b: seq<(Coin, Fetched)>)
    ensures PageBatch(a + b) == PageBatch(a) + PageBatch(b)
  {
    OutcomesConcat(a, b);
    CollectConcat(Outcomes(a), Outcomes(b));
  }

  /** A token whose fetch throws is skipped without disturbing the rest of the page. */
  lemma FailedTokenSkipped(a: seq<(Coin, Fetched)>, coin: Coin, b: seq<(Coin, Fetched)>)
    ensures PageBatch(a + [(coin, FetchFailed)] + b) == PageBatch(a + b)
  {
    var failed := [(coin, FetchFailed)];
    BatchConcat(a + failed, b);
    BatchConcat(a, failed);
    BatchConcat(a, b);
    var none: seq<Option<TokenRecord>> := [None];
    assert Outcomes(failed) == none;
    assert Collect(none) == [] by {
      assert none[..0] == [];
    }
  }

  /** A record is in a page's batch exactly when some token of the page evaluates to it. */
  lemma BatchMembers(tokens: seq<(Coin, Fetched)>, r: TokenRecord)
    ensures r in PageBatch(tokens) <==> exists i :: 0 <= i < |tokens| && Evaluate(tokens[i].0, tokens[i].1) == Some(r)
  {
    CollectMembers(Outcomes(tokens), r);
  }

  /** A token yields a record exactly when its fetch succeeded and the rule found a surge;
      the record carries the token's own id, its page URL and the surge found. */
  lemma RecordOfToken(coin: Coin, fetched: Fetched)
    ensures Evaluate(coin, fetched).Some? <==>
      fetched.Fetched? && Detect(FromSamples(fetched.chart.prices), FromSamples(fetched.chart.volumes)).Some?
    ensures Evaluate(coin, fetched).Some? ==>
      var r := Evaluate(coin, fetched).value;
      r.id == coin.id && r.url == CoinUrlPrefix + coin.id && |r.symbol| == |coin.symbol|
      && r.marketCap == coin.marketCap
      && Some(r.surge) == Detect(FromSamples(fetched.chart.prices), FromSamples(fetched.chart.volumes))
  {
  }

  /** A stored token row: the last record written for its id and the row's timestamps. */
  datatype StoredToken = StoredToken(record: TokenRecord, createdAt: int, updatedAt: int)

  /** db.token.upsert({ where: { id }, update: record, create: record }) at time now: every
      field of the record replaced, the creation time of an existing row kept. */
  function Upsert(rows: map<string, StoredToken>, rec: TokenRecord, now: int): (r: map<string, StoredToken>)
    ensures r.Keys == rows.Keys + {rec.id}
    ensures r[rec.id].record == rec && r[rec.id].updatedAt == now
    ensures r[rec.id].createdAt == if rec.id in rows then rows[rec.id].createdAt else now
    ensures forall id {:trigger r[id]} :: id in rows && id != rec.id ==> r[id] == rows[id]
  {
    if rec.id in rows then rows[rec.id := StoredToken(rec, rows[rec.id].createdAt, now)]
    else rows[rec.id := StoredToken(rec, now, now)]
  }

  /** The ids a batch names. */
  function Ids(batch: seq<TokenRecord>): (ids: set<string>)
    ensures forall i :: 0 <= i < |batch| ==> batch[i].id in ids
    ensures forall id :: id in ids ==> exists i :: 0 <= i < |batch| && batch[i].id == id
  {
    if batch == [] then {}
    else Ids(batch[..|batch| - 1]) + {batch[|batch| - 1].id}
  }

  /** The upserts of a transaction applied in order. */
  function UpsertAll(rows: map<string, StoredToken>, batch: seq<TokenRecord>, now: int): (r: map<string, StoredToken>)
    ensures r.Keys == rows.Keys + Ids(batch)
  {
    if batch == [] then rows
    else Upsert(UpsertAll(rows, batch[..|batch| - 1], now), batch[|batch| - 1], now)
  }

  function LastWithId(batch: seq<TokenRecord>, id: string): (i: int)
    ensures -1 <= i < |batch|
    ensures i >= 0 ==> batch[i].id == id && forall j :: i < j < |batch| ==> batch[j].id != id
    ensures i < 0 ==> forall j :: 0 <= j < |batch| ==> batch[j].id != id
  {
    if batch == [] then -1
    else if batch[|batch| - 1].id == id then |batch| - 1
    else LastWithId(batch[..|batch| - 1], id)
  }

  /** After a transaction, the row of an id the batch names holds the last record written
      for it, with its creation time kept if it existed and the transaction's time otherwise;
      every other row is untouched. No row is ever deleted. */
  lemma {:induction false} UpsertAllAt(rows: map<string, StoredToken>, batch: seq<TokenRecord>, now: int, id: string)
    ensures var out := UpsertAll(rows, batch, now);
      var i := LastWithId(batch, id);
      && (id in out <==> id in rows || i >= 0)
      && (i < 0 && id in rows ==> out[id] == rows[id])
      && (i >= 0 ==> out[id] == StoredToken(batch[i], if id in rows then rows[id].createdAt else now, now))
  {
    if batch != [] {
      UpsertAllAt(rows, batch[..|batch| - 1], now, id);
    }
  }

  /** Writing the same batch twice at the same time leaves what writing it once leaves: the
      transaction is idempotent and never creates a second row for an id. */
  lemma UpsertAllIdempotent(rows: map<string, StoredToken>, batch: seq<TokenRecord>, now: int)
    ensures UpsertAll(UpsertAll(rows, batch, now), batch, now) == UpsertAll(rows, batch, now)
  {
    var once := UpsertAll(rows, batch, now);
    var twice := UpsertAll(once, batch, now);
    forall id | id in once || id in twice
      ensures id in once && id in twice && twice[id] == once[id]
    {
      UpsertAllAt(rows, batch, now, id);
      UpsertAllAt(once, batch, now, id);
    }
    assert twice.Keys == once.Keys;
  }

  /** Storing a detection for an id that already has a row replaces the row's record and
      keeps a single row for that id. */
  lemma UpsertReplaces(rows: map<string, StoredToken>, first: TokenRecord, second: TokenRecord, t1: int, t2: int)
    requires first.id == second.id
    ensures var out := Upsert(Upsert(rows, first, t1), second, t2);
      out.Keys == rows.Keys + {first.id}
      && out[first.id].record == second && out[first.id].updatedAt == t2
      && out[first.id].createdAt == (if first.id in rows then rows[first.id].createdAt else t1)
  {
  }

  /** The token table, keyed by id. */
  class TokenStore {
    var rows: map<string, StoredToken>

    constructor ()
      ensures rows == map[]
    {
      rows := map[];
    }

    /** db.$transaction of one upsert per record, all applied at time now. */
    method Commit(batch: seq<TokenRecord>, now: int)
      modifies this
      ensures rows == UpsertAll(old(rows), batch, now)
    {
      var i := 0;
      while i < |batch|
        invariant 0 <= i <= |batch|
        invariant rows == UpsertAll(old(rows), batch[..i], now)
      {
        assert batch[..i + 1][..i] == batch[..i];
        rows := Upsert(rows, batch[i], now);
        i := i + 1;
      }
      assert batch[..|batch|] == batch;
    }
  }

  /** The outcome of a transaction: committed at a time, or rejected by the database. */
  datatype Commit = Committed(at: int) | CommitFailed

  /** What one page of the scan meets: list(page) throws, or it returns tokens, each with
      the outcome of its history fetch, and the page's transaction has an outcome. */
  datatype PageFeed = ListFailed | Listed(tokens: seq<(Coin, Fetched)>, commit: Commit)

  /** run() returns when all pages are done, or rejects at the page whose list fetch or
      transaction threw (nothing in run catches those). */
  datatype RunOutcome = Completed | Aborted(page: int)

  /** A page at which run() rejects: its list fetch threw, or it found something and its
      transaction threw. */
  predicate Halts(feed: PageFeed) {
    feed.ListFailed? || (PageBatch(feed.tokens) != [] && feed.commit.CommitFailed?)
  }

  /** The rows and outcome of scanning the given pages, the first being page number `page`. */
  function ScanPages(rows: map<string, StoredToken>, feeds: seq<PageFeed>, page: int): (r: (map<string, StoredToken>, RunOutcome))
    ensures r.1.Aborted? ==> page <= r.1.page < page + |feeds|
    decreases |feeds|
  {
    if feeds == [] then (rows, Completed)
    else match feeds[0]
      case ListFailed => (rows, Aborted(page))
      case Listed(tokens, commit) =>
        var batch := PageBatch(tokens);
        if batch == [] then ScanPages(rows, feeds[1..], page + 1)
        else match commit
          case CommitFailed => (rows, Aborted(page))
          case Committed(at) => ScanPages(UpsertAll(rows, batch, at), feeds[1..], page + 1)
  }

  /** One step of the scan, page by page: how the first page's feed decides the rest. */
  lemma ScanStep(rows: map<string, StoredToken>, feeds: seq<PageFeed>, page: int)
    requires feeds != []
    ensures feeds[0].ListFailed? ==> ScanPages(rows, feeds, page) == (rows, Aborted(page))
    ensures feeds[0].Listed? && PageBatch(feeds[0].tokens) == [] ==>
      ScanPages(rows, feeds, page) == ScanPages(rows, feeds[1..], page + 1)
    ensures feeds[0].Listed? && PageBatch(feeds[0].tokens) != [] && feeds[0].commit.CommitFailed? ==>
      ScanPages(rows, feeds, page) == (rows, Aborted(page))
    ensures feeds[0].Listed? && PageBatch(feeds[0].tokens) != [] && feeds[0].commit.Committed? ==>
      ScanPages(rows, feeds, page)
      == ScanPages(UpsertAll(rows, PageBatch(feeds[0].tokens), feeds[0].commit.at), feeds[1..], page + 1)
  {
  }

  /** The rows a page leaves when it does not halt the scan: its batch written in one
      transaction when it found something, the rows unchanged otherwise. */
  function PageRows(rows: map<string, StoredToken>, feed: PageFeed): map<string, StoredToken> {
    if feed.Listed? && PageBatch(feed.tokens) != [] && feed.commit.Committed? then
      UpsertAll(rows, PageBatch(feed.tokens), feed.commit.at)
    else rows
  }

  /** The first page either halts the scan, which rejects there with the rows untouched, or
      leaves PageRows for the remaining pages to continue from. */
  lemma PageStep(rows: map<string, StoredToken>, feeds: seq<PageFeed>, page: int)
    requires feeds != []
    ensures Halts(feeds[0]) ==> ScanPages(rows, feeds, page) == (rows, Aborted(page))
    ensures !Halts(feeds[0]) ==> ScanPages(rows, feeds, page) == ScanPages(PageRows(rows, feeds[0]), feeds[1..], page + 1)
  {
    ScanStep(rows, feeds, page);
    var feed := feeds[0];
    if feed.Listed? && PageBatch(feed.tokens) != [] && feed.commit.Committed? {
      assert PageRows(rows, feed) == UpsertAll(rows, PageBatch(feed.tokens), feed.commit.at);
    } else if !Halts(feed) {
      assert PageRows(rows, feed) == rows;
    }
  }

  /** One page of run(): list it, evaluate its tokens, and write the batch in one transaction
      when it found something. Reports whether the page halted the scan. */
  method ScanPage(store: TokenStore, feed: PageFeed) returns (halted: bool)
    modifies store
    ensures halted <==> Halts(feed)
    ensures halted ==> store.rows == old(store.rows)
    ensures !halted ==> store.rows == PageRows(old(store.rows), feed)
  {
    if feed.ListFailed? {
      return true;
    }
    var results := ProcessPage(feed.tokens);
    if |results| == 0 {
      return false;
    }
    if feed.commit.CommitFailed? {
      return true;
    }
    store.Commit(results, feed.commit.at);
    return false;
  }

  /** Page number `page` of run(), seen from the scan: it either rejects there, or leaves the
      rows the remaining pages continue from. */
  method NextPage(store: TokenStore, feeds: seq<PageFeed>, page: int) returns (halted: bool)
    requires feeds != []
    modifies store
    ensures halted ==> ScanPages(old(store.rows), feeds, page) == (store.rows, Aborted(page))
    ensures !halted ==> ScanPages(store.rows, feeds[1..], page + 1) == ScanPages(old(store.rows), feeds, page)
  {
    PageStep(store.rows, feeds, page);
    halted := ScanPage(store, feeds[0]);
  }

  /** run(): pages 1..20 in order, each written as one batch only when it found something. */
  method Run(store: TokenStore, feeds: seq<PageFeed>) returns (outcome: RunOutcome)
    requires |feeds| == Pages
    modifies store
    ensures (store.rows, outcome) == ScanPages(old(store.rows), feeds, 1)
  {
    var page := 1;
    while page <= Pages
      invariant 1 <= page <= Pages + 1
      invariant ScanPages(store.rows, feeds[page - 1..], page) == ScanPages(old(store.rows), feeds, 1)
    {
      var halted := NextPage(store, feeds[page - 1..], page);
      if halted {
        return Aborted(page);
      }
      assert feeds[page - 1..][1..] == feeds[page..];
      page := page + 1;
    }
    return Completed;
  }

  /** The position of the first page that halts the scan, or the number of pages when none does. */
  function FirstHalt(feeds: seq<PageFeed>): (k: nat)
    ensures k <= |feeds|
    ensures k < |feeds| ==> Halts(feeds[k])
    ensures forall i :: 0 <= i < k ==> !Halts(feeds[i])
  {
    if feeds == [] then 0
    else if Halts(feeds[0]) then 0
    else 1 + FirstHalt(feeds[1..])
  }

  /** The scan rejects exactly at the first page that halts it, and completes when no page
      halts it. */
  lemma {:induction false} ScanHalts(rows: map<string, StoredToken>, feeds: seq<PageFeed>, page: int)
    ensures ScanPages(rows, feeds, page).1
      == if FirstHalt(feeds) == |feeds| then Completed else Aborted(page + FirstHalt(feeds))
    ensures ScanPages(rows, feeds, page).1 == Completed <==> forall i :: 0 <= i < |feeds| ==> !Halts(feeds[i])
    decreases |feeds|
  {
    if feeds != [] {
      PageStep(rows, feeds, page);
      if !Halts(feeds[0]) {
        ScanHalts(PageRows(rows, feeds[0]), feeds[1..], page + 1);
        assert FirstHalt(feeds) == 1 + FirstHalt(feeds[1..]);
      }
    }
    if FirstHalt(feeds) < |feeds| {
      assert Halts(feeds[FirstHalt(feeds)]);
    }
  }

  /** A page that found nothing writes nothing, so its transaction cannot fail it. */
  lemma EmptyPageWritesNothing(rows: map<string, StoredToken>, tokens: seq<(Coin, Fetched)>, commit: Commit,
                               rest: seq<PageFeed>, page: int)
    requires PageBatch(tokens) == []
    ensures ScanPages(rows, [Listed(tokens, commit)] + rest, page) == ScanPages(rows, rest, page + 1)
  {
    assert ([Listed(tokens, commit)] + rest)[1..] == rest;
  }

  /** A page whose list fetch throws ends the scan there: the later pages are never
      processed, whatever they would have met. */
  lemma {:induction false} ListFailureEndsScan(rows: map<string, StoredToken>, done: seq<PageFeed>,
                                               rest1: seq<PageFeed>, rest2: seq<PageFeed>, page: int)
    ensures ScanPages(rows, done + [ListFailed] + rest1, page) == ScanPages(rows, done + [ListFailed] + rest2, page)
    ensures ScanPages(rows, done + [ListFailed] + rest1, page).1 != Completed
    decreases |done|
  {
    if done == [] {
      assert (done + [ListFailed] + rest1)[0] == ListFailed;
      assert (done + [ListFailed] + rest2)[0] == ListFailed;
    } else {
      var f1, f2 := done + [ListFailed] + rest1, done + [ListFailed] + rest2;
      assert f1[0] == done[0] && f2[0] == done[0];
      assert f1[1..] == done[1..] + [ListFailed] + rest1;
      assert f2[1..] == done[1..] + [ListFailed] + rest2;
      match done[0]
      case ListFailed =>
      case Listed(tokens, commit) =>
        var batch := PageBatch(tokens);
        ListFailureEndsScan(rows, done[1..], rest1, rest2, page + 1);
        if batch != [] && commit.Committed? {
          ListFailureEndsScan(UpsertAll(rows, batch, commit.at), done[1..], rest1, rest2, page + 1);
        }
    }
  }

  /** A scan never deletes a row, and every row it adds is for a token that one of its pages
      found surging. */
  lemma {:induction false} ScanAddsOnlyDetections(rows: map<string, StoredToken>, feeds: seq<PageFeed>, page: int, id: string)
    ensures id in rows ==> id in ScanPages(rows, feeds, page).0
    ensures id in ScanPages(rows, feeds, page).0 && id !in rows ==>
      exists i, r :: 0 <= i < |feeds| && feeds[i].Listed? && r in PageBatch(feeds[i].tokens) && r.id == id
    decreases |feeds|
  {
    if feeds != [] && feeds[0].Listed? {
      var tokens, commit := feeds[0].tokens, feeds[0].commit;
      var batch := PageBatch(tokens);
      var next := if batch != [] && commit.Committed? then UpsertAll(rows, batch, commit.at) else rows;
      ScanAddsOnlyDetections(next, feeds[1..], page + 1, id);
      if batch != [] && commit.Committed? {
        UpsertAllAt(rows, batch, commit.at, id);
        var k := LastWithId(batch, id);
        if id in next && id !in rows {
          assert batch[k] in PageBatch(feeds[0].tokens);
        }
      }
      if id in ScanPages(rows, feeds, page).0 && id !in rows && id !in next {
        var i, r :| 0 <= i < |feeds[1..]| && feeds[1..][i].Listed? && r in PageBatch(feeds[1..][i].tokens) && r.id == id;
        assert feeds[i + 1] == feeds[1..][i];
      }
    }
  }
}
