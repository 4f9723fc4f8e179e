/** The archive fetcher: pages through the URL list the threat-exchange
    archive holds for a domain, printing every URL.  Before each
    request, if its counter is a positive multiple of the hourly quota, it
    sleeps out the rest of the hour.
    The HTTP exchange (`api`), the duration of each request (`latency`) and
    the clock reading at start-up are parameters. */
module AlienVault {
  import opened Wrappers

  const BaseURL := "https://otx.alienvault.com/otxapi/indicators/hostname/url_list"
  const LimitPerPage: nat := 100
  /** Kept below the archive's limit of 10,000 requests per hour. */
  const RequestsPerHour: nat := 9500
  /** `time.Hour`, in nanoseconds, the unit of the abstract clock. */
  const Hour: nat := 3_600_000_000_000

  datatype URLInfo = URLInfo(url: string, domain: string, hostname: string, httpCode: int, date: string)

  datatype Response = Response(hasNext: bool, actualSize: int, urlList: seq<URLInfo>)

  /** The body of a reply: unreadable, not a `Response` in JSON, or the decoded `Response`. */
  datatype Body = Unreadable | Malformed | Decoded(response: Response)

  /** What `http.Get` of one page produced. */
  datatype HttpReply = NoResponse | Reply(status: int, body: Body)

  datatype FetchError =
    | TransportFailed
    | RateLimitExceeded
    | UnexpectedStatus(code: int)
    | ReadFailed
    | ParseFailed

  // ---------------------------------------------------------------------
  // The request URL
  // ---------------------------------------------------------------------

  function Digit(d: nat): char
    requires d < 10
  {
    ('0' as int + d) as char
  }

  /** `%d` of a non-negative integer: its decimal digits, most significant first. */
  function Decimal(n: nat): (s: string)
    ensures s != []
    decreases n
  {
    if n < 10 then [Digit(n)] else Decimal(n / 10) + [Digit(n % 10)]
  }

  predicate IsDigits(s: string) {
    forall i :: 0 <= i < |s| ==> '0' <= s[i] <= '9'
  }

  /** The value of a string of decimal digits. */
  function ParseDecimal(s: string): nat
    requires IsDigits(s)
    decreases |s|
  {
    if s == [] then 0
    else ParseDecimal(s[..|s| - 1]) * 10 + (s[|s| - 1] as int - '0' as int)
  }

  /** Reading back the digits `%d` writes gives the number. */
  lemma {:induction false} DecimalRoundTrip(n: nat)
    ensures IsDigits(Decimal(n))
    ensures ParseDecimal(Decimal(n)) == n
    decreases n
  {
    if 10 <= n {
      DecimalRoundTrip(n / 10);
      var s := Decimal(n);
      assert s[..|s| - 1] == Decimal(n / 10);
    }
  }

  /** `fmt.Sprintf("%s/%s?limit=%d&page=%d", baseURL, domain, limitPerPage, page)`. */
  function RequestURL(domain: string, page: nat): string {
    BaseURL + "/" + domain + "?limit=" + Decimal(LimitPerPage) + "&page=" + Decimal(page)
  }

  /** The request URL asks for 100 entries, and distinct pages of a domain
      have distinct request URLs. */
  lemma RequestURLSpec(domain: string, page: nat, other: nat)
    ensures RequestURL(domain, page) == BaseURL + "/" + domain + "?limit=100&page=" + Decimal(page)
    ensures RequestURL(domain, page) == RequestURL(domain, other) ==> page == other
  {
    var prefix := BaseURL + "/" + domain + "?limit=" + Decimal(LimitPerPage) + "&page=";
    assert Decimal(LimitPerPage) == "100";
    if RequestURL(domain, page) == RequestURL(domain, other) {
      assert Decimal(page) == RequestURL(domain, page)[|prefix|..];
      assert Decimal(other) == RequestURL(domain, other)[|prefix|..];
      DecimalRoundTrip(page);
      DecimalRoundTrip(other);
    }
  }

  // ---------------------------------------------------------------------
  // One page
  // ---------------------------------------------------------------------

  /** `fetchURLs` after `http.Get`: the status check, then reading and decoding. */
  function FetchURLs(reply: HttpReply): Result<Response, FetchError> {
    match reply
    case NoResponse => Failure(TransportFailed)
    case Reply(status, body) =>
      if status == 429 then Failure(RateLimitExceeded)
      else if status != 200 then Failure(UnexpectedStatus(status))
      else
        match body
        case Unreadable => Failure(ReadFailed)
        case Malformed => Failure(ParseFailed)
        case Decoded(response) => Success(response)
  }

  /** Only a 200 reply with a decodable body yields a page; status 429 (Too
      Many Requests, section 4 of RFC 6585) is told apart from every other
      status, which is reported with its code. */
  lemma FetchURLsSpec(reply: HttpReply)
    ensures FetchURLs(reply).Success? <==> reply.Reply? && reply.status == 200 && reply.body.Decoded?
    ensures FetchURLs(reply).Success? ==> FetchURLs(reply).value == reply.body.response
    ensures FetchURLs(reply) == Failure(RateLimitExceeded) <==> reply.Reply? && reply.status == 429
    ensures (exists c :: FetchURLs(reply) == Failure(UnexpectedStatus(c))) <==>
              reply.Reply? && reply.status != 200 && reply.status != 429
    ensures forall c :: FetchURLs(reply) == Failure(UnexpectedStatus(c)) ==> c == reply.status
  {
    if reply.Reply? && reply.status != 200 && reply.status != 429 {
      assert FetchURLs(reply) == Failure(UnexpectedStatus(reply.status));
    }
  }

  /** The `url` fields of a list of entries, in order. */
  function URLs(list: seq<URLInfo>): (urls: seq<string>)
    ensures |urls| == |list|
    decreases |list|
  {
    if list == [] then [] else URLs(list[..|list| - 1]) + [list[|list| - 1].url]
  }

  /** The URLs of a page, in order. */
  function URLsOf(r: Response): seq<string> {
    URLs(r.urlList)
  }

  /** `URLs` keeps each entry's URL at its index. */
  lemma {:induction false} URLsSpec(list: seq<URLInfo>)
    ensures forall i :: 0 <= i < |list| ==> URLs(list)[i] == list[i].url
    decreases |list|
  {
    if list != [] {
      URLsSpec(list[..|list| - 1]);
    }
  }

  /** The outcome of fetching `page`; `api(page)` is the archive's reply to
      `RequestURL(domain, page)`, which differs from page to page. */
  function PageResult(api: nat -> HttpReply, page: nat): Result<Response, FetchError> {
    FetchURLs(api(page))
  }

  /** The loop ends after `page`: its fetch failed or it is the last page. */
  predicate Stops(api: nat -> HttpReply, page: nat) {
    PageResult(api, page).Failure? || !PageResult(api, page).value.hasNext
  }

  /** What fetching `page` prints: its URLs, or nothing when the fetch failed. */
  function PageURLs(api: nat -> HttpReply, page: nat): seq<string> {
    match PageResult(api, page)
    case Failure(_) => []
    case Success(r) => URLsOf(r)
  }

  /** The URLs of pages 1 to `n`, concatenated in page order. */
  function Output(api: nat -> HttpReply, n: nat): seq<string>
    decreases n
  {
    if n == 0 then [] else Output(api, n - 1) + PageURLs(api, n)
  }

  // ---------------------------------------------------------------------
  // The hourly quota
  // ---------------------------------------------------------------------

  /** The gate is due once the counter is a positive multiple of the quota. */
  predicate QuotaDue(count: nat) {
    count > 0 && count % RequestsPerHour == 0
  }

  /** The quota gate at the top of the loop: when due, sleep out the rest of
      the hour that began at `startTime` (nothing if it is over) and begin a
      new hour now.  Times are clock readings. */
  method WaitForQuota(count: nat, now: nat, startTime: nat) returns (later: nat, restart: nat)
    requires startTime <= now
    ensures now <= later && restart <= later
    ensures !QuotaDue(count) ==> later == now && restart == startTime
    ensures QuotaDue(count) ==> restart == later
    ensures QuotaDue(count) && now - startTime < Hour ==> later - now == Hour - (now - startTime)
    ensures QuotaDue(count) && now - startTime >= Hour ==> later == now
    ensures QuotaDue(count) ==> startTime + Hour <= later
    ensures GatePass(count, GateEntry(QuotaDue(count), now, startTime, restart, later))
  {
    later, restart := now, startTime;
    if count > 0 && count % RequestsPerHour == 0 {
      var elapsed := now - startTime;
      if elapsed < Hour {
        var waitTime := Hour - elapsed;
        later := now + waitTime;
        restart := later;
      } else {
        restart := later;
      }
    }
  }

  // ---------------------------------------------------------------------
  // The pagination loop
  // ---------------------------------------------------------------------

  /** The inner loop of `main`: print each URL of a page and count it. */
  method PrintURLs(out: seq<string>, count: nat, list: seq<URLInfo>) returns (out': seq<string>, count': nat)
    requires count == |out|
    ensures out' == out + URLs(list)
    ensures count' == |out'|
  {
    out', count' := out, count;
    var i := 0;
    while i < |list|
      invariant i <= |list|
      invariant out' == out + URLs(list[..i])
      invariant count' == |out'|
    {
      assert list[..i + 1][..i] == list[..i];
      out' := out' + [list[i].url];
      count' := count' + 1;
      i := i + 1;
    }
    assert list[..i] == list;
  }

  /** The pages 1 to `n`, in order. */
  function Pages(n: nat): (pages: seq<nat>)
    ensures |pages| == n
    decreases n
  {
    if n == 0 then [] else Pages(n - 1) + [n]
  }

  /** The counter the quota gate reads before each of the requests for
      pages 1 to `n`: the number of URLs printed so far. */
  function Counters(api: nat -> HttpReply, n: nat): (counts: seq<nat>)
    ensures |counts| == n
    decreases n
  {
    if n == 0 then [] else Counters(api, n - 1) + [|Output(api, n - 1)|]
  }

  /** One pass of the quota gate before a request: whether it was due (and
      so fired: it slept out the hour if that was not over, and reset the
      window), the clock reading at which the gate was reached, the start of
      the quota window it found and of the one it left, and the clock reading
      at which the request was then sent. */
  datatype GateEntry = GateEntry(due: bool, arrived: nat, before: nat, window: nat, sentAt: nat)

  /** The gate reading `counter` is due exactly when the counter is a
      positive multiple of the quota.  A gate that is not due lets the
      request go at once and the window carries over.  A due gate holds the
      request back until an hour after the window it found began, or lets it
      go at once if that hour is already over, and opens a new window at the
      request.  The gate is never reached before its window began. */
  predicate GatePass(counter: nat, e: GateEntry) {
    && e.due == QuotaDue(counter)
    && e.before <= e.arrived
    && (!e.due ==> e.sentAt == e.arrived && e.window == e.before)
    && (e.due && e.arrived < e.before + Hour ==> e.sentAt == e.before + Hour)
    && (e.due && e.before + Hour <= e.arrived ==> e.sentAt == e.arrived)
    && (e.due ==> e.window == e.sentAt)
  }

  /** A run's gate record, one pass per counter reading: every pass obeys
      `GatePass`, the first finds the window opened at start-up, each later
      one finds the window its predecessor left, the gate is first reached at
      start-up, and each later pass is reached no earlier than the request
      before it went out. */
  ghost predicate GateLog(start: nat, counters: seq<nat>, log: seq<GateEntry>) {
    && |counters| == |log|
    && (forall i :: 0 <= i < |log| ==> GatePass(counters[i], log[i]))
    && (log != [] ==> log[0].before == start && log[0].arrived == start)
    && (forall i :: 0 < i < |log| ==> log[i].before == log[i - 1].window && log[i - 1].sentAt <= log[i].arrived)
  }

  /** One pass of the gate extends the record. */
  lemma GateStep(start: nat, counters: seq<nat>, log: seq<GateEntry>, c: nat, e: GateEntry)
    requires GateLog(start, counters, log) && GatePass(c, e)
    requires log == [] ==> e.before == start && e.arrived == start
    requires log != [] ==> e.before == log[|log| - 1].window && log[|log| - 1].sentAt <= e.arrived
    ensures GateLog(start, counters + [c], log + [e])
  {
    var counters', log' := counters + [c], log + [e];
    forall i | 0 <= i < |log'| ensures GatePass(counters'[i], log'[i]) {
      if i < |log| {
        assert counters'[i] == counters[i] && log'[i] == log[i];
      }
    }
    forall i | 0 < i < |log'| ensures log'[i].before == log'[i - 1].window && log'[i - 1].sentAt <= log'[i].arrived {
      if i < |log| {
        assert log'[i] == log[i] && log'[i - 1] == log[i - 1];
      }
    }
  }

  /** The gate record of a run so far, seen from inside the loop: `window`
      is the quota window now open. */
  ghost predicate GateAt(start: nat, counters: seq<nat>, log: seq<GateEntry>, window: nat) {
    && GateLog(start, counters, log)
    && (log == [] ==> window == start)
    && (log != [] ==> window == log[|log| - 1].window)
  }

  /** The gate with its record: fire as `WaitForQuota` does and log the pass,
      reached at the clock reading `now`, whose request goes out at the clock
      reading `later`. */
  method PassGate(count: nat, now: nat, startTime: nat, ghost start: nat,
                  ghost counters: seq<nat>, ghost log: seq<GateEntry>)
    returns (later: nat, restart: nat, ghost log': seq<GateEntry>)
    requires startTime <= now && GateAt(start, counters, log, startTime)
    requires log == [] ==> now == start
    requires log != [] ==> log[|log| - 1].sentAt <= now
    ensures log' == log + [GateEntry(QuotaDue(count), now, startTime, restart, later)]
    ensures restart <= later && now <= later && GateAt(start, counters + [count], log', restart)
  {
    later, restart := WaitForQuota(count, now, startTime);
    var e := GateEntry(QuotaDue(count), now, startTime, restart, later);
    GateStep(start, counters, log, count, e);
    log' := log + [e];
  }

  /** The clock between passes of a run: each pass after the first is
      reached `latency(i)` after the request before it went out, the time
      that request's page took to fetch and print. */
  ghost predicate Paced(log: seq<GateEntry>, latency: nat -> nat) {
    forall i :: 0 < i < |log| ==> log[i].arrived == log[i - 1].sentAt + latency(i)
  }

  /** The clock inside the loop of a run: it read `start` when the run
      began, and since the last request went out its page has taken its
      latency. */
  ghost predicate ClockAt(start: nat, log: seq<GateEntry>, latency: nat -> nat, now: nat) {
    && Paced(log, latency)
    && (log == [] ==> now == start)
    && (log != [] ==> now == log[|log| - 1].sentAt + latency(|log|))
  }

  /** A pass reached at the clock reading `now`, followed by its page's
      latency, keeps the clock in step. */
  lemma ClockStep(start: nat, log: seq<GateEntry>, latency: nat -> nat, now: nat, e: GateEntry)
    requires ClockAt(start, log, latency, now) && e.arrived == now
    ensures ClockAt(start, log + [e], latency, e.sentAt + latency(|log| + 1))
  {
    var log' := log + [e];
    forall i | 0 < i < |log'| ensures log'[i].arrived == log'[i - 1].sentAt + latency(i) {
      if i < |log| {
        assert log'[i] == log[i] && log'[i - 1] == log[i - 1];
      }
    }
  }

  /** Each later pass finds a window opened no earlier than the last reset
      before it. */
  lemma {:induction false} WindowAfterReset(start: nat, counters: seq<nat>, log: seq<GateEntry>, i: nat, j: nat)
    requires GateLog(start, counters, log) && i < j < |log| && log[i].due
    ensures log[i].sentAt <= log[j].before
    decreases j - i
  {
    if i + 1 < j {
      WindowAfterReset(start, counters, log, i, j - 1);
      assert GatePass(counters[j - 1], log[j - 1]);
    }
  }

  /** Two passes on which the gate was due send their requests at least an
      hour apart: the quota windows of a run are an hour long at least. */
  lemma ResetsAnHourApart(start: nat, counters: seq<nat>, log: seq<GateEntry>, i: nat, j: nat)
    requires GateLog(start, counters, log) && i < j < |log| && log[i].due && log[j].due
    ensures log[i].sentAt + Hour <= log[j].sentAt
  {
    WindowAfterReset(start, counters, log, i, j);
    assert GatePass(counters[j], log[j]);
  }

  /** One page of `main`: fetch it and, when that succeeds, print its URLs
      and report its `has_next`; `None` is the fetch error that ends the run. */
  method FetchPage(api: nat -> HttpReply, page: nat, out: seq<string>, count: nat)
    returns (out': seq<string>, count': nat, hasNext: Option<bool>)
    requires count == |out|
    ensures out' == out + PageURLs(api, page) && count' == |out'|
    ensures hasNext.None? <==> PageResult(api, page).Failure?
    ensures hasNext.Some? ==> hasNext.value == PageResult(api, page).value.hasNext
  {
    var response := FetchURLs(api(page));
    if response.Failure? {
      out', count', hasNext := out, count, None;
      return;
    }
    out', count' := PrintURLs(out, count, response.value.urlList);
    hasNext := Some(response.value.hasNext);
  }

  /** The page at which the run ends: the first page from `page` on whose
      fetch fails or that has no next page. */
  function FirstStop(api: nat -> HttpReply, page: nat, bound: nat): (n: nat)
    requires 1 <= page <= bound && Stops(api, bound)
    ensures page <= n <= bound && Stops(api, n)
    ensures forall p :: page <= p < n ==> !Stops(api, p)
    decreases bound - page
  {
    if Stops(api, page) then page else FirstStop(api, page + 1, bound)
  }

  /** The archive goes on past every page before `n`. */
  ghost predicate GoesOn(api: nat -> HttpReply, n: nat) {
    forall p :: 1 <= p < n ==> !Stops(api, p)
  }

  lemma GoesOnStep(api: nat -> HttpReply, n: nat)
    requires GoesOn(api, n) && !Stops(api, n)
    ensures GoesOn(api, n + 1)
  {
  }

  /** A page that stops, with none stopping before it, is the first stop. */
  lemma FirstStopUnique(api: nat -> HttpReply, n: nat, bound: nat)
    requires 1 <= n <= bound && Stops(api, bound) && Stops(api, n)
    requires GoesOn(api, n)
    ensures FirstStop(api, 1, bound) == n
  {
    var m := FirstStop(api, 1, bound);
    assert !(m < n) && !(n < m);
  }

  /** The ghost `bound` of `main` does not affect the run: any two pages at
      which the archive stops give the same end page. */
  lemma FirstStopOfAnyBound(api: nat -> HttpReply, b: nat, b': nat)
    requires 1 <= b && Stops(api, b) && 1 <= b' && Stops(api, b')
    ensures FirstStop(api, 1, b) == FirstStop(api, 1, b')
  {
    var n := FirstStop(api, 1, b);
    var n' := FirstStop(api, 1, b');
    if n <= n' {
      FirstStopUnique(api, n, b');
    } else {
      FirstStopUnique(api, n', b);
    }
  }

  /** The ghost record of `main` after pages 1 to `n`: it printed their URLs,
      requested each of them once in order, and the gate read the count of
      URLs printed before each request. */
  ghost predicate RunAfter(api: nat -> HttpReply, n: nat, out: seq<string>, requests: seq<nat>, counters: seq<nat>) {
    && out == Output(api, n)
    && requests == Pages(n)
    && counters == Counters(api, n)
  }

  /** `main`: one request per page from page 1 on, every URL printed and
      counted, the quota gate before each request, and an abort with status 1
      at the first failed fetch.  `bound` is a page after which the archive
      stops (a failed or last page), so that the loop terminates.  The ghost
      logs of the gate are described at `GateLog`. */
  method FetchAlienVault(domain: string, api: nat -> HttpReply, latency: nat -> nat, start: nat, ghost bound: nat)
    returns (exitCode: int, out: seq<string>, ghost requests: seq<nat>,
             ghost counters: seq<nat>, ghost log: seq<GateEntry>)
    requires domain != "" ==> 1 <= bound && Stops(api, bound)
    ensures domain == "" ==> exitCode == 1 && out == [] && requests == [] && log == []
    ensures domain != "" ==> out == Output(api, FirstStop(api, 1, bound))
    ensures domain != "" ==> exitCode == (if PageResult(api, FirstStop(api, 1, bound)).Failure? then 1 else 0)
    ensures domain != "" ==> |requests| == FirstStop(api, 1, bound) && RunAfter(api, |requests|, out, requests, counters)
    ensures GateLog(start, counters, log) && Paced(log, latency)
  {
    out, requests, counters, log := [], [], [], [];
    if domain == "" {
      exitCode := 1;
      return;
    }
    var page := 1;
    var count: nat := 0;
    var now: nat := start;
    var startTime: nat := now;
    while true
      invariant 1 <= page <= bound
      invariant count == |out| && RunAfter(api, page - 1, out, requests, counters)
      invariant GoesOn(api, page)
      invariant startTime <= now && GateAt(start, counters, log, startTime)
      invariant |log| == page - 1 && ClockAt(start, log, latency, now)
      decreases bound - page
    {
      ghost var log0, now0 := log, now;
      now, startTime, log := PassGate(count, now, startTime, start, counters, log);
      ClockStep(start, log0, latency, now0, log[|log| - 1]);
      RunStep(api, page, out, requests, counters);
      counters := counters + [count];
      requests := requests + [page];

      var hasNext;
      out, count, hasNext := FetchPage(api, page, out, count);
      now := now + latency(page);
      if hasNext.None? {
        exitCode := 1;
        break;
      }
      if !hasNext.value {
        exitCode := 0;
        break;
      }
      GoesOnStep(api, page);
      assert page < bound;
      page := page + 1;
    }
    FirstStopUnique(api, page, bound);
  }

  /** One turn of the loop appends page `n` to what was requested, to what
      the gate read and to what was printed. */
  lemma RunStep(api: nat -> HttpReply, n: nat, out: seq<string>, requests: seq<nat>, counters: seq<nat>)
    requires 1 <= n && RunAfter(api, n - 1, out, requests, counters)
    ensures RunAfter(api, n, out + PageURLs(api, n), requests + [n], counters + [|out|])
  {
  }

  /** Before the request for page `p` the counter holds the number of URLs
      printed for the earlier pages; so the gate fires before page `p`
      exactly when that number is a positive multiple of the quota. */
  lemma {:induction false} CountersSpec(api: nat -> HttpReply, n: nat, i: nat)
    requires i < n
    ensures Counters(api, n)[i] == |Output(api, i)|
    decreases n
  {
    if i < n - 1 {
      CountersSpec(api, n - 1, i);
      assert Counters(api, n)[i] == Counters(api, n - 1)[i];
    }
  }

  /** In a run recorded by `main` the gate fires before the request for page
      `i + 1` exactly when the URLs printed for pages 1 to `i` number a
      positive multiple of the quota. */
  lemma GateDecisions(api: nat -> HttpReply, n: nat, out: seq<string>, requests: seq<nat>,
                      counters: seq<nat>, start: nat, log: seq<GateEntry>, i: nat)
    requires RunAfter(api, n, out, requests, counters) && GateLog(start, counters, log) && i < n
    ensures log[i].due <==> QuotaDue(|Output(api, i)|)
  {
    CountersSpec(api, n, i);
    assert GatePass(counters[i], log[i]);
  }

  /** Every page is requested once, in page order, with nothing skipped. */
  lemma {:induction false} PagesSpec(n: nat)
    ensures forall i :: 0 <= i < n ==> Pages(n)[i] == i + 1
    decreases n
  {
    if n > 0 {
      PagesSpec(n - 1);
    }
  }

  // ---------------------------------------------------------------------
  // Properties of the run
  // ---------------------------------------------------------------------

  /** A first page without `has_next` ends the run: one request, and exactly
      that page's URLs, `actual_size` of them when the field is truthful. */
  lemma SinglePage(api: nat -> HttpReply, r: Response)
    requires PageResult(api, 1) == Success(r) && !r.hasNext
    ensures Stops(api, 1)
    ensures Output(api, 1) == URLsOf(r)
    ensures r.actualSize == |r.urlList| ==> |Output(api, 1)| == r.actualSize
  {
  }

  /** What is printed for the first `p` pages stays at the head of the
      output: later pages only append. */
  lemma {:induction false} OutputPrefix(api: nat -> HttpReply, p: nat, n: nat)
    requires p <= n
    ensures Output(api, p) <= Output(api, n)
    decreases n
  {
    if p < n {
      OutputPrefix(api, p, n - 1);
      assert (Output(api, n - 1) + PageURLs(api, n))[..|Output(api, n - 1)|] == Output(api, n - 1);
    }
  }

  /** The counter counts URLs, not requests: with pages of `size` URLs the
      counter after `k` pages is `size * k`. */
  lemma {:induction false} UniformPagesCount(api: nat -> HttpReply, k: nat, size: nat)
    requires forall p :: 1 <= p <= k ==> |PageURLs(api, p)| == size
    ensures |Output(api, k)| == size * k
    decreases k
  {
    if k > 0 {
      UniformPagesCount(api, k - 1, size);
    }
  }

  /** ... so the gate is due after `k` full pages exactly when `k` is a
      positive multiple of 95: it first fires after 95 requests. */
  lemma QuotaAfterFullPages(k: nat)
    ensures QuotaDue(100 * k) <==> k > 0 && k % 95 == 0
  {
    var q, r := k / 95, k % 95;
    assert k == 95 * q + r;
    assert 100 * k == 9500 * q + 100 * r;
    ModOfMultiple(100 * k, 9500, q, 100 * r);
  }

  /** Hence, as `main` records it, the gate fires before page `p` of a run of
      full pages exactly when 95, 190, ... pages precede it. */
  lemma GateOnFullPages(api: nat -> HttpReply, n: nat, p: nat)
    requires forall q :: 1 <= q <= n ==> |PageURLs(api, q)| == LimitPerPage
    requires 1 <= p <= n
    ensures QuotaDue(Counters(api, n)[p - 1]) <==> p > 1 && (p - 1) % 95 == 0
  {
    CountersSpec(api, n, p - 1);
    UniformPagesCount(api, p - 1, LimitPerPage);
    QuotaAfterFullPages(p - 1);
  }

  /** With pages of one URL each the gate fires only after 9500 requests. */
  lemma SingleURLPagesCount(api: nat -> HttpReply, k: nat)
    requires forall p :: 1 <= p <= k ==> |PageURLs(api, p)| == 1
    ensures |Output(api, k)| == k
    ensures QuotaDue(|Output(api, k)|) <==> k > 0 && k % 9500 == 0
  {
    UniformPagesCount(api, k, 1);
  }

  /** The gate does not watch the counter while a page is printed: with
      pages of 30 URLs the counter steps over 9500 (9480 after page 316,
      9510 after page 317) and the gate is first due at 28500, after 950
      requests. */
  lemma QuotaAfterThirtyURLPages(k: nat)
    ensures QuotaDue(30 * k) <==> k > 0 && k % 950 == 0
  {
    var q, r := k / 950, k % 950;
    assert k == 950 * q + r;
    assert 30 * k == 9500 * (3 * q) + 30 * r;
    if 30 * r < 9500 {
      ModOfMultiple(30 * k, 9500, 3 * q, 30 * r);
    } else if 30 * r < 19000 {
      ModOfMultiple(30 * k, 9500, 3 * q + 1, 30 * r - 9500);
    } else {
      ModOfMultiple(30 * k, 9500, 3 * q + 2, 30 * r - 19000);
    }
  }

  /** As `main` records it, the gate of a run of 30-URL pages fires before page `p` only
      when 950, 1900, ... pages precede it, although page 317 already takes
      the count past 9500. */
  lemma GateOnThirtyURLPages(api: nat -> HttpReply, n: nat, p: nat)
    requires forall q :: 1 <= q <= n ==> |PageURLs(api, q)| == 30
    requires 1 <= p <= n
    ensures Counters(api, n)[p - 1] == 30 * (p - 1)
    ensures QuotaDue(Counters(api, n)[p - 1]) <==> p > 1 && (p - 1) % 950 == 0
    ensures 317 <= n ==> |Output(api, 316)| < RequestsPerHour < |Output(api, 317)|
  {
    CountersSpec(api, n, p - 1);
    UniformPagesCount(api, p - 1, 30);
    QuotaAfterThirtyURLPages(p - 1);
    if 317 <= n {
      UniformPagesCount(api, 316, 30);
      UniformPagesCount(api, 317, 30);
    }
  }

  lemma ModOfMultiple(a: int, b: int, q: int, r: int)
    requires 0 < b && 0 <= r < b && a == b * q + r
    ensures a % b == r
  {
    var q', r' := a / b, a % b;
    assert b * (q - q') == r' - r;
    if q > q' {
      MulGrows(b, q - q');
    } else if q < q' {
      MulGrows(b, q' - q);
    }
  }

  lemma {:induction false} MulGrows(b: int, d: nat)
    requires 0 < b && 1 <= d
    ensures b <= b * d
    decreases d
  {
    if d > 1 {
      MulGrows(b, d - 1);
      assert b * d == b * (d - 1) + b;
    }
  }
}
