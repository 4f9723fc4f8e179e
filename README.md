# Google Groups reconnaissance tools, modelled in Dafny

This project models the four command-line tools in `google_groups_recon/`.
Together they find Google Workspace groups that are open to anyone on the web:

- **Archive fetcher** (`fetch_alienvault.go`). It pages through the URL list that
  AlienVault's Open Threat Exchange holds for a domain and prints every URL. It
  aborts with status 1 at the first failed page. Before each request, if its
  counter is a positive multiple of 9500, it sleeps out the rest of the hour.
- **URL trimmer** (`trim_google_group_urls.go`). It keeps the lines that contain
  a group URL `https?://groups.google.com/a/{domain}/g/{group}` and prints each
  distinct key once, first occurrence first. The key is the whole line, or with
  `-trim` only the matched group root.
- **Domain extractor** (`filter_google_group_domains.go`). It prints each distinct
  `{domain}` once.
- **Permission prober** (`check_google_group_permissions.go`). For each line with
  a group address it fetches `https://groups.google.com/a/{domain}/g/{group}/about`
  and classifies the reply. A status of 302, 401 or 403 means "authentication
  required". Status 200 means public, with three flags read off the page. It
  prints the line when the group is public and viewable or joinable; with
  `-require-post` the group must also allow posting.

The modules:

- `GroupPattern`: the three group-URL regular expressions. They are stated as
  one parameterised leftmost-first matcher, plus an independent definition of
  what Go's `regexp` returns (`IsMatch`, `IsLeftmostFirst`). A lemma proves the
  two agree.
- `Streams`: the key-extraction-and-`seen`-map pattern shared by the loops.
- `TrimUrls`, `FilterDomains`, `Prober`, `AlienVault`: the four tools.
- `Text`, `Wrappers`: helpers.

Each loop over input lines is a `method` with a `while` loop. Each is proved
equal to a function of its input: the deduplicated key stream, or the
in-order accepted lines. The properties are then proved about those functions.

The network is a parameter:

- The prober's HTTP round trip is `probe: string -> ProbeResult`, keyed by the
  requested URL. Underneath it, `Send` models `http.Client` with the tool's
  redirect policy over a `server: string -> ServerReply`.
- The archive is `api: nat -> HttpReply`, the reply to the request for each page.
  `latency: nat -> nat` is how long each request takes, and `start` is the clock
  reading at start-up.
- Printed output is the method's `out` sequence.

Where the code and its own comments disagree, the model follows the code:

- With `-trim`, the trimmer keeps `.../g/team?hl=en` as its own key. The
  pattern's group class `[^/]+` (trim_google_group_urls.go:43) stops only at
  `/`. The comment at lines 10-11 and the example output at line 26 promise
  otherwise. `TrimDocumentationSample` proves the three sample lines give two
  outputs.
- The fetcher's quota counter counts printed URLs, not requests
  (fetch_alienvault.go:123 against the comment at line 34). With full pages
  of 100 URLs, the gate first fires after 95 requests (`GateOnFullPages`).
  With one URL per page it comes after 9500 (`SingleURLPagesCount`).
- The gate looks at the counter only before a request, and a page adds all of
  its URLs at once, so the counter can step over a multiple of 9500 with no
  wait. With pages of 30 URLs it goes from 9480 to 9510 on page 317. The gate
  first fires only at 28500 URLs, after 950 requests (`GateOnThirtyURLPages`).

## Model

| member | source | states |
|---|---|---|
| GroupPattern.LeftmostSpec | google_groups_recon/trim_google_group_urls.go:43 | The matcher finds no match exactly when the pattern occurs nowhere in the line; otherwise it returns a match that starts leftmost and, at that start, has the domain and group runs Go's leftmost-first semantics pick |
| GroupPattern.LeftmostFirstUnique | google_groups_recon/check_google_group_permissions.go:118-119 | The leftmost-first match is unique; with a group class, the group ends at the end of the line or before an excluded character |
| GroupPattern.MatchOfShape | google_groups_recon/check_google_group_permissions.go:59-60 | A line laid out as scheme, `/`-free domain, `/g/`, group and a remainder that starts outside the group class has exactly that match at index 0 |
| GroupPattern.LeftmostOfMatchedText | google_groups_recon/trim_google_group_urls.go:53 | Searching the matched text again finds the same match, shifted to index 0 |
| GroupPattern.DomainOfMatchedText | google_groups_recon/filter_google_group_domains.go:37 | The domain-only pattern finds, in a group-pattern match, the same domain |
| GroupPattern.DomainPatternWeaker | google_groups_recon/filter_google_group_domains.go:37 | Every line the group patterns match is also matched by the domain-only pattern |
| Streams.CollectSpec | google_groups_recon/filter_google_group_domains.go:42-52 | The extracted key stream holds a key exactly when some line yields it, and is no longer than the input |
| Streams.CollectKeepsOrder | google_groups_recon/check_google_group_permissions.go:152-186 | A loop that prints some of its input lines unchanged prints a subsequence of the input, in input order |
| Streams.CollectKeepsCopies | google_groups_recon/check_google_group_permissions.go:152-186 | Such a loop prints every copy of a line it keeps and no copy of a line it drops: the count of each line in the output is its count in the input or zero |
| Streams.FirstSeenSpec | google_groups_recon/trim_google_group_urls.go:46-57 | Deduplication keeps exactly the elements of the input, each once, in order of first occurrence |
| Streams.ScanStep | google_groups_recon/trim_google_group_urls.go:54-56 | With a `seen` map that is true for exactly the keys printed so far, "not seen" means "not yet printed"; marking and printing the key keeps that correspondence |
| Streams.FirstSeenRepeat | google_groups_recon/trim_google_group_urls.go:54 | A key repeated after another is dropped the second time |
| TrimUrls.TrimGroupUrls | google_groups_recon/trim_google_group_urls.go:45-65 | The loop prints the deduplicated key stream: distinct outputs, and a string is printed exactly when some line has it as its key |
| TrimUrls.FindStringEmpty | google_groups_recon/trim_google_group_urls.go:53-54 | `FindString` gives "" exactly when the pattern occurs nowhere in the line |
| TrimUrls.FindStringMatch | google_groups_recon/trim_google_group_urls.go:53 | Otherwise it is the text of the leftmost-first match, which ends at the end of the line or before a `/` |
| TrimUrls.KeySpec | google_groups_recon/trim_google_group_urls.go:51-63 | In both modes a non-matching line has no key; in full mode the key is the unchanged line, and in trim mode it is the matched text |
| TrimUrls.TrimIdempotent | google_groups_recon/trim_google_group_urls.go:53 | Trimming a trimmed URL gives it back |
| TrimUrls.TrimOfShape | google_groups_recon/trim_google_group_urls.go:43-53 | For either scheme, a group URL followed by nothing or by a `/` suffix trims to its group root |
| TrimUrls.TrimThreeLines | google_groups_recon/trim_google_group_urls.go:54-57 | Three lines with keys root, other and root print root, then other |
| TrimUrls.TrimSampleShape | google_groups_recon/trim_google_group_urls.go:18-26 | A sub-page line, a root plus a `/`-free suffix and the root itself print the root and the suffixed line |
| TrimUrls.TrimDocumentationSample | google_groups_recon/trim_google_group_urls.go:18-26 | The documentation's three lines print the group root and the `?hl=en` line, not the root alone |
| FilterDomains.FilterGroupDomains | google_groups_recon/filter_google_group_domains.go:39-53 | The loop prints each extracted domain once, first occurrence first, and a string is printed exactly when some line yields it as its domain |
| FilterDomains.DomainOfSpec | google_groups_recon/filter_google_group_domains.go:37-47 | A line yields a domain exactly when the pattern occurs in it; the domain is the leftmost-first capture, non-empty, free of `/` and followed by `/g/` |
| FilterDomains.DomainOfShape | google_groups_recon/filter_google_group_domains.go:37 | Scheme, domain and `/g/` yield the domain, whatever follows, including nothing |
| FilterDomains.DomainOfTrimmed | google_groups_recon/filter_google_group_domains.go:45-47 | Extracting from the trimmer's output finds the domain of the trimmer's match in the original line |
| FilterDomains.OnlyDomainMatch | google_groups_recon/filter_google_group_domains.go:37 | In a line of scheme, domain and `/g/`, the domain pattern matches only from index 0, with exactly that domain |
| FilterDomains.TrimRejectsEmptyGroup | google_groups_recon/trim_google_group_urls.go:43 | For either scheme and a non-empty domain without `/`, a line that ends right after `/g/` yields nothing from the trimmer, while the extractor yields exactly that domain from it. So trimming before extracting can lose domains |
| FilterDomains.TrimmedLinesHaveDomains | google_groups_recon/filter_google_group_domains.go:37 | Every line the trimmer keeps yields a domain |
| FilterDomains.DomainsOfTwoLines | google_groups_recon/filter_google_group_domains.go:48-51 | Two lines with distinct domains print both, in input order |
| FilterDomains.DomainDocumentationSample | google_groups_recon/filter_google_group_domains.go:15-23 | The documentation's two URLs print `list.nist.gov` then `example.com` |
| Prober.IdentitySpec | google_groups_recon/check_google_group_permissions.go:59-66 | A URL yields a group exactly when the pattern occurs. The group is the leftmost-first domain and name: a non-empty domain without `/`, and a non-empty name without `/`, `?` or `#` that runs to the end or to one of them |
| Prober.ExtractGroupEmailSpec | google_groups_recon/check_google_group_permissions.go:116-126 | The address is "" exactly when the pattern does not occur; otherwise it is `group@domain` of the leftmost-first match |
| Prober.IdentityOfShape | google_groups_recon/check_google_group_permissions.go:118-123 | Scheme, domain, `/g/`, group, and then nothing or `/`, `?` or `#`, yield exactly that domain and group |
| Prober.AboutURLRoundTrip | google_groups_recon/check_google_group_permissions.go:65-67 | Parsing the normalised about-page URL gives back the same domain and group name |
| Prober.AboutURLIdempotent | google_groups_recon/check_google_group_permissions.go:67 | Normalising the about-page URL of a URL's group yields the same group |
| Prober.ExtractGroupEmailSample | google_groups_recon/check_google_group_permissions.go:113-115 | The documented URL gives `internet-time-service@list.nist.gov` |
| Prober.GapFromSpec | google_groups_recon/check_google_group_permissions.go:102-104 | The lazy gap search succeeds exactly when, at some gap length at most 50 from the current one, the phrase follows a gap with no newline |
| Prober.PhraseFromSpec | google_groups_recon/check_google_group_permissions.go:102-108 | The unanchored search from an index succeeds exactly when the lead occurs at or after that index, followed by a short newline-free gap and the phrase |
| Prober.MatchPhraseSpec | google_groups_recon/check_google_group_permissions.go:102-108 | A flag is set exactly when "Anyone on the web", a gap of at most 50 non-newline characters and the phrase occur in that order |
| Prober.SentenceSetsFlag | google_groups_recon/check_google_group_permissions.go:106-108 | Such a sentence anywhere in the page sets the flag |
| Prober.FlagNeedsPhrase | google_groups_recon/check_google_group_permissions.go:106-108 | A set flag implies that the page contains the phrase; a page without the phrase leaves the flag clear |
| Prober.FarPhraseClearsFlag | google_groups_recon/check_google_group_permissions.go:100-104 | With a single lead, a phrase that is more than 50 characters away or behind a newline does not set the flag |
| Prober.ClassifySpec | google_groups_recon/check_google_group_permissions.go:83-110 | 302, 401 and 403 give "authentication required" and nothing else does; public exactly for 200 with a readable body; any other status is an error carrying exactly that status; a failed request and a 200 with an unreadable body are errors of their own and never a success; each flag holds exactly when its sentence occurs |
| Prober.InvalidFormatIff | google_groups_recon/check_google_group_permissions.go:60-62 | `checkGroupHTML` reports an invalid format exactly for the URLs whose address comes out empty |
| Prober.ProbeURLOfShape | google_groups_recon/check_google_group_permissions.go:59-67 | The probe goes to `https://groups.google.com/a/{domain}/g/{group}/about`, whatever the scheme and whatever follows the group |
| Prober.Send | google_groups_recon/check_google_group_permissions.go:135-145 | The client, following redirects, makes at least one request and never more than 10 in all |
| Prober.LoginRedirectRequiresAuth | google_groups_recon/check_google_group_permissions.go:137-139 | A 302 to the login host is not followed, at any hop: its response is classified as "authentication required", and such a group is never accepted |
| Prober.RedirectLoopFails | google_groups_recon/check_google_group_permissions.go:140-142 | A server that keeps redirecting elsewhere makes the request fail, after exactly 10 requests |
| Prober.AcceptanceRule | google_groups_recon/check_google_group_permissions.go:170-174 | A login-protected group (the permissions a 302, 401 or 403 yields) is never open, with or without `-require-post`. A public, viewable group that does not allow posting is open without `-require-post` and rejected with it. Open under `-require-post` implies open without it |
| Prober.ViewOnlyFixture | google_groups_recon/check_google_group_permissions.go:102-108 | A page with "Anyone on the web can view conversations" and neither other phrase is public and viewable only; it is accepted without `-require-post` and rejected with it |
| Prober.CheckGroupPermissions | google_groups_recon/check_google_group_permissions.go:152-186 | The loop prints exactly the accepted lines. It probes the about page of each line with a group address, in order, and takes one rate-limiter tick per probe |
| Prober.AcceptedSpec | google_groups_recon/check_google_group_permissions.go:155-185 | Output is the in-order subsequence of input lines that have a group address, whose check succeeded and which pass the acceptance rule. A line that passes is printed exactly as many times as it occurs in the input, and a line that does not pass never |
| Prober.ProbesSpec | google_groups_recon/check_google_group_permissions.go:155-164 | Lines without a group address make no request; every other line requests its own about page |
| Prober.RequirePostStricter | google_groups_recon/check_google_group_permissions.go:172-174 | `-require-post` only removes lines from the output |
| AlienVault.DecimalRoundTrip | google_groups_recon/fetch_alienvault.go:57 | `%d` writes decimal digits that read back as the number |
| AlienVault.RequestURLSpec | google_groups_recon/fetch_alienvault.go:57 | The request is `{baseURL}/{domain}?limit=100&page={page}`, and distinct pages have distinct request URLs |
| AlienVault.FetchURLsSpec | google_groups_recon/fetch_alienvault.go:59-83 | Only a 200 with a readable, decodable body yields the decoded page; 429 is the rate-limit error; every other status is an error carrying it |
| AlienVault.URLsSpec | google_groups_recon/fetch_alienvault.go:121-122 | The printed URLs of a page are the entries' `url` fields, in order, one per entry |
| AlienVault.WaitForQuota | google_groups_recon/fetch_alienvault.go:101-112 | When the counter is not a positive multiple of 9500 nothing changes. Otherwise it sleeps out the rest of the hour since the window start, or not at all if the hour is over, and restarts the window at the clock reading after the sleep (or at once), at least an hour after the old window began. The clock never goes back, and the pass obeys the gate rule `GatePass` |
| AlienVault.PassGate | google_groups_recon/fetch_alienvault.go:101-112 | The gate records its pass: whether it was due and so fired, the clock reading at which it was reached, the window it found and left, and the clock reading at which the request goes out. The record stays a valid gate log: each pass obeys the gate rule, finds the window its predecessor left, and is reached no earlier than the request before it went out; the first is reached at start-up in the start-up window |
| AlienVault.WindowAfterReset | google_groups_recon/fetch_alienvault.go:101-112 | After the gate fires, every later pass finds a window that opened no earlier than that pass's request |
| AlienVault.ResetsAnHourApart | google_groups_recon/fetch_alienvault.go:101-112 | The requests of any two passes on which the gate fired are sent at least an hour apart |
| AlienVault.PrintURLs | google_groups_recon/fetch_alienvault.go:120-124 | Prints the page's URLs after what was printed before, adding one to the counter per URL |
| AlienVault.FetchPage | google_groups_recon/fetch_alienvault.go:114-124 | One page is fetched; on success its URLs are printed and its `has_next` reported; on failure nothing is printed |
| AlienVault.FetchAlienVault | google_groups_recon/fetch_alienvault.go:86-132 | An empty domain exits 1 with no request. Otherwise pages 1, 2, ... are requested in order up to `FirstStop`, the first page that fails or has no next page. The URLs of all requested pages are printed, and the exit status is 1 exactly when the last fetch failed. The gate reads, before each request, the number of URLs printed so far, and its log has one pass per request. The first pass is reached at start-up, and each later one exactly the latency of the previous page after that page's request went out. A pass fires exactly when its counter is a positive multiple of 9500; it then sends the request exactly an hour after the window it found began, or at once if that hour is over, and opens a new window there. A pass that does not fire sends the request at once and keeps the window |
| AlienVault.FirstStop | google_groups_recon/fetch_alienvault.go:114-129 | The run ends at the first page whose fetch fails or that has no next page; every page before it goes on to the next |
| AlienVault.FirstStopOfAnyBound | google_groups_recon/fetch_alienvault.go:100-132 | The end page is the same whichever stopping page is given as the termination bound |
| AlienVault.CountersSpec | google_groups_recon/fetch_alienvault.go:102 | Before the request for a page, the gate reads the number of URLs printed for the earlier pages |
| AlienVault.GateDecisions | google_groups_recon/fetch_alienvault.go:102 | In a recorded run the gate fires before the request for page i + 1 exactly when the URLs printed for pages 1 to i number a positive multiple of 9500 |
| AlienVault.PagesSpec | google_groups_recon/fetch_alienvault.go:96-131 | The i-th request is for page i + 1: no page is skipped or repeated |
| AlienVault.SinglePage | google_groups_recon/fetch_alienvault.go:127-129 | A first page without `has_next` ends the run after one request, with exactly its URLs printed |
| AlienVault.OutputPrefix | google_groups_recon/fetch_alienvault.go:120-124 | The output for earlier pages is a prefix of the output for later ones |
| AlienVault.UniformPagesCount | google_groups_recon/fetch_alienvault.go:121-124 | After k pages of the same size the counter is that size times k: it counts URLs, not requests |
| AlienVault.QuotaAfterFullPages | google_groups_recon/fetch_alienvault.go:102 | The gate is due at counter 100 * k exactly when k is a positive multiple of 95 |
| AlienVault.GateOnFullPages | google_groups_recon/fetch_alienvault.go:102-111 | In a run of full pages, the gate fires before page p exactly when p - 1 is a positive multiple of 95 |
| AlienVault.SingleURLPagesCount | google_groups_recon/fetch_alienvault.go:121-124 | With one URL per page the counter equals the number of pages, and the gate is due exactly at multiples of 9500 |
| AlienVault.QuotaAfterThirtyURLPages | google_groups_recon/fetch_alienvault.go:102 | The gate is due at counter 30 * k exactly when k is a positive multiple of 950 |
| AlienVault.GateOnThirtyURLPages | google_groups_recon/fetch_alienvault.go:102-124 | In a run of 30-URL pages the gate fires before page p exactly when p - 1 is a positive multiple of 950, although the count passes 9500 on page 317 (9480 before it, 9510 after) |

## Left out

- Reading standard input, writing stdout and stderr, and flag parsing are not modelled. Input is a sequence of lines and output is the returned sequence. Scanner errors and the exit status they cause are left out, and so are all stderr messages, including the prober's `-verbose` and "Rejected" lines.
- Clocks and timers: the prober's five-per-second ticker is a ghost count of ticks, one per probe. The fetcher's clock readings come from the parameters `start` and `latency`, and a sleep lasts exactly the time asked for.
- HTTP transport: the `User-Agent` header, the ten-second timeout and connection errors are lumped into `RequestError` or `NoResponse`. `http.NewRequest` failing is lumped in too. JSON decoding is an input: a body is unreadable, malformed or a decoded `Response`.
- Prober.CheckGroupPermissions: the probe is a function of the about-page URL, so a page gives the same answer every time it is asked.
- AlienVault.FetchAlienVault: the archive is a function of the page number, which stands for that page's request URL (`RequestURLSpec` shows distinct pages have distinct URLs). Its ghost `bound` is a page at which the archive stops; without one the source's loop need not end, and such runs are not modelled. Which such page is given does not change the run (`FirstStopOfAnyBound`).
- Prober.Send: the `Location` header is not parsed or resolved. The target is given as the absolute URL string `net/http` would resolve it to, so a relative or malformed `Location`, and the error a malformed one causes, are not modelled. A 3xx status without a `Location` is modelled: it is returned as the response.
- The regular expression engine is replaced by matchers for the patterns the core uses only: the three group-URL patterns (`GroupPattern`) and the prober's three phrase patterns `Anyone on the web.{0,50}?<phrase>` (`GapFrom`, `PhraseFrom` and `MatchPhrase` in `Prober`, where `.` is any character but a newline). They work on `char` sequences, without UTF-8 decoding.
