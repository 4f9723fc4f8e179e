/** The permission prober: for every line holding a Workspace group URL it
    fetches the group's about page, classifies the reply and prints the line
    when the group is open to anyone on the web.  The HTTP exchange is a
    parameter (`probe`, or `server` underneath the redirect policy). */
module Prober {
  import opened Wrappers
  import opened Text
  import opened GroupPattern
  import opened Streams

  // ---------------------------------------------------------------------
  // Group identity and the about-page URL
  // ---------------------------------------------------------------------

  /** The two submatches of the prober's pattern. */
  datatype GroupId = GroupId(domain: string, name: string)

  /** What the pattern can capture: a non-empty domain without `/` and a
      non-empty group name without `/`, `?` or `#`. */
  predicate ValidId(id: GroupId) {
    && id.domain != [] && '/' !in id.domain
    && id.name != [] && '/' !in id.name && '?' !in id.name && '#' !in id.name
  }

  /** `pattern.FindStringSubmatch(url)` with its two captures. */
  function GroupIdentity(url: string): Option<GroupId> {
    match Leftmost(url, EmailPattern)
    case None => None
    case Some(m) => Some(GroupId(url[m.domainStart..m.domainEnd], url[m.domainEnd + 3..m.end]))
  }

  /** `extractGroupEmail`: `group@domain`, or "" when the URL does not match. */
  function ExtractGroupEmail(url: string): string {
    match GroupIdentity(url)
    case None => ""
    case Some(id) => id.name + "@" + id.domain
  }

  /** The normalised URL `https://groups.google.com/a/{domain}/g/{group}/about`. */
  function AboutURL(id: GroupId): string {
    Secure(Host) + id.domain + Marker + id.name + "/about"
  }

  /** The URL yields a group exactly when the pattern occurs in it; the group
      is the leftmost-first split, its captures are what the pattern allows,
      and the group name runs up to the end or to a `/`, `?` or `#`. */
  lemma IdentitySpec(url: string)
    ensures GroupIdentity(url).None? <==> forall m :: !IsMatch(url, m, EmailPattern)
    ensures GroupIdentity(url).Some? ==>
              && ValidId(GroupIdentity(url).value)
              && forall m :: IsLeftmostFirst(url, m, EmailPattern) ==>
                               && GroupIdentity(url).value == GroupId(Domain(url, m), Group(url, m))
                               && (m.end == |url| || url[m.end] in {'/', '?', '#'})
  {
    PatternsWellFormed();
    LeftmostSpec(url, EmailPattern);
    if GroupIdentity(url).Some? {
      var r := Leftmost(url, EmailPattern).value;
      var id := GroupIdentity(url).value;
      forall c | c in id.domain ensures c != '/' {
        var k :| 0 <= k < |id.domain| && id.domain[k] == c;
        assert id.domain[k] == url[r.domainStart + k];
      }
      forall c | c in id.name ensures c !in {'/', '?', '#'} {
        var k :| 0 <= k < |id.name| && id.name[k] == c;
        assert id.name[k] == url[r.domainEnd + 3 + k];
      }
      forall m | IsLeftmostFirst(url, m, EmailPattern)
        ensures id == GroupId(Domain(url, m), Group(url, m))
        ensures m.end == |url| || url[m.end] in {'/', '?', '#'}
      {
        LeftmostFirstUnique(url, m, EmailPattern);
      }
    }
  }

  /** The e-mail address is "" exactly when the URL yields no group, and is
      `group@domain` of the leftmost-first match otherwise. */
  lemma ExtractGroupEmailSpec(url: string)
    ensures ExtractGroupEmail(url) == "" <==> forall m :: !IsMatch(url, m, EmailPattern)
    ensures forall m :: IsLeftmostFirst(url, m, EmailPattern) ==>
              ExtractGroupEmail(url) == Group(url, m) + "@" + Domain(url, m)
  {
    IdentitySpec(url);
    PatternsWellFormed();
    LeftmostSpec(url, EmailPattern);
  }

  /** A URL laid out as scheme, domain, `/g/`, group and a remainder that
      starts with `/`, `?` or `#` (or is empty) yields exactly that group. */
  lemma IdentityOfShape(p: string, d: string, g: string, rest: string)
    requires p == Plain(Host) || p == Secure(Host)
    requires ValidId(GroupId(d, g))
    requires rest == [] || rest[0] in {'/', '?', '#'}
    ensures GroupIdentity(p + d + Marker + g + rest) == Some(GroupId(d, g))
  {
    PatternsWellFormed();
    MatchOfShape(p, d, g, rest, EmailPattern);
    var s := p + d + Marker + g + rest;
    assert s[|p|..|p| + |d|] == d;
    assert s[|p| + |d| + 3..|p| + |d| + 3 + |g|] == g;
  }

  /** Normalising and re-parsing gives back the group: the about-page URL
      carries the same domain and group name. */
  lemma AboutURLRoundTrip(id: GroupId)
    requires ValidId(id)
    ensures GroupIdentity(AboutURL(id)) == Some(id)
  {
    IdentityOfShape(Secure(Host), id.domain, id.name, "/about");
  }

  /** Normalisation is idempotent: the about-page URL of a URL's group
      normalises to itself. */
  lemma AboutURLIdempotent(url: string)
    requires GroupIdentity(url).Some?
    ensures GroupIdentity(AboutURL(GroupIdentity(url).value)) == GroupIdentity(url)
  {
    IdentitySpec(url);
    AboutURLRoundTrip(GroupIdentity(url).value);
  }

  /** The group's e-mail address for the example of the tool's documentation. */
  lemma ExtractGroupEmailSample(url: string, domain: string, group: string)
    requires domain == "list.nist.gov" && group == "internet-time-service"
    requires url == "https://groups.google.com/a/" + domain + "/g/" + group
    ensures ExtractGroupEmail(url) == group + "@" + domain
  {
    SampleIdValid(domain, group);
    HostSchemes();
    IdentityOfShape(Secure(Host), domain, group, []);
    assert url == Secure(Host) + domain + Marker + group + [];
  }

  lemma SampleIdValid(domain: string, group: string)
    requires domain == "list.nist.gov" && group == "internet-time-service"
    ensures ValidId(GroupId(domain, group))
  {
  }

  // ---------------------------------------------------------------------
  // The phrase predicates
  // ---------------------------------------------------------------------

  const Lead := "Anyone on the web"
  /** The upper bound of the lazy `.{0,50}?` gap. */
  const Window := 50
  const ViewPhrase := "can view conversations"
  const JoinPhrase := "can join group"
  const PostPhrase := "can post"

  /** Tries the gaps `k`, `k + 1`, ... (up to `Window`) after index `j`: the
      phrase follows the gap, and every gap character is not a newline (`.`). */
  predicate GapFrom(s: string, j: nat, k: nat, phrase: string)
    requires j + k <= |s|
    decreases Window - k
  {
    || PrefixAt(s, j + k, phrase)
    || (k < Window && j + k < |s| && s[j + k] != '\n' && GapFrom(s, j, k + 1, phrase))
  }

  /** The unanchored search of `lead.{0,50}?phrase` from start index `i` on. */
  predicate PhraseFrom(s: string, i: nat, lead: string, phrase: string)
    requires i <= |s|
    decreases |s| - i
  {
    || (PrefixAt(s, i, lead) && GapFrom(s, i + |lead|, 0, phrase))
    || (i < |s| && PhraseFrom(s, i + 1, lead, phrase))
  }

  /** Go's `MatchString` for `lead.{0,50}?phrase`. */
  predicate MatchPhrase(s: string, lead: string, phrase: string) {
    PhraseFrom(s, 0, lead, phrase)
  }

  /** `s[j..j + g]` is a gap of at most `Window` non-newline characters
      followed by `phrase`. */
  ghost predicate GapWitness(s: string, j: nat, g: nat, phrase: string) {
    && j + g <= |s| && g <= Window
    && NoneIn(s, j, j + g, {'\n'})
    && PrefixAt(s, j + g, phrase)
  }

  /** `lead`, then a gap of `g` characters, then `phrase`, starting at `i`. */
  ghost predicate PhraseWitness(s: string, lead: string, phrase: string, i: nat, g: nat) {
    PrefixAt(s, i, lead) && GapWitness(s, i + |lead|, g, phrase)
  }

  lemma {:induction false} GapFromSpec(s: string, j: nat, k: nat, phrase: string)
    requires j + k <= |s| && k <= Window
    requires NoneIn(s, j, j + k, {'\n'})
    ensures GapFrom(s, j, k, phrase) <==> exists g: nat :: k <= g && GapWitness(s, j, g, phrase)
    decreases Window - k
  {
    if PrefixAt(s, j + k, phrase) {
      assert GapWitness(s, j, k, phrase);
    } else if k < Window && j + k < |s| && s[j + k] != '\n' {
      GapFromSpec(s, j, k + 1, phrase);
    } else {
      assert forall g: nat :: k < g && GapWitness(s, j, g, phrase) ==> s[j + k] != '\n';
    }
  }

  lemma {:induction false} PhraseFromSpec(s: string, i: nat, lead: string, phrase: string)
    requires i <= |s|
    ensures PhraseFrom(s, i, lead, phrase) <==>
              exists h: nat, g: nat :: i <= h && PhraseWitness(s, lead, phrase, h, g)
    decreases |s| - i
  {
    if PrefixAt(s, i, lead) {
      GapFromSpec(s, i + |lead|, 0, phrase);
      if GapFrom(s, i + |lead|, 0, phrase) {
        var g: nat :| GapWitness(s, i + |lead|, g, phrase);
        assert PhraseWitness(s, lead, phrase, i, g);
      }
    }
    if i < |s| {
      PhraseFromSpec(s, i + 1, lead, phrase);
    }
    if h: nat, g: nat :| i <= h && PhraseWitness(s, lead, phrase, h, g) {
      if h == i {
        assert GapWitness(s, i + |lead|, g, phrase);
      } else {
        assert i < |s|;
        assert i + 1 <= h;
      }
    }
  }

  /** The flag is set exactly when `lead`, a gap of at most 50 characters
      none of which is a newline, and `phrase` occur in that order. */
  lemma MatchPhraseSpec(s: string, lead: string, phrase: string)
    ensures MatchPhrase(s, lead, phrase) <==> exists i: nat, g: nat :: PhraseWitness(s, lead, phrase, i, g)
  {
    PhraseFromSpec(s, 0, lead, phrase);
  }

  /** A sentence `lead gap phrase` with a short, newline-free gap sets the flag,
      wherever it sits in the page. */
  lemma SentenceSetsFlag(s: string, i: nat, lead: string, gap: string, phrase: string)
    requires |gap| <= Window && '\n' !in gap
    requires PrefixAt(s, i, lead + gap + phrase)
    ensures MatchPhrase(s, lead, phrase)
  {
    var t := lead + gap + phrase;
    var j := i + |lead|;
    assert s[i..i + |lead|] == s[i..i + |t|][..|lead|] == t[..|lead|] == lead;
    assert s[j + |gap|..j + |gap| + |phrase|] == s[i..i + |t|][|lead| + |gap|..] == phrase;
    forall k | j <= k < j + |gap| ensures s[k] != '\n' {
      assert s[k] == s[i..i + |t|][k - i] == gap[k - j];
    }
    assert PhraseWitness(s, lead, phrase, i, |gap|);
    MatchPhraseSpec(s, lead, phrase);
  }

  /** The flag is set only on a page that mentions the phrase; a page that
      never mentions it does not set the flag. */
  lemma FlagNeedsPhrase(s: string, lead: string, phrase: string)
    requires MatchPhrase(s, lead, phrase)
    ensures Contains(s, phrase)
  {
    MatchPhraseSpec(s, lead, phrase);
    var i: nat, g: nat :| PhraseWitness(s, lead, phrase, i, g);
    var k: nat := i + |lead| + g;
    assert PrefixAt(s, k, phrase) && k <= |s|;
  }

  /** The window is bounded: when the lead occurs once, a phrase that only
      follows it after a newline, or more than 50 characters later, does not
      set the flag. */
  lemma FarPhraseClearsFlag(s: string, lead: string, phrase: string, i: nat)
    requires PrefixAt(s, i, lead)
    requires forall h: nat :: h != i ==> !PrefixAt(s, h, lead)
    requires forall k: nat :: i + |lead| <= k <= i + |lead| + Window && PrefixAt(s, k, phrase) ==>
               !NoneIn(s, i + |lead|, k, {'\n'})
    ensures !MatchPhrase(s, lead, phrase)
  {
    MatchPhraseSpec(s, lead, phrase);
  }

  // ---------------------------------------------------------------------
  // Classification of the reply
  // ---------------------------------------------------------------------

  datatype GroupPermissions = GroupPermissions(
    isPublic: bool, canView: bool, canPost: bool, canJoin: bool, requireAuth: bool)

  /** What `client.Do` and `io.ReadAll` produced for the about page: a
      transport error, or a status with the body (`None` when reading it failed). */
  datatype ProbeResult = RequestError | Response(status: int, body: Option<string>)

  datatype CheckError = InvalidFormat | RequestFailed | UnexpectedStatus(code: int) | BodyReadFailed

  /** The statuses read as "redirected to login". */
  const AuthStatuses: set<int> := {302, 401, 403}

  /** The result for a group behind a login. */
  const AuthRequired := GroupPermissions(false, false, false, false, true)

  /** The flags of a public group, read off its about page. */
  function PublicPermissions(html: string): GroupPermissions {
    GroupPermissions(
      isPublic := true,
      canView := MatchPhrase(html, Lead, ViewPhrase),
      canPost := MatchPhrase(html, Lead, PostPhrase),
      canJoin := MatchPhrase(html, Lead, JoinPhrase),
      requireAuth := false)
  }

  /** The reply-handling part of `checkGroupHTML`. */
  function Classify(r: ProbeResult): Result<GroupPermissions, CheckError> {
    match r
    case RequestError => Failure(RequestFailed)
    case Response(status, body) =>
      if status in AuthStatuses then Success(AuthRequired)
      else if status != 200 then Failure(UnexpectedStatus(status))
      else
        match body
        case None => Failure(BodyReadFailed)
        case Some(html) => Success(PublicPermissions(html))
  }

  /** `checkGroupHTML`: parse, normalise to the about page, probe, classify. */
  function CheckGroupHTML(url: string, probe: string -> ProbeResult): Result<GroupPermissions, CheckError> {
    match GroupIdentity(url)
    case None => Failure(InvalidFormat)
    case Some(id) => Classify(probe(AboutURL(id)))
  }

  /** The outcome is decided by the status: 302, 401 and 403 mean a login is
      required and nothing else holds; 200 with a readable body means public
      with the three flags read independently off the page; every other
      status is an error carrying that status; a failed request and an
      unreadable 200 body are errors of their own. */
  lemma ClassifySpec(r: ProbeResult)
    ensures Classify(r).Success? ==> Classify(r).value.isPublic != Classify(r).value.requireAuth
    ensures Classify(r) == Success(AuthRequired) <==> r.Response? && r.status in {302, 401, 403}
    ensures Classify(r).Success? && Classify(r).value.isPublic <==> r.Response? && r.status == 200 && r.body.Some?
    ensures (exists c :: Classify(r) == Failure(UnexpectedStatus(c))) <==>
              r.Response? && r.status !in {200, 302, 401, 403}
    ensures Classify(r).Success? ==> r.Response? && (r.status in {302, 401, 403} || (r.status == 200 && r.body.Some?))
    ensures Classify(r).Failure? && Classify(r).error.UnexpectedStatus? ==> Classify(r).error.code == r.status
    ensures Classify(r) == Failure(RequestFailed) <==> r.RequestError?
    ensures Classify(r) == Failure(BodyReadFailed) <==> r.Response? && r.status == 200 && r.body.None?
    ensures Classify(r).Success? && Classify(r).value.isPublic ==>
              && (Classify(r).value.canView <==> exists i: nat, g: nat :: PhraseWitness(r.body.value, Lead, ViewPhrase, i, g))
              && (Classify(r).value.canJoin <==> exists i: nat, g: nat :: PhraseWitness(r.body.value, Lead, JoinPhrase, i, g))
              && (Classify(r).value.canPost <==> exists i: nat, g: nat :: PhraseWitness(r.body.value, Lead, PostPhrase, i, g))
  {
    if r.Response? && r.body.Some? {
      MatchPhraseSpec(r.body.value, Lead, ViewPhrase);
      MatchPhraseSpec(r.body.value, Lead, JoinPhrase);
      MatchPhraseSpec(r.body.value, Lead, PostPhrase);
    }
    if exists c :: Classify(r) == Failure(UnexpectedStatus(c)) {
      var c :| Classify(r) == Failure(UnexpectedStatus(c));
    }
  }

  /** The invalid-format error occurs exactly for the URLs whose e-mail
      address comes out empty, since both use the same pattern. */
  lemma InvalidFormatIff(url: string, probe: string -> ProbeResult)
    ensures CheckGroupHTML(url, probe) == Failure(InvalidFormat) <==> ExtractGroupEmail(url) == ""
  {
    if GroupIdentity(url).Some? {
      var id := GroupIdentity(url).value;
      assert ExtractGroupEmail(url)[|id.name|] == '@';
    }
  }

  /** The probe goes to the about page of the group, whatever the scheme and
      whatever follows the group name. */
  lemma ProbeURLOfShape(p: string, d: string, g: string, rest: string, probe: string -> ProbeResult)
    requires p == Plain(Host) || p == Secure(Host)
    requires ValidId(GroupId(d, g))
    requires rest == [] || rest[0] in {'/', '?', '#'}
    ensures CheckGroupHTML(p + d + Marker + g + rest, probe) == Classify(probe(AboutURL(GroupId(d, g))))
    ensures AboutURL(GroupId(d, g)) == "https://groups.google.com/a/" + d + "/g/" + g + "/about"
  {
    IdentityOfShape(p, d, g, rest);
    HostSchemes();
  }

  // ---------------------------------------------------------------------
  // The redirect policy and the client that applies it
  // ---------------------------------------------------------------------

  const LoginHost := "accounts.google.com"
  const MaxRedirects := 10

  datatype RedirectDecision = UseLastResponse | TooManyRedirects | FollowRedirect

  /** The client's `CheckRedirect` for a redirect to `target` after `via`
      requests. */
  function CheckRedirect(target: string, via: nat): RedirectDecision {
    if Contains(target, LoginHost) then UseLastResponse
    else if via >= MaxRedirects then TooManyRedirects
    else FollowRedirect
  }

  /** The server's side of one request: no answer, or a status, a resolved
      `Location` target and a body (`None` when it cannot be read). */
  datatype ServerReply = Unreachable | Served(status: int, location: Option<string>, body: Option<string>)

  /** The statuses `net/http` follows when they carry a `Location`. */
  const RedirectStatuses: set<int> := {301, 302, 303, 307, 308}

  predicate IsRedirect(r: ServerReply) {
    r.Served? && r.status in RedirectStatuses && r.location.Some?
  }

  /** What `client.Do` comes back with, and how many requests it made. */
  datatype Exchange = Exchange(result: ProbeResult, hops: nat)

  /** `client.Do` with the redirect policy, `sent` requests having been made
      before this one: the client never makes more than 10 in all. */
  function Send(server: string -> ServerReply, url: string, sent: nat): (x: Exchange)
    requires sent < MaxRedirects
    ensures 1 <= x.hops <= MaxRedirects - sent
    decreases MaxRedirects - sent
  {
    var reply := server(url);
    match reply
    case Unreachable => Exchange(RequestError, 1)
    case Served(status, location, body) =>
      if IsRedirect(reply) then
        match CheckRedirect(location.value, sent + 1)
        case UseLastResponse => Exchange(Response(status, body), 1)
        case TooManyRedirects => Exchange(RequestError, 1)
        case FollowRedirect =>
          var next := Send(server, location.value, sent + 1);
          Exchange(next.result, next.hops + 1)
      else Exchange(Response(status, body), 1)
  }

  /** A 302 towards the login host is classified as "authentication
      required", at any hop, and such a group is never accepted. */
  lemma LoginRedirectRequiresAuth(server: string -> ServerReply, url: string, sent: nat, requirePost: bool)
    requires sent < MaxRedirects
    requires server(url).Served? && server(url).status == 302
    requires server(url).location.Some? && Contains(server(url).location.value, LoginHost)
    ensures Classify(Send(server, url, sent).result) == Success(AuthRequired)
    ensures !IsOpen(AuthRequired, requirePost)
  {
  }

  /** A server that always redirects somewhere other than the login host
      makes the client give up with an error, after using up all 10
      requests. */
  lemma {:induction false} RedirectLoopFails(server: string -> ServerReply, url: string, sent: nat)
    requires sent < MaxRedirects
    requires forall u :: IsRedirect(server(u)) && !Contains(server(u).location.value, LoginHost)
    ensures Send(server, url, sent) == Exchange(RequestError, MaxRedirects - sent)
    decreases MaxRedirects - sent
  {
    var reply := server(url);
    assert IsRedirect(reply) && !Contains(reply.location.value, LoginHost);
    if sent + 1 < MaxRedirects {
      RedirectLoopFails(server, reply.location.value, sent + 1);
    }
  }

  // ---------------------------------------------------------------------
  // Acceptance and the main loop
  // ---------------------------------------------------------------------

  /** The acceptance rule: public and viewable or joinable, and postable too
      under `-require-post`. */
  predicate IsOpen(p: GroupPermissions, requirePost: bool) {
    p.isPublic && (p.canView || p.canJoin) && (!requirePost || p.canPost)
  }

  /** A group behind a login is never accepted; under `-require-post` a
      viewable group that does not allow posting is rejected, and without it
      the same group is accepted. */
  lemma AcceptanceRule(p: GroupPermissions, requirePost: bool)
    ensures !IsOpen(AuthRequired, requirePost)
    ensures Classify(Response(302, None)) == Success(p) ==> !IsOpen(p, requirePost)
    ensures p.isPublic && p.canView && !p.canPost ==> IsOpen(p, false) && !IsOpen(p, true)
    ensures IsOpen(p, true) ==> IsOpen(p, false)
  {
  }

  /** The classification of the fixture page: "Anyone on the web can view
      conversations" and neither of the other phrases. */
  lemma ViewOnlyFixture(html: string, i: nat)
    requires PrefixAt(html, i, Lead + " " + ViewPhrase)
    requires !Contains(html, JoinPhrase) && !Contains(html, PostPhrase)
    ensures Classify(Response(200, Some(html))) == Success(GroupPermissions(true, true, false, false, false))
    ensures IsOpen(Classify(Response(200, Some(html))).value, false)
    ensures !IsOpen(Classify(Response(200, Some(html))).value, true)
  {
    SentenceSetsFlag(html, i, Lead, " ", ViewPhrase);
    if MatchPhrase(html, Lead, JoinPhrase) {
      FlagNeedsPhrase(html, Lead, JoinPhrase);
      assert false;
    }
    if MatchPhrase(html, Lead, PostPhrase) {
      FlagNeedsPhrase(html, Lead, PostPhrase);
      assert false;
    }
  }

  /** The line printed for `line`, if any. */
  function Verdict(line: string, requirePost: bool, probe: string -> ProbeResult): Option<string> {
    if ExtractGroupEmail(line) == "" then None
    else
      match CheckGroupHTML(line, probe)
      case Failure(_) => None
      case Success(p) => if IsOpen(p, requirePost) then Some(line) else None
  }

  /** The about page probed for `line`, if any. */
  function ProbeOf(line: string): Option<string> {
    if ExtractGroupEmail(line) == "" then None else Some(AboutURL(GroupIdentity(line).value))
  }

  function Accepted(lines: seq<string>, requirePost: bool, probe: string -> ProbeResult): seq<string> {
    Collect(lines, (line: string) => Verdict(line, requirePost, probe))
  }

  function Probes(lines: seq<string>): seq<string> {
    Collect(lines, ProbeOf)
  }

  /** One line of input extends both streams by that line's entries. */
  lemma LinesStep(lines: seq<string>, n: nat, requirePost: bool, probe: string -> ProbeResult)
    requires n < |lines|
    ensures Accepted(lines[..n + 1], requirePost, probe) ==
            Accepted(lines[..n], requirePost, probe) + Listed(Verdict(lines[n], requirePost, probe))
    ensures Probes(lines[..n + 1]) == Probes(lines[..n]) + Listed(ProbeOf(lines[n]))
  {
    assert lines[..n + 1] == lines[..n] + [lines[n]];
    CollectSnoc(lines[..n], lines[n], (line: string) => Verdict(line, requirePost, probe));
    CollectSnoc(lines[..n], lines[n], ProbeOf);
  }

  /** The main loop: one rate-limiter tick and one probe per line with a
      group address, each accepted line printed unchanged. */
  method CheckGroupPermissions(lines: seq<string>, requirePost: bool, probe: string -> ProbeResult)
    returns (out: seq<string>, ghost probed: seq<string>, ghost ticks: nat)
    ensures out == Accepted(lines, requirePost, probe)
    ensures probed == Probes(lines) && ticks == |probed|
  {
    out := [];
    probed := [];
    ticks := 0;
    var n := 0;
    while n < |lines|
      invariant n <= |lines|
      invariant out == Accepted(lines[..n], requirePost, probe)
      invariant probed == Probes(lines[..n]) && ticks == |probed|
    {
      var url := lines[n];
      LinesStep(lines, n, requirePost, probe);
      n := n + 1;
      var groupEmail := ExtractGroupEmail(url);
      if groupEmail == "" {
        assert Verdict(url, requirePost, probe) == None && ProbeOf(url) == None;
        continue;
      }
      ticks := ticks + 1;
      probed := probed + [AboutURL(GroupIdentity(url).value)];
      var perms := CheckGroupHTML(url, probe);
      if perms.Failure? {
        assert Verdict(url, requirePost, probe) == None;
        continue;
      }
      var p := perms.value;
      var isOpen := p.isPublic && (p.canView || p.canJoin);
      if requirePost {
        isOpen := isOpen && p.canPost;
      }
      assert isOpen == IsOpen(p, requirePost);
      if isOpen {
        out := out + [url];
      }
    }
    assert lines[..n] == lines;
  }

  /** The output is the in-order subsequence of the input lines that have a
      group address, whose probe succeeded and which are open; an accepted
      line is printed as often as it occurs in the input. */
  lemma AcceptedSpec(lines: seq<string>, requirePost: bool, probe: string -> ProbeResult)
    ensures Subsequence(Accepted(lines, requirePost, probe), lines)
    ensures forall x :: x in Accepted(lines, requirePost, probe) <==>
              && x in lines
              && ExtractGroupEmail(x) != ""
              && CheckGroupHTML(x, probe).Success?
              && IsOpen(CheckGroupHTML(x, probe).value, requirePost)
    ensures forall x :: multiset(Accepted(lines, requirePost, probe))[x] ==
              if Verdict(x, requirePost, probe) == Some(x) then multiset(lines)[x] else 0
  {
    var f := (line: string) => Verdict(line, requirePost, probe);
    assert Accepted(lines, requirePost, probe) == Collect(lines, f);
    CollectSpec(lines, f);
    CollectKeepsOrder(lines, f);
    CollectKeepsCopies(lines, f);
  }

  /** Lines without a group address make no probe and consume no tick; the
      others probe their about page, in input order. */
  lemma ProbesSpec(lines: seq<string>)
    ensures |Probes(lines)| <= |lines|
    ensures forall u :: u in Probes(lines) <==>
              exists k :: 0 <= k < |lines| && ExtractGroupEmail(lines[k]) != "" && u == AboutURL(GroupIdentity(lines[k]).value)
  {
    CollectSpec(lines, ProbeOf);
  }

  /** `-require-post` only removes lines from the output. */
  lemma RequirePostStricter(lines: seq<string>, probe: string -> ProbeResult)
    ensures forall x :: x in Accepted(lines, true, probe) ==> x in Accepted(lines, false, probe)
  {
    AcceptedSpec(lines, true, probe);
    AcceptedSpec(lines, false, probe);
  }
}
