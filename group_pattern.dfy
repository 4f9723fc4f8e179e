/** The family of group-URL patterns the three text filters compile:

      https?://groups\.google\.com/a/([^/]+)/g/            (domain filter)
      https?://groups\.google\.com/a/[^/]+/g/[^/]+         (URL trimmer)
      https?://groups\.google\.com/a/([^/]+)/g/([^/?#]+)   (permission prober)

    All three are unanchored and searched leftmost-first.  Instead of a regular
    expression engine, the matcher below tries each start position in turn and,
    at a start, consumes the literal scheme-and-host prefix, the maximal run of
    non-`/` characters (the domain), the literal `/g/` and, when the pattern has
    one, the maximal run of characters outside the group class.  `IsMatch` and
    `IsLeftmostFirst` state independently what Go's `regexp` returns, and
    `LeftmostSpec` proves the matcher returns exactly that. */
module GroupPattern {
  import opened Wrappers
  import opened Text

  /** The literal text between the optional `s` of the scheme and the domain. */
  const Host := "://groups.google.com/a/"
  const Marker := "/g/"

  /** `http` followed by `host`. */
  function Plain(host: string): string { "http" + host }
  /** `https` followed by `host`. */
  function Secure(host: string): string { "https" + host }

  /** What follows `/g/`: nothing, or a non-empty run of characters outside `excluded`. */
  datatype Tail = UpToMarker | WithGroup(excluded: set<char>)

  /** `https?` `host` `([^/]+)/g/` `tail` */
  datatype Pattern = Pattern(host: string, tail: Tail)

  /** The two scheme spellings differ at the character after `http`, so at
      most one of them occurs at any index. */
  predicate WellFormed(pat: Pattern) {
    pat.host != [] && pat.host[0] != 's'
  }

  /** `https?://groups\.google\.com/a/[^/]+/g/[^/]+` */
  const TrimPattern := Pattern(Host, WithGroup({'/'}))
  /** `https?://groups\.google\.com/a/([^/]+)/g/` */
  const DomainPattern := Pattern(Host, UpToMarker)
  /** `https?://groups\.google\.com/a/([^/]+)/g/([^/?#]+)` */
  const EmailPattern := Pattern(Host, WithGroup({'/', '?', '#'}))

  /** The two spellings of the scheme and host. */
  lemma HostSchemes()
    ensures Secure(Host) == "https://groups.google.com/a/"
    ensures Plain(Host) == "http://groups.google.com/a/"
  {
  }

  lemma PatternsWellFormed()
    ensures WellFormed(TrimPattern) && WellFormed(DomainPattern) && WellFormed(EmailPattern)
  {
  }

  /** A match `s[start..end]`; the domain is `s[domainStart..domainEnd]` and
      the group, when the pattern has one, is `s[domainEnd + 3..end]`. */
  datatype Match = Match(start: nat, domainStart: nat, domainEnd: nat, end: nat)

  function Domain(s: string, m: Match): string
    requires m.domainStart <= m.domainEnd <= |s|
  {
    s[m.domainStart..m.domainEnd]
  }

  function Group(s: string, m: Match): string
    requires m.domainEnd + 3 <= m.end <= |s|
  {
    s[m.domainEnd + 3..m.end]
  }

  /** `s[m.start..m.end]` is in the language of `pat`, split as `m` says. */
  predicate IsMatch(s: string, m: Match, pat: Pattern) {
    && m.start <= m.domainStart < m.domainEnd
    && m.domainEnd + 3 <= m.end <= |s|
    && (s[m.start..m.domainStart] == Plain(pat.host) || s[m.start..m.domainStart] == Secure(pat.host))
    && NoneIn(s, m.domainStart, m.domainEnd, {'/'})
    && s[m.domainEnd..m.domainEnd + 3] == Marker
    && (match pat.tail
        case UpToMarker => m.end == m.domainEnd + 3
        case WithGroup(ex) => m.domainEnd + 3 < m.end && NoneIn(s, m.domainEnd + 3, m.end, ex))
  }

  /** Go's preference between two matches of one of these patterns: the
      leftmost start wins; from one start the domain split is forced and the
      greedy group run prefers the longest end. */
  predicate Precedes(m: Match, other: Match) {
    || m.start < other.start
    || (&& m.start == other.start
        && m.domainStart == other.domainStart
        && m.domainEnd == other.domainEnd
        && other.end <= m.end)
  }

  /** `m` is the match (and submatch split) Go's `regexp` reports for `s`. */
  ghost predicate IsLeftmostFirst(s: string, m: Match, pat: Pattern) {
    IsMatch(s, m, pat) && forall other :: IsMatch(s, other, pat) ==> Precedes(m, other)
  }

  /** `https?` followed by `host`, anchored at `i`; `s?` is greedy. */
  function SchemeEnd(s: string, i: nat, host: string): Option<nat> {
    if PrefixAt(s, i, Secure(host)) then Some(i + |Secure(host)|)
    else if PrefixAt(s, i, Plain(host)) then Some(i + |Plain(host)|)
    else None
  }

  /** The split points of a match lie in order inside `s`. */
  predicate InBounds(s: string, m: Match) {
    m.start <= m.domainStart <= m.domainEnd && m.domainEnd + 3 <= m.end <= |s|
  }

  /** The match of `pat` that starts exactly at `i`, if any. */
  function MatchAt(s: string, i: nat, pat: Pattern): (r: Option<Match>)
    requires i <= |s|
    ensures r.Some? ==> InBounds(s, r.value) && r.value.start == i
  {
    match SchemeEnd(s, i, pat.host)
    case None => None
    case Some(a) =>
      var b := RunEnd(s, a, {'/'});
      if a < b && PrefixAt(s, b, Marker) then
        match pat.tail
        case UpToMarker => Some(Match(i, a, b, b + 3))
        case WithGroup(ex) =>
          var e := RunEnd(s, b + 3, ex);
          if b + 3 < e then Some(Match(i, a, b, e)) else None
      else None
  }

  /** The leftmost match of `pat` among those starting before index `n`:
      the search tries the start positions from left to right and stops at
      the first one with a match. */
  function FirstBefore(s: string, n: nat, pat: Pattern): (r: Option<Match>)
    requires n <= |s| + 1
    ensures r.Some? ==> InBounds(s, r.value) && r.value.start < n
  {
    if n == 0 then None
    else
      match FirstBefore(s, n - 1, pat)
      case Some(m) => Some(m)
      case None => MatchAt(s, n - 1, pat)
  }

  /** The unanchored leftmost-first search of `pat` in `s`. */
  function Leftmost(s: string, pat: Pattern): (r: Option<Match>)
    ensures r.Some? ==> InBounds(s, r.value)
  {
    FirstBefore(s, |s| + 1, pat)
  }

  /** At a scheme occurrence the scheme scan stops exactly at its end. */
  lemma SchemeEndComplete(s: string, i: nat, a: nat, host: string)
    requires host != [] && host[0] != 's'
    requires i <= a <= |s|
    requires s[i..a] == Plain(host) || s[i..a] == Secure(host)
    ensures SchemeEnd(s, i, host) == Some(a)
  {
    if s[i..a] == Plain(host) {
      assert s[i + 4] == s[i..a][4] == Plain(host)[4] == host[0];
      assert Secure(host)[4] == 's';
      assert i + |Secure(host)| <= |s| ==> s[i..i + |Secure(host)|][4] == s[i + 4];
    }
  }

  /** What `MatchAt` returns is a match. */
  lemma MatchAtSound(s: string, i: nat, pat: Pattern)
    requires i <= |s|
    ensures MatchAt(s, i, pat).Some? ==> IsMatch(s, MatchAt(s, i, pat).value, pat)
  {
    match SchemeEnd(s, i, pat.host)
    case None =>
    case Some(a) =>
      RunEndSpec(s, a, {'/'});
      var b := RunEnd(s, a, {'/'});
      if pat.tail.WithGroup? && b + 3 <= |s| {
        RunEndSpec(s, b + 3, pat.tail.excluded);
      }
  }

  lemma MatchAtComplete(s: string, i: nat, pat: Pattern, other: Match)
    requires WellFormed(pat)
    requires i <= |s|
    requires IsMatch(s, other, pat) && other.start == i
    ensures MatchAt(s, i, pat).Some?
    ensures Precedes(MatchAt(s, i, pat).value, other)
  {
    SchemeEndComplete(s, i, other.domainStart, pat.host);
    var a := other.domainStart;
    var b := other.domainEnd;
    assert s[b] == s[b..b + 3][0] == '/';
    RunEndUnique(s, a, {'/'}, b);
    assert PrefixAt(s, b, Marker);
  }

  /** What the search returns is a match. */
  lemma {:induction false} FirstBeforeSound(s: string, n: nat, pat: Pattern)
    requires n <= |s| + 1
    ensures FirstBefore(s, n, pat).Some? ==> IsMatch(s, FirstBefore(s, n, pat).value, pat)
  {
    if n > 0 {
      FirstBeforeSound(s, n - 1, pat);
      MatchAtSound(s, n - 1, pat);
    }
  }

  /** The search misses no match that starts before `n`, and what it returns
      is preferred to each of them. */
  lemma {:induction false} FirstBeforeLeast(s: string, n: nat, pat: Pattern)
    requires WellFormed(pat)
    requires n <= |s| + 1
    ensures FirstBefore(s, n, pat).Some? ==>
              forall other :: IsMatch(s, other, pat) && other.start < n ==>
                                Precedes(FirstBefore(s, n, pat).value, other)
    ensures FirstBefore(s, n, pat).None? ==>
              forall other :: IsMatch(s, other, pat) ==> n <= other.start
  {
    if n > 0 {
      FirstBeforeLeast(s, n - 1, pat);
      var prev := FirstBefore(s, n - 1, pat);
      if prev.None? {
        var here := MatchAt(s, n - 1, pat);
        assert FirstBefore(s, n, pat) == here;
        forall other | IsMatch(s, other, pat) && other.start == n - 1
          ensures here.Some? && Precedes(here.value, other)
        {
          MatchAtComplete(s, n - 1, pat, other);
        }
      }
    }
  }

  /** The matcher returns exactly the leftmost-first match, and nothing when
      the pattern occurs nowhere in `s`. */
  lemma LeftmostSpec(s: string, pat: Pattern)
    requires WellFormed(pat)
    ensures Leftmost(s, pat).Some? ==> IsLeftmostFirst(s, Leftmost(s, pat).value, pat)
    ensures Leftmost(s, pat).None? <==> forall m :: !IsMatch(s, m, pat)
  {
    FirstBeforeSound(s, |s| + 1, pat);
    FirstBeforeLeast(s, |s| + 1, pat);
  }

  /** Where the pieces of a scheme-domain-marker-group-rest layout sit. */
  lemma LayoutFacts(p: string, d: string, g: string, rest: string, ex: set<char>)
    requires '/' !in d
    requires forall c :: c in g ==> c !in ex
    ensures var s := p + d + Marker + g + rest;
            var b := |p| + |d|;
            && s[0..|p|] == p
            && NoneIn(s, |p|, b, {'/'})
            && s[b..b + 3] == Marker
            && NoneIn(s, b + 3, b + 3 + |g|, ex)
            && (rest != [] ==> s[b + 3 + |g|] == rest[0])
  {
    var s := p + d + Marker + g + rest;
    var b := |p| + |d|;
    assert s == p + (d + (Marker + (g + rest)));
    forall k | |p| <= k < b ensures s[k] != '/' {
      assert s[k] == d[k - |p|];
    }
    forall k | b + 3 <= k < b + 3 + |g| ensures s[k] !in ex {
      assert s[k] == g[k - b - 3];
    }
  }

  /** The matcher on a line whose pieces sit as `IsMatch` demands from index
      0, with the domain and group runs stopping where they must. */
  lemma LeftmostOfLayout(s: string, a: nat, b: nat, e: nat, pat: Pattern)
    requires WellFormed(pat)
    requires 0 < a < b && b + 3 <= e <= |s|
    requires s[0..a] == Plain(pat.host) || s[0..a] == Secure(pat.host)
    requires NoneIn(s, a, b, {'/'})
    requires s[b..b + 3] == Marker
    requires pat.tail.UpToMarker? ==> e == b + 3
    requires pat.tail.WithGroup? ==>
               b + 3 < e && NoneIn(s, b + 3, e, pat.tail.excluded) && (e == |s| || s[e] in pat.tail.excluded)
    ensures Leftmost(s, pat) == Some(Match(0, a, b, e))
  {
    var cand := Match(0, a, b, e);
    assert IsMatch(s, cand, pat);
    LeftmostSpec(s, pat);
    var r := Leftmost(s, pat).value;
    assert Precedes(r, cand);
  }

  /** A line laid out as scheme, domain, `/g/`, group and a remainder that the
      group class stops at, matches at index 0 with exactly that split. */
  lemma MatchOfShape(p: string, d: string, g: string, rest: string, pat: Pattern)
    requires WellFormed(pat)
    requires p == Plain(pat.host) || p == Secure(pat.host)
    requires d != [] && '/' !in d
    requires pat.tail.UpToMarker? ==> g == []
    requires pat.tail.WithGroup? ==>
               && g != []
               && (forall c :: c in g ==> c !in pat.tail.excluded)
               && (rest == [] || rest[0] in pat.tail.excluded)
    ensures Leftmost(p + d + Marker + g + rest, pat)
            == Some(Match(0, |p|, |p| + |d|, |p| + |d| + 3 + |g|))
  {
    var ex := if pat.tail.WithGroup? then pat.tail.excluded else {};
    LayoutFacts(p, d, g, rest, ex);
    LeftmostOfLayout(p + d + Marker + g + rest, |p|, |p| + |d|, |p| + |d| + 3 + |g|, pat);
  }

  /** Cutting a match out of its line leaves a string the pattern matches whole. */
  lemma ShiftMatch(s: string, m: Match, pat: Pattern)
    requires IsMatch(s, m, pat)
    ensures IsMatch(s[m.start..m.end],
                    Match(0, m.domainStart - m.start, m.domainEnd - m.start, m.end - m.start), pat)
  {
    var t := s[m.start..m.end];
    var n := Match(0, m.domainStart - m.start, m.domainEnd - m.start, m.end - m.start);
    assert t[0..n.domainStart] == s[m.start..m.domainStart];
    assert t[n.domainEnd..n.domainEnd + 3] == s[m.domainEnd..m.domainEnd + 3];
  }

  /** Searching the text of the leftmost-first match again finds all of it,
      with the same split. */
  lemma LeftmostOfMatchedText(s: string, pat: Pattern)
    requires WellFormed(pat)
    requires Leftmost(s, pat).Some?
    ensures var m := Leftmost(s, pat).value;
            Leftmost(s[m.start..m.end], pat)
            == Some(Match(0, m.domainStart - m.start, m.domainEnd - m.start, m.end - m.start))
  {
    var m := Leftmost(s, pat).value;
    LeftmostSpec(s, pat);
    var t := s[m.start..m.end];
    var n := Match(0, m.domainStart - m.start, m.domainEnd - m.start, m.end - m.start);
    ShiftMatch(s, m, pat);
    LeftmostSpec(t, pat);
    var r := Leftmost(t, pat).value;
    assert Precedes(r, n);
    assert r.start == 0 && r.domainStart == n.domainStart && r.domainEnd == n.domainEnd;
    assert n.end == |t| && r.end <= |t|;
    assert r == n;
  }

  /** A match that starts at index 0 fixes what the domain-only pattern with
      the same host finds there: the same domain split. */
  lemma DomainAtStart(s: string, m: Match, pat: Pattern)
    requires WellFormed(pat)
    requires IsMatch(s, m, pat) && m.start == 0
    ensures Leftmost(s, Pattern(pat.host, UpToMarker))
            == Some(Match(0, m.domainStart, m.domainEnd, m.domainEnd + 3))
  {
    var dom := Pattern(pat.host, UpToMarker);
    var cand := Match(0, m.domainStart, m.domainEnd, m.domainEnd + 3);
    assert IsMatch(s, cand, dom);
    LeftmostSpec(s, dom);
    var r := Leftmost(s, dom).value;
    assert Precedes(r, cand);
  }

  /** The domain-only pattern finds in the text of a match the same domain. */
  lemma DomainOfMatchedText(s: string, pat: Pattern)
    requires WellFormed(pat)
    requires Leftmost(s, pat).Some?
    ensures var m := Leftmost(s, pat).value;
            Leftmost(s[m.start..m.end], Pattern(pat.host, UpToMarker))
            == Some(Match(0, m.domainStart - m.start, m.domainEnd - m.start, m.domainEnd - m.start + 3))
  {
    var m := Leftmost(s, pat).value;
    LeftmostSpec(s, pat);
    var n := Match(0, m.domainStart - m.start, m.domainEnd - m.start, m.end - m.start);
    ShiftMatch(s, m, pat);
    DomainAtStart(s[m.start..m.end], n, pat);
  }

  /** Wherever the pattern occurs, the domain-only pattern with the same host
      occurs too. */
  lemma DomainPatternWeaker(s: string, pat: Pattern)
    requires WellFormed(pat)
    requires Leftmost(s, pat).Some?
    ensures Leftmost(s, Pattern(pat.host, UpToMarker)).Some?
  {
    var m := Leftmost(s, pat).value;
    LeftmostSpec(s, pat);
    assert IsMatch(s, m.(end := m.domainEnd + 3), Pattern(pat.host, UpToMarker));
    LeftmostSpec(s, Pattern(pat.host, UpToMarker));
  }

  /** The leftmost-first match is unique, and its group run is maximal: it
      stops at the end of `s` or at a character of the excluded class. */
  lemma LeftmostFirstUnique(s: string, m: Match, pat: Pattern)
    requires WellFormed(pat)
    requires IsLeftmostFirst(s, m, pat)
    ensures Leftmost(s, pat) == Some(m)
    ensures pat.tail.WithGroup? ==> m.end == |s| || s[m.end] in pat.tail.excluded
  {
    LeftmostSpec(s, pat);
    var r := Leftmost(s, pat).value;
    assert Precedes(r, m) && Precedes(m, r);
    if pat.tail.WithGroup? && m.end < |s| && s[m.end] !in pat.tail.excluded {
      var longer := m.(end := m.end + 1);
      assert IsMatch(s, longer, pat);
    }
  }
}
