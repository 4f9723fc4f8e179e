/** The domain extractor: prints the custom domain of every line that holds a
    Workspace group URL, each distinct domain once, in order of first
    appearance. */
module FilterDomains {
  import opened Wrappers
  import opened Text
  import opened GroupPattern
  import opened Streams
  import TrimUrls

  /** `matches[1]` of `FindStringSubmatch` on a line: the domain captured by
      the leftmost match, when there is one. */
  function DomainOf(line: string): Option<string> {
    match Leftmost(line, DomainPattern)
    case None => None
    case Some(m) => Some(line[m.domainStart..m.domainEnd])
  }

  function DomainKeys(lines: seq<string>): seq<string> {
    Collect(lines, DomainOf)
  }

  lemma DomainKeysStep(lines: seq<string>, n: nat)
    requires n < |lines|
    ensures DomainKeys(lines[..n + 1]) == DomainKeys(lines[..n]) + Listed(DomainOf(lines[n]))
  {
    assert lines[..n + 1] == lines[..n] + [lines[n]];
    CollectSnoc(lines[..n], lines[n], DomainOf);
  }

  /** What the loop prints: each extracted domain once, first occurrence
      first, and the domain of every matching line. */
  method FilterGroupDomains(lines: seq<string>) returns (out: seq<string>)
    ensures out == FirstSeen(DomainKeys(lines))
    ensures Distinct(out)
    ensures forall x :: x in out <==> exists k :: 0 <= k < |lines| && DomainOf(lines[k]) == Some(x)
  {
    var seen: map<string, bool> := map[];
    out := [];
    ghost var keys: seq<string> := [];
    var n := 0;
    while n < |lines|
      invariant n <= |lines|
      invariant keys == DomainKeys(lines[..n])
      invariant out == FirstSeen(keys)
      invariant SeenMatches(seen, out)
    {
      var url := lines[n];
      var matches := DomainOf(url);
      DomainKeysStep(lines, n);
      ScanStep(keys, matches, seen);
      if matches.Some? {
        var domain := matches.value;
        if !Seen(seen, domain) {
          seen := seen[domain := true];
          out := out + [domain];
        }
      }
      keys := keys + Listed(matches);
      n := n + 1;
    }
    assert lines[..n] == lines;
    FirstSeenSpec(keys);
    CollectSpec(lines, DomainOf);
  }

  /** A line yields a domain exactly when the pattern occurs in it; the domain
      is the capture of the leftmost match: non-empty, free of `/`, and
      followed by `/g/`. */
  lemma DomainOfSpec(line: string)
    ensures DomainOf(line).None? <==> forall m :: !IsMatch(line, m, DomainPattern)
    ensures DomainOf(line).Some? ==>
              && DomainOf(line).value != []
              && '/' !in DomainOf(line).value
              && forall m :: IsLeftmostFirst(line, m, DomainPattern) ==>
                               && DomainOf(line).value == line[m.domainStart..m.domainEnd]
                               && line[m.domainEnd..m.domainEnd + 3] == Marker
  {
    PatternsWellFormed();
    LeftmostSpec(line, DomainPattern);
    if DomainOf(line).Some? {
      var r := Leftmost(line, DomainPattern).value;
      var d := line[r.domainStart..r.domainEnd];
      forall c | c in d ensures c != '/' {
        var k :| 0 <= k < |d| && d[k] == c;
        assert d[k] == line[r.domainStart + k];
      }
      forall m | IsLeftmostFirst(line, m, DomainPattern)
        ensures line[m.domainStart..m.domainEnd] == d
      {
        assert Precedes(r, m) && Precedes(m, r);
      }
    }
  }

  /** A URL laid out as scheme, domain and `/g/` yields its domain, whatever
      follows, including nothing: the extractor does not need a group name. */
  lemma DomainOfShape(p: string, d: string, rest: string)
    requires p == Plain(Host) || p == Secure(Host)
    requires d != [] && '/' !in d
    ensures DomainOf(p + d + Marker + rest) == Some(d)
  {
    PatternsWellFormed();
    MatchOfShape(p, d, [], rest, DomainPattern);
    var s := p + d + Marker + [] + rest;
    assert p + d + Marker + rest == s;
    assert s[|p|..|p| + |d|] == d;
  }

  /** In a line of scheme, domain and `/g/`, `//` occurs only in the scheme. */
  lemma DoubleSlashInScheme(p: string, d: string, k: nat)
    requires p == Plain(Host) || p == Secure(Host)
    requires d != [] && '/' !in d
    requires k + 1 < |p + d + Marker|
    ensures (p + d + Marker)[k] == '/' && (p + d + Marker)[k + 1] == '/' ==> k + 22 == |p|
  {
    var s := p + d + Marker;
    var b := |p| + |d|;
    if k < |p| - 1 {
      assert s[k] == p[k] && s[k + 1] == p[k + 1];
    } else if k == |p| - 1 {
      assert s[k + 1] == d[0];
    } else if k < b {
      assert s[k] == d[k - |p|];
    } else {
      assert s[k + 1] == Marker[k + 1 - b];
    }
  }

  /** Both schemes start with `ht`, are 27 or 28 characters long and have
      their `//` 22 characters before the end. */
  lemma SchemeChars(lit: string)
    requires lit == Plain(Host) || lit == Secure(Host)
    ensures |lit| == 27 || |lit| == 28
    ensures lit[0] == 'h' && lit[1] == 't'
    ensures lit[|lit| - 22] == '/' && lit[|lit| - 21] == '/'
  {
    HostSchemes();
  }

  /** In a line of scheme, domain and `/g/` a scheme occurs only at index
      0: the scheme's `//` occurs nowhere else. */
  lemma SchemeOnlyAtStart(p: string, d: string, i: nat, j: nat)
    requires p == Plain(Host) || p == Secure(Host)
    requires d != [] && '/' !in d
    requires i <= j <= |p + d + Marker|
    requires (p + d + Marker)[i..j] == Plain(Host) || (p + d + Marker)[i..j] == Secure(Host)
    ensures i == 0
  {
    var s := p + d + Marker;
    var lit := s[i..j];
    SchemeChars(lit);
    SchemeChars(p);
    var k := i + |lit| - 22;
    assert s[k] == lit[|lit| - 22] && s[k + 1] == lit[|lit| - 21];
    DoubleSlashInScheme(p, d, k);
    assert s[i] == lit[0] && s[1] == p[1];
    SameSchemeStart(s, i, |lit|, |p|);
  }

  /** A scheme of 27 or 28 characters whose `//` sits where the one at index
      0 does starts at index 0: from index 1 it would have to begin `t`. */
  lemma SameSchemeStart(s: string, i: nat, len: nat, len0: nat)
    requires len == 27 || len == 28
    requires len0 == 27 || len0 == 28
    requires i + len == len0 && i < |s| && 1 < |s|
    requires s[i] == 'h' && s[1] == 't'
    ensures i == 0
  {
  }

  /** A line of scheme, domain and `/g/` has a single domain-pattern match,
      the one from index 0 that ends with the line. */
  lemma OnlyDomainMatch(p: string, d: string, m: Match)
    requires p == Plain(Host) || p == Secure(Host)
    requires d != [] && '/' !in d
    requires IsMatch(p + d + Marker, m, DomainPattern)
    ensures m.start == 0 && m.domainStart == |p| && m.domainEnd == |p| + |d|
  {
    PatternsWellFormed();
    SchemeOnlyAtStart(p, d, m.start, m.domainStart);
    var s := p + d + Marker;
    var b := |p| + |d|;
    LayoutFacts(p, d, [], [], {});
    assert p + d + Marker + [] + [] == s;
    SchemeEndComplete(s, 0, m.domainStart, Host);
    SchemeEndComplete(s, 0, |p|, Host);
    assert s[m.domainEnd] == s[m.domainEnd..m.domainEnd + 3][0] == '/';
    assert s[b] == s[b..b + 3][0] == '/';
    RunEndUnique(s, |p|, {'/'}, m.domainEnd);
    RunEndUnique(s, |p|, {'/'}, b);
  }

  /** The trimmer needs a group name after `/g/`, so it drops a line that
      stops there, although the extractor finds its domain (`DomainOfShape`). */
  lemma TrimRejectsEmptyGroup(p: string, d: string)
    requires p == Plain(Host) || p == Secure(Host)
    requires d != [] && '/' !in d
    ensures TrimUrls.FindString(p + d + Marker) == ""
    ensures DomainOf(p + d + Marker) == Some(d)
  {
    var s := p + d + Marker;
    assert s + [] == s;
    DomainOfShape(p, d, []);
    forall m ensures !IsMatch(s, m, TrimPattern) {
      var m' := Match(m.start, m.domainStart, m.domainEnd, m.domainEnd + 3);
      if IsMatch(s, m', DomainPattern) {
        OnlyDomainMatch(p, d, m');
      }
    }
    TrimUrls.FindStringEmpty(s);
  }

  /** The extractor applied to what the trimmer keeps finds the domain of
      the trimmer's match in the original line.  (Lines the trimmer drops can
      still have a domain: `TrimRejectsEmptyGroup`.) */
  lemma DomainOfTrimmed(line: string)
    requires TrimUrls.FindString(line) != ""
    ensures var m := Leftmost(line, TrimPattern).value;
            DomainOf(TrimUrls.FindString(line)) == Some(line[m.domainStart..m.domainEnd])
  {
    PatternsWellFormed();
    var m := Leftmost(line, TrimPattern).value;
    DomainOfMatchedText(line, TrimPattern);
    SliceOfSlice(line, m.start, m.end, m.domainStart - m.start, m.domainEnd - m.start);
  }

  /** Every line the trimmer keeps also yields a domain. */
  lemma TrimmedLinesHaveDomains(line: string)
    requires TrimUrls.FindString(line) != ""
    ensures DomainOf(line).Some?
  {
    PatternsWellFormed();
    DomainPatternWeaker(line, TrimPattern);
  }

  /** Two URLs of distinct domains: both domains, in input order. */
  lemma DomainsOfTwoLines(line0: string, line1: string, d0: string, d1: string)
    requires DomainOf(line0) == Some(d0) && DomainOf(line1) == Some(d1) && d0 != d1
    ensures FirstSeen(DomainKeys([line0, line1])) == [d0, d1]
  {
    CollectSnoc([], line0, DomainOf);
    assert [] + [line0] == [line0];
    CollectSnoc([line0], line1, DomainOf);
    assert [line0] + [line1] == [line0, line1];
    assert DomainKeys([line0, line1]) == [d0, d1];
    FirstSeenSnoc([], d0);
    FirstSeenSnoc([d0], d1);
  }

  /** The example of the tool's documentation. */
  lemma DomainDocumentationSample(line0: string, line1: string)
    requires line0 == "https://groups.google.com/a/" + "list.nist.gov" + "/g/" + "internet-time-service"
    requires line1 == "https://groups.google.com/a/" + "example.com" + "/g/" + "announcements"
    ensures FirstSeen(DomainKeys([line0, line1])) == ["list.nist.gov", "example.com"]
  {
    HostSchemes();
    assert "list.nist.gov"[0] != "example.com"[0];
    DomainOfShape(Secure(Host), "list.nist.gov", "internet-time-service");
    DomainOfShape(Secure(Host), "example.com", "announcements");
    DomainsOfTwoLines(line0, line1, "list.nist.gov", "example.com");
  }
}
