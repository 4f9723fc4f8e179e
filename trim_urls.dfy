/** The URL normaliser and deduplicator: keeps the lines that contain a group
    URL and emits each distinct key once, the key being the whole line (full
    mode) or the matched group-root URL (trim mode). */
module TrimUrls {
  import opened Wrappers
  import opened Text
  import opened GroupPattern
  import opened Streams

  /** Go's `pattern.FindString(line)`: the text of the leftmost match, or "". */
  function FindString(line: string): string {
    match Leftmost(line, TrimPattern)
    case None => ""
    case Some(m) => line[m.start..m.end]
  }

  /** Go's `pattern.MatchString(line)`. */
  predicate MatchString(line: string) {
    Leftmost(line, TrimPattern).Some?
  }

  /** The value the loop deduplicates and prints for `line`, if any. */
  function Key(line: string, trim: bool): Option<string> {
    if trim then
      var found := FindString(line);
      if found != "" then Some(found) else None
    else if MatchString(line) then Some(line)
    else None
  }

  function Keys(lines: seq<string>, trim: bool): seq<string> {
    Collect(lines, (line: string) => Key(line, trim))
  }

  /** One scanner step: the key stream grows by the key of the next line. */
  lemma KeysStep(lines: seq<string>, n: nat, trim: bool)
    requires n < |lines|
    ensures Keys(lines[..n + 1], trim) == Keys(lines[..n], trim) + Listed(Key(lines[n], trim))
  {
    assert lines[..n + 1] == lines[..n] + [lines[n]];
    CollectSnoc(lines[..n], lines[n], (line: string) => Key(line, trim));
  }

  /** What the loop prints: each key once, first occurrence first; and every
      key of every line is printed. */
  method TrimGroupUrls(lines: seq<string>, trim: bool) returns (out: seq<string>)
    ensures out == FirstSeen(Keys(lines, trim))
    ensures Distinct(out)
    ensures forall x :: x in out <==> exists k :: 0 <= k < |lines| && Key(lines[k], trim) == Some(x)
  {
    var seen: map<string, bool> := map[];
    out := [];
    ghost var keys: seq<string> := [];
    var n := 0;
    while n < |lines|
      invariant n <= |lines|
      invariant keys == Keys(lines[..n], trim)
      invariant out == FirstSeen(keys)
      invariant SeenMatches(seen, out)
    {
      var url := lines[n];
      ghost var key := Key(url, trim);
      KeysStep(lines, n, trim);
      ScanStep(keys, key, seen);
      if trim {
        var found := FindString(url);
        if found != "" && !Seen(seen, found) {
          seen := seen[found := true];
          out := out + [found];
        }
      } else {
        if MatchString(url) && !Seen(seen, url) {
          seen := seen[url := true];
          out := out + [url];
        }
      }
      keys := keys + Listed(key);
      n := n + 1;
    }
    assert lines[..n] == lines;
    FirstSeenSpec(keys);
    CollectSpec(lines, (line: string) => Key(line, trim));
  }

  /** `FindString` is "" exactly when the pattern occurs nowhere in the line. */
  lemma FindStringEmpty(line: string)
    ensures FindString(line) == "" <==> forall m :: !IsMatch(line, m, TrimPattern)
  {
    PatternsWellFormed();
    LeftmostSpec(line, TrimPattern);
  }

  /** Otherwise it is the text of the leftmost-first match, and that match
      ends at the end of the line or just before a `/`: a query or fragment
      without a `/` is kept. */
  lemma FindStringMatch(line: string, m: Match)
    requires IsLeftmostFirst(line, m, TrimPattern)
    ensures FindString(line) == line[m.start..m.end]
    ensures m.end == |line| || line[m.end] == '/'
  {
    PatternsWellFormed();
    LeftmostFirstUnique(line, m, TrimPattern);
  }

  /** In either mode a line without a group URL yields nothing; in full mode
      the key is the unchanged line. */
  lemma KeySpec(line: string, trim: bool)
    ensures Key(line, trim).None? <==> forall m :: !IsMatch(line, m, TrimPattern)
    ensures !trim && Key(line, trim).Some? ==> Key(line, trim).value == line
    ensures trim && Key(line, trim).Some? ==>
              forall m :: IsLeftmostFirst(line, m, TrimPattern) ==> Key(line, trim).value == line[m.start..m.end]
  {
    PatternsWellFormed();
    LeftmostSpec(line, TrimPattern);
    FindStringEmpty(line);
    forall m | IsLeftmostFirst(line, m, TrimPattern) ensures trim && Key(line, trim).Some? ==> Key(line, trim).value == line[m.start..m.end] {
      FindStringMatch(line, m);
    }
  }

  /** Trimming an already trimmed URL gives it back. */
  lemma TrimIdempotent(line: string)
    requires FindString(line) != ""
    ensures FindString(FindString(line)) == FindString(line)
  {
    PatternsWellFormed();
    LeftmostOfMatchedText(line, TrimPattern);
    var m := Leftmost(line, TrimPattern).value;
    var t := line[m.start..m.end];
    assert t[0..|t|] == t;
  }

  /** The group-root prefix of a URL is what trim mode keeps, whatever the
      scheme and whatever follows a `/` after the group. */
  lemma TrimOfShape(p: string, d: string, g: string, rest: string)
    requires p == Plain(Host) || p == Secure(Host)
    requires d != [] && '/' !in d
    requires g != [] && '/' !in g
    requires rest == [] || rest[0] == '/'
    ensures FindString(p + d + Marker + g + rest) == p + d + Marker + g
  {
    PatternsWellFormed();
    MatchOfShape(p, d, g, rest, TrimPattern);
    var s := p + d + Marker + g + rest;
    assert s[0..|p| + |d| + 3 + |g|] == p + d + Marker + g;
  }

  /** Keys of three lines whose trimmed forms are known. */
  lemma TrimThreeLines(line0: string, line1: string, line2: string)
    requires FindString(line0) == line2 && FindString(line1) == line1 && FindString(line2) == line2
    requires line1 != "" && line2 != "" && line1 != line2
    ensures FirstSeen(Keys([line0, line1, line2], true)) == [line2, line1]
  {
    assert Key(line0, true) == Some(line2) && Key(line2, true) == Some(line2);
    assert Key(line1, true) == Some(line1);
    CollectThree(line0, line1, line2, (line: string) => Key(line, true));
    assert Keys([line0, line1, line2], true) == [line2, line1, line2];
    FirstSeenRepeat(line2, line1);
  }

  /** The documentation's three-line sample in general form: a page below a
      group, the group root with a `/`-free suffix, and the root itself. */
  lemma TrimSampleShape(d: string, g: string, sub: string, q: string)
    requires d != [] && '/' !in d
    requires g != [] && '/' !in g
    requires sub != [] && sub[0] == '/'
    requires q != [] && '/' !in q
    ensures var root := Secure(Host) + d + Marker + g;
            FirstSeen(Keys([root + sub, root + q, root], true)) == [root, root + q]
  {
    var root := Secure(Host) + d + Marker + g;
    TrimOfShape(Secure(Host), d, g, sub);
    TrimOfShape(Secure(Host), d, g + q, []);
    TrimOfShape(Secure(Host), d, g, []);
    assert Secure(Host) + d + Marker + (g + q) + [] == root + q;
    assert root + [] == root;
    TrimThreeLines(root + sub, root + q, root);
  }

  /** The three sample lines of the tool's documentation: trim mode prints
      the group root and, because `?` is not `/`, the `?hl=en` line as well. */
  lemma TrimDocumentationSample(root: string, sub: string, query: string)
    requires root == "https://groups.google.com/a/" + "example.com" + "/g/" + "team"
    requires sub == "/c/abc123" && query == "?hl=en"
    ensures FirstSeen(Keys([root + sub, root + query, root], true)) == [root, root + query]
  {
    HostSchemes();
    TrimSampleShape("example.com", "team", sub, query);
  }
}
