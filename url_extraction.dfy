/** The workspace URL that `start` reads from the output of `chectl workspace:create`:
    the first match of the pattern `.*(?<url>https:\/\/.*).*` (flags g and m), executed once from index 0.
    The regex is modelled as the engine runs it (attempts at index 0, 1, 2, ...; a greedy
    leading `.*` that backtracks from the end of the line), and separately as what the
    lines of the output determine; ExtractUrlAgreesWithLines proves the two equal. */
module UrlExtraction {
  import opened Text

  const Https := "https://"

  /** Backtracking of a greedy `.*` over `s[lo..hi]` in front of `pat`: the largest `j`
      such that `pat` occurs at `j` inside the window, tried from the right. */
  function LastOccurrence(s: string, pat: string, lo: nat, hi: nat): (r: Option<nat>)
    requires lo <= hi <= |s|
    ensures r.Some? ==> lo <= r.value && r.value + |pat| <= hi && OccursAt(s, r.value, pat)
    ensures forall k :: (r.Some? ==> r.value < k) && lo <= k && k + |pat| <= hi ==> !OccursAt(s, k, pat)
    decreases hi
  {
    if hi < lo + |pat| then None
    else if OccursAt(s, hi - |pat|, pat) then Some(hi - |pat|)
    else LastOccurrence(s, pat, lo, hi - 1)
  }

  /** The `url` group of an attempt that starts at the beginning of `rest` (a line or the
      remainder of one): from the last `https://` of `rest` to its end. */
  function UrlIn(rest: string): (r: Option<string>)
    ensures r.Some? <==> exists j :: OccursAt(rest, j, Https)
    ensures r.Some? ==> |r.value| <= |rest| && r.value == rest[|rest| - |r.value|..]
    ensures r.Some? ==> OccursAt(r.value, 0, Https)
    ensures r.Some? ==> forall k :: 0 < k ==> !OccursAt(r.value, k, Https)
  {
    match LastOccurrence(rest, Https, 0, |rest|)
    case Some(j) =>
      var u := rest[j..];
      assert rest[j..|rest|] == u;
      forall k | 0 <= k ensures OccursAt(u, k, Https) <==> j + k + |Https| <= |rest| && OccursAt(rest, j + k, Https) {
        OccursInSlice(rest, j, |rest|, k, Https);
      }
      Some(u)
    case None => None
  }

  /** The URL as the lines of the output determine it: the first line that contains
      `https://`, from its last `https://` to the end of that line. */
  function FirstUrl(lines: seq<string>): Option<string> {
    if |lines| == 0 then None
    else if UrlIn(lines[0]).Some? then UrlIn(lines[0])
    else FirstUrl(lines[1..])
  }

  /** The URL the lines determine is missing exactly when no line holds `https://`;
      otherwise it comes from a line with one, and no earlier line has one. */
  lemma {:induction false} FirstUrlIsFirst(lines: seq<string>)
    ensures FirstUrl(lines).None? <==> forall i :: 0 <= i < |lines| ==> UrlIn(lines[i]).None?
    ensures FirstUrl(lines).Some? ==> exists i :: 0 <= i < |lines| && UrlIn(lines[i]) == FirstUrl(lines)
                                                 && forall k :: 0 <= k < i ==> UrlIn(lines[k]).None?
  {
    if |lines| > 0 && UrlIn(lines[0]).None? {
      var tail := lines[1..];
      FirstUrlIsFirst(tail);
      assert forall i :: 0 < i < |lines| ==> lines[i] == tail[i - 1];
      if FirstUrl(tail).Some? {
        var i :| 0 <= i < |tail| && UrlIn(tail[i]) == FirstUrl(tail)
                 && forall k :: 0 <= k < i ==> UrlIn(tail[k]).None?;
        assert UrlIn(lines[i + 1]) == FirstUrl(lines);
        assert forall k :: 0 <= k < i + 1 ==> UrlIn(lines[k]).None?;
      }
    }
  }

  /** One attempt of the pattern at index `q` of `s`: `.` never matches a line
      terminator, so the attempt sees exactly the rest of `q`'s line. */
  function UrlAttempt(s: string, q: nat): Option<string>
    requires q <= |s|
  {
    UrlIn(s[q..LineEnd(s, q)])
  }

  /** `exec` with `lastIndex` `q`: the first attempt at `q`, `q + 1`, ... that succeeds. */
  function UrlExec(s: string, q: nat): Option<string>
    decreases |s| + 1 - q
  {
    if q > |s| then None
    else if UrlAttempt(s, q).Some? then UrlAttempt(s, q)
    else UrlExec(s, q + 1)
  }

  /** `workspaceUrlExec.groups.url`, or None where `exec` returns null (the regex literal
      is fresh, so its `lastIndex` is 0). */
  function ExtractUrl(stdout: string): Option<string> {
    UrlExec(stdout, 0)
  }

  /** An attempt at `q` fails exactly when no `https://` starts in the rest of `q`'s line. */
  lemma UrlAttemptFails(s: string, q: nat)
    requires q <= |s|
    ensures UrlAttempt(s, q).None? <==> forall j :: q <= j && j + |Https| <= LineEnd(s, q) ==> !OccursAt(s, j, Https)
  {
    var e := LineEnd(s, q);
    forall k | 0 <= k ensures OccursAt(s[q..e], k, Https) <==> q + k + |Https| <= e && OccursAt(s, q + k, Https) {
      OccursInSlice(s, q, e, k, Https);
    }
    if UrlAttempt(s, q).Some? {
      var k :| OccursAt(s[q..e], k, Https);
      assert OccursAt(s, q + k, Https);
    } else {
      forall j | q <= j && j + |Https| <= e ensures !OccursAt(s, j, Https) {
        assert OccursAt(s[q..e], j - q, Https) <==> OccursAt(s, j, Https);
      }
    }
  }

  /** An occurrence of `https://` lies inside one line. */
  lemma HttpsWithinLine(s: string, j: nat)
    requires OccursAt(s, j, Https)
    ensures j + |Https| <= LineEnd(s, j)
  {
    forall i | j <= i < j + |Https| ensures !IsLineTerminator(s[i]) {
      assert s[i] == s[j..j + |Https|][i - j];
    }
  }

  /** `exec` from `q` returns null exactly when no `https://` starts at or after `q`. */
  lemma {:induction false} UrlExecFails(s: string, q: nat)
    ensures UrlExec(s, q).None? <==> forall j :: q <= j ==> !OccursAt(s, j, Https)
    decreases |s| + 1 - q
  {
    if q <= |s| {
      UrlAttemptFails(s, q);
      if UrlAttempt(s, q).None? {
        UrlExecFails(s, q + 1);
        if OccursAt(s, q, Https) {
          HttpsWithinLine(s, q);
          assert false;
        }
      }
    }
  }

  /** Attempts inside a line without `https://` all fail: `exec` moves to the next line. */
  lemma {:induction false} UrlExecSkipsLine(s: string, p: nat, q: nat)
    requires p <= |s| && p <= q <= LineEnd(s, p)
    requires UrlAttempt(s, p).None?
    ensures UrlExec(s, q) == UrlExec(s, LineEnd(s, p) + 1)
    decreases LineEnd(s, p) - q
  {
    var e := LineEnd(s, p);
    LineEndWithin(s, p, q);
    UrlAttemptFails(s, p);
    UrlAttemptFails(s, q);
    assert UrlAttempt(s, q).None?;
    if q < e {
      UrlExecSkipsLine(s, p, q + 1);
    }
  }

  /** From a line start, `exec` finds what the lines from there on determine. */
  lemma {:induction false} UrlExecMatchesLines(s: string, p: nat)
    requires p <= |s| && IsLineStart(s, p)
    ensures UrlExec(s, p) == FirstUrl(LinesFrom(s, p))
    decreases |s| - p
  {
    var e := LineEnd(s, p);
    var lines := LinesFrom(s, p);
    LinesFromFirst(s, p);
    if UrlAttempt(s, p).None? {
      UrlExecSkipsLine(s, p, p);
      assert UrlIn(lines[0]).None?;
      assert FirstUrl(lines) == FirstUrl(lines[1..]);
      if e < |s| {
        UrlExecMatchesLines(s, e + 1);
      }
    }
  }

  /** `start` fails to find a URL exactly when its output holds no `https://`; otherwise
      the URL is the one the lines of the output determine. */
  lemma ExtractUrlAgreesWithLines(stdout: string)
    ensures ExtractUrl(stdout) == FirstUrl(Lines(stdout))
    ensures ExtractUrl(stdout).None? <==> forall j :: !OccursAt(stdout, j, Https)
  {
    UrlExecMatchesLines(stdout, 0);
    UrlExecFails(stdout, 0);
  }

  /** A URL taken from a line is a suffix of it, and so holds no line terminator. */
  lemma UrlInLine(line: string, u: string)
    requires UrlIn(line) == Some(u) && NoLineTerminator(line)
    ensures NoLineTerminator(u)
  {
    var n := |line| - |u|;
    forall c | 0 <= c < |u| ensures !IsLineTerminator(u[c]) {
      assert u[c] == line[n + c];
    }
  }

  /** The URL the lines determine starts with `https://` at the last occurrence on the
      first line that has one, and runs to the end of that line. */
  lemma FirstUrlShape(lines: seq<string>, u: string)
    requires FirstUrl(lines) == Some(u)
    requires forall k :: 0 <= k < |lines| ==> NoLineTerminator(lines[k])
    ensures OccursAt(u, 0, Https) && NoLineTerminator(u)
    ensures forall k :: 0 < k ==> !OccursAt(u, k, Https)
    ensures exists i :: 0 <= i < |lines| && UrlIn(lines[i]) == Some(u)
                        && u == lines[i][|lines[i]| - |u|..]
                        && forall k :: 0 <= k < i ==> UrlIn(lines[k]).None?
  {
    FirstUrlIsFirst(lines);
    var i :| 0 <= i < |lines| && UrlIn(lines[i]) == Some(u) && forall k :: 0 <= k < i ==> UrlIn(lines[k]).None?;
    UrlInLine(lines[i], u);
  }

  /** The extracted URL has that shape with respect to the lines of the output. */
  lemma ExtractedUrlShape(stdout: string, u: string)
    requires ExtractUrl(stdout) == Some(u)
    ensures OccursAt(u, 0, Https) && NoLineTerminator(u)
    ensures forall k :: 0 < k ==> !OccursAt(u, k, Https)
    ensures exists i :: 0 <= i < |Lines(stdout)| && UrlIn(Lines(stdout)[i]) == Some(u)
                        && u == Lines(stdout)[i][|Lines(stdout)[i]| - |u|..]
                        && forall k :: 0 <= k < i ==> UrlIn(Lines(stdout)[k]).None?
  {
    var lines := Lines(stdout);
    UrlExecMatchesLines(stdout, 0);
    assert FirstUrl(lines) == Some(u);
    FirstUrlShape(lines, u);
  }

  /** A line that ends with a URL holding its only `https://` (at its start) yields it. */
  lemma UrlAtEndOfLine(prefix: string, url: string)
    requires OccursAt(url, 0, Https) && forall k :: 0 < k ==> !OccursAt(url, k, Https)
    ensures UrlIn(prefix + url) == Some(url)
  {
    var line := prefix + url;
    var n := |prefix|;
    assert line[n..|line|] == url;
    forall k | 0 <= k ensures OccursAt(url, k, Https) <==> n + k + |Https| <= |line| && OccursAt(line, n + k, Https) {
      OccursInSlice(line, n, |line|, k, Https);
    }
    var r := LastOccurrence(line, Https, 0, |line|);
    assert r.Some? && r.value >= n;
    var k := r.value - n;
    assert OccursAt(line, n + k, Https);
    assert OccursAt(url, k, Https);
  }

  /** A one-line output ending with a URL that holds its only `https://` yields that URL. */
  lemma UrlOfOneLine(prefix: string, url: string)
    requires NoLineTerminator(prefix + url)
    requires OccursAt(url, 0, Https) && forall k :: 0 < k ==> !OccursAt(url, k, Https)
    ensures ExtractUrl(prefix + url + "\n") == Some(url)
  {
    LinesOfOne(prefix + url);
    ExtractUrlAgreesWithLines(prefix + url + "\n");
    UrlAtEndOfLine(prefix, url);
    assert FirstUrl([""]) == None;
  }

  /** The sample URL starts with its only `https://`. */
  lemma SampleUrlShape()
    ensures OccursAt("https://che.example.com/ws/123", 0, Https)
    ensures forall k :: 0 < k ==> !OccursAt("https://che.example.com/ws/123", k, Https)
  {
    var url := "https://che.example.com/ws/123";
    assert url[0..8] == Https;
    forall k | 0 < k < |url| - 1 ensures url[k] != 'h' || url[k + 1] != 't' { }
    forall k | 0 < k && k + |Https| <= |url| ensures !OccursAt(url, k, Https) {
      assert url[k..k + |Https|][0] == url[k] && url[k..k + |Https|][1] == url[k + 1];
    }
  }

  /** The URL `workspace:create` prints is found. */
  lemma WorkspaceStartedUrl()
    ensures ExtractUrl("Workspace started at " + "https://che.example.com/ws/123" + "\n") == Some("https://che.example.com/ws/123")
  {
    var prefix, url := "Workspace started at ", "https://che.example.com/ws/123";
    assert NoLineTerminator(prefix) && NoLineTerminator(url);
    var line := prefix + url;
    assert NoLineTerminator(line) by {
      assert forall i :: 0 <= i < |line| ==> line[i] == if i < |prefix| then prefix[i] else url[i - |prefix|];
    }
    SampleUrlShape();
    UrlOfOneLine(prefix, url);
  }
}
