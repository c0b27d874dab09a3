/** The workspace id that `workspaceStop` reads from the output of `chectl workspace:list`:
    the pattern `^.*(?<workspaceId>workspace.*?)\s` with flags g and m, executed again and
    again from its `lastIndex` while it matches, each match overwriting the id kept so far.
    WorkspaceId states the result as the lines of the output determine it (the last line
    that matches); ScanWorkspaceId runs the `while` loop over the engine's `exec` and is
    proved to compute it. */
module WorkspaceIdScan {
  import opened Text

  const Workspace := "workspace"

  /** A captured id: it begins with `workspace` and holds no white space. */
  predicate IsWorkspaceToken(id: string) {
    OccursAt(id, 0, Workspace) && NoSpace(id)
  }

  /** `id` ends right before the white space character `s[w]`. */
  predicate EndsBeforeSpace(s: string, id: string, w: int) {
    |id| <= w < |s| && IsSpace(s[w]) && s[w - |id|..w] == id
  }

  /** The first white space character of `t` at or after `i`. */
  function FirstSpace(t: string, i: nat): (r: Option<nat>)
    requires i <= |t|
    ensures r.Some? ==> i <= r.value < |t| && IsSpace(t[r.value])
    ensures forall k :: i <= k < |t| && (r.Some? ==> k < r.value) ==> !IsSpace(t[k])
    decreases |t| - i
  {
    if i == |t| then None
    else if IsSpace(t[i]) then Some(i)
    else FirstSpace(t, i + 1)
  }

  /** Where the lazy `.*?` stops, followed by `\s`, when `workspace` starts at `j` of
      `line`: at the first white space after `workspace`, or at the line's terminator
      (itself matched by `\s`), which `.*?` cannot pass. The index `|line|` stands for the
      terminator; an unterminated line without white space there gives no match. */
  function CaptureEnd(line: string, terminated: bool, j: nat): (r: Option<nat>)
    requires j + |Workspace| <= |line|
    ensures r.Some? ==> j + |Workspace| <= r.value <= |line|
    ensures r.Some? && r.value < |line| ==> IsSpace(line[r.value])
    ensures r.Some? && r.value == |line| ==> terminated
    ensures r.None? ==> !terminated
    ensures forall k :: j + |Workspace| <= k < |line| && (r.Some? ==> k < r.value) ==> !IsSpace(line[k])
  {
    match FirstSpace(line, j + |Workspace|)
    case Some(w) => Some(w)
    case None => if terminated then Some(|line|) else None
  }

  /** The group can start at `j`: `workspace` occurs there and `.*?\s` completes. */
  predicate Candidate(line: string, terminated: bool, j: int) {
    OccursAt(line, j, Workspace) && CaptureEnd(line, terminated, j).Some?
  }

  /** Backtracking of the greedy `^.*`: the largest candidate start, tried from `hi` down. */
  function LastCandidate(line: string, terminated: bool, hi: nat): (r: Option<nat>)
    requires hi <= |line|
    ensures r.Some? ==> r.value <= hi && Candidate(line, terminated, r.value)
    ensures forall k :: k <= hi && (r.Some? ==> r.value < k) ==> !Candidate(line, terminated, k)
    decreases hi
  {
    if Candidate(line, terminated, hi) then Some(hi)
    else if hi == 0 then None
    else LastCandidate(line, terminated, hi - 1)
  }

  /** A match on one line: the group is `line[start..stop]`, and `\s` matched `line[stop]`,
      or the line's terminator when `stop == |line|`. */
  datatype IdMatch = IdMatch(start: nat, stop: nat)

  function LineMatch(line: string, terminated: bool): (r: Option<IdMatch>)
    ensures r.Some? ==> r.value.start + |Workspace| <= r.value.stop <= |line|
    ensures r.Some? ==> OccursAt(line, r.value.start, Workspace)
    ensures r.Some? ==> forall k :: r.value.start + |Workspace| <= k < r.value.stop ==> !IsSpace(line[k])
    ensures r.Some? && r.value.stop == |line| ==> terminated
  {
    match LastCandidate(line, terminated, |line|)
    case None => None
    case Some(j) => Some(IdMatch(j, CaptureEnd(line, terminated, j).value))
  }

  /** `workspace` followed by no white space up to `stop` is a captured id. */
  lemma WorkspaceTokenAt(line: string, start: nat, stop: nat)
    requires OccursAt(line, start, Workspace) && start + |Workspace| <= stop <= |line|
    requires forall k :: start + |Workspace| <= k < stop ==> !IsSpace(line[k])
    ensures IsWorkspaceToken(line[start..stop])
  {
    var id := line[start..stop];
    assert id[..|Workspace|] == line[start..start + |Workspace|];
    forall k | 0 <= k < |id| ensures !IsSpace(id[k]) {
      if k < |Workspace| {
        assert id[k] == Workspace[k];
      } else {
        assert id[k] == line[start + k];
      }
    }
  }

  /** The id one line yields, `terminated` telling whether a line terminator follows it. */
  function LineId(line: string, terminated: bool): (r: Option<string>)
    ensures r.None? ==> forall j :: !Candidate(line, terminated, j)
    ensures r.Some? ==> IsWorkspaceToken(r.value)
  {
    match LineMatch(line, terminated)
    case None => None
    case Some(m) =>
      WorkspaceTokenAt(line, m.start, m.stop);
      Some(line[m.start..m.stop])
  }

  /** A line yields an id exactly when it has a candidate start. The id is the capture at
      the last candidate, where the greedy `^.*` stops backtracking: from that `workspace`
      to the first white space after it, or to the line's terminator. */
  lemma LineIdIsLastCandidate(line: string, terminated: bool)
    ensures LineId(line, terminated).Some? <==> exists j :: Candidate(line, terminated, j)
    ensures LineId(line, terminated).Some? ==>
      exists j :: Candidate(line, terminated, j) && (forall k :: j < k ==> !Candidate(line, terminated, k))
                  && LineId(line, terminated).value == line[j..CaptureEnd(line, terminated, j).value]
  {
    match LastCandidate(line, terminated, |line|)
    case None =>
      forall j ensures !Candidate(line, terminated, j) {
        if j > |line| { }
      }
    case Some(j) =>
      assert Candidate(line, terminated, j);
      forall k | j < k ensures !Candidate(line, terminated, k) {
        if k > |line| { }
      }
  }

  /** The value kept by a loop that overwrites: the later one when there is one. */
  function Later<T>(earlier: Option<T>, later: Option<T>): Option<T> {
    if later.Some? then later else earlier
  }

  /** The id as the lines of the output determine it: the one from the last line that
      yields one. Every line but the last is followed by a line terminator. */
  function LastLineId(lines: seq<string>): Option<string> {
    if |lines| == 0 then None
    else Later(LineId(lines[0], |lines| > 1), LastLineId(lines[1..]))
  }

  /** Last match wins: the id comes from a line that yields one, and no later line
      does; there is none exactly when no line yields one. */
  lemma {:induction false} LastLineIdIsLast(lines: seq<string>)
    ensures LastLineId(lines).None? <==> forall i :: 0 <= i < |lines| ==> LineId(lines[i], i + 1 < |lines|).None?
    ensures LastLineId(lines).Some? ==>
      exists i :: 0 <= i < |lines| && LineId(lines[i], i + 1 < |lines|) == LastLineId(lines)
                  && forall k :: i < k < |lines| ==> LineId(lines[k], k + 1 < |lines|).None?
  {
    if |lines| > 0 {
      var rest := lines[1..];
      LastLineIdIsLast(rest);
      forall k | 0 < k < |lines| ensures LineId(lines[k], k + 1 < |lines|) == LineId(rest[k - 1], k < |rest|) {
        assert lines[k] == rest[k - 1];
      }
      if LastLineId(rest).Some? {
        var i :| 0 <= i < |rest| && LineId(rest[i], i + 1 < |rest|) == LastLineId(rest)
                 && forall k :: i < k < |rest| ==> LineId(rest[k], k + 1 < |rest|).None?;
        assert LineId(lines[i + 1], i + 2 < |lines|) == LastLineId(lines);
      }
    }
  }

  /** The workspace id `workspaceStop` extracts from the output of `workspace:list`. */
  function WorkspaceId(stdout: string): Option<string> {
    LastLineId(Lines(stdout))
  }

  /** What one successful `exec` yields: the group and the new `lastIndex`, the end of
      the match. */
  datatype ExecResult = ExecResult(workspaceId: string, lastIndex: nat)

  /** One attempt of the pattern at index `q` of `s`: `^` holds only at a line start, and
      from there the match cannot leave the line except through its terminator. */
  function IdAttempt(s: string, q: nat): (r: Option<ExecResult>)
    requires q <= |s|
    ensures r.Some? ==> IsLineStart(s, q) && q < r.value.lastIndex <= LineEnd(s, q) + 1
    ensures r.Some? ==> r.value.lastIndex <= |s| && EndsBeforeSpace(s, r.value.workspaceId, r.value.lastIndex - 1)
  {
    if !IsLineStart(s, q) then None
    else
      var e := LineEnd(s, q);
      var line := s[q..e];
      match LineMatch(line, e < |s|)
      case None => None
      case Some(m) =>
        var id := s[q + m.start..q + m.stop];
        assert IsSpace(s[q + m.stop]) by {
          if m.stop < |line| { assert s[q + m.stop] == line[m.stop]; }
        }
        Some(ExecResult(id, q + m.stop + 1))
  }

  /** `regexp.exec(stdout)` with `lastIndex` `q`: the first attempt at `q`, `q + 1`, ...
      that succeeds. */
  function IdExec(s: string, q: nat): (r: Option<ExecResult>)
    ensures r.Some? ==> q < r.value.lastIndex <= |s|
    ensures r.Some? ==> EndsBeforeSpace(s, r.value.workspaceId, r.value.lastIndex - 1)
    decreases |s| + 1 - q
  {
    if q > |s| then None
    else if IdAttempt(s, q).Some? then IdAttempt(s, q)
    else IdExec(s, q + 1)
  }

  /** The group of an attempt, if it matched. */
  function CaptureOf(r: Option<ExecResult>): Option<string> {
    if r.Some? then Some(r.value.workspaceId) else None
  }

  /** The id of the last match among the attempts at `q` and after. */
  ghost function RemainingId(s: string, q: nat): Option<string>
    decreases |s| + 1 - q
  {
    if q > |s| then None
    else Later(CaptureOf(IdAttempt(s, q)), RemainingId(s, q + 1))
  }

  /** No attempt between two indices can match when none of them is a line start. */
  lemma {:induction false} RemainingSkips(s: string, x: nat, y: nat)
    requires x <= y <= |s| + 1
    requires forall i :: x <= i < y ==> !IsLineStart(s, i)
    ensures RemainingId(s, x) == RemainingId(s, y)
    decreases y - x
  {
    if x < y {
      RemainingSkips(s, x + 1, y);
    }
  }

  /** Inside a line no index but its first is a line start. */
  lemma NoLineStartWithin(s: string, p: nat)
    requires p <= |s|
    ensures forall i :: p < i <= LineEnd(s, p) ==> !IsLineStart(s, i)
  {
    var e := LineEnd(s, p);
    forall i | p < i <= e ensures !IsLineStart(s, i) {
      assert !IsLineTerminator(s[i - 1]);
    }
  }

  /** One `exec` from `q` finds the first match of the remaining attempts, and leaves
      `lastIndex` where the rest of them begin. */
  lemma {:induction false} IdExecStep(s: string, q: nat)
    ensures IdExec(s, q).None? <==> RemainingId(s, q).None?
    ensures IdExec(s, q).Some? ==>
      RemainingId(s, q) == Later(Some(IdExec(s, q).value.workspaceId), RemainingId(s, IdExec(s, q).value.lastIndex))
    decreases |s| + 1 - q
  {
    if q <= |s| {
      var a := IdAttempt(s, q);
      if a.Some? {
        NoLineStartWithin(s, q);
        RemainingSkips(s, q + 1, a.value.lastIndex);
      } else {
        IdExecStep(s, q + 1);
      }
    }
  }

  /** At a line start, the attempt yields what the line, taken alone, yields. */
  lemma AttemptAtLineStart(s: string, p: nat)
    requires p <= |s| && IsLineStart(s, p)
    ensures CaptureOf(IdAttempt(s, p)) == LineId(s[p..LineEnd(s, p)], LineEnd(s, p) < |s|)
  {
    var e := LineEnd(s, p);
    var line := s[p..e];
    var m := LineMatch(line, e < |s|);
    if m.Some? {
      var a, b := s[p + m.value.start..p + m.value.stop], line[m.value.start..m.value.stop];
      assert |a| == |b| && forall k :: 0 <= k < |a| ==> a[k] == b[k];
      assert a == b;
      assert IdAttempt(s, p).value.workspaceId == a;
    }
  }

  /** From a line start, the remaining attempts yield what the lines from there on do. */
  lemma {:induction false} RemainingMatchesLines(s: string, p: nat)
    requires p <= |s| && IsLineStart(s, p)
    ensures RemainingId(s, p) == LastLineId(LinesFrom(s, p))
    decreases |s| - p
  {
    var e := LineEnd(s, p);
    LinesFromFirst(s, p);
    AttemptAtLineStart(s, p);
    NoLineStartWithin(s, p);
    RemainingSkips(s, p + 1, e + 1);
    if e < |s| {
      RemainingMatchesLines(s, e + 1);
    }
  }

  /** The `while` loop of `workspaceStop`: `exec` until it returns null, keeping the group
      of each match. The result is the id of the last matching line. */
  method ScanWorkspaceId(stdout: string) returns (workspaceId: Option<string>)
    ensures workspaceId == WorkspaceId(stdout)
    ensures workspaceId.Some? ==> exists w :: EndsBeforeSpace(stdout, workspaceId.value, w)
  {
    RemainingMatchesLines(stdout, 0);
    workspaceId := None;
    var lastIndex := 0;
    var m := IdExec(stdout, lastIndex);
    while m.Some?
      invariant lastIndex <= |stdout|
      invariant m == IdExec(stdout, lastIndex)
      invariant WorkspaceId(stdout) == Later(workspaceId, RemainingId(stdout, lastIndex))
      invariant workspaceId.Some? ==> exists w :: EndsBeforeSpace(stdout, workspaceId.value, w)
      decreases |stdout| - lastIndex
    {
      IdExecStep(stdout, lastIndex);
      workspaceId := Some(m.value.workspaceId);
      lastIndex := m.value.lastIndex;
      m := IdExec(stdout, lastIndex);
    }
    IdExecStep(stdout, lastIndex);
  }

  /** Every id taken from the remaining attempts ends right before a white space character. */
  lemma {:induction false} RemainingIdEndsBeforeSpace(s: string, q: nat)
    requires RemainingId(s, q).Some?
    ensures exists w :: EndsBeforeSpace(s, RemainingId(s, q).value, w)
    decreases |s| + 1 - q
  {
    if RemainingId(s, q + 1).Some? {
      RemainingIdEndsBeforeSpace(s, q + 1);
    } else {
      var a := IdAttempt(s, q);
      assert EndsBeforeSpace(s, a.value.workspaceId, a.value.lastIndex - 1);
    }
  }

  /** The id `workspaceStop` stops begins with `workspace`, holds no white space, is
      followed in the output by a white space character, and comes from the last line
      that yields an id. */
  lemma WorkspaceIdShape(stdout: string, id: string)
    requires WorkspaceId(stdout) == Some(id)
    ensures IsWorkspaceToken(id)
    ensures exists w :: EndsBeforeSpace(stdout, id, w)
    ensures exists i :: 0 <= i < |Lines(stdout)| && LineId(Lines(stdout)[i], i + 1 < |Lines(stdout)|) == Some(id)
                        && forall k :: i < k < |Lines(stdout)| ==> LineId(Lines(stdout)[k], k + 1 < |Lines(stdout)|).None?
  {
    var lines := Lines(stdout);
    LastLineIdIsLast(lines);
    RemainingMatchesLines(stdout, 0);
    RemainingIdEndsBeforeSpace(stdout, 0);
  }

  /** No id, and so no `workspace:stop`, when the output is empty. */
  lemma EmptyListHasNoId()
    ensures WorkspaceId("") == None
  {
    assert Lines("") == [""];
  }

  /** A line whose only `workspace` starts at `j` yields the group from `j` to where
      `.*?\s` stops. */
  lemma LineIdOfSingleOccurrence(line: string, terminated: bool, j: nat, w: nat)
    requires Candidate(line, terminated, j) && CaptureEnd(line, terminated, j) == Some(w)
    requires forall k :: j < k ==> !OccursAt(line, k, Workspace)
    ensures LineId(line, terminated) == Some(line[j..w])
  {
  }

  /** The second line of the sample listing. */
  const ListingLine := "  workspace89cd  default"

  lemma ListingLineStartsId()
    ensures OccursAt(ListingLine, 2, Workspace)
  {
    assert forall i :: 0 <= i < 9 ==> ListingLine[2..11][i] == Workspace[i];
  }

  lemma ListingLineSpace()
    ensures FirstSpace(ListingLine, 11) == Some(15)
  {
    var line := ListingLine;
    assert line[15] == ' ' && line[11] == '8' && line[12] == '9' && line[13] == 'c' && line[14] == 'd';
  }

  lemma ListingLineHasOneWorkspace()
    ensures forall k :: 2 < k ==> !OccursAt(ListingLine, k, Workspace)
  {
    var line := ListingLine;
    forall k | 2 < k < |line| ensures line[k] != 'w' { }
    forall k | 2 < k ensures !OccursAt(line, k, Workspace) {
      if k + |Workspace| <= |line| {
        assert line[k..k + |Workspace|][0] == line[k];
      }
    }
  }

  /** A listing line yields the id in its first column. */
  lemma ListingLineId()
    ensures LineId(ListingLine, true) == Some("workspace89cd")
  {
    ListingLineStartsId();
    ListingLineSpace();
    ListingLineHasOneWorkspace();
    LineIdOfSingleOccurrence(ListingLine, true, 2, 15);
    assert ListingLine[2..15] == "workspace89cd";
  }

  /** Two listed workspaces: the second one is stopped. */
  lemma LastListedWorkspaceWins()
    ensures WorkspaceId("  workspace67ab  default" + "\n" + "  workspace89cd  default" + "\n") == Some("workspace89cd")
  {
    var first, second := "  workspace67ab  default", "  workspace89cd  default";
    assert NoLineTerminator(first) && NoLineTerminator(second);
    LinesOfTwo(first, second);
    ListingLineId();
    var lines := [first, second, ""];
    assert LineId("", false) == None;
    assert LastLineId(lines[2..]) == None;
    assert lines[1..][1..] == lines[2..];
    assert LastLineId(lines[1..]) == Some("workspace89cd");
  }
}
