/** Character classes and line structure of ECMAScript regular expressions, as far as the
    two patterns of src/workspace-helper.ts depend on them: `.` matches any character
    except a line terminator, `^` in multiline mode holds at the start of the input and
    right after a line terminator, and `\s` matches white space and line terminators. */
module Text {

  datatype Option<T> = None | Some(value: T)

  /** ECMAScript LineTerminator: LF, CR, LINE SEPARATOR, PARAGRAPH SEPARATOR. */
  predicate IsLineTerminator(c: char) {
    c == '\n' || c == '\r' || c == '\U{2028}' || c == '\U{2029}'
  }

  /** ECMAScript `\s`: WhiteSpace (TAB, VT, FF, SP, NBSP, ZWNBSP and the other characters
      of category Zs) or a LineTerminator. */
  predicate IsSpace(c: char) {
    c == '\t' || c == '\U{000B}' || c == '\U{000C}' || c == ' ' || c == '\U{00A0}' || c == '\U{FEFF}'
    || c == '\U{1680}' || ('\U{2000}' <= c <= '\U{200A}') || c == '\U{202F}' || c == '\U{205F}'
    || c == '\U{3000}' || IsLineTerminator(c)
  }

  /** `pat` occurs in `s` starting at index `i`. */
  predicate OccursAt(s: string, i: int, pat: string) {
    0 <= i && i + |pat| <= |s| && s[i..i + |pat|] == pat
  }

  /** An occurrence inside a slice is an occurrence in the whole sequence, shifted. */
  lemma OccursInSlice(s: string, lo: nat, hi: nat, j: nat, pat: string)
    requires lo <= hi <= |s|
    ensures OccursAt(s[lo..hi], j, pat) <==> lo + j + |pat| <= hi && OccursAt(s, lo + j, pat)
  {
    if lo + j + |pat| <= hi {
      var a, b := s[lo..hi][j..j + |pat|], s[lo + j..lo + j + |pat|];
      assert |a| == |b| && forall k :: 0 <= k < |a| ==> a[k] == b[k];
      assert a == b;
    }
  }

  predicate NoLineTerminator(s: string) {
    forall i :: 0 <= i < |s| ==> !IsLineTerminator(s[i])
  }

  predicate NoSpace(s: string) {
    forall i :: 0 <= i < |s| ==> !IsSpace(s[i])
  }

  /** `^` (multiline) holds at index `p` of `s`. */
  predicate IsLineStart(s: string, p: int) {
    p == 0 || (0 < p <= |s| && IsLineTerminator(s[p - 1]))
  }

  /** The end of the line holding index `p`: the first line terminator at or after `p`,
      or the end of `s`. */
  function LineEnd(s: string, p: nat): (e: nat)
    requires p <= |s|
    ensures p <= e <= |s|
    ensures forall i :: p <= i < e ==> !IsLineTerminator(s[i])
    ensures e < |s| ==> IsLineTerminator(s[e])
    decreases |s| - p
  {
    if p == |s| || IsLineTerminator(s[p]) then p else LineEnd(s, p + 1)
  }

  /** The line end is determined by its defining properties. */
  lemma LineEndIs(s: string, p: nat, e: nat)
    requires p <= e <= |s|
    requires forall i :: p <= i < e ==> !IsLineTerminator(s[i])
    requires e < |s| ==> IsLineTerminator(s[e])
    ensures LineEnd(s, p) == e
  {
  }

  /** Every index of one line has the same line end. */
  lemma {:induction false} LineEndWithin(s: string, p: nat, q: nat)
    requires p <= |s| && p <= q <= LineEnd(s, p)
    ensures LineEnd(s, q) == LineEnd(s, p)
    decreases q - p
  {
    if q > p {
      LineEndWithin(s, p + 1, q);
    }
  }

  /** The lines of `s` from the line start `p` on, in order, without their terminators.
      The last one is the unterminated tail of `s` (empty when `s` ends with a terminator). */
  function LinesFrom(s: string, p: nat): (lines: seq<string>)
    requires p <= |s|
    ensures |lines| >= 1
    ensures forall k :: 0 <= k < |lines| ==> NoLineTerminator(lines[k])
    decreases |s| - p
  {
    var e := LineEnd(s, p);
    if e == |s| then [s[p..]] else [s[p..e]] + LinesFrom(s, e + 1)
  }

  /** The first of the lines from `p` is `p`'s line; the others are those after it. */
  lemma LinesFromFirst(s: string, p: nat)
    requires p <= |s|
    ensures LinesFrom(s, p)[0] == s[p..LineEnd(s, p)]
    ensures LineEnd(s, p) == |s| ==> |LinesFrom(s, p)| == 1
    ensures LineEnd(s, p) < |s| ==> LinesFrom(s, p)[1..] == LinesFrom(s, LineEnd(s, p) + 1)
  {
  }

  function Lines(s: string): seq<string> {
    LinesFrom(s, 0)
  }

  /** One terminated line splits into itself and an empty tail. */
  lemma LinesOfOne(a: string)
    requires NoLineTerminator(a)
    ensures Lines(a + "\n") == [a, ""]
  {
    var s := a + "\n";
    assert forall i :: 0 <= i < |a| ==> s[i] == a[i];
    LineEndIs(s, 0, |a|);
    LineEndIs(s, |s|, |s|);
    LinesFromFirst(s, 0);
    LinesFromFirst(s, |s|);
    assert s[0..|a|] == a;
  }

  /** Two terminated lines split back into themselves and an empty tail. */
  lemma LinesOfTwo(a: string, b: string)
    requires NoLineTerminator(a) && NoLineTerminator(b)
    ensures Lines(a + "\n" + b + "\n") == [a, b, ""]
  {
    var s := a + "\n" + b + "\n";
    var n := |a| + 1;
    assert forall i :: 0 <= i < |a| ==> s[i] == a[i];
    assert forall i :: 0 <= i < |b| ==> s[n + i] == b[i];
    LineEndIs(s, 0, |a|);
    LineEndIs(s, n, n + |b|);
    LineEndIs(s, |s|, |s|);
    LinesFromFirst(s, 0);
    LinesFromFirst(s, n);
    LinesFromFirst(s, |s|);
    assert s[0..|a|] == a;
    assert s[n..n + |b|] == b;
  }

}
