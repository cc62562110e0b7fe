/**
 * The JavaScript string built-ins the converter relies on, restated over
 * `seq<char>`: `trim`, `toLowerCase` (on the characters that matter here),
 * `lastIndexOf`, `substring`, and `replace` with a global pattern that
 * matches one literal text.
 */
module JsString {
  import opened Wrappers

  // ---------------------------------------------------------------------
  // trim
  // ---------------------------------------------------------------------

  /** The characters `String.prototype.trim` strips: ECMAScript WhiteSpace and LineTerminator. */
  predicate IsJsWhitespace(c: char) {
    || c == '\t' || c == '\n' || c == '\U{000B}' || c == '\U{000C}' || c == '\r' || c == ' '
    || c == '\U{00A0}' || c == '\U{1680}' || ('\U{2000}' <= c <= '\U{200A}')
    || c == '\U{2028}' || c == '\U{2029}' || c == '\U{202F}' || c == '\U{205F}'
    || c == '\U{3000}' || c == '\U{FEFF}'
  }

  predicate AllWhitespace(s: string) {
    forall i :: 0 <= i < |s| ==> IsJsWhitespace(s[i])
  }

  /** Drops leading whitespace: the result is a suffix of `s` preceded only by whitespace. */
  function TrimStart(s: string): (r: string)
    ensures |r| <= |s| && r == s[|s| - |r|..]
    ensures AllWhitespace(s[..|s| - |r|])
    ensures r != [] ==> !IsJsWhitespace(r[0])
  {
    if s != [] && IsJsWhitespace(s[0]) then
      var r := TrimStart(s[1..]);
      TrimStartStep(s, r);
      r
    else s
  }

  /** Dropping one more leading whitespace character keeps `TrimStart`'s promise. */
  lemma TrimStartStep(s: string, r: string)
    requires s != [] && IsJsWhitespace(s[0])
    requires |r| <= |s| - 1 && r == s[1..][|s| - 1 - |r|..] && AllWhitespace(s[1..][..|s| - 1 - |r|])
    ensures r == s[|s| - |r|..] && AllWhitespace(s[..|s| - |r|])
  {
    var n := |s| - |r|;
    assert s[1..][n - 1..] == s[n..];
    forall i | 0 <= i < n ensures IsJsWhitespace(s[..n][i]) {
      if i > 0 {
        assert s[..n][i] == s[1..][..n - 1][i - 1];
      }
    }
  }

  /** Drops trailing whitespace: the result is a prefix of `s` followed only by whitespace. */
  function TrimEnd(s: string): (r: string)
    ensures |r| <= |s| && r == s[..|r|]
    ensures AllWhitespace(s[|r|..])
    ensures r != [] ==> !IsJsWhitespace(r[|r| - 1])
  {
    if s != [] && IsJsWhitespace(s[|s| - 1]) then
      var r := TrimEnd(s[..|s| - 1]);
      TrimEndStep(s, r);
      r
    else s
  }

  /** Dropping one more trailing whitespace character keeps `TrimEnd`'s promise. */
  lemma TrimEndStep(s: string, r: string)
    requires s != [] && IsJsWhitespace(s[|s| - 1])
    requires |r| <= |s| - 1 && r == s[..|s| - 1][..|r|] && AllWhitespace(s[..|s| - 1][|r|..])
    ensures r == s[..|r|] && AllWhitespace(s[|r|..])
  {
    var n := |r|;
    assert s[..|s| - 1][..n] == s[..n];
    forall i | 0 <= i < |s| - n ensures IsJsWhitespace(s[n..][i]) {
      if n + i < |s| - 1 {
        assert s[n..][i] == s[..|s| - 1][n..][i];
      }
    }
  }

  ghost predicate IsSliceAt(s: string, r: string, i: int) {
    0 <= i <= |s| - |r| && r == s[i..i + |r|]
  }

  /**
   * `String.prototype.trim`: the result is empty exactly when `s` is all
   * whitespace, and otherwise starts and ends with a non-whitespace
   * character; `TrimKeepsMiddle` shows it is what is left of `s` after
   * removing whitespace at both ends.
   */
  function Trim(s: string): (r: string)
    ensures r == [] <==> AllWhitespace(s)
    ensures r != [] ==> !IsJsWhitespace(r[0]) && !IsJsWhitespace(r[|r| - 1])
  {
    var a := TrimStart(s);
    var r := TrimEnd(a);
    TrimBothEnds(s, |s| - |a|, r);
    r
  }

  /** `Trim` returns a contiguous part of `s` with only whitespace before and after it. */
  lemma TrimKeepsMiddle(s: string)
    ensures exists i :: IsSliceAt(s, Trim(s), i) && AllWhitespace(s[..i]) && AllWhitespace(s[i + |Trim(s)|..])
  {
    var a := TrimStart(s);
    TrimBothEnds(s, |s| - |a|, TrimEnd(a));
  }

  /**
   * What `Trim` needs from its two halves: `n` leading whitespace
   * characters are dropped, then whitespace at the end.
   */
  lemma TrimBothEnds(s: string, n: nat, r: string)
    requires n <= |s| && AllWhitespace(s[..n]) && (n < |s| ==> !IsJsWhitespace(s[n]))
    requires |r| <= |s| - n && r == s[n..][..|r|] && AllWhitespace(s[n..][|r|..])
    ensures r == [] <==> AllWhitespace(s)
    ensures IsSliceAt(s, r, n) && AllWhitespace(s[..n]) && AllWhitespace(s[n + |r|..])
  {
    assert s[n..][|r|..] == s[n + |r|..];
    assert s[n..][..|r|] == s[n..n + |r|];
    if r == [] {
      assert s[n..][0..] == s[n..];
      WhitespaceJoin(s, n);
    } else {
      assert r[0] == s[n];
    }
  }

  lemma WhitespaceJoin(s: string, n: nat)
    requires n <= |s| && AllWhitespace(s[..n]) && AllWhitespace(s[n..])
    ensures AllWhitespace(s)
  {
    forall i | 0 <= i < |s| ensures IsJsWhitespace(s[i]) {
      if i < n {
        assert s[i] == s[..n][i];
      } else {
        assert s[i] == s[n..][i - n];
      }
    }
  }

  // ---------------------------------------------------------------------
  // toLowerCase, lastIndexOf, substring
  // ---------------------------------------------------------------------

  /** Lower-casing of one character, on the ASCII letters. */
  function LowerChar(c: char): char {
    if 'A' <= c <= 'Z' then (c as int + 32) as char else c
  }

  /** `toLowerCase` restricted to ASCII letters (see README for why this is exact where it is used). */
  function ToLowerAscii(s: string): (r: string)
    ensures |r| == |s|
  {
    if s == [] then [] else [LowerChar(s[0])] + ToLowerAscii(s[1..])
  }

  /** Each character is lower-cased on its own. */
  lemma {:induction false} ToLowerAsciiPointwise(s: string)
    ensures forall i :: 0 <= i < |s| ==> ToLowerAscii(s)[i] == LowerChar(s[i])
    decreases |s|
  {
    if s != [] {
      ToLowerAsciiPointwise(s[1..]);
    }
  }

  /** `s.lastIndexOf(c)`: an index into `s`, or -1 (see `LastIndexOfIsLast` for which one). */
  function LastIndexOf(s: string, c: char): (r: int)
    ensures -1 <= r < |s|
  {
    if s == [] then -1
    else if s[|s| - 1] == c then |s| - 1
    else LastIndexOf(s[..|s| - 1], c)
  }

  /** `lastIndexOf` finds the greatest index holding `c`, and gives -1 exactly when there is none. */
  lemma {:induction false} LastIndexOfIsLast(s: string, c: char)
    ensures var r := LastIndexOf(s, c);
      && (0 <= r ==> s[r] == c)
      && (forall j :: r < j < |s| ==> s[j] != c)
    decreases |s|
  {
    if s != [] && s[|s| - 1] != c {
      LastIndexOfIsLast(s[..|s| - 1], c);
      var r := LastIndexOf(s, c);
      forall j | r < j < |s| ensures s[j] != c {
        if j < |s| - 1 {
          assert s[j] == s[..|s| - 1][j];
        }
      }
    }
  }

  /** `s.substring(start)`: a negative start counts as 0. */
  function Substring(s: string, start: int): string
    requires start <= |s|
  {
    if start < 0 then s else s[start..]
  }

  /** `list.includes(x)`, scanning from the front. */
  predicate Includes(list: seq<string>, x: string)
    decreases |list|
  {
    list != [] && (list[0] == x || Includes(list[1..], x))
  }

  lemma {:induction false} IncludesIsMembership(list: seq<string>, x: string)
    ensures Includes(list, x) <==> x in list
    decreases |list|
  {
    if list != [] {
      IncludesIsMembership(list[1..], x);
      assert list == [list[0]] + list[1..];
    }
  }

  // ---------------------------------------------------------------------
  // Literal search, global replacement, split and join
  // ---------------------------------------------------------------------

  ghost predicate OccursAt(s: string, k: string, i: int) {
    0 <= i && i + |k| <= |s| && s[i..i + |k|] == k
  }

  /** `s.indexOf(k)`: the leftmost position at which `k` occurs, if any. */
  function Find(s: string, k: string): (r: Option<nat>)
    ensures r.Some? ==> OccursAt(s, k, r.value)
    ensures r.Some? ==> forall j :: 0 <= j < r.value ==> !OccursAt(s, k, j)
    ensures r.None? ==> forall j :: !OccursAt(s, k, j)
    decreases |s|
  {
    if |s| < |k| then None
    else if s[..|k|] == k then Some(0)
    else
      var rest := Find(s[1..], k);
      forall j | 1 <= j ensures OccursAt(s, k, j) <==> OccursAt(s[1..], k, j - 1) {
        OccursShift(s, k, j);
      }
      match rest
      case None => None
      case Some(i) => Some(i + 1)
  }

  /**
   * `s.replace(new RegExp(p, 'g'), v)` for a pattern `p` that matches
   * exactly the non-empty text `k`: scanning left to right, every
   * non-overlapping occurrence of `k` is replaced by `v`; the inserted `v`
   * is not scanned again.
   */
  function ReplaceAll(s: string, k: string, v: string): string
    requires k != []
    decreases |s|
  {
    if |s| < |k| then s
    else if s[..|k|] == k then v + ReplaceAll(s[|k|..], k, v)
    else [s[0]] + ReplaceAll(s[1..], k, v)
  }

  /** `s.split(k)`: the pieces between the non-overlapping occurrences of `k`. */
  function Split(s: string, k: string): (parts: seq<string>)
    requires k != []
    ensures |parts| >= 1
    ensures forall p :: p in parts ==> Find(p, k).None?
    decreases |s|
  {
    match Find(s, k)
    case None => [s]
    case Some(i) =>
      forall j | 0 <= j ensures OccursAt(s[..i], k, j) ==> OccursAt(s, k, j) {
        OccursInPrefix(s, k, i, j);
      }
      [s[..i]] + Split(s[i + |k|..], k)
  }

  /** `parts.join(sep)`. */
  function Join(parts: seq<string>, sep: string): string {
    if parts == [] then []
    else if |parts| == 1 then parts[0]
    else parts[0] + sep + Join(parts[1..], sep)
  }

  lemma OccursShift(s: string, k: string, j: int)
    requires 1 <= j && s != []
    ensures OccursAt(s, k, j) <==> OccursAt(s[1..], k, j - 1)
  {
    if j + |k| <= |s| {
      var a, b := s[j..j + |k|], s[1..][j - 1..j - 1 + |k|];
      assert |a| == |b| && forall m :: 0 <= m < |a| ==> a[m] == b[m];
      assert a == b;
    }
  }

  lemma OccursInPrefix(s: string, k: string, i: int, j: int)
    requires 0 <= i <= |s|
    ensures OccursAt(s[..i], k, j) ==> OccursAt(s, k, j)
  {
    if OccursAt(s[..i], k, j) {
      assert s[..i][j..j + |k|] == s[j..j + |k|];
    }
  }

  /** Before the leftmost occurrence, `ReplaceAll` copies the text unchanged. */
  lemma {:induction false} ReplaceAllAtFirst(s: string, k: string, v: string, i: nat)
    requires k != [] && OccursAt(s, k, i)
    requires forall j :: 0 <= j < i ==> !OccursAt(s, k, j)
    ensures ReplaceAll(s, k, v) == s[..i] + v + ReplaceAll(s[i + |k|..], k, v)
    decreases i
  {
    if i == 0 {
      ReplaceAllAtStart(s, k, v);
    } else {
      ghost var t := s[1..];
      LeftmostInTail(s, k, i);
      ReplaceAllPastHead(s, k, v);
      ReplaceAllAtFirst(t, k, v, i - 1);
      assert t[i - 1 + |k|..] == s[i + |k|..];
      HeadThenPrefix(s, i);
      PrependChain(ReplaceAll(s, k, v), s[0], ReplaceAll(t, k, v), t[..i - 1], v, ReplaceAll(s[i + |k|..], k, v), s[..i]);
    }
  }

  lemma PrependChain(x: string, c: char, y: string, p: string, v: string, rest: string, q: string)
    requires x == [c] + y && y == p + v + rest && q == [c] + p
    ensures x == q + v + rest
  {
  }

  /** An occurrence at the front is replaced, and the scan resumes after it. */
  lemma ReplaceAllAtStart(s: string, k: string, v: string)
    requires k != [] && OccursAt(s, k, 0)
    ensures ReplaceAll(s, k, v) == s[..0] + v + ReplaceAll(s[0 + |k|..], k, v)
  {
    assert s[..|k|] == k;
    assert s[..0] + v == v;
  }

  /** Without an occurrence at the front, the first character is copied and the scan moves on by one. */
  lemma ReplaceAllPastHead(s: string, k: string, v: string)
    requires k != [] && |s| >= |k| && !OccursAt(s, k, 0)
    ensures ReplaceAll(s, k, v) == [s[0]] + ReplaceAll(s[1..], k, v)
  {
    assert s[..|k|] != k;
  }

  /** When the leftmost occurrence is past the front, it is one place earlier in the tail. */
  lemma LeftmostInTail(s: string, k: string, i: nat)
    requires k != [] && OccursAt(s, k, i) && i > 0
    requires forall j :: 0 <= j < i ==> !OccursAt(s, k, j)
    ensures |s| >= |k| && !OccursAt(s, k, 0)
    ensures OccursAt(s[1..], k, i - 1) && forall j :: 0 <= j < i - 1 ==> !OccursAt(s[1..], k, j)
  {
    OccursShift(s, k, i);
    forall j | 0 <= j < i - 1 ensures !OccursAt(s[1..], k, j) {
      OccursShift(s, k, j + 1);
    }
  }

  lemma HeadThenPrefix(s: string, i: nat)
    requires 0 < i <= |s|
    ensures [s[0]] + s[1..][..i - 1] == s[..i]
  {
  }

  /** Without an occurrence, `ReplaceAll` returns the text unchanged. */
  lemma {:induction false} ReplaceAllNoMatch(s: string, k: string, v: string)
    requires k != [] && Find(s, k).None?
    ensures ReplaceAll(s, k, v) == s
    decreases |s|
  {
    if |s| >= |k| {
      assert !OccursAt(s, k, 0);
      forall j | 0 <= j ensures !OccursAt(s[1..], k, j) {
        OccursShift(s, k, j + 1);
      }
      ReplaceAllNoMatch(s[1..], k, v);
      assert [s[0]] + s[1..] == s;
    }
  }

  /**
   * Global literal replacement agrees with the split/join reference:
   * `s.replace(/k/g, v) == s.split(k).join(v)`.
   */
  lemma {:induction false} ReplaceAllIsSplitJoin(s: string, k: string, v: string)
    requires k != []
    ensures ReplaceAll(s, k, v) == Join(Split(s, k), v)
    decreases |s|
  {
    match Find(s, k)
    case None =>
      ReplaceAllNoMatch(s, k, v);
    case Some(i) =>
      ReplaceAllAtFirst(s, k, v, i);
      ReplaceAllIsSplitJoin(s[i + |k|..], k, v);
      var rest := Split(s[i + |k|..], k);
      assert Split(s, k) == [s[..i]] + rest;
      assert ([s[..i]] + rest)[1..] == rest;
  }

  /** Joining the pieces of a split with the separator restores the text. */
  lemma {:induction false} SplitJoinRoundTrip(s: string, k: string)
    requires k != []
    ensures Join(Split(s, k), k) == s
    decreases |s|
  {
    match Find(s, k)
    case None =>
    case Some(i) =>
      SplitJoinRoundTrip(s[i + |k|..], k);
      var rest := Split(s[i + |k|..], k);
      assert ([s[..i]] + rest)[1..] == rest;
      assert s[i..i + |k|] == k;
      assert s == s[..i] + s[i..i + |k|] + s[i + |k|..];
  }

  /** Replacing a text by itself changes nothing. */
  lemma ReplaceAllSelf(s: string, k: string)
    requires k != []
    ensures ReplaceAll(s, k, k) == s
  {
    ReplaceAllIsSplitJoin(s, k, k);
    SplitJoinRoundTrip(s, k);
  }

  /** A text that does not contain the first character of `k` has no occurrence to replace. */
  lemma {:induction false} ReplaceAllWithoutFirstChar(s: string, k: string, v: string)
    requires k != [] && k[0] !in s
    ensures ReplaceAll(s, k, v) == s
    decreases |s|
  {
    if |s| >= |k| {
      assert s[..|k|][0] != k[0];
      assert forall c :: c in s[1..] ==> c in s;
      ReplaceAllWithoutFirstChar(s[1..], k, v);
      assert [s[0]] + s[1..] == s;
    }
  }
}
