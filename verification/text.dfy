/**
  The Python string operations the grading script relies on: substring search
  (`in`, `str.find`), `str.split` with a separator, `'sep'.join`,
  `str.replace`, `str.strip` and `str.lower`.
 */
module Text {
  import opened Outcomes

  /** `p` occurs in `s` starting at index `i`. */
  predicate HasAt(s: string, i: int, p: string) {
    0 <= i && i + |p| <= |s| && s[i..i + |p|] == p
  }

  /** Index of the leftmost occurrence of `p` in `s` at or after `from` (Python's `s.find(p, from)`). */
  function FindFrom(s: string, p: string, from: nat): (r: Option<nat>)
    decreases |s| - from
    ensures r.Some? ==> from <= r.value && HasAt(s, r.value, p)
    ensures r.Some? ==> forall k :: from <= k < r.value ==> !HasAt(s, k, p)
    ensures r.None? ==> forall k :: from <= k ==> !HasAt(s, k, p)
  {
    if from + |p| > |s| then None
    else if HasAt(s, from, p) then Some(from)
    else FindFrom(s, p, from + 1)
  }

  /** Python's `p in s`. */
  function Contains(s: string, p: string): (b: bool)
    ensures b <==> exists i :: HasAt(s, i, p)
  {
    FindFrom(s, p, 0).Some?
  }

  lemma ContainsChar(s: string, c: char)
    ensures Contains(s, [c]) <==> c in s
  {
    if c in s {
      var i :| 0 <= i < |s| && s[i] == c;
      assert s[i..i + 1] == [c];
      assert HasAt(s, i, [c]);
    }
    if Contains(s, [c]) {
      var i :| HasAt(s, i, [c]);
      assert s[i] == s[i..i + 1][0];
    }
  }

  /** `p` occurs in `a + p + b` right after `a`. */
  lemma HasAtMiddle(a: string, p: string, b: string)
    ensures HasAt(a + p + b, |a|, p)
  {
    assert (a + p + b)[|a|..|a| + |p|] == p;
  }

  /** An occurrence of `p` inside `s[a..b]` is an occurrence inside `s`. */
  lemma HasAtSlice(s: string, a: int, b: int, k: int, p: string)
    requires 0 <= a <= b <= |s| && HasAt(s[a..b], k, p)
    ensures HasAt(s, a + k, p)
  {
    var u := s[a..b][k..k + |p|];
    var v := s[a + k..a + k + |p|];
    forall m | 0 <= m < |p| ensures u[m] == v[m] {
    }
    assert u == v;
  }

  /** `w` starts `[c] + u` exactly when `c` is its first character and the rest of `w` starts `u`. */
  lemma ConsHasAt(c: char, u: string, w: string)
    requires |w| > 0
    ensures HasAt([c] + u, 0, w) <==> c == w[0] && HasAt(u, 0, w[1..])
  {
    if |w| <= |u| + 1 {
      assert ([c] + u)[0..|w|] == [c] + u[0..|w| - 1];
    }
  }

  /** An occurrence of `p` in `u + t` that starts within `t` is an occurrence in `t`. */
  lemma HasAtInSuffix(u: string, t: string, i: int, p: string)
    requires |u| <= i
    ensures HasAt(u + t, i, p) <==> HasAt(t, i - |u|, p)
  {
    if i + |p| <= |u + t| {
      assert (u + t)[i..i + |p|] == t[i - |u|..i - |u| + |p|];
    }
  }

  lemma NoOccurrenceInSlice(s: string, a: int, b: int, p: string)
    requires 0 <= a <= b <= |s| && !Contains(s, p)
    ensures !Contains(s[a..b], p)
  {
    if Contains(s[a..b], p) {
      var k :| HasAt(s[a..b], k, p);
      HasAtSlice(s, a, b, k, p);
    }
  }

  /** Concatenation with `sep` between consecutive parts (Python's `sep.join(parts)`). */
  function Join(parts: seq<string>, sep: string): string
  {
    if |parts| == 0 then ""
    else if |parts| == 1 then parts[0]
    else parts[0] + sep + Join(parts[1..], sep)
  }

  /**
    Python's `s.split(sep)` for a non-empty separator: the pieces between the
    occurrences of `sep` found left to right without overlap.
   */
  function Split(s: string, sep: string): (parts: seq<string>)
    requires |sep| > 0
    decreases |s|
    ensures |parts| >= 1
    ensures forall k :: 0 <= k < |parts| ==> !Contains(parts[k], sep)
  {
    match FindFrom(s, sep, 0)
    case None => [s]
    case Some(i) =>
      var rest := Split(s[i + |sep|..], sep);
      assert !Contains(s[..i], sep) by {
        if Contains(s[..i], sep) {
          var k :| HasAt(s[..i], k, sep);
          HasAtSlice(s, 0, i, k, sep);
        }
      }
      assert ([s[..i]] + rest)[1..] == rest;
      [s[..i]] + rest
  }

  lemma SplitAtFirst(s: string, sep: string, i: nat)
    requires |sep| > 0 && FindFrom(s, sep, 0) == Some(i)
    ensures Split(s, sep) == [s[..i]] + Split(s[i + |sep|..], sep)
  {
  }

  /** Joining the pieces of a split with the same separator gives the text back. */
  lemma {:induction false} JoinSplit(s: string, sep: string)
    requires |sep| > 0
    ensures Join(Split(s, sep), sep) == s
    decreases |s|
  {
    match FindFrom(s, sep, 0)
    case None =>
    case Some(i) =>
      var rest := Split(s[i + |sep|..], sep);
      SplitAtFirst(s, sep, i);
      JoinSplit(s[i + |sep|..], sep);
      assert ([s[..i]] + rest)[1..] == rest;
      assert Join([s[..i]] + rest, sep) == s[..i] + sep + Join(rest, sep);
      assert s == s[..i] + sep + s[i + |sep|..];
  }

  /** The first occurrence of a character is right after a prefix that lacks it. */
  lemma FindCharAfter(u: string, c: char, rest: string)
    requires c !in u
    ensures FindFrom(u + [c] + rest, [c], 0) == Some(|u|)
  {
    var s := u + [c] + rest;
    HasAtMiddle(u, [c], rest);
    forall k | 0 <= k < |u|
      ensures !HasAt(s, k, [c])
    {
      assert s[k..k + 1] == [u[k]];
    }
  }

  /** A sequence is what comes before index `j`, the element at `j`, and what comes after. */
  lemma SplitAround<T>(ys: seq<T>, j: int)
    requires 0 <= j < |ys|
    ensures ys == ys[..j] + [ys[j]] + ys[j + 1..]
    ensures ys == ys[..j] + ([ys[j]] + ys[j + 1..])
  {
  }

  /** The first piece of a split on one character runs up to that character's first occurrence, or to the end. */
  lemma SplitFirstPiece(s: string, c: char)
    ensures var p := Split(s, [c])[0];
      |p| <= |s| && p == s[..|p|] && c !in p && (|p| == |s| || s[|p|] == c)
  {
    match FindFrom(s, [c], 0)
    case None =>
      FindCharFacts(s, c);
    case Some(i) =>
      FindCharFound(s, c, i);
      SplitAtFirst(s, [c], i);
  }

  /** What a search for one character reports: where it is, and that it is absent before. */
  lemma FindCharFacts(s: string, c: char)
    ensures FindFrom(s, [c], 0).None? ==> c !in s
    ensures FindFrom(s, [c], 0).Some? ==> var i := FindFrom(s, [c], 0).value;
      i < |s| && s[i] == c && c !in s[..i] && s == s[..i] + [c] + s[i + 1..]
  {
    match FindFrom(s, [c], 0)
    case None =>
      ContainsChar(s, c);
    case Some(i) =>
      FindCharFound(s, c, i);
  }

  lemma FindCharFound(s: string, c: char, i: nat)
    requires FindFrom(s, [c], 0) == Some(i)
    ensures i < |s| && s[i] == c && c !in s[..i] && s == s[..i] + [c] + s[i + 1..]
  {
    HasAtChar(s, i, c);
    forall k | 0 <= k < i
      ensures s[..i][k] != c
    {
      HasAtChar(s, k, c);
      assert s[..i][k] == s[k];
    }
    SplitAround(s, i);
  }

  /** A one-character pattern occurs exactly where that character is. */
  lemma HasAtChar(s: string, i: int, c: char)
    ensures HasAt(s, i, [c]) <==> 0 <= i < |s| && s[i] == c
  {
    if 0 <= i < |s| {
      assert s[i..i + 1] == [s[i]];
    }
  }

  /** Splitting a join on a one-character separator gives the parts back. */
  lemma {:induction false} SplitJoin(parts: seq<string>, sep: string)
    requires |sep| == 1 && |parts| >= 1
    requires forall k :: 0 <= k < |parts| ==> !Contains(parts[k], sep)
    ensures Split(Join(parts, sep), sep) == parts
    decreases |parts|
  {
    if |parts| > 1 {
      var p := parts[0];
      var rest := Join(parts[1..], sep);
      var s := Join(parts, sep);
      assert s == p + sep + rest;
      ContainsChar(p, sep[0]);
      assert sep == [sep[0]];
      FindCharAfter(p, sep[0], rest);
      SplitAtFirst(s, sep, |p|);
      assert s[..|p|] == p;
      assert s[|p| + 1..] == rest;
      SplitJoin(parts[1..], sep);
    }
  }

  /** No proper suffix of `p` is also a prefix of it, so occurrences of `p` never overlap. */
  predicate Unbordered(p: string) {
    forall k :: 0 < k < |p| ==> p[k..] != p[..|p| - k]
  }

  /** A pattern whose first character does not recur has no border. */
  lemma UnborderedByFirst(p: string)
    requires |p| > 0 && p[0] !in p[1..]
    ensures Unbordered(p)
  {
    forall k | 0 < k < |p|
      ensures p[k..] != p[..|p| - k]
    {
      assert p[k..][0] == p[1..][k - 1];
    }
  }

  /** Two overlapping occurrences of `p` make a suffix of `p` equal to a prefix of it. */
  lemma OverlapIsBorder(s: string, p: string, a: int, b: int)
    requires HasAt(s, a, p) && HasAt(s, b, p) && a < b < a + |p|
    ensures p[b - a..] == p[..|p| - (b - a)]
  {
    var k := b - a;
    assert s[b..a + |p|] == s[a..a + |p|][k..];
    assert s[b..a + |p|] == s[b..b + |p|][..|p| - k];
  }

  lemma NoOverlap(s: string, p: string, a: int, b: int)
    requires Unbordered(p) && HasAt(s, a, p) && HasAt(s, b, p) && a < b
    ensures a + |p| <= b
  {
    if b < a + |p| {
      OverlapIsBorder(s, p, a, b);
    }
  }

  /** `s.split(sep)[-1]`: the last piece of a split. */
  function LastPiece(s: string, sep: string): string
    requires |sep| > 0
  {
    var parts := Split(s, sep);
    parts[|parts| - 1]
  }

  /** The last piece of a split is the last piece of splitting what follows the first separator. */
  lemma LastPieceStep(s: string, sep: string, i: nat)
    requires |sep| > 0 && FindFrom(s, sep, 0) == Some(i)
    ensures LastPiece(s, sep) == LastPiece(s[i + |sep|..], sep)
  {
    var tail := Split(s[i + |sep|..], sep);
    assert Split(s, sep) == [s[..i]] + tail;
  }

  /** A text without the separator is its own last piece. */
  lemma LastPieceWhole(s: string, sep: string)
    requires |sep| > 0 && !Contains(s, sep)
    ensures LastPiece(s, sep) == s
  {
    assert Split(s, sep) == [s];
  }

  /**
    With an unbordered separator, the last piece of a split is whatever
    follows the last occurrence of the separator.
   */
  lemma {:induction false} LastPieceAfter(pre: string, sep: string, post: string)
    requires |sep| > 0 && Unbordered(sep) && !Contains(post, sep)
    ensures Contains(pre + sep + post, sep)
    ensures LastPiece(pre + sep + post, sep) == post
    decreases |pre|
  {
    var s := pre + sep + post;
    HasAtMiddle(pre, sep, post);
    var i := FindFrom(s, sep, 0).value;
    LastPieceStep(s, sep, i);
    if i == |pre| {
      assert s[i + |sep|..] == post;
      LastPieceWhole(post, sep);
    } else {
      AfterFirstSeparator(pre, sep, post, i);
      var pre' := pre[i + |sep|..];
      LastPieceAfter(pre', sep, post);
    }
  }

  /** When the first separator comes before the last one, what follows it still ends with the last one. */
  lemma AfterFirstSeparator(pre: string, sep: string, post: string, i: nat)
    requires |sep| > 0 && Unbordered(sep)
    requires FindFrom(pre + sep + post, sep, 0) == Some(i) && i != |pre|
    ensures i + |sep| <= |pre|
    ensures (pre + sep + post)[i + |sep|..] == pre[i + |sep|..] + sep + post
  {
    var s := pre + sep + post;
    HasAtMiddle(pre, sep, post);
    NoOverlap(s, sep, i, |pre|);
  }

  /**
    Python's `s.replace(pat, rep)` for a non-empty pattern: every occurrence
    found left to right without overlap is replaced.
   */
  function ReplaceAll(s: string, pat: string, rep: string): string
    requires |pat| > 0
    decreases |s|
  {
    if |s| == 0 then ""
    else if HasAt(s, 0, pat) then rep + ReplaceAll(s[|pat|..], pat, rep)
    else [s[0]] + ReplaceAll(s[1..], pat, rep)
  }

  lemma ReplaceAllAtMatch(s: string, pat: string, rep: string)
    requires |pat| > 0 && HasAt(s, 0, pat)
    ensures ReplaceAll(s, pat, rep) == rep + ReplaceAll(s[|pat|..], pat, rep)
  {
  }

  lemma ReplaceAllAtOther(s: string, pat: string, rep: string)
    requires |pat| > 0 && |s| > 0 && !HasAt(s, 0, pat)
    ensures ReplaceAll(s, pat, rep) == [s[0]] + ReplaceAll(s[1..], pat, rep)
  {
  }

  /** An unbordered pattern placed after text free of it has no earlier occurrence. */
  lemma NoEarlierMatch(pre: string, pat: string, post: string, k: int)
    requires Unbordered(pat) && !Contains(pre, pat) && 0 <= k < |pre|
    ensures !HasAt(pre + pat + post, k, pat)
  {
    var s := pre + pat + post;
    HasAtMiddle(pre, pat, post);
    if k + |pat| <= |pre| {
      assert !HasAt(pre, k, pat);
      assert s[k..k + |pat|] == pre[k..k + |pat|];
    } else if HasAt(s, k, pat) {
      NoOverlap(s, pat, k, |pre|);
    }
  }

  /** Text without the pattern is left unchanged by the rewrite. */
  lemma {:induction false} ReplaceAllIdentity(s: string, pat: string, rep: string)
    requires |pat| > 0 && !Contains(s, pat)
    ensures ReplaceAll(s, pat, rep) == s
    decreases |s|
  {
    if |s| > 0 {
      assert !HasAt(s, 0, pat);
      ReplaceAllAtOther(s, pat, rep);
      NoOccurrenceInSlice(s, 1, |s|, pat);
      assert s[1..|s|] == s[1..];
      ReplaceAllIdentity(s[1..], pat, rep);
    }
  }

  /** Text before an occurrence that is not rewritten passes through untouched. */
  lemma {:induction false} ReplaceAllAfterPrefix(pre: string, pat: string, rep: string, post: string)
    requires |pat| > 0 && Unbordered(pat) && !Contains(pre, pat)
    ensures ReplaceAll(pre + pat + post, pat, rep) == pre + rep + ReplaceAll(post, pat, rep)
    decreases |pre|
  {
    var s := pre + pat + post;
    if |pre| == 0 {
      assert s == pat + post;
      HasAtMiddle("", pat, post);
      ReplaceAllAtMatch(s, pat, rep);
      assert s[|pat|..] == post;
    } else {
      NoEarlierMatch(pre, pat, post, 0);
      ReplaceAllAtOther(s, pat, rep);
      assert s[1..] == pre[1..] + pat + post;
      NoOccurrenceInSlice(pre, 1, |pre|, pat);
      assert pre[1..|pre|] == pre[1..];
      ReplaceAllAfterPrefix(pre[1..], pat, rep, post);
      assert pre == [s[0]] + pre[1..];
    }
  }

  /** A rewrite that begins with a replacement cannot begin with text lacking the replacement's first character. */
  lemma ReplacementLeads(s: string, pat: string, rep: string, w: string)
    requires |pat| > 0 && |rep| > 0 && |w| > 0 && rep[0] !in w && HasAt(s, 0, pat)
    ensures !HasAt(ReplaceAll(s, pat, rep), 0, w)
  {
    ReplaceAllAtMatch(s, pat, rep);
    var r := ReplaceAll(s, pat, rep);
    assert r[0] == rep[0];
    if |w| <= |r| {
      assert r[0..|w|][0] == r[0];
    }
  }

  /** If the result of a rewrite starts with `w`, and `w` cannot begin a replacement, the input starts with `w`. */
  lemma {:induction false} ReplaceAllPrefix(s: string, pat: string, rep: string, w: string)
    requires |pat| > 0 && |rep| > 0 && rep[0] !in w
    requires HasAt(ReplaceAll(s, pat, rep), 0, w)
    ensures HasAt(s, 0, w)
    decreases |s|
  {
    if |w| > 0 {
      if HasAt(s, 0, pat) {
        ReplacementLeads(s, pat, rep, w);
      } else {
        var rest := ReplaceAll(s[1..], pat, rep);
        ReplaceAllAtOther(s, pat, rep);
        ConsHasAt(s[0], rest, w);
        assert rep[0] !in w[1..];
        ReplaceAllPrefix(s[1..], pat, rep, w[1..]);
        ConsHasAt(s[0], s[1..], w);
        assert s == [s[0]] + s[1..];
      }
    }
  }

  /** A pattern starting with a character absent from `u` does not occur starting inside `u`. */
  lemma NoMatchStartingIn(u: string, t: string, i: int, pat: string)
    requires |pat| > 0 && pat[0] !in u && 0 <= i < |u|
    ensures !HasAt(u + t, i, pat)
  {
    assert (u + t)[i] == u[i];
    if i + |pat| <= |u + t| {
      assert (u + t)[i..i + |pat|][0] == u[i];
    }
  }

  /**
    When the pattern's first character is absent from the replacement and the
    replacement's first character is absent from the pattern, no occurrence of
    the pattern survives the rewrite.
   */
  lemma {:induction false} ReplaceAllRemovesPattern(s: string, pat: string, rep: string)
    requires |pat| > 0 && |rep| > 0 && pat[0] !in rep && rep[0] !in pat
    ensures !Contains(ReplaceAll(s, pat, rep), pat)
    decreases |s|
  {
    if |s| > 0 {
      var r := ReplaceAll(s, pat, rep);
      if HasAt(s, 0, pat) {
        var t := ReplaceAll(s[|pat|..], pat, rep);
        ReplaceAllAtMatch(s, pat, rep);
        ReplaceAllRemovesPattern(s[|pat|..], pat, rep);
        forall i | 0 <= i
          ensures !HasAt(r, i, pat)
        {
          if i < |rep| {
            NoMatchStartingIn(rep, t, i, pat);
          } else {
            HasAtInSuffix(rep, t, i, pat);
          }
        }
      } else {
        var t := ReplaceAll(s[1..], pat, rep);
        ReplaceAllAtOther(s, pat, rep);
        ReplaceAllRemovesPattern(s[1..], pat, rep);
        forall i | 1 <= i
          ensures !HasAt(r, i, pat)
        {
          HasAtInSuffix([s[0]], t, i, pat);
        }
        ConsHasAt(s[0], t, pat);
        ConsHasAt(s[0], s[1..], pat);
        assert s == [s[0]] + s[1..];
        if HasAt(t, 0, pat[1..]) {
          assert rep[0] !in pat[1..];
          ReplaceAllPrefix(s[1..], pat, rep, pat[1..]);
        }
      }
    }
  }

  /**
    Which characters count as whitespace. `str.strip` and `str.isspace` use
    the Unicode notion, which on ASCII is space, U+0009..U+000D and the
    separators U+001C..U+001F; `int()` and `float()` on an ASCII string skip
    only the C locale's whitespace, which leaves the separators out.
   */
  datatype Blanks = StrBlanks | CBlanks

  /** `c` is whitespace in the given sense, restricted to the ASCII range. */
  predicate IsSpace(c: char, blanks: Blanks) {
    c == ' ' || (9 <= c as int <= 13) || (blanks == StrBlanks && 28 <= c as int <= 31)
  }

  predicate AllSpace(s: string, blanks: Blanks) {
    forall k :: 0 <= k < |s| ==> IsSpace(s[k], blanks)
  }

  function TrimStart(s: string, blanks: Blanks): (r: string)
    decreases |s|
    ensures |r| <= |s| && r == s[|s| - |r|..]
    ensures AllSpace(s[..|s| - |r|], blanks)
    ensures |r| == 0 || !IsSpace(r[0], blanks)
  {
    if |s| > 0 && IsSpace(s[0], blanks) then
      var r := TrimStart(s[1..], blanks);
      assert s[..|s| - |r|] == [s[0]] + s[1..][..|s| - 1 - |r|];
      r
    else s
  }

  function TrimEnd(s: string, blanks: Blanks): (r: string)
    decreases |s|
    ensures |r| <= |s| && r == s[..|r|]
    ensures AllSpace(s[|r|..], blanks)
    ensures |r| == 0 || !IsSpace(r[|r| - 1], blanks)
  {
    if |s| > 0 && IsSpace(s[|s| - 1], blanks) then
      var r := TrimEnd(s[..|s| - 1], blanks);
      assert s[|r|..] == s[..|s| - 1][|r|..] + [s[|s| - 1]];
      r
    else s
  }

  /** Leading and trailing whitespace removed: Python's `s.strip()` with `StrBlanks`. */
  function Strip(s: string, blanks: Blanks): (r: string)
    ensures |r| == 0 || (!IsSpace(r[0], blanks) && !IsSpace(r[|r| - 1], blanks))
  {
    TrimEnd(TrimStart(s, blanks), blanks)
  }

  lemma {:induction false} TrimStartPadded(a: string, m: string, blanks: Blanks)
    requires AllSpace(a, blanks) && (|m| == 0 || !IsSpace(m[0], blanks))
    ensures TrimStart(a + m, blanks) == m
    decreases |a|
  {
    if |a| > 0 {
      assert (a + m)[1..] == a[1..] + m;
      TrimStartPadded(a[1..], m, blanks);
    } else {
      assert a + m == m;
    }
  }

  lemma {:induction false} TrimEndPadded(m: string, b: string, blanks: Blanks)
    requires AllSpace(b, blanks) && (|m| == 0 || !IsSpace(m[|m| - 1], blanks))
    ensures TrimEnd(m + b, blanks) == m
    decreases |b|
  {
    if |b| > 0 {
      assert (m + b)[..|m + b| - 1] == m + b[..|b| - 1];
      TrimEndPadded(m, b[..|b| - 1], blanks);
    } else {
      assert m + b == m;
    }
  }

  /** Strip removes exactly the whitespace padding around text whose ends are not whitespace. */
  lemma StripPadded(a: string, m: string, b: string, blanks: Blanks)
    requires AllSpace(a, blanks) && AllSpace(b, blanks)
    requires |m| == 0 || (!IsSpace(m[0], blanks) && !IsSpace(m[|m| - 1], blanks))
    ensures Strip(a + m + b, blanks) == m
  {
    if |m| == 0 {
      var ab := a + b;
      assert a + m + b == ab;
      assert AllSpace(ab, blanks);
      TrimStartPadded(ab, "", blanks);
      assert ab + "" == ab;
      TrimEndPadded("", "", blanks);
    } else {
      assert a + m + b == a + (m + b);
      TrimStartPadded(a, m + b, blanks);
      TrimEndPadded(m, b, blanks);
    }
  }

  /** Python's `c.lower()` on ASCII letters. */
  function LowerChar(c: char): char {
    if 'A' <= c <= 'Z' then (c as int + 32) as char else c
  }

  function ToLower(s: string): (r: string)
    ensures |r| == |s| && forall k :: 0 <= k < |s| ==> r[k] == LowerChar(s[k])
  {
    seq(|s|, k requires 0 <= k < |s| => LowerChar(s[k]))
  }
}
