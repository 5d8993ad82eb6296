/** The few Python `str` operations the service relies on, with Python's semantics:
    `find`, `rfind`, `in`, `startswith`, slicing with negative indices, `strip`,
    `split` and `join`. A character is a Unicode scalar value; unlike a Python `str`, a
    Dafny string cannot hold a lone surrogate code point. */
module PyStr {

  /** `pat` occurs in `s` starting at index `i`. */
  predicate OccursAt(s: string, pat: string, i: int) {
    0 <= i && i + |pat| <= |s| && s[i..i + |pat|] == pat
  }

  /** `s.find(pat, from)`: the least index at or after `from` where `pat` occurs, or -1. */
  function Find(s: string, pat: string, from: nat): (r: int)
    ensures r == -1 || (from <= r && OccursAt(s, pat, r))
    ensures forall i :: from <= i && (r == -1 || i < r) ==> !OccursAt(s, pat, i)
    decreases |s| - from
  {
    if |s| < from + |pat| then -1
    else if OccursAt(s, pat, from) then from
    else Find(s, pat, from + 1)
  }

  /** `pat in s`. */
  predicate Contains(s: string, pat: string) {
    Find(s, pat, 0) != -1
  }

  /** `s.rfind(c)` for a one-character needle: the greatest index holding `c`, or -1. */
  function RFind(s: string, c: char): (r: int)
    ensures -1 <= r < |s|
    ensures r != -1 ==> s[r] == c
    ensures forall i :: r < i < |s| ==> s[i] != c
  {
    if s == [] then -1
    else if s[|s| - 1] == c then |s| - 1
    else RFind(s[..|s| - 1], c)
  }

  /** `s.startswith(p)`: it holds exactly when `s.find(p)` returns 0. */
  predicate StartsWith(s: string, p: string)
    ensures StartsWith(s, p) <==> Find(s, p, 0) == 0
  {
    assert |p| <= |s| ==> s[0..|p|] == s[..|p|];
    |p| <= |s| && s[..|p|] == p
  }

  /** How Python turns a slice bound into a position: a negative bound counts from the end,
      and either kind is clamped to `0..n`. */
  function SliceBound(i: int, n: nat): (k: nat)
    ensures k <= n
    ensures 0 <= i <= n ==> k == i
    ensures i < 0 && 0 <= i + n ==> k == i + n
    ensures i > n ==> k == n
    ensures i + n < 0 ==> k == 0
  {
    if i < 0 then (if i + n < 0 then 0 else i + n)
    else if i > n then n
    else i
  }

  /** `s[a:b]`: the characters from bound `a` up to bound `b`, empty when `b` is not past `a`. */
  function Slice(s: string, a: int, b: int): (r: string)
    ensures var lo, hi := SliceBound(a, |s|), SliceBound(b, |s|);
            |r| == (if lo < hi then hi - lo else 0) &&
            forall k :: 0 <= k < |r| ==> r[k] == s[lo + k]
  {
    var lo, hi := SliceBound(a, |s|), SliceBound(b, |s|);
    if lo < hi then s[lo..hi] else []
  }

  /** `str.isspace` for one character: the characters Python's argument-less `strip` removes.
      They include the JSON whitespace and never a brace or a backquote. */
  predicate IsPySpace(c: char)
    ensures c == ' ' || c == '\t' || c == '\n' || c == '\r' ==> IsPySpace(c)
    ensures IsPySpace(c) ==> c != '{' && c != '}' && c != '`'
  {
    || ('\t' <= c <= '\r')
    || ('\U{1C}' <= c <= '\U{1F}')
    || c == ' '
    || c == '\U{85}'
    || c == '\U{A0}'
    || c == '\U{1680}'
    || ('\U{2000}' <= c <= '\U{200A}')
    || c == '\U{2028}'
    || c == '\U{2029}'
    || c == '\U{202F}'
    || c == '\U{205F}'
    || c == '\U{3000}'
  }

  /** Every character of `s` satisfies `space`. */
  predicate AllOf(s: string, space: char -> bool) {
    forall i :: 0 <= i < |s| ==> space(s[i])
  }

  /** The length of the longest prefix of `s` made of `space` characters. */
  function LeadingRun(s: string, space: char -> bool): (n: nat)
    ensures n <= |s|
    ensures forall i :: 0 <= i < n ==> space(s[i])
    ensures n < |s| ==> !space(s[n])
  {
    if s == [] || !space(s[0]) then 0 else 1 + LeadingRun(s[1..], space)
  }

  /** The length of the longest suffix of `s` made of `space` characters. */
  function TrailingRun(s: string, space: char -> bool): (n: nat)
    ensures n <= |s|
    ensures forall i :: |s| - n <= i < |s| ==> space(s[i])
    ensures n < |s| ==> !space(s[|s| - 1 - n])
  {
    if s == [] || !space(s[|s| - 1]) then 0 else 1 + TrailingRun(s[..|s| - 1], space)
  }

  /** `s` with its leading and trailing `space` characters removed; the result is the piece of
      `s` after its leading run, it neither starts nor ends with a space, and only spaces
      follow it in `s`. */
  function StripBy(s: string, space: char -> bool): (r: string)
    ensures var lead := LeadingRun(s, space);
            && lead + |r| <= |s|
            && r == s[lead..lead + |r|]
            && (forall i :: lead + |r| <= i < |s| ==> space(s[i]))
            && (r == [] || (!space(r[0]) && !space(r[|r| - 1])))
  {
    var lead := LeadingRun(s, space);
    var rest := s[lead..];
    var trail := TrailingRun(rest, space);
    assert rest != [] ==> !space(rest[0]);
    rest[..|rest| - trail]
  }

  /** A text is its leading spaces, then its stripped form, then its trailing spaces. */
  lemma StripPieces(s: string, space: char -> bool) returns (a: string, b: string)
    ensures s == a + StripBy(s, space) + b
    ensures AllOf(a, space) && AllOf(b, space)
  {
    var r := StripBy(s, space);
    var lead := LeadingRun(s, space);
    a, b := s[..lead], s[lead + |r|..];
    assert s == a + r + b by {
      assert s == s[..lead] + s[lead..lead + |r|] + s[lead + |r|..];
    }
    assert AllOf(b, space) by {
      forall i | 0 <= i < |b| ensures space(b[i]) {
        assert b[i] == s[lead + |r| + i];
      }
    }
  }

  /** Python's argument-less `s.strip()`: nothing is left exactly when the text is all
      whitespace, and what is left neither starts nor ends with whitespace. */
  function Strip(s: string): (r: string)
    ensures r == [] <==> AllOf(s, IsPySpace)
    ensures r == [] || (!IsPySpace(r[0]) && !IsPySpace(r[|r| - 1]))
  {
    StripEmptyIffAllSpace(s, IsPySpace);
    StripBy(s, IsPySpace)
  }

  /** Stripping is determined by the shape of the text: whatever spaces surround a piece that
      neither starts nor ends with a space, stripping returns that piece. */
  lemma {:induction false} StripUnique(a: string, t: string, b: string, space: char -> bool)
    requires AllOf(a, space) && AllOf(b, space)
    requires t == [] || (!space(t[0]) && !space(t[|t| - 1]))
    ensures StripBy(a + t + b, space) == t
  {
    var s := a + t + b;
    var lead := LeadingRun(s, space);
    var r := StripBy(s, space);
    if t == [] {
      assert s == a + b;
      assert AllOf(s, space) by {
        forall i | 0 <= i < |s| ensures space(s[i]) {
          if i < |a| { assert s[i] == a[i]; } else { assert s[i] == b[i - |a|]; }
        }
      }
    } else {
      assert lead == |a| by {
        assert s[|a|] == t[0];
        assert forall i :: 0 <= i < |a| ==> s[i] == a[i];
      }
      // the last character of `t` is not a space, so the result reaches it
      assert |r| >= |t| by {
        assert s[|a| + |t| - 1] == t[|t| - 1];
      }
      // everything after `t` is a space, so the result stops at it
      assert |r| <= |t| by {
        assert forall i :: |a| + |t| <= i < |s| ==> s[i] == b[i - |a| - |t|];
      }
      assert s[|a|..|a| + |t|] == t;
    }
  }

  /** Stripping twice is stripping once. */
  lemma StripIdempotent(s: string, space: char -> bool)
    ensures StripBy(StripBy(s, space), space) == StripBy(s, space)
  {
    var r := StripBy(s, space);
    StripUnique([], r, [], space);
    assert [] + r + [] == r;
  }

  /** Stripping leaves nothing exactly when the text is made only of spaces. */
  lemma StripEmptyIffAllSpace(s: string, space: char -> bool)
    ensures StripBy(s, space) == [] <==> AllOf(s, space)
  {
    if AllOf(s, space) {
      assert s + [] + [] == s;
      StripUnique(s, [], [], space);
    }
  }

  /** Occurrences inside the prefix `s[..k]` are exactly the occurrences in `s` that end by `k`. */
  lemma OccursInPrefix(s: string, k: nat, pat: string, i: int)
    requires k <= |s| && i + |pat| <= k
    ensures OccursAt(s[..k], pat, i) <==> OccursAt(s, pat, i)
  {
    if 0 <= i {
      assert s[..k][i..i + |pat|] == s[i..i + |pat|];
    }
  }

  /** Occurrences in `a + s` past `a` are the occurrences in `s`, shifted by `|a|`. */
  lemma OccursAfterPrefix(a: string, s: string, pat: string, i: int)
    requires 0 <= i
    ensures OccursAt(a + s, pat, |a| + i) <==> OccursAt(s, pat, i)
  {
    if i + |pat| <= |s| {
      assert (a + s)[|a| + i..|a| + i + |pat|] == s[i..i + |pat|];
    }
  }

  /** A character absent from the first `k` positions is absent from the prefix `s[..k]`. */
  lemma NotInPrefix(s: string, k: nat, c: char)
    requires k <= |s| && forall i :: 0 <= i < k ==> s[i] != c
    ensures c !in s[..k]
  {
    assert forall i :: 0 <= i < k ==> s[..k][i] == s[i];
  }

  /** A character absent from the positions from `k` on is absent from the suffix `s[k..]`. */
  lemma NotInSuffix(s: string, k: nat, c: char)
    requires k <= |s| && forall i :: k <= i < |s| ==> s[i] != c
    ensures c !in s[k..]
  {
    assert forall i :: 0 <= i < |s| - k ==> s[k..][i] == s[k + i];
  }

  /** A one-character needle occurs exactly where that character stands. */
  lemma OccursAtChar(s: string, c: char, i: int)
    ensures OccursAt(s, [c], i) <==> 0 <= i < |s| && s[i] == c
  {
    if 0 <= i < |s| {
      assert s[i..i + 1] == [s[i]];
    }
  }

  /** `find` returns the first occurrence: an occurrence at `i` with none between `from` and
      `i` is what `find` reports. */
  lemma FindIsFirst(s: string, pat: string, from: nat, i: int)
    requires from <= i && OccursAt(s, pat, i)
    requires forall j :: from <= j < i ==> !OccursAt(s, pat, j)
    ensures Find(s, pat, from) == i
  {
  }

  /** Searching from `|a| + from` in `a + s` finds what searching from `from` in `s` finds,
      moved by `|a|`. */
  lemma {:induction false} FindAfterPrefix(a: string, s: string, pat: string, from: nat)
    ensures Find(a + s, pat, |a| + from) ==
      (if Find(s, pat, from) == -1 then -1 else |a| + Find(s, pat, from))
  {
    var r := Find(s, pat, from);
    forall i | |a| + from <= i ensures OccursAt(a + s, pat, i) <==> OccursAt(s, pat, i - |a|) {
      OccursAfterPrefix(a, s, pat, i - |a|);
    }
    if r != -1 {
      FindIsFirst(a + s, pat, |a| + from, |a| + r);
    }
  }

  /** When `pat` neither occurs in `pre` nor starts inside it, its first occurrence in
      `pre + pat + rest` is right after `pre`. */
  lemma FindFirstAfter(pre: string, pat: string, rest: string)
    requires |pat| > 0 && !Contains(pre + pat[..|pat| - 1], pat)
    ensures Find(pre + pat + rest, pat, 0) == |pre|
  {
    var text := pre + pat + rest;
    var k := |pre| + |pat| - 1;
    assert text[|pre|..|pre| + |pat|] == pat;
    assert text[..k] == pre + pat[..|pat| - 1];
    forall j | 0 <= j < |pre| ensures !OccursAt(text, pat, j) {
      OccursInPrefix(text, k, pat, j);
    }
    FindIsFirst(text, pat, 0, |pre|);
  }

  /** `pat in s` holds exactly when `pat` occurs somewhere in `s`. */
  lemma ContainsIff(s: string, pat: string)
    ensures Contains(s, pat) <==> exists i :: OccursAt(s, pat, i)
  {
    if exists i :: OccursAt(s, pat, i) {
      var i :| OccursAt(s, pat, i);
      assert !(Find(s, pat, 0) == -1 && OccursAt(s, pat, i));
    }
  }

  /** `c in s` for a one-character needle is `c` being an element of `s`. */
  lemma ContainsChar(s: string, c: char)
    ensures Contains(s, [c]) <==> c in s
  {
    ContainsIff(s, [c]);
    if c in s {
      var i :| 0 <= i < |s| && s[i] == c;
      OccursAtChar(s, c, i);
    }
    if Contains(s, [c]) {
      var i := Find(s, [c], 0);
      OccursAtChar(s, c, i);
    }
  }

  /** `s.split(sep)`: the pieces between successive leftmost, non-overlapping occurrences of
      `sep`. Python rejects an empty separator. */
  function Split(s: string, sep: string): (parts: seq<string>)
    requires |sep| > 0
    ensures |parts| >= 1
    ensures Contains(s, sep) <==> |parts| >= 2
    ensures Contains(s, sep) ==> parts[0] == s[..Find(s, sep, 0)]
    decreases |s|
  {
    var i := Find(s, sep, 0);
    if i == -1 then [s] else [s[..i]] + Split(s[i + |sep|..], sep)
  }

  /** `sep.join(parts)`. */
  function Join(sep: string, parts: seq<string>): (r: string)
    ensures parts != [] ==> StartsWith(r, parts[0])
    ensures |parts| >= 2 ==> StartsWith(r, parts[0] + sep)
  {
    if parts == [] then []
    else if |parts| == 1 then parts[0]
    else parts[0] + sep + Join(sep, parts[1..])
  }

  /** Joining one more part appends the separator (when there are parts before it) and then
      that part: the parts appear in order, one separator between each two. */
  lemma {:induction false} JoinAppend(sep: string, parts: seq<string>, p: string)
    ensures Join(sep, parts + [p]) == Join(sep, parts) + (if parts == [] then [] else sep) + p
    decreases |parts|
  {
    if |parts| >= 2 {
      assert (parts + [p])[1..] == parts[1..] + [p];
      JoinAppend(sep, parts[1..], p);
    } else if |parts| == 1 {
      assert (parts + [p])[1..] == [p];
    }
  }

  /** Joining the pieces of a split with the same separator gives back the text. */
  lemma {:induction false} SplitJoin(s: string, sep: string)
    requires |sep| > 0
    ensures Join(sep, Split(s, sep)) == s
    decreases |s|
  {
    var i := Find(s, sep, 0);
    if i != -1 {
      var rest := s[i + |sep|..];
      SplitJoin(rest, sep);
      var parts := Split(s, sep);
      assert parts == [s[..i]] + Split(rest, sep);
      assert parts[1..] == Split(rest, sep);
      assert s == s[..i] + sep + rest by {
        assert s[i..i + |sep|] == sep;
      }
    }
  }

  /** No piece of a split contains the separator. */
  lemma {:induction false} SplitPiecesFree(s: string, sep: string)
    requires |sep| > 0
    ensures forall k :: 0 <= k < |Split(s, sep)| ==> !Contains(Split(s, sep)[k], sep)
    decreases |s|
  {
    var i := Find(s, sep, 0);
    var parts := Split(s, sep);
    if i == -1 {
      assert parts == [s];
    } else {
      var rest := s[i + |sep|..];
      SplitPiecesFree(rest, sep);
      assert parts == [s[..i]] + Split(rest, sep);
      assert !Contains(s[..i], sep) by {
        ContainsIff(s[..i], sep);
        forall j | OccursAt(s[..i], sep, j) ensures false {
          OccursInPrefix(s, i, sep, j);
        }
      }
      forall k | 0 <= k < |parts| ensures !Contains(parts[k], sep) {
        if k > 0 {
          assert parts[k] == Split(rest, sep)[k - 1];
        }
      }
    }
  }
}
