/** String primitives the playlist parser relies on: Kotlin's `trim()`,
    `startsWith`, `lastIndexOf`, `indexOf` and Java's `String.replace`,
    each stated over `string` (a sequence of Unicode scalar values). */
module Text {

  datatype Option<T> = None | Some(value: T)

  /** Kotlin's `Char.isWhitespace()` on the JVM: `Character.isWhitespace(c)`
      or `Character.isSpaceChar(c)`. That is the space separators (Zs), the
      line and paragraph separators (Zl, Zp), the ASCII controls
      TAB, LF, VT, FF, CR and the four information separators U+001C..U+001F. */
  predicate IsWhitespace(c: char)
  {
    || ('\t' <= c <= '\r')
    || ('\U{1C}' <= c <= ' ')
    || c == '\U{A0}'
    || c == '\U{1680}'
    || ('\U{2000}' <= c <= '\U{200A}')
    || c == '\U{2028}' || c == '\U{2029}'
    || c == '\U{202F}' || c == '\U{205F}'
    || c == '\U{3000}'
  }

  predicate AllWhitespace(s: string)
  {
    forall i :: 0 <= i < |s| ==> IsWhitespace(s[i])
  }

  /** Neither end of `s` is whitespace. */
  predicate IsTrimmed(s: string)
  {
    s == [] || (!IsWhitespace(s[0]) && !IsWhitespace(s[|s| - 1]))
  }

  /** `s` is `r` with only whitespace added on either side. */
  ghost predicate PaddedBy(s: string, r: string)
  {
    exists k: nat :: PaddedAt(s, r, k)
  }

  /** `s` is `r` preceded by `k` whitespace characters and followed by
      whitespace only. */
  predicate PaddedAt(s: string, r: string, k: nat)
  {
    k + |r| <= |s| && s[k..k + |r|] == r
    && AllWhitespace(s[..k]) && AllWhitespace(s[k + |r|..])
  }

  predicate StartsWith(s: string, prefix: string)
  {
    |prefix| <= |s| && s[..|prefix|] == prefix
  }

  /** A string starts with its prefix's first character. */
  lemma StartsWithHead(s: string, prefix: string)
    requires |prefix| > 0 && StartsWith(s, prefix)
    ensures s[0] == prefix[0]
  {
    assert s[..|prefix|][0] == s[0];
  }

  /** Drops the longest whitespace prefix. */
  function TrimStart(s: string): (r: string)
    ensures |r| <= |s| && r == s[|s| - |r|..]
    ensures AllWhitespace(s[..|s| - |r|])
    ensures r == [] || !IsWhitespace(r[0])
  {
    if |s| > 0 && IsWhitespace(s[0]) then
      var r := TrimStart(s[1..]);
      assert s[..|s| - |r|] == [s[0]] + s[1..][..|s| - 1 - |r|];
      r
    else s
  }

  /** Drops the longest whitespace suffix. */
  function TrimEnd(s: string): (r: string)
    ensures |r| <= |s| && r == s[..|r|]
    ensures AllWhitespace(s[|r|..])
    ensures r == [] || !IsWhitespace(r[|r| - 1])
  {
    if |s| > 0 && IsWhitespace(s[|s| - 1]) then
      var init := s[..|s| - 1];
      var r := TrimEnd(init);
      assert s[|r|..] == init[|r|..] + [s[|s| - 1]];
      r
    else s
  }

  /** Kotlin `String.trim()`: strips whitespace from both ends. */
  function Trim(s: string): (r: string)
    ensures IsTrimmed(r)
    ensures |r| <= |s|
  {
    TrimEnd(TrimStart(s))
  }

  /** `Trim` removes whitespace only: its result sits inside `s` with
      nothing but whitespace around it. */
  lemma TrimPadded(s: string)
    ensures PaddedBy(s, Trim(s))
    ensures forall c :: c in Trim(s) ==> c in s
  {
    var t := TrimStart(s);
    var r := TrimEnd(t);
    var k := |s| - |t|;
    assert s[k..k + |r|] == r;
    assert s[k + |r|..] == t[|r|..];
    assert PaddedAt(s, r, k);
  }

  /** `TrimStart` stops at the first non-whitespace character. */
  lemma {:induction false} TrimStartAt(s: string, k: nat)
    requires k < |s| && AllWhitespace(s[..k]) && !IsWhitespace(s[k])
    ensures TrimStart(s) == s[k..]
    decreases k
  {
    if k > 0 {
      assert s[1..][..k - 1] == s[1..k];
      assert AllWhitespace(s[1..k]) by {
        forall i | 0 <= i < k - 1 ensures IsWhitespace(s[1..k][i]) {
          assert s[1..k][i] == s[..k][i + 1];
        }
      }
      assert IsWhitespace(s[..k][0]);
      TrimStartAt(s[1..], k - 1);
      assert s[1..][k - 1..] == s[k..];
    }
  }

  /** `TrimEnd` stops at the last non-whitespace character. */
  lemma {:induction false} TrimEndAt(s: string, m: nat)
    requires 0 < m <= |s| && AllWhitespace(s[m..]) && !IsWhitespace(s[m - 1])
    ensures TrimEnd(s) == s[..m]
    decreases |s| - m
  {
    if m < |s| {
      var init := s[..|s| - 1];
      assert init[m..] == s[m..|s| - 1];
      assert AllWhitespace(init[m..]) by {
        forall i | 0 <= i < |init| - m ensures IsWhitespace(init[m..][i]) {
          assert init[m..][i] == s[m..][i];
        }
      }
      assert IsWhitespace(s[m..][|s| - 1 - m]);
      TrimEndAt(init, m);
      assert init[..m] == s[..m];
    }
  }

  /** Whitespace padding determines the trimmed text uniquely, so `PaddedBy`
      together with `IsTrimmed` is a complete specification of `Trim`. */
  lemma TrimUnique(s: string, r: string)
    requires IsTrimmed(r) && PaddedBy(s, r)
    ensures Trim(s) == r
  {
    var k: nat :| PaddedAt(s, r, k);
    if r == [] {
      assert AllWhitespace(s) by {
        forall i | 0 <= i < |s| ensures IsWhitespace(s[i]) {
          if i < k { assert s[i] == s[..k][i]; } else { assert s[i] == s[k..][i - k]; }
        }
      }
    } else {
      var t := s[k..];
      assert TrimStart(s) == t by {
        assert s[k] == s[k..k + |r|][0];
        TrimStartAt(s, k);
      }
      assert TrimEnd(t) == r by {
        assert t[..|r|] == s[k..k + |r|];
        assert t[|r|..] == s[k + |r|..];
        assert t[|r| - 1] == r[|r| - 1];
        TrimEndAt(t, |r|);
      }
    }
  }

  /** A string without whitespace at either end is its own trim. */
  lemma TrimTrimmed(s: string)
    requires IsTrimmed(s)
    ensures Trim(s) == s
  {
    assert PaddedAt(s, s, 0) by {
      assert s[0..0 + |s|] == s && s[..0] == [] && s[0 + |s|..] == [];
    }
    TrimUnique(s, s);
  }

  lemma TrimIdempotent(s: string)
    ensures Trim(Trim(s)) == Trim(s)
  {
    TrimTrimmed(Trim(s));
  }

  /** Trimming yields the empty string exactly for blank input. */
  lemma TrimEmptyIff(s: string)
    ensures Trim(s) == [] <==> AllWhitespace(s)
  {
    if AllWhitespace(s) {
      assert PaddedAt(s, [], 0) by {
        assert s[0..0] == [] && s[..0] == [] && s[0..] == s;
      }
      TrimUnique(s, []);
    } else {
      TrimPadded(s);
      var r := Trim(s);
      var k: nat :| PaddedAt(s, r, k);
    }
  }

  /** Java `lastIndexOf(c)`: the last position holding `c`, or -1. */
  function LastIndexOf(s: string, c: char): (r: int)
    ensures -1 <= r < |s|
    ensures r >= 0 ==> s[r] == c
  {
    if |s| == 0 then -1
    else if s[|s| - 1] == c then |s| - 1
    else LastIndexOf(s[..|s| - 1], c)
  }

  /** No `c` follows the position `LastIndexOf` reports. */
  lemma {:induction false} LastIndexOfIsLast(s: string, c: char)
    ensures forall j :: LastIndexOf(s, c) < j < |s| ==> s[j] != c
  {
    if |s| > 0 && s[|s| - 1] != c {
      LastIndexOfIsLast(s[..|s| - 1], c);
      assert forall j :: 0 <= j < |s| - 1 ==> s[j] == s[..|s| - 1][j];
    }
  }

  /** `LastIndexOf` reports -1 exactly when `c` does not occur. */
  lemma {:induction false} LastIndexOfAbsent(s: string, c: char)
    ensures LastIndexOf(s, c) == -1 <==> forall j :: 0 <= j < |s| ==> s[j] != c
  {
    if |s| > 0 && s[|s| - 1] != c {
      LastIndexOfAbsent(s[..|s| - 1], c);
      assert forall j :: 0 <= j < |s| - 1 ==> s[j] == s[..|s| - 1][j];
    }
  }

  /** Only the last occurrence of `c` has no `c` after it. */
  lemma LastIndexOfUnique(s: string, c: char, j: nat)
    requires j < |s| && s[j] == c
    requires forall i :: j < i < |s| ==> s[i] != c
    ensures LastIndexOf(s, c) == j
  {
    LastIndexOfIsLast(s, c);
  }

  /** Java `indexOf(c, from)`, with `|s|` standing for "not found". */
  function IndexOfFrom(s: string, c: char, from: nat): (r: nat)
    requires from <= |s|
    ensures from <= r <= |s|
    ensures r < |s| ==> s[r] == c
    ensures forall j :: from <= j < r ==> s[j] != c
    decreases |s| - from
  {
    if from == |s| || s[from] == c then from
    else IndexOfFrom(s, c, from + 1)
  }

  /** `pat` occurs in `s` starting at position `i`. */
  predicate OccursAt(s: string, pat: string, i: nat)
  {
    i + |pat| <= |s| && s[i..i + |pat|] == pat
  }

  /** Java `indexOf(pat, from)` for a string `pat`: the leftmost occurrence
      at or after `from`, if any. */
  function IndexOfText(s: string, pat: string, from: nat): (r: Option<nat>)
    requires from <= |s|
    ensures r.Some? ==> from <= r.value && OccursAt(s, pat, r.value)
    ensures r.Some? ==> forall j: nat :: from <= j < r.value ==> !OccursAt(s, pat, j)
    ensures r.None? ==> forall j: nat :: from <= j ==> !OccursAt(s, pat, j)
    decreases |s| - from
  {
    if OccursAt(s, pat, from) then Some(from)
    else if from == |s| then
      assert forall j: nat :: from < j ==> !OccursAt(s, pat, j);
      None
    else IndexOfText(s, pat, from + 1)
  }

  /** The leftmost occurrence at or after `from` is the one `IndexOfText`
      finds. */
  lemma IndexOfTextLeftmost(s: string, pat: string, from: nat, i: nat)
    requires from <= i && OccursAt(s, pat, i)
    requires forall j: nat :: from <= j < i ==> !OccursAt(s, pat, j)
    ensures IndexOfText(s, pat, from) == Some(i)
  {
  }

  /** Java `s.replace(pat, "")`: copy up to the leftmost occurrence, skip
      it, and clean the text after it the same way; with no occurrence left,
      copy the rest. Occurrences are removed left to right without
      overlapping, and text brought together by a removal is not searched
      again. */
  function RemoveAll(s: string, pat: string): (r: string)
    requires |pat| > 0
    ensures |r| <= |s|
    decreases |s|
  {
    match IndexOfText(s, pat, 0)
    case None => s
    case Some(i) => s[..i] + RemoveAll(s[i + |pat|..], pat)
  }

  /** One unfolding of `RemoveAll` at the occurrence the search finds. */
  lemma RemoveAllFound(s: string, pat: string, i: nat)
    requires |pat| > 0 && IndexOfText(s, pat, 0) == Some(i)
    ensures RemoveAll(s, pat) == s[..i] + RemoveAll(s[i + |pat|..], pat)
  {
  }

  /** Everything before the leftmost occurrence is kept, the occurrence is
      dropped, and what follows it is cleaned the same way. */
  lemma RemoveAllLeftmost(s: string, pat: string, i: nat)
    requires |pat| > 0 && OccursAt(s, pat, i)
    requires forall j: nat :: j < i ==> !OccursAt(s, pat, j)
    ensures RemoveAll(s, pat) == s[..i] + RemoveAll(s[i + |pat|..], pat)
  {
    IndexOfTextLeftmost(s, pat, 0, i);
    RemoveAllFound(s, pat, i);
  }

  /** A string without an occurrence is left as it is. */
  lemma RemoveAllNone(s: string, pat: string)
    requires |pat| > 0 && forall i: nat :: !OccursAt(s, pat, i)
    ensures RemoveAll(s, pat) == s
  {
  }

  /** A string with an occurrence gets shorter. */
  lemma RemoveAllShorter(s: string, pat: string, i: nat)
    requires |pat| > 0 && OccursAt(s, pat, i)
    ensures |RemoveAll(s, pat)| < |s|
  {
  }

  /** A character of a slice is a character of the string. */
  lemma InSlice(s: string, lo: nat, hi: nat, c: char)
    requires lo <= hi <= |s| && c in s[lo..hi]
    ensures c in s
  {
    var k :| 0 <= k < hi - lo && s[lo..hi][k] == c;
    assert s[lo + k] == c;
  }

  /** Removing never adds a character. */
  lemma {:induction false} RemoveAllChars(s: string, pat: string, c: char)
    requires |pat| > 0 && c in RemoveAll(s, pat)
    ensures c in s
    decreases |s|
  {
    match IndexOfText(s, pat, 0)
    case None =>
    case Some(i) =>
      RemoveAllFound(s, pat, i);
      if c in s[..i] {
        InSlice(s, 0, i, c);
      } else {
        RemoveAllChars(s[i + |pat|..], pat, c);
        InSlice(s, i + |pat|, |s|, c);
      }
  }
}
