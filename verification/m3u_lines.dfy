/** The line-level half of the M3U parser: what one trimmed line of a
    playlist says, read by the four helpers of the source. */
module Lines {
  import opened Text

  const GroupTag := "#EXTGRP:"
  const EntryTag := "#EXTINF:"
  const UnknownTitle := "Unknown Channel"
  const GroupTitleKey := "group-title=\""

  /** A URL line's text: trimmed, as every line is before it is looked at. */
  type TrimmedString = s: string | IsTrimmed(s)

  /** What a line contributes to the parse. */
  datatype Line =
    | Blank                                          // empty after trimming
    | GroupLine(group: string)                       // `#EXTGRP:<group>`
    | EntryLine(title: string, attributeGroup: string) // `#EXTINF:...,<title>`
    | Comment                                        // any other `#` line
    | AddressLine(url: TrimmedString)                // anything else: a stream URL

  // ---------------------------------------------------------------------
  // Title of an #EXTINF line
  // ---------------------------------------------------------------------

  function OrUnknown(t: string): (r: string)
    ensures r != []
  {
    if t == [] then UnknownTitle else t
  }

  /** The comma at `k` is the last comma of `line`. */
  predicate LastCommaAt(line: string, k: int)
  {
    0 <= k < |line| && line[k] == ',' && forall j :: k < j < |line| ==> line[j] != ','
  }

  /** `parseTitleFromEXTINF`: the trimmed text after the last comma, unless
      there is no comma or it is the final character; then the whole line
      with every `#EXTINF:` removed, trimmed. Never empty. */
  function TitleFromExtinf(line: string): (r: string)
    ensures r != []
  {
    TitleAt(line, LastIndexOf(line, ','))
  }

  /** The title, given the position `k` of the last comma (-1 if none). */
  function TitleAt(line: string, k: int): (r: string)
    requires -1 <= k < |line|
    ensures r != []
  {
    if k != -1 && k < |line| - 1 then OrUnknown(Trim(line[k + 1..]))
    else OrUnknown(Trim(RemoveAll(line, EntryTag)))
  }

  /** With a comma before the end, the title is what follows the last one. */
  lemma TitleAfterLastComma(line: string, k: int)
    requires LastCommaAt(line, k) && k < |line| - 1
    ensures TitleFromExtinf(line) == OrUnknown(Trim(line[k + 1..]))
  {
    LastIndexOfUnique(line, ',', k);
  }

  /** With no comma at all, the title is the line without its `#EXTINF:`
      tags. */
  lemma TitleWithoutComma(line: string)
    requires forall j :: 0 <= j < |line| ==> line[j] != ','
    ensures TitleFromExtinf(line) == OrUnknown(Trim(RemoveAll(line, EntryTag)))
  {
    LastIndexOfAbsent(line, ',');
  }

  /** A comma that ends the line gives the same fallback title. */
  lemma TitleWithTrailingComma(line: string)
    requires line != [] && line[|line| - 1] == ','
    ensures TitleFromExtinf(line) == OrUnknown(Trim(RemoveAll(line, EntryTag)))
  {
    LastIndexOfUnique(line, ',', |line| - 1);
  }

  /** A trimmed title without commas after a final comma is the title. */
  lemma TitleAfterFinalComma(prefix: string, title: string)
    requires title != [] && ',' !in title && IsTrimmed(title)
    ensures TitleFromExtinf(prefix + "," + title) == title
  {
    var s := prefix + "," + title;
    var k := |prefix|;
    assert s[k + 1..] == title;
    assert LastCommaAt(s, k) by {
      forall j | k < j < |s| ensures s[j] != ',' {
        assert s[j] == title[j - k - 1];
      }
    }
    TitleAfterLastComma(s, k);
    TrimTrimmed(title);
  }

  // ---------------------------------------------------------------------
  // Group of an #EXTGRP line
  // ---------------------------------------------------------------------

  /** `parseGroupFromEXTGRP`: the text after the 8-character tag, trimmed.
      Only ever called on lines that start with `#EXTGRP:`; shorter input
      would make the source's `substring(8)` throw. */
  function GroupFromExtgrp(line: string): (r: string)
    requires |line| >= |GroupTag|
    ensures IsTrimmed(r) && PaddedBy(line[|GroupTag|..], r)
  {
    TrimPadded(line[|GroupTag|..]);
    Trim(line[|GroupTag|..])
  }

  // ---------------------------------------------------------------------
  // group-title="..." attribute of an #EXTINF line
  // ---------------------------------------------------------------------

  /** The pattern `group-title="([^"]+)"` matches at position `i`: the key,
      at least one non-quote character, and later a closing quote. */
  predicate AttributeAt(s: string, i: nat)
  {
    var j := i + |GroupTitleKey|;
    j < |s| && s[i..j] == GroupTitleKey && s[j] != '"' && '"' in s[j + 1..]
  }

  /** The leftmost match at or after `from` (the regex `find()`). */
  function FirstAttribute(s: string, from: nat): (r: Option<nat>)
    requires from <= |s|
    ensures r.Some? ==> from <= r.value < |s| && AttributeAt(s, r.value)
    ensures r.Some? ==> forall i: nat :: from <= i < r.value ==> !AttributeAt(s, i)
    ensures r.None? ==> forall i: nat :: from <= i ==> !AttributeAt(s, i)
    decreases |s| - from
  {
    if from == |s| then None
    else if AttributeAt(s, from) then Some(from)
    else FirstAttribute(s, from + 1)
  }

  /** The captured group of a match at `i`: the non-quote run after the key. */
  function CaptureAt(s: string, i: nat): (v: string)
    requires AttributeAt(s, i)
    ensures v != [] && '"' !in v
    ensures i + |GroupTitleKey| + |v| < |s|
    ensures s[i + |GroupTitleKey|..i + |GroupTitleKey| + |v|] == v
    ensures s[i + |GroupTitleKey| + |v|] == '"'
  {
    var j := i + |GroupTitleKey|;
    var e := IndexOfFrom(s, '"', j);
    assert e < |s|;
    s[j..e]
  }

  /** `parseGroupFromTitleAttribute`: the trimmed capture of the first match,
      or the empty string when nothing matches. */
  function GroupFromTitleAttribute(line: string): (r: string)
    ensures (forall i: nat :: !AttributeAt(line, i)) ==> r == []
    ensures forall i: nat :: AttributeAt(line, i) && (forall j: nat :: j < i ==> !AttributeAt(line, j))
              ==> r == Trim(CaptureAt(line, i))
    ensures IsTrimmed(r) && '"' !in r
  {
    match FirstAttribute(line, 0)
    case None => []
    case Some(i) =>
      assert forall m: nat :: AttributeAt(line, m) && (forall j: nat :: j < m ==> !AttributeAt(line, j)) ==> m == i;
      TrimPadded(CaptureAt(line, i));
      Trim(CaptureAt(line, i))
  }

  /** The text `before`, then the attribute `group-title="v"`, then `after`. */
  function WithAttribute(before: string, v: string, after: string): (s: string)
    ensures |s| == |before| + |GroupTitleKey| + |v| + 1 + |after|
    ensures s[..|before|] == before
    ensures s[|before|..|before| + |GroupTitleKey|] == GroupTitleKey
    ensures s[|before| + |GroupTitleKey|..|before| + |GroupTitleKey| + |v|] == v
    ensures s[|before| + |GroupTitleKey| + |v|] == '"'
    ensures s[|s| - |after|..] == after
  {
    before + GroupTitleKey + v + "\"" + after
  }

  lemma AttributeAtValue(before: string, v: string, after: string)
    requires v != [] && '"' !in v
    ensures AttributeAt(WithAttribute(before, v, after), |before|)
  {
    var s := WithAttribute(before, v, after);
    var e := |before| + |GroupTitleKey|;
    assert s[e] == s[e..e + |v|][0];
    assert s[e + 1..][|v| - 1] == '"';
  }

  lemma NoAttributeBefore(before: string, v: string, after: string)
    requires 'g' !in before
    ensures forall j: nat :: j < |before| ==> !AttributeAt(WithAttribute(before, v, after), j)
  {
    var s := WithAttribute(before, v, after);
    forall j: nat | j < |before| ensures !AttributeAt(s, j) {
      assert s[j] == s[..|before|][j];
    }
  }

  lemma CaptureOfValue(before: string, v: string, after: string)
    requires v != [] && '"' !in v
    requires AttributeAt(WithAttribute(before, v, after), |before|)
    ensures CaptureAt(WithAttribute(before, v, after), |before|) == v
  {
    var s := WithAttribute(before, v, after);
    var e := |before| + |GroupTitleKey|;
    var c := CaptureAt(s, |before|);
    assert c == s[e..e + |v|];
  }

  /** A `group-title="v"` attribute preceded by text in which no match can
      start yields its value `v`, when `v` is non-empty, has no quote and
      is already trimmed. */
  lemma AttributeValue(before: string, v: string, after: string)
    requires 'g' !in before
    requires v != [] && '"' !in v && IsTrimmed(v)
    ensures GroupFromTitleAttribute(WithAttribute(before, v, after)) == v
  {
    AttributeAtValue(before, v, after);
    NoAttributeBefore(before, v, after);
    CaptureOfValue(before, v, after);
    TrimTrimmed(v);
  }

  /** The branch of the read loop a line takes, with the values the helpers
      extract from it. */
  function Classify(raw: string): (l: Line)
    ensures l.Blank? <==> AllWhitespace(raw)
    ensures l.EntryLine? ==> l.title != []
    ensures l.AddressLine? ==> l.url != [] && l.url[0] != '#'
    ensures l.GroupLine? ==> StartsWith(Trim(raw), GroupTag)
    ensures l.EntryLine? ==> StartsWith(Trim(raw), EntryTag) && !StartsWith(Trim(raw), GroupTag)
    ensures l.Comment? ==> StartsWith(Trim(raw), "#")
  {
    var t := Trim(raw);
    TrimEmptyIff(raw);
    if t == [] then Blank
    else if StartsWith(t, GroupTag) then GroupLine(GroupFromExtgrp(t))
    else if StartsWith(t, EntryTag) then EntryLine(TitleFromExtinf(t), GroupFromTitleAttribute(t))
    else if !StartsWith(t, "#") then AddressLine(t)
    else Comment
  }

  /** The lines the loop skips without a trace: `#` lines other than the two
      tags. */
  lemma CommentIff(raw: string)
    ensures Classify(raw) == Comment
            <==> var t := Trim(raw);
                 t != [] && StartsWith(t, "#") && !StartsWith(t, GroupTag) && !StartsWith(t, EntryTag)
  {
    TrimEmptyIff(raw);
  }

  /** A URL line is exactly a non-empty text not starting with `#`, with
      whitespace around it; the URL is that text. */
  lemma AddressLineIff(raw: string, url: string)
    requires IsTrimmed(url) && PaddedBy(raw, url)
    ensures Classify(raw) == AddressLine(url) <==> url != [] && url[0] != '#'
  {
    TrimUnique(raw, url);
    if url != [] && url[0] != '#' {
      assert !StartsWith(url, "#") && !StartsWith(url, GroupTag) && !StartsWith(url, EntryTag) by {
        if StartsWith(url, "#") { StartsWithHead(url, "#"); }
        if StartsWith(url, GroupTag) { StartsWithHead(url, GroupTag); }
        if StartsWith(url, EntryTag) { StartsWithHead(url, EntryTag); }
      }
    }
  }

  /** Whatever a URL line carries sits inside the raw line with only
      whitespace around it. */
  lemma AddressLinePadded(raw: string)
    requires Classify(raw).AddressLine?
    ensures PaddedBy(raw, Classify(raw).url)
  {
    TrimPadded(raw);
  }
}
