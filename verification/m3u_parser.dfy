/** The single forward pass of the M3U parser: a left fold of `Step` over
    the classified lines of a playlist, with the record invariants it keeps
    and what the output says about the input. */
module Parser {
  import opened Text
  import opened Categories
  import opened Lines

  /** Id of the first parsed channel, far above the built-in channel ids. */
  const FirstId := 10000

  /** The only program type parsed channels get. */
  datatype ProgramType = YProto

  /** A channel record, restricted to the fields the parser sets. */
  datatype TV = TV(
    id: int,
    title: string,
    alias: string,
    videoUrl: seq<string>,
    channel: string,
    programType: ProgramType,
    pid: string,
    needToken: bool,
    mustToken: bool)

  /** The locals of the read loop and the list built so far. */
  datatype ParserState = ParserState(
    title: string,
    url: string,
    group: string,
    nextId: int,
    channels: seq<TV>)

  const Initial := ParserState("", "", "", FirstId, [])

  /** The category a record gets: the pending group, else the heuristic. */
  function ChannelCategory(group: string, title: string): (r: string)
    ensures r != []
    ensures group != [] ==> r == group
    ensures group == [] ==> IsKnownCategory(r)
  {
    if group != [] then group else CategoryFromTitle(title)
  }

  /** The fixed shape of the `i`-th emitted record. */
  predicate WellFormed(tv: TV, i: nat)
  {
    && tv.id == FirstId + i
    && tv.title == tv.alias && tv.title != []
    && |tv.videoUrl| == 1 && tv.videoUrl[0] != [] && IsTrimmed(tv.videoUrl[0])
    && tv.channel != []
    && tv.programType == YProto
    && tv.pid == [] && !tv.needToken && !tv.mustToken
  }

  /** Ids follow emission order and every record is well formed. */
  predicate Valid(st: ParserState)
  {
    && st.nextId == FirstId + |st.channels|
    && forall i :: 0 <= i < |st.channels| ==> WellFormed(st.channels[i], i)
  }

  /** One iteration of the read loop, on an already classified line. */
  function Step(st: ParserState, l: Line): (r: ParserState)
    ensures |st.channels| <= |r.channels| <= |st.channels| + 1
    ensures r.channels[..|st.channels|] == st.channels
    ensures |r.channels| == |st.channels| + 1 <==> l.AddressLine? && l.url != [] && st.title != []
    ensures |r.channels| == |st.channels| + 1 ==>
              && r.channels[|st.channels|]
                 == TV(st.nextId, st.title, st.title, [l.url], ChannelCategory(st.group, st.title),
                       YProto, "", false, false)
              && r == ParserState("", "", st.group, st.nextId + 1, r.channels)
    ensures l.Blank? || l.Comment? ==> r == st
    ensures l.GroupLine? ==> r == st.(group := l.group)
    ensures l.EntryLine? ==>
              r == st.(title := l.title, group := if l.attributeGroup != [] then l.attributeGroup else st.group)
    ensures l.AddressLine? && (l.url == [] || st.title == []) ==> r == st.(url := l.url)
    ensures Valid(st) ==> Valid(r)
  {
    match l
    case Blank => st
    case Comment => st
    case GroupLine(g) => st.(group := g)
    case EntryLine(title, g) => st.(title := title, group := if g != [] then g else st.group)
    case AddressLine(url) =>
      if st.title != [] && url != [] then
        var tv := TV(st.nextId, st.title, st.title, [url], ChannelCategory(st.group, st.title),
                     YProto, "", false, false);
        ParserState("", "", st.group, st.nextId + 1, st.channels + [tv])
      else
        st.(url := url)
  }

  /** The state after the lines `ls`, read from the start. */
  function Fold(ls: seq<Line>): (r: ParserState)
    ensures Valid(r)
    decreases |ls|
  {
    if ls == [] then Initial else Step(Fold(ls[..|ls| - 1]), ls[|ls| - 1])
  }

  /** Every line classified, in order. */
  function ClassifyAll(lines: seq<string>): (ls: seq<Line>)
    ensures |ls| == |lines|
  {
    if lines == [] then [] else ClassifyAll(lines[..|lines| - 1]) + [Classify(lines[|lines| - 1])]
  }

  /** `parseM3U` on input that reads without error: the emitted records. */
  function ParseLines(lines: seq<string>): (r: seq<TV>)
    ensures forall i :: 0 <= i < |r| ==> WellFormed(r[i], i)
    ensures forall i, j :: 0 <= i < j < |r| ==> r[i].id < r[j].id
  {
    Fold(ClassifyAll(lines)).channels
  }

  // ---------------------------------------------------------------------
  // Classification of a whole input
  // ---------------------------------------------------------------------

  lemma ClassifyAllSnoc(lines: seq<string>, line: string)
    ensures ClassifyAll(lines + [line]) == ClassifyAll(lines) + [Classify(line)]
  {
    assert (lines + [line])[..|lines|] == lines;
  }

  lemma {:induction false} ClassifyAllAt(lines: seq<string>, i: nat)
    requires i < |lines|
    ensures ClassifyAll(lines)[i] == Classify(lines[i])
    decreases |lines|
  {
    if i < |lines| - 1 {
      var init := lines[..|lines| - 1];
      ClassifyAllAt(init, i);
      assert init[i] == lines[i];
    }
  }

  /** Classification is line by line: it commutes with taking a prefix. */
  lemma {:induction false} ClassifyAllPrefix(lines: seq<string>, k: nat)
    requires k <= |lines|
    ensures ClassifyAll(lines[..k]) == ClassifyAll(lines)[..k]
    decreases |lines|
  {
    if k == |lines| {
      assert lines[..k] == lines;
    } else {
      var init := lines[..|lines| - 1];
      ClassifyAllPrefix(init, k);
      assert ClassifyAll(lines[..k]) == ClassifyAll(init)[..k] by {
        assert init[..k] == lines[..k];
      }
      assert ClassifyAll(lines)[..k] == ClassifyAll(init)[..k] by {
        var xs := ClassifyAll(init);
        assert ClassifyAll(lines) == xs + [Classify(lines[|lines| - 1])];
        assert (xs + [Classify(lines[|lines| - 1])])[..k] == xs[..k];
      }
    }
  }

  // ---------------------------------------------------------------------
  // Properties of the fold
  // ---------------------------------------------------------------------

  lemma FoldSnoc(ls: seq<Line>, l: Line)
    ensures Fold(ls + [l]) == Step(Fold(ls), l)
  {
    assert (ls + [l])[..|ls|] == ls;
  }

  /** Records are only ever appended: the records of a prefix of the input
      are a prefix of the records of the whole input. */
  lemma {:induction false} FoldPrefix(ls: seq<Line>, k: nat)
    requires k <= |ls|
    ensures |Fold(ls[..k]).channels| <= |Fold(ls).channels|
    ensures Fold(ls).channels[..|Fold(ls[..k]).channels|] == Fold(ls[..k]).channels
    decreases |ls|
  {
    if k == |ls| {
      assert ls[..k] == ls;
    } else {
      var init := ls[..|ls| - 1];
      assert init[..k] == ls[..k];
      FoldPrefix(init, k);
      var a := Fold(ls[..k]).channels;
      var b := Fold(init).channels;
      var c := Fold(ls).channels;
      assert c[..|a|] == c[..|b|][..|a|];
    }
  }

  /** Some `#EXTINF:` line comes after the last URL line. */
  predicate EntryPending(ls: seq<Line>)
  {
    exists i :: 0 <= i < |ls| && ls[i].EntryLine?
                && forall j :: i < j < |ls| ==> !ls[j].AddressLine?
  }

  lemma EntryPendingSnoc(ls: seq<Line>, l: Line)
    ensures EntryPending(ls + [l]) <==> l.EntryLine? || (!l.AddressLine? && EntryPending(ls))
  {
    var xs := ls + [l];
    var n := |ls|;
    assert xs[n] == l;
    if EntryPending(xs) && !l.EntryLine? {
      var i :| 0 <= i < |xs| && xs[i].EntryLine?
               && forall j :: i < j < |xs| ==> !xs[j].AddressLine?;
      assert i < n;
      assert ls[i].EntryLine?;
      assert forall j :: i < j < |ls| ==> ls[j] == xs[j];
    }
    if !l.AddressLine? && EntryPending(ls) {
      var i :| 0 <= i < |ls| && ls[i].EntryLine?
               && forall j :: i < j < |ls| ==> !ls[j].AddressLine?;
      assert xs[i].EntryLine?;
    }
  }

  /** What `Classify` guarantees of a line: no empty URL, no empty title. */
  predicate Proper(l: Line)
  {
    && (l.AddressLine? ==> l.url != [])
    && (l.EntryLine? ==> l.title != [])
  }

  predicate AllProper(ls: seq<Line>)
  {
    forall i :: 0 <= i < |ls| ==> Proper(ls[i])
  }

  /** The pending title is set exactly when an `#EXTINF:` line has been read
      since the last URL line. */
  lemma {:induction false} PendingTitle(ls: seq<Line>)
    requires AllProper(ls)
    ensures Fold(ls).title != [] <==> EntryPending(ls)
    decreases |ls|
  {
    if ls != [] {
      var init := ls[..|ls| - 1];
      var last := ls[|ls| - 1];
      assert Proper(ls[|ls| - 1]);
      assert forall i :: 0 <= i < |init| ==> init[i] == ls[i];
      PendingTitle(init);
      assert ls == init + [last];
      EntryPendingSnoc(init, last);
    }
  }

  /** A line emits a record exactly when it is a URL line and an `#EXTINF:`
      line has been read since the last URL line; otherwise the output is
      unchanged. */
  lemma Emits(ls: seq<Line>, l: Line)
    requires AllProper(ls + [l])
    ensures |Fold(ls + [l]).channels| == |Fold(ls).channels| + 1
            <==> l.AddressLine? && EntryPending(ls)
    ensures !(l.AddressLine? && EntryPending(ls)) ==> Fold(ls + [l]).channels == Fold(ls).channels
  {
    assert AllProper(ls) by {
      forall i | 0 <= i < |ls| ensures Proper(ls[i]) {
        assert ls[i] == (ls + [l])[i];
      }
    }
    assert (ls + [l])[|ls|] == l;
    FoldSnoc(ls, l);
    PendingTitle(ls);
  }

  /** Blank lines and unrecognised `#` lines can be dropped anywhere without
      changing the outcome. */
  lemma {:induction false} IgnoredLine(before: seq<Line>, l: Line, after: seq<Line>)
    requires l.Blank? || l.Comment?
    ensures Fold(before + [l] + after) == Fold(before + after)
    decreases |after|
  {
    if after == [] {
      assert Fold(before + [l] + after) == Fold(before + [l]) by {
        assert before + [l] + after == before + [l];
      }
      assert Fold(before + after) == Fold(before) by {
        assert before + after == before;
      }
      FoldSnoc(before, l);
    } else {
      var init := after[..|after| - 1];
      var last := after[|after| - 1];
      IgnoredLine(before, l, init);
      assert Fold(before + [l] + after) == Step(Fold(before + [l] + init), last) by {
        assert before + [l] + after == (before + [l] + init) + [last];
        FoldSnoc(before + [l] + init, last);
      }
      assert Fold(before + after) == Step(Fold(before + init), last) by {
        assert before + after == (before + init) + [last];
        FoldSnoc(before + init, last);
      }
    }
  }

  function Flatten(pairs: seq<(Line, Line)>): (ls: seq<Line>)
    ensures |ls| == 2 * |pairs|
  {
    if pairs == [] then []
    else Flatten(pairs[..|pairs| - 1]) + [pairs[|pairs| - 1].0, pairs[|pairs| - 1].1]
  }

  /** Each pair is an `#EXTINF:` line with a title and a URL line. */
  predicate EntryPairsProper(pairs: seq<(Line, Line)>)
  {
    forall i :: 0 <= i < |pairs| ==>
      && pairs[i].0.EntryLine? && pairs[i].0.title != []
      && pairs[i].1.AddressLine? && pairs[i].1.url != []
  }

  lemma EntryPairsProperInit(pairs: seq<(Line, Line)>)
    requires pairs != [] && EntryPairsProper(pairs)
    ensures EntryPairsProper(pairs[..|pairs| - 1])
  {
    var init := pairs[..|pairs| - 1];
    forall i | 0 <= i < |init| ensures init[i] == pairs[i] { }
  }

  /** The two lines of the last pair: the title becomes pending, then the
      URL emits one record carrying both and clears the title. */
  lemma FoldPairSnoc(xs: seq<Line>, p: (Line, Line))
    requires p.0.EntryLine? && p.0.title != [] && p.1.AddressLine? && p.1.url != []
    ensures |Fold(xs + [p.0, p.1]).channels| == |Fold(xs).channels| + 1
    ensures Fold(xs + [p.0, p.1]).channels[..|Fold(xs).channels|] == Fold(xs).channels
    ensures Fold(xs + [p.0, p.1]).channels[|Fold(xs).channels|].title == p.0.title
    ensures Fold(xs + [p.0, p.1]).channels[|Fold(xs).channels|].videoUrl == [p.1.url]
    ensures Fold(xs + [p.0, p.1]).title == []
  {
    assert xs + [p.0, p.1] == (xs + [p.0]) + [p.1];
    FoldSnoc(xs, p.0);
    FoldSnoc(xs + [p.0], p.1);
  }

  /** N `(#EXTINF, URL)` pairs leave N records and no pending title. */
  lemma {:induction false} EntryPairsCount(pairs: seq<(Line, Line)>)
    requires EntryPairsProper(pairs)
    ensures |Fold(Flatten(pairs)).channels| == |pairs|
    ensures Fold(Flatten(pairs)).title == []
    decreases |pairs|
  {
    if pairs != [] {
      var init := pairs[..|pairs| - 1];
      EntryPairsProperInit(pairs);
      EntryPairsCount(init);
      FoldPairSnoc(Flatten(init), pairs[|pairs| - 1]);
    }
  }

  /** The `i`-th record carries the `i`-th pair's title and URL. */
  lemma {:induction false} EntryPairsAt(pairs: seq<(Line, Line)>, i: nat)
    requires EntryPairsProper(pairs) && i < |pairs|
    ensures |Fold(Flatten(pairs)).channels| == |pairs|
    ensures Fold(Flatten(pairs)).channels[i].title == pairs[i].0.title
    ensures Fold(Flatten(pairs)).channels[i].videoUrl == [pairs[i].1.url]
    decreases |pairs|
  {
    var init := pairs[..|pairs| - 1];
    var p := pairs[|pairs| - 1];
    var xs := Flatten(init);
    EntryPairsProperInit(pairs);
    EntryPairsCount(init);
    var all := Fold(Flatten(pairs)).channels;
    assert all == Fold(xs + [p.0, p.1]).channels by {
      assert Flatten(pairs) == xs + [p.0, p.1];
    }
    FoldPairSnoc(xs, p);
    if i < |init| {
      assert all[i] == Fold(xs).channels[i] by {
        assert all[i] == all[..|init|][i];
      }
      EntryPairsAt(init, i);
      assert pairs[i] == init[i];
    }
  }

  /** N `(#EXTINF, URL)` pairs give N records with ids 10000 .. 10000 + N - 1,
      in input order, each with its own pair's title and URL. */
  lemma EntryPairs(pairs: seq<(Line, Line)>)
    requires EntryPairsProper(pairs)
    ensures |Fold(Flatten(pairs)).channels| == |pairs|
    ensures Fold(Flatten(pairs)).title == []
    ensures forall i :: 0 <= i < |pairs| ==>
              && Fold(Flatten(pairs)).channels[i].id == FirstId + i
              && Fold(Flatten(pairs)).channels[i].title == pairs[i].0.title
              && Fold(Flatten(pairs)).channels[i].videoUrl == [pairs[i].1.url]
  {
    EntryPairsCount(pairs);
    forall i | 0 <= i < |pairs|
      ensures && Fold(Flatten(pairs)).channels[i].title == pairs[i].0.title
              && Fold(Flatten(pairs)).channels[i].videoUrl == [pairs[i].1.url]
    {
      EntryPairsAt(pairs, i);
    }
  }

  // ---------------------------------------------------------------------
  // The same properties on raw lines
  // ---------------------------------------------------------------------

  lemma ClassifiedAllProper(lines: seq<string>)
    ensures AllProper(ClassifyAll(lines))
  {
    forall i | 0 <= i < |lines| ensures Proper(ClassifyAll(lines)[i]) {
      ClassifyAllAt(lines, i);
    }
  }

  /** A raw line emits a record exactly when it is a URL line and an
      `#EXTINF:` line has been read since the last URL line. */
  lemma EmitsOnLine(lines: seq<string>, line: string)
    ensures |ParseLines(lines + [line])| == |ParseLines(lines)| + 1
            <==> Classify(line).AddressLine? && EntryPending(ClassifyAll(lines))
    ensures !(Classify(line).AddressLine? && EntryPending(ClassifyAll(lines)))
            ==> ParseLines(lines + [line]) == ParseLines(lines)
  {
    ClassifyAllSnoc(lines, line);
    ClassifiedAllProper(lines + [line]);
    Emits(ClassifyAll(lines), Classify(line));
  }

  /** Reading more lines never changes the records already emitted. */
  lemma ParsePrefix(lines: seq<string>, k: nat)
    requires k <= |lines|
    ensures |ParseLines(lines[..k])| <= |ParseLines(lines)|
    ensures ParseLines(lines)[..|ParseLines(lines[..k])|] == ParseLines(lines[..k])
  {
    ClassifyAllPrefix(lines, k);
    FoldPrefix(ClassifyAll(lines), k);
  }
}
