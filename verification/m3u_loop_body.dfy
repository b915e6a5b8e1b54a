/** The body of the read loop of `parseM3U`, written on the loop's local
    variables in the order the source tests the line. */
module LoopBody {
  import opened Text
  import opened Categories
  import opened Lines
  import opened Parser

  /** The body of the read loop of `parseM3U` for one line, on the loop's
      locals: it does what `Step` does with the classified line. */
  method HandleLine(currentTitle: string, currentUrl: string, currentGroup: string,
                    currentIndex: int, tvList: seq<TV>, line: string)
    returns (title': string, url': string, group': string, index': int, tvList': seq<TV>)
    ensures ParserState(title', url', group', index', tvList')
            == Step(ParserState(currentTitle, currentUrl, currentGroup, currentIndex, tvList), Classify(line))
  {
    title', url', group', index', tvList' := currentTitle, currentUrl, currentGroup, currentIndex, tvList;
    var trimmedLine := Trim(line);
    if trimmedLine == [] {
      assert Classify(line) == Blank;
      return;
    }
    if StartsWith(trimmedLine, GroupTag) {
      group' := GroupFromExtgrp(trimmedLine);
      assert Classify(line) == GroupLine(group');
    } else if StartsWith(trimmedLine, EntryTag) {
      title' := TitleFromExtinf(trimmedLine);
      var groupFromExtinf := GroupFromTitleAttribute(trimmedLine);
      assert Classify(line) == EntryLine(title', groupFromExtinf);
      if groupFromExtinf != [] {
        group' := groupFromExtinf;
      }
    } else if !StartsWith(trimmedLine, "#") {
      assert Classify(line) == AddressLine(trimmedLine);
      title', url', index', tvList' := HandleAddress(title', url', group', index', tvList', trimmedLine);
    } else {
      assert Classify(line) == Comment;
    }
  }

  /** The branch of the loop body for a line that is neither blank nor a
      tag: it becomes the pending URL, and a record is emitted when a title
      is pending too. */
  method HandleAddress(currentTitle: string, currentUrl: string, currentGroup: string,
                       currentIndex: int, tvList: seq<TV>, address: TrimmedString)
    returns (title': string, url': string, index': int, tvList': seq<TV>)
    ensures ParserState(title', url', currentGroup, index', tvList')
            == Step(ParserState(currentTitle, currentUrl, currentGroup, currentIndex, tvList), AddressLine(address))
  {
    title', url', index', tvList' := currentTitle, address, currentIndex, tvList;
    if title' != [] && url' != [] {
      var channelCategory := if currentGroup != [] then currentGroup else CategoryFromTitle(title');
      var tv := TV(index', title', title', [url'], channelCategory, YProto, "", false, false);
      tvList' := tvList' + [tv];
      index' := index' + 1;
      title' := "";
      url' := "";
    }
  }

  /** `HandleLine` on the loop's locals packed into one state. */
  method HandleLineState(st: ParserState, line: string) returns (st': ParserState)
    ensures st' == Step(st, Classify(line))
  {
    var title, url, group, index, channels := HandleLine(st.title, st.url, st.group, st.nextId, st.channels, line);
    st' := ParserState(title, url, group, index, channels);
  }
}
