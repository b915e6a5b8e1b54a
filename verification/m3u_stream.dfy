/** The two entry points of the parser: `parseM3U`, which reads a stream
    line by line and keeps what it has when a read fails, and
    `parseM3UFromUrl`, which gives up with an empty list when the stream
    cannot be opened. */
module Stream {
  import opened Lines
  import opened Parser
  import opened Reading
  import opened LoopBody

  /** `parseM3U`: the read loop, stopping at the end of the stream or at the
      first read failure (the `IOException` is caught), and returning the
      records built so far. */
  method ParseM3U(input: seq<ReadStep>) returns (tvList: seq<TV>)
    ensures tvList == ParseLines(LinesRead(input))
  {
    var st := Initial;
    ghost var consumed: seq<string> := [];
    var n := 0;
    while n < |input|
      invariant |consumed| == n && ReadsFirst(input, consumed)
      invariant st == Fold(ClassifyAll(consumed))
    {
      if input[n] == ReadError {
        break;
      }
      var line := input[n].text;
      st := HandleLineState(st, line);
      ReadsFirstSnoc(input, consumed, line);
      ClassifyAllSnoc(consumed, line);
      FoldSnoc(ClassifyAll(consumed), Classify(line));
      consumed := consumed + [line];
      n := n + 1;
    }
    LinesReadUpTo(input, consumed);
    tvList := st.channels;
  }

  /** `parseM3UFromUrl`: an empty list when the stream cannot be opened,
      otherwise whatever `parseM3U` returns for it. */
  method ParseM3UFromUrl(opening: Opening) returns (tvList: seq<TV>)
    ensures opening.OpenFailed? ==> tvList == []
    ensures opening.Opened? ==> tvList == ParseLines(LinesRead(opening.input))
  {
    match opening
    case OpenFailed =>
      tvList := [];
    case Opened(input) =>
      tvList := ParseM3U(input);
  }
}
