/** The input side of `parseM3U`: what successive `readLine` calls on the
    decoded stream deliver, and the lines obtained before the first
    failure. */
module Reading {

  /** One call of `readLine` on the decoded stream: a line, or an
      `IOException`. End of stream is the end of the sequence. */
  datatype ReadStep = Read(text: string) | ReadError

  /** Opening the URL's stream: it either succeeds or throws. */
  datatype Opening = Opened(input: seq<ReadStep>) | OpenFailed

  /** The lines read before the first failure, or all of them. */
  function LinesRead(input: seq<ReadStep>): (r: seq<string>)
    ensures |r| <= |input|
    ensures forall i :: 0 <= i < |r| ==> input[i] == Read(r[i])
    ensures |r| == |input| || input[|r|] == ReadError
  {
    if input == [] || input[0] == ReadError then []
    else [input[0].text] + LinesRead(input[1..])
  }

  function AsReads(lines: seq<string>): (r: seq<ReadStep>)
    ensures |r| == |lines|
    ensures forall i :: 0 <= i < |r| ==> r[i] == Read(lines[i])
  {
    seq(|lines|, i requires 0 <= i < |lines| => Read(lines[i]))
  }

  /** The first reads of `input` delivered the lines `consumed`. */
  predicate ReadsFirst(input: seq<ReadStep>, consumed: seq<string>)
  {
    |consumed| <= |input| && forall i :: 0 <= i < |consumed| ==> input[i] == Read(consumed[i])
  }

  lemma ReadsFirstSnoc(input: seq<ReadStep>, consumed: seq<string>, line: string)
    requires ReadsFirst(input, consumed)
    requires |consumed| < |input| && input[|consumed|] == Read(line)
    ensures ReadsFirst(input, consumed + [line])
  {
  }

  /** `LinesRead` stops exactly at the first failure. */
  lemma LinesReadUpTo(input: seq<ReadStep>, consumed: seq<string>)
    requires ReadsFirst(input, consumed)
    requires |consumed| == |input| || input[|consumed|] == ReadError
    ensures LinesRead(input) == consumed
  {
    assert |LinesRead(input)| == |consumed|;
  }

  /** A read that fails after the lines `lines` yields what those lines
      alone yield, whatever the stream would have held afterwards. */
  lemma FailureKeepsLinesRead(lines: seq<string>, rest: seq<ReadStep>)
    ensures LinesRead(AsReads(lines) + [ReadError] + rest) == lines
  {
    var input := AsReads(lines) + [ReadError] + rest;
    assert input[|lines|] == ReadError;
    LinesReadUpTo(input, lines);
  }
}
