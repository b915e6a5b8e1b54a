# M3U playlist parser

This project models the playlist importer of the my-tv Android app, the
`M3UParser` object. It also proves properties of the model.

The parser reads an M3U playlist line by line and turns it into channel
records (`TV`). Every line is trimmed first. Then one of five things happens:

- A blank line is skipped.
- `#EXTGRP:<group>` sets the pending group.
- `#EXTINF:...,<title>` sets the pending title. A non-empty
  `group-title="..."` attribute on it replaces the pending group.
- Any other `#` line is skipped.
- Anything else is a stream URL. When a title is pending, the URL emits one
  record, and the pending title and URL are cleared.

A record gets:

- the next id, counting from 10000;
- the title as both title and alias;
- the URL as its only video URL;
- the pending group as its category, or, when no group is pending, the
  category of the first entry of an ordered prefix table that recognises
  the title, else `用户频道`.

The pending group is not cleared when a record is emitted, so it carries
over to later entries. Only a later group replaces it; an `#EXTGRP:` line
with nothing but whitespace after the tag sets it to empty, and the
category heuristic applies again.
When a read fails, the parser returns the records built so far. When the
URL's stream cannot be opened, `parseM3UFromUrl` returns an empty list.

Modules:

- `Text` (text.dfy): Kotlin `trim()`, `startsWith`, `lastIndexOf`,
  `indexOf` and Java `String.replace`, each on `string`. `Trim` is given a
  complete specification: `TrimUnique` shows that a trimmed string with only
  whitespace around it is the result of trimming.
- `Categories` (categories.dfy): the ordered category table and
  `extractCategoryFromTitle`.
- `Lines` (m3u_lines.dfy): the `Line` datatype, which records the branch a
  trimmed line takes and the values the helpers extract from it. It also
  holds the helpers `parseTitleFromEXTINF`, `parseGroupFromEXTGRP` and
  `parseGroupFromTitleAttribute`.
- `Parser` (m3u_parser.dfy): `Step`, which is one loop iteration on a
  classified line, and the left fold `Fold`. It also holds the record
  invariants and the lemmas relating input to output.
- `LoopBody` (m3u_loop_body.dfy): the loop body written on the source's
  local variables, branch by branch, proved equal to `Step`.
- `Reading` (m3u_reading.dfy): the results of successive `readLine` calls,
  a line or an `IOException`, and the lines obtained before the first
  failure.
- `Stream` (m3u_stream.dfy): `parseM3U` as a loop over those results, and
  `parseM3UFromUrl`.
- `Examples` (m3u_examples.dfy): small playlists and what they produce.

Whitespace: Kotlin's `trim()` drops characters for which `Char.isWhitespace()`
holds. On the JVM that is `Character.isWhitespace(c) || Character.isSpaceChar(c)`.
`Text.IsWhitespace` enumerates that set:

- U+0009..U+000D;
- U+001C..U+0020;
- U+00A0, U+1680, U+2000..U+200A, U+2028, U+2029, U+202F, U+205F and U+3000.

Regular expression: the pattern `group-title="([^"]+)"` is modelled
directly. `AttributeAt` says where the pattern matches: the key, then at
least one non-quote character, and later a quote. `FirstAttribute` is the
leftmost match, as `Matcher.find()` gives. `CaptureAt` is the captured
group.

`String.replace("#EXTINF:", "")` is modelled as `RemoveAll`, following
Java's algorithm: find the leftmost occurrence (`IndexOfText`), keep the
text before it, skip it, and continue on the text after it. Occurrences are
thus removed left to right without overlapping, and text that a removal
brings together is not searched again.

Example: the raw line `#EXTINF:-1 group-title="News",CNN` followed by the
URL line `http://cnn` gives one channel with id 10000, title `CNN`, URL
`http://cnn` and category `News` (`Examples.SamplePlaylist`).

## Model

| member | source | states |
|---|---|---|
| Text.Trim | app/src/main/java/com/lizongying/mytv/M3UParser.kt:29 | the trimmed line starts and ends with a non-whitespace character and is no longer than the line |
| Text.TrimPadded | app/src/main/java/com/lizongying/mytv/M3UParser.kt:29 | trimming only removes whitespace from the two ends: the result sits inside the line with only whitespace around it |
| Text.TrimUnique | app/src/main/java/com/lizongying/mytv/M3UParser.kt:29 | any trimmed string that the line holds with only whitespace around it is the trim of that line, so trimming is fully specified |
| Text.TrimIdempotent | app/src/main/java/com/lizongying/mytv/M3UParser.kt:29 | trimming an already trimmed line changes nothing |
| Text.TrimEmptyIff | app/src/main/java/com/lizongying/mytv/M3UParser.kt:29-30 | a line is skipped as empty exactly when it consists of whitespace only |
| Text.LastIndexOfIsLast | app/src/main/java/com/lizongying/mytv/M3UParser.kt:96 | no comma occurs after the position `lastIndexOf` reports |
| Text.LastIndexOfAbsent | app/src/main/java/com/lizongying/mytv/M3UParser.kt:96 | `lastIndexOf` reports -1 exactly when the line has no comma |
| Text.TrimTrimmed | app/src/main/java/com/lizongying/mytv/M3UParser.kt:29 | a string that starts and ends with a non-whitespace character is its own trim |
| Text.IndexOfText | app/src/main/java/com/lizongying/mytv/M3UParser.kt:102 | the search reports an occurrence of the tag at or after the start position with none between the two, and reports none only when no occurrence follows the start position |
| Text.IndexOfTextLeftmost | app/src/main/java/com/lizongying/mytv/M3UParser.kt:102 | the leftmost occurrence at or after the start position is the one the search reports |
| Text.RemoveAll | app/src/main/java/com/lizongying/mytv/M3UParser.kt:102 | removing `#EXTINF:` never makes the line longer |
| Text.RemoveAllLeftmost | app/src/main/java/com/lizongying/mytv/M3UParser.kt:102 | every occurrence is removed, not only the first: for the leftmost occurrence, the result is the text before it followed by the removal applied to the text after it |
| Text.RemoveAllNone | app/src/main/java/com/lizongying/mytv/M3UParser.kt:102 | a line without `#EXTINF:` is left unchanged |
| Text.RemoveAllShorter | app/src/main/java/com/lizongying/mytv/M3UParser.kt:102 | a line containing `#EXTINF:` gets shorter |
| Text.RemoveAllChars | app/src/main/java/com/lizongying/mytv/M3UParser.kt:102 | every character of the result is a character of the line |
| Categories.CategoryFromTitle | app/src/main/java/com/lizongying/mytv/M3UParser.kt:132-160 | the category is never empty and is one of the table's categories or `用户频道`; it is `用户频道` exactly when no prefix of any entry starts the title, otherwise it is the category of the first entry, in table order, that has a prefix starting the title |
| Lines.TitleAfterLastComma | app/src/main/java/com/lizongying/mytv/M3UParser.kt:96-98 | when the line has a comma before its last character, the title is the trimmed text after the last comma, or `Unknown Channel` if that is empty |
| Lines.TitleWithoutComma | app/src/main/java/com/lizongying/mytv/M3UParser.kt:99-109 | when the line has no comma, the title is the line with every `#EXTINF:` removed, trimmed, or `Unknown Channel` if that is empty |
| Lines.TitleWithTrailingComma | app/src/main/java/com/lizongying/mytv/M3UParser.kt:97-109 | when the last comma is the final character, the same fallback title is used as for a line without a comma |
| Lines.TitleAfterFinalComma | app/src/main/java/com/lizongying/mytv/M3UParser.kt:96-98 | a line made of any text, a comma and a non-empty trimmed title without commas yields exactly that title |
| Lines.TitleFromExtinf | app/src/main/java/com/lizongying/mytv/M3UParser.kt:106-111 | the title extracted from an `#EXTINF:` line is never empty |
| Lines.GroupFromExtgrp | app/src/main/java/com/lizongying/mytv/M3UParser.kt:115-118 | the group is the text after the 8-character tag with only the surrounding whitespace removed |
| Lines.FirstAttribute | app/src/main/java/com/lizongying/mytv/M3UParser.kt:123-125 | the match found is the leftmost position where `group-title="…"` matches, and there is none when no position matches |
| Lines.CaptureAt | app/src/main/java/com/lizongying/mytv/M3UParser.kt:123-126 | the captured group is the non-empty, quote-free text right after `group-title="`, and it is followed by a quote |
| Lines.GroupFromTitleAttribute | app/src/main/java/com/lizongying/mytv/M3UParser.kt:121-129 | the attribute group is empty when the pattern matches nowhere, and otherwise the trimmed capture of the leftmost match; it never contains a quote |
| Lines.AttributeValue | app/src/main/java/com/lizongying/mytv/M3UParser.kt:121-129 | when the text before `group-title="v"` contains no `g`, so no match can start earlier, and `v` is non-empty, quote-free and trimmed, the attribute group is `v` |
| Lines.Classify | app/src/main/java/com/lizongying/mytv/M3UParser.kt:29-50 | a line is blank exactly when it is all whitespace; tag lines start with their tag after trimming, `#EXTGRP:` taking precedence; an entry always has a title; a URL is non-empty and does not start with `#` |
| Lines.CommentIff | app/src/main/java/com/lizongying/mytv/M3UParser.kt:30-48 | a line is skipped as a comment exactly when its trimmed text is non-empty, starts with `#` and starts with neither tag |
| Lines.AddressLineIff | app/src/main/java/com/lizongying/mytv/M3UParser.kt:29-50 | a line whose trimmed text is `url` is a URL line with URL `url` exactly when `url` is non-empty and does not start with `#` |
| Lines.AddressLinePadded | app/src/main/java/com/lizongying/mytv/M3UParser.kt:29-50 | the URL taken from a line is that line with only the surrounding whitespace removed |
| Parser.ChannelCategory | app/src/main/java/com/lizongying/mytv/M3UParser.kt:55-60 | a record's category is never empty; it is the pending group when there is one, and otherwise a category of the heuristic |
| Parser.Step | app/src/main/java/com/lizongying/mytv/M3UParser.kt:29-80 | one line appends at most one record and never changes earlier ones; it appends exactly when it is a non-empty URL and a title is pending; the new record has the next id, title and alias equal to the pending title, the URL as its only video URL and the pending group or heuristic category, and afterwards the title and URL are cleared while the group stays; blank and comment lines change nothing; the record invariant is kept |
| Parser.Fold | app/src/main/java/com/lizongying/mytv/M3UParser.kt:17-76 | after any sequence of lines, the next id is 10000 plus the number of records and every record is well formed |
| Parser.ParseLines | app/src/main/java/com/lizongying/mytv/M3UParser.kt:16-91 | the i-th record has id 10000 + i, its title equals its alias and is non-empty, it has exactly one video URL that is non-empty and trimmed, a non-empty category, the `Y_PROTO` program type, an empty pid and both token flags false; ids strictly increase |
| Parser.ClassifyAllPrefix | app/src/main/java/com/lizongying/mytv/M3UParser.kt:26-29 | each line is classified on its own: classifying a prefix of the input gives the prefix of the classification |
| Parser.FoldPrefix | app/src/main/java/com/lizongying/mytv/M3UParser.kt:74 | records are only appended: the records after a prefix of the lines are a prefix of the records after all of them |
| Parser.PendingTitle | app/src/main/java/com/lizongying/mytv/M3UParser.kt:41-79 | a title is pending exactly when an `#EXTINF:` line has been read since the last URL line |
| Parser.Emits | app/src/main/java/com/lizongying/mytv/M3UParser.kt:48-53 | a line adds a record exactly when it is a URL line and an `#EXTINF:` line has been read since the last URL line; otherwise the records are unchanged |
| Parser.IgnoredLine | app/src/main/java/com/lizongying/mytv/M3UParser.kt:30-48 | inserting a blank or comment line anywhere leaves the whole parser state unchanged |
| Parser.FoldPairSnoc | app/src/main/java/com/lizongying/mytv/M3UParser.kt:41-79 | an `#EXTINF:` line followed by a URL line adds exactly one record with that title and URL, keeps the earlier records and leaves no title pending |
| Parser.EntryPairsCount | app/src/main/java/com/lizongying/mytv/M3UParser.kt:63-79 | N consecutive title-and-URL pairs give N records and leave no title pending |
| Parser.EntryPairsAt | app/src/main/java/com/lizongying/mytv/M3UParser.kt:63-79 | the i-th record of such a playlist carries the i-th pair's title and URL |
| Parser.EntryPairs | app/src/main/java/com/lizongying/mytv/M3UParser.kt:63-79 | N title-and-URL pairs give N records in input order, the i-th with id 10000 + i and the i-th pair's title and URL |
| Parser.ClassifiedAllProper | app/src/main/java/com/lizongying/mytv/M3UParser.kt:41-50 | every classified input line with a title has a non-empty title, and every URL line has a non-empty URL |
| Parser.EmitsOnLine | app/src/main/java/com/lizongying/mytv/M3UParser.kt:26-80 | appending a raw line adds a record exactly when the line is a URL line and an `#EXTINF:` line has been read since the last URL line; otherwise the output is unchanged |
| Parser.ParsePrefix | app/src/main/java/com/lizongying/mytv/M3UParser.kt:74-90 | reading more lines never changes the records already emitted |
| Reading.LinesRead | app/src/main/java/com/lizongying/mytv/M3UParser.kt:26-84 | the lines obtained are the reads of the stream up to its end or up to the first failing read |
| Reading.LinesReadUpTo | app/src/main/java/com/lizongying/mytv/M3UParser.kt:26-84 | the lines obtained are exactly those read before the end of the stream or the first failure |
| Reading.FailureKeepsLinesRead | app/src/main/java/com/lizongying/mytv/M3UParser.kt:23-90 | a failure after some lines keeps exactly those lines, whatever would have followed |
| LoopBody.HandleLine | app/src/main/java/com/lizongying/mytv/M3UParser.kt:29-81 | the loop body, taking the source's branches in the source's order on its local variables, has the effect of `Step` on the classified line |
| LoopBody.HandleAddress | app/src/main/java/com/lizongying/mytv/M3UParser.kt:48-80 | the URL branch of the loop body has the effect of `Step` on that URL line |
| LoopBody.HandleLineState | app/src/main/java/com/lizongying/mytv/M3UParser.kt:29-81 | the loop body on the packed state is `Step` on the classified line |
| Stream.ParseM3U | app/src/main/java/com/lizongying/mytv/M3UParser.kt:16-91 | the read loop returns the fold of the lines read before the end or the first failure, so it returns the records built so far when a read fails |
| Stream.ParseM3UFromUrl | app/src/main/java/com/lizongying/mytv/M3UParser.kt:163-171 | a stream that cannot be opened gives the empty list; otherwise the result is what `parseM3U` returns for the stream |
| Examples.CctvIsCentral | app/src/main/java/com/lizongying/mytv/M3UParser.kt:134-156 | a title starting with `CCTV` gets the category `央视` |
| Examples.EmptyPlaylist | app/src/main/java/com/lizongying/mytv/M3UParser.kt:16-90 | an empty playlist gives no channels |
| Examples.GroupCarriesOver | app/src/main/java/com/lizongying/mytv/M3UParser.kt:20-79 | an `#EXTGRP:` group applies to every later entry, not only the next one, and ids count up from 10000 |
| Examples.AttributeGroupSticks | app/src/main/java/com/lizongying/mytv/M3UParser.kt:42-46 | a `group-title` attribute replaces the pending group, also for later entries without the attribute |
| Examples.UrlWithoutEntry | app/src/main/java/com/lizongying/mytv/M3UParser.kt:48-53 | a URL with no `#EXTINF:` line before it produces no record |
| Examples.SampleAttribute | app/src/main/java/com/lizongying/mytv/M3UParser.kt:121-129 | the attribute group of `#EXTINF:-1 group-title="News",CNN` is `News` |
| Examples.SampleTitle | app/src/main/java/com/lizongying/mytv/M3UParser.kt:94-111 | the title of that line is `CNN`, the text after its last comma |
| Examples.SampleEntryLine | app/src/main/java/com/lizongying/mytv/M3UParser.kt:29-47 | that raw line is read as an entry with title `CNN` and group `News` |
| Examples.SampleUrlLine | app/src/main/java/com/lizongying/mytv/M3UParser.kt:29-51 | the raw line `http://cnn` is read as that URL |
| Examples.EntryThenUrl | app/src/main/java/com/lizongying/mytv/M3UParser.kt:38-79 | an entry line with a non-empty attribute group followed by a URL line gives exactly one record, with id 10000, the entry's title, the URL and the attribute's group |
| Examples.SamplePlaylist | app/src/main/java/com/lizongying/mytv/M3UParser.kt:26-79 | the two raw lines `#EXTINF:-1 group-title="News",CNN` and `http://cnn` give the single channel 10000 `CNN` at `http://cnn` in category `News` |

## Left out

- Byte decoding and line splitting: `InputStreamReader` and `readLine` are
  not modelled. The input is the sequence of results of successive
  `readLine` calls (`Reading.ReadStep`).
- Logging (`Log.d`, `Log.w`, `Log.e`, `printStackTrace`) has no effect on
  the result and is left out.
- Opening the network URL is not modelled. Its outcome is a parameter
  (`Reading.Opening`).
- Exceptions other than `IOException` are left out. Such an exception would
  escape both functions.
- Ids are unbounded integers. The source's `Int` counter would wrap only
  after about 2^31 records, and that wrap-around is not modelled.
- Only the fields the parser sets are modelled. `models/TV.kt` and
  `models/ProgramType.kt` are not part of this model, and `ProgramType` is
  reduced to its one value used here.
- Lines.TitleFromExtinf: its own contract only says the title is non-empty.
  The full specification is split over the lemmas `TitleAfterLastComma`,
  `TitleWithoutComma` and `TitleWithTrailingComma`.
- Text.RemoveAll: its own contract only bounds the length. What it does
  is stated by the lemmas `RemoveAllLeftmost`, `RemoveAllNone`,
  `RemoveAllShorter` and `RemoveAllChars`.
- Lines.GroupFromExtgrp: requires at least 8 characters. The source calls
  it only on lines that start with `#EXTGRP:`; on a shorter line its
  `substring(8)` would throw.
- Parser.IgnoredLine is stated on classified lines. `Lines.CommentIff` and
  `Lines.Classify` say which raw lines classify as blank or comment.
- The settings screen, preferences, utilities and encryption code of the
  app are outside the parser and are not part of this model.
