# nhttp request preamble parser, modelled in Dafny

This project models the request-preamble parser of nhttp, a small HTTP
server written in Rust (`src/http_base.rs`). The parser reads the request
line and the header lines from a buffered connection and builds a
`Request` with its method, path, version, header map and the still-unread
body. The model has these parts:

- **`wrappers.dfy`, module `Wrappers`.** `Option` and `Result`.
- **`text.dfy`, module `Text`.** The string operations the parser uses:
  - `Trim`, as in `str::trim`;
  - `SplitWs`, as in `str::split(char::is_whitespace)`. It splits at every single whitespace character, so two adjacent spaces give an empty field;
  - `SplitOnceColon`, as in `splitn(2, ':')`.

  It also holds the round-trip lemmas that give these functions meaning.
- **`method.dfy`, module `HttpMethod`.** The `Method` enum, its `Display` text (`Show`) and the classification of the first token of the request line (`MethodOf`).
- **`reader.dfy`, module `LineReader`.** The buffered line reader. `Reader` is a class whose cursor `pos` moves through the data the peer sends. Its method `ReadLineRet` is `read_line_ret`: it reads up to and including the next `'\n'`, or to the end of the data, and trims the line at both ends.
  - At a clean end of data it yields the empty line.
  - When the connection fails instead, which is the `reset` flag, a read that finds no line feed before the end of the data yields `None`.

  The pure function `NextLine` states what one read yields and where the cursor goes.
- **`request.dfy`, module `RequestParser`.** `Request.Create` is the parser itself: a method that reads from a `Reader`. It keeps the three `next()` calls on the split iterator, and the `while` loop that stores header lines into a map.
  - It is proved equal to the pure function `Parse`, which `HeaderLines`, `HeaderEnd`, `Assemble`, `SplitHeader`, `Insert` and `InsertAll` define.
  - `Describe` is `Request`'s `Display` line.
- **`properties.dfy`, module `RequestProperties`.** What the parser promises:
  - the last header line naming a key wins;
  - the body is never read;
  - the request line alone decides success and gives the method, path and version;
  - every failure case;
  - the continuation branch can never run;
  - the display line splits back into its words;
  - concrete examples.

Whitespace is the ASCII set: space, tab, line feed, carriage return,
vertical tab and form feed. `'\n'` ends a line. Strings are sequences of
characters. The body is represented by the position where it starts, the
`body` field.

### The continuation branch never runs

The header loop has a branch for folded header lines
(`src/http_base.rs:118-124`). It is written to append a line that starts
with a space or a tab to the value of the previous header. It can never
run:

- Every line is trimmed as soon as it is read (`src/http_base.rs:69`), so a non-empty line never starts with a space or a tab.
- The key the branch would append to, `prev`, is set once to `""` and never updated (`src/http_base.rs:112`).

So `X-Long: ab` followed by ` cd` does not give `X-Long` the value
`abcd`. ` cd` is read as `cd` and stored as its own header, with the empty
value, and `X-Long` keeps `ab`. `HeaderLines`, `NoContinuationLine`,
`FoldedLineIsOwnHeader`, `FoldedPairLines` and `FoldedPairHeaders` state
this. `Create` still contains the continuation branch as written.

## Model

| member | source | states |
|---|---|---|
| HttpMethod.MethodOf | src/http_base.rs:85-90 | Displaying the classified token gives the token back. The result is `Other` exactly when the token is not `GET`, `OPTIONS` or `HEAD`, compared case-sensitively. A recognised verb never becomes `Other`. |
| HttpMethod.Show | src/http_base.rs:14-25 | A method parsing can produce displays as `GET`, `OPTIONS` or `HEAD` exactly when it is one of those three variants. `MethodOf` and `MethodOfShow` make classification and display inverse to each other. |
| HttpMethod.MethodOfShow | src/http_base.rs:14-25 | Classifying the display text of any method that parsing can produce gives that method back. |
| Text.Trim | src/http_base.rs:69 | The trimmed line begins and ends with a non-whitespace character, or is empty. |
| Text.TrimMargins | src/http_base.rs:69 | The trimmed line is an infix of the line, and only whitespace lies before and after it. |
| Text.TrimUnique | src/http_base.rs:69 | Any infix that has only whitespace around it and no whitespace at its own ends is the trimmed line. |
| Text.TrimOfTrimmed | src/http_base.rs:69 | Trimming a line with no whitespace at either end changes nothing, so trimming twice is trimming once. |
| Text.TrimAllWhitespace | src/http_base.rs:69 | A line made only of whitespace trims to the empty string. |
| Text.SplitWs | src/http_base.rs:82 | Splitting always yields at least one field, and no field contains whitespace. |
| Text.SplitWsInterleave | src/http_base.rs:82 | Splitting loses nothing: there is one more field than separators, and putting the separators between the fields gives back the line. |
| Text.InterleaveSplitWs | src/http_base.rs:82 | The other round trip: fields without whitespace, joined by single whitespace characters, split back into exactly those fields. |
| Text.SplitWsNoWhitespacePrefix | src/http_base.rs:82 | A prefix with no whitespace joins the first field, and the other fields are unchanged. |
| Text.SplitOnceColon | src/http_base.rs:126-127 | The key never contains ':'. Without a colon the key is the whole line and there is no rest. Otherwise the line is the key, a colon and the rest. |
| LineReader.LineEnd | src/http_base.rs:68 | A read ends just after the first line feed at or after the cursor, or at the end of the data, and never before the cursor. No line feed precedes the one that ends the line. |
| LineReader.NextLine | src/http_base.rs:64-73 | A line that is read is trimmed. The cursor stays within the data, and a non-empty line moves it forward. At the end of the data a read yields the empty line on a clean close and `None` on a failing connection. `None` occurs only when the connection fails and the read reached the end of the data. |
| LineReader.Reader.ReadLineRet | src/http_base.rs:64-73 | The line returned and the new cursor are exactly what `NextLine` gives for the old cursor. A returned line has no whitespace at either end. At the end of cleanly closed data the result is `Some("")`, not `None`. |
| RequestParser.Request.Create | src/http_base.rs:76-149 | The parser's result equals `Parse` of the data from the reader's cursor. On success the reader's cursor ends where the body starts, and on failure just after the request line. |
| RequestParser.Parse | src/http_base.rs:76-149 | What the parser yields, as a function of the data. A request's body starts after its request line and within the data. `RequestLineFields`, `OnlyRequestLineFails`, `ParseIgnoresBody` and `BodyAtLineStart` state what it promises. |
| RequestParser.Assemble | src/http_base.rs:81-108 | A request line builds a request exactly when it splits into at least three fields. The method is one parsing can produce. The path and the version contain no whitespace. The header map's keys are exactly the keys the header lines name, and the body position is the one given. |
| RequestParser.StartsWithSpaceOrTab | src/http_base.rs:118 | A line that starts with a space or a tab is never a trimmed line, so no line the reader returns passes this test. |
| RequestParser.AppendToPrevious | src/http_base.rs:119-124 | When the previous key is present, its value gets the line appended. Otherwise nothing changes. The set of keys and every other key's value stay unchanged. |
| RequestParser.SplitHeader | src/http_base.rs:126-134 | The key is the text before the first colon, kept as it is. The value is the rest after that colon, trimmed. A line without a colon gives the whole line as key and the empty value. |
| RequestParser.Insert | src/http_base.rs:128-134 | Storing a header line adds its key. The key takes the new value, replacing any old one, and every other key keeps its value. |
| RequestParser.InsertAll | src/http_base.rs:114-138 | Storing header lines in order leaves the old keys and adds exactly the keys the lines name. `InsertAllLast` and `InsertAllUnnamed` give each key's value. |
| RequestProperties.InsertAllUnnamed | src/http_base.rs:114-138 | A key that no header line names keeps its presence and value in the map. |
| RequestProperties.InsertAllLast | src/http_base.rs:114-138 | A key takes the value of the last header line naming it. |
| RequestProperties.SplitHeaderOf | src/http_base.rs:126-134 | A header line `k:v`, where `k` has no colon, has key `k` exactly, including any spaces before the colon, and value `v` trimmed. |
| RequestProperties.LineEndShared | src/http_base.rs:68 | Where a terminated line ends depends only on the data up to its line feed. |
| RequestProperties.NextLineShared | src/http_base.rs:64-73 | A terminated line reads the same from any data that agrees up to its line feed, however the connection ends. |
| RequestProperties.HeadersIgnoreRest | src/http_base.rs:114-116 | When a blank line ends the header section before the end of the data, nothing after that line is read. Any data that agrees up to it gives the same header lines and the same body position. |
| RequestProperties.ParseIgnoresBody | src/http_base.rs:114-116 | A successful parse that stopped before the end of the data gives the same request for any data that agrees up to the body. |
| RequestProperties.OnlyRequestLineFails | src/http_base.rs:81-138 | Only the request line can make parsing fail. Two streams that share a complete first line both succeed or both fail, with the same method, path and version. No header content causes an error. |
| RequestProperties.BlankRequestLineFails | src/http_base.rs:81-108 | A first line of only whitespace fails. When the read yields a line, it is the empty line, whose one field leaves the path missing. Otherwise the connection failed and the read yielded `None`. Either way the parse fails. |
| RequestProperties.EmptyInputFails | src/http_base.rs:81-108 | An empty stream fails. On a clean close the read yields the empty line, and its single field leaves the path missing. On a failing connection the read yields `None`. Either way the parse fails. |
| RequestProperties.TrimAppendWhitespace | src/http_base.rs:69 | A line terminator, or any whitespace appended to a line, disappears in the trim. |
| RequestProperties.SingleTokenFails | src/http_base.rs:81-108 | A request line of one token fails. Ended by CR LF, it is read as the token and the path is missing. Ended by the end of the data, it is read as the token on a clean close, so the path is missing, and as `None` on a failing connection. Either way the parse fails. |
| RequestProperties.LineEndAt | src/http_base.rs:68 | A read stops just after the first line feed. |
| RequestProperties.CrlfLineEnd | src/http_base.rs:68 | A line with no line feed of its own, followed by CR LF, is read through the line feed. |
| RequestProperties.ReadsCrlfLine | src/http_base.rs:64-73 | Reading a line that ends with CR LF yields the line trimmed and puts the cursor after the line feed. |
| RequestProperties.BlankLineEnds | src/http_base.rs:114-116 | A blank CR LF line ends the header section with no headers, and the body starts right after its line feed. |
| RequestProperties.HeaderLineStep | src/http_base.rs:114-134 | A non-blank header line ended by CR LF is stored trimmed. The header section goes on right after its line feed and ends where it would end from there. |
| RequestProperties.BodyAtLineStart | src/http_base.rs:114-116 | The body of a parsed request starts just after a line feed, unless it starts at the end of the data. |
| RequestParser.HeaderLines | src/http_base.rs:114-138 | The lines the header loop stores, in order, up to the first blank line or failed read. Every stored line is non-empty and has no whitespace at either end. `HeaderLineStep`, `BlankLineEnds` and `HeadersIgnoreRest` say how it reads the data. |
| RequestParser.HeaderEnd | src/http_base.rs:114-116 | Where the header loop leaves the cursor, and so where the body starts: never before where the loop began, within the data, and just after a line feed unless it is the end of the data. |
| RequestProperties.NoContinuationLine | src/http_base.rs:118-124 | No stored line starts with a space or a tab, so the branch that would append a continuation line to the previous header never runs. |
| RequestProperties.NoHeaders | src/http_base.rs:110-148 | A request line ended by CR LF, then a blank line, gives the request built from the trimmed request line with an empty header map. The body starts right after the blank line, whatever follows. |
| RequestProperties.RequestLineFields | src/http_base.rs:81-105 | Parsing succeeds exactly when a line could be read and it splits into at least three fields. Then the first three fields are the method as displayed, the path and the version, and further fields are ignored. |
| RequestProperties.ThreeFields | src/http_base.rs:82 | Three tokens without whitespace, joined by single spaces, form a trimmed line with no line feed that splits back into the three tokens. |
| RequestProperties.ThreeTokens | src/http_base.rs:76-148 | `M P V`, then CR LF, then a blank line, parses to method `MethodOf(M)`, path `P`, version `V` and no headers. The body starts right after the blank line. |
| RequestProperties.ConsecutiveWhitespace | src/http_base.rs:82 | Two adjacent spaces produce an empty field: `GET  /` splits into `GET`, the empty field and `/`. |
| RequestProperties.FoldedLineIsOwnHeader | src/http_base.rs:112-134 | When the data holds ` cd` ended by CR LF, the header loop reads it as the line `cd`, and the header loop goes on after it. The line `cd` stores the key `cd` with the empty value. |
| RequestProperties.HeaderBeforeFold | src/http_base.rs:126-134 | The line `X-Long: ab` stores key `X-Long` with value `ab`. |
| RequestProperties.FoldedPairLines | src/http_base.rs:112-124 | `X-Long: ab`, CR LF, then ` cd`, CR LF, are read as the two header lines `X-Long: ab` and `cd`, and the header section goes on after them. |
| RequestProperties.FoldedPairHeaders | src/http_base.rs:118-134 | Storing those two lines sets `X-Long` to `ab`, with nothing appended, and sets `cd` to the empty value. |
| RequestParser.Describe | src/http_base.rs:151-155 | The display line is 25 characters of fixed text around the method as displayed, the path and the version. `DescribeInterleaved` gives the exact format, and `DescribeSplits` shows it splits back into its words. |
| RequestProperties.DescribeInterleaved | src/http_base.rs:151-155 | The display line is the six words `Method:`, the method, `Path:`, the path, `Version:` and the version, joined by single spaces. |
| RequestProperties.DescribeSplits | src/http_base.rs:151-155 | When method, path and version contain no whitespace, the display line splits back into exactly those six words. |
| RequestProperties.ParsedDescribeSplits | src/http_base.rs:151-155 | Every request the parser produces displays as those six words, with its own method, path and version among them. |

## Left out

- `handle_client` in `src/http_base.rs` is not modelled: it is I/O plumbing. It clones the socket, prints the request or the error, and writes a fixed response.
- `src/main.rs` is not part of this model: it binds the listener and runs the accept loop, both operating-system socket calls.
- The `body: Bytes<TcpStream>` field is a lazy socket handle. It is represented only by the position where the body starts. `into_inner()` drops any bytes the `BufReader` had already buffered past the preamble; that loss is not modelled.
- I/O errors are modelled only as a connection that fails, rather than closes, after its last character (the `reset` flag). A mid-stream error, invalid UTF-8, which makes `read_line` return an error, and blocking reads are not modelled. The data is a sequence of characters.
- Rust's `trim` and `char::is_whitespace` cover all of Unicode; the model uses the fixed ASCII whitespace set above.
- The `Display` and `error::Error` implementations of `RequestParseError` are not modelled, since they are fixed text. A single error value stands for them.
- `HashMap` hashing and iteration order are not modelled; the header map is a Dafny `map`.
- `Method`'s and `Request`'s `Display` are modelled as the string they produce (`Show`, `Describe`). Writing to the formatter and its error result are not modelled.
- A preamble with several header lines is not stated as one closed formula over its text.
  - `NoHeaders` and `ThreeTokens` cover a request line followed by the blank line.
  - `ReadsCrlfLine` and `BlankLineEnds` cover single reads.
  - `HeaderLineStep` covers one header line, and `FoldedPairLines` a two-line example.
  - `HeaderLines`, `InsertAllLast`, `InsertAllUnnamed` and `HeadersIgnoreRest` cover the header section as `HeaderLines` reads it.
