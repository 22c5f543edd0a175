/**
 * The request preamble parser: the request line, then header lines up to
 * the first blank line. `Parse` states what a parse yields as a function of
 * the data on the connection; `Request.Create` is the parser itself,
 * reading from a `Reader`, and is proved to agree with `Parse`.
 */
module RequestParser {
  import opened Wrappers
  import opened Text
  import opened HttpMethod
  import opened LineReader

  /** The single error kind: the request line was missing or incomplete. */
  datatype ParseError = ParseError

  /**
   * A parsed request. `body` is where the unread body starts: the position
   * of the connection's cursor once the header section is over.
   */
  datatype Request = Request(
    requestMethod: Method,
    version: string,
    path: string,
    headers: map<string, string>,
    body: nat)
  {
    /** Builds a request from a reader, or fails when the request line is missing or short. */
    static method Create(reader: Reader) returns (r: Result<Request, ParseError>)
      requires reader.Valid()
      modifies reader
      ensures reader.Valid()
      ensures r == Parse(reader.input, reader.reset, old(reader.pos))
      ensures r.Success? ==> reader.pos == r.value.body
      ensures r.Failure? ==> reader.pos == NextLine(reader.input, reader.reset, old(reader.pos)).1
    {
      var requestMethod: Method;
      var path: string;
      var version: string;

      var req := reader.ReadLineRet();
      if req.Some? {
        ParseAfter(reader.input, reader.reset, old(reader.pos), req.value, reader.pos,
          HeaderLines(reader.input, reader.reset, reader.pos), HeaderEnd(reader.input, reader.reset, reader.pos));
        var fields := SplitWs(req.value);
        var taken := 0;  // how many fields the split iterator has yielded

        if taken < |fields| {
          requestMethod := MethodOf(fields[taken]);
          taken := taken + 1;
        } else {
          return Failure(ParseError);
        }

        if taken < |fields| {
          path := fields[taken];
          taken := taken + 1;
        } else {
          return Failure(ParseError);
        }

        if taken < |fields| {
          version := fields[taken];
          taken := taken + 1;
        } else {
          return Failure(ParseError);
        }
      } else {
        return Failure(ParseError);
      }

      var headers: map<string, string> := map[];
      var prev: string := "";
      ghost var start := reader.pos;

      while true
        invariant reader.Valid()
        invariant InsertAll(headers, HeaderLines(reader.input, reader.reset, reader.pos))
               == InsertAll(map[], HeaderLines(reader.input, reader.reset, start))
        invariant HeaderEnd(reader.input, reader.reset, reader.pos)
               == HeaderEnd(reader.input, reader.reset, start)
        decreases |reader.input| - reader.pos
      {
        ghost var before := reader.pos;
        var line := reader.ReadLineRet();
        if line.None? {
          assert HeaderLines(reader.input, reader.reset, before) == [];
          assert HeaderEnd(reader.input, reader.reset, before) == reader.pos;
          break;
        }
        var text := line.value;
        if text == "" {
          assert HeaderLines(reader.input, reader.reset, before) == [];
          assert HeaderEnd(reader.input, reader.reset, before) == reader.pos;
          break;
        }
        ghost var later := HeaderLines(reader.input, reader.reset, reader.pos);
        assert HeaderLines(reader.input, reader.reset, before) == [text] + later;
        assert ([text] + later)[1..] == later;
        if StartsWithSpaceOrTab(text) {
          headers := AppendToPrevious(headers, prev, text);
        } else {
          var (key, rest) := SplitOnceColon(text);
          var value := match rest case Some(v) => v case None => "";
          assert headers[key := Trim(value)] == Insert(headers, text);
          headers := headers[key := Trim(value)];
        }
      }

      return Success(Request(requestMethod, version, path, headers, reader.pos));
    }
  }

  /** A folded-header continuation line, as the parser tests for one; such a line is never trimmed. */
  predicate StartsWithSpaceOrTab(line: string)
    ensures StartsWithSpaceOrTab(line) ==> !Trimmed(line)
  {
    |line| > 0 && (line[0] == ' ' || line[0] == '\t')
  }

  /** Appends a continuation line to the value of header `prev`, when there is one. */
  function AppendToPrevious(headers: map<string, string>, prev: string, line: string): (m: map<string, string>)
    ensures m.Keys == headers.Keys
    ensures prev in headers ==> m[prev] == headers[prev] + line
    ensures forall k :: k in headers && k != prev ==> m[k] == headers[k]
  {
    if prev in headers then headers[prev := headers[prev] + line] else headers
  }

  /**
   * The key and value of a header line: the key is the text before the
   * first ':', kept as it is; the value is the rest after that colon,
   * trimmed, or empty when the line has no colon.
   */
  function SplitHeader(line: string): (kv: (string, string))
    ensures ':' !in kv.0
    ensures ':' !in line ==> kv == (line, "")
    ensures ':' in line ==> |kv.0| < |line| && line[..|kv.0|] == kv.0 && line[|kv.0|] == ':'
                            && kv.1 == Trim(line[|kv.0| + 1..])
  {
    var (key, rest) := SplitOnceColon(line);
    match rest
    case None => (key, Trim(""))
    case Some(v) =>
      assert line[..|key|] == key && line[|key| + 1..] == v;
      (key, Trim(v))
  }

  /** Stores one header line; a key already present takes the new value. */
  function Insert(headers: map<string, string>, line: string): (m: map<string, string>)
    ensures m.Keys == headers.Keys + {SplitHeader(line).0}
    ensures m[SplitHeader(line).0] == SplitHeader(line).1
    ensures forall k :: k in headers && k != SplitHeader(line).0 ==> m[k] == headers[k]
  {
    var (key, value) := SplitHeader(line);
    headers[key := value]
  }

  /** Stores the header lines in order; the keys are the old ones and those the lines name. */
  function InsertAll(headers: map<string, string>, lines: seq<string>): (m: map<string, string>)
    ensures m.Keys == headers.Keys + (set j | 0 <= j < |lines| :: SplitHeader(lines[j]).0)
    decreases |lines|
  {
    if |lines| == 0 then headers
    else
      HeaderKeysCons(lines);
      InsertAll(Insert(headers, lines[0]), lines[1..])
  }

  /** The keys a non-empty run of header lines names: the first line's, then the rest's. */
  lemma {:induction false} HeaderKeysCons(lines: seq<string>)
    requires |lines| > 0
    ensures (set j | 0 <= j < |lines| :: SplitHeader(lines[j]).0)
         == {SplitHeader(lines[0]).0} + (set j | 0 <= j < |lines[1..]| :: SplitHeader(lines[1..][j]).0)
  {
    var all := set j | 0 <= j < |lines| :: SplitHeader(lines[j]).0;
    var tail := set j | 0 <= j < |lines[1..]| :: SplitHeader(lines[1..][j]).0;
    forall k | k in all ensures k in {SplitHeader(lines[0]).0} + tail {
      var j :| 0 <= j < |lines| && SplitHeader(lines[j]).0 == k;
      if j > 0 {
        assert lines[1..][j - 1] == lines[j];
      }
    }
    forall k | k in tail ensures k in all {
      var j :| 0 <= j < |lines[1..]| && SplitHeader(lines[1..][j]).0 == k;
      assert lines[1..][j] == lines[j + 1];
    }
  }

  /**
   * The header lines the parser reads from `pos`: each line up to, not
   * including, the first empty one or the first failed read.
   */
  function HeaderLines(input: string, reset: bool, pos: nat): (lines: seq<string>)
    requires pos <= |input|
    ensures forall i :: 0 <= i < |lines| ==> lines[i] != "" && Trimmed(lines[i])
    decreases |input| - pos
  {
    var (line, next) := NextLine(input, reset, pos);
    if line.None? || line.value == "" then []
    else [line.value] + HeaderLines(input, reset, next)
  }

  /**
   * Where the cursor is once the header section read from `pos` is over:
   * just after a line feed, or at the end of the data.
   */
  function HeaderEnd(input: string, reset: bool, pos: nat): (e: nat)
    requires pos <= |input|
    ensures pos <= e <= |input|
    ensures e < |input| ==> pos < e && input[e - 1] == '\n'
    decreases |input| - pos
  {
    var (line, next) := NextLine(input, reset, pos);
    if line.None? || line.value == "" then next
    else HeaderEnd(input, reset, next)
  }

  /**
   * The request built from a request line, the header lines and the body
   * position: the line needs three whitespace-separated fields, and any
   * after the third are ignored.
   */
  function Assemble(first: string, lines: seq<string>, body: nat): (r: Result<Request, ParseError>)
    ensures r.Success? <==> |SplitWs(first)| >= 3
    ensures r.Success? ==> Canonical(r.value.requestMethod) && r.value.body == body
    ensures r.Success? ==> NoWhitespace(r.value.path) && NoWhitespace(r.value.version)
    ensures r.Success? ==> r.value.headers.Keys == (set j | 0 <= j < |lines| :: SplitHeader(lines[j]).0)
  {
    var fields := SplitWs(first);
    if |fields| < 3 then Failure(ParseError)
    else Success(Request(MethodOf(fields[0]), fields[2], fields[1], InsertAll(map[], lines), body))
  }

  /** What parsing the data from `pos` yields; a request's body starts after its request line. */
  function Parse(input: string, reset: bool, pos: nat): (r: Result<Request, ParseError>)
    requires pos <= |input|
    ensures r.Success? ==> pos < r.value.body <= |input|
  {
    var line := NextLine(input, reset, pos);
    if line.0.None? then Failure(ParseError)
    else Assemble(line.0.value, HeaderLines(input, reset, line.1), HeaderEnd(input, reset, line.1))
  }

  /** Parsing once the request line and the header section are known. */
  lemma {:induction false} ParseAfter(input: string, reset: bool, pos: nat, first: string, next: nat, lines: seq<string>, body: nat)
    requires pos <= |input| && next <= |input|
    requires NextLine(input, reset, pos).0 == Some(first) && NextLine(input, reset, pos).1 == next
    requires HeaderLines(input, reset, next) == lines && HeaderEnd(input, reset, next) == body
    ensures Parse(input, reset, pos) == Assemble(first, lines, body)
  {
  }

  /** The `Display` text of a request: 25 characters of fixed text around the method, path and version. */
  function Describe(r: Request): (s: string)
    ensures |s| == 25 + |Show(r.requestMethod)| + |r.path| + |r.version|
  {
    "Method: " + Show(r.requestMethod) + " Path: " + r.path + " Version: " + r.version
  }
}
