/**
 * What the parser promises, stated over the model in request.dfy: how
 * header values combine, that the body is never read, that the request
 * line alone decides success and which fields it yields, that folded
 * lines are never appended, how the display line splits, and examples.
 */
module RequestProperties {
  import opened Wrappers
  import opened Text
  import opened HttpMethod
  import opened LineReader
  import opened RequestParser

  // ---------------------------------------------------------------------
  // Header map: the last line naming a key wins, other keys are untouched

  /** A key no header line names keeps its presence and its value. */
  lemma {:induction false} InsertAllUnnamed(acc: map<string, string>, lines: seq<string>, key: string)
    requires forall j :: 0 <= j < |lines| ==> SplitHeader(lines[j]).0 != key
    ensures (key in InsertAll(acc, lines)) == (key in acc)
    ensures key in acc ==> InsertAll(acc, lines)[key] == acc[key]
    decreases |lines|
  {
    if |lines| > 0 {
      assert forall j :: 0 <= j < |lines[1..]| ==> lines[1..][j] == lines[j + 1];
      InsertAllUnnamed(Insert(acc, lines[0]), lines[1..], key);
    }
  }

  /** A key takes the value of the last header line naming it. */
  lemma {:induction false} InsertAllLast(acc: map<string, string>, lines: seq<string>, i: nat)
    requires i < |lines|
    requires forall j :: i < j < |lines| ==> SplitHeader(lines[j]).0 != SplitHeader(lines[i]).0
    ensures SplitHeader(lines[i]).0 in InsertAll(acc, lines)
    ensures InsertAll(acc, lines)[SplitHeader(lines[i]).0] == SplitHeader(lines[i]).1
    decreases |lines|
  {
    var rest := lines[1..];
    var key := SplitHeader(lines[i]).0;
    if i == 0 {
      forall j | 0 <= j < |rest| ensures SplitHeader(rest[j]).0 != key {
        assert rest[j] == lines[j + 1];
      }
      InsertAllUnnamed(Insert(acc, lines[0]), rest, key);
    } else {
      assert rest[i - 1] == lines[i];
      forall j | i - 1 < j < |rest| ensures SplitHeader(rest[j]).0 != key {
        assert rest[j] == lines[j + 1];
      }
      InsertAllLast(Insert(acc, lines[0]), rest, i - 1);
    }
  }

  /** A header line `k:v` with no colon in `k` has key `k` and value `v` trimmed. */
  lemma {:induction false} SplitHeaderOf(k: string, v: string)
    requires ':' !in k
    ensures SplitHeader(k + ":" + v) == (k, Trim(v))
  {
    var line := k + ":" + v;
    var kv := SplitHeader(line);
    assert line[|k|] == ':';
    assert kv.0 == line[..|k|] == k;
    assert line[|k| + 1..] == v;
  }

  // ---------------------------------------------------------------------
  // The body is never read: the outcome depends only on the preamble

  lemma {:induction false} LineEndShared(input: string, other: string, pos: nat)
    requires pos <= |input|
    requires Terminated(input, pos, LineEnd(input, pos))
    requires LineEnd(input, pos) <= |other|
    requires other[..LineEnd(input, pos)] == input[..LineEnd(input, pos)]
    ensures pos <= |other| && LineEnd(other, pos) == LineEnd(input, pos)
    decreases |input| - pos
  {
    var e := LineEnd(input, pos);
    assert other[pos] == other[..e][pos] == input[..e][pos] == input[pos];
    if input[pos] != '\n' {
      LineEndShared(input, other, pos + 1);
    }
  }

  /** A complete line reads the same from any data that agrees up to its terminator. */
  lemma {:induction false} NextLineShared(input: string, other: string, reset: bool, reset': bool, pos: nat)
    requires pos <= |input|
    requires Terminated(input, pos, LineEnd(input, pos))
    requires LineEnd(input, pos) <= |other|
    requires other[..LineEnd(input, pos)] == input[..LineEnd(input, pos)]
    ensures pos <= |other| && NextLine(other, reset', pos) == NextLine(input, reset, pos)
  {
    var e := LineEnd(input, pos);
    LineEndShared(input, other, pos);
    assert other[pos..e] == other[..e][pos..] == input[..e][pos..] == input[pos..e];
  }

  /**
   * When the header section ends at a blank line before the end of the
   * data, nothing after that line is read: any data that agrees up to it,
   * however it continues and however the connection ends, gives the same
   * header lines and the same cursor.
   */
  lemma {:induction false} HeadersIgnoreRest(input: string, other: string, reset: bool, reset': bool, pos: nat)
    requires pos <= |input|
    requires HeaderEnd(input, reset, pos) < |input|
    requires HeaderEnd(input, reset, pos) <= |other|
    requires other[..HeaderEnd(input, reset, pos)] == input[..HeaderEnd(input, reset, pos)]
    ensures pos <= |other|
    ensures HeaderLines(other, reset', pos) == HeaderLines(input, reset, pos)
    ensures HeaderEnd(other, reset', pos) == HeaderEnd(input, reset, pos)
    decreases |input| - pos
  {
    var b := HeaderEnd(input, reset, pos);
    var e := LineEnd(input, pos);
    var (line, next) := NextLine(input, reset, pos);
    assert next == e <= b;
    assert other[..e] == other[..b][..e] == input[..b][..e] == input[..e];
    NextLineShared(input, other, reset, reset', pos);
    if line.Some? && line.value != "" {
      HeadersIgnoreRest(input, other, reset, reset', next);
    }
  }

  /** A successful parse that stopped before the end of the data does not depend on the body. */
  lemma {:induction false} ParseIgnoresBody(input: string, other: string, reset: bool, reset': bool, pos: nat)
    requires pos <= |input|
    requires Parse(input, reset, pos).Success?
    requires Parse(input, reset, pos).value.body < |input|
    requires Parse(input, reset, pos).value.body <= |other|
    requires other[..Parse(input, reset, pos).value.body] == input[..Parse(input, reset, pos).value.body]
    ensures pos <= |other| && Parse(other, reset', pos) == Parse(input, reset, pos)
  {
    var b := Parse(input, reset, pos).value.body;
    var e := LineEnd(input, pos);
    var next := NextLine(input, reset, pos).1;
    assert e == next <= b;
    assert other[..e] == other[..b][..e] == input[..b][..e] == input[..e];
    NextLineShared(input, other, reset, reset', pos);
    HeadersIgnoreRest(input, other, reset, reset', next);
  }

  /**
   * The request line alone decides whether parsing fails: two streams that
   * agree on a complete first line both succeed or both fail, with the same
   * method, path and version; no header content can cause an error.
   */
  lemma {:induction false} OnlyRequestLineFails(input: string, other: string, reset: bool, reset': bool, pos: nat)
    requires pos <= |input|
    requires Terminated(input, pos, LineEnd(input, pos))
    requires LineEnd(input, pos) <= |other|
    requires other[..LineEnd(input, pos)] == input[..LineEnd(input, pos)]
    ensures pos <= |other|
    ensures Parse(other, reset', pos).Success? == Parse(input, reset, pos).Success?
    ensures Parse(input, reset, pos).Success? ==>
              var a, b := Parse(input, reset, pos).value, Parse(other, reset', pos).value;
              a.requestMethod == b.requestMethod && a.path == b.path && a.version == b.version
  {
    NextLineShared(input, other, reset, reset', pos);
  }

  // ---------------------------------------------------------------------
  // Request-line failures

  /**
   * A first line of only whitespace fails. When the read yields a line, it
   * is the empty line, whose one field leaves the path missing; otherwise the
   * connection failed and the read yielded None.
   */
  lemma {:induction false} BlankRequestLineFails(input: string, reset: bool, pos: nat)
    requires pos <= |input|
    requires AllWhitespace(input[pos..LineEnd(input, pos)])
    ensures NextLine(input, reset, pos).0.Some? ==> NextLine(input, reset, pos).0.value == ""
    ensures NextLine(input, reset, pos).0.None? ==> reset
    ensures Parse(input, reset, pos).Failure?
  {
    TrimAllWhitespace(input[pos..LineEnd(input, pos)]);
  }

  /**
   * An empty stream fails: on a clean close the read yields the empty line
   * and the path is missing; on a failing connection the read yields None.
   */
  lemma {:induction false} EmptyInputFails(reset: bool)
    ensures NextLine("", reset, 0).0 == (if reset then None else Some(""))
    ensures Parse("", reset, 0).Failure?
  {
    BlankRequestLineFails("", reset, 0);
  }

  lemma {:induction false} TrimAppendWhitespace(s: string, w: string)
    requires AllWhitespace(w)
    ensures Trim(s + w) == Trim(s)
  {
    var r := Trim(s);
    var i := TrimMargins(s);
    var u := s + w;
    assert u[..i] == s[..i];
    assert u[i + |r|..] == s[i + |r|..] + w;
    assert u[i..i + |r|] == r;
    TrimUnique(u, i, i + |r|);
  }

  /**
   * A request line of one token fails. Ended by CR LF it is read as the
   * token, and the path is missing. Ended by the end of the data, it is read
   * as the token on a clean close and as None on a failing connection.
   */
  lemma {:induction false} SingleTokenFails(t: string, rest: string, reset: bool)
    requires NoWhitespace(t)
    ensures NextLine(t + "\r\n" + rest, reset, 0).0 == Some(t)
    ensures NextLine(t, reset, 0).0 == (if reset then None else Some(t))
    ensures Parse(t + "\r\n" + rest, reset, 0).Failure?
    ensures Parse(t, reset, 0).Failure?
  {
    SplitWsNoWhitespacePrefix(t, "");
    assert t + "" == t;
    assert SplitWs(t) == [t];
    TrimOfTrimmed(t);
    var input := t + "\r\n" + rest;
    assert input[0..|t| + 2] == t + "\r\n";
    ReadsCrlfLine(input, 0, t, reset);
    assert t[0..LineEnd(t, 0)] == t;
  }

  // ---------------------------------------------------------------------
  // Reading lines ended by CR LF, and the header section

  predicate NoNewline(s: string) {
    forall k :: 0 <= k < |s| ==> s[k] != '\n'
  }

  lemma {:induction false} LineEndAt(input: string, pos: nat, q: nat)
    requires pos <= q < |input| && input[q] == '\n'
    requires forall k :: pos <= k < q ==> input[k] != '\n'
    ensures LineEnd(input, pos) == q + 1
    decreases q - pos
  {
    if pos < q {
      LineEndAt(input, pos + 1, q);
    }
  }

  /** A line without '\n' of its own, then CR LF: the line feed ends it. */
  lemma {:induction false} CrlfLineEnd(input: string, pos: nat, raw: string)
    requires pos + |raw| + 2 <= |input| && input[pos..pos + |raw| + 2] == raw + "\r\n"
    requires NoNewline(raw)
    ensures LineEnd(input, pos) == pos + |raw| + 2
  {
    var x := raw + "\r\n";
    forall k | pos <= k < pos + |raw| + 1 ensures input[k] != '\n' {
      assert input[k] == input[pos..pos + |raw| + 2][k - pos] == x[k - pos];
    }
    assert input[pos + |raw| + 1] == input[pos..pos + |raw| + 2][|raw| + 1] == x[|raw| + 1];
    LineEndAt(input, pos, pos + |raw| + 1);
  }

  /** Reading a line ended by CR LF yields it trimmed, and moves past the line feed. */
  lemma {:induction false} ReadsCrlfLine(input: string, pos: nat, raw: string, reset: bool)
    requires pos + |raw| + 2 <= |input| && input[pos..pos + |raw| + 2] == raw + "\r\n"
    requires NoNewline(raw)
    ensures NextLine(input, reset, pos) == (Some(Trim(raw)), pos + |raw| + 2)
  {
    CrlfLineEnd(input, pos, raw);
    TrimAppendWhitespace(raw, "\r\n");
  }

  /** A blank line ends the header section, and the body starts right after its line feed. */
  lemma {:induction false} BlankLineEnds(input: string, pos: nat, reset: bool)
    requires pos + 2 <= |input| && input[pos..pos + 2] == "\r\n"
    ensures HeaderLines(input, reset, pos) == []
    ensures HeaderEnd(input, reset, pos) == pos + 2
  {
    assert "" + "\r\n" == "\r\n";
    ReadsCrlfLine(input, pos, "", reset);
    assert Trim("") == "";
  }

  /** The body of a parsed request starts just after a line feed, or at the end of the data. */
  lemma {:induction false} BodyAtLineStart(input: string, reset: bool, pos: nat)
    requires pos <= |input|
    requires Parse(input, reset, pos).Success? && Parse(input, reset, pos).value.body < |input|
    ensures input[Parse(input, reset, pos).value.body - 1] == '\n'
  {
    ParsedBody(input, reset, pos);
  }

  /** A parsed request's body starts where the header section read after the request line ends. */
  lemma {:induction false} ParsedBody(input: string, reset: bool, pos: nat)
    requires pos <= |input|
    requires Parse(input, reset, pos).Success?
    ensures Parse(input, reset, pos).value.body == HeaderEnd(input, reset, NextLine(input, reset, pos).1)
  {
  }

  /** A non-blank header line ended by CR LF is stored trimmed, and the header section goes on after it. */
  lemma {:induction false} HeaderLineStep(input: string, pos: nat, raw: string, reset: bool)
    requires pos + |raw| + 2 <= |input| && input[pos..pos + |raw| + 2] == raw + "\r\n"
    requires NoNewline(raw)
    requires Trim(raw) != ""
    ensures HeaderLines(input, reset, pos) == [Trim(raw)] + HeaderLines(input, reset, pos + |raw| + 2)
    ensures HeaderEnd(input, reset, pos) == HeaderEnd(input, reset, pos + |raw| + 2)
  {
    ReadsCrlfLine(input, pos, raw, reset);
  }

  /**
   * No stored line starts with a space or a tab, so the branch that would
   * append a folded continuation line to the previous header never runs.
   */
  lemma {:induction false} NoContinuationLine(input: string, reset: bool, pos: nat)
    requires pos <= |input|
    ensures forall i :: 0 <= i < |HeaderLines(input, reset, pos)| ==>
              !StartsWithSpaceOrTab(HeaderLines(input, reset, pos)[i])
  {
  }

  /**
   * A request line ended by CR LF and then a blank line: the request is
   * built from the trimmed request line with no headers, and the body
   * starts right after the blank line, whatever follows.
   */
  lemma {:induction false} NoHeaders(requestLine: string, rest: string, reset: bool)
    requires NoNewline(requestLine)
    ensures Parse(requestLine + "\r\n\r\n" + rest, reset, 0) == Assemble(Trim(requestLine), [], |requestLine| + 4)
  {
    var input := requestLine + "\r\n\r\n" + rest;
    var n := |requestLine|;
    assert input[0..n + 2] == requestLine + "\r\n";
    ReadsCrlfLine(input, 0, requestLine, reset);
    assert input[n + 2..n + 4] == "\r\n";
    BlankLineEnds(input, n + 2, reset);
    ParseAfter(input, reset, 0, Trim(requestLine), n + 2, [], n + 4);
  }

  // ---------------------------------------------------------------------
  // The request line's fields

  /**
   * The request line alone decides success: parsing succeeds exactly when a
   * line could be read and splits into at least three fields, and then the
   * first three fields are the method as displayed, the path and the
   * version; any further fields are ignored.
   */
  lemma {:induction false} RequestLineFields(input: string, reset: bool, pos: nat)
    requires pos <= |input|
    ensures Parse(input, reset, pos).Success? <==>
              NextLine(input, reset, pos).0.Some? && |SplitWs(NextLine(input, reset, pos).0.value)| >= 3
    ensures Parse(input, reset, pos).Success? ==>
              var r := Parse(input, reset, pos).value;
              SplitWs(NextLine(input, reset, pos).0.value)[..3] == [Show(r.requestMethod), r.path, r.version]
  {
    if Parse(input, reset, pos).Success? {
      var fields := SplitWs(NextLine(input, reset, pos).0.value);
      assert fields[..3] == [fields[0], fields[1], fields[2]];
    }
  }

  /** Three fields without whitespace, separated by single spaces, form a trimmed line that splits back into them. */
  lemma {:induction false} ThreeFields(m: string, p: string, v: string)
    requires NoWhitespace(m) && NoWhitespace(p) && NoWhitespace(v)
    requires m != "" && v != ""
    ensures SplitWs(m + " " + p + " " + v) == [m, p, v]
    ensures Trim(m + " " + p + " " + v) == m + " " + p + " " + v
    ensures NoNewline(m + " " + p + " " + v)
  {
    var line := m + " " + p + " " + v;
    InterleaveCons(p, [v], ' ', "");
    InterleaveCons(m, [p, v], ' ', " ");
    assert [p] + [v] == [p, v] && [m] + [p, v] == [m, p, v];
    assert Interleave([m, p, v], "  ") == line;
    InterleaveSplitWs([m, p, v], "  ");
    assert line[0] == m[0] && line[|line| - 1] == v[|v| - 1];
    TrimOfTrimmed(line);
    forall k | 0 <= k < |line| ensures line[k] != '\n' {
      if k < |m| { assert line[k] == m[k]; }
      else if k == |m| || k == |m| + 1 + |p| { }
      else if k < |m| + 1 + |p| { assert line[k] == p[k - |m| - 1]; }
      else { assert line[k] == v[k - |m| - |p| - 2]; }
    }
  }

  /** `METHOD PATH VERSION`, CR LF, a blank line: exactly those tokens, no headers, the body right after. */
  lemma {:induction false} ThreeTokens(m: string, p: string, v: string, rest: string, reset: bool)
    requires NoWhitespace(m) && NoWhitespace(p) && NoWhitespace(v)
    requires m != "" && v != ""
    ensures Parse(m + " " + p + " " + v + "\r\n\r\n" + rest, reset, 0)
         == Success(Request(MethodOf(m), v, p, map[], |m| + |p| + |v| + 6))
  {
    ThreeFields(m, p, v);
    NoHeaders(m + " " + p + " " + v, rest, reset);
  }

  /** Two adjacent spaces give an empty field: in `GET  /` the path is empty and the version is `/`. */
  lemma {:induction false} ConsecutiveWhitespace()
    ensures SplitWs("GET  /") == ["GET", "", "/"]
  {
    assert Interleave(["GET", "", "/"], "  ") == "GET  /";
    InterleaveSplitWs(["GET", "", "/"], "  ");
  }

  // ---------------------------------------------------------------------
  // Folded header lines

  /**
   * A folded line ` cd` in the header section is trimmed as it is read, so
   * the header loop stores it as the line `cd`: its own header with the
   * empty value.
   */
  lemma {:induction false} FoldedLineIsOwnHeader(input: string, reset: bool, pos: nat)
    requires pos + 5 <= |input| && input[pos..pos + 5] == " cd\r\n"
    ensures HeaderLines(input, reset, pos) == ["cd"] + HeaderLines(input, reset, pos + 5)
    ensures SplitHeader("cd") == ("cd", "")
  {
    assert " cd" + "\r\n" == " cd\r\n";
    assert Trim(" cd") == "cd";
    HeaderLineStep(input, pos, " cd", reset);
  }

  /** The line before it, `X-Long: ab`, has no margins to trim and keeps its own value `ab`. */
  lemma {:induction false} HeaderBeforeFold()
    ensures SplitHeader("X-Long: ab") == ("X-Long", "ab")
  {
    SplitHeaderOf("X-Long", " ab");
    assert "X-Long" + ":" + " ab" == "X-Long: ab";
    assert Trim(" ab") == "ab";
  }

  /** `X-Long: ab` has no line feed and nothing to trim. */
  lemma {:induction false} HeaderBeforeFoldTrimmed()
    ensures NoNewline("X-Long: ab") && Trim("X-Long: ab") == "X-Long: ab"
    ensures "X-Long: ab" + "\r\n" == "X-Long: ab\r\n"
  {
    TrimOfTrimmed("X-Long: ab");
  }

  /** `X-Long: ab` then the folded ` cd` are read as two header lines, `X-Long: ab` and `cd`. */
  lemma {:induction false} FoldedPairLines(input: string, reset: bool, pos: nat)
    requires pos + 17 <= |input|
    requires input[pos..pos + 12] == "X-Long: ab\r\n" && input[pos + 12..pos + 17] == " cd\r\n"
    ensures HeaderLines(input, reset, pos) == ["X-Long: ab", "cd"] + HeaderLines(input, reset, pos + 17)
  {
    HeaderBeforeFoldTrimmed();
    HeaderLineStep(input, pos, "X-Long: ab", reset);
    FoldedLineIsOwnHeader(input, reset, pos + 12);
    assert ["X-Long: ab"] + (["cd"] + HeaderLines(input, reset, pos + 17))
        == ["X-Long: ab", "cd"] + HeaderLines(input, reset, pos + 17);
  }

  /** Storing two header lines is storing the first, then the second. */
  lemma {:induction false} InsertAllPair(acc: map<string, string>, l1: string, l2: string)
    ensures InsertAll(acc, [l1, l2]) == Insert(Insert(acc, l1), l2)
  {
    assert [l1, l2][1..] == [l2] && [l2][1..] == [];
    var m := Insert(acc, l1);
    assert InsertAll(m, [l2]) == InsertAll(Insert(m, l2), []);
  }

  /**
   * Storing those two lines: `X-Long` keeps `ab`, with nothing appended, and
   * `cd` is a header of its own with the empty value.
   */
  lemma {:induction false} FoldedPairHeaders(acc: map<string, string>)
    ensures InsertAll(acc, ["X-Long: ab", "cd"]) == acc["X-Long" := "ab"]["cd" := ""]
  {
    InsertAllPair(acc, "X-Long: ab", "cd");
    HeaderBeforeFold();
    assert SplitHeader("cd") == ("cd", "");
  }

  // ---------------------------------------------------------------------
  // The display line

  /** The display line is its six words joined by single spaces. */
  lemma {:induction false} DescribeInterleaved(r: Request)
    ensures Interleave(["Method:", Show(r.requestMethod), "Path:", r.path, "Version:", r.version], "     ")
         == Describe(r)
  {
    var a, b, c := Show(r.requestMethod), r.path, r.version;
    assert Interleave([c], "") == c;
    InterleaveCons("Version:", [c], ' ', "");
    assert ["Version:"] + [c] == ["Version:", c] && [' '] + "" == " ";
    InterleaveCons(b, ["Version:", c], ' ', " ");
    assert [b] + ["Version:", c] == [b, "Version:", c] && [' '] + " " == "  ";
    InterleaveCons("Path:", [b, "Version:", c], ' ', "  ");
    assert ["Path:"] + [b, "Version:", c] == ["Path:", b, "Version:", c] && [' '] + "  " == "   ";
    InterleaveCons(a, ["Path:", b, "Version:", c], ' ', "   ");
    assert [a] + ["Path:", b, "Version:", c] == [a, "Path:", b, "Version:", c] && [' '] + "   " == "    ";
    InterleaveCons("Method:", [a, "Path:", b, "Version:", c], ' ', "    ");
    assert ["Method:"] + [a, "Path:", b, "Version:", c] == ["Method:", a, "Path:", b, "Version:", c];
    assert [' '] + "    " == "     ";
    DescribeWords(a, b, c);
  }

  /** The display format written out word by word. */
  lemma {:induction false} DescribeWords(a: string, b: string, c: string)
    ensures "Method:" + " " + (a + " " + ("Path:" + " " + (b + " " + ("Version:" + " " + c))))
         == "Method: " + a + " Path: " + b + " Version: " + c
  {
    assert "Version:" + " " + c == "Version: " + c;
    assert "Path:" + " " + (b + " " + ("Version: " + c)) == "Path: " + b + " Version: " + c;
    assert "Method:" + " " + (a + " " + ("Path: " + b + " Version: " + c))
        == "Method: " + a + " Path: " + b + " Version: " + c;
  }

  /**
   * The display line of a request whose method, path and version contain
   * no whitespace splits back into its six words.
   */
  lemma {:induction false} DescribeSplits(r: Request)
    requires NoWhitespace(Show(r.requestMethod)) && NoWhitespace(r.path) && NoWhitespace(r.version)
    ensures SplitWs(Describe(r)) == ["Method:", Show(r.requestMethod), "Path:", r.path, "Version:", r.version]
  {
    var fs := ["Method:", Show(r.requestMethod), "Path:", r.path, "Version:", r.version];
    DescribeInterleaved(r);
    assert NoWhitespace("Method:") && NoWhitespace("Path:") && NoWhitespace("Version:");
    assert forall k :: 0 <= k < |fs| ==> NoWhitespace(fs[k]);
    InterleaveSplitWs(fs, "     ");
  }

  /** Every request the parser produces displays as six words, its own method, path and version among them. */
  lemma {:induction false} ParsedDescribeSplits(input: string, reset: bool, pos: nat)
    requires pos <= |input|
    requires Parse(input, reset, pos).Success?
    ensures var r := Parse(input, reset, pos).value;
            SplitWs(Describe(r)) == ["Method:", Show(r.requestMethod), "Path:", r.path, "Version:", r.version]
  {
    DescribeSplits(Parse(input, reset, pos).value);
  }
}
