/**
 * The buffered connection the parser reads from, one line at a time.
 * The data the peer sends is `input`; after its last character the
 * connection either closes cleanly (a read then reports zero bytes) or,
 * when `reset` holds, fails with an I/O error.
 */
module LineReader {
  import opened Wrappers
  import opened Text

  /** The position just after the first '\n' at or after `pos`, or the end of the data when there is none. */
  function LineEnd(input: string, pos: nat): (e: nat)
    requires pos <= |input|
    ensures pos <= e <= |input|
    ensures e == pos ==> pos == |input|
    ensures e < |input| ==> input[e - 1] == '\n'
    ensures forall k :: pos <= k < e - 1 ==> input[k] != '\n'
    decreases |input| - pos
  {
    if pos == |input| then pos
    else if input[pos] == '\n' then pos + 1
    else LineEnd(input, pos + 1)
  }

  /** The line from `pos` to `e` ends with its terminator. */
  predicate Terminated(input: string, pos: nat, e: nat)
    requires pos <= e <= |input|
  {
    e > pos && input[e - 1] == '\n'
  }

  /**
   * What one `read_line_ret` yields when the cursor is at `pos`, and where
   * the cursor is afterwards. `read_line` reads through the next '\n' or to
   * the end of the data; the line is trimmed at both ends. At a clean end of
   * data it reads nothing, so the result is the empty line. A line cut short
   * by an I/O error yields None.
   */
  function NextLine(input: string, reset: bool, pos: nat): (r: (Option<string>, nat))
    requires pos <= |input|
    ensures pos <= r.1 <= |input|
    ensures r.0.Some? ==> Trimmed(r.0.value)
    ensures r.0.Some? && r.0.value != "" ==> pos < r.1
    ensures pos == |input| ==> r == (if reset then None else Some(""), pos)
    ensures r.0.None? ==> reset && r.1 == |input|
  {
    var e := LineEnd(input, pos);
    if Terminated(input, pos, e) || !reset then (Some(Trim(input[pos..e])), e)
    else (None, e)
  }

  class Reader {
    /** Everything the peer sends on the connection. */
    const input: string
    /** The connection fails, rather than closes, after the last character. */
    const reset: bool
    /** How many characters have been consumed. */
    var pos: nat

    ghost predicate Valid()
      reads this
    {
      pos <= |input|
    }

    constructor (input: string, reset: bool)
      ensures Valid()
      ensures this.input == input && this.reset == reset && pos == 0
    {
      this.input := input;
      this.reset := reset;
      pos := 0;
    }

    /** Reads one line and trims it; None only on an I/O error. */
    method ReadLineRet() returns (line: Option<string>)
      requires Valid()
      modifies this
      ensures Valid()
      ensures (line, pos) == NextLine(input, reset, old(pos))
      ensures line.Some? ==> Trimmed(line.value)
      ensures old(pos) == |input| && !reset ==> line == Some("")
    {
      var data, start := input, pos;
      var e := start;
      while e < |data| && data[e] != '\n'
        invariant start <= e <= |data|
        invariant LineEnd(data, e) == LineEnd(data, start)
      {
        e := e + 1;
      }
      if e < |data| {
        e := e + 1;
      }
      assert e == LineEnd(data, start);
      if Terminated(data, start, e) || !reset {
        line := Some(Trim(data[start..e]));
      } else {
        line := None;
      }
      pos := e;
    }
  }
}
