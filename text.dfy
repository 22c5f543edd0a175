/**
 * String operations the request parser applies to a single line: trimming,
 * splitting on every whitespace character, and splitting once on ':'.
 * Whitespace is the ASCII set space, tab, line feed, carriage return,
 * vertical tab and form feed.
 */
module Text {
  import opened Wrappers

  predicate IsWhitespace(c: char) {
    c == ' ' || c == '\t' || c == '\n' || c == '\r' || c == '\U{0B}' || c == '\U{0C}'
  }

  predicate AllWhitespace(s: string) {
    forall i :: 0 <= i < |s| ==> IsWhitespace(s[i])
  }

  predicate NoWhitespace(s: string) {
    forall i :: 0 <= i < |s| ==> !IsWhitespace(s[i])
  }

  /** Neither the first nor the last character is whitespace. */
  predicate Trimmed(s: string) {
    |s| > 0 ==> !IsWhitespace(s[0]) && !IsWhitespace(s[|s| - 1])
  }

  /** The first index at or after `i` that does not hold whitespace, or `|s|`. */
  function SkipLeading(s: string, i: nat): (k: nat)
    requires i <= |s|
    ensures i <= k <= |s|
    ensures k < |s| ==> !IsWhitespace(s[k])
    decreases |s| - i
  {
    if i < |s| && IsWhitespace(s[i]) then SkipLeading(s, i + 1) else i
  }

  /** The last index at or before `j`, but not below `lo`, that follows a character other than whitespace. */
  function SkipTrailing(s: string, lo: nat, j: nat): (k: nat)
    requires lo <= j <= |s|
    ensures lo <= k <= j
    ensures k > lo ==> !IsWhitespace(s[k - 1])
    decreases j - lo
  {
    if lo < j && IsWhitespace(s[j - 1]) then SkipTrailing(s, lo, j - 1) else j
  }

  /** Drops whitespace at both ends, as Rust's `str::trim` does. */
  function Trim(s: string): (r: string)
    ensures Trimmed(r)
  {
    var i := SkipLeading(s, 0);
    s[i..SkipTrailing(s, i, |s|)]
  }

  /** Everything SkipLeading passes over is whitespace. */
  lemma {:induction false} SkipLeadingWhitespace(s: string, i: nat)
    requires i <= |s|
    ensures forall m :: i <= m < SkipLeading(s, i) ==> IsWhitespace(s[m])
    decreases |s| - i
  {
    if i < |s| && IsWhitespace(s[i]) {
      SkipLeadingWhitespace(s, i + 1);
    }
  }

  /** Everything SkipTrailing passes over is whitespace. */
  lemma {:induction false} SkipTrailingWhitespace(s: string, lo: nat, j: nat)
    requires lo <= j <= |s|
    ensures forall m :: SkipTrailing(s, lo, j) <= m < j ==> IsWhitespace(s[m])
    decreases j - lo
  {
    if lo < j && IsWhitespace(s[j - 1]) {
      SkipTrailingWhitespace(s, lo, j - 1);
    }
  }

  /** SkipLeading stops at the first character other than whitespace. */
  lemma {:induction false} SkipLeadingUnique(s: string, i: nat, k: nat)
    requires i <= k <= |s|
    requires forall m :: i <= m < k ==> IsWhitespace(s[m])
    requires k == |s| || !IsWhitespace(s[k])
    ensures SkipLeading(s, i) == k
    decreases k - i
  {
    if i < k {
      SkipLeadingUnique(s, i + 1, k);
    }
  }

  /** SkipTrailing stops after the last character other than whitespace. */
  lemma {:induction false} SkipTrailingUnique(s: string, lo: nat, j: nat, k: nat)
    requires lo <= k <= j <= |s|
    requires forall m :: k <= m < j ==> IsWhitespace(s[m])
    requires k == lo || !IsWhitespace(s[k - 1])
    ensures SkipTrailing(s, lo, j) == k
    decreases j - k
  {
    if k < j {
      SkipTrailingUnique(s, lo, j - 1, k);
    }
  }

  /** The trim is an infix of the string between two margins of whitespace. */
  lemma {:induction false} TrimMargins(s: string) returns (i: nat)
    ensures i + |Trim(s)| <= |s| && Trim(s) == s[i..i + |Trim(s)|]
    ensures AllWhitespace(s[..i]) && AllWhitespace(s[i + |Trim(s)|..])
  {
    i := SkipLeading(s, 0);
    var j := SkipTrailing(s, i, |s|);
    SkipLeadingWhitespace(s, 0);
    SkipTrailingWhitespace(s, i, |s|);
    assert |Trim(s)| == j - i;
    forall m | 0 <= m < i ensures IsWhitespace(s[..i][m]) {
      assert s[..i][m] == s[m];
    }
    forall m | 0 <= m < |s| - j ensures IsWhitespace(s[j..][m]) {
      assert s[j..][m] == s[j + m];
    }
  }

  /** Any infix with whitespace margins and no whitespace at its own edges is the trim. */
  lemma {:induction false} TrimUnique(s: string, i: nat, j: nat)
    requires i <= j <= |s|
    requires AllWhitespace(s[..i]) && AllWhitespace(s[j..]) && Trimmed(s[i..j])
    ensures Trim(s) == s[i..j]
  {
    forall m | 0 <= m < i ensures IsWhitespace(s[m]) {
      assert s[..i][m] == s[m];
    }
    forall m | j <= m < |s| ensures IsWhitespace(s[m]) {
      assert s[j..][m - j] == s[m];
    }
    if i == j {
      SkipLeadingUnique(s, 0, |s|);
      SkipTrailingUnique(s, |s|, |s|, |s|);
    } else {
      assert s[i..j][0] == s[i] && s[i..j][j - i - 1] == s[j - 1];
      SkipLeadingUnique(s, 0, i);
      SkipTrailingUnique(s, i, |s|, j);
    }
  }

  /** Trimming changes nothing when there is no whitespace at either end; in particular trimming twice is trimming once. */
  lemma {:induction false} TrimOfTrimmed(s: string)
    requires Trimmed(s)
    ensures Trim(s) == s
  {
    assert s[..0] == [] && s[|s|..] == [] && s[0..|s|] == s;
    TrimUnique(s, 0, |s|);
  }

  /** Trimming a string made only of whitespace gives the empty string. */
  lemma {:induction false} TrimAllWhitespace(s: string)
    requires AllWhitespace(s)
    ensures Trim(s) == ""
  {
    assert s[..0] == [] && s[0..] == s;
    TrimUnique(s, 0, 0);
  }

  /**
   * The fields of `s` split at every single whitespace character, as Rust's
   * `str::split(char::is_whitespace)` yields them: there is always at least
   * one field, and two adjacent whitespace characters give an empty field.
   */
  function SplitWs(s: string): (r: seq<string>)
    ensures |r| >= 1
    ensures forall k :: 0 <= k < |r| ==> NoWhitespace(r[k])
    ensures |s| == 0 ==> r == [""]
  {
    if |s| == 0 then [""]
    else
      var rest := SplitWs(s[1..]);
      if IsWhitespace(s[0]) then [""] + rest
      else [[s[0]] + rest[0]] + rest[1..]
  }

  /** The whitespace characters of `s`, in order: the separators SplitWs cuts at. */
  function Separators(s: string): (r: string)
    ensures AllWhitespace(r)
  {
    if |s| == 0 then ""
    else (if IsWhitespace(s[0]) then [s[0]] else "") + Separators(s[1..])
  }

  /** Puts the separators back between the fields: the inverse of SplitWs. */
  function Interleave(fields: seq<string>, seps: string): string
    requires |fields| == |seps| + 1
  {
    if |seps| == 0 then fields[0]
    else fields[0] + [seps[0]] + Interleave(fields[1..], seps[1..])
  }

  /** One field and one separator in front. */
  lemma {:induction false} InterleaveCons(f: string, fields: seq<string>, c: char, seps: string)
    requires |fields| == |seps| + 1
    ensures Interleave([f] + fields, [c] + seps) == f + [c] + Interleave(fields, seps)
  {
    assert ([f] + fields)[1..] == fields && ([c] + seps)[1..] == seps;
  }

  lemma {:induction false} InterleaveExtendFirst(c: char, fields: seq<string>, seps: string)
    requires |fields| == |seps| + 1
    ensures [c] + Interleave(fields, seps) == Interleave([[c] + fields[0]] + fields[1..], seps)
  {
    var fs := [[c] + fields[0]] + fields[1..];
    assert fs[1..] == fields[1..];
  }

  /** Splitting loses nothing: the fields and the separators give back the line. */
  lemma {:induction false} SplitWsInterleave(s: string)
    ensures |SplitWs(s)| == |Separators(s)| + 1
    ensures Interleave(SplitWs(s), Separators(s)) == s
  {
    if |s| > 0 {
      SplitWsInterleave(s[1..]);
      var rest := SplitWs(s[1..]);
      if IsWhitespace(s[0]) {
        var fs := [""] + rest;
        assert fs[1..] == rest;
        assert s == [s[0]] + s[1..];
      } else {
        assert Separators(s) == Separators(s[1..]);
        InterleaveExtendFirst(s[0], rest, Separators(s[1..]));
        assert s == [s[0]] + s[1..];
      }
    }
  }

  /** A prefix without whitespace joins the first field. */
  lemma {:induction false} SplitWsNoWhitespacePrefix(a: string, t: string)
    requires NoWhitespace(a)
    ensures SplitWs(a + t) == [a + SplitWs(t)[0]] + SplitWs(t)[1..]
  {
    if |a| == 0 {
      assert a + t == t;
      assert a + SplitWs(t)[0] == SplitWs(t)[0];
      assert SplitWs(t) == [SplitWs(t)[0]] + SplitWs(t)[1..];
    } else {
      var a' := a[1..];
      assert (a + t)[1..] == a' + t;
      SplitWsNoWhitespacePrefix(a', t);
      assert [a[0]] + (a' + SplitWs(t)[0]) == a + SplitWs(t)[0];
    }
  }

  /** The other round trip: fields free of whitespace, joined by whitespace, split back into themselves. */
  lemma {:induction false} InterleaveSplitWs(fields: seq<string>, seps: string)
    requires |fields| == |seps| + 1
    requires forall k :: 0 <= k < |fields| ==> NoWhitespace(fields[k])
    requires AllWhitespace(seps)
    ensures SplitWs(Interleave(fields, seps)) == fields
  {
    if |seps| == 0 {
      SplitWsNoWhitespacePrefix(fields[0], "");
      assert fields[0] + "" == fields[0];
      assert fields == [fields[0]];
    } else {
      var tail := Interleave(fields[1..], seps[1..]);
      InterleaveSplitWs(fields[1..], seps[1..]);
      var t := [seps[0]] + tail;
      assert t[1..] == tail;
      assert SplitWs(t) == [""] + fields[1..];
      assert fields[0] + [seps[0]] + tail == fields[0] + t;
      SplitWsNoWhitespacePrefix(fields[0], t);
      assert fields[0] + "" == fields[0];
      assert fields == [fields[0]] + fields[1..];
    }
  }

  /**
   * `splitn(2, ':')`: the text before the first ':' and, when there is a
   * colon, the text after it.
   */
  function SplitOnceColon(s: string): (r: (string, Option<string>))
    ensures ':' !in r.0
    ensures r.1.None? ==> r.0 == s
    ensures r.1.Some? ==> s == r.0 + [':'] + r.1.value
  {
    if |s| == 0 then ("", None)
    else if s[0] == ':' then ("", Some(s[1..]))
    else
      var (k, v) := SplitOnceColon(s[1..]);
      ([s[0]] + k, v)
  }
}
