/**
  The three JavaScript string operations the generator relies on:
  `String.prototype.trim`, `String.prototype.split(/\r?\n/)` and
  `Array.prototype.join`, over strings as sequences of characters.
*/
module Text {

  /** The characters `trim` removes: ECMAScript WhiteSpace and LineTerminator. */
  predicate IsWhitespace(c: char) {
    || c == '\t' || c == '\n' || c == '\U{000B}' || c == '\U{000C}' || c == '\r'
    || c == ' ' || c == '\U{00A0}' || c == '\U{1680}'
    || ('\U{2000}' <= c <= '\U{200A}')
    || c == '\U{2028}' || c == '\U{2029}' || c == '\U{202F}' || c == '\U{205F}'
    || c == '\U{3000}' || c == '\U{FEFF}'
  }

  predicate AllWhitespace(s: string) {
    forall i :: 0 <= i < |s| ==> IsWhitespace(s[i])
  }

  /** How many whitespace characters `s` starts with. */
  function LeadingWhitespace(s: string): (n: nat)
    ensures n <= |s|
    ensures forall k :: 0 <= k < n ==> IsWhitespace(s[k])
    ensures n < |s| ==> !IsWhitespace(s[n])
    decreases |s|
  {
    if s != [] && IsWhitespace(s[0]) then
      var m := LeadingWhitespace(s[1..]);
      assert forall k :: 0 < k <= m ==> s[k] == s[1..][k - 1];
      m + 1
    else
      0
  }

  /** How many whitespace characters `s` ends with. */
  function TrailingWhitespace(s: string): (n: nat)
    ensures n <= |s|
    ensures forall k :: |s| - n <= k < |s| ==> IsWhitespace(s[k])
    ensures n < |s| ==> !IsWhitespace(s[|s| - n - 1])
    decreases |s|
  {
    if s != [] && IsWhitespace(s[|s| - 1]) then
      var m := TrailingWhitespace(s[..|s| - 1]);
      assert forall k :: |s| - 1 - m <= k < |s| - 1 ==> s[k] == s[..|s| - 1][k];
      m + 1
    else
      0
  }

  /** `String.prototype.trim`: whitespace removed from both ends. */
  function Trim(s: string): (r: string)
    ensures |r| <= |s|
    ensures r == [] <==> AllWhitespace(s)
    ensures r != [] ==> !IsWhitespace(r[0]) && !IsWhitespace(r[|r| - 1])
    ensures forall c :: c in r ==> c in s
  {
    var i := LeadingWhitespace(s);
    if i == |s| then
      []
    else
      var j := |s| - TrailingWhitespace(s);
      assert i < j;
      s[i..j]
  }

  /**
    What `trim` leaves is a slice of the input: everything before it and
    everything after it is whitespace, and it neither starts nor ends with
    whitespace (by Trim's contract), which pins the slice down uniquely.
  */
  lemma TrimIsSlice(s: string)
    ensures exists i ::
              && 0 <= i <= i + |Trim(s)| <= |s|
              && Trim(s) == s[i..i + |Trim(s)|]
              && AllWhitespace(s[..i]) && AllWhitespace(s[i + |Trim(s)|..])
  {
    var i := LeadingWhitespace(s);
    if i == |s| {
      assert AllWhitespace(s[..0]) && AllWhitespace(s[0..]);
    } else {
      var j := |s| - TrailingWhitespace(s);
      assert AllWhitespace(s[..i]) && AllWhitespace(s[j..]);
    }
  }

  /** Trimming twice is trimming once. */
  lemma TrimIdempotent(s: string)
    ensures Trim(Trim(s)) == Trim(s)
  {
    var r := Trim(s);
    if r != [] {
      assert LeadingWhitespace(r) == 0 && TrailingWhitespace(r) == 0;
      assert r[0..|r|] == r;
    }
  }

  /** `Array.prototype.join`: the parts with `sep` between consecutive ones. */
  function Join(parts: seq<string>, sep: string): string
    decreases |parts|
  {
    if |parts| == 0 then ""
    else if |parts| == 1 then parts[0]
    else parts[0] + sep + Join(parts[1..], sep)
  }

  /** Joining a concatenation joins the two halves with one more separator. */
  lemma {:induction false} JoinAppend(a: seq<string>, b: seq<string>, sep: string)
    requires |a| > 0 && |b| > 0
    ensures Join(a + b, sep) == Join(a, sep) + sep + Join(b, sep)
    decreases |a|
  {
    if |a| == 1 {
      assert (a + b)[1..] == b;
    } else {
      assert (a + b)[1..] == a[1..] + b;
      JoinAppend(a[1..], b, sep);
    }
  }

  /** A leading part that is itself a join with the same separator can be flattened. */
  lemma JoinFlattenFirst(first: seq<string>, rest: seq<string>, sep: string)
    requires |first| > 0
    ensures Join([Join(first, sep)] + rest, sep) == Join(first + rest, sep)
  {
    if rest == [] {
      assert [Join(first, sep)] + rest == [Join(first, sep)] && first + rest == first;
    } else {
      JoinAppend([Join(first, sep)], rest, sep);
      JoinAppend(first, rest, sep);
    }
  }

  /** A trailing part that is itself a join with the same separator can be flattened. */
  lemma JoinFlattenLast(init: seq<string>, last: seq<string>, sep: string)
    requires |last| > 0
    ensures Join(init + [Join(last, sep)], sep) == Join(init + last, sep)
  {
    if init == [] {
      assert init + [Join(last, sep)] == [Join(last, sep)] && init + last == last;
    } else {
      JoinAppend(init, [Join(last, sep)], sep);
      JoinAppend(init, last, sep);
    }
  }

  /** Joining depends only on the parts, not on how their sequence was put together. */
  lemma JoinRegroup(x: seq<string>, y: seq<string>, z: seq<string>, sep: string)
    ensures Join(x + y + z, sep) == Join(x + (y + z), sep)
  {
    assert x + y + z == x + (y + z);
  }

  /** A join between two joins with the same separator is the join of everything. */
  lemma JoinNested(first: seq<string>, middle: seq<string>, last: seq<string>, sep: string)
    requires |first| > 0 && |last| > 0
    ensures Join([Join(first, sep)] + middle + [Join(last, sep)], sep) == Join(first + middle + last, sep)
  {
    JoinFlattenLast([Join(first, sep)] + middle, last, sep);
    JoinRegroup([Join(first, sep)], middle, last, sep);
    JoinFlattenFirst(first, middle + last, sep);
    JoinRegroup(first, middle, last, sep);
  }

  /**
    `s.split(/\r?\n/)`: the pieces between line breaks, where a line break
    is `\n` together with the `\r` just before it if there is one. A lone
    `\r` is kept, and the empty string gives one empty piece.
  */
  function SplitLines(s: string): (lines: seq<string>)
    ensures |lines| >= 1
    ensures forall i :: 0 <= i < |lines| ==> '\n' !in lines[i]
    decreases |s|
  {
    if s == [] then [""]
    else if s[0] == '\n' then [""] + SplitLines(s[1..])
    else if s[0] == '\r' && |s| > 1 && s[1] == '\n' then [""] + SplitLines(s[2..])
    else
      var rest := SplitLines(s[1..]);
      [[s[0]] + rest[0]] + rest[1..]
  }

  /** The number of `\n` characters in `s`. */
  function NewlineCount(s: string): nat {
    multiset(s)['\n']
  }

  /** Splitting gives one line more than there are `\n` characters. */
  lemma {:induction false} SplitLinesCount(s: string)
    ensures |SplitLines(s)| == NewlineCount(s) + 1
    decreases |s|
  {
    if s != [] {
      assert s == [s[0]] + s[1..];
      if s[0] == '\r' && |s| > 1 && s[1] == '\n' {
        assert s[1..] == [s[1]] + s[2..];
        SplitLinesCount(s[2..]);
      } else {
        SplitLinesCount(s[1..]);
      }
    }
  }

  /** A line that survives a split and a join with `\n` unchanged. */
  predicate SingleLine(line: string) {
    '\n' !in line && (line == [] || line[|line| - 1] != '\r')
  }

  /** Every line is a single line. */
  predicate SingleLines(lines: seq<string>) {
    forall k :: 0 <= k < |lines| ==> SingleLine(lines[k])
  }

  lemma SingleLinesConcat(a: seq<string>, b: seq<string>)
    requires SingleLines(a) && SingleLines(b)
    ensures SingleLines(a + b)
  {
    forall k | |a| <= k < |a + b| ensures SingleLine((a + b)[k]) {
      assert (a + b)[k] == b[k - |a|];
    }
  }

  /** A single line after text free of `\n` is a single line. */
  lemma SingleLineAfter(a: string, b: string)
    requires '\n' !in a && SingleLine(b) && b != []
    ensures SingleLine(a + b)
  {
    assert (a + b)[|a + b| - 1] == b[|b| - 1];
  }

  lemma {:induction false} SplitWithoutBreak(p: string)
    requires '\n' !in p
    ensures SplitLines(p) == [p]
    decreases |p|
  {
    if p != [] {
      SplitWithoutBreak(p[1..]);
      assert [p[0]] + p[1..] == p;
    }
  }

  lemma {:induction false} SplitAfterLf(p: string, t: string)
    requires SingleLine(p)
    ensures SplitLines(p + "\n" + t) == [p] + SplitLines(t)
    decreases |p|
  {
    var s := p + "\n" + t;
    if p == [] {
      assert s[1..] == t;
    } else {
      assert s[1..] == p[1..] + "\n" + t;
      assert |p| > 1 ==> s[1] == p[1];
      SplitAfterLf(p[1..], t);
      assert [p[0]] + p[1..] == p;
    }
  }

  lemma {:induction false} SplitAfterCrLf(p: string, t: string)
    requires '\n' !in p
    ensures SplitLines(p + "\r\n" + t) == [p] + SplitLines(t)
    decreases |p|
  {
    var s := p + "\r\n" + t;
    if p == [] {
      assert s[2..] == t;
    } else {
      assert s[1..] == p[1..] + "\r\n" + t;
      assert |p| > 1 ==> s[1] == p[1];
      SplitAfterCrLf(p[1..], t);
      assert [p[0]] + p[1..] == p;
    }
  }

  /**
    Splitting undoes joining with `\n`, provided no line holds a `\n` and no
    line but the last ends in `\r` (which would merge with the separator).
  */
  lemma {:induction false} SplitJoinLf(lines: seq<string>)
    requires |lines| >= 1
    requires forall i :: 0 <= i < |lines| - 1 ==> SingleLine(lines[i])
    requires '\n' !in lines[|lines| - 1]
    ensures SplitLines(Join(lines, "\n")) == lines
    decreases |lines|
  {
    if |lines| == 1 {
      SplitWithoutBreak(lines[0]);
    } else {
      var rest := lines[1..];
      assert Join(lines, "\n") == lines[0] + "\n" + Join(rest, "\n");
      SplitAfterLf(lines[0], Join(rest, "\n"));
      assert forall i :: 0 <= i < |rest| ==> rest[i] == lines[i + 1];
      SplitJoinLf(rest);
      assert lines == [lines[0]] + rest;
    }
  }

  /** Splitting undoes joining single lines with `\n`. */
  lemma SplitJoinSingleLines(lines: seq<string>)
    requires |lines| >= 1 && SingleLines(lines)
    ensures SplitLines(Join(lines, "\n")) == lines
  {
    SplitJoinLf(lines);
  }

  /** Splitting undoes joining with `\r\n` for lines without `\n`. */
  lemma {:induction false} SplitJoinCrLf(lines: seq<string>)
    requires |lines| >= 1
    requires forall i :: 0 <= i < |lines| ==> '\n' !in lines[i]
    ensures SplitLines(Join(lines, "\r\n")) == lines
    decreases |lines|
  {
    if |lines| == 1 {
      SplitWithoutBreak(lines[0]);
    } else {
      SplitAfterCrLf(lines[0], Join(lines[1..], "\r\n"));
      SplitJoinCrLf(lines[1..]);
    }
  }

  /** Joining the pieces with `\n` gives back any text free of `\r`. */
  lemma {:induction false} JoinSplitLf(s: string)
    requires '\r' !in s
    ensures Join(SplitLines(s), "\n") == s
    decreases |s|
  {
    if s != [] {
      var rest := SplitLines(s[1..]);
      assert '\r' !in s[1..];
      JoinSplitLf(s[1..]);
      assert Join(rest, "\n") == s[1..];
      if s[0] == '\n' {
        assert SplitLines(s) == [""] + rest;
        assert ([""] + rest)[1..] == rest;
        assert Join([""] + rest, "\n") == "" + "\n" + Join(rest, "\n");
        assert s == "\n" + s[1..];
      } else {
        var lines := [[s[0]] + rest[0]] + rest[1..];
        assert SplitLines(s) == lines;
        if |rest| == 1 {
          assert Join(lines, "\n") == [s[0]] + rest[0];
        } else {
          assert lines[1..] == rest[1..];
          assert Join(lines, "\n") == [s[0]] + rest[0] + "\n" + Join(rest[1..], "\n");
          assert Join(rest, "\n") == rest[0] + "\n" + Join(rest[1..], "\n");
        }
        assert s == [s[0]] + s[1..];
      }
    }
  }

  /** The two line breaks `/\r?\n/` matches. */
  predicate IsLineBreak(b: string) {
    b == "\n" || b == "\r\n"
  }

  /** The text made of `lines` with `breaks[i]` between line `i` and line `i + 1`. */
  function Interleave(lines: seq<string>, breaks: seq<string>): string
    requires |lines| >= 1 && |breaks| == |lines| - 1
    decreases |lines|
  {
    if |lines| == 1 then lines[0]
    else lines[0] + breaks[0] + Interleave(lines[1..], breaks[1..])
  }

  /** The line breaks SplitLines consumes, in order. */
  function LineBreaks(s: string): seq<string>
    decreases |s|
  {
    if s == [] then []
    else if s[0] == '\n' then ["\n"] + LineBreaks(s[1..])
    else if s[0] == '\r' && |s| > 1 && s[1] == '\n' then ["\r\n"] + LineBreaks(s[2..])
    else LineBreaks(s[1..])
  }

  /**
    Any text is its pieces with the line breaks between them: splitting
    loses nothing but the choice of break, whatever the mix of `\n` and
    `\r\n`.
  */
  lemma {:induction false} InterleaveSplit(s: string)
    ensures |LineBreaks(s)| == |SplitLines(s)| - 1
    ensures forall i :: 0 <= i < |LineBreaks(s)| ==> IsLineBreak(LineBreaks(s)[i])
    ensures Interleave(SplitLines(s), LineBreaks(s)) == s
    decreases |s|
  {
    if s == [] {
    } else if s[0] == '\n' {
      InterleaveSplit(s[1..]);
      PrependLine("", "\n", SplitLines(s[1..]), LineBreaks(s[1..]));
      assert s == "" + "\n" + s[1..];
    } else if s[0] == '\r' && |s| > 1 && s[1] == '\n' {
      InterleaveSplit(s[2..]);
      PrependLine("", "\r\n", SplitLines(s[2..]), LineBreaks(s[2..]));
      assert s == "" + "\r\n" + s[2..];
    } else {
      InterleaveSplit(s[1..]);
      ExtendFirstLine(s[0], SplitLines(s[1..]), LineBreaks(s[1..]));
      assert s == [s[0]] + s[1..];
    }
  }

  /** A line and a break in front of interleaved text. */
  lemma PrependLine(line: string, b: string, lines: seq<string>, breaks: seq<string>)
    requires IsLineBreak(b)
    requires |lines| >= 1 && |breaks| == |lines| - 1
    requires forall i :: 0 <= i < |breaks| ==> IsLineBreak(breaks[i])
    ensures var all := [line] + lines; var bs := [b] + breaks;
      && |bs| == |all| - 1
      && (forall i :: 0 <= i < |bs| ==> IsLineBreak(bs[i]))
      && Interleave(all, bs) == line + b + Interleave(lines, breaks)
  {
    var all := [line] + lines;
    var bs := [b] + breaks;
    assert all[1..] == lines && bs[1..] == breaks;
  }

  /** A character in front of interleaved text joins its first line. */
  lemma ExtendFirstLine(c: char, lines: seq<string>, breaks: seq<string>)
    requires |lines| >= 1 && |breaks| == |lines| - 1
    ensures Interleave([[c] + lines[0]] + lines[1..], breaks) == [c] + Interleave(lines, breaks)
  {
    var all := [[c] + lines[0]] + lines[1..];
    if |lines| > 1 {
      assert all[1..] == lines[1..];
    }
  }

  /**
    Splitting interleaved text gives back its lines, for any mix of `\n` and
    `\r\n` breaks, provided no line holds a `\n` and no line followed by a
    bare `\n` ends in `\r` (the two would read as one `\r\n`).
  */
  lemma {:induction false} SplitInterleave(lines: seq<string>, breaks: seq<string>)
    requires Separated(lines, breaks)
    ensures SplitLines(Interleave(lines, breaks)) == lines
    decreases |lines|
  {
    if |lines| == 1 {
      SplitWithoutBreak(lines[0]);
    } else {
      var rest := lines[1..];
      var more := breaks[1..];
      var tail := Interleave(rest, more);
      assert Interleave(lines, breaks) == lines[0] + breaks[0] + tail;
      if breaks[0] == "\n" {
        SplitAfterLf(lines[0], tail);
      } else {
        SplitAfterCrLf(lines[0], tail);
      }
      SeparatedTail(lines, breaks);
      SplitInterleave(rest, more);
      assert lines == [lines[0]] + rest;
    }
  }

  /**
    Lines and breaks SplitInterleave accepts: one fewer break than lines,
    every break `\n` or `\r\n`, no line holding `\n`, and no line before a
    bare `\n` ending in `\r`.
  */
  predicate Separated(lines: seq<string>, breaks: seq<string>) {
    && |lines| >= 1 && |breaks| == |lines| - 1
    && (forall i :: 0 <= i < |breaks| ==> IsLineBreak(breaks[i]))
    && (forall i :: 0 <= i < |lines| ==> '\n' !in lines[i])
    && (forall i :: 0 <= i < |breaks| && breaks[i] == "\n" ==> SingleLine(lines[i]))
  }

  lemma SeparatedTail(lines: seq<string>, breaks: seq<string>)
    requires Separated(lines, breaks) && |lines| > 1
    ensures Separated(lines[1..], breaks[1..])
  {
    assert forall i :: 0 <= i < |lines| - 1 ==> lines[1..][i] == lines[i + 1];
    assert forall i :: 0 <= i < |breaks| - 1 ==> breaks[1..][i] == breaks[i + 1];
  }
}
