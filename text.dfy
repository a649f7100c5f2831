/** The few pieces of Python's `str` and text-file behaviour the game relies on:
    `str.strip()`, `str.lower()` and iterating over the lines of a file opened
    in text mode (universal newlines). */
module PyText {

  /** Python's `str.isspace()` for one character: the characters whose bidirectional
      class is WS, B or S, or whose category is Zs. This is the set `str.strip()`
      with no argument removes. */
  predicate IsSpace(c: char) {
    ('\t' <= c <= '\r') || ('\U{1C}' <= c <= '\U{1F}') || c == ' '
    || c == '\U{85}' || c == '\U{A0}' || c == '\U{1680}'
    || ('\U{2000}' <= c <= '\U{200A}')
    || c == '\U{2028}' || c == '\U{2029}' || c == '\U{202F}' || c == '\U{205F}'
    || c == '\U{3000}'
  }

  /** Every character of `s` is whitespace (this includes the empty string). */
  predicate AllSpace(s: string) {
    forall k :: 0 <= k < |s| ==> IsSpace(s[k])
  }

  /** `s` neither starts nor ends with whitespace: what `strip()` leaves. */
  predicate IsStripped(s: string) {
    |s| == 0 || (!IsSpace(s[0]) && !IsSpace(s[|s| - 1]))
  }

  /** `s.lstrip()`: `s` without its leading whitespace. */
  function StripStart(s: string): string {
    if |s| > 0 && IsSpace(s[0]) then StripStart(s[1..]) else s
  }

  /** `s.rstrip()`: `s` without its trailing whitespace. */
  function StripEnd(s: string): string {
    if |s| > 0 && IsSpace(s[|s| - 1]) then StripEnd(s[..|s| - 1]) else s
  }

  /** `lstrip()` removes a whitespace-only prefix and leaves no whitespace in front. */
  lemma {:induction false} StripStartSpec(s: string)
    ensures |StripStart(s)| <= |s| && StripStart(s) == s[|s| - |StripStart(s)|..]
    ensures AllSpace(s[..|s| - |StripStart(s)|])
    ensures |StripStart(s)| == 0 || !IsSpace(StripStart(s)[0])
  {
    if |s| > 0 && IsSpace(s[0]) {
      StripStartSpec(s[1..]);
      var r := StripStart(s);
      assert s[..|s| - |r|] == [s[0]] + s[1..][..|s| - 1 - |r|];
    }
  }

  /** `rstrip()` removes a whitespace-only suffix and leaves no whitespace at the end. */
  lemma {:induction false} StripEndSpec(s: string)
    ensures |StripEnd(s)| <= |s| && StripEnd(s) == s[..|StripEnd(s)|]
    ensures AllSpace(s[|StripEnd(s)|..])
    ensures |StripEnd(s)| == 0 || !IsSpace(StripEnd(s)[|StripEnd(s)| - 1])
  {
    if |s| > 0 && IsSpace(s[|s| - 1]) {
      StripEndSpec(s[..|s| - 1]);
      var r := StripEnd(s);
      assert s[|r|..] == s[..|s| - 1][|r|..] + [s[|s| - 1]];
    }
  }

  /** `s.strip()`. */
  function Strip(s: string): string {
    StripEnd(StripStart(s))
  }

  /** `strip()` leaves no whitespace at either end, and its result is empty
      exactly when `s` was all whitespace. */
  lemma StripSpec(s: string)
    ensures IsStripped(Strip(s))
    ensures |Strip(s)| == 0 <==> AllSpace(s)
  {
    var t := StripStart(s);
    StripStartSpec(s);
    StripEndSpec(t);
    var r := StripEnd(t);
    var i := |s| - |t|;
    if |r| == 0 {
      assert |t| == 0;
      assert s[..i] == s;
    } else {
      assert s[i] == r[0];
    }
  }

  /** What `strip()` keeps is a piece of `s` with only whitespace around it. */
  lemma StripKeepsMiddle(s: string)
    ensures exists i :: 0 <= i <= |s| - |Strip(s)| && Strip(s) == s[i..i + |Strip(s)|]
              && AllSpace(s[..i]) && AllSpace(s[i + |Strip(s)|..])
  {
    var t := StripStart(s);
    StripStartSpec(s);
    StripEndSpec(t);
    var r := StripEnd(t);
    var i := |s| - |t|;
    assert r == s[i..i + |r|];
    assert s[i + |r|..] == t[|r|..];
  }

  /** A stripped string is left unchanged by `strip()`. */
  lemma {:induction false} StripOfStripped(s: string)
    requires IsStripped(s)
    ensures Strip(s) == s
  {
    if s != [] {
      assert StripStart(s) == s;
      assert StripEnd(s) == s;
    }
  }

  /** `strip()` is idempotent. */
  lemma StripIdempotent(s: string)
    ensures Strip(Strip(s)) == Strip(s)
  {
    StripSpec(s);
    StripOfStripped(Strip(s));
  }

  /** Python's `str.lower()` on one character, restricted to ASCII `A`-`Z`. */
  function LowerChar(c: char): (d: char)
    ensures IsSpace(d) <==> IsSpace(c)
    ensures !('A' <= d <= 'Z')
    ensures 'A' <= c <= 'Z' ==> d as int == c as int - 'A' as int + 'a' as int
    ensures !('A' <= c <= 'Z') ==> d == c
  {
    if 'A' <= c <= 'Z' then (c as int - 'A' as int + 'a' as int) as char else c
  }

  /** `s.lower()`, character by character. */
  function Lower(s: string): (r: string)
    ensures |r| == |s|
    ensures forall k :: 0 <= k < |s| ==> r[k] == LowerChar(s[k])
  {
    if s == [] then [] else [LowerChar(s[0])] + Lower(s[1..])
  }

  /** Lowercasing does not change which positions hold whitespace, so a stripped
      string stays stripped and a blank one stays blank. */
  lemma LowerKeepsSpaces(s: string)
    ensures IsStripped(s) ==> IsStripped(Lower(s))
    ensures AllSpace(Lower(s)) <==> AllSpace(s)
  {
    var r := Lower(s);
    if AllSpace(r) {
      forall k | 0 <= k < |s| ensures IsSpace(s[k]) { assert IsSpace(r[k]); }
    }
  }

  /** `lower()` is idempotent. */
  lemma LowerIdempotent(s: string)
    ensures Lower(Lower(s)) == Lower(s)
  {
  }

  /** The line-ending characters of text mode with universal newlines. */
  predicate IsLineBreak(c: char) {
    c == '\n' || c == '\r'
  }

  predicate NoLineBreak(s: string) {
    forall k :: 0 <= k < |s| ==> !IsLineBreak(s[k])
  }

  /** The pieces of `text` between line-ending characters, in order. Text mode
      iteration yields the same lines with their endings attached; an `"\r\n"`
      pair and a final line ending here give an extra empty piece, which plays
      no part once blank lines are dropped. */
  function SplitLines(text: string): (lines: seq<string>)
    ensures |lines| >= 1
    ensures forall j :: 0 <= j < |lines| ==> NoLineBreak(lines[j])
  {
    if text == [] then [""]
    else if IsLineBreak(text[0]) then [""] + SplitLines(text[1..])
    else
      var rest := SplitLines(text[1..]);
      [[text[0]] + rest[0]] + rest[1..]
  }

  /** The lines joined with `"\n"` between them. */
  function JoinLines(lines: seq<string>): (text: string)
    requires |lines| >= 1
  {
    if |lines| == 1 then lines[0] else lines[0] + "\n" + JoinLines(lines[1..])
  }

  /** `text` with every line-ending character written as `"\n"`. */
  function UnifyBreaks(text: string): (u: string)
    ensures |u| == |text|
    ensures forall k :: 0 <= k < |text| ==> u[k] == if IsLineBreak(text[k]) then '\n' else text[k]
  {
    if text == [] then [] else [if IsLineBreak(text[0]) then '\n' else text[0]] + UnifyBreaks(text[1..])
  }

  /** Splitting loses nothing but the kind of line ending. */
  lemma {:induction false} JoinSplit(text: string)
    ensures JoinLines(SplitLines(text)) == UnifyBreaks(text)
  {
    if text == [] {
    } else if IsLineBreak(text[0]) {
      JoinSplit(text[1..]);
      assert SplitLines(text)[1..] == SplitLines(text[1..]);
    } else {
      JoinSplit(text[1..]);
      var rest := SplitLines(text[1..]);
      if |rest| == 1 {
      } else {
        assert (SplitLines(text))[1..] == rest[1..];
        assert JoinLines(SplitLines(text)) == [text[0]] + rest[0] + "\n" + JoinLines(rest[1..]);
      }
    }
  }

  /** Lines without line endings come back unchanged from joining and splitting. */
  lemma {:induction false} SplitJoin(lines: seq<string>)
    requires |lines| >= 1
    requires forall j :: 0 <= j < |lines| ==> NoLineBreak(lines[j])
    ensures SplitLines(JoinLines(lines)) == lines
  {
    if |lines| == 1 {
      SplitLineFree(lines[0], []);
    } else {
      SplitJoin(lines[1..]);
      SplitLineFree(lines[0], lines[1..]);
    }
  }

  /** Splitting `line` (no line endings) followed, when `more` is not empty, by
      `"\n"` and the joined `more`. */
  lemma {:induction false} SplitLineFree(line: string, more: seq<string>)
    requires NoLineBreak(line)
    requires more != [] ==> SplitLines(JoinLines(more)) == more
    ensures more == [] ==> SplitLines(line) == [line]
    ensures more != [] ==> SplitLines(line + "\n" + JoinLines(more)) == [line] + more
  {
    if more == [] {
      if line != [] {
        SplitLineFree(line[1..], more);
        assert line == [line[0]] + line[1..];
      }
    } else {
      var text := line + "\n" + JoinLines(more);
      if line == [] {
        assert text[1..] == JoinLines(more);
      } else {
        assert text[1..] == line[1..] + "\n" + JoinLines(more);
        SplitLineFree(line[1..], more);
        var rest := SplitLines(text[1..]);
        assert rest == [line[1..]] + more;
        assert SplitLines(text) == [[line[0]] + rest[0]] + rest[1..];
        assert [line[0]] + line[1..] == line;
      }
    }
  }
}
