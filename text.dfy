/** The string operations the export script leans on: Python's `str.split("\n")`,
    `str.startswith` and the argument-less `str.strip()`. `Join` (`"\n".join`)
    is not used by the script; it is the inverse that shows `Split` loses nothing. */
module Text {

  /** Python's `str.isspace` on the ASCII range: tab, line feed, vertical tab,
      form feed, carriage return, the four separators 0x1C..0x1F, and space. */
  predicate IsSpace(c: char) {
    c == ' ' || ('\t' <= c <= '\r') || ('\U{1C}' <= c <= '\U{1F}')
  }

  /** `s.startswith(prefix)` */
  predicate StartsWith(s: string, prefix: string) {
    prefix <= s
  }

  /** `s.split("\n")`: the pieces between line feeds, never an empty list
      (an empty string splits into the single piece ""). */
  function Split(s: string): (lines: seq<string>)
    ensures |lines| >= 1
    ensures forall i :: 0 <= i < |lines| ==> '\n' !in lines[i]
    decreases |s|
  {
    if s == [] then [""]
    else
      var rest := Split(s[1..]);
      if s[0] == '\n' then [""] + rest
      else [[s[0]] + rest[0]] + rest[1..]
  }

  /** `"\n".join(lines)` */
  function Join(lines: seq<string>): string
  {
    if |lines| == 0 then ""
    else if |lines| == 1 then lines[0]
    else lines[0] + "\n" + Join(lines[1..])
  }

  /** Number of line feeds in `s`. */
  function NewlineCount(s: string): nat
  {
    if s == [] then 0 else (if s[0] == '\n' then 1 else 0) + NewlineCount(s[1..])
  }

  lemma {:induction false} SplitCount(s: string)
    ensures |Split(s)| == NewlineCount(s) + 1
    decreases |s|
  {
    if s != [] {
      SplitCount(s[1..]);
    }
  }

  /** Joining the pieces back with line feeds gives the banner again. */
  lemma {:induction false} JoinSplit(s: string)
    ensures Join(Split(s)) == s
    decreases |s|
  {
    if s != [] {
      var rest := Split(s[1..]);
      JoinSplit(s[1..]);
      if s[0] == '\n' {
        assert Join([""] + rest) == "" + "\n" + Join(rest);
        assert s == [s[0]] + s[1..];
      } else {
        JoinConsChar(s[0], rest);
        assert s == [s[0]] + s[1..];
      }
    }
  }

  /** Prepending a character to the first line prepends it to the joined text. */
  lemma {:induction false} JoinConsChar(c: char, lines: seq<string>)
    requires |lines| >= 1
    ensures Join([[c] + lines[0]] + lines[1..]) == [c] + Join(lines)
  {
    var l := [[c] + lines[0]] + lines[1..];
    assert l[0] == [c] + lines[0];
    if |lines| > 1 {
      assert l[1..] == lines[1..];
      assert Join(l) == ([c] + lines[0]) + "\n" + Join(lines[1..]);
    }
  }

  /** Splitting `x + t`, where `x` holds no line feed, glues `x` onto the first piece of `t`. */
  lemma {:induction false} SplitPrefixFree(x: string, t: string)
    requires '\n' !in x
    ensures Split(x + t) == [x + Split(t)[0]] + Split(t)[1..]
    decreases |x|
  {
    if x != [] {
      assert (x + t)[1..] == x[1..] + t;
      assert (x + t)[0] == x[0];
      SplitPrefixFree(x[1..], t);
      assert [x[0]] + (x[1..] + Split(t)[0]) == x + Split(t)[0];
    } else {
      assert x + t == t;
      assert x + Split(t)[0] == Split(t)[0];
      assert Split(t) == [Split(t)[0]] + Split(t)[1..];
    }
  }

  /** Splitting joined lines that hold no line feed gives the lines back. */
  lemma {:induction false} SplitJoin(lines: seq<string>)
    requires |lines| >= 1
    requires forall i :: 0 <= i < |lines| ==> '\n' !in lines[i]
    ensures Split(Join(lines)) == lines
  {
    if |lines| == 1 {
      SplitPrefixFree(lines[0], "");
      assert lines[0] + "" == lines[0];
    } else {
      var rest := lines[1..];
      SplitJoin(rest);
      assert Split("\n" + Join(rest)) == [""] + rest;
      assert lines[0] + "\n" + Join(rest) == lines[0] + ("\n" + Join(rest));
      SplitPrefixFree(lines[0], "\n" + Join(rest));
      assert lines[0] + "" == lines[0];
      assert lines == [lines[0]] + rest;
    }
  }

  /** `s.lstrip()`: drops the leading whitespace and nothing else. */
  function StripLeft(s: string): (r: string)
    ensures |r| <= |s| && r == s[|s| - |r|..]
    ensures forall i :: 0 <= i < |s| - |r| ==> IsSpace(s[i])
    ensures r == [] || !IsSpace(r[0])
    decreases |s|
  {
    if s != [] && IsSpace(s[0]) then StripLeft(s[1..]) else s
  }

  /** `s.rstrip()`: drops the trailing whitespace and nothing else. */
  function StripRight(s: string): (r: string)
    ensures |r| <= |s| && r == s[..|r|]
    ensures forall i :: |r| <= i < |s| ==> IsSpace(s[i])
    ensures r == [] || !IsSpace(r[|r| - 1])
    decreases |s|
  {
    if s != [] && IsSpace(s[|s| - 1]) then StripRight(s[..|s| - 1]) else s
  }

  /** `s.strip()` */
  function Strip(s: string): string
  {
    StripRight(StripLeft(s))
  }

  /** Everything of `s` before `i` and from `j` on is whitespace. */
  ghost predicate OnlySpaceOutside(s: string, i: nat, j: nat) {
    && i <= j <= |s|
    && (forall k :: 0 <= k < i ==> IsSpace(s[k]))
    && (forall k :: j <= k < |s| ==> IsSpace(s[k]))
  }

  /** The stripped text is a slice of the input, only whitespace was cut from
      either end, and the result neither starts nor ends with whitespace. */
  lemma StripIsTrimmedSlice(s: string)
    ensures exists i: nat, j: nat :: OnlySpaceOutside(s, i, j) && Strip(s) == s[i..j]
    ensures Strip(s) == [] || (!IsSpace(Strip(s)[0]) && !IsSpace(Strip(s)[|Strip(s)| - 1]))
  {
    SliceOfSlice(s, StripLeft(s), Strip(s));
  }

  /** Cutting whitespace off the front of `s`, giving `l`, and then off the back
      of `l`, giving `r`, leaves a slice of `s` with only whitespace outside it;
      neither end of `r` is whitespace. */
  lemma SliceOfSlice(s: string, l: string, r: string)
    requires |l| <= |s| && l == s[|s| - |l|..]
    requires forall k :: 0 <= k < |s| - |l| ==> IsSpace(s[k])
    requires l == [] || !IsSpace(l[0])
    requires |r| <= |l| && r == l[..|r|]
    requires forall k :: |r| <= k < |l| ==> IsSpace(l[k])
    requires r == [] || !IsSpace(r[|r| - 1])
    ensures exists i: nat, j: nat :: OnlySpaceOutside(s, i, j) && r == s[i..j]
    ensures r == [] || (!IsSpace(r[0]) && !IsSpace(r[|r| - 1]))
  {
    var i := |s| - |l|;
    var j := i + |r|;
    forall k | j <= k < |s|
      ensures IsSpace(s[k])
    {
      assert s[k] == l[k - i];
    }
    assert r == s[i..j];
    assert OnlySpaceOutside(s, i, j);
    if r != [] {
      assert r[0] == l[0];
    }
  }

  /** Stripping twice is stripping once. */
  lemma StripIdempotent(s: string)
    ensures Strip(Strip(s)) == Strip(s)
  {
    var r := Strip(s);
    StripIsTrimmedSlice(s);
    if r != [] {
      assert StripLeft(r) == r;
      assert StripRight(r) == r;
    }
  }

  /** A line that starts with a prefix whose first and last characters are not
      whitespace keeps that prefix under `strip()`, and its leading strip does nothing. */
  lemma StripKeepsPrefix(line: string, prefix: string)
    requires |prefix| > 0 && !IsSpace(prefix[0]) && !IsSpace(prefix[|prefix| - 1])
    requires StartsWith(line, prefix)
    ensures StripLeft(line) == line
    ensures StartsWith(Strip(line), prefix)
  {
    var r := StripRight(line);
    assert line[|prefix| - 1] == prefix[|prefix| - 1];
    assert |r| >= |prefix|;
    assert r[..|prefix|] == line[..|prefix|];
  }
}
