/** The field extractor of the export script: a match's banner is split into
    lines, and the first line starting with "Server:" (resp. "P3P:") is kept,
    stripped, or the sentinel "N/A" stands in when no line starts so. */
module Banner {
  import opened Text

  const Sentinel: string := "N/A"
  const ServerPrefix: string := "Server:"
  const P3PPrefix: string := "P3P:"

  /** A prefix that `strip()` can never cut into: non-empty, not starting or
      ending with whitespace, and not itself a prefix of the sentinel. */
  predicate FieldPrefix(prefix: string) {
    && |prefix| > 0
    && !IsSpace(prefix[0])
    && !IsSpace(prefix[|prefix| - 1])
    && !StartsWith(Sentinel, prefix)
  }

  /** What the `for ... break ... else` scan assigns: the first line starting
      with `prefix`, stripped, or the sentinel. */
  function FirstField(lines: seq<string>, prefix: string): string
  {
    if lines == [] then Sentinel
    else if StartsWith(lines[0], prefix) then Strip(lines[0])
    else FirstField(lines[1..], prefix)
  }

  /** Line `i` is the first one that starts with `prefix`. */
  predicate IsFirstMatch(lines: seq<string>, prefix: string, i: nat) {
    && i < |lines|
    && StartsWith(lines[i], prefix)
    && forall j :: 0 <= j < i ==> !StartsWith(lines[j], prefix)
  }

  predicate NoLineStartsWith(lines: seq<string>, prefix: string) {
    forall j :: 0 <= j < |lines| ==> !StartsWith(lines[j], prefix)
  }

  /** With no line starting with the prefix, the scan yields the sentinel. */
  lemma {:induction false} FirstFieldNoMatch(lines: seq<string>, prefix: string)
    requires NoLineStartsWith(lines, prefix)
    ensures FirstField(lines, prefix) == Sentinel
  {
    if lines != [] {
      assert NoLineStartsWith(lines[1..], prefix) by {
        forall j | 0 <= j < |lines| - 1 ensures !StartsWith(lines[1..][j], prefix) {
          assert lines[1..][j] == lines[j + 1];
        }
      }
      FirstFieldNoMatch(lines[1..], prefix);
    }
  }

  /** The scan yields the first matching line, stripped; later matches are ignored. */
  lemma {:induction false} FirstFieldAt(lines: seq<string>, prefix: string, i: nat)
    requires IsFirstMatch(lines, prefix, i)
    ensures FirstField(lines, prefix) == Strip(lines[i])
  {
    if i > 0 {
      assert !StartsWith(lines[0], prefix);
      assert IsFirstMatch(lines[1..], prefix, i - 1) by {
        forall j | 0 <= j < i - 1 ensures !StartsWith(lines[1..][j], prefix) {
          assert lines[1..][j] == lines[j + 1];
        }
      }
      FirstFieldAt(lines[1..], prefix, i - 1);
    }
  }

  /** When some line starts with the prefix, one of them is the first. */
  lemma {:induction false} FirstMatchExists(lines: seq<string>, prefix: string)
    requires !NoLineStartsWith(lines, prefix)
    ensures exists i: nat :: IsFirstMatch(lines, prefix, i)
  {
    if StartsWith(lines[0], prefix) {
      assert IsFirstMatch(lines, prefix, 0);
    } else {
      var tail := lines[1..];
      var j :| 0 <= j < |lines| && StartsWith(lines[j], prefix);
      assert tail[j - 1] == lines[j];
      FirstMatchExists(tail, prefix);
      var k: nat :| IsFirstMatch(tail, prefix, k);
      assert forall m :: 0 < m <= k ==> lines[m] == tail[m - 1];
      assert IsFirstMatch(lines, prefix, k + 1);
    }
  }

  /** The extracted field is the sentinel or a string that begins with the prefix,
      and it is the sentinel exactly when no line begins with the prefix. */
  lemma FieldShape(lines: seq<string>, prefix: string)
    requires FieldPrefix(prefix)
    ensures FirstField(lines, prefix) == Sentinel <==> NoLineStartsWith(lines, prefix)
    ensures FirstField(lines, prefix) == Sentinel || StartsWith(FirstField(lines, prefix), prefix)
  {
    if NoLineStartsWith(lines, prefix) {
      FirstFieldNoMatch(lines, prefix);
    } else {
      FirstMatchExists(lines, prefix);
      var i: nat :| IsFirstMatch(lines, prefix, i);
      FirstFieldAt(lines, prefix, i);
      StripKeepsPrefix(lines[i], prefix);
    }
  }

  lemma ServerAndP3PArePrefixes()
    ensures FieldPrefix(ServerPrefix) && FieldPrefix(P3PPrefix)
    ensures forall line :: !(StartsWith(line, ServerPrefix) && StartsWith(line, P3PPrefix))
  {
    forall line | StartsWith(line, ServerPrefix)
      ensures !StartsWith(line, P3PPrefix)
    {
      assert line[0] == 'S';
    }
  }

  /** The lines that start with `prefix`, in their order. */
  function Matching(lines: seq<string>, prefix: string): seq<string>
  {
    if lines == [] then []
    else (if StartsWith(lines[0], prefix) then [lines[0]] else []) + Matching(lines[1..], prefix)
  }

  lemma {:induction false} MatchingAppend(a: seq<string>, b: seq<string>, prefix: string)
    ensures Matching(a + b, prefix) == Matching(a, prefix) + Matching(b, prefix)
  {
    if a != [] {
      assert (a + b)[1..] == a[1..] + b;
      MatchingAppend(a[1..], b, prefix);
    } else {
      assert a + b == b;
    }
  }

  lemma {:induction false} FirstFieldOfMatching(lines: seq<string>, prefix: string)
    ensures FirstField(lines, prefix) == FirstField(Matching(lines, prefix), prefix)
  {
    if lines != [] {
      FirstFieldOfMatching(lines[1..], prefix);
      var m := Matching(lines, prefix);
      if StartsWith(lines[0], prefix) {
        assert m == [lines[0]] + Matching(lines[1..], prefix);
        assert m[0] == lines[0] && StartsWith(m[0], prefix);
      } else {
        assert m == [] + Matching(lines[1..], prefix);
        assert m == Matching(lines[1..], prefix);
      }
    }
  }

  /** A field depends only on the lines that start with its own prefix. */
  lemma {:induction false} OnlyOwnLinesMatter(a: seq<string>, b: seq<string>, prefix: string)
    requires Matching(a, prefix) == Matching(b, prefix)
    ensures FirstField(a, prefix) == FirstField(b, prefix)
  {
    FirstFieldOfMatching(a, prefix);
    FirstFieldOfMatching(b, prefix);
  }

  /** Inserting a "P3P:" line anywhere leaves the server field as it was. */
  lemma ServerIgnoresP3PLines(lines: seq<string>, i: nat, line: string)
    requires i <= |lines| && StartsWith(line, P3PPrefix)
    ensures FirstField(lines[..i] + [line] + lines[i..], ServerPrefix) == FirstField(lines, ServerPrefix)
  {
    ServerAndP3PArePrefixes();
    InsertNonMatching(lines, i, line, ServerPrefix);
  }

  /** Inserting a "Server:" line anywhere leaves the P3P field as it was. */
  lemma P3PIgnoresServerLines(lines: seq<string>, i: nat, line: string)
    requires i <= |lines| && StartsWith(line, ServerPrefix)
    ensures FirstField(lines[..i] + [line] + lines[i..], P3PPrefix) == FirstField(lines, P3PPrefix)
  {
    ServerAndP3PArePrefixes();
    InsertNonMatching(lines, i, line, P3PPrefix);
  }

  /** Rewriting a "P3P:" line into another "P3P:" line leaves the server field as it was. */
  lemma ServerIgnoresP3PEdits(lines: seq<string>, i: nat, line: string)
    requires i < |lines| && StartsWith(lines[i], P3PPrefix) && StartsWith(line, P3PPrefix)
    ensures FirstField(lines[i := line], ServerPrefix) == FirstField(lines, ServerPrefix)
  {
    ServerAndP3PArePrefixes();
    ReplaceNonMatching(lines, i, line, ServerPrefix);
  }

  /** Rewriting a "Server:" line into another "Server:" line leaves the P3P field as it was. */
  lemma P3PIgnoresServerEdits(lines: seq<string>, i: nat, line: string)
    requires i < |lines| && StartsWith(lines[i], ServerPrefix) && StartsWith(line, ServerPrefix)
    ensures FirstField(lines[i := line], P3PPrefix) == FirstField(lines, P3PPrefix)
  {
    ServerAndP3PArePrefixes();
    ReplaceNonMatching(lines, i, line, P3PPrefix);
  }

  lemma {:induction false} InsertNonMatching(lines: seq<string>, i: nat, line: string, prefix: string)
    requires i <= |lines| && !StartsWith(line, prefix)
    ensures FirstField(lines[..i] + [line] + lines[i..], prefix) == FirstField(lines, prefix)
  {
    var before, after := lines[..i], lines[i..];
    assert Matching([line], prefix) == [];
    MatchingAppend(before + [line], after, prefix);
    MatchingAppend(before, [line], prefix);
    MatchingAppend(before, after, prefix);
    assert before + after == lines;
    assert Matching(before + [line] + after, prefix) == Matching(lines, prefix);
    OnlyOwnLinesMatter(before + [line] + after, lines, prefix);
  }

  lemma {:induction false} ReplaceNonMatching(lines: seq<string>, i: nat, line: string, prefix: string)
    requires i < |lines| && !StartsWith(lines[i], prefix) && !StartsWith(line, prefix)
    ensures FirstField(lines[i := line], prefix) == FirstField(lines, prefix)
  {
    var edited := lines[i := line];
    assert lines == lines[..i] + [lines[i]] + lines[i + 1..];
    assert edited == lines[..i] + [line] + lines[i + 1..];
    MatchingAppend(lines[..i] + [lines[i]], lines[i + 1..], prefix);
    MatchingAppend(lines[..i], [lines[i]], prefix);
    MatchingAppend(lines[..i] + [line], lines[i + 1..], prefix);
    MatchingAppend(lines[..i], [line], prefix);
    OnlyOwnLinesMatter(edited, lines, prefix);
  }

  /** Lines 48-53 (and 55-60) as written: a scan that stops at the first
      matching line, with the sentinel assigned when the loop runs out. */
  method ExtractField(lines: seq<string>, prefix: string) returns (field: string)
    ensures field == FirstField(lines, prefix)
  {
    var i := 0;
    while i < |lines|
      invariant 0 <= i <= |lines|
      invariant FirstField(lines[i..], prefix) == FirstField(lines, prefix)
    {
      if StartsWith(lines[i], prefix) {
        field := Strip(lines[i]);
        return;
      }
      assert lines[i..][1..] == lines[i + 1..];
      i := i + 1;
    }
    field := Sentinel;
  }

  /** The (server, P3P) pair the script derives from one banner. */
  function Fields(banner: string): (string, string)
  {
    var lines := Split(banner);
    (FirstField(lines, ServerPrefix), FirstField(lines, P3PPrefix))
  }

  /** Lines 47-60: split once, then run the two independent scans. */
  method ExtractFields(banner: string) returns (server: string, p3p: string)
    ensures (server, p3p) == Fields(banner)
    ensures server == Sentinel || StartsWith(server, ServerPrefix)
    ensures p3p == Sentinel || StartsWith(p3p, P3PPrefix)
  {
    var lines := Split(banner);
    server := ExtractField(lines, ServerPrefix);
    p3p := ExtractField(lines, P3PPrefix);
    ServerAndP3PArePrefixes();
    FieldShape(lines, ServerPrefix);
    FieldShape(lines, P3PPrefix);
  }

  /** An empty banner is the single line "" and yields the sentinel twice. */
  lemma EmptyBannerFields()
    ensures Fields("") == (Sentinel, Sentinel)
  {
    assert Split("") == [""];
  }

  /** A banner with a Server, a Date and a P3P header line. */
  lemma ApacheBannerFields()
    ensures Fields("Server: Apache/2.4\nDate: Mon\nP3P: CP=\"NOI DSP\"")
         == ("Server: Apache/2.4", "P3P: CP=\"NOI DSP\"")
  {
    ApacheBanner("Server: Apache/2.4\nDate: Mon\nP3P: CP=\"NOI DSP\"",
                 "Server: Apache/2.4", "Date: Mon", "P3P: CP=\"NOI DSP\"");
  }

  // ApacheBanner, ApacheBannerLines and ApacheLineKinds take the literals as
  // parameters pinned by `requires`: splitting or stripping a literal in place
  // makes the solver unfold it character by character, which is far costlier.
  lemma ApacheBanner(banner: string, server: string, date: string, p3p: string)
    requires banner == "Server: Apache/2.4\nDate: Mon\nP3P: CP=\"NOI DSP\""
    requires server == "Server: Apache/2.4" && date == "Date: Mon" && p3p == "P3P: CP=\"NOI DSP\""
    ensures Fields(banner) == (server, p3p)
  {
    ApacheBannerLines(banner, server, date, p3p);
    ApacheLineKinds(server, date, p3p);
    ThreeLineFields(banner, server, date, p3p);
  }

  lemma ApacheBannerLines(banner: string, server: string, date: string, p3p: string)
    requires banner == "Server: Apache/2.4\nDate: Mon\nP3P: CP=\"NOI DSP\""
    requires server == "Server: Apache/2.4" && date == "Date: Mon" && p3p == "P3P: CP=\"NOI DSP\""
    ensures Split(banner) == [server, date, p3p]
  {
    assert banner == server + "\n" + date + "\n" + p3p;
    SplitThree(server, date, p3p);
  }

  lemma SplitThree(a: string, b: string, c: string)
    requires '\n' !in a && '\n' !in b && '\n' !in c
    ensures Split(a + "\n" + b + "\n" + c) == [a, b, c]
  {
    JoinThree(a, b, c);
    SplitJoin([a, b, c]);
  }

  lemma ApacheLineKinds(server: string, date: string, p3p: string)
    requires server == "Server: Apache/2.4" && date == "Date: Mon" && p3p == "P3P: CP=\"NOI DSP\""
    ensures StartsWith(server, ServerPrefix) && !StartsWith(server, P3PPrefix) && Strip(server) == server
    ensures !StartsWith(date, P3PPrefix)
    ensures StartsWith(p3p, P3PPrefix) && Strip(p3p) == p3p
  {
    assert server[..|ServerPrefix|] == ServerPrefix;
    assert p3p[..|P3PPrefix|] == P3PPrefix;
    assert server[0] != P3PPrefix[0] && date[0] != P3PPrefix[0];
    StripOfPlainLine(server);
    StripOfPlainLine(p3p);
  }

  lemma JoinThree(a: string, b: string, c: string)
    ensures Join([a, b, c]) == a + "\n" + b + "\n" + c
  {
    assert [a, b, c][1..] == [b, c];
    assert [b, c][1..] == [c];
    assert Join([c]) == c;
    assert Join([b, c]) == b + "\n" + c;
    assert Join([a, b, c]) == a + "\n" + (b + "\n" + c);
  }

  /** A banner whose lines are a Server line, a line that is neither, and a P3P line. */
  lemma ThreeLineFields(banner: string, server: string, other: string, p3p: string)
    requires Split(banner) == [server, other, p3p]
    requires StartsWith(server, ServerPrefix) && !StartsWith(server, P3PPrefix)
    requires !StartsWith(other, P3PPrefix) && StartsWith(p3p, P3PPrefix)
    ensures Fields(banner) == (Strip(server), Strip(p3p))
  {
    var lines := [server, other, p3p];
    assert lines[1..] == [other, p3p];
    assert lines[1..][1..] == [p3p];
    assert FirstField([p3p], P3PPrefix) == Strip(p3p);
    assert FirstField([other, p3p], P3PPrefix) == Strip(p3p);
  }

  lemma StripOfPlainLine(line: string)
    requires |line| > 0 && !IsSpace(line[0]) && !IsSpace(line[|line| - 1])
    ensures Strip(line) == line
  {
  }

  /** A banner with neither header line. */
  lemma DateOnlyBannerFields()
    ensures Fields("Date: Mon") == (Sentinel, Sentinel)
  {
    SplitJoin(["Date: Mon"]);
    assert !StartsWith("Date: Mon", ServerPrefix) && !StartsWith("Date: Mon", P3PPrefix);
  }
}
