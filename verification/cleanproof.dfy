/** `clean_proof` of the text-scan extractor: drop leading `:=` and
    whitespace, remove `--` line comments and `/- -/` block comments, and
    cut the text at the first line that starts a new declaration. The
    regular expressions are written out as the left-to-right scans that
    `re.sub` performs. */
module CleanProof {
  import opened Basics
  import opened Text

  /** The class `[ \t\n:=]`. */
  predicate Junk(c: char) {
    c == ' ' || c == '\t' || c == '\n' || c == ':' || c == '='
  }

  /** `re.sub(r'^[ \t\n:=]+', '', s)`: the longest prefix of the class is
      removed, and nothing else. */
  function DropJunk(s: string): (r: string)
    ensures |r| <= |s| && r == s[|s| - |r|..]
    ensures forall j :: 0 <= j < |s| - |r| ==> Junk(s[j])
    ensures |r| > 0 ==> !Junk(r[0])
    decreases |s|
  {
    if |s| > 0 && Junk(s[0]) then DropJunk(s[1..]) else s
  }

  /** No `a` immediately followed by `b` anywhere in `s`. */
  predicate NoPair(s: string, a: char, b: char) {
    forall i :: 0 <= i < |s| - 1 ==> !(s[i] == a && s[i + 1] == b)
  }

  /** A text without `a` has no pair starting with it. */
  lemma NoPairWithout(s: string, a: char, b: char)
    requires a !in s
    ensures NoPair(s, a, b)
  {
    forall i | 0 <= i < |s| - 1 ensures s[i] != a {
      assert s[i] in s;
    }
  }

  /** Two texts without the pair, not forming it at the seam, concatenate
      to a text without it. */
  lemma NoPairConcat(u: string, v: string, a: char, b: char)
    requires NoPair(u, a, b) && NoPair(v, a, b)
    requires |u| == 0 || |v| == 0 || !(u[|u| - 1] == a && v[0] == b)
    ensures NoPair(u + v, a, b)
  {
    var w := u + v;
    forall i | 0 <= i < |w| - 1 ensures !(w[i] == a && w[i + 1] == b) {
      if i < |u| - 1 {
        assert w[i] == u[i] && w[i + 1] == u[i + 1];
      } else if i == |u| - 1 {
        assert w[i] == u[|u| - 1] && w[i + 1] == v[0];
      } else {
        assert w[i] == v[i - |u|] && w[i + 1] == v[i - |u| + 1];
      }
    }
  }

  /** No `--` anywhere. */
  predicate NoLineComment(s: string) {
    NoPair(s, '-', '-')
  }

  /** `re.sub(r'--.*', '', s)`: from every `--` up to (not including) the
      next line break. Scanning resumes at that line break. */
  function StripLineComments(s: string): (r: string)
    ensures NoLineComment(r)
    ensures |r| > 0 ==> (|s| > 0 && r[0] == s[0]) || r[0] == '\n'
    ensures IsSubseq(r, s)
    decreases |s|
  {
    if |s| < 2 then
      SubseqRefl(s);
      s
    else if s[0] == '-' && s[1] == '-' then
      match IndexOfChar(s, '\n')
      case None => []
      case Some(k) =>
        var r := StripLineComments(s[k..]);
        SubseqDrop(r, s, k);
        r
    else
      var r := StripLineComments(s[1..]);
      assert IsSubseq([s[0]] + r, s) by {
        assert ([s[0]] + r)[1..] == r;
      }
      [s[0]] + r
  }

  /** A subsequence of a suffix is a subsequence of the whole. */
  lemma {:induction false} SubseqDrop<T>(r: seq<T>, s: seq<T>, k: nat)
    requires k <= |s| && IsSubseq(r, s[k..])
    ensures IsSubseq(r, s)
    decreases k
  {
    if k > 0 {
      assert s[1..][k - 1..] == s[k..];
      SubseqDrop(r, s[1..], k - 1);
      if |r| > 0 {
        assert IsSubseq(r, s[1..]);
      }
    }
  }

  /** Without any `--` the line pass changes nothing. */
  lemma {:induction false} StripLineCommentsKeeps(s: string)
    requires NoLineComment(s)
    ensures StripLineComments(s) == s
    decreases |s|
  {
    if |s| >= 2 {
      assert !(s[0] == '-' && s[1] == '-');
      assert NoLineComment(s[1..]) by {
        forall i | 0 <= i < |s[1..]| - 1 ensures !(s[1..][i] == '-' && s[1..][i + 1] == '-') {
          assert s[1..][i] == s[i + 1] && s[1..][i + 1] == s[i + 2];
        }
      }
      StripLineCommentsKeeps(s[1..]);
      assert [s[0]] + s[1..] == s;
    }
  }

  /** No `/-` anywhere. */
  predicate NoBlockOpener(s: string) {
    NoPair(s, '/', '-')
  }

  /** `re.sub(r'/-[\s\S]*?-/', '', s)`: from a `/-` to the first `-/` that
      starts after it, inclusive; a `/-` with no closer after it stays. */
  function StripBlockComments(s: string): (r: string)
    ensures IsSubseq(r, s)
    decreases |s|
  {
    if |s| < 2 then
      SubseqRefl(s);
      s
    else
      var closer := if s[0] == '/' && s[1] == '-' then IndexOf(s, "-/", 2) else None;
      if closer.Some? then
        var r := StripBlockComments(s[closer.value + 2..]);
        SubseqDrop(r, s, closer.value + 2);
        r
      else
        var r := StripBlockComments(s[1..]);
        assert IsSubseq([s[0]] + r, s) by {
          assert ([s[0]] + r)[1..] == r;
        }
        [s[0]] + r
  }

  /** Without any `/-` the block pass changes nothing. */
  lemma {:induction false} StripBlockCommentsKeeps(s: string)
    requires NoBlockOpener(s)
    ensures StripBlockComments(s) == s
    decreases |s|
  {
    if |s| >= 2 {
      assert !(s[0] == '/' && s[1] == '-');
      assert NoBlockOpener(s[1..]) by {
        forall i | 0 <= i < |s[1..]| - 1 ensures !(s[1..][i] == '/' && s[1..][i + 1] == '-') {
          assert s[1..][i] == s[i + 1] && s[1..][i + 1] == s[i + 2];
        }
      }
      StripBlockCommentsKeeps(s[1..]);
      assert [s[0]] + s[1..] == s;
    }
  }

  /** Where no comment opens at the front, the first character is kept. */
  lemma BlockSkip(s: string)
    requires |s| >= 2 && !(s[0] == '/' && s[1] == '-')
    ensures StripBlockComments(s) == [s[0]] + StripBlockComments(s[1..])
  {
  }

  /** A comment opening at the front is removed up to its first closer. */
  lemma BlockRemoved(s: string, k: nat)
    requires |s| >= 2 && s[0] == '/' && s[1] == '-' && IndexOf(s, "-/", 2) == Some(k)
    ensures StripBlockComments(s) == StripBlockComments(s[k + 2..])
  {
  }

  /** With no `-` inside the comment, its closer is the first `-/`. */
  lemma FirstCloser(c: string, rest: string)
    requires '-' !in c
    ensures IndexOf("/-" + c + "-/" + rest, "-/", 2) == Some(2 + |c|)
  {
    var s := "/-" + c + "-/" + rest;
    assert s[2 + |c|..4 + |c|] == "-/";
    forall j | 2 <= j < 2 + |c| ensures !OccursAt(s, "-/", j) {
      assert s[j] == c[j - 2];
      NotOccursAt(s, "-/", j, 0);
    }
    IndexOfIs(s, "-/", 2, 2 + |c|);
  }

  /** A leading block comment without `-` inside goes, and the pass goes
      on with what follows it. */
  lemma LeadingBlockRemoved(c: string, rest: string)
    requires '-' !in c
    ensures StripBlockComments("/-" + c + "-/" + rest) == StripBlockComments(rest)
  {
    var s := "/-" + c + "-/" + rest;
    FirstCloser(c, rest);
    BlockRemoved(s, 2 + |c|);
    assert s[4 + |c|..] == rest;
  }

  /** Removing a block comment can join two halves of another one:
      `//-a-/-x-/` becomes `/-x-/`. */
  lemma BlockPassCanLeaveComment(a: string, x: string)
    requires '-' !in a && '/' !in x
    ensures StripBlockComments("/" + ("/-" + a + "-/" + ("-" + x + "-/"))) == "/-" + x + "-/"
  {
    var tail := "-" + x + "-/";
    var t := "/-" + a + "-/" + tail;
    var s := "/" + t;
    assert s[0] == '/' && s[1..] == t;
    BlockSkip(s);
    LeadingBlockRemoved(a, tail);
    ClosedTailKept(x);
    assert [s[0]] + tail == "/-" + x + "-/";
  }

  /** `-x-/` with no `/` in `x` opens no comment. */
  lemma ClosedTailKept(x: string)
    requires '/' !in x
    ensures StripBlockComments("-" + x + "-/") == "-" + x + "-/"
  {
    var tail := "-" + x + "-/";
    forall i | 0 <= i < |tail| - 1 ensures tail[i] != '/' {
      assert tail[i] == (if i == 0 || i == |x| + 1 then '-' else x[i - 1]);
    }
    StripBlockCommentsKeeps(tail);
  }

  /** The block pass runs after the line pass, so removing a block comment
      can leave a `--` behind: `-/-x-/-` becomes `--`. */
  lemma BlockPassCanLeaveLineComment(x: string)
    requires |x| > 0 && '-' !in x
    ensures StripBlockComments(StripLineComments("-/-" + x + "-/-")) == "--"
  {
    DashedHasNoLineComment(x);
    StripLineCommentsKeeps("-/-" + x + "-/-");
    BlockPassOnDashed(x);
  }

  lemma DashedHasNoLineComment(x: string)
    requires |x| > 0 && '-' !in x
    ensures NoLineComment("-/-" + x + "-/-")
  {
    NoPairWithout(x, '-', '-');
    NoPairConcat("-/-", x, '-', '-');
    NoPairConcat("-/-" + x, "-/-", '-', '-');
  }

  lemma BlockPassOnDashed(x: string)
    requires '-' !in x
    ensures StripBlockComments("-/-" + x + "-/-") == "--"
  {
    var s := "-/-" + x + "-/-";
    BlockSkip(s);
    assert s[1..] == "/-" + x + "-/" + "-";
    LeadingBlockRemoved(x, "-");
  }

  const StopKeywords: seq<string> :=
    ["theorem", "lemma", "instance", "variable", "section", "namespace", "def", "abbrev", "@[", "#"]

  /** `any(t.startswith(k) for k in keywords)`. */
  predicate StartsWithSome(t: string, keywords: seq<string>)
    decreases |keywords|
  {
    |keywords| > 0 && (StartsWith(t, keywords[0]) || StartsWithSome(t, keywords[1..]))
  }

  /** The characters the stop keywords start with. */
  const StopInitials: string := "tlivsnda@#"

  lemma StopKeywordsStartWithInitials()
    ensures forall i :: 0 <= i < |StopKeywords| ==> |StopKeywords[i]| > 0 && StopKeywords[i][0] in StopInitials
  {
    forall i | 0 <= i < |StopKeywords| ensures |StopKeywords[i]| > 0 && StopKeywords[i][0] in StopInitials {
      assert StopKeywords[i][0] == StopInitials[if i < 8 then i else i - 8 + 8];
    }
  }

  /** A line whose stripped text starts with none of the initials is not a
      stop line. */
  lemma NotStopLine(line: string)
    requires |Strip(line)| > 0 && Strip(line)[0] !in StopInitials
    ensures !StopLine(line)
  {
    StopKeywordsStartWithInitials();
    NotStartsWithSome(Strip(line), StopKeywords);
  }

  /** No keyword can be a prefix of a text whose first character starts
      none of them. */
  lemma {:induction false} NotStartsWithSome(t: string, keywords: seq<string>)
    requires |t| > 0
    requires forall i :: 0 <= i < |keywords| ==> |keywords[i]| > 0 && keywords[i][0] != t[0]
    ensures !StartsWithSome(t, keywords)
    decreases |keywords|
  {
    if |keywords| > 0 {
      var k := keywords[0];
      if |k| <= |t| {
        assert t[..|k|][0] == t[0];
      }
      NotStartsWithSome(t, keywords[1..]);
    }
  }

  /** A line that starts a new declaration or command. */
  predicate StopLine(line: string) {
    StartsWithSome(Strip(line), StopKeywords)
  }

  /** The index of the first stop line, or the number of lines. */
  function FirstStop(lines: seq<string>): (k: nat)
    ensures k <= |lines|
    ensures forall i :: 0 <= i < k ==> !StopLine(lines[i])
    ensures k < |lines| ==> StopLine(lines[k])
  {
    var k := FirstWhere(lines, StopLine);
    // Links the direct calls above to the function value passed along.
    assert forall i :: 0 <= i < |lines| ==> StopLine(lines[i]) == (StopLine)(lines[i]);
    k
  }

  /** The lines before the first stop line. */
  function TakeUntilStop(lines: seq<string>): seq<string> {
    lines[..FirstStop(lines)]
  }

  /** The first step: leading `[ \t\n:=]` characters, then whitespace
      around, go. */
  function TrimFront(text: string): string {
    Strip(DropJunk(text))
  }

  /** The two comment passes, line comments first. */
  function Uncomment(text: string): string {
    StripBlockComments(StripLineComments(text))
  }

  /** The last step: cut at the first stop line, then strip. */
  function CutAtStop(text: string): string {
    Strip(Join(TakeUntilStop(Split(text, '\n')), ['\n']))
  }

  /** `clean_proof`. An absent or empty text gives the empty text. */
  function Clean(text: Option<string>): (r: string)
    ensures text.None? || text == Some("") ==> r == ""
    ensures |r| > 0 ==> !IsSpace(r[0]) && !IsSpace(r[|r| - 1])
  {
    if text.None? || text.value == "" then ""
    else CutAtStop(Uncomment(TrimFront(text.value)))
  }

  /** A text that is already clean comes back unchanged: nothing to drop
      in front, no whitespace around it, no comment, no stop line. */
  lemma CleanKeepsCleanText(text: string)
    requires |text| > 0 && !Junk(text[0]) && !IsSpace(text[0]) && !IsSpace(text[|text| - 1])
    requires NoLineComment(text) && NoBlockOpener(text)
    requires forall i :: 0 <= i < |Split(text, '\n')| ==> !StopLine(Split(text, '\n')[i])
    ensures Clean(Some(text)) == text
  {
    TrimFrontKeeps(text);
    UncommentKeeps(text);
    CutAtStopKeeps(text);
  }

  /** A text without comments survives the comment passes. */
  lemma UncommentKeeps(text: string)
    requires NoLineComment(text) && NoBlockOpener(text)
    ensures Uncomment(text) == text
  {
    StripLineCommentsKeeps(text);
    StripBlockCommentsKeeps(text);
  }

  /** A trimmed text without stop lines survives the last step. */
  lemma CutAtStopKeeps(text: string)
    requires |text| > 0 && !IsSpace(text[0]) && !IsSpace(text[|text| - 1])
    requires forall i :: 0 <= i < |Split(text, '\n')| ==> !StopLine(Split(text, '\n')[i])
    ensures CutAtStop(text) == text
  {
    var lines := Split(text, '\n');
    NoStopLineKeepsAll(lines);
    assert Join(TakeUntilStop(lines), ['\n']) == text;
    StripKeepsTrimmed(text);
  }

  /** Without a stop line every line is kept. */
  lemma NoStopLineKeepsAll(lines: seq<string>)
    requires forall i :: 0 <= i < |lines| ==> !StopLine(lines[i])
    ensures TakeUntilStop(lines) == lines
  {
    assert FirstStop(lines) == |lines|;
  }

  /** A single line that is trimmed and is no stop line survives the last
      step. */
  lemma CutAtStopKeepsLine(line: string)
    requires |line| > 0 && '\n' !in line && !IsSpace(line[0]) && !IsSpace(line[|line| - 1])
    requires line[0] !in StopInitials
    ensures CutAtStop(line) == line
  {
    StripKeepsTrimmed(line);
    NotStopLine(line);
    assert Split(line, '\n') == [line];
    assert FirstStop([line]) == 1;
    assert TakeUntilStop([line]) == [line];
  }

  /** A leading block comment is removed by the comment passes. */
  lemma UncommentLeadingComment(c: string, rest: string)
    requires |c| > 0 && '-' !in c
    requires NoLineComment(rest) && NoBlockOpener(rest)
    ensures Uncomment("/-" + c + "-/" + rest) == rest
  {
    var s := "/-" + c + "-/" + rest;
    NoPairWithout(c, '-', '-');
    NoPairConcat("/-", c, '-', '-');
    NoPairConcat("/-" + c, "-/", '-', '-');
    NoPairConcat("/-" + c + "-/", rest, '-', '-');
    StripLineCommentsKeeps(s);
    LeadingBlockRemoved(c, rest);
    StripBlockCommentsKeeps(rest);
  }

  /** A text with nothing to drop in front and no whitespace around it
      survives the first step. */
  lemma TrimFrontKeeps(s: string)
    requires |s| > 0 && !Junk(s[0]) && !IsSpace(s[0]) && !IsSpace(s[|s| - 1])
    ensures TrimFront(s) == s
  {
    assert DropJunk(s) == s;
    StripKeepsTrimmed(s);
  }

  /** A comment in front of `:=` hides it from the first step, so the
      result can still start with `:`. */
  lemma LeadingCommentExposesAssign(c: string, rest: string)
    requires |c| > 0 && '-' !in c
    requires |rest| > 0 && rest[0] == ':' && '\n' !in rest && !IsSpace(rest[|rest| - 1])
    requires NoLineComment(rest) && NoBlockOpener(rest)
    ensures Clean(Some("/-" + c + "-/" + rest)) == rest && Junk(rest[0])
  {
    var s := "/-" + c + "-/" + rest;
    assert s[|s| - 1] == rest[|rest| - 1];
    TrimFrontKeeps(s);
    UncommentLeadingComment(c, rest);
    CutAtStopKeepsLine(rest);
  }
}
