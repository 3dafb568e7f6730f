/** The Python `str` operations the extractors use, over `seq<char>`:
    whitespace stripping, substring search, `split`/`join`, `replace`,
    slicing and ASCII lower-casing. */
module Text {
  import opened Basics

  /** Python's `str.isspace()` for one character. */
  predicate IsSpace(c: char) {
    var n := c as int;
    (9 <= n <= 13) || (28 <= n <= 32) || n == 0x85 || n == 0xA0 || n == 0x1680
    || (0x2000 <= n <= 0x200A) || n == 0x2028 || n == 0x2029 || n == 0x202F
    || n == 0x205F || n == 0x3000
  }

  predicate NoSpace(s: string) {
    forall i :: 0 <= i < |s| ==> !IsSpace(s[i])
  }

  predicate AllSpace(s: string) {
    forall i :: 0 <= i < |s| ==> IsSpace(s[i])
  }

  /** `str.lstrip()`: drops the leading whitespace and nothing else. */
  function LStrip(s: string): (r: string)
    ensures |r| <= |s| && r == s[|s| - |r|..]
    ensures |r| > 0 ==> !IsSpace(r[0])
    decreases |s|
  {
    if |s| > 0 && IsSpace(s[0]) then LStrip(s[1..]) else s
  }

  /** What `LStrip` drops is whitespace. */
  lemma {:induction false} LStripDropsSpace(s: string)
    ensures forall j :: 0 <= j < |s| - |LStrip(s)| ==> IsSpace(s[j])
    decreases |s|
  {
    if |s| > 0 && IsSpace(s[0]) {
      LStripDropsSpace(s[1..]);
    }
  }

  /** `str.rstrip()`: drops the trailing whitespace and nothing else. */
  function RStrip(s: string): (r: string)
    ensures |r| <= |s| && r == s[..|r|]
    ensures forall j :: |r| <= j < |s| ==> IsSpace(s[j])
    ensures |r| > 0 ==> !IsSpace(r[|r| - 1])
    decreases |s|
  {
    if |s| > 0 && IsSpace(s[|s| - 1]) then RStrip(s[..|s| - 1]) else s
  }

  /** `r` is the slice of `s` at `i`, with only whitespace around it. */
  predicate SpaceAround(s: string, i: int, r: string) {
    0 <= i <= |s| - |r| && r == s[i..i + |r|]
    && (forall j :: 0 <= j < i ==> IsSpace(s[j]))
    && (forall j :: i + |r| <= j < |s| ==> IsSpace(s[j]))
  }

  /** `str.strip()`: the result is a slice of `s`, everything around it is
      whitespace, and it neither starts nor ends with whitespace. */
  function Strip(s: string): (r: string)
    ensures |r| > 0 ==> !IsSpace(r[0]) && !IsSpace(r[|r| - 1])
    ensures exists i :: SpaceAround(s, i, r)
  {
    LStripDropsSpace(s);
    var l := LStrip(s);
    var r := RStrip(l);
    var i := |s| - |l|;
    assert forall j :: i + |r| <= j < |s| ==> s[j] == l[j - i];
    assert SpaceAround(s, i, r);
    r
  }

  /** A text with no whitespace at either end is its own strip. */
  lemma StripKeepsTrimmed(s: string)
    requires |s| > 0 && !IsSpace(s[0]) && !IsSpace(s[|s| - 1])
    ensures Strip(s) == s
  {
  }

  predicate StartsWith(s: string, prefix: string) {
    |prefix| <= |s| && s[..|prefix|] == prefix
  }

  /** `sub` occurs in `s` starting at index `i`. */
  predicate OccursAt(s: string, sub: string, i: int) {
    0 <= i && i + |sub| <= |s| && s[i..i + |sub|] == sub
  }

  /** Python's `sub in s`. */
  predicate Contains(s: string, sub: string) {
    exists i :: 0 <= i <= |s| - |sub| && OccursAt(s, sub, i)
  }

  /** `s.find(sub, from)`, with `None` for -1: the first occurrence at or
      after `from`. */
  function IndexOf(s: string, sub: string, from: nat): (r: Option<nat>)
    ensures r.Some? ==> from <= r.value && OccursAt(s, sub, r.value)
                        && forall j :: from <= j < r.value ==> !OccursAt(s, sub, j)
    ensures r.None? ==> forall j :: from <= j ==> !OccursAt(s, sub, j)
    decreases |s| - from
  {
    if from + |sub| > |s| then None
    else if s[from..from + |sub|] == sub then Some(from)
    else IndexOf(s, sub, from + 1)
  }

  /** The first occurrence at or after `from`, pinned down. */
  lemma IndexOfIs(s: string, sub: string, from: nat, k: nat)
    requires from <= k && OccursAt(s, sub, k)
    requires forall j :: from <= j < k ==> !OccursAt(s, sub, j)
    ensures IndexOf(s, sub, from) == Some(k)
  {
  }

  /** A mismatch on any character of `sub` rules an occurrence out. */
  lemma NotOccursAt(s: string, sub: string, i: nat, k: nat)
    requires k < |sub| && i + k < |s| && s[i + k] != sub[k]
    ensures !OccursAt(s, sub, i)
  {
    if i + |sub| <= |s| {
      assert s[i..i + |sub|][k] == s[i + k];
    }
  }

  lemma ContainsIffFound(s: string, sub: string)
    ensures Contains(s, sub) <==> IndexOf(s, sub, 0).Some?
  {
    if Contains(s, sub) {
      var i :| 0 <= i <= |s| - |sub| && OccursAt(s, sub, i);
    }
  }

  /** `sep.join(parts)`. */
  function Join(parts: seq<string>, sep: string): string
    decreases |parts|
  {
    if |parts| == 0 then ""
    else if |parts| == 1 then parts[0]
    else parts[0] + sep + Join(parts[1..], sep)
  }

  /** A character that is in no part and not in the separator is not in
      the joined string. */
  lemma {:induction false} JoinAvoids(parts: seq<string>, sep: string, c: char)
    requires c !in sep
    requires forall i :: 0 <= i < |parts| ==> c !in parts[i]
    ensures c !in Join(parts, sep)
    decreases |parts|
  {
    if |parts| > 1 {
      JoinAvoids(parts[1..], sep, c);
    }
  }

  /** `s.find(c)` for one character. */
  function IndexOfChar(s: string, c: char): (r: Option<nat>)
    ensures r.Some? ==> r.value < |s| && s[r.value] == c && c !in s[..r.value]
    ensures r.None? ==> c !in s
    decreases |s|
  {
    if |s| == 0 then None
    else if s[0] == c then Some(0)
    else match IndexOfChar(s[1..], c)
      case None => None
      case Some(i) =>
        assert s[..i + 1] == [s[0]] + s[1..][..i];
        Some(i + 1)
  }

  /** `s.split(sep)` for a one-character separator: never empty, no piece
      holds the separator, and joining the pieces gives `s` back. */
  function Split(s: string, sep: char): (parts: seq<string>)
    ensures |parts| >= 1
    ensures forall i :: 0 <= i < |parts| ==> sep !in parts[i]
    ensures Join(parts, [sep]) == s
    decreases |s|
  {
    match IndexOfChar(s, sep)
    case None => [s]
    case Some(i) =>
      var rest := Split(s[i + 1..], sep);
      assert s == s[..i] + [sep] + s[i + 1..];
      [s[..i]] + rest
  }

  /** The other direction of the round trip: splitting a join gives the
      pieces back, as long as no piece holds the separator. */
  lemma {:induction false} SplitJoin(parts: seq<string>, sep: char)
    requires |parts| >= 1
    requires forall i :: 0 <= i < |parts| ==> sep !in parts[i]
    ensures Split(Join(parts, [sep]), sep) == parts
    decreases |parts|
  {
    var s := Join(parts, [sep]);
    var p := parts[0];
    if |parts| == 1 {
      assert s == p;
    } else {
      var tail := Join(parts[1..], [sep]);
      assert s == p + [sep] + tail;
      assert s[..|p|] == p;
      assert IndexOfChar(s, sep) == Some(|p|) by {
        var k := IndexOfChar(s, sep);
        assert s[|p|] == sep;
        assert k.Some?;
        assert forall j :: 0 <= j < |p| ==> s[j] == p[j];
      }
      assert s[|p| + 1..] == tail;
      SplitJoin(parts[1..], sep);
    }
  }

  /** `s.replace(pat, rep)`: left-to-right, non-overlapping occurrences.
      Where `pat` does not occur the string is unchanged. */
  function Replace(s: string, pat: string, rep: string): string
    requires |pat| > 0
    decreases |s|
  {
    if |s| == 0 then ""
    else if OccursAt(s, pat, 0) then rep + Replace(s[|pat|..], pat, rep)
    else [s[0]] + Replace(s[1..], pat, rep)
  }

  /** A text in which `pat` does not occur comes back unchanged. */
  lemma {:induction false} ReplaceAbsent(s: string, pat: string, rep: string)
    requires |pat| > 0 && forall i :: !OccursAt(s, pat, i)
    ensures Replace(s, pat, rep) == s
    decreases |s|
  {
    if |s| > 0 {
      assert !OccursAt(s, pat, 0);
      forall i ensures !OccursAt(s[1..], pat, i) {
        assert !OccursAt(s, pat, i + 1);
        if 0 <= i && i + |pat| <= |s| - 1 {
          assert s[1..][i..i + |pat|] == s[i + 1..i + 1 + |pat|];
        }
      }
      ReplaceAbsent(s[1..], pat, rep);
      assert [s[0]] + s[1..] == s;
    }
  }

  /** Python's index normalisation for slices. */
  function ClampIndex(i: int, n: nat): (r: nat)
    ensures r <= n
  {
    if i < 0 then (if n + i < 0 then 0 else n + i)
    else if i > n then n
    else i
  }

  /** `s[i:j]`, with Python's clamping and negative indices. */
  function PySlice<T>(s: seq<T>, i: int, j: int): (r: seq<T>)
    ensures 0 <= i <= j <= |s| ==> r == s[i..j]
    ensures |r| <= |s|
  {
    var a := ClampIndex(i, |s|);
    var b := ClampIndex(j, |s|);
    if a < b then s[a..b] else []
  }

  /** `s[n:]` for `n >= 0`. */
  function Drop(s: string, n: nat): (r: string)
    ensures n <= |s| ==> r == s[n..]
    ensures n >= |s| ==> r == ""
  {
    PySlice(s, n, |s|)
  }

  function LowerChar(c: char): char {
    if 'A' <= c <= 'Z' then (c as int + 32) as char else c
  }

  predicate IsUpper(c: char) {
    'A' <= c <= 'Z'
  }

  /** `str.lower()` on ASCII letters: no upper-case letter is left, each
      upper-case letter becomes the lower-case letter at the same place in
      the alphabet, and every other character stays. */
  function Lower(s: string): (r: string)
    ensures |r| == |s|
    ensures forall i :: 0 <= i < |s| ==> r[i] == LowerChar(s[i])
    ensures forall i :: 0 <= i < |r| ==> !IsUpper(r[i])
    ensures forall i :: 0 <= i < |s| && IsUpper(s[i]) ==>
              'a' <= r[i] <= 'z' && r[i] as int - 'a' as int == s[i] as int - 'A' as int
    ensures forall i :: 0 <= i < |s| && !IsUpper(s[i]) ==> r[i] == s[i]
  {
    seq(|s|, i requires 0 <= i < |s| => LowerChar(s[i]))
  }

  /** Lowering twice is lowering once. */
  lemma LowerIdempotent(s: string)
    ensures Lower(Lower(s)) == Lower(s)
  {
  }

  /** The longest non-whitespace prefix of `s`. */
  function Word(s: string): (w: string)
    ensures |w| <= |s| && w == s[..|w|] && NoSpace(w)
    ensures |w| == |s| || IsSpace(s[|w|])
    decreases |s|
  {
    if |s| == 0 || IsSpace(s[0]) then ""
    else
      var w := Word(s[1..]);
      assert [s[0]] + w == s[..|w| + 1];
      [s[0]] + w
  }

  /** A non-empty run of non-whitespace characters. */
  predicate IsToken(w: string) {
    |w| > 0 && NoSpace(w)
  }

  /** A text that starts with a non-whitespace character starts with a
      non-empty word. */
  lemma WordOfNonSpace(t: string)
    requires |t| > 0 && !IsSpace(t[0])
    ensures |Word(t)| > 0
  {
  }

  /** `s.split()` with no argument: the maximal runs of non-whitespace. */
  function Tokens(s: string): (ts: seq<string>)
    ensures forall i :: 0 <= i < |ts| ==> IsToken(ts[i])
    decreases |s|
  {
    var t := LStrip(s);
    if |t| == 0 then []
    else
      var w := Word(t);
      WordOfNonSpace(t);
      assert IsToken(w);
      var rest := Tokens(t[|w|..]);
      ConsTokens(w, rest);
      [w] + rest
  }

  lemma ConsTokens(w: string, rest: seq<string>)
    requires IsToken(w) && forall i :: 0 <= i < |rest| ==> IsToken(rest[i])
    ensures forall i :: 0 <= i < |[w] + rest| ==> IsToken(([w] + rest)[i])
  {
    forall i | 0 <= i < |[w] + rest| ensures IsToken(([w] + rest)[i]) {
      if i > 0 {
        assert ([w] + rest)[i] == rest[i - 1];
      }
    }
  }

  lemma {:induction false} WordOfWordThenSpace(w: string, rest: string)
    requires NoSpace(w)
    requires |rest| == 0 || IsSpace(rest[0])
    ensures Word(w + rest) == w
    decreases |w|
  {
    if |w| > 0 {
      assert (w + rest)[1..] == w[1..] + rest;
      WordOfWordThenSpace(w[1..], rest);
    } else {
      assert w + rest == rest;
    }
  }

  /** A word followed by nothing or by whitespace is the first token. */
  lemma TokensCons(w: string, rest: string)
    requires IsToken(w)
    requires |rest| == 0 || IsSpace(rest[0])
    ensures Tokens(w + rest) == [w] + Tokens(rest)
  {
    var s := w + rest;
    assert LStrip(s) == s;
    WordOfWordThenSpace(w, rest);
    assert s[|w|..] == rest;
  }

  /** Tokenising words joined by a single whitespace character gives the words
      back. */
  lemma {:induction false} TokensOfJoin(ws: seq<string>, sep: string)
    requires |sep| == 1 && IsSpace(sep[0])
    requires forall i :: 0 <= i < |ws| ==> IsToken(ws[i])
    ensures Tokens(Join(ws, sep)) == ws
    decreases |ws|
  {
    if |ws| == 0 {
      assert Join(ws, sep) == "";
    } else if |ws| == 1 {
      TokensOfWord(ws[0]);
    } else {
      var rest := ws[1..];
      assert forall i :: 0 <= i < |rest| ==> IsToken(rest[i]) by {
        forall i | 0 <= i < |rest| ensures IsToken(rest[i]) {
          assert rest[i] == ws[i + 1];
        }
      }
      TokensJoinStep(ws, sep);
      TokensOfJoin(rest, sep);
      ConsOfHeadTail(Tokens(Join(ws, sep)), Tokens(Join(rest, sep)), ws);
    }
  }

  /** A sequence made of `s`'s head and a copy of its tail is `s`. */
  lemma ConsOfHeadTail<T>(a: seq<T>, b: seq<T>, s: seq<T>)
    requires |s| > 0 && a == [s[0]] + b && b == s[1..]
    ensures a == s
  {
  }

  /** A single word is its own only token. */
  lemma TokensOfWord(w: string)
    requires IsToken(w)
    ensures Tokens(w) == [w]
  {
    TokensCons(w, "");
    assert w + "" == w;
  }

  lemma TokensJoinStep(ws: seq<string>, sep: string)
    requires |sep| == 1 && IsSpace(sep[0])
    requires |ws| > 1 && IsToken(ws[0])
    ensures Tokens(Join(ws, sep)) == [ws[0]] + Tokens(Join(ws[1..], sep))
  {
    var tail := Join(ws[1..], sep);
    assert Join(ws, sep) == ws[0] + (sep + tail);
    TokensCons(ws[0], sep + tail);
    TokensSkipSpace(sep, tail);
  }

  /** A leading whitespace character does not change the tokens. */
  lemma TokensSkipSpace(sep: string, t: string)
    requires |sep| == 1 && IsSpace(sep[0])
    ensures Tokens(sep + t) == Tokens(t)
  {
    assert (sep + t)[1..] == t;
    assert LStrip(sep + t) == LStrip(t);
  }
}
