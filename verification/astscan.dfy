/** The `scan` of the text-scan extractor: a walk over a module's syntax
    tree that tracks the open namespaces, picks out declarations, and emits
    the cleaned proof text of each declaration range it has not seen yet. */
module AstScan {
  import opened Basics
  import opened Text
  import opened Json
  import opened AstRange
  import opened AstName
  import opened CleanProof

  /** `str(kind.get('name', kind) if dict else kind).lower()` for a kind
      that is a string or an object with a string `name`. */
  function KindText(inner: seq<Field>): (r: string)
    ensures Get(inner, "kind").None? ==> r == ""
    ensures Get(inner, "kind").Some? && Get(inner, "kind").value.JStr? ==> r == Lower(Get(inner, "kind").value.s)
    ensures Get(inner, "kind").Some? && !Get(inner, "kind").value.JStr? && !Get(inner, "kind").value.JObject? ==> r == ""
  {
    match GetOr(inner, "kind", JStr(""))
    case JStr(s) => Lower(s)
    case JObject(f) =>
      (match Get(f, "name")
       case Some(JStr(s)) => Lower(s)
       case _ => "")
    case _ => ""
  }

  // ---------------------------------------------------------------------
  // The namespace stack

  /** No entry of the stack is the "nothing found" answer. */
  predicate NoUnknown(stack: seq<string>) {
    forall i :: 0 <= i < |stack| ==> stack[i] != Unknown
  }

  /** One node's effect on the stack: a `namespace` kind with a found name
      pushes it, then a `command.end` kind pops when there is something to
      pop. */
  function NsStep(stack: seq<string>, kind: string, name: string): (r: seq<string>)
    ensures |r| <= |stack| + 1
    ensures |stack| > 0 ==> |r| >= |stack| - 1 && r[..|stack| - 1] == stack[..|stack| - 1]
    ensures NoUnknown(stack) ==> NoUnknown(r)
    ensures !Contains(kind, "namespace") && !Contains(kind, "command.end") ==> r == stack
  {
    var pushed := if Contains(kind, "namespace") && name != Unknown then stack + [name] else stack;
    if Contains(kind, "command.end") && |pushed| > 0 then pushed[..|pushed| - 1] else pushed
  }

  /** Opening a namespace and ending it gives the stack back. */
  lemma EnterThenEnd(stack: seq<string>, name: string, open: string, close: string, other: string)
    requires Contains(open, "namespace") && !Contains(open, "command.end") && name != Unknown
    requires Contains(close, "command.end") && !Contains(close, "namespace")
    ensures NsStep(NsStep(stack, open, name), close, other) == stack
  {
    assert (stack + [name])[..|stack|] == stack;
  }

  /** An `end` with nothing open leaves the stack empty rather than failing. */
  lemma EndOnEmptyStack(close: string, name: string)
    requires !Contains(close, "namespace")
    ensures NsStep([], close, name) == []
  {
  }

  // ---------------------------------------------------------------------
  // Name qualification

  /** The stack and the declaration name with `_root_` components dropped,
      joined with dots, then `._root_.` replaced by `.` and `_root_.`
      removed. */
  predicate NotRoot(p: string) {
    p != "_root_"
  }

  function QualifiedName(stack: seq<string>, name: string): string {
    var kept := Filter(stack + [name], NotRoot);
    Replace(Replace(Join(kept, "."), "._root_.", "."), "_root_.", "")
  }

  /** Without any underscore the qualified name is the dotted path of the
      stack and the name. */
  lemma PlainNamesJoin(stack: seq<string>, name: string)
    requires forall i :: 0 <= i < |stack| ==> '_' !in stack[i]
    requires '_' !in name
    ensures QualifiedName(stack, name) == Join(stack + [name], ".")
  {
    var parts := stack + [name];
    var joined := Join(parts, ".");
    assert '_' !in joined by {
      NoRootComponent(stack, name);
      JoinAvoids(parts, ".", '_');
    }
    calc {
      QualifiedName(stack, name);
      Replace(Replace(Join(Filter(parts, NotRoot), "."), "._root_.", "."), "_root_.", "");
      { NoRootComponent(stack, name); }
      Replace(Replace(joined, "._root_.", "."), "_root_.", "");
      { RootFreeText(joined); }
      joined;
    }
  }

  /** Parts without `_` pass the `_root_` filter and hold no `_`. */
  lemma NoRootComponent(stack: seq<string>, name: string)
    requires forall i :: 0 <= i < |stack| ==> '_' !in stack[i]
    requires '_' !in name
    ensures forall i :: 0 <= i < |stack + [name]| ==> '_' !in (stack + [name])[i]
    ensures Filter(stack + [name], NotRoot) == stack + [name]
  {
    var parts := stack + [name];
    forall i | 0 <= i < |parts| ensures '_' !in parts[i] && NotRoot(parts[i]) {
      if i < |stack| {
        assert parts[i] == stack[i];
      }
      assert '_' in "_root_";
    }
    FilterKeepsAll(parts, NotRoot);
  }

  /** A text without `_` is left alone by both replacements. */
  lemma RootFreeText(s: string)
    requires '_' !in s
    ensures Replace(Replace(s, "._root_.", "."), "_root_.", "") == s
  {
    MissingCharUnchanged(s, "._root_.", ".", 1);
    MissingCharUnchanged(s, "_root_.", "", 0);
  }

  /** A pattern with a character the text lacks does not occur in it, so
      replacing it changes nothing. */
  lemma MissingCharUnchanged(s: string, pat: string, rep: string, k: nat)
    requires k < |pat| && pat[k] !in s
    ensures Replace(s, pat, rep) == s
  {
    forall i: int ensures !OccursAt(s, pat, i) {
      if 0 <= i && i + |pat| <= |s| {
        assert s[i..i + |pat|][k] == s[i + k];
      }
    }
    ReplaceAbsent(s, pat, rep);
  }

  /** A `_root_` component of the namespace stack is dropped. */
  lemma RootComponentDropped(ns: string, name: string)
    requires '_' !in ns && '_' !in name
    ensures QualifiedName(["_root_", ns], name) == ns + "." + name
  {
    var joined := ns + "." + name;
    calc {
      QualifiedName(["_root_", ns], name);
      Replace(Replace(Join(Filter(["_root_", ns] + [name], NotRoot), "."), "._root_.", "."), "_root_.", "");
      { RootDropped(ns, name); }
      Replace(Replace(Join([ns, name], "."), "._root_.", "."), "_root_.", "");
      { assert [ns, name][1..] == [name]; }
      Replace(Replace(joined, "._root_.", "."), "_root_.", "");
      { RootFreeText(joined); }
      joined;
    }
  }

  /** The `_root_` filter drops the `_root_` component and keeps the rest. */
  lemma RootDropped(ns: string, name: string)
    requires '_' !in ns && '_' !in name
    ensures Filter(["_root_", ns] + [name], NotRoot) == [ns, name]
  {
    var parts := ["_root_", ns] + [name];
    assert parts == ["_root_", ns, name];
    assert NotRoot(ns) && NotRoot(name) by {
      assert '_' in "_root_";
    }
    FilterDropsHead(parts, NotRoot);
    assert parts[1..] == [ns, name];
  }

  /** A `_root_.` prefix on the declaration does not leave the namespace:
      inside `ns`, `_root_.base` is qualified as `ns.base`. */
  lemma RootPrefixStaysInNamespace(ns: string, base: string)
    requires '_' !in ns && '_' !in base
    ensures QualifiedName([ns], "_root_." + base) == ns + "." + base
  {
    var name := "_root_." + base;
    var parts := [ns] + [name];
    assert NotRoot(ns) by {
      assert '_' in "_root_";
    }
    assert NotRoot(name) by {
      assert |name| > |"_root_"|;
    }
    FilterKeepsAll(parts, NotRoot);
    var joined := ns + "." + name;
    assert Join(parts, ".") == joined by {
      assert parts[1..] == [name];
    }
    FirstRootAfterNamespace(ns, base);
    ReplaceAt(joined, "._root_.", ".", |ns|);
    assert joined[..|ns|] == ns && joined[|ns| + 8..] == base;
    MissingCharUnchanged(base, "._root_.", ".", 1);
    assert '_' !in ns + "." + base;
    MissingCharUnchanged(ns + "." + base, "_root_.", "", 0);
  }

  /** In `ns._root_.base` with no `_` in `ns`, the first `._root_.` is the
      one after `ns`. */
  lemma FirstRootAfterNamespace(ns: string, base: string)
    requires '_' !in ns
    ensures var joined := ns + "." + ("_root_." + base);
            OccursAt(joined, "._root_.", |ns|)
            && forall j :: 0 <= j < |ns| ==> !OccursAt(joined, "._root_.", j)
  {
    var joined := ns + "." + ("_root_." + base);
    assert joined[|ns|..|ns| + 8] == "._root_.";
    forall j | 0 <= j < |ns| ensures !OccursAt(joined, "._root_.", j) {
      assert joined[j + 1] == (if j + 1 < |ns| then ns[j + 1] else '.');
      NotOccursAt(joined, "._root_.", j, 1);
    }
  }

  /** `Replace` on a text whose first occurrence is at `k`. */
  lemma {:induction false} ReplaceAt(s: string, pat: string, rep: string, k: nat)
    requires |pat| > 0 && OccursAt(s, pat, k)
    requires forall j :: 0 <= j < k ==> !OccursAt(s, pat, j)
    ensures Replace(s, pat, rep) == s[..k] + rep + Replace(s[k + |pat|..], pat, rep)
    decreases k, 1
  {
    if k == 0 {
      ReplaceHere(s, pat, rep);
    } else {
      ReplaceAtStep(s, pat, rep, k);
    }
  }

  /** Where `pat` starts at 0, it is replaced and the scan goes on after it. */
  lemma ReplaceHere(s: string, pat: string, rep: string)
    requires |pat| > 0 && OccursAt(s, pat, 0)
    ensures Replace(s, pat, rep) == s[..0] + rep + Replace(s[|pat|..], pat, rep)
  {
    assert s[..0] + rep == rep;
  }

  /** The inductive step of `ReplaceAt`: the first character is kept and
      the occurrence is found one place earlier in the rest. */
  lemma {:induction false} ReplaceAtStep(s: string, pat: string, rep: string, k: nat)
    requires 0 < k && |pat| > 0 && OccursAt(s, pat, k)
    requires forall j :: 0 <= j < k ==> !OccursAt(s, pat, j)
    ensures Replace(s, pat, rep) == s[..k] + rep + Replace(s[k + |pat|..], pat, rep)
    decreases k, 0
  {
    ShiftOccurrences(s, pat, k);
    ReplaceAt(s[1..], pat, rep, k - 1);
    var rest := Replace(s[k + |pat|..], pat, rep);
    assert s[1..][k - 1 + |pat|..] == s[k + |pat|..];
    ReplaceSkip(s, pat, rep);
    Reassemble(s, k, Replace(s, pat, rep), Replace(s[1..], pat, rep), rep, rest);
  }

  /** Where `pat` does not start at 0, the first character is kept. */
  lemma ReplaceSkip(s: string, pat: string, rep: string)
    requires |pat| > 0 && |s| > 0 && !OccursAt(s, pat, 0)
    ensures Replace(s, pat, rep) == [s[0]] + Replace(s[1..], pat, rep)
  {
  }

  /** Occurrences in `s[1..]` are those in `s` shifted by one. */
  lemma ShiftOccurrences(s: string, pat: string, k: nat)
    requires 0 < k && |pat| > 0 && OccursAt(s, pat, k)
    requires forall j :: 0 <= j < k ==> !OccursAt(s, pat, j)
    ensures OccursAt(s[1..], pat, k - 1)
    ensures forall j :: 0 <= j < k - 1 ==> !OccursAt(s[1..], pat, j)
  {
    var t := s[1..];
    forall j | 0 <= j < k - 1 ensures !OccursAt(t, pat, j) {
      assert !OccursAt(s, pat, j + 1);
      if j + |pat| <= |t| {
        assert t[j..j + |pat|] == s[j + 1..j + 1 + |pat|];
      }
    }
    assert t[k - 1..k - 1 + |pat|] == s[k..k + |pat|];
  }

  /** Putting the first character back in front of a split tail. */
  lemma Reassemble(s: string, k: nat, whole: string, tail: string, rep: string, rest: string)
    requires 0 < k <= |s|
    requires whole == [s[0]] + tail && tail == s[1..][..k - 1] + rep + rest
    ensures whole == s[..k] + rep + rest
  {
    assert s[..k] == [s[0]] + s[1..][..k - 1];
  }

  // ---------------------------------------------------------------------
  // Where the proof starts: `re.search(r'\b(by|:=|where)\b', text)`

  /** A word character for `\b`, on ASCII. */
  predicate WordChar(c: char) {
    'a' <= c <= 'z' || 'A' <= c <= 'Z' || '0' <= c <= '9' || c == '_'
  }

  predicate WordAt(t: string, k: int) {
    0 <= k < |t| && WordChar(t[k])
  }

  /** `\b` at index `i`: a word character on exactly one side. */
  predicate Boundary(t: string, i: int) {
    WordAt(t, i - 1) != WordAt(t, i)
  }

  predicate KeywordAt(t: string, i: nat, kw: string) {
    OccursAt(t, kw, i) && Boundary(t, i) && Boundary(t, i + |kw|)
  }

  /** The pattern matches starting at `i`. */
  predicate ProofMatchAt(t: string, i: nat) {
    KeywordAt(t, i, "by") || KeywordAt(t, i, ":=") || KeywordAt(t, i, "where")
  }

  /** `match.start()`: the first index at or after `from` where the pattern
      matches. */
  function ProofStart(t: string, from: nat): (r: Option<nat>)
    ensures r.Some? ==> from <= r.value < |t| && ProofMatchAt(t, r.value)
                        && forall j :: from <= j < r.value ==> !ProofMatchAt(t, j)
    ensures r.None? ==> forall j :: from <= j ==> !ProofMatchAt(t, j)
    decreases |t| - from
  {
    if from >= |t| then None
    else if ProofMatchAt(t, from) then Some(from)
    else ProofStart(t, from + 1)
  }

  /** `:=` written with spaces around it never matches: there is no word
      boundary in front of the colon. */
  lemma SpacedAssignNeverMatches(t: string, i: nat)
    requires OccursAt(t, " := ", i)
    ensures !ProofMatchAt(t, i + 1)
  {
    assert t[i..i + 4][0] == t[i] && t[i..i + 4][1] == t[i + 1];
    assert !Boundary(t, i + 1);
  }

  /** `by` between spaces matches, so the search finds a start no later. */
  lemma SpacedByMatches(t: string, i: nat)
    requires OccursAt(t, " by ", i)
    ensures ProofMatchAt(t, i + 1)
    ensures ProofStart(t, 0).Some? && ProofStart(t, 0).value <= i + 1
  {
    assert t[i..i + 4][0] == t[i] && t[i..i + 4][1] == t[i + 1];
    assert t[i..i + 4][2] == t[i + 2] && t[i..i + 4][3] == t[i + 3];
    assert t[i] == ' ' && t[i + 1] == 'b' && t[i + 2] == 'y' && t[i + 3] == ' ';
    assert t[i + 1..i + 3] == [t[i + 1], t[i + 2]] == "by";
    assert KeywordAt(t, i + 1, "by");
    assert ProofMatchAt(t, i + 1);
  }

  // ---------------------------------------------------------------------
  // The walk

  /** One emitted line: the qualified name and the cleaned proof. */
  datatype Record = Record(fullName: string, proof: string)

  datatype ScanState = ScanState(stack: seq<string>, seen: set<(int, int)>, out: seq<Record>)

  predicate ProofsNonEmpty(out: seq<Record>) {
    forall i :: 0 <= i < |out| ==> out[i].proof != ""
  }

  /** What every part of the walk keeps: ranges are only added, records
      only appended, each new record has consumed a new range, the stack
      never holds `"Unknown"`, and no record has an empty proof. */
  predicate Extends(a: ScanState, b: ScanState) {
    && a.seen <= b.seen
    && |a.out| <= |b.out| && b.out[..|a.out|] == a.out
    && |b.out| - |a.out| <= |b.seen - a.seen|
    && (NoUnknown(a.stack) ==> NoUnknown(b.stack))
    && (ProofsNonEmpty(a.out) ==> ProofsNonEmpty(b.out))
  }

  lemma SetDiffSplit<T>(a: set<T>, b: set<T>, c: set<T>)
    requires a <= b <= c
    ensures |c - a| == |c - b| + |b - a|
  {
    assert c - a == (c - b) + (b - a);
    assert (c - b) * (b - a) == {};
  }

  lemma ExtendsTrans(a: ScanState, b: ScanState, c: ScanState)
    requires Extends(a, b) && Extends(b, c)
    ensures Extends(a, c)
  {
    SetDiffSplit(a.seen, b.seen, c.seen);
    assert c.out[..|a.out|] == c.out[..|b.out|][..|a.out|];
  }

  /** `ExtendsTrans` for a step that may have raised. */
  lemma ExtendsThen(a: ScanState, b: ScanState, r: Outcome<ScanState>)
    requires Extends(a, b)
    ensures r.Ok? && Extends(b, r.value) ==> Extends(a, r.value)
  {
    if r.Ok? && Extends(b, r.value) {
      ExtendsTrans(a, b, r.value);
    }
  }

  /** A kind the walk treats as a declaration. */
  predicate TargetKind(kind: string) {
    Contains(kind, "theorem") || Contains(kind, "lemma") || Contains(kind, "def")
    || Contains(kind, "instance") || Contains(kind, "declaration")
  }

  /** A declaration with a new range and an accepted name: the range is
      recorded, and a record is appended when the text holds a proof that
      survives `clean_proof`. */
  function Emit(st: ScanState, range: (int, int), name: string, src: string): (r: ScanState)
    requires range !in st.seen
    ensures Extends(st, r) && r.stack == st.stack && r.seen == st.seen + {range}
    ensures |r.out| <= |st.out| + 1
    ensures |r.out| > |st.out| ==> r.out[|st.out|].fullName == QualifiedName(st.stack, name)
    ensures |r.out| == |st.out| + 1 <==> DeclProof(src, range) != ""
    ensures |r.out| > |st.out| ==> r.out[|st.out|] == Record(QualifiedName(st.stack, name), DeclProof(src, range))
    ensures r.out[..|st.out|] == st.out
  {
    var proof := DeclProof(src, range);
    var emitted := if proof != "" then [Record(QualifiedName(st.stack, name), proof)] else [];
    AppendExtends(st, range, emitted);
    ScanState(st.stack, st.seen + {range}, st.out + emitted)
  }

  /** Recording a new range and appending at most one record with a
      proof keeps `Extends`. */
  lemma AppendExtends(st: ScanState, range: (int, int), emitted: seq<Record>)
    requires range !in st.seen && |emitted| <= 1
    requires forall i :: 0 <= i < |emitted| ==> emitted[i].proof != ""
    ensures Extends(st, ScanState(st.stack, st.seen + {range}, st.out + emitted))
  {
    var seen := st.seen + {range};
    assert seen - st.seen == {range};
    var out := st.out + emitted;
    assert out[..|st.out|] == st.out;
    assert ProofsNonEmpty(st.out) ==> ProofsNonEmpty(out) by {
      if ProofsNonEmpty(st.out) {
        forall i | 0 <= i < |out| ensures out[i].proof != "" {
          if i >= |st.out| {
            assert out[i] == emitted[i - |st.out|];
          }
        }
      }
    }
  }

  /** The cleaned proof of the source text in `range`: from the first
      match of the proof pattern on, or empty when there is none. */
  function DeclProof(src: string, range: (int, int)): string {
    var text := PySlice(src, range.0, range.1);
    match ProofStart(text, 0)
    case None => ""
    case Some(m) => Clean(Some(text[m..]))
  }

  /** The declaration step for node `obj` whose inner object has `inner`:
      a range already seen, or a name that is `"Unknown"` or repeats the
      innermost namespace, changes nothing. */
  function Declare(obj: Json, inner: seq<Field>, src: string, st: ScanState): (r: Outcome<ScanState>)
    ensures r.Ok? ==> Extends(st, r.value) && r.value.stack == st.stack && |r.value.out| <= |st.out| + 1
    ensures var range := GetFullRange(obj);
            range.Ok? && range.value.Some? && range.value.value in st.seen ==> r == Ok(st)
    ensures |st.stack| > 0 && FindName(JObject(inner)) == Ok(st.stack[|st.stack| - 1]) ==> r.Ok? ==> r.value == st
    ensures r.Ok? && |r.value.out| > |st.out| ==>
              FindName(JObject(inner)).Ok? && r.value.out[|st.out|].fullName == QualifiedName(st.stack, FindName(JObject(inner)).value)
    ensures GetFullRange(obj).Crash? ==> r.Crash?
    ensures GetFullRange(obj) == Ok(None) ==> r == Ok(st)
    ensures FindName(JObject(inner)) == Ok(Unknown) ==> r.Ok? ==> r.value == st
    ensures var range := GetFullRange(obj);
            var name := FindName(JObject(inner));
            range.Ok? && range.value.Some? && range.value.value !in st.seen ==>
              (name.Crash? ==> r.Crash?)
              && (name.Ok? && name.value != Unknown && !(|st.stack| > 0 && name.value == st.stack[|st.stack| - 1]) ==>
                    r == Ok(Emit(st, range.value.value, name.value, src)))
  {
    match GetFullRange(obj)
    case Crash(m) => Crash(m)
    case Ok(None) => Ok(st)
    case Ok(Some(range)) =>
      if range in st.seen then Ok(st)
      else
        match FindName(JObject(inner))
        case Crash(m) => Crash(m)
        case Ok(t) =>
          if t == Unknown || (|st.stack| > 0 && t == st.stack[|st.stack| - 1]) then Ok(st)
          else Ok(Emit(st, range, t, src))
  }

  /** What `scan` does at object `obj` before descending into `inner`:
      the namespace step, then the declaration step for a declaration
      kind. */
  function Visit(obj: Json, inner: seq<Field>, src: string, st: ScanState): (r: Outcome<ScanState>)
    ensures r.Ok? ==> Extends(st, r.value)
    ensures !TargetKind(KindText(inner)) ==> r.Ok? ==> r.value.seen == st.seen && r.value.out == st.out
    ensures var kind := KindText(inner);
            !Contains(kind, "namespace") && !Contains(kind, "command.end") ==>
              r == if TargetKind(kind) then Declare(obj, inner, src, st) else Ok(st)
  {
    var kind := KindText(inner);
    var name := if Contains(kind, "namespace") then FindName(JObject(inner)) else Ok(Unknown);
    match name
    case Crash(m) => Crash(m)
    case Ok(n) =>
      var st1 := st.(stack := NsStep(st.stack, kind, n));
      assert st1.seen - st.seen == {};
      assert st1.out[..|st.out|] == st.out;
      var r := if TargetKind(kind) then Declare(obj, inner, src, st1) else Ok(st1);
      ExtendsThen(st, st1, r);
      r
  }

  /** `scan`: a list scans its items; an object scans its `node` (or
      itself), updating the stack, handling a declaration, then scanning
      every container value except `info`. */
  function ScanValue(j: Json, src: string, st: ScanState): (r: Outcome<ScanState>)
    ensures r.Ok? ==> Extends(st, r.value)
    decreases Size(j), 1
  {
    match j
    case JList(items) => ScanList(items, src, st)
    case JObject(fields) =>
      var inner := GetOr(fields, "node", j);
      if !inner.JObject? then Ok(st)
      else
        (match Visit(j, inner.fields, src, st)
         case Crash(m) => Crash(m)
         case Ok(s1) =>
           var r := ScanFields(inner.fields, src, s1);
           ExtendsThen(st, s1, r);
           r)
    case _ => Ok(st)
  }

  function ScanList(items: seq<Json>, src: string, st: ScanState): (r: Outcome<ScanState>)
    ensures r.Ok? ==> Extends(st, r.value)
    decreases SizeList(items), 2
  {
    if |items| == 0 then Ok(st)
    else
      match ScanValue(items[0], src, st)
      case Crash(m) => Crash(m)
      case Ok(s1) =>
        var r := ScanList(items[1..], src, s1);
        ExtendsThen(st, s1, r);
        r
  }

  function ScanFields(fields: seq<Field>, src: string, st: ScanState): (r: Outcome<ScanState>)
    ensures r.Ok? ==> Extends(st, r.value)
    decreases SizeFields(fields), 2
  {
    if |fields| == 0 then Ok(st)
    else
      var f := fields[0];
      var first := if f.key != "info" && IsContainer(f.value) then ScanValue(f.value, src, st) else Ok(st);
      match first
      case Crash(m) => Crash(m)
      case Ok(s1) =>
        var r := ScanFields(fields[1..], src, s1);
        ExtendsThen(st, s1, r);
        r
  }

  /** The walk over one module from an empty state: no more records than
      distinct declaration ranges, each with a non-empty proof, and no
      `"Unknown"` namespace. */
  function ScanModule(ast: Json, src: string): (r: Outcome<ScanState>)
    ensures r.Ok? ==> ProofsNonEmpty(r.value.out) && |r.value.out| <= |r.value.seen| && NoUnknown(r.value.stack)
  {
    var st := ScanValue(ast, src, ScanState([], {}, []));
    assert st.Ok? ==> st.value.seen - {} == st.value.seen;
    st
  }

  /** A declaration node with a kind, a `rawVal` name and its two offsets. */
  function DeclNode(kind: string, name: string, a: int, b: int): seq<Field> {
    [Field("kind", JStr(kind)), Field("rawVal", JStr(name)), Field("pos", JInt(a)), Field("endPos", JInt(b))]
  }

  /** The keys of a declaration node and what they hold. */
  lemma DeclNodeGets(kind: string, name: string, a: int, b: int)
    ensures var fields := DeclNode(kind, name, a, b);
            Get(fields, "kind") == Some(JStr(kind)) && Get(fields, "rawVal") == Some(JStr(name))
            && Get(fields, "pos") == Some(JInt(a)) && Get(fields, "endPos") == Some(JInt(b))
            && Get(fields, "bytePos") == None && Get(fields, "byteEndPos") == None
            && Get(fields, "info") == None && Get(fields, "node") == None
  {
    var fields := DeclNode(kind, name, a, b);
    assert fields[1..][1..] == fields[2..] && fields[2..][1..] == fields[3..];
    assert Get(fields[3..], "endPos") == Some(JInt(b));
    assert Get(fields[2..], "pos") == Some(JInt(a));
    assert Get(fields[2..], "endPos") == Some(JInt(b));
    assert Get(fields[1..], "endPos") == Some(JInt(b));
  }

  /** The offsets directly under a declaration node's keys. */
  lemma DeclNodeOwn(kind: string, name: string, a: int, b: int)
    ensures OwnPositions(DeclNode(kind, name, a, b), PositionKeys) == [a, b]
  {
    var fields := DeclNode(kind, name, a, b);
    DeclNodeGets(kind, name, a, b);
    assert PositionKeys[1..] == ["endPos", "bytePos", "byteEndPos"];
    assert ["endPos", "bytePos", "byteEndPos"][1..] == ["bytePos", "byteEndPos"];
    assert ["bytePos", "byteEndPos"][1..] == ["byteEndPos"];
    assert OwnPositions(fields, ["byteEndPos"]) == [];
    assert OwnPositions(fields, ["bytePos", "byteEndPos"]) == [];
    assert OwnPositions(fields, ["endPos", "bytePos", "byteEndPos"]) == [b];
  }

  /** Scalar values hold no offsets. */
  lemma {:induction false} ScalarFieldsNoPositions(fields: seq<Field>)
    requires forall i :: 0 <= i < |fields| ==> !IsContainer(fields[i].value)
    ensures PositionsFields(fields) == Ok([])
    decreases |fields|
  {
    if |fields| > 0 {
      assert forall i :: 0 <= i < |fields| - 1 ==> fields[1..][i] == fields[i + 1];
      ScalarFieldsNoPositions(fields[1..]);
      assert Positions(fields[0].value) == Ok([]);
      var none: seq<int> := [];
      assert none + none == none;
    }
  }

  /** A declaration node has no `info.original` offsets and no nested
      offsets. */
  lemma DeclNodeNested(kind: string, name: string, a: int, b: int)
    ensures OriginalPositions(DeclNode(kind, name, a, b)) == Ok([])
    ensures PositionsFields(DeclNode(kind, name, a, b)) == Ok([])
  {
    var fields := DeclNode(kind, name, a, b);
    DeclNodeGets(kind, name, a, b);
    assert Get([], "original") == None && Get([], "pos") == None;
    assert Original(fields) == Some([]);
    ScalarFieldsNoPositions(fields);
  }

  /** An object whose only offsets are `a` and `b`, directly under its
      keys, collects just those two. */
  lemma PositionsOfTwo(fields: seq<Field>, a: int, b: int)
    requires OwnPositions(fields, PositionKeys) == [a, b]
    requires OriginalPositions(fields) == Ok([]) && PositionsFields(fields) == Ok([])
    ensures Positions(JObject(fields)) == Ok([a, b])
  {
    assert [a, b] + [] + [] == [a, b];
  }

  /** The least and greatest of two ordered offsets. */
  lemma MinMaxOfTwo(a: int, b: int)
    requires a <= b
    ensures MinMax([a, b]) == Some((a, b))
  {
    assert [a, b][1..] == [b];
    assert MinMax([b]) == Some((b, b)) by {
      assert [b][1..] == [];
    }
  }

  /** An object whose only offsets are `a` and `b`, directly under its
      keys, has the range from `a` to `b`. */
  lemma RangeOfTwo(fields: seq<Field>, a: int, b: int)
    requires a <= b
    requires OwnPositions(fields, PositionKeys) == [a, b]
    requires OriginalPositions(fields) == Ok([]) && PositionsFields(fields) == Ok([])
    ensures GetFullRange(JObject(fields)) == Ok(Some((a, b)))
  {
    PositionsOfTwo(fields, a, b);
    MinMaxOfTwo(a, b);
  }

  /** The full range of a declaration node is its two offsets. */
  lemma DeclNodeRange(kind: string, name: string, a: int, b: int)
    requires a <= b
    ensures GetFullRange(JObject(DeclNode(kind, name, a, b))) == Ok(Some((a, b)))
  {
    DeclNodeOwn(kind, name, a, b);
    DeclNodeNested(kind, name, a, b);
    RangeOfTwo(DeclNode(kind, name, a, b), a, b);
  }

  /** Scanning the scalar values of a declaration node changes nothing. */
  lemma DeclNodeScalars(kind: string, name: string, a: int, b: int, src: string, st: ScanState)
    ensures ScanFields(DeclNode(kind, name, a, b), src, st) == Ok(st)
  {
    var fields := DeclNode(kind, name, a, b);
    assert ScanFields(fields[3..], src, st) == Ok(st);
    assert ScanFields(fields[2..], src, st) == Ok(st);
    assert ScanFields(fields[1..], src, st) == Ok(st);
  }

  /** The visit of a declaration node at the top level is its
      declaration step. */
  lemma DeclNodeVisit(kind: string, name: string, a: int, b: int, src: string)
    requires TargetKind(Lower(kind)) && !Contains(Lower(kind), "namespace") && !Contains(Lower(kind), "command.end")
    requires Acceptable(name) && name != Unknown && a <= b
    ensures var fields := DeclNode(kind, name, a, b);
            Visit(JObject(fields), fields, src, ScanState([], {}, [])) == Ok(Emit(ScanState([], {}, []), (a, b), name, src))
  {
    var fields := DeclNode(kind, name, a, b);
    var st0 := ScanState([], {}, []);
    DeclNodeGets(kind, name, a, b);
    assert KindText(fields) == Lower(kind);
    DeclNodeRange(kind, name, a, b);
    OwnRawValWins(fields, name);
  }

  /** An object without a `node` key is visited, then its fields are
      scanned. */
  lemma ScanOfObject(fields: seq<Field>, src: string, st: ScanState, s1: ScanState)
    requires Get(fields, "node") == None
    requires Visit(JObject(fields), fields, src, st) == Ok(s1) && ScanFields(fields, src, s1) == Ok(s1)
    ensures ScanValue(JObject(fields), src, st) == Ok(s1)
  {
  }

  /** Emitting from the empty state. */
  lemma EmitFromEmpty(range: (int, int), name: string, src: string)
    ensures var proof := DeclProof(src, range);
            Emit(ScanState([], {}, []), range, name, src)
            == ScanState([], {range}, if proof != "" then [Record(QualifiedName([], name), proof)] else [])
  {
    assert {} + {range} == {range};
  }

  /** A module that is a single declaration node with an accepted name
      yields exactly that declaration: its range is seen, and it is
      recorded under its own name when its text holds a proof. */
  lemma ScanOneDeclaration(kind: string, name: string, a: int, b: int, src: string)
    requires TargetKind(Lower(kind)) && !Contains(Lower(kind), "namespace") && !Contains(Lower(kind), "command.end")
    requires Acceptable(name) && name != Unknown && a <= b
    ensures var proof := DeclProof(src, (a, b));
            ScanModule(JObject(DeclNode(kind, name, a, b)), src)
            == Ok(ScanState([], {(a, b)}, if proof != "" then [Record(QualifiedName([], name), proof)] else []))
  {
    var fields := DeclNode(kind, name, a, b);
    var st0 := ScanState([], {}, []);
    DeclNodeGets(kind, name, a, b);
    DeclNodeVisit(kind, name, a, b, src);
    var s1 := Emit(st0, (a, b), name, src);
    DeclNodeScalars(kind, name, a, b, src, s1);
    ScanOfObject(fields, src, st0, s1);
    EmitFromEmpty((a, b), name, src);
  }

  /** Without `_` in the name, a declaration outside any namespace is
      recorded under its plain name. */
  lemma TopLevelName(name: string)
    requires '_' !in name
    ensures QualifiedName([], name) == name
  {
    PlainNamesJoin([], name);
    assert [] + [name] == [name];
  }
}
