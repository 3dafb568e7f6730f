/** `find_name_refined` of the text-scan extractor: a depth-first search of
    a syntax-tree object for the first identifier-like value that is not a
    command keyword. */
module AstName {
  import opened Basics
  import opened Text
  import opened Json

  /** Values the search passes over. */
  const NameKeywords: set<string> :=
    {"theorem", "lemma", "def", "instance", "namespace", "section", "protected", "private", "open", "variable"}

  /** The answer when nothing was found. */
  const Unknown: string := "Unknown"

  /** A value the search accepts. */
  predicate Acceptable(s: string) {
    |s| > 0 && s !in NameKeywords && !StartsWith(s, "@")
  }

  /** `j` holds the string `s` somewhere. */
  predicate Mentions(j: Json, s: string)
    decreases Size(j), 0
  {
    match j
    case JStr(t) => t == s
    case JList(items) => MentionsList(items, s)
    case JObject(fields) => MentionsFields(fields, s)
    case _ => false
  }

  predicate MentionsList(items: seq<Json>, s: string)
    decreases SizeList(items), 1
  {
    |items| > 0 && (Mentions(items[0], s) || MentionsList(items[1..], s))
  }

  predicate MentionsFields(fields: seq<Field>, s: string)
    decreases SizeFields(fields), 1
  {
    |fields| > 0 && (Mentions(fields[0].value, s) || MentionsFields(fields[1..], s))
  }

  /** A value looked up in an object is part of it. */
  lemma {:induction false} GetMentions(fields: seq<Field>, key: string, s: string)
    requires Get(fields, key).Some? && Mentions(Get(fields, key).value, s)
    ensures MentionsFields(fields, s)
    decreases |fields|
  {
    if fields[0].key != key {
      GetMentions(fields[1..], key, s);
    }
  }

  /** `GetMentions` as an implication, for use inside expressions. */
  lemma GetMentionsIf(fields: seq<Field>, key: string, s: string)
    ensures Get(fields, key).Some? && Mentions(Get(fields, key).value, s) ==> MentionsFields(fields, s)
  {
    if Get(fields, key).Some? && Mentions(Get(fields, key).value, s) {
      GetMentions(fields, key, s);
    }
  }

  /** `n.get('rawVal')`, then `n['atom'].get('val')` when that is falsy, then
      `n['ident'].get('rawVal')` when that is falsy too. Indexing into an
      `atom` or `ident` that is not an object raises. */
  function Candidate(fields: seq<Field>): (r: Outcome<Json>)
    ensures r.Ok? && r.value.JStr? ==> MentionsFields(fields, r.value.s)
  {
    var v := GetOr(fields, "rawVal", JNull);
    GetMentionsIf(fields, "rawVal", if v.JStr? then v.s else "");
    match Lookup(fields, "atom", "val", v)
    case Crash(m) => Crash(m)
    case Ok(v) => Lookup(fields, "ident", "rawVal", v)
  }

  /** One fallback step of `Candidate`: keep a truthy `v`, otherwise read
      `key` inside the object under `outer`, if there is one. */
  function Lookup(fields: seq<Field>, outer: string, key: string, v: Json): (r: Outcome<Json>)
    ensures v.JStr? && MentionsFields(fields, v.s) ==> r.Ok? && r.value.JStr? ==> MentionsFields(fields, r.value.s)
    ensures !v.JStr? ==> r.Ok? && r.value.JStr? ==> MentionsFields(fields, r.value.s)
  {
    if Truthy(v) || !Has(fields, outer) then Ok(v)
    else
      match Get(fields, outer).value
      case JObject(inner) =>
        var w := GetOr(inner, key, JNull);
        GetMentionsIf(inner, key, if w.JStr? then w.s else "");
        GetMentionsIf(fields, outer, if w.JStr? then w.s else "");
        Ok(w)
      case _ => Crash("AttributeError: '" + outer + "' has no attribute 'get'")
  }

  /** The test on one object's own value: found, passed over (falsy, a
      keyword or starting with `@`), or raising when a truthy value is not a
      string (unhashable or without `startswith`). */
  function OwnName(fields: seq<Field>): (r: Outcome<Option<string>>)
    ensures r.Ok? && r.value.Some? ==> Acceptable(r.value.value) && MentionsFields(fields, r.value.value)
  {
    match Candidate(fields)
    case Crash(m) => Crash(m)
    case Ok(v) =>
      if !Truthy(v) then Ok(None)
      else if v.JStr? then Ok(if Acceptable(v.s) then Some(v.s) else None)
      else Crash("TypeError: the name value is not a string")
  }

  /** What `for arg in n.get('args', [])` visits. Iterating an object gives
      its keys and iterating a string gives characters, and the search skips
      anything that is not an object; other scalars are not iterable. */
  function ArgsToVisit(fields: seq<Field>): (r: Outcome<seq<Json>>)
    ensures r.Ok? ==> SizeList(r.value) <= SizeFields(fields)
    ensures r.Ok? && |r.value| > 0 ==> Get(fields, "args") == Some(JList(r.value))
  {
    match Get(fields, "args")
    case None => Ok([])
    case Some(JList(items)) => Ok(items)
    case Some(JObject(_)) => Ok([])
    case Some(JStr(_)) => Ok([])
    case Some(_) => Crash("TypeError: 'args' is not iterable")
  }

  /** The inner `collect`: the object's own value, then its `args`, then its
      other object-valued fields except `info`, stopping at the first find. */
  function Collect(j: Json): (r: Outcome<Option<string>>)
    ensures r.Ok? && r.value.Some? ==> Acceptable(r.value.value) && Mentions(j, r.value.value)
    ensures !j.JObject? ==> r == Ok(None)
    decreases Size(j), 2
  {
    if !j.JObject? then Ok(None)
    else
      match OwnName(j.fields)
      case Crash(m) => Crash(m)
      case Ok(Some(s)) => Ok(Some(s))
      case Ok(None) =>
        match ArgsToVisit(j.fields)
        case Crash(m) => Crash(m)
        case Ok(args) =>
          var fromArgs := CollectList(args);
          GetMentionsIf(j.fields, "args", if fromArgs.Ok? && fromArgs.value.Some? then fromArgs.value.value else "");
          if fromArgs.Ok? && fromArgs.value.None? then CollectFields(j.fields) else fromArgs
  }

  function CollectList(items: seq<Json>): (r: Outcome<Option<string>>)
    ensures r.Ok? && r.value.Some? ==> Acceptable(r.value.value) && MentionsList(items, r.value.value)
    decreases SizeList(items), 3
  {
    if |items| == 0 then Ok(None)
    else
      var first := Collect(items[0]);
      if first.Ok? && first.value.None? then CollectList(items[1..]) else first
  }

  function CollectFields(fields: seq<Field>): (r: Outcome<Option<string>>)
    ensures r.Ok? && r.value.Some? ==> Acceptable(r.value.value) && MentionsFields(fields, r.value.value)
    decreases SizeFields(fields), 3
  {
    if |fields| == 0 then Ok(None)
    else
      var f := fields[0];
      var first := if f.key != "args" && f.key != "info" && f.value.JObject? then Collect(f.value) else Ok(None);
      if first.Ok? && first.value.None? then CollectFields(fields[1..]) else first
  }

  /** `find_name_refined`: the first acceptable value, or `"Unknown"`. A
      non-object gives `"Unknown"` straight away. */
  function FindName(j: Json): (r: Outcome<string>)
    ensures r.Ok? ==> r.value == Unknown || (Acceptable(r.value) && Mentions(j, r.value))
    ensures !j.JObject? ==> r == Ok(Unknown)
  {
    match Collect(j)
    case Crash(m) => Crash(m)
    case Ok(None) => Ok(Unknown)
    case Ok(Some(s)) => Ok(s)
  }

  // ---------------------------------------------------------------------
  // The search as a scan over the visit order

  /** The items `args` yields, or none when reading it raises. */
  function ArgsOr(fields: seq<Field>): (r: seq<Json>)
    ensures SizeList(r) <= SizeFields(fields)
  {
    match ArgsToVisit(fields)
    case Ok(items) => items
    case Crash(_) => []
  }

  /** The objects the search looks at, in the order it looks at them: the
      object itself, then everything under its `args` items, then
      everything under its other object-valued fields except `info`. */
  function Visits(j: Json): seq<seq<Field>>
    decreases Size(j), 2
  {
    if !j.JObject? then []
    else [j.fields] + VisitsList(ArgsOr(j.fields)) + VisitsFields(j.fields)
  }

  function VisitsList(items: seq<Json>): seq<seq<Field>>
    decreases SizeList(items), 3
  {
    if |items| == 0 then [] else Visits(items[0]) + VisitsList(items[1..])
  }

  function VisitsFields(fields: seq<Field>): seq<seq<Field>>
    decreases SizeFields(fields), 3
  {
    if |fields| == 0 then []
    else
      var f := fields[0];
      (if f.key != "args" && f.key != "info" && f.value.JObject? then Visits(f.value) else [])
      + VisitsFields(fields[1..])
  }

  /** The object's own test finds a name. */
  predicate Finds(fields: seq<Field>) {
    OwnName(fields).Ok? && OwnName(fields).value.Some?
  }

  /** Neither the object's own test nor reading its `args` raises. */
  predicate Safe(vs: seq<seq<Field>>) {
    forall i :: 0 <= i < |vs| ==> OwnName(vs[i]).Ok? && ArgsToVisit(vs[i]).Ok?
  }

  /** The name found by the first object in `vs` whose own test finds one. */
  function FirstOwn(vs: seq<seq<Field>>): (r: Option<string>)
    ensures r.None? <==> forall i :: 0 <= i < |vs| ==> !Finds(vs[i])
    ensures r.Some? ==> exists i :: 0 <= i < |vs| && Finds(vs[i]) && OwnName(vs[i]).value.value == r.value
                                    && forall k :: 0 <= k < i ==> !Finds(vs[k])
    decreases |vs|
  {
    if |vs| == 0 then None
    else if Finds(vs[0]) then OwnName(vs[0]).value
    else
      var r := FirstOwn(vs[1..]);
      assert forall i :: 0 <= i < |vs| - 1 ==> vs[1..][i] == vs[i + 1];
      assert forall i :: 1 <= i < |vs| ==> vs[i] == vs[1..][i - 1];
      r
  }

  /** The first find of a concatenation is in the first part, if there is
      one there. */
  lemma {:induction false} FirstOwnAppend(a: seq<seq<Field>>, b: seq<seq<Field>>)
    ensures FirstOwn(a + b) == if FirstOwn(a).Some? then FirstOwn(a) else FirstOwn(b)
    decreases |a|
  {
    if |a| == 0 {
      assert a + b == b;
    } else {
      assert (a + b)[0] == a[0];
      assert (a + b)[1..] == a[1..] + b;
      FirstOwnAppend(a[1..], b);
    }
  }

  /** Safety of a concatenation is safety of both parts. */
  lemma SafeAppend(a: seq<seq<Field>>, b: seq<seq<Field>>)
    ensures Safe(a + b) <==> Safe(a) && Safe(b)
  {
    assert forall i :: 0 <= i < |a| ==> (a + b)[i] == a[i];
    assert forall i :: 0 <= i < |b| ==> (a + b)[|a| + i] == b[i];
  }

  /** The recursive search finds what a scan over the visit order finds:
      the name of the first visited object whose own test finds one, and
      nothing when no visited object does. When no visited object raises,
      neither does the search. */
  lemma {:induction false} CollectIsFirst(j: Json)
    ensures Collect(j).Ok? ==> Collect(j).value == FirstOwn(Visits(j))
    ensures Safe(Visits(j)) ==> Collect(j).Ok?
    decreases Size(j), 2
  {
    if j.JObject? {
      var fs := j.fields;
      var rest := VisitsList(ArgsOr(fs)) + VisitsFields(fs);
      assert Visits(j) == [fs] + rest;
      FirstOwnCons(fs, rest);
      if OwnName(fs).Ok? && OwnName(fs).value.None? && ArgsToVisit(fs).Ok? {
        CollectAfterOwn(j);
      }
    }
  }

  /** The step of `CollectIsFirst` past an object whose own test finds
      nothing and whose `args` can be read. */
  lemma {:induction false} CollectAfterOwn(j: Json)
    requires j.JObject? && OwnName(j.fields) == Ok(None) && ArgsToVisit(j.fields).Ok?
    ensures var rest := VisitsList(ArgsOr(j.fields)) + VisitsFields(j.fields);
            (Collect(j).Ok? ==> Collect(j).value == FirstOwn(rest))
            && (Safe(rest) ==> Collect(j).Ok?)
    decreases Size(j), 1
  {
    var fs := j.fields;
    var args := ArgsOr(fs);
    assert ArgsToVisit(fs) == Ok(args);
    var fromArgs := CollectList(args);
    assert Collect(j) == if fromArgs.Ok? && fromArgs.value.None? then CollectFields(fs) else fromArgs;
    CollectListIsFirst(args);
    CollectFieldsIsFirst(fs);
    FirstOwnAppend(VisitsList(args), VisitsFields(fs));
    SafeAppend(VisitsList(args), VisitsFields(fs));
  }

  /** Scanning from an object: its own find, or else the rest. */
  lemma FirstOwnCons(x: seq<Field>, rest: seq<seq<Field>>)
    ensures FirstOwn([x] + rest) == if Finds(x) then OwnName(x).value else FirstOwn(rest)
    ensures Safe([x] + rest) <==> OwnName(x).Ok? && ArgsToVisit(x).Ok? && Safe(rest)
  {
    assert ([x] + rest)[0] == x;
    assert ([x] + rest)[1..] == rest;
    SafeAppend([x], rest);
  }

  lemma {:induction false} CollectListIsFirst(items: seq<Json>)
    ensures CollectList(items).Ok? ==> CollectList(items).value == FirstOwn(VisitsList(items))
    ensures Safe(VisitsList(items)) ==> CollectList(items).Ok?
    decreases SizeList(items), 3
  {
    if |items| > 0 {
      CollectIsFirst(items[0]);
      CollectListIsFirst(items[1..]);
      FirstOwnAppend(Visits(items[0]), VisitsList(items[1..]));
      SafeAppend(Visits(items[0]), VisitsList(items[1..]));
    }
  }

  lemma {:induction false} CollectFieldsIsFirst(fields: seq<Field>)
    ensures CollectFields(fields).Ok? ==> CollectFields(fields).value == FirstOwn(VisitsFields(fields))
    ensures Safe(VisitsFields(fields)) ==> CollectFields(fields).Ok?
    decreases SizeFields(fields), 3
  {
    if |fields| > 0 {
      var f := fields[0];
      var visited := f.key != "args" && f.key != "info" && f.value.JObject?;
      var here := if visited then Visits(f.value) else [];
      var first := if visited then Collect(f.value) else Ok(None);
      assert VisitsFields(fields) == here + VisitsFields(fields[1..]);
      assert CollectFields(fields) == if first.Ok? && first.value.None? then CollectFields(fields[1..]) else first;
      if visited {
        CollectIsFirst(f.value);
      }
      assert first.Ok? ==> first.value == FirstOwn(here);
      assert Safe(here) ==> first.Ok?;
      CollectFieldsIsFirst(fields[1..]);
      FirstOwnAppend(here, VisitsFields(fields[1..]));
      SafeAppend(here, VisitsFields(fields[1..]));
    }
  }

  /** `find_name_refined` returns the name of the first object, in visit
      order, whose own value is acceptable, and `"Unknown"` exactly when no
      visited object has one; it raises only when a visited object does. */
  lemma FindNameIsFirst(j: Json)
    ensures FindName(j).Ok? ==> FindName(j).value == match FirstOwn(Visits(j)) { case None => Unknown case Some(s) => s }
    ensures FindName(j).Ok? && FirstOwn(Visits(j)).None? ==> FindName(j) == Ok(Unknown)
    ensures Safe(Visits(j)) ==> FindName(j).Ok?
  {
    CollectIsFirst(j);
  }

  /** An object's own acceptable `rawVal` wins over anything below it. */
  lemma OwnRawValWins(fields: seq<Field>, s: string)
    requires Get(fields, "rawVal") == Some(JStr(s)) && Acceptable(s)
    ensures FindName(JObject(fields)) == Ok(s)
  {
    assert Candidate(fields) == Ok(JStr(s));
  }

  /** A keyword is passed over and the search goes on into `args`: the
      command `theorem foo` yields `foo`. */
  lemma KeywordPassedOver(kw: string, name: string)
    requires kw in NameKeywords && Acceptable(name)
    ensures var arg := JObject([Field("rawVal", JStr(name))]);
            FindName(JObject([Field("rawVal", JStr(kw)), Field("args", JList([arg]))])) == Ok(name)
  {
    var arg := JObject([Field("rawVal", JStr(name))]);
    var fields := [Field("rawVal", JStr(kw)), Field("args", JList([arg]))];
    OwnRawValWins([Field("rawVal", JStr(name))], name);
    assert Candidate(fields) == Ok(JStr(kw));
    assert OwnName(fields) == Ok(None);
    assert fields[1..] == [Field("args", JList([arg]))];
    assert Get(fields, "args") == Some(JList([arg]));
    assert ArgsToVisit(fields) == Ok([arg]);
    assert CollectList([arg]) == Ok(Some(name));
  }

  /** An `atom` that is not an object makes the search raise when the
      object has no truthy `rawVal`. */
  lemma ScalarAtomRaises(atom: Json)
    requires !atom.JObject?
    ensures FindName(JObject([Field("atom", atom)])).Crash?
  {
    var fields := [Field("atom", atom)];
    assert Get(fields, "rawVal") == None;
    assert Candidate(fields).Crash?;
  }
}
