/** `get_full_range` of the text-scan extractor: every source offset found
    anywhere in a parsed syntax tree, reduced to its least and greatest. */
module AstRange {
  import opened Basics
  import opened Json

  /** The keys whose numeric values are offsets, in the order they are read. */
  const PositionKeys: seq<string> := ["pos", "endPos", "bytePos", "byteEndPos"]

  /** Whether `key` holds a number in one object. */
  predicate NumberAt(fields: seq<Field>, key: string) {
    Get(fields, key).Some? && IsNumber(Get(fields, key).value)
  }

  /** The offsets directly under `keys` in one object: values that are
      numbers are taken, anything else is passed over. */
  function OwnPositions(fields: seq<Field>, keys: seq<string>): (r: seq<int>)
    ensures |r| <= |keys|
    decreases |keys|
  {
    if |keys| == 0 then []
    else
      var here := if NumberAt(fields, keys[0]) then [PyInt(Get(fields, keys[0]).value).value] else [];
      here + OwnPositions(fields, keys[1..])
  }

  /** The offsets are exactly the numbers under the keys. */
  lemma {:induction false} OwnPositionsSpec(fields: seq<Field>, keys: seq<string>)
    ensures forall x :: x in OwnPositions(fields, keys) <==>
              exists k :: 0 <= k < |keys| && NumberAt(fields, keys[k]) && PyInt(Get(fields, keys[k]).value) == Ok(x)
    decreases |keys|
  {
    if |keys| > 0 {
      var here := if NumberAt(fields, keys[0]) then [PyInt(Get(fields, keys[0]).value).value] else [];
      var rest := OwnPositions(fields, keys[1..]);
      OwnPositionsSpec(fields, keys[1..]);
      assert OwnPositions(fields, keys) == here + rest;
      forall x ensures x in here + rest <==>
                 exists k :: 0 <= k < |keys| && NumberAt(fields, keys[k]) && PyInt(Get(fields, keys[k]).value) == Ok(x)
      {
        if x in rest {
          var k :| 0 <= k < |keys[1..]| && NumberAt(fields, keys[1..][k]) && PyInt(Get(fields, keys[1..][k]).value) == Ok(x);
          assert keys[k + 1] == keys[1..][k];
        }
        if exists k :: 0 <= k < |keys| && NumberAt(fields, keys[k]) && PyInt(Get(fields, keys[k]).value) == Ok(x) {
          var k :| 0 <= k < |keys| && NumberAt(fields, keys[k]) && PyInt(Get(fields, keys[k]).value) == Ok(x);
          if k > 0 {
            assert keys[1..][k - 1] == keys[k];
          }
        }
      }
    }
  }

  /** When every key holds a number, the offsets come in key order. */
  lemma {:induction false} OwnPositionsInOrder(fields: seq<Field>, keys: seq<string>)
    requires forall k :: 0 <= k < |keys| ==> NumberAt(fields, keys[k])
    ensures |OwnPositions(fields, keys)| == |keys|
    ensures forall k :: 0 <= k < |keys| ==>
              NumberAt(fields, keys[k]) && Ok(OwnPositions(fields, keys)[k]) == PyInt(Get(fields, keys[k]).value)
    decreases |keys|
  {
    if |keys| > 0 {
      assert forall k :: 0 <= k < |keys| - 1 ==> keys[1..][k] == keys[k + 1];
      OwnPositionsInOrder(fields, keys[1..]);
    }
  }

  /** The fields of `info.original`, when `info` and `original` are both
      objects (a missing one reads as an empty object). */
  function Original(fields: seq<Field>): (r: Option<seq<Field>>)
    ensures r.Some? <==> GetOr(fields, "info", JObject([])).JObject?
                         && GetOr(GetOr(fields, "info", JObject([])).fields, "original", JObject([])).JObject?
  {
    var info := GetOr(fields, "info", JObject([]));
    if !info.JObject? then None
    else
      var orig := GetOr(info.fields, "original", JObject([]));
      if !orig.JObject? then None else Some(orig.fields)
  }

  /** The offsets under `info.original`: `pos`, then `endPos` when present.
      Both are converted with `int()`, which raises on a non-number. */
  function OriginalPositions(fields: seq<Field>): (r: Outcome<seq<int>>)
    ensures r.Ok? ==> |r.value| <= 2
    ensures Original(fields).None? || !Has(Original(fields).value, "pos") ==> r == Ok([])
    ensures Original(fields).Some? && Has(Original(fields).value, "pos") ==>
              var orig := Original(fields).value;
              (r.Ok? <==> NumberAt(orig, "pos") && (Has(orig, "endPos") ==> NumberAt(orig, "endPos")))
              && (r.Ok? ==> |r.value| == (if Has(orig, "endPos") then 2 else 1)
                            && Ok(r.value[0]) == PyInt(Get(orig, "pos").value)
                            && (|r.value| == 2 ==> Ok(r.value[1]) == PyInt(Get(orig, "endPos").value)))
  {
    match Original(fields)
    case None => Ok([])
    case Some(orig) =>
      if !Has(orig, "pos") then Ok([])
      else
        match PyInt(Get(orig, "pos").value)
        case Crash(m) => Crash(m)
        case Ok(p) =>
          if !Has(orig, "endPos") then Ok([p])
          else
            match PyInt(Get(orig, "endPos").value)
            case Crash(m) => Crash(m)
            case Ok(q) => Ok([p, q])
  }

  /** The inner `walk`: an object contributes its own offsets and then those
      of every value, a list those of every item, a scalar nothing. */
  function Positions(j: Json): (r: Outcome<seq<int>>)
    decreases Size(j), 1
  {
    match j
    case JObject(fields) =>
      (match OriginalPositions(fields)
       case Crash(m) => Crash(m)
       case Ok(orig) =>
         match PositionsFields(fields)
         case Crash(m) => Crash(m)
         case Ok(below) => Ok(OwnPositions(fields, PositionKeys) + orig + below))
    case JList(items) => PositionsList(items)
    case _ => Ok([])
  }

  function PositionsList(items: seq<Json>): (r: Outcome<seq<int>>)
    decreases SizeList(items), 2
  {
    if |items| == 0 then Ok([])
    else
      match Positions(items[0])
      case Crash(m) => Crash(m)
      case Ok(first) =>
        match PositionsList(items[1..])
        case Crash(m) => Crash(m)
        case Ok(rest) => Ok(first + rest)
  }

  /** Walking a scalar value adds nothing, so every value is walked. */
  function PositionsFields(fields: seq<Field>): (r: Outcome<seq<int>>)
    decreases SizeFields(fields), 2
  {
    if |fields| == 0 then Ok([])
    else
      match Positions(fields[0].value)
      case Crash(m) => Crash(m)
      case Ok(first) =>
        match PositionsFields(fields[1..])
        case Crash(m) => Crash(m)
        case Ok(rest) => Ok(first + rest)
  }

  /** `(min(ps), max(ps)) if ps else None`. */
  function MinMax(ps: seq<int>): (r: Option<(int, int)>)
    ensures r.None? <==> |ps| == 0
    ensures r.Some? ==> r.value.0 in ps && r.value.1 in ps
    ensures r.Some? ==> forall p :: p in ps ==> r.value.0 <= p <= r.value.1
    decreases |ps|
  {
    if |ps| == 0 then None
    else
      match MinMax(ps[1..])
      case None => Some((ps[0], ps[0]))
      case Some((lo, hi)) =>
        assert forall p :: p in ps ==> p == ps[0] || p in ps[1..];
        Some((if ps[0] < lo then ps[0] else lo, if ps[0] > hi then ps[0] else hi))
  }

  /** `get_full_range`: `None` when the tree holds no offset, otherwise an
      ordered pair; a non-numeric `info.original` offset raises. */
  function GetFullRange(j: Json): (r: Outcome<Option<(int, int)>>)
    ensures r.Ok? <==> Positions(j).Ok?
    ensures r.Ok? ==> (r.value.None? <==> |Positions(j).value| == 0)
    ensures r.Ok? && r.value.Some? ==> r.value.value.0 <= r.value.value.1
    ensures r.Ok? && r.value.Some? ==>
              r.value.value.0 in Positions(j).value && r.value.value.1 in Positions(j).value
              && forall p :: p in Positions(j).value ==> r.value.value.0 <= p <= r.value.value.1
  {
    match Positions(j)
    case Crash(m) => Crash(m)
    case Ok(ps) => Ok(MinMax(ps))
  }

  /** The range of an object covers the offset under its own `pos` key. */
  lemma RangeCoversOwnPos(fields: seq<Field>, p: int)
    requires Get(fields, "pos") == Some(JInt(p))
    ensures var r := GetFullRange(JObject(fields));
            r.Ok? ==> r.value.Some? && r.value.value.0 <= p <= r.value.value.1
  {
    var own := OwnPositions(fields, PositionKeys);
    assert own[0] == p;
    if Positions(JObject(fields)).Ok? {
      var ps := Positions(JObject(fields)).value;
      assert ps[0] == p;
      assert p in ps;
    }
  }

  /** The range of a list covers the ranges of its items. */
  lemma {:induction false} ListRangeCoversItems(items: seq<Json>, k: nat, p: int)
    requires k < |items| && PositionsList(items).Ok?
    requires Positions(items[k]).Ok? && p in Positions(items[k]).value
    ensures p in PositionsList(items).value
    decreases k
  {
    PositionsListCons(items);
    if k > 0 {
      assert items[1..][k - 1] == items[k];
      ListRangeCoversItems(items[1..], k - 1, p);
    }
  }

  /** A list's offsets are those of its first item, then those of the rest. */
  lemma PositionsListCons(items: seq<Json>)
    requires |items| > 0 && PositionsList(items).Ok?
    ensures Positions(items[0]).Ok? && PositionsList(items[1..]).Ok?
    ensures PositionsList(items).value == Positions(items[0]).value + PositionsList(items[1..]).value
  {
  }

  /** An `info.original.pos` that is not a number makes the whole range
      computation raise. */
  lemma NonNumericOriginalRaises(fields: seq<Field>, orig: seq<Field>, s: string)
    requires Get(fields, "info") == Some(JObject([Field("original", JObject(orig))]))
    requires Get(orig, "pos") == Some(JStr(s))
    ensures GetFullRange(JObject(fields)).Crash?
  {
    assert OriginalPositions(fields).Crash?;
  }
}
