/** Source positions: a `FilePos` is a 1-based (line, column) pair, a
    `FileRange` a pair of positions. Both are ordered lexicographically, as
    ordered dataclasses are. Offsets into the file are turned into positions
    through a table holding the start offset of every line. */
module Positions {
  import opened Basics

  datatype FilePos = FilePos(line: int, column: int)

  datatype FileRange = FileRange(start: FilePos, stop: FilePos)

  /** The elaborator's offset range; either end may be missing. */
  datatype StringRange = StringRange(start: Option<int>, stop: Option<int>)

  predicate PosLe(a: FilePos, b: FilePos) {
    a.line < b.line || (a.line == b.line && a.column <= b.column)
  }

  predicate PosLt(a: FilePos, b: FilePos) {
    PosLe(a, b) && a != b
  }

  /** Tuple order on (start, stop), the sort key of root tactics. */
  predicate RangeLe(a: FileRange, b: FileRange) {
    PosLt(a.start, b.start) || (a.start == b.start && PosLe(a.stop, b.stop))
  }

  /** `outer.inRange(inner)`: `inner` lies within `outer`. */
  predicate InRange(outer: FileRange, inner: FileRange) {
    PosLe(outer.start, inner.start) && PosLe(inner.stop, outer.stop)
  }

  lemma PosLeTotalOrder()
    ensures forall a, b :: PosLe(a, b) || PosLe(b, a)
    ensures forall a, b :: PosLe(a, b) && PosLe(b, a) ==> a == b
    ensures forall a, b, c :: PosLe(a, b) && PosLe(b, c) ==> PosLe(a, c)
  {
  }

  /** The sort order of ranges is total and transitive. */
  lemma RangeLeTotalPreorder()
    ensures forall a, b :: RangeLe(a, b) || RangeLe(b, a)
    ensures forall a, b, c :: RangeLe(a, b) && RangeLe(b, c) ==> RangeLe(a, c)
  {
    PosLeTotalOrder();
  }

  /** A range sorting strictly before another does not also sort after it. */
  lemma RangeLeAntisymmetric(a: FileRange, b: FileRange)
    requires RangeLe(a, b) && a != b
    ensures !RangeLe(b, a)
  {
    PosLeTotalOrder();
  }

  /** Containment is reflexive and transitive: a preorder on ranges. */
  lemma InRangePreorder()
    ensures forall a :: InRange(a, a)
    ensures forall a, b, c :: InRange(a, b) && InRange(b, c) ==> InRange(a, c)
  {
    PosLeTotalOrder();
  }

  /** The number of leading table entries that are at most `charPos`: where
      the line scan stops. */
  function FirstAbove(lines: seq<int>, charPos: int): (k: nat)
    ensures k <= |lines|
    ensures forall i :: 0 <= i < k ==> lines[i] <= charPos
    ensures k < |lines| ==> lines[k] > charPos
    decreases |lines|
  {
    if |lines| == 0 || lines[0] > charPos then 0
    else 1 + FirstAbove(lines[1..], charPos)
  }

  /** The `for` loop of `createFilePos`: `start` and `lineNum` hold the
      last line start seen that is not past `charPos`. */
  function ScanLineStarts(lines: seq<int>, charPos: int, index: nat, start: int, lineNum: int): FilePos
    requires index <= |lines|
    decreases |lines| - index
  {
    if index == |lines| || lines[index] > charPos then FilePos(lineNum, charPos - start + 1)
    else ScanLineStarts(lines, charPos, index + 1, lines[index], index + 1)
  }

  /** An offset's position: the line is one past the number of leading
      line starts not past the offset, the column counts from that line's
      start; before the first line start, line 1 and column offset+1. */
  function CreateFilePos(lines: seq<int>, charPos: int): (p: FilePos)
    ensures var k := FirstAbove(lines, charPos);
            p == if k == 0 then FilePos(1, charPos + 1)
                 else FilePos(k, charPos - lines[k - 1] + 1)
  {
    ScanAgrees(lines, charPos, 0, 0, 1);
    ScanLineStarts(lines, charPos, 0, 0, 1)
  }

  /** The loop, resumed at `index` with nothing past `charPos` seen so far,
      stops where `FirstAbove` says. */
  lemma {:induction false} ScanAgrees(lines: seq<int>, charPos: int, index: nat, start: int, lineNum: int)
    requires index <= |lines|
    requires forall i :: 0 <= i < index ==> lines[i] <= charPos
    requires index == 0 ==> start == 0 && lineNum == 1
    requires index > 0 ==> start == lines[index - 1] && lineNum == index
    ensures var k := FirstAbove(lines, charPos);
            ScanLineStarts(lines, charPos, index, start, lineNum)
            == if k == 0 then FilePos(1, charPos + 1)
               else FilePos(k, charPos - lines[k - 1] + 1)
    decreases |lines| - index
  {
    if index < |lines| && lines[index] <= charPos {
      ScanAgrees(lines, charPos, index + 1, lines[index], index + 1);
    } else {
      FirstAboveIsFirst(lines, charPos, index);
    }
  }

  /** `FirstAbove` is the index of the first entry past `charPos`. */
  lemma {:induction false} FirstAboveIsFirst(lines: seq<int>, charPos: int, k: nat)
    requires k <= |lines|
    requires forall i :: 0 <= i < k ==> lines[i] <= charPos
    requires k < |lines| ==> lines[k] > charPos
    ensures FirstAbove(lines, charPos) == k
    decreases |lines|
  {
    if k > 0 {
      FirstAboveIsFirst(lines[1..], charPos, k - 1);
    }
  }

  /** A partial version of the same fact: at least `index` entries are
      not past `charPos`. */
  lemma {:induction false} FirstAboveAtLeast(lines: seq<int>, charPos: int, index: nat)
    requires index <= |lines|
    requires forall i :: 0 <= i < index ==> lines[i] <= charPos
    ensures index <= FirstAbove(lines, charPos)
    decreases |lines|
  {
    if index > 0 {
      FirstAboveAtLeast(lines[1..], charPos, index - 1);
    }
  }

  predicate SortedStarts(lines: seq<int>) {
    forall i, j :: 0 <= i < j < |lines| ==> lines[i] <= lines[j]
  }

  /** In a sorted table the line found is that of the greatest line start
      not past the offset, and its column is at least 1. */
  lemma GreatestStartNotPast(lines: seq<int>, charPos: int)
    requires SortedStarts(lines)
    requires |lines| > 0 && lines[0] <= charPos
    ensures var p := CreateFilePos(lines, charPos);
            1 <= p.line <= |lines| && lines[p.line - 1] <= charPos && p.column >= 1
            && forall i :: 0 <= i < |lines| && lines[i] <= charPos ==> lines[i] <= lines[p.line - 1]
  {
    var k := FirstAbove(lines, charPos);
    forall i | k <= i < |lines| ensures lines[i] > charPos {
      assert lines[k] <= lines[i];
    }
  }

  /** Later offsets never get earlier positions, as long as the table is
      sorted and the offsets are not before the first line start. */
  lemma CreateFilePosMonotone(lines: seq<int>, c1: int, c2: int)
    requires SortedStarts(lines)
    requires |lines| == 0 || lines[0] <= c1
    requires c1 <= c2
    ensures PosLe(CreateFilePos(lines, c1), CreateFilePos(lines, c2))
  {
    var k1 := FirstAbove(lines, c1);
    var k2 := FirstAbove(lines, c2);
    FirstAboveAtLeast(lines, c2, k1);
    if k1 == k2 && k1 > 0 {
      assert lines[k1 - 1] <= c1;
    } else if k1 < k2 {
      assert k1 > 0 || |lines| == 0;
    }
  }

  lemma CreateFilePosExample()
    ensures CreateFilePos([0, 10, 25], 12) == FilePos(2, 3)
    ensures CreateFilePos([0, 10, 25], 30) == FilePos(3, 6)
    ensures CreateFilePos([], 7) == FilePos(1, 8)
  {
    assert FirstAbove([0, 10, 25], 12) == 2 by {
      FirstAboveIsFirst([0, 10, 25], 12, 2);
    }
    assert FirstAbove([0, 10, 25], 30) == 3 by {
      FirstAboveIsFirst([0, 10, 25], 30, 3);
    }
  }

  /** `FileRange.fromStringRange`: a missing range or a missing end falls
      back to the start of the file, (1, 1), or to the line after the
      last, (len(lines)+1, 1). */
  function FromStringRange(lines: seq<int>, range: Option<StringRange>): (r: FileRange)
    ensures range.Some? && range.value.start.Some? ==> r.start == CreateFilePos(lines, range.value.start.value)
    ensures range.Some? && range.value.stop.Some? ==> r.stop == CreateFilePos(lines, range.value.stop.value)
    ensures range.None? || range.value.start.None? ==> r.start == FilePos(1, 1)
    ensures range.None? || range.value.stop.None? ==> r.stop == FilePos(|lines| + 1, 1)
  {
    var start := if range.Some? && range.value.start.Some? then CreateFilePos(lines, range.value.start.value) else FilePos(1, 1);
    var stop := if range.Some? && range.value.stop.Some? then CreateFilePos(lines, range.value.stop.value) else FilePos(|lines| + 1, 1);
    FileRange(start, stop)
  }

  /** Every position resolved from a non-negative offset lies between the
      two sentinels, so the whole-file range contains every resolved range. */
  lemma WholeFileContains(lines: seq<int>, range: Option<StringRange>)
    requires |lines| > 0
    requires range.Some? && range.value.start.Some? ==> range.value.start.value >= 0
    requires range.Some? && range.value.stop.Some? ==> range.value.stop.value >= 0
    ensures InRange(FromStringRange(lines, None), FromStringRange(lines, range))
  {
    var r := FromStringRange(lines, range);
    if range.Some? && range.value.start.Some? {
      var k := FirstAbove(lines, range.value.start.value);
      if k > 0 {
        assert lines[k - 1] <= range.value.start.value;
      }
    }
  }
}
