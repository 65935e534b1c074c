/** The bit table's field structure: row 0 holds the bits, row 1 the value of
    each field, row 2 the field names. A field is a run of adjacent columns
    merged by a column span; `spans[i]` is the width of the field starting at
    column i, and 0 for a column inside a wider field. */
module FieldLayout {
  import opened QtText

  /** The spans tile the columns left to right: column 0 starts a field, every
      field fits in the table, its inner columns start nothing, and the column
      after a field starts the next one. */
  predicate Partition(spans: seq<nat>)
  {
    (|spans| > 0 ==> spans[0] >= 1) &&
    (forall i :: 0 <= i < |spans| && spans[i] >= 1 ==> i + spans[i] <= |spans|) &&
    (forall i, j :: 0 <= i < j < |spans| && spans[i] >= 1 && j < i + spans[i] ==> spans[j] == 0) &&
    (forall i :: 0 <= i < |spans| && spans[i] >= 1 && i + spans[i] < |spans| ==> spans[i + spans[i]] >= 1)
  }

  /** The layout a rebuilt table has: every column its own field. */
  function UnitSpans(n: nat): (r: seq<nat>)
    ensures |r| == n && Partition(r)
  {
    seq(n, _ => 1)
  }

  /** Every column from `from` up to and including `to` is a one-bit field. */
  predicate UnitFields(spans: seq<nat>, from: nat, to: nat)
  {
    to < |spans| && forall j :: from <= j <= to ==> spans[j] == 1
  }

  /** The field start at or before column c whose field contains c. */
  function FieldStart(spans: seq<nat>, c: nat): (s: nat)
    requires Partition(spans) && c < |spans|
    ensures s <= c && spans[s] >= 1 && c < s + spans[s]
    decreases c
  {
    if spans[c] >= 1 then c else FieldStart(spans, c - 1)
  }

  /** Every column lies in exactly one field. */
  lemma PartitionCovers(spans: seq<nat>, c: nat)
    requires Partition(spans) && c < |spans|
    ensures exists s :: 0 <= s <= c && spans[s] >= 1 && c < s + spans[s]
    ensures forall s, t ::
      (0 <= s <= c && spans[s] >= 1 && c < s + spans[s] &&
       0 <= t <= c && spans[t] >= 1 && c < t + spans[t]) ==> s == t
  {
    var s := FieldStart(spans, c);
    assert 0 <= s <= c && spans[s] >= 1 && c < s + spans[s];
  }

  // ---------------------------------------------------------------------------
  // Field values (row 1)
  // ---------------------------------------------------------------------------

  /** QString::toULongLong(nullptr, 2): values that do not fit in 64 bits
      are reported as 0. */
  function ULongLong(v: nat): (r: nat)
    ensures r < 0x1_0000_0000_0000_0000
    ensures r == v || r == 0
  {
    if v < 0x1_0000_0000_0000_0000 then v else 0
  }

  /** The value text of a multi-bit field: "0x" and upper-case hexadecimal
      padded to ceil(width / 4) digits. */
  function HexFieldText(fieldBits: string): string
  {
    "0x" + HexText(ULongLong(BitsToNat(fieldBits)), (|fieldBits| + 3) / 4)
  }

  /** The text onTableFieldUpdate writes to the value cell at a field start. */
  function FieldText(bits: string, start: nat, span: nat): string
    requires 1 <= span && start + span <= |bits|
  {
    if span > 1 then HexFieldText(bits[start..start + span]) else [bits[start]]
  }

  /** The value cell at column i after a recompute: a field start shows its
      field's value, a cell inside a field keeps whatever it held. */
  function CellText(bits: string, spans: seq<nat>, values: seq<string>, i: nat): string
    requires |spans| == |bits| == |values| && Partition(spans) && i < |values|
  {
    if spans[i] >= 1 then FieldText(bits, i, spans[i]) else values[i]
  }

  /** At a field start the recompute writes the field's text and leaves the
      cells inside the field alone; the column after the field starts the
      next one. */
  lemma FieldStartStep(bits: string, spans: seq<nat>, values: seq<string>, i: nat)
    requires |spans| == |bits| == |values| && Partition(spans) && i < |values| && spans[i] >= 1
    ensures CellText(bits, spans, values, i) == FieldText(bits, i, spans[i])
    ensures forall k :: i < k < i + spans[i] ==> CellText(bits, spans, values, k) == values[k]
    ensures i + spans[i] < |spans| ==> spans[i + spans[i]] >= 1
  {
  }

  /** Row 1 after a recompute. */
  function Recomputed(bits: string, spans: seq<nat>, values: seq<string>): (r: seq<string>)
    requires |spans| == |bits| == |values| && Partition(spans)
    ensures |r| == |values|
  {
    seq(|values|, i requires 0 <= i < |values| => CellText(bits, spans, values, i))
  }

  /** Row 1 part way through the recompute loop: columns before i already
      recomputed, the rest untouched. */
  function RecomputedUpTo(bits: string, spans: seq<nat>, values: seq<string>, i: nat): (r: seq<string>)
    requires |spans| == |bits| == |values| && Partition(spans) && i <= |values|
    ensures |r| == |values|
  {
    seq(|values|, k requires 0 <= k < |values| => if k < i then CellText(bits, spans, values, k) else values[k])
  }

  lemma RecomputedUpToEnds(bits: string, spans: seq<nat>, values: seq<string>)
    requires |spans| == |bits| == |values| && Partition(spans)
    ensures RecomputedUpTo(bits, spans, values, 0) == values
    ensures RecomputedUpTo(bits, spans, values, |values|) == Recomputed(bits, spans, values)
  {
  }

  /** One pass of the recompute loop at a field start: writing the field's
      text there recomputes the whole field, and the loop lands on the next
      field start. */
  lemma RecomputeStep(bits: string, spans: seq<nat>, values: seq<string>, i: nat)
    requires |spans| == |bits| == |values| && Partition(spans) && i < |values| && spans[i] >= 1
    ensures i + spans[i] <= |values|
    ensures RecomputedUpTo(bits, spans, values, i)[i := FieldText(bits, i, spans[i])] ==
      RecomputedUpTo(bits, spans, values, i + spans[i])
    ensures i + spans[i] < |spans| ==> spans[i + spans[i]] >= 1
  {
    FieldStartStep(bits, spans, values, i);
    var a := RecomputedUpTo(bits, spans, values, i)[i := FieldText(bits, i, spans[i])];
    var b := RecomputedUpTo(bits, spans, values, i + spans[i]);
    forall k | 0 <= k < |values|
      ensures a[k] == b[k]
    {
      if i < k < i + spans[i] {
        assert CellText(bits, spans, values, k) == values[k];
      }
    }
  }

  /** A one-bit field shows its bit. */
  lemma FieldTextUnit(bits: string, start: nat)
    requires start < |bits|
    ensures FieldText(bits, start, 1) == [bits[start]]
  {
  }

  /** A field of 2 to 64 bits shows "0x" and exactly ceil(width / 4)
      upper-case hexadecimal digits, which read back as the field's bits. */
  lemma FieldTextHex(bits: string, start: nat, span: nat)
    requires 1 < span <= 64 && start + span <= |bits|
    ensures var t := FieldText(bits, start, span);
      |t| == 2 + (span + 3) / 4 && t[..2] == "0x" &&
      IsUpperHex(t[2..]) && DigitsValue(t[2..], 16) == BitsToNat(bits[start..start + span])
  {
    var f := bits[start..start + span];
    var k := (span + 3) / 4;
    BitsToNatBound(f);
    PowMonotone(2, span, 64);
    PowOfTwoWidths();
    assert ULongLong(BitsToNat(f)) == BitsToNat(f);
    PowMonotone(2, span, 4 * k);
    PowBinaryHex(k);
    HexTextDigits(BitsToNat(f), k, k);
    var t := FieldText(bits, start, span);
    assert t[2..] == HexText(BitsToNat(f), k);
  }

  /** Row 1 of a rebuilt table: every cell holds its column's bit. */
  function UnitValues(bits: string): (r: seq<string>)
    ensures |r| == |bits| && forall i :: 0 <= i < |bits| ==> r[i] == [bits[i]]
  {
    seq(|bits|, i requires 0 <= i < |bits| => [bits[i]])
  }

  /** Row 2 of a rebuilt table: no field has a name. */
  function NoNames(n: nat): (r: seq<string>)
    ensures |r| == n && forall i :: 0 <= i < n ==> r[i] == ""
  {
    seq(n, _ => "")
  }

  /** A rebuilt table's value cells are up to date: with one-bit fields every
      value cell is its column's bit. */
  lemma RecomputedUnits(bits: string, values: seq<string>)
    requires |values| == |bits|
    ensures Recomputed(bits, UnitSpans(|bits|), values) == UnitValues(bits)
  {
  }

  /** Recomputing twice is recomputing once. */
  lemma RecomputedIdempotent(bits: string, spans: seq<nat>, values: seq<string>)
    requires |spans| == |bits| == |values| && Partition(spans)
    ensures Recomputed(bits, spans, Recomputed(bits, spans, values)) == Recomputed(bits, spans, values)
  {
  }

  // ---------------------------------------------------------------------------
  // Toggling a bit (row 0)
  // ---------------------------------------------------------------------------

  /** The double-click toggle: "0" becomes "1", anything else becomes "0". */
  function Flip(bits: string, c: nat): (r: string)
    requires c < |bits|
    ensures |r| == |bits| && r[c] == (if bits[c] == '0' then '1' else '0')
    ensures forall j :: 0 <= j < |bits| && j != c ==> r[j] == bits[j]
  {
    bits[c := if bits[c] == '0' then '1' else '0']
  }

  /** Toggling keeps the row made of bits, and toggling twice restores it. */
  lemma FlipTwice(bits: string, c: nat)
    requires c < |bits| && IsBits(bits)
    ensures IsBits(Flip(bits, c))
    ensures Flip(Flip(bits, c), c) == bits
  {
  }

  // ---------------------------------------------------------------------------
  // Selection (getSelectedColumns)
  // ---------------------------------------------------------------------------

  predicate Distinct(s: seq<nat>)
  {
    forall i, j :: 0 <= i < j < |s| ==> s[i] != s[j]
  }

  /** Where a column is first listed. */
  function FirstIndex(s: seq<nat>, x: nat): (i: nat)
    requires x in s
    ensures i < |s| && s[i] == x && x !in s[..i]
    decreases |s|
  {
    if s[0] == x then 0
    else
      var k := FirstIndex(s[1..], x);
      assert s[..k + 1] == [s[0]] + s[1..][..k];
      1 + k
  }

  /** A position holding x with no x before it is the first one. */
  lemma FirstIndexAt(s: seq<nat>, x: nat, i: nat)
    requires i < |s| && s[i] == x && x !in s[..i]
    ensures FirstIndex(s, x) == i
  {
    var k := FirstIndex(s, x);
    assert k <= i ==> s[..i][..k] == s[..k];
    assert i <= k ==> s[..k][..i] == s[..i];
  }

  /** The selected columns in the order their first cell was listed, each
      once: no repeats, and exactly the listed columns. */
  function Dedup(s: seq<nat>): (r: seq<nat>)
    ensures Distinct(r)
    ensures forall k :: 0 <= k < |r| ==> r[k] in s
    ensures forall x :: x in s ==> x in r
    decreases |s|
  {
    if s == [] then []
    else
      var d := Dedup(s[..|s| - 1]);
      assert forall x :: x in s <==> x in s[..|s| - 1] || x == s[|s| - 1];
      if s[|s| - 1] in d then d else d + [s[|s| - 1]]
  }

  /** A column already listed keeps its first position when one more is
      listed, and a new column is first listed at the end. */
  lemma PrefixFirstIndex(p: seq<nat>, y: nat)
    ensures forall x :: x in p ==> FirstIndex(p + [y], x) == FirstIndex(p, x)
    ensures y !in p ==> FirstIndex(p + [y], y) == |p|
  {
    var s := p + [y];
    forall x | x in p ensures FirstIndex(s, x) == FirstIndex(p, x) {
      var i := FirstIndex(p, x);
      assert s[..i] == p[..i];
      FirstIndexAt(s, x, i);
    }
    if y !in p {
      assert s[..|p|] == p;
      FirstIndexAt(s, y, |p|);
    }
  }

  /** The columns keep the order in which each was first listed. */
  lemma {:induction false} DedupOrder(s: seq<nat>)
    ensures forall i, j :: 0 <= i < j < |Dedup(s)| ==>
      FirstIndex(s, Dedup(s)[i]) < FirstIndex(s, Dedup(s)[j])
    decreases |s|
  {
    if s != [] {
      var p, y := s[..|s| - 1], s[|s| - 1];
      assert s == p + [y];
      var d, r := Dedup(p), Dedup(s);
      DedupOrder(p);
      PrefixFirstIndex(p, y);
      forall i, j | 0 <= i < j < |r| ensures FirstIndex(s, r[i]) < FirstIndex(s, r[j]) {
        assert r[i] == d[i];
        if j < |d| {
          assert r[j] == d[j];
        } else {
          assert r[j] == y && y !in p;
        }
      }
    }
  }

  /** So the last column is the one whose first listing comes latest. */
  lemma {:induction false} DedupLast(s: seq<nat>)
    requires s != []
    ensures Dedup(s) != []
    ensures forall x :: x in s ==> FirstIndex(s, x) <= FirstIndex(s, Dedup(s)[|Dedup(s)| - 1])
    decreases |s|
  {
    var p, y := s[..|s| - 1], s[|s| - 1];
    assert s == p + [y];
    var d, r := Dedup(p), Dedup(s);
    PrefixFirstIndex(p, y);
    if y in d {
      assert r == d && p != [];
      DedupLast(p);
      var last := d[|d| - 1];
      assert FirstIndex(s, last) == FirstIndex(p, last);
      forall x | x in s ensures FirstIndex(s, x) <= FirstIndex(s, last) {
        assert x in p;
      }
    } else {
      assert r == d + [y] && y !in p;
    }
  }

  /** The de-duplicated list starts with the first listed column and is no
      longer than the list. */
  lemma {:induction false} DedupFirst(s: seq<nat>)
    ensures s != [] ==> Dedup(s) != [] && Dedup(s)[0] == s[0]
    ensures |Dedup(s)| <= |s|
    decreases |s|
  {
    if s != [] {
      var p := s[..|s| - 1];
      DedupFirst(p);
      if p == [] {
        assert Dedup(s) == [s[0]];
      } else {
        assert s[0] == p[0];
      }
    }
  }

  // ---------------------------------------------------------------------------
  // Merging (onCellMergeRequest)
  // ---------------------------------------------------------------------------

  /** The first non-empty name, or the empty name when there is none. */
  function FirstNonEmpty(names: seq<string>): string
    decreases |names|
  {
    if names == [] then "" else if names[0] != "" then names[0] else FirstNonEmpty(names[1..])
  }

  /** FirstNonEmpty picks the earliest non-empty name, and is empty exactly
      when every name is. */
  lemma {:induction false} FirstNonEmptySpec(names: seq<string>)
    ensures FirstNonEmpty(names) == "" <==> forall k :: 0 <= k < |names| ==> names[k] == ""
    ensures FirstNonEmpty(names) != "" ==>
      exists k :: 0 <= k < |names| && names[k] == FirstNonEmpty(names) &&
        forall j :: 0 <= j < k ==> names[j] == ""
    decreases |names|
  {
    if names != [] && names[0] == "" {
      FirstNonEmptySpec(names[1..]);
      if FirstNonEmpty(names) != "" {
        var k :| 0 <= k < |names[1..]| && names[1..][k] == FirstNonEmpty(names[1..]) &&
          forall j :: 0 <= j < k ==> names[1..][j] == "";
        assert names[k + 1] == FirstNonEmpty(names);
        assert forall j :: 0 <= j < k + 1 ==> names[j] == "" by {
          forall j | 0 <= j < k + 1
            ensures names[j] == ""
          {
            if j > 0 {
              assert names[j] == names[1..][j - 1];
            }
          }
        }
      }
      forall k | 0 <= k < |names| && FirstNonEmpty(names) == ""
        ensures names[k] == ""
      {
        if k > 0 {
          assert names[k] == names[1..][k - 1];
        }
      }
    }
  }

  /** One more name: the first non-empty one stays, or the new one is taken. */
  lemma {:induction false} FirstNonEmptySnoc(names: seq<string>, x: string)
    ensures FirstNonEmpty(names + [x]) == if FirstNonEmpty(names) != "" then FirstNonEmpty(names) else x
    decreases |names|
  {
    if names == [] {
      assert [x][1..] == [];
    } else {
      assert (names + [x])[1..] == names[1..] + [x];
      FirstNonEmptySnoc(names[1..], x);
    }
  }

  /** Row 2 after a merge request on first..last: the first column takes the
      first non-empty name of the range, the rest of the range is cleared. An
      empty range (last <= first) changes nothing. */
  function MergeLabels(labels: seq<string>, first: nat, last: nat): (r: seq<string>)
    requires first < |labels| && last < |labels|
    ensures |r| == |labels|
  {
    if last <= first then labels
    else
      seq(|labels|, i requires 0 <= i < |labels| =>
        if i == first then FirstNonEmpty(labels[first..last + 1])
        else if first < i <= last then ""
        else labels[i])
  }

  /** Row 2 part way through the name-moving loop of a merge request on
      first..last: columns first + 1 .. i - 1 done. */
  function MovedUpTo(labels: seq<string>, first: nat, i: nat): (r: seq<string>)
    requires first < i <= |labels|
    ensures |r| == |labels|
  {
    seq(|labels|, k requires 0 <= k < |labels| =>
      if k == first then FirstNonEmpty(labels[first..i])
      else if first < k < i then ""
      else labels[k])
  }

  /** Before the first pass nothing has moved; after the last one the names
      are those of MergeLabels. */
  lemma MovedUpToEnds(labels: seq<string>, first: nat, last: nat)
    requires first < |labels| && last < |labels|
    ensures MovedUpTo(labels, first, first + 1) == labels
    ensures first < last ==> MovedUpTo(labels, first, last + 1) == MergeLabels(labels, first, last)
  {
    assert labels[first..first + 1] == [] + [labels[first]];
    FirstNonEmptySnoc([], labels[first]);
  }

  /** One pass of the loop at column i: the first column takes i's name if it
      has none yet, and column i is cleared. */
  lemma MoveNameStep(labels: seq<string>, first: nat, i: nat)
    requires first < i < |labels|
    ensures var m := MovedUpTo(labels, first, i);
      m[i] == labels[i] &&
      (if m[first] == "" then m[first := m[i]] else m)[i := ""] == MovedUpTo(labels, first, i + 1)
  {
    FirstNonEmptySnoc(labels[first..i], labels[i]);
    assert labels[first..i + 1] == labels[first..i] + [labels[i]];
  }

  /** A second merge request on the same range keeps the names as they are. */
  lemma MergeLabelsIdempotent(labels: seq<string>, first: nat, last: nat)
    requires first < |labels| && last < |labels|
    ensures MergeLabels(MergeLabels(labels, first, last), first, last) == MergeLabels(labels, first, last)
  {
    if first < last {
      var m := MergeLabels(labels, first, last);
      var r := m[first..last + 1];
      assert r == [m[first]] + r[1..];
      forall k | 0 <= k < |r[1..]|
        ensures r[1..][k] == ""
      {
        assert r[1..][k] == m[first + 1 + k];
      }
      FirstNonEmptySpec(r[1..]);
      if m[first] == "" {
        assert FirstNonEmpty(r) == FirstNonEmpty(r[1..]);
      }
    }
  }

  /** The name the merged field keeps was the name of some column of the
      range, the earliest non-empty one. */
  lemma MergeLabelsKeepsName(labels: seq<string>, first: nat, last: nat)
    requires first < last < |labels|
    ensures var n := MergeLabels(labels, first, last)[first];
      n == "" <==> forall i :: first <= i <= last ==> labels[i] == ""
    ensures var n := MergeLabels(labels, first, last)[first];
      n != "" ==>
        exists i :: first <= i <= last && labels[i] == n &&
          forall j :: first <= j < i ==> labels[j] == ""
  {
    var r := labels[first..last + 1];
    FirstNonEmptySpec(r);
    if FirstNonEmpty(r) != "" {
      var k :| 0 <= k < |r| && r[k] == FirstNonEmpty(r) && forall j :: 0 <= j < k ==> r[j] == "";
      assert labels[first + k] == FirstNonEmpty(r);
      forall j | first <= j < first + k
        ensures labels[j] == ""
      {
        assert labels[j] == r[j - first];
      }
    } else {
      forall i | first <= i <= last
        ensures labels[i] == ""
      {
        assert labels[i] == r[i - first];
      }
    }
  }

  /** A span of `width` set at `first` over one-bit fields. */
  function MergeSpans(spans: seq<nat>, first: nat, width: nat): (r: seq<nat>)
    requires 1 <= width && first + width <= |spans|
    ensures |r| == |spans|
  {
    seq(|spans|, i requires 0 <= i < |spans| =>
      if i == first then width else if first < i < first + width then 0 else spans[i])
  }

  /** The span at `first` removed: every column of that field is a one-bit
      field again. */
  function UnmergeSpans(spans: seq<nat>, first: nat): (r: seq<nat>)
    requires first < |spans| && first + spans[first] <= |spans|
    ensures |r| == |spans|
  {
    seq(|spans|, i requires 0 <= i < |spans| =>
      if first <= i < first + spans[first] then 1 else spans[i])
  }

  /** A field ends at or before any later field start. */
  lemma FieldEndsBefore(spans: seq<nat>, i: nat, k: nat)
    requires Partition(spans) && i < k < |spans| && spans[i] >= 1 && spans[k] >= 1
    ensures i + spans[i] <= k
  {
  }

  lemma MergePreservesPartition(spans: seq<nat>, first: nat, width: nat)
    requires Partition(spans) && 1 <= width && UnitFields(spans, first, first + width - 1)
    ensures Partition(MergeSpans(spans, first, width))
  {
    var r := MergeSpans(spans, first, width);
    forall i, j | 0 <= i < j < |r| && r[i] >= 1 && j < i + r[i]
      ensures r[j] == 0
    {
      if i < first {
        FieldEndsBefore(spans, i, first);
      }
    }
    forall i | 0 <= i < |r| && r[i] >= 1 && i + r[i] < |r|
      ensures r[i + r[i]] >= 1
    {
      if i == first {
        assert spans[first + width - 1] == 1;
      } else if i < first {
        FieldEndsBefore(spans, i, first);
      }
    }
  }

  lemma UnmergePreservesPartition(spans: seq<nat>, first: nat)
    requires Partition(spans) && first < |spans| && spans[first] >= 1
    ensures Partition(UnmergeSpans(spans, first))
  {
    var w := spans[first];
    var r := UnmergeSpans(spans, first);
    forall i, j | 0 <= i < j < |r| && r[i] >= 1 && j < i + r[i]
      ensures r[j] == 0
    {
      if i < first {
        FieldEndsBefore(spans, i, first);
      }
    }
  }

  /** Merging one-bit fields and then unmerging the result restores the
      layout. */
  lemma UnmergeUndoesMerge(spans: seq<nat>, first: nat, width: nat)
    requires 1 <= width && UnitFields(spans, first, first + width - 1)
    ensures UnmergeSpans(MergeSpans(spans, first, width), first) == spans
  {
  }

  /** The column range a merge request acts on, as the selection lists it:
      from its first to its last entry, not from the smallest to the largest. */
  function MergeWidth(sel: seq<nat>): (w: nat)
    requires |sel| >= 1
    ensures w >= 1
  {
    var first, last := sel[0], sel[|sel| - 1];
    (if last >= first then last - first else first - last) + 1
  }

  /** What onCellMergeRequest needs of the table: a first column that starts a
      wider field (it is then split up), or one-bit fields on all columns of
      the span it sets. */
  predicate MergeAllowed(spans: seq<nat>, sel: seq<nat>)
  {
    |sel| >= 2 ==>
      sel[0] < |spans| &&
      (spans[sel[0]] > 1 || UnitFields(spans, sel[0], sel[0] + MergeWidth(sel) - 1))
  }

  /** The layout after a merge request on the de-duplicated selection sel. */
  function MergeRequestSpans(spans: seq<nat>, sel: seq<nat>): (r: seq<nat>)
    requires Partition(spans) && MergeAllowed(spans, sel)
    ensures |r| == |spans| && Partition(r)
  {
    if |sel| <= 1 then spans
    else if spans[sel[0]] > 1 then
      UnmergePreservesPartition(spans, sel[0]);
      UnmergeSpans(spans, sel[0])
    else
      MergePreservesPartition(spans, sel[0], MergeWidth(sel));
      MergeSpans(spans, sel[0], MergeWidth(sel))
  }

  /** The names after a merge request on the de-duplicated selection sel. */
  function MergeRequestLabels(labels: seq<string>, sel: seq<nat>): (r: seq<string>)
    requires |sel| >= 2 ==> sel[0] < |labels| && sel[|sel| - 1] < |labels|
    ensures |r| == |labels|
  {
    if |sel| <= 1 then labels else MergeLabels(labels, sel[0], sel[|sel| - 1])
  }

  /** Two merge requests on the same selection of one-bit fields give back
      one-bit fields: the first sets a span of two or more (the ends of a
      de-duplicated selection differ), so the second one removes it. */
  lemma MergeRequestTwice(spans: seq<nat>, sel: seq<nat>)
    requires Partition(spans) && Distinct(sel) && |sel| >= 2
    requires sel[0] + MergeWidth(sel) <= |spans|
    requires UnitFields(spans, sel[0], sel[0] + MergeWidth(sel) - 1)
    ensures MergeAllowed(spans, sel)
    ensures MergeRequestSpans(spans, sel)[sel[0]] == MergeWidth(sel) > 1
    ensures MergeAllowed(MergeRequestSpans(spans, sel), sel)
    ensures MergeRequestSpans(MergeRequestSpans(spans, sel), sel) == spans
  {
    assert sel[0] != sel[|sel| - 1];
    UnmergeUndoesMerge(spans, sel[0], MergeWidth(sel));
  }

  /** The range is read off the selection as listed: with column 3 selected
      before column 1 of six one-bit fields, the names are left alone (the
      loop from 4 to 1 does not run) and the span of |1 - 3| + 1 = 3 is set
      at column 3, covering columns 3 to 5, while column 1 stays a one-bit
      field. */
  lemma MergeUsesListOrder(labels: seq<string>)
    requires |labels| == 6
    ensures MergeAllowed(UnitSpans(6), [3, 1])
    ensures MergeRequestLabels(labels, [3, 1]) == labels
    ensures var r := MergeRequestSpans(UnitSpans(6), [3, 1]);
      r == [1, 1, 1, 3, 0, 0]
  {
    var sel: seq<nat> := [3, 1];
    assert MergeWidth(sel) == 3;
    assert UnitFields(UnitSpans(6), 3, 5);
  }
}
