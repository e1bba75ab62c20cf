/** The data that `transformData` (src/polarAreaChart.ts:472-546) reads and
    produces, and the pure meaning of its column pass: how each value column
    updates the pre-sized per-category arrays, and how the rows are combined
    and ordered. The colour lookups that the pass performs on the visual's
    state live with that state in module Visual. */
module Rows {
  import opened Wrappers
  import opened Seqs
  import opened StableSort
  import opened ColorCodec

  /** A measure cell: `null` or a number. */
  datatype Measure = Blank | Value(x: real)

  /** An order cell after `Number(value)`: a number or NaN (`Number(null)` is 0). */
  datatype OrderNumber = Finite(x: real) | NotANumber

  /** A value column, classified by the first of the roles measure, order and
      type that it carries (the `if / else if` chain of lines 487-497); type
      names are the cells after `String(value)`. A measure or order column that
      is bound to the type role as well carries its cells as type names in
      `alsoType`: the column pass ignores them, but the registration of lines
      564-572 tests the type role on its own. */
  datatype ValueColumn =
    | MeasureColumn(cells: seq<Measure>, alsoType: Option<seq<string>>)
    | OrderColumn(keys: seq<OrderNumber>, alsoType: Option<seq<string>>)
    | TypeColumn(names: seq<string>)
    | UnusedColumn

  /** One entry of `combinedData` (lines 517-525). */
  datatype Segment = Segment(
    category: string,
    value: Measure,
    secondValue: Measure,
    color: Option<string>,
    colorType: Option<string>,
    typeName: Option<string>,
    order: real)

  /** The object `transformData` returns: the sorted segments, field by field. */
  datatype ChartData = ChartData(
    labels: seq<string>,
    values: seq<Measure>,
    colors: seq<Option<string>>,
    colorsType: seq<Option<string>>,
    types: seq<Option<string>>,
    secondValues: seq<Measure>)

  /** The local arrays of `transformData` after some of the value columns: the
      two measure arrays, the order values (None while still the pre-filled
      nulls), the types, and whether a type column was seen (which is when the
      category colours get filled in). */
  datatype Scan = Scan(
    first: seq<Measure>,
    second: seq<Measure>,
    order: Option<seq<OrderNumber>>,
    types: seq<Option<string>>,
    typed: bool)

  /** The arrays as pre-sized at lines 479-484: every slot null. */
  function InitialScan(n: nat): (st: Scan)
    ensures |st.first| == |st.second| == |st.types| == n && !st.typed && st.order.None?
    ensures forall i :: 0 <= i < n ==> st.first[i] == Blank && st.second[i] == Blank && st.types[i] == None
  {
    Scan(seq(n, _ => Blank), seq(n, _ => Blank), None, seq(n, _ => None), false)
  }

  function Max(a: nat, b: nat): nat { if a < b then b else a }

  /** The arrays keep at least their pre-sized length and the first measure array
      exactly that length. */
  ghost predicate WellSized(st: Scan, n: nat) {
    |st.first| == n && |st.second| >= n && |st.types| >= n
  }

  /** One measure column (lines 488-494): where the first-measure slot is still
      null the cell goes there, otherwise it overwrites the second-measure slot.
      Indices past the pre-sized length find no null first slot, so they extend
      the second-measure array. */
  function MeasureStep(first: seq<Measure>, second: seq<Measure>, cells: seq<Measure>): (r: (seq<Measure>, seq<Measure>))
    requires |first| <= |second|
    ensures |r.0| == |first| && |r.1| == Max(|second|, |cells|)
  {
    (seq(|first|, i requires 0 <= i < |first| =>
       if i < |cells| && first[i] == Blank then cells[i] else first[i]),
     seq(Max(|second|, |cells|), i requires 0 <= i < Max(|second|, |cells|) =>
       if i < |cells| && !(i < |first| && first[i] == Blank) then cells[i] else second[i]))
  }

  /** A type column (lines 498-502): slot i takes the i-th name; a longer column
      extends the array. */
  function TypeStep(types: seq<Option<string>>, names: seq<string>): (r: seq<Option<string>>)
    ensures |r| == Max(|types|, |names|)
  {
    seq(Max(|types|, |names|), i requires 0 <= i < Max(|types|, |names|) =>
      if i < |names| then Some(names[i]) else types[i])
  }

  /** Processing the cells of a type column one at a time: cell j overwrites slot
      j, or extends the array when it is exactly that long. */
  lemma TypeStepSnoc(types: seq<Option<string>>, names: seq<string>, j: nat)
    requires j < |names|
    ensures var t := TypeStep(types, names[..j]);
      j <= |t| &&
      TypeStep(types, names[..j + 1]) == if j < |t| then t[j := Some(names[j])] else t + [Some(names[j])]
  {
  }

  /** The effect of one value column on the local arrays. */
  function ScanColumn(st: Scan, c: ValueColumn): (r: Scan)
    requires |st.first| <= |st.second|
    ensures |r.first| == |st.first| && |r.second| >= |st.second| && |r.types| >= |st.types|
  {
    match c
    case MeasureColumn(cells, _) =>
      var m := MeasureStep(st.first, st.second, cells);
      st.(first := m.0, second := m.1)
    case OrderColumn(keys, _) => st.(order := Some(keys))
    case TypeColumn(names) => st.(types := TypeStep(st.types, names), typed := true)
    case UnusedColumn => st
  }

  /** The column pass over `cols`, in order. */
  function ScanColumns(st: Scan, cols: seq<ValueColumn>): (r: Scan)
    requires |st.first| <= |st.second|
    ensures |r.first| == |st.first| && |r.second| >= |st.second| && |r.types| >= |st.types|
    decreases |cols|
  {
    if cols == [] then st else ScanColumns(ScanColumn(st, cols[0]), cols[1..])
  }

  /** Scanning one more column extends the scan. */
  lemma {:induction false} ScanColumnsSnoc(st: Scan, cols: seq<ValueColumn>, c: ValueColumn)
    requires |st.first| <= |st.second|
    ensures ScanColumns(st, cols + [c]) == ScanColumn(ScanColumns(st, cols), c)
    decreases |cols|
  {
    if cols == [] {
      assert [] + [c] == [c];
      assert [c][1..] == [];
    } else {
      assert (cols + [c])[0] == cols[0];
      assert (cols + [c])[1..] == cols[1..] + [c];
      ScanColumnsSnoc(ScanColumn(st, cols[0]), cols[1..], c);
    }
  }

  /** All type names of all type columns, in the order they are read. */
  function TypeNames(cols: seq<ValueColumn>): seq<string> {
    if cols == [] then []
    else (if cols[0].TypeColumn? then cols[0].names else []) + TypeNames(cols[1..])
  }

  lemma {:induction false} TypeNamesSnoc(cols: seq<ValueColumn>, c: ValueColumn)
    ensures TypeNames(cols + [c]) == TypeNames(cols) + (if c.TypeColumn? then c.names else [])
    decreases |cols|
  {
    if cols == [] {
      assert [] + [c] == [c];
      assert [c][1..] == [];
    } else {
      assert (cols + [c])[0] == cols[0];
      assert (cols + [c])[1..] == cols[1..] + [c];
      TypeNamesSnoc(cols[1..], c);
    }
  }

  /** Whether the column is bound to the type role (line 565). */
  predicate HasTypeRole(c: ValueColumn) {
    c.TypeColumn? || (!c.UnusedColumn? && c.alsoType.Some?)
  }

  /** The type names of a column bound to the type role; none otherwise. */
  function TypeRoleNames(c: ValueColumn): (names: seq<string>)
    ensures !HasTypeRole(c) ==> names == []
    ensures c.TypeColumn? ==> names == c.names
  {
    match c
    case TypeColumn(names) => names
    case MeasureColumn(_, alsoType) => if alsoType.Some? then alsoType.value else []
    case OrderColumn(_, alsoType) => if alsoType.Some? then alsoType.value else []
    case UnusedColumn => []
  }

  /** All type names of all columns bound to the type role, in the order the
      registration loop of lines 564-572 reads them. */
  function RoleTypeNames(cols: seq<ValueColumn>): seq<string> {
    if cols == [] then [] else TypeRoleNames(cols[0]) + RoleTypeNames(cols[1..])
  }

  lemma {:induction false} RoleTypeNamesSnoc(cols: seq<ValueColumn>, c: ValueColumn)
    ensures RoleTypeNames(cols + [c]) == RoleTypeNames(cols) + TypeRoleNames(c)
    decreases |cols|
  {
    if cols == [] {
      assert [] + [c] == [c];
      assert [c][1..] == [];
    } else {
      assert (cols + [c])[0] == cols[0];
      assert (cols + [c])[1..] == cols[1..] + [c];
      RoleTypeNamesSnoc(cols[1..], c);
    }
  }

  /** Every name the column pass registers was already registered by the
      formatting update: type columns are bound to the type role. */
  lemma {:induction false} TypeNamesAreRoleNames(cols: seq<ValueColumn>)
    ensures forall x :: x in TypeNames(cols) ==> x in RoleTypeNames(cols)
    decreases |cols|
  {
    if cols != [] {
      TypeNamesAreRoleNames(cols[1..]);
    }
  }

  predicate HasTypeColumn(cols: seq<ValueColumn>) {
    exists k :: 0 <= k < |cols| && cols[k].TypeColumn?
  }

  /** Some measure column is longer than the category column. */
  predicate MeasureOverflow(cols: seq<ValueColumn>, n: nat) {
    exists k :: 0 <= k < |cols| && cols[k].MeasureColumn? && |cols[k].cells| > n
  }

  /** `orderValues[index] || 0`: a missing value (no order column, or a column
      too short), NaN and 0 all give 0. */
  function OrderKey(order: Option<seq<OrderNumber>>, i: nat): (k: real)
    ensures order.Some? && i < |order.value| && order.value[i].Finite? ==> k == order.value[i].x
    ensures order.None? || i >= |order.value| || order.value[i] == NotANumber ==> k == 0.0
  {
    match order
    case None => 0.0
    case Some(keys) => if i < |keys| && keys[i].Finite? then keys[i].x else 0.0
  }

  /** The palette entry of `name`'s slot: its position in the name list,
      modulo the palette length (lines 719 and 735). */
  function ColorOf(palette: seq<string>, names: seq<string>, name: string): string
    requires |palette| > 0
  {
    palette[IndexOf(names, name) % |palette|]
  }

  /** The type colour stored in `colorsType` for a slot holding `t`. */
  function TypeColorOf(palette: seq<string>, names: seq<string>, t: Option<string>): Option<string>
    requires |palette| > 0
  {
    match t
    case None => None
    case Some(name) => Some(ColorOf(palette, names, name))
  }

  /** `combinedData` (lines 517-525), built from the finished column pass and the
      visual's name lists and palettes. */
  function Combine(categories: seq<string>, st: Scan, typeNames: seq<string>, categoryNames: seq<string>,
                   palette: seq<string>, paletteInner: seq<string>): (segs: seq<Segment>)
    requires WellSized(st, |categories|) && |palette| > 0 && |paletteInner| > 0
    ensures |segs| == |categories|
    ensures forall i :: 0 <= i < |segs| ==>
      segs[i].category == categories[i] && segs[i].value == st.first[i] && segs[i].secondValue == st.second[i]
      && segs[i].typeName == st.types[i] && segs[i].order == OrderKey(st.order, i)
      && segs[i].colorType == TypeColorOf(palette, typeNames, st.types[i])
      && segs[i].color == (if st.typed then Some(HexToRgba(ColorOf(paletteInner, categoryNames, categories[i]), HalfAlpha))
                           else None)
  {
    seq(|categories|, i requires 0 <= i < |categories| =>
      Segment(
        categories[i],
        st.first[i],
        st.second[i],
        if st.typed then Some(HexToRgba(ColorOf(paletteInner, categoryNames, categories[i]), HalfAlpha)) else None,
        TypeColorOf(palette, typeNames, st.types[i]),
        st.types[i],
        OrderKey(st.order, i)))
  }

  function OrderOf(s: Segment): real { s.order }

  /** The sorted segments split back into the parallel arrays (lines 531-536). */
  function Columns(segs: seq<Segment>): (d: ChartData)
    ensures |d.labels| == |d.values| == |d.colors| == |d.colorsType| == |d.types| == |d.secondValues| == |segs|
    ensures forall i :: 0 <= i < |segs| ==>
      d.labels[i] == segs[i].category && d.values[i] == segs[i].value && d.colors[i] == segs[i].color
      && d.colorsType[i] == segs[i].colorType && d.types[i] == segs[i].typeName && d.secondValues[i] == segs[i].secondValue
  {
    ChartData(
      seq(|segs|, i requires 0 <= i < |segs| => segs[i].category),
      seq(|segs|, i requires 0 <= i < |segs| => segs[i].value),
      seq(|segs|, i requires 0 <= i < |segs| => segs[i].color),
      seq(|segs|, i requires 0 <= i < |segs| => segs[i].colorType),
      seq(|segs|, i requires 0 <= i < |segs| => segs[i].typeName),
      seq(|segs|, i requires 0 <= i < |segs| => segs[i].secondValue))
  }

  // ---------------------------------------------------------------- meaning of the column pass

  /** The cells the measure columns hold at row i, in column order (columns too
      short for row i contribute nothing). */
  function CellsAt(cols: seq<ValueColumn>, i: nat): seq<Measure> {
    if cols == [] then []
    else (if cols[0].MeasureColumn? && i < |cols[0].cells| then [cols[0].cells[i]] else []) + CellsAt(cols[1..], i)
  }

  /** The first cell that is not null, or null. */
  function FirstNonBlank(cells: seq<Measure>): Measure {
    if cells == [] then Blank
    else if cells[0] != Blank then cells[0]
    else FirstNonBlank(cells[1..])
  }

  /** The cells after the first one that is not null. */
  function AfterFirstValue(cells: seq<Measure>): seq<Measure> {
    if cells == [] then []
    else if cells[0] != Blank then cells[1..]
    else AfterFirstValue(cells[1..])
  }

  /** The last element, or `d` for the empty sequence. */
  function LastOr<T>(s: seq<T>, d: T): T {
    if s == [] then d else s[|s| - 1]
  }

  lemma ScanMeasuresAt(st: Scan, cols: seq<ValueColumn>, i: nat)
    requires |st.first| <= |st.second| && i < |st.first|
    ensures ScanColumns(st, cols).first[i] ==
      if st.first[i] != Blank then st.first[i] else FirstNonBlank(CellsAt(cols, i))
    ensures ScanColumns(st, cols).second[i] ==
      if st.first[i] != Blank then LastOr(CellsAt(cols, i), st.second[i])
      else LastOr(AfterFirstValue(CellsAt(cols, i)), st.second[i])
    decreases |cols|
  {
    if cols != [] {
      var next := ScanColumn(st, cols[0]);
      ScanMeasuresAt(next, cols[1..], i);
      var rest := CellsAt(cols[1..], i);
      if cols[0].MeasureColumn? && i < |cols[0].cells| {
        var c := cols[0].cells[i];
        assert CellsAt(cols, i) == [c] + rest;
        assert ([c] + rest)[1..] == rest;
        assert LastOr([c] + rest, st.second[i]) == LastOr(rest, c);
      } else {
        assert CellsAt(cols, i) == rest;
      }
    }
  }

  /** Measure assignment: at every category index, `value` is the first non-null
      cell of the measure columns, and `secondValue` is the cell of the last
      measure column after that one (null when there is none). */
  lemma MeasureAssignment(cols: seq<ValueColumn>, n: nat, i: nat)
    requires i < n
    ensures ScanColumns(InitialScan(n), cols).first[i] == FirstNonBlank(CellsAt(cols, i))
    ensures ScanColumns(InitialScan(n), cols).second[i] == LastOr(AfterFirstValue(CellsAt(cols, i)), Blank)
  {
    ScanMeasuresAt(InitialScan(n), cols, i);
  }

  /** The longest measure column (0 when there is none). */
  function MeasureWidth(cols: seq<ValueColumn>): nat {
    if cols == [] then 0
    else Max(if cols[0].MeasureColumn? then |cols[0].cells| else 0, MeasureWidth(cols[1..]))
  }

  lemma {:induction false} ScanSecondLength(st: Scan, cols: seq<ValueColumn>)
    requires |st.first| <= |st.second|
    ensures |ScanColumns(st, cols).second| == Max(|st.second|, MeasureWidth(cols))
    decreases |cols|
  {
    if cols != [] {
      ScanSecondLength(ScanColumn(st, cols[0]), cols[1..]);
    }
  }

  lemma {:induction false} MeasureWidthOverflow(cols: seq<ValueColumn>, n: nat)
    ensures MeasureWidth(cols) > n <==> MeasureOverflow(cols, n)
    decreases |cols|
  {
    if cols != [] {
      MeasureWidthOverflow(cols[1..], n);
      if MeasureOverflow(cols[1..], n) {
        var k :| 0 <= k < |cols[1..]| && cols[1..][k].MeasureColumn? && |cols[1..][k].cells| > n;
        assert cols[k + 1] == cols[1..][k];
      }
      if MeasureOverflow(cols, n) {
        var k :| 0 <= k < |cols| && cols[k].MeasureColumn? && |cols[k].cells| > n;
        if k > 0 {
          assert cols[1..][k - 1] == cols[k];
        }
      }
    }
  }

  /** The length guard of lines 511-514: the first-measure array always keeps the
      category count, and the second-measure array differs from it exactly when
      some measure column is longer than the category column. With columns of
      the category length, as the host delivers them, the guard never fires. */
  lemma LengthGuard(cols: seq<ValueColumn>, n: nat)
    ensures |ScanColumns(InitialScan(n), cols).first| == n
    ensures |ScanColumns(InitialScan(n), cols).second| != n <==> MeasureOverflow(cols, n)
  {
    ScanSecondLength(InitialScan(n), cols);
    MeasureWidthOverflow(cols, n);
  }

  /** The name the last type column long enough for row i holds there. */
  function LastTypeAt(cols: seq<ValueColumn>, i: nat): Option<string> {
    if cols == [] then None
    else
      var later := LastTypeAt(cols[1..], i);
      if later.Some? then later
      else if cols[0].TypeColumn? && i < |cols[0].names| then Some(cols[0].names[i])
      else None
  }

  /** The order column the pass keeps: the last one (each assignment at line 496
      replaces the previous array). */
  function LastOrderColumn(cols: seq<ValueColumn>): Option<seq<OrderNumber>> {
    if cols == [] then None
    else
      var later := LastOrderColumn(cols[1..]);
      if later.Some? then later
      else if cols[0].OrderColumn? then Some(cols[0].keys)
      else None
  }

  lemma ScanTypesAndOrder(st: Scan, cols: seq<ValueColumn>, i: nat)
    requires |st.first| <= |st.second| && i < |st.types|
    ensures ScanColumns(st, cols).types[i] == (if LastTypeAt(cols, i).Some? then LastTypeAt(cols, i) else st.types[i])
    ensures ScanColumns(st, cols).order == (if LastOrderColumn(cols).Some? then LastOrderColumn(cols) else st.order)
    decreases |cols|
  {
    if cols != [] {
      ScanTypesAndOrder(ScanColumn(st, cols[0]), cols[1..], i);
    }
  }

  lemma {:induction false} ScanTyped(st: Scan, cols: seq<ValueColumn>)
    requires |st.first| <= |st.second|
    ensures ScanColumns(st, cols).typed == (st.typed || HasTypeColumn(cols))
    decreases |cols|
  {
    if cols != [] {
      ScanTyped(ScanColumn(st, cols[0]), cols[1..]);
      assert HasTypeColumn(cols) <==> cols[0].TypeColumn? || HasTypeColumn(cols[1..]) by {
        if HasTypeColumn(cols[1..]) {
          var k :| 0 <= k < |cols[1..]| && cols[1..][k].TypeColumn?;
          assert cols[k + 1].TypeColumn?;
        }
        if HasTypeColumn(cols) && !cols[0].TypeColumn? {
          var k :| 0 <= k < |cols| && cols[k].TypeColumn?;
          assert cols[1..][k - 1].TypeColumn?;
        }
      }
    }
  }

  /** What the column pass leaves at a category index: the type of the last type
      column reaching it (null without one), the order value of the last order
      column, and category colours exactly when some type column exists. */
  lemma TypesAndOrder(cols: seq<ValueColumn>, n: nat, i: nat)
    requires i < n
    ensures ScanColumns(InitialScan(n), cols).types[i] == LastTypeAt(cols, i)
    ensures ScanColumns(InitialScan(n), cols).order == LastOrderColumn(cols)
    ensures ScanColumns(InitialScan(n), cols).typed == HasTypeColumn(cols)
  {
    ScanTypesAndOrder(InitialScan(n), cols, i);
    ScanTyped(InitialScan(n), cols);
  }
}
