/** The state of the visual (src/polarAreaChart.ts, class `PolarAreaChart`) that
    its bookkeeping changes: the two append-only name registers, the two colour
    palettes that the formatting pane overrides slot by slot, and the font of
    the outer rings; and the operations that change it: the colour lookups, the
    formatting update and the row transform. */
module Visual {
  import opened Wrappers
  import opened Seqs
  import opened StableSort
  import opened ColorCodec
  import opened Rows

  /** Number of type colour slots (`bgColorType1` .. `bgColorType10`). */
  const TypeSlots: nat := 10
  /** Number of category colour slots (`bgColorCategory1` .. `bgColorCategory30`). */
  const CategorySlots: nat := 30
  const DefaultTypeColor := "#fff"
  const DefaultCategoryColor := "#d3d3d3"
  const InitialFont := "arial"
  const FallbackFont := "Arial"

  /** Slot k stands for the property `bgColorType{k+1}`. */
  type TypeSlot = k: nat | k < 10
  /** Slot k stands for the property `bgColorCategory{k+1}`. */
  type CategorySlot = k: nat | k < 30

  /** A formatting property value: a string, or anything else. */
  datatype PropValue = StringValue(s: string) | OtherValue

  /** The `outerCircles` object of the formatting pane: the colour properties
      present in it (the `solid.color` member of each) and the font, if present. */
  datatype OuterCircles = OuterCircles(
    typeColors: map<TypeSlot, PropValue>,
    categoryColors: map<CategorySlot, PropValue>,
    fontFamily: Option<PropValue>)

  /** What the transform reads from the data view: the category cells after
      `String(value)`, the value columns in order, and the formatting object. */
  datatype DataView = DataView(
    categories: seq<string>,
    values: seq<ValueColumn>,
    outerCircles: Option<OuterCircles>)

  /** The local arrays of `transformData` (lines 479-484). */
  datatype Locals = Locals(
    colors: seq<Option<string>>,
    colorsType: seq<Option<string>>,
    orderValues: Option<seq<OrderNumber>>,
    types: seq<Option<string>>,
    firstMeasures: seq<Measure>,
    secondMeasures: seq<Measure>)

  /** The column-pass state the local arrays stand for. */
  function ScanOf(l: Locals, typed: bool): Scan {
    Scan(l.firstMeasures, l.secondMeasures, l.orderValues, l.types, typed)
  }

  /** A colour property: its string, or the default when it is not a string. */
  function OverrideColor(v: PropValue, fallback: string): string {
    match v
    case StringValue(s) => s
    case OtherValue => fallback
  }

  /** The type palette after the override loop of lines 575-586, which visits the
      slots of the first `count` registered types. */
  function TypePalette(p: seq<string>, m: map<TypeSlot, PropValue>, count: nat): (r: seq<string>)
    requires |p| == TypeSlots
    ensures |r| == TypeSlots
  {
    seq(TypeSlots, i requires 0 <= i < TypeSlots =>
      if i < count && i as TypeSlot in m then OverrideColor(m[i as TypeSlot], DefaultTypeColor) else p[i])
  }

  /** The category palette after the override loop of lines 589-600, which visits
      the slots of the first `count` category rows. */
  function CategoryPalette(p: seq<string>, m: map<CategorySlot, PropValue>, count: nat): (r: seq<string>)
    requires |p| == CategorySlots
    ensures |r| == CategorySlots
  {
    seq(CategorySlots, i requires 0 <= i < CategorySlots =>
      if i < count && i as CategorySlot in m then OverrideColor(m[i as CategorySlot], DefaultCategoryColor) else p[i])
  }

  /** The font after lines 603-610. */
  function FontAfter(font: string, f: Option<PropValue>): string {
    match f
    case None => font
    case Some(v) => OverrideColor(v, FallbackFont)
  }

  /** The types the formatting update registers: those of every column bound to
      the type role, but only when the `outerCircles` object is present. */
  function FormattedTypes(names: seq<string>, dv: DataView): seq<string> {
    if dv.outerCircles.Some? then AppendNew(names, RoleTypeNames(dv.values)) else names
  }

  /** Every type slot holds the type colour of its current type. */
  ghost predicate TypeColorsAgree(colorsType: seq<Option<string>>, types: seq<Option<string>>,
                                  palette: seq<string>, names: seq<string>) {
    |palette| > 0 && |colorsType| == |types| &&
    forall i :: 0 <= i < |types| ==>
      (types[i].Some? ==> types[i].value in names) && colorsType[i] == TypeColorOf(palette, names, types[i])
  }

  /** Every category slot holds the half-transparent colour of its category once
      a type column has been seen, and null before. */
  ghost predicate CategoryColorsAgree(colors: seq<Option<string>>, categories: seq<string>, typed: bool,
                                      paletteInner: seq<string>, names: seq<string>) {
    |paletteInner| > 0 && |colors| == |categories| &&
    forall i :: 0 <= i < |categories| ==>
      if typed then categories[i] in names && colors[i] == Some(HexToRgba(ColorOf(paletteInner, names, categories[i]), HalfAlpha))
      else colors[i] == None
  }

  /** A name already registered keeps its colour whatever is registered after it. */
  lemma ColorIsStable(palette: seq<string>, names: seq<string>, xs: seq<string>, name: string)
    requires |palette| > 0 && name in names
    ensures name in AppendNew(names, xs)
    ensures ColorOf(palette, AppendNew(names, xs), name) == ColorOf(palette, names, name)
  {
    AppendNewKeeps(names, xs, name);
    SlotIsStable(names, xs, name);
  }

  lemma TypeColorsAgreeGrow(colorsType: seq<Option<string>>, types: seq<Option<string>>,
                            palette: seq<string>, names: seq<string>, xs: seq<string>)
    requires TypeColorsAgree(colorsType, types, palette, names)
    ensures TypeColorsAgree(colorsType, types, palette, AppendNew(names, xs))
  {
    forall i | 0 <= i < |types| && types[i].Some?
      ensures colorsType[i] == TypeColorOf(palette, AppendNew(names, xs), types[i])
    {
      ColorIsStable(palette, names, xs, types[i].value);
    }
  }

  /** Writing a looked-up type and its colour into slot j keeps the slots in agreement. */
  lemma TypeSlotWrite(colorsType: seq<Option<string>>, types: seq<Option<string>>,
                      palette: seq<string>, names: seq<string>, j: nat, name: string)
    requires TypeColorsAgree(colorsType, types, palette, names) && name in names && j <= |types|
    ensures var c := Some(ColorOf(palette, names, name));
      if j < |types| then TypeColorsAgree(colorsType[j := c], types[j := Some(name)], palette, names)
      else TypeColorsAgree(colorsType + [c], types + [Some(name)], palette, names)
  {
  }

  /** One step of the type loop: slot j gets type `name` and its colour looked
      up after registration. */
  lemma TypePassStep(types: seq<Option<string>>, colorsType: seq<Option<string>>, palette: seq<string>,
                     before: seq<string>, after: seq<string>, j: nat, name: string, c: string,
                     types1: seq<Option<string>>, colorsType1: seq<Option<string>>)
    requires TypeColorsAgree(colorsType, types, palette, before) && j <= |types|
    requires after == AppendNew(before, [name]) && name in after && c == ColorOf(palette, after, name)
    requires types1 == if j < |types| then types[j := Some(name)] else types + [Some(name)]
    requires colorsType1 == if j < |types| then colorsType[j := Some(c)] else colorsType + [Some(c)]
    ensures TypeColorsAgree(colorsType1, types1, palette, after)
  {
    TypeColorsAgreeGrow(colorsType, types, palette, before, [name]);
    TypeSlotWrite(colorsType, types, palette, after, j, name);
  }

  /** Appending a looked-up category and its colour keeps the slots in agreement. */
  lemma CategorySlotAppend(colors: seq<Option<string>>, categories: seq<string>, paletteInner: seq<string>,
                           names: seq<string>, more: seq<string>, after: seq<string>, category: string, c: string)
    requires CategoryColorsAgree(colors, categories, true, paletteInner, names)
    requires after == AppendNew(names, more) && category in after && c == ColorOf(paletteInner, after, category)
    ensures CategoryColorsAgree(colors + [Some(HexToRgba(c, HalfAlpha))], categories + [category], true, paletteInner, after)
  {
    forall i | 0 <= i < |categories|
      ensures ColorOf(paletteInner, after, categories[i]) == ColorOf(paletteInner, names, categories[i])
      ensures categories[i] in after
    {
      ColorIsStable(paletteInner, names, more, categories[i]);
    }
  }

  /** One step of a registration loop: looking up name j extends the register
      by that name. */
  lemma RegisterStep(start: seq<string>, names: seq<string>, j: nat, before: seq<string>, after: seq<string>)
    requires j < |names|
    requires before == AppendNew(start, names[..j]) && after == AppendNew(before, [names[j]])
    ensures after == AppendNew(start, names[..j + 1])
  {
    AppendNewConcat(start, names[..j], [names[j]]);
    assert names[..j + 1] == names[..j] + [names[j]];
  }

  /** One step of the category loop: slot j gets the colour of category j. */
  lemma CategoryStep(start: seq<string>, categories: seq<string>, j: nat, before: seq<string>, after: seq<string>,
                     colors: seq<Option<string>>, paletteInner: seq<string>, c: string)
    requires j < |categories|
    requires after == AppendNew(before, [categories[j]])
    requires CategoryColorsAgree(colors, categories[..j], true, paletteInner, before)
    requires categories[j] in after && c == ColorOf(paletteInner, after, categories[j])
    ensures CategoryColorsAgree(colors + [Some(HexToRgba(c, HalfAlpha))], categories[..j + 1], true, paletteInner, after)
  {
    assert categories[..j + 1] == categories[..j] + [categories[j]];
    CategorySlotAppend(colors, categories[..j], paletteInner, before, [categories[j]], after, categories[j], c);
  }

  /** The lookup of a repeated name: registering it again changes nothing, so a
      second call returns the colour of the first. */
  lemma RepeatedLookup(palette: seq<string>, names: seq<string>, name: string)
    requires |palette| > 0
    ensures AppendNew(AppendNew(names, [name]), [name]) == AppendNew(names, [name])
    ensures |AppendNew(names, [name])| <= |names| + 1
    ensures name in names ==> AppendNew(names, [name]) == names
  {
    AppendNewIdempotent(names, [name]);
  }

  /** A formatting override reaches the type registered in its slot: the type
      registered k-th (from 0) is drawn in the colour of `bgColorType{k+1}`
      when the pane sets it, and in the old palette colour otherwise. */
  lemma TypeOverrideReachesType(p: seq<string>, m: map<TypeSlot, PropValue>, names: seq<string>, name: string)
    requires |p| == TypeSlots && name in names
    ensures var k := IndexOf(names, name) % TypeSlots;
      ColorOf(TypePalette(p, m, |names|), names, name) ==
        if k < |names| && k as TypeSlot in m then OverrideColor(m[k as TypeSlot], DefaultTypeColor) else p[k]
  {
  }

  /** The category counterpart: the category registered k-th is drawn from
      `bgColorCategory{k+1}` when the pane sets it for one of the first `rows`
      rows. */
  lemma CategoryOverrideReachesCategory(p: seq<string>, m: map<CategorySlot, PropValue>, rows: nat,
                                        names: seq<string>, name: string)
    requires |p| == CategorySlots && name in names
    ensures var k := IndexOf(names, name) % CategorySlots;
      ColorOf(CategoryPalette(p, m, rows), names, name) ==
        if k < rows && k as CategorySlot in m then OverrideColor(m[k as CategorySlot], DefaultCategoryColor) else p[k]
  {
  }

  /** Registering the type names of one more column. */
  lemma RegisterColumnStep(start: seq<string>, cols: seq<ValueColumn>, k: nat)
    requires k < |cols|
    ensures AppendNew(start, RoleTypeNames(cols[..k + 1])) ==
      AppendNew(AppendNew(start, RoleTypeNames(cols[..k])), TypeRoleNames(cols[k]))
  {
    RoleTypeNamesSnoc(cols[..k], cols[k]);
    assert cols[..k + 1] == cols[..k] + [cols[k]];
    AppendNewConcat(start, RoleTypeNames(cols[..k]), TypeRoleNames(cols[k]));
  }

  class PolarAreaChart {
    /** Type names in the order they were first looked up. */
    var uniqueTypes: seq<string>
    /** Category names in the order they were first looked up. */
    var uniqueCategories: seq<string>
    var colorPalette: array<string>
    var colorPaletteInner: array<string>
    var fontOuterCircle: string

    ghost predicate Valid()
      reads this, colorPalette, colorPaletteInner
    {
      colorPalette.Length == TypeSlots && colorPaletteInner.Length == CategorySlots &&
      colorPalette != colorPaletteInner &&
      NoDuplicates(uniqueTypes) && NoDuplicates(uniqueCategories)
    }

    /** The field initialisers: empty registers, every type slot '#fff', every
        category slot '#d3d3d3', font 'arial'. */
    constructor()
      ensures Valid()
      ensures uniqueTypes == [] && uniqueCategories == []
      ensures colorPalette[..] == seq(TypeSlots, _ => DefaultTypeColor)
      ensures colorPaletteInner[..] == seq(CategorySlots, _ => DefaultCategoryColor)
      ensures fontOuterCircle == InitialFont
      ensures fresh(colorPalette) && fresh(colorPaletteInner)
    {
      uniqueTypes := [];
      uniqueCategories := [];
      colorPalette := new string[TypeSlots](_ => DefaultTypeColor);
      colorPaletteInner := new string[CategorySlots](_ => DefaultCategoryColor);
      fontOuterCircle := InitialFont;
    }

    /** `getColorForType`: registers the type if it is new and returns the type
        palette entry of its slot. */
    method GetColorForType(t: string) returns (c: string)
      requires Valid()
      modifies this`uniqueTypes
      ensures Valid()
      ensures uniqueTypes == AppendNew(old(uniqueTypes), [t])
      ensures t in uniqueTypes
      ensures c == ColorOf(colorPalette[..], uniqueTypes, t)
    {
      var index := IndexOf(uniqueTypes, t);
      if index == -1 {
        uniqueTypes := uniqueTypes + [t];
        index := |uniqueTypes| - 1;
        assert IndexOf(uniqueTypes, t) == index;
      }
      c := colorPalette[index % colorPalette.Length];
    }

    /** `getColorForCategory`: registers the category if it is new and returns the
        category palette entry of its slot. */
    method GetColorForCategory(category: string) returns (c: string)
      requires Valid()
      modifies this`uniqueCategories
      ensures Valid()
      ensures uniqueCategories == AppendNew(old(uniqueCategories), [category])
      ensures category in uniqueCategories
      ensures c == ColorOf(colorPaletteInner[..], uniqueCategories, category)
    {
      var index := IndexOf(uniqueCategories, category);
      if index == -1 {
        uniqueCategories := uniqueCategories + [category];
        index := |uniqueCategories| - 1;
        assert IndexOf(uniqueCategories, category) == index;
      }
      c := colorPaletteInner[index % colorPaletteInner.Length];
    }

    /** The body of a type column (lines 498-502, and 569-573 on scratch arrays):
        each cell becomes the slot's type and its type colour is looked up. */
    method TypePass(names: seq<string>, types0: seq<Option<string>>, colorsType0: seq<Option<string>>)
      returns (types: seq<Option<string>>, colorsType: seq<Option<string>>)
      requires Valid() && TypeColorsAgree(colorsType0, types0, colorPalette[..], uniqueTypes)
      modifies this`uniqueTypes
      ensures Valid()
      ensures uniqueTypes == AppendNew(old(uniqueTypes), names)
      ensures types == TypeStep(types0, names)
      ensures TypeColorsAgree(colorsType, types, colorPalette[..], uniqueTypes)
    {
      ghost var start := uniqueTypes;
      types, colorsType := types0, colorsType0;
      var j := 0;
      while j < |names|
        invariant 0 <= j <= |names|
        invariant Valid()
        invariant uniqueTypes == AppendNew(start, names[..j])
        invariant types == TypeStep(types0, names[..j])
        invariant TypeColorsAgree(colorsType, types, colorPalette[..], uniqueTypes)
      {
        types, colorsType := TypeCell(names, j, types0, types, colorsType, start);
        j := j + 1;
      }
      assert names[..j] == names;
    }

    /** One cell of a type column (lines 499-501): slot j gets the type of
        cell j and that type's colour. */
    method TypeCell(names: seq<string>, j: nat, types0: seq<Option<string>>, types: seq<Option<string>>,
                    colorsType: seq<Option<string>>, ghost start: seq<string>)
      returns (types1: seq<Option<string>>, colorsType1: seq<Option<string>>)
      requires Valid() && j < |names|
      requires uniqueTypes == AppendNew(start, names[..j]) && types == TypeStep(types0, names[..j])
      requires TypeColorsAgree(colorsType, types, colorPalette[..], uniqueTypes)
      modifies this`uniqueTypes
      ensures Valid()
      ensures uniqueTypes == AppendNew(start, names[..j + 1]) && types1 == TypeStep(types0, names[..j + 1])
      ensures TypeColorsAgree(colorsType1, types1, colorPalette[..], uniqueTypes)
    {
      ghost var before := uniqueTypes;
      var c := GetColorForType(names[j]);
      RegisterStep(start, names, j, before, uniqueTypes);
      TypeStepSnoc(types0, names, j);
      if j < |types| {
        types1 := types[j := Some(names[j])];
        colorsType1 := colorsType[j := Some(c)];
      } else {
        types1 := types + [Some(names[j])];
        colorsType1 := colorsType + [Some(c)];
      }
      TypePassStep(types, colorsType, colorPalette[..], before, uniqueTypes, j, names[j], c, types1, colorsType1);
    }

    /** The category loop inside a type column (lines 503-507): every category
        is looked up and its colour made half transparent. */
    method CategoryPass(categories: seq<string>) returns (colors: seq<Option<string>>)
      requires Valid()
      modifies this`uniqueCategories
      ensures Valid()
      ensures uniqueCategories == AppendNew(old(uniqueCategories), categories)
      ensures CategoryColorsAgree(colors, categories, true, colorPaletteInner[..], uniqueCategories)
    {
      ghost var start := uniqueCategories;
      colors := [];
      var j := 0;
      while j < |categories|
        invariant 0 <= j <= |categories|
        invariant Valid()
        invariant uniqueCategories == AppendNew(start, categories[..j])
        invariant CategoryColorsAgree(colors, categories[..j], true, colorPaletteInner[..], uniqueCategories)
      {
        ghost var before := uniqueCategories;
        var c := GetColorForCategory(categories[j]);
        RegisterStep(start, categories, j, before, uniqueCategories);
        CategoryStep(start, categories, j, before, uniqueCategories, colors, colorPaletteInner[..], c);
        colors := colors + [Some(HexToRgba(c, HalfAlpha))];
        j := j + 1;
      }
      assert categories[..j] == categories;
    }

    /** The registration loop of lines 564-572: every type of every column bound
        to the type role is looked up, into scratch arrays that are never read. */
    method RegisterTypes(cols: seq<ValueColumn>, n: nat)
      requires Valid()
      modifies this`uniqueTypes
      ensures Valid()
      ensures uniqueTypes == AppendNew(old(uniqueTypes), RoleTypeNames(cols))
    {
      ghost var start := uniqueTypes;
      var typesTemp: seq<Option<string>> := seq(n, _ => None);
      var colorsTypeTemp: seq<Option<string>> := seq(n, _ => None);
      var k := 0;
      while k < |cols|
        invariant 0 <= k <= |cols|
        invariant Valid()
        invariant uniqueTypes == AppendNew(start, RoleTypeNames(cols[..k]))
        invariant TypeColorsAgree(colorsTypeTemp, typesTemp, colorPalette[..], uniqueTypes)
      {
        RegisterColumnStep(start, cols, k);
        if HasTypeRole(cols[k]) {
          typesTemp, colorsTypeTemp := TypePass(TypeRoleNames(cols[k]), typesTemp, colorsTypeTemp);
        } else {
          assert AppendNew(uniqueTypes, TypeRoleNames(cols[k])) == uniqueTypes;
        }
        k := k + 1;
      }
      assert cols[..k] == cols;
    }

    /** The type override loop of lines 577-587: for the slot of each registered
        type, a colour property present in the pane replaces the palette entry. */
    method OverrideTypeSlots(m: map<TypeSlot, PropValue>)
      requires Valid()
      modifies colorPalette
      ensures Valid()
      ensures colorPalette[..] == TypePalette(old(colorPalette[..]), m, |uniqueTypes|)
    {
      ghost var p0 := colorPalette[..];
      var index := 0;
      while index < |uniqueTypes|
        invariant 0 <= index <= |uniqueTypes|
        invariant Valid()
        invariant colorPalette[..] == TypePalette(p0, m, index)
      {
        if index < TypeSlots && index as TypeSlot in m {
          colorPalette[index] := OverrideColor(m[index as TypeSlot], DefaultTypeColor);
        }
        index := index + 1;
      }
    }

    /** The category override loop of lines 590-600: for the slot of each
        category row, a colour property present in the pane replaces the palette
        entry. */
    method OverrideCategorySlots(m: map<CategorySlot, PropValue>, rows: nat)
      requires Valid()
      modifies colorPaletteInner
      ensures Valid()
      ensures colorPaletteInner[..] == CategoryPalette(old(colorPaletteInner[..]), m, rows)
    {
      ghost var q0 := colorPaletteInner[..];
      var index := 0;
      while index < rows
        invariant 0 <= index <= rows
        invariant Valid()
        invariant colorPaletteInner[..] == CategoryPalette(q0, m, index)
      {
        if index < CategorySlots && index as CategorySlot in m {
          colorPaletteInner[index] := OverrideColor(m[index as CategorySlot], DefaultCategoryColor);
        }
        index := index + 1;
      }
    }

    /** `updateFormattingProperties` (lines 557-612): when the `outerCircles`
        object is present, registers the types, overrides the type slots of the
        registered types and the category slots of the category rows, and sets
        the font; without it nothing changes. */
    method UpdateFormattingProperties(dv: DataView)
      requires Valid()
      modifies this`uniqueTypes, this`fontOuterCircle, colorPalette, colorPaletteInner
      ensures Valid()
      ensures uniqueTypes == FormattedTypes(old(uniqueTypes), dv)
      ensures dv.outerCircles.None? ==>
        colorPalette[..] == old(colorPalette[..]) && colorPaletteInner[..] == old(colorPaletteInner[..]) &&
        fontOuterCircle == old(fontOuterCircle)
      ensures dv.outerCircles.Some? ==>
        colorPalette[..] == TypePalette(old(colorPalette[..]), dv.outerCircles.value.typeColors, |uniqueTypes|) &&
        colorPaletteInner[..] == CategoryPalette(old(colorPaletteInner[..]), dv.outerCircles.value.categoryColors, |dv.categories|) &&
        fontOuterCircle == FontAfter(old(fontOuterCircle), dv.outerCircles.value.fontFamily)
    {
      if dv.outerCircles.Some? {
        var oc := dv.outerCircles.value;
        RegisterTypes(dv.values, |dv.categories|);
        OverrideTypeSlots(oc.typeColors);
        OverrideCategorySlots(oc.categoryColors, |dv.categories|);
        if oc.fontFamily.Some? {
          fontOuterCircle := OverrideColor(oc.fontFamily.value, FallbackFont);
        }
      }
    }

    /** The body of a measure column (lines 488-494), on the two measure arrays. */
    static method MeasurePass(first0: seq<Measure>, second0: seq<Measure>, cells: seq<Measure>)
      returns (first: seq<Measure>, second: seq<Measure>)
      requires |first0| <= |second0|
      ensures (first, second) == MeasureStep(first0, second0, cells)
    {
      first, second := first0, second0;
      var j := 0;
      while j < |cells|
        invariant 0 <= j <= |cells|
        invariant |first| == |first0| && |second| == Max(|second0|, j)
        invariant forall i :: 0 <= i < |first| ==>
          first[i] == if i < j && first0[i] == Blank then cells[i] else first0[i]
        invariant forall i :: 0 <= i < |second| ==>
          second[i] == if i < j && !(i < |first0| && first0[i] == Blank) then cells[i] else second0[i]
      {
        if j < |first| && first[j] == Blank {
          first := first[j := cells[j]];
        } else if j < |second| {
          second := second[j := cells[j]];
        } else {
          second := second + [cells[j]];
        }
        j := j + 1;
      }
      var m := MeasureStep(first0, second0, cells);
      assert first == m.0;
      assert second == m.1;
    }

    /** The body of the `forEach` over the value columns (lines 487-509): the
        first role the column carries decides what it updates. */
    method ProcessColumn(categories: seq<string>, col: ValueColumn, l: Locals,
                         ghost typed: bool, ghost categories0: seq<string>)
      returns (next: Locals)
      requires Valid() && |l.firstMeasures| <= |l.secondMeasures|
      requires TypeColorsAgree(l.colorsType, l.types, colorPalette[..], uniqueTypes)
      requires CategoryColorsAgree(l.colors, categories, typed, colorPaletteInner[..], uniqueCategories)
      requires uniqueCategories == if typed then AppendNew(categories0, categories) else categories0
      modifies this`uniqueTypes, this`uniqueCategories
      ensures Valid()
      ensures ScanOf(next, typed || col.TypeColumn?) == ScanColumn(ScanOf(l, typed), col)
      ensures uniqueTypes == AppendNew(old(uniqueTypes), if col.TypeColumn? then col.names else [])
      ensures uniqueCategories == if typed || col.TypeColumn? then AppendNew(categories0, categories) else categories0
      ensures TypeColorsAgree(next.colorsType, next.types, colorPalette[..], uniqueTypes)
      ensures CategoryColorsAgree(next.colors, categories, typed || col.TypeColumn?, colorPaletteInner[..], uniqueCategories)
    {
      next := l;
      match col {
        case MeasureColumn(cells, _) =>
          var first, second := MeasurePass(l.firstMeasures, l.secondMeasures, cells);
          next := l.(firstMeasures := first, secondMeasures := second);
        case OrderColumn(keys, _) =>
          next := l.(orderValues := Some(keys));
        case TypeColumn(names) =>
          var types, colorsType := TypePass(names, l.types, l.colorsType);
          if typed {
            AppendNewIdempotent(categories0, categories);
          }
          var colors := CategoryPass(categories);
          next := l.(types := types, colorsType := colorsType, colors := colors);
        case UnusedColumn =>
      }
    }

    /** The pre-sized arrays (lines 479-484) and the `forEach` over the value
        columns (lines 486-509). */
    method ScanValueColumns(categories: seq<string>, cols: seq<ValueColumn>) returns (l: Locals)
      requires Valid()
      modifies this`uniqueTypes, this`uniqueCategories
      ensures Valid()
      ensures ScanOf(l, HasTypeColumn(cols)) == ScanColumns(InitialScan(|categories|), cols)
      ensures uniqueTypes == AppendNew(old(uniqueTypes), TypeNames(cols))
      ensures uniqueCategories == if HasTypeColumn(cols) then AppendNew(old(uniqueCategories), categories)
                                  else old(uniqueCategories)
      ensures TypeColorsAgree(l.colorsType, l.types, colorPalette[..], uniqueTypes)
      ensures CategoryColorsAgree(l.colors, categories, HasTypeColumn(cols), colorPaletteInner[..], uniqueCategories)
    {
      ghost var types0 := uniqueTypes;
      ghost var categories0 := uniqueCategories;
      var n := |categories|;
      l := Locals(seq(n, _ => None), seq(n, _ => None), None, seq(n, _ => None), seq(n, _ => Blank), seq(n, _ => Blank));
      ghost var typed := false;
      var k := 0;
      while k < |cols|
        invariant 0 <= k <= |cols|
        invariant Valid()
        invariant ScanOf(l, typed) == ScanColumns(InitialScan(n), cols[..k])
        invariant uniqueTypes == AppendNew(types0, TypeNames(cols[..k]))
        invariant uniqueCategories == if typed then AppendNew(categories0, categories) else categories0
        invariant TypeColorsAgree(l.colorsType, l.types, colorPalette[..], uniqueTypes)
        invariant CategoryColorsAgree(l.colors, categories, typed, colorPaletteInner[..], uniqueCategories)
      {
        ScanColumnsSnoc(InitialScan(n), cols[..k], cols[k]);
        TypeNamesSnoc(cols[..k], cols[k]);
        AppendNewConcat(types0, TypeNames(cols[..k]), if cols[k].TypeColumn? then cols[k].names else []);
        assert cols[..k + 1] == cols[..k] + [cols[k]];
        l := ProcessColumn(categories, cols[k], l, typed, categories0);
        typed := typed || cols[k].TypeColumn?;
        k := k + 1;
      }
      assert cols[..k] == cols;
      ScanTyped(InitialScan(n), cols);
    }

    /** `transformData` (lines 472-546): applies the formatting update, runs the
        column pass, and returns None where the source returns early (exactly
        when a measure column is longer than the category column); otherwise the
        combined rows stably sorted by order, split into parallel arrays. The
        registers end up holding every type name, and every category name once
        a type column exists. */
    method TransformData(dv: DataView) returns (r: Option<ChartData>)
      requires Valid()
      modifies this`uniqueTypes, this`uniqueCategories, this`fontOuterCircle, colorPalette, colorPaletteInner
      ensures Valid()
      ensures uniqueTypes == AppendNew(FormattedTypes(old(uniqueTypes), dv), TypeNames(dv.values))
      ensures dv.outerCircles.Some? ==> uniqueTypes == AppendNew(old(uniqueTypes), RoleTypeNames(dv.values))
      ensures dv.outerCircles.None? ==> uniqueTypes == AppendNew(old(uniqueTypes), TypeNames(dv.values))
      ensures uniqueCategories == if HasTypeColumn(dv.values) then AppendNew(old(uniqueCategories), dv.categories)
                                  else old(uniqueCategories)
      ensures dv.outerCircles.None? ==>
        colorPalette[..] == old(colorPalette[..]) && colorPaletteInner[..] == old(colorPaletteInner[..]) &&
        fontOuterCircle == old(fontOuterCircle)
      ensures dv.outerCircles.Some? ==>
        colorPalette[..] == TypePalette(old(colorPalette[..]), dv.outerCircles.value.typeColors,
                                        |FormattedTypes(old(uniqueTypes), dv)|) &&
        colorPaletteInner[..] == CategoryPalette(old(colorPaletteInner[..]), dv.outerCircles.value.categoryColors, |dv.categories|) &&
        fontOuterCircle == FontAfter(old(fontOuterCircle), dv.outerCircles.value.fontFamily)
      ensures r.None? <==> MeasureOverflow(dv.values, |dv.categories|)
      ensures r.Some? ==>
        r.value == Columns(SortBy(Combine(dv.categories, ScanColumns(InitialScan(|dv.categories|), dv.values),
                                          uniqueTypes, uniqueCategories, colorPalette[..], colorPaletteInner[..]),
                                  OrderOf))
    {
      UpdateFormattingProperties(dv);
      if dv.outerCircles.Some? {
        TypeNamesAreRoleNames(dv.values);
        AppendNewMembers(old(uniqueTypes), RoleTypeNames(dv.values));
        AppendNewKnown(uniqueTypes, TypeNames(dv.values));
      }
      r := BuildRows(dv.categories, dv.values);
    }

    /** The part of `transformData` after the formatting update (lines 479-536):
        None when a measure column is longer than the category column, otherwise
        the combined rows stably sorted by order, split into parallel arrays. */
    method BuildRows(categories: seq<string>, cols: seq<ValueColumn>) returns (r: Option<ChartData>)
      requires Valid()
      modifies this`uniqueTypes, this`uniqueCategories
      ensures Valid()
      ensures uniqueTypes == AppendNew(old(uniqueTypes), TypeNames(cols))
      ensures uniqueCategories == if HasTypeColumn(cols) then AppendNew(old(uniqueCategories), categories)
                                  else old(uniqueCategories)
      ensures r.None? <==> MeasureOverflow(cols, |categories|)
      ensures r.Some? ==>
        r.value == Columns(SortBy(Combine(categories, ScanColumns(InitialScan(|categories|), cols),
                                          uniqueTypes, uniqueCategories, colorPalette[..], colorPaletteInner[..]),
                                  OrderOf))
    {
      var n := |categories|;
      var l := ScanValueColumns(categories, cols);
      LengthGuard(cols, n);
      if |l.firstMeasures| != n || |l.secondMeasures| != n {
        return None;
      }
      ghost var st := ScanColumns(InitialScan(n), cols);
      var combined := seq(n, i requires 0 <= i < n =>
        Segment(categories[i], l.firstMeasures[i], l.secondMeasures[i], l.colors[i], l.colorsType[i], l.types[i],
                OrderKey(l.orderValues, i)));
      assert combined == Combine(categories, st, uniqueTypes, uniqueCategories, colorPalette[..], colorPaletteInner[..]);
      r := Some(Columns(SortBy(combined, OrderOf)));
    }
  }
}
