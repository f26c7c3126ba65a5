/**
  Column types and the per-cell formatting of printTable: each fetched value
  is shown as it is, or wrapped, replaced or looked up according to the type
  set for its column with setColumnType.
 */
module CellFormat {
  import opened Php
  import opened Placeholders

  const TYPE_DATE: int := 1
  const TYPE_IMAGE: int := 2
  const TYPE_ONCLICK: int := 3
  const TYPE_ARRAY: int := 4
  const TYPE_DOLLAR: int := 5
  const TYPE_HREF: int := 6
  const TYPE_CHECK: int := 7
  const TYPE_PERCENT: int := 8
  const TYPE_CUSTOM: int := 9
  const TYPE_FUNCTION: int := 10

  /** The `Back` and `Fore` colours of a percentage bar. */
  datatype Colors = Colors(back: string, fore: string)

  /**
    A column type with its criteria, as setColumnType stores them:
    the date format and whether the value must be parsed first, the image
    source template, the click script, the lookup array, the link target,
    the extra "checked" value, whether a percentage is a fraction and its bar
    colours, the cell template, and the function name with its arguments.
    Any other type code is kept as Unrecognized.
   */
  datatype ColumnType =
    | Date(format: string, parse: bool)
    | Image(src: string)
    | OnClick(script: string)
    | ArrayMap(lookup: Assoc)
    | Dollar
    | Href(url: string)
    | Check(criteria: string)
    | Percent(fraction: bool, bar: Option<Colors>)
    | Custom(template: string)
    | Function(callee: string, args: Template)
    | Unrecognized(code: int)

  /** The TYPE_* code of a column type. */
  function Code(t: ColumnType): int
  {
    match t
    case Date(_, _) => TYPE_DATE
    case Image(_) => TYPE_IMAGE
    case OnClick(_) => TYPE_ONCLICK
    case ArrayMap(_) => TYPE_ARRAY
    case Dollar => TYPE_DOLLAR
    case Href(_) => TYPE_HREF
    case Check(_) => TYPE_CHECK
    case Percent(_, _) => TYPE_PERCENT
    case Custom(_) => TYPE_CUSTOM
    case Function(_, _) => TYPE_FUNCTION
    case Unrecognized(code) => code
  }

  /** An Unrecognized type carries a code that none of the named types uses. */
  predicate WellCoded(t: ColumnType)
  {
    t.Unrecognized? ==> !(1 <= t.code <= 10)
  }

  /**
    A formatted cell. Date, percentage, currency and function cells are kept
    as the inputs of the library call that renders them.
   */
  datatype Cell =
    | Plain(text: string)
    | ScriptLink(script: string, text: string)
    | Link(url: string, text: string)
    | DateText(format: string, value: string, parse: bool)
    | Img(src: string, id: string)
    | CheckGlyph
    | PercentText(value: string, fraction: bool, bar: Option<Colors>)
    | Dollars(value: string)
    | Called(callee: string, args: Template)

  /** The TYPE_CHECK test: one of the three truthy spellings, or the non-empty extra value. */
  predicate IsChecked(value: string, criteria: string)
  {
    value == "1" || value == "yes" || value == "true" || (criteria != "" && value == criteria)
  }

  /** The id of an image cell: the column name, `-`, and the row index. */
  function ImageId(key: string, i: nat): string
  {
    key + "-" + IntToString(i)
  }

  /** The text a cell shows to the reader, when it is a string the grid computes itself. */
  function ShownText(c: Cell): Option<string>
  {
    match c
    case Plain(text) => Some(text)
    case ScriptLink(_, text) => Some(text)
    case Link(_, text) => Some(text)
    case _ => None
  }

  /**
    Formatting of one value of column `key` in row number `i` (from 0).
    Untyped and unrecognised columns keep the value; click and link columns
    wrap a truthy value and leave a falsy one; a check column shows the glyph
    exactly when the value counts as checked and the value otherwise; an
    array column looks the value up; a custom column shows its template
    filled from the row.
   */
  function FormatCell(primary: string, row: Assoc, key: string, i: nat, value: string, t: Option<ColumnType>): (c: Cell)
    ensures t.None? ==> c == Plain(value)
    ensures t.Some? && t.value.Unrecognized? ==> c == Plain(value)
    ensures t.Some? && (t.value.OnClick? || t.value.Href?) ==>
      ShownText(c) == Some(value) && (c.Plain? <==> !Truthy(value))
    ensures t.Some? && t.value.Check? ==>
      (c == CheckGlyph <==> IsChecked(value, t.value.criteria)) && (c != CheckGlyph ==> c == Plain(value))
    ensures t.Some? && t.value.ArrayMap? ==> c == Plain(Get(t.value.lookup, value))
    ensures t.Some? && t.value.Custom? ==> c == Plain(ParseText(primary, row, t.value.template))
    ensures t.Some? && t.value.Image? ==> c == Img(ParseText(primary, row, t.value.src), ImageId(key, i))
  {
    match t
    case None => Plain(value)
    case Some(ct) =>
      match ct
      case OnClick(script) =>
        if Truthy(value) then ScriptLink(ParseText(primary, row, script), value) else Plain(value)
      case Href(url) =>
        if Truthy(value) then Link(ParseText(primary, row, url), value) else Plain(value)
      case Date(format, parse) => DateText(format, value, parse)
      case Image(src) => Img(ParseText(primary, row, src), ImageId(key, i))
      case ArrayMap(lookup) => Plain(Get(lookup, value))
      case Check(criteria) => if IsChecked(value, criteria) then CheckGlyph else Plain(value)
      case Percent(fraction, bar) => PercentText(value, fraction, bar)
      case Dollar => Dollars(value)
      case Custom(template) => Plain(ParseText(primary, row, template))
      case Function(callee, args) => Called(callee, ParseVariables(primary, row, args))
      case Unrecognized(_) => Plain(value)
  }

  /** A truthy value in a click or link column whose action has no placeholder is linked to that action verbatim. */
  lemma LinkCellPlainAction(primary: string, row: Assoc, key: string, i: nat, value: string, t: ColumnType)
    requires t.OnClick? || t.Href?
    requires Truthy(value)
    requires '%' !in (if t.OnClick? then t.script else t.url)
    ensures FormatCell(primary, row, key, i, value, Some(t))
         == (if t.OnClick? then ScriptLink(t.script, value) else Link(t.url, value))
  {
    if t.OnClick? {
      ParseTextPlain(primary, row, t.script);
    } else {
      ParseTextPlain(primary, row, t.url);
    }
  }

  /** The three fixed spellings always check; with no extra value nothing else does. */
  lemma CheckSpellings(value: string, criteria: string)
    ensures value == "1" || value == "yes" || value == "true" ==> IsChecked(value, criteria)
    ensures criteria == "" ==> (IsChecked(value, criteria) <==> value in {"1", "yes", "true"})
    ensures criteria != "" ==> IsChecked(criteria, criteria)
  {
  }

  /** The types whose columns get no filter box in the header. */
  const NO_FILTER_TYPES: set<int> := {TYPE_ARRAY, TYPE_IMAGE, TYPE_FUNCTION, TYPE_DATE, TYPE_CHECK, TYPE_CUSTOM, TYPE_PERCENT}

  /** A column offers a filter box when it is untyped or its type shows the value itself (click, currency, link, or unrecognised). */
  predicate AllowsFilter(t: Option<ColumnType>)
  {
    match t
    case None => true
    case Some(ct) => ct.OnClick? || ct.Dollar? || ct.Href? || ct.Unrecognized?
  }

  /** The filter box is withheld exactly for the seven "special" type codes. */
  lemma AllowsFilterByCode(t: ColumnType)
    requires WellCoded(t)
    ensures AllowsFilter(Some(t)) <==> Code(t) !in NO_FILTER_TYPES
  {
  }

  /** The entries of `row` whose column is not hidden, in row order. */
  function VisibleEntries(row: Assoc, hidden: seq<string>): (vs: Assoc)
    ensures forall k :: 0 <= k < |vs| ==> vs[k].0 !in hidden
    ensures forall k :: 0 <= k < |row| && row[k].0 !in hidden ==> row[k] in vs
    ensures forall e :: e in vs ==> e in row
    decreases |row|
  {
    if row == [] then []
    else if row[0].0 in hidden then VisibleEntries(row[1..], hidden)
    else [row[0]] + VisibleEntries(row[1..], hidden)
  }

  /** The type stored for a column, if any. */
  function TypeOf(types: map<string, ColumnType>, key: string): Option<ColumnType>
  {
    if key in types then Some(types[key]) else None
  }

  /** printTable's cells for the entries `rest` of the fetched `row`, one per visible entry (placeholders are filled from the whole row). */
  function FormatRow(primary: string, row: Assoc, rest: Assoc, hidden: seq<string>, types: map<string, ColumnType>, i: nat): (cells: seq<Cell>)
    ensures |cells| == |VisibleEntries(rest, hidden)|
    decreases |rest|
  {
    if rest == [] then []
    else if rest[0].0 in hidden then FormatRow(primary, row, rest[1..], hidden, types, i)
    else
      [FormatEntry(primary, row, rest[0], types, i)] + FormatRow(primary, row, rest[1..], hidden, types, i)
  }

  /**
    The cells of a row are, in order, the formatting of each visible
    entry's value under its column's type.
   */
  lemma {:induction false} FormatRowCells(primary: string, row: Assoc, rest: Assoc, hidden: seq<string>, types: map<string, ColumnType>, i: nat)
    ensures forall k :: 0 <= k < |FormatRow(primary, row, rest, hidden, types, i)| ==>
      FormatRow(primary, row, rest, hidden, types, i)[k] == FormatEntry(primary, row, VisibleEntries(rest, hidden)[k], types, i)
    decreases |rest|
  {
    if rest != [] {
      FormatRowCells(primary, row, rest[1..], hidden, types, i);
      var cells, vs := FormatRow(primary, row, rest, hidden, types, i), VisibleEntries(rest, hidden);
      var tail, vt := FormatRow(primary, row, rest[1..], hidden, types, i), VisibleEntries(rest[1..], hidden);
      if rest[0].0 in hidden {
        assert cells == tail && vs == vt;
      } else {
        assert cells == [FormatEntry(primary, row, rest[0], types, i)] + tail;
        assert vs == [rest[0]] + vt;
        forall k | 0 <= k < |cells|
          ensures cells[k] == FormatEntry(primary, row, vs[k], types, i)
        {
          if k > 0 {
            assert cells[k] == tail[k - 1] && vs[k] == vt[k - 1];
          }
        }
      }
    }
  }

  /** The cell of one entry of a row: its value formatted under its column's type. */
  function FormatEntry(primary: string, row: Assoc, e: (string, string), types: map<string, ColumnType>, i: nat): Cell
  {
    FormatCell(primary, row, e.0, i, e.1, TypeOf(types, e.0))
  }

  /** With no types set, a row is shown as its visible values, unchanged and in order. */
  lemma UntypedRow(primary: string, row: Assoc, hidden: seq<string>, i: nat)
    ensures var cells := FormatRow(primary, row, row, hidden, map[], i);
      forall k :: 0 <= k < |cells| ==> cells[k] == Plain(VisibleEntries(row, hidden)[k].1)
  {
    FormatRowCells(primary, row, row, hidden, map[], i);
  }
}
