/**
  The header row of buildHeader: a blank cell over the row numbers, the
  check-all box, one cell per visible column (its caption, the link that
  sorts by it, the sort icon and the filter box), and a blank cell over the
  row controls; and the column count the footer and the empty-table row
  span.
 */
module GridHeader {
  import opened Php
  import opened RequestState
  import opened CellFormat

  /** The filter box under a column caption: whether it starts open, and the value it shows. */
  datatype FilterBox = FilterBox(open: bool, value: string)

  /**
    One header cell. A column cell carries its field name, its caption, the
    direction its sort link asks for (None when ordering is hidden), the
    direction of the sort icon (None when the column is not the ordered
    one), and its filter box (None when the column gets none).
   */
  datatype HeadCell =
    | Blank
    | CheckAll
    | Column(name: string, caption: string, sort: Option<Direction>, icon: Option<Direction>, filter: Option<FilterBox>)

  /** The grid settings buildHeader reads. */
  datatype HeadConfig = HeadConfig(
    showRowNumber: bool,
    showCheckboxes: bool,
    hidden: seq<string>,
    header: map<string, string>,
    hideOrder: bool,
    order: Option<Order>,
    allowFilters: bool,
    types: map<string, ColumnType>,
    filter: Option<Filter>,
    controlCount: nat)

  /** The caption of a column: the one set with setColumnHeader, else the field name. */
  function Caption(header: map<string, string>, t: string): string
  {
    if t in header then header[t] else t
  }

  /** The direction the sort link of column `t` asks for: the opposite of the current one on the ordered column, ASC elsewhere. */
  function SortOffer(order: Option<Order>, t: string): Direction
  {
    if order.Some? && order.value.column == t then
      (if order.value.direction == Asc then Desc else Asc)
    else Asc
  }

  /**
    Clicking a sort link orders by that column in the offered direction
    (tblSetOrder sends `column:DIR`, which the next request parses back),
    and the new header then offers the opposite direction on that column.
   */
  lemma SortOfferToggles(order: Option<Order>, t: string)
    requires ':' !in t && NoSpecial(t)
    ensures order.Some? && order.value.column == t ==> SortOffer(order, t) != order.value.direction
    ensures !(order.Some? && order.value.column == t) ==> SortOffer(order, t) == Asc
    ensures var next := OrderParam(t + ":" + DirectionText(SortOffer(order, t)));
      && next == Some(Order(t, SortOffer(order, t)))
      && SortOffer(next, t) != SortOffer(order, t)
  {
    OrderStateRoundTrip(Some(Order(t, SortOffer(order, t))));
  }

  /**
    The filter box of column `t`: present when filters are allowed and the
    column type shows its value; open, with the filter value, exactly when
    the current filter is on this column and its value is non-empty.
   */
  function FilterBoxOf(allowFilters: bool, types: map<string, ColumnType>, filter: Option<Filter>, t: string): (b: Option<FilterBox>)
    ensures b.Some? <==> allowFilters && AllowsFilter(TypeOf(types, t))
    ensures b.Some? ==> (b.value.open <==> filter.Some? && filter.value.column == t && Truthy(filter.value.value))
    ensures b.Some? && b.value.open ==> b.value.value == filter.value.value
    ensures b.Some? && !b.value.open ==> b.value.value == ""
  {
    if allowFilters && AllowsFilter(TypeOf(types, t)) then
      if filter.Some? && filter.value.column == t && Truthy(filter.value.value) then
        Some(FilterBox(true, filter.value.value))
      else
        Some(FilterBox(false, ""))
    else None
  }

  /** At most one filter box starts open: the one of the filtered column, and only if its value is non-empty. */
  lemma OpenFilterBoxUnique(c: HeadConfig, t: string, u: string)
    requires FilterBoxOf(c.allowFilters, c.types, c.filter, t).Some? && FilterBoxOf(c.allowFilters, c.types, c.filter, t).value.open
    requires FilterBoxOf(c.allowFilters, c.types, c.filter, u).Some? && FilterBoxOf(c.allowFilters, c.types, c.filter, u).value.open
    ensures t == u && Truthy(c.filter.value.value)
  {
  }

  /** The header cell of a visible column `t`. */
  function HeadColumn(t: string, c: HeadConfig): (h: HeadCell)
    ensures h.Column? && h.name == t && h.caption == Caption(c.header, t)
    ensures h.sort.Some? <==> !c.hideOrder
    ensures h.sort.Some? ==> h.sort.value == SortOffer(c.order, t)
    ensures h.icon.Some? <==> !c.hideOrder && c.order.Some? && c.order.value.column == t
    ensures h.icon.Some? ==> h.icon.value == c.order.value.direction
    ensures h.filter == FilterBoxOf(c.allowFilters, c.types, c.filter, t)
  {
    var ordered := c.order.Some? && c.order.value.column == t;
    Column(t, Caption(c.header, t),
      if c.hideOrder then None else Some(SortOffer(c.order, t)),
      if !c.hideOrder && ordered then Some(c.order.value.direction) else None,
      FilterBoxOf(c.allowFilters, c.types, c.filter, t))
  }

  /** The field names that are not hidden, in field order (a repeated name is kept each time). */
  function VisibleFields(fields: seq<string>, hidden: seq<string>): (vs: seq<string>)
    ensures |vs| <= |fields|
    ensures forall k :: 0 <= k < |vs| ==> vs[k] !in hidden && vs[k] in fields
    ensures forall k :: 0 <= k < |fields| && fields[k] !in hidden ==> fields[k] in vs
    decreases |fields|
  {
    if fields == [] then []
    else if fields[0] in hidden then VisibleFields(fields[1..], hidden)
    else [fields[0]] + VisibleFields(fields[1..], hidden)
  }

  /** Taking one more field extends the visible fields by that field, unless it is hidden. */
  lemma {:induction false} VisibleFieldsSnoc(fields: seq<string>, t: string, hidden: seq<string>)
    ensures VisibleFields(fields + [t], hidden)
         == VisibleFields(fields, hidden) + (if t in hidden then [] else [t])
    decreases |fields|
  {
    if fields == [] {
      assert VisibleFields([t], hidden) == (if t in hidden then [] else [t]) + VisibleFields([], hidden);
    } else {
      assert (fields + [t])[0] == fields[0];
      assert (fields + [t])[1..] == fields[1..] + [t];
      VisibleFieldsSnoc(fields[1..], t, hidden);
    }
  }

  /** The cells before the columns: a blank over the row numbers, then the check-all box. */
  function Lead(c: HeadConfig): seq<HeadCell>
  {
    (if c.showRowNumber then [Blank] else []) + (if c.showCheckboxes then [CheckAll] else [])
  }

  /** The cell after the columns: a blank over the row controls, when there are any. */
  function Trail(c: HeadConfig): seq<HeadCell>
  {
    if c.controlCount > 0 then [Blank] else []
  }

  /** The column cells for these visible field names, one per name, in order. */
  function Columns(names: seq<string>, c: HeadConfig): (cols: seq<HeadCell>)
    ensures |cols| == |names|
  {
    seq(|names|, k requires 0 <= k < |names| => HeadColumn(names[k], c))
  }

  /** The header row for the result's field names: the lead cells, the visible columns, the trail cell. */
  function HeaderRow(fields: seq<string>, c: HeadConfig): seq<HeadCell>
  {
    Lead(c) + Columns(VisibleFields(fields, c.hidden), c) + Trail(c)
  }

  /**
    The header row starts with the lead cells and ends with the trail cell,
    and in between each visible field has its own cell, in field order.
   */
  lemma HeaderRowCells(fields: seq<string>, c: HeadConfig)
    ensures var cells, vs := HeaderRow(fields, c), VisibleFields(fields, c.hidden);
      && |cells| == |Lead(c)| + |vs| + |Trail(c)|
      && cells[..|Lead(c)|] == Lead(c)
      && cells[|cells| - |Trail(c)|..] == Trail(c)
      && forall k :: 0 <= k < |vs| ==> cells[|Lead(c)| + k] == HeadColumn(vs[k], c)
  {
    var cells, vs := HeaderRow(fields, c), VisibleFields(fields, c.hidden);
    var cols := Columns(vs, c);
    assert cells[..|Lead(c)|] == Lead(c);
    assert cells[|cells| - |Trail(c)|..] == Trail(c);
    forall k | 0 <= k < |vs|
      ensures cells[|Lead(c)| + k] == HeadColumn(vs[k], c)
    {
      assert cells[|Lead(c)| + k] == cols[k];
    }
  }

  /**
    buildHeader, past the hide_header test, for the field names of the
    result. The count starts at the number of fields, gains one for the
    row-number and the check-all columns, loses one per hidden field and
    gains one for the controls column; it always equals the number of
    header cells, which are the header row of those fields.
   */
  method BuildHeader(fields: seq<string>, c: HeadConfig) returns (cells: seq<HeadCell>, count: int)
    ensures cells == HeaderRow(fields, c)
    ensures count == |cells|
  {
    count := |fields|;
    var lead: seq<HeadCell> := [];
    if c.showRowNumber {
      count := count + 1;
      lead := lead + [Blank];
    }
    if c.showCheckboxes {
      count := count + 1;
      lead := lead + [CheckAll];
    }
    assert lead == Lead(c);
    var cols: seq<HeadCell> := [];
    for k := 0 to |fields|
      invariant cols == Columns(VisibleFields(fields[..k], c.hidden), c)
      invariant count == |fields| + |lead| - (k - |cols|)
    {
      var t := fields[k];
      assert fields[..k + 1] == fields[..k] + [t];
      VisibleFieldsSnoc(fields[..k], t, c.hidden);
      if t in c.hidden {
        count := count - 1;
        continue;
      }
      ColumnsSnoc(VisibleFields(fields[..k], c.hidden), t, c);
      cols := cols + [HeadColumn(t, c)];
    }
    assert fields[..|fields|] == fields;
    var trail: seq<HeadCell> := [];
    if c.controlCount > 0 {
      count := count + 1;
      trail := [Blank];
    }
    cells := lead + cols + trail;
  }

  /** One more visible name adds its column cell at the end. */
  lemma ColumnsSnoc(names: seq<string>, t: string, c: HeadConfig)
    ensures Columns(names + [t], c) == Columns(names, c) + [HeadColumn(t, c)]
  {
    assert forall k :: 0 <= k < |names| ==> (names + [t])[k] == names[k];
  }

  /** The column names of a row, in row order. */
  function KeysOf(row: Assoc): (ks: seq<string>)
    ensures |ks| == |row|
  {
    seq(|row|, k requires 0 <= k < |row| => row[k].0)
  }

  /** Keeping the visible entries of a row keeps exactly the visible ones of its column names. */
  lemma {:induction false} KeysOfVisible(row: Assoc, hidden: seq<string>)
    ensures KeysOf(VisibleEntries(row, hidden)) == VisibleFields(KeysOf(row), hidden)
    decreases |row|
  {
    if row != [] {
      var ks := KeysOf(row);
      assert ks[0] == row[0].0;
      assert ks[1..] == KeysOf(row[1..]);
      KeysOfVisible(row[1..], hidden);
      if row[0].0 !in hidden {
        var rest := VisibleEntries(row[1..], hidden);
        assert KeysOf([row[0]] + rest) == [row[0].0] + KeysOf(rest);
      }
    }
  }

  /**
    A fetched row whose keys are the result's field names has one visible
    entry per visible header column, in the same order, so each body row
    lines up with the header.
   */
  lemma RowMatchesHeader(row: Assoc, fields: seq<string>, hidden: seq<string>)
    requires |row| == |fields|
    requires forall k :: 0 <= k < |row| ==> row[k].0 == fields[k]
    ensures |VisibleEntries(row, hidden)| == |VisibleFields(fields, hidden)|
    ensures forall k :: 0 <= k < |VisibleFields(fields, hidden)| ==> VisibleEntries(row, hidden)[k].0 == VisibleFields(fields, hidden)[k]
  {
    assert KeysOf(row) == fields;
    KeysOfVisible(row, hidden);
    var e := VisibleEntries(row, hidden);
    forall k | 0 <= k < |e|
      ensures e[k].0 == VisibleFields(fields, hidden)[k]
    {
      assert KeysOf(e)[k] == e[k].0;
    }
  }
}
