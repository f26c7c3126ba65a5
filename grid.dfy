/**
  The data grid itself (EyeDataGrid): the settings object the page script
  configures, the request state the constructor reads, the row controls,
  and printTable, which runs the page query and the count query and lays
  out the header, the body rows and the footer.
 */
module Grid {
  import opened Php
  import opened RequestState
  import opened Placeholders
  import opened CellFormat
  import opened GridHeader
  import GridQuery
  import Paging
  import MySql

  const CUSCTRL_TEXT: int := 1
  const CUSCTRL_IMAGE: int := 2
  const STDCTRL_EDIT: int := 3
  const STDCTRL_DELETE: int := 4

  const TXT_RESET: string := "Reset Table"
  const TXT_NORESULTS: string := "No results found!"

  /** The page size a new grid starts with. */
  const DEFAULT_RESULTS_PER_PAGE: int := 10

  /** The opening of a click link, up to the script. */
  const ONCLICK_OPEN: string := "href=\"javascript:;\" onclick=\""

  /** The opening of a plain link, up to the target. */
  const HREF_OPEN: string := "href=\""

  /** parseLinkAction: the attributes of a link that runs `action` on click, or that points at `action`. */
  function LinkAction(action: string, actionType: int): string
  {
    if actionType == TYPE_ONCLICK then ONCLICK_OPEN + action + "\""
    else HREF_OPEN + action + "\""
  }

  /**
    The link attributes determine the action: two links of the same kind
    are equal only for equal actions, and a click link never equals a plain
    link whose target has no double quote.
   */
  lemma LinkActionDistinct(a: string, b: string, t: int, u: int)
    ensures (t == TYPE_ONCLICK <==> u == TYPE_ONCLICK) && LinkAction(a, t) == LinkAction(b, u) ==> a == b
    ensures t == TYPE_ONCLICK && u != TYPE_ONCLICK && '"' !in b ==> LinkAction(a, t) != LinkAction(b, u)
  {
    var x, y := LinkAction(a, t), LinkAction(b, u);
    if (t == TYPE_ONCLICK <==> u == TYPE_ONCLICK) && x == y {
      var open := if t == TYPE_ONCLICK then ONCLICK_OPEN else HREF_OPEN;
      assert x == open + a + "\"" && y == open + b + "\"";
      assert a == x[|open|..|x| - 1];
      assert b == y[|open|..|y| - 1];
    }
    if t == TYPE_ONCLICK && u != TYPE_ONCLICK && '"' !in b {
      assert |ONCLICK_OPEN| == 29 && ONCLICK_OPEN[18] == '"';
      assert x[18] == '"';
      assert y == HREF_OPEN + b + "\"" && |HREF_OPEN| == 6;
      if |b| > 12 {
        assert y[18] == b[12];
        assert b[12] in b;
      }
    }
  }

  /** The markup of a standard control: the link around the inlined icon, with `alt` as its alternative text and title. */
  function StandardControl(attr: string, icon: string, alt: string): string
  {
    "<a " + attr + "><img src=\"data:imagem/gif;base64," + icon + "\" alt=\"" + alt + "\" title=\"" + alt + "\" class=\"tbl-control-image\"></a>"
  }

  /** The markup of a custom control: a link around an image when the type is CUSCTRL_IMAGE, around the text otherwise. */
  function CustomControl(kind: int, attr: string, text: string, src: string): string
  {
    if kind == CUSCTRL_IMAGE then
      "<a " + attr + "><img src=\"" + src + "\" alt=\"" + text + "\" title=\"" + text + "\" class=\"tbl-control-image\"></a>"
    else
      "<a " + attr + ">" + text + "</a>"
  }

  /** The link attribute brings in no `%` that the action does not have. */
  lemma LinkActionPlain(action: string, actionType: int)
    requires '%' !in action
    ensures '%' !in LinkAction(action, actionType)
  {
    assert '%' !in ONCLICK_OPEN && '%' !in HREF_OPEN && '%' !in "\"";
  }

  /**
    A standard control without placeholders is shown unchanged in every
    row: its fixed markup holds no `%`, so only the link, the icon and the
    alternative text could bring one in.
   */
  lemma StandardControlPlain(primary: string, row: Assoc, attr: string, icon: string, alt: string)
    requires '%' !in attr && '%' !in icon && '%' !in alt
    ensures ParseText(primary, row, StandardControl(attr, icon, alt)) == StandardControl(attr, icon, alt)
  {
    assert '%' !in "<a " && '%' !in "><img src=\"data:imagem/gif;base64,";
    assert '%' !in "\" alt=\"" && '%' !in "\" title=\"";
    assert '%' !in "\" class=\"tbl-control-image\"></a>";
    ParseTextPlain(primary, row, StandardControl(attr, icon, alt));
  }

  /** The same for a custom control: only its link, text and image source could bring in a `%`. */
  lemma CustomControlPlain(primary: string, row: Assoc, kind: int, attr: string, text: string, src: string)
    requires '%' !in attr && '%' !in text && '%' !in src
    ensures ParseText(primary, row, CustomControl(kind, attr, text, src)) == CustomControl(kind, attr, text, src)
  {
    assert '%' !in "<a " && '%' !in "><img src=\"" && '%' !in "\" alt=\"" && '%' !in "\" title=\"";
    assert '%' !in "\" class=\"tbl-control-image\"></a>";
    assert '%' !in ">" && '%' !in "</a>";
    ParseTextPlain(primary, row, CustomControl(kind, attr, text, src));
  }

  /** A text control's markup around a link `a`, `p`, `b`, split at `p`. */
  lemma TextControlAround(a: string, p: string, b: string, text: string)
    ensures CustomControl(CUSCTRL_TEXT, LinkAction(a + p + b, TYPE_HREF), text, "")
         == ("<a href=\"" + a) + p + (b + "\">" + text + "</a>")
  {
    assert "<a " + HREF_OPEN == "<a href=\"";
    assert "\"" + ">" == "\">";
  }

  /** A text control whose link is `a%_P%b` shows the row's primary key in place of `%_P%`. */
  lemma TextControlPrimaryKey(primary: string, row: Assoc, a: string, b: string, text: string)
    requires Truthy(primary) && IsName(primary)
    requires '%' !in a && '%' !in b && '%' !in text
    ensures ParseText(primary, row, CustomControl(CUSCTRL_TEXT, LinkAction(a + PRIMARY_ALIAS + b, TYPE_HREF), text, ""))
         == CustomControl(CUSCTRL_TEXT, LinkAction(a + Get(row, primary) + b, TYPE_HREF), text, "")
  {
    TextControlAround(a, PRIMARY_ALIAS, b, text);
    TextControlAround(a, Get(row, primary), b, text);
    ParseTextAlias(primary, row, "<a href=\"" + a, b + "\">" + text + "</a>");
  }

  /**
    The error text shown in the alert as written at line 698: `[` and `]`
    delimit the pattern, so only the two-character sequence '" is removed.
   */
  function StripQuotesAsWritten(s: string): string
  {
    ReplaceAll(s, "'\"", "")
  }

  /** As written, an error text with a lone apostrophe keeps it, and would end the alert's string early. */
  lemma StripQuotesAsWrittenKeepsApostrophe()
    ensures StripQuotesAsWritten("it's") == "it's"
    ensures '\'' in StripQuotesAsWritten("it's")
  {
    assert "'\""[1] == '"' && '"' !in "it's";
    MissingCharNotContained("it's", "'\"", 1);
    ReplaceAllAbsent("it's", "'\"", "");
    assert "it's"[2] == '\'';
  }

  /** The error text as intended: every ' and " removed, every other character kept in order. */
  function StripQuotes(s: string): (r: string)
    ensures '\'' !in r && '"' !in r
    ensures '\'' !in s && '"' !in s ==> r == s
    ensures |r| <= |s|
    decreases |s|
  {
    if s == [] then []
    else (if s[0] == '\'' || s[0] == '"' then [] else [s[0]]) + StripQuotes(s[1..])
  }

  /**
    The stripping as written changes nothing in a text without an apostrophe
    (a lone `"` included), so it agrees with the intended stripping on every
    text that has no quote at all.
   */
  lemma StripQuotesAgree(s: string)
    ensures '\'' !in s ==> StripQuotesAsWritten(s) == s
    ensures '\'' !in s && '"' !in s ==> StripQuotesAsWritten(s) == StripQuotes(s) == s
  {
    if '\'' !in s {
      assert "'\""[0] == '\'';
      MissingCharNotContained(s, "'\"", 0);
      ReplaceAllAbsent(s, "'\"", "");
    }
  }

  /** A character is in the stripped text exactly when it is in the text and is not a quote. */
  lemma {:induction false} StripQuotesChars(s: string, c: char)
    ensures c in StripQuotes(s) <==> c in s && c != '\'' && c != '"'
    decreases |s|
  {
    if s != [] {
      StripQuotesChars(s[1..], c);
      assert c in s <==> c == s[0] || c in s[1..];
    }
  }

  /** The intended stripping distributes over concatenation, so the text around a removed quote is kept as it is. */
  lemma {:induction false} StripQuotesAppend(a: string, b: string)
    ensures StripQuotes(a + b) == StripQuotes(a) + StripQuotes(b)
    decreases |a|
  {
    if a == [] {
      assert a + b == b;
    } else {
      assert (a + b)[0] == a[0] && (a + b)[1..] == a[1..] + b;
      StripQuotesAppend(a[1..], b);
      var h := if a[0] == '\'' || a[0] == '"' then [] else [a[0]];
      calc {
        StripQuotes(a + b);
        h + StripQuotes(a[1..] + b);
        h + (StripQuotes(a[1..]) + StripQuotes(b));
        (h + StripQuotes(a[1..])) + StripQuotes(b);
      }
    }
  }

  /** The create button: its link attributes and caption. */
  datatype CreateButton = CreateButton(action: string, text: string)

  /** The state printJavascript hands to the script: the page and the `tblorder` and `tblfilter` strings. */
  datatype ScriptState = ScriptState(page: int, order: string, filter: string)

  /**
    A character the script can carry through its query string unchanged.
    printJavascript pastes `tblorder` and `tblfilter` into the URL without
    encoding them, so `&` and `#` end the parameter, `+` reads back as a
    space, `%` starts an escape, and a control character such as a newline
    breaks the script's string literal.
   */
  predicate UrlSafeChar(c: char)
  {
    c >= ' ' && c != '&' && c != '+' && c != '#' && c != '%'
  }

  predicate UrlSafe(s: string)
  {
    forall i :: 0 <= i < |s| ==> UrlSafeChar(s[i])
  }

  /**
    The page, order and filter the script sends back with its next request
    are read as the grid's current page, order and filter, provided column
    names hold no `:`, nothing holds a character the sanitiser replaces, and
    nothing holds a character the unencoded query string would change.
   */
  lemma ScriptStateRoundTrip(page: int, order: Option<Order>, filter: Option<Filter>)
    requires page >= 1
    requires order.Some? ==> ':' !in order.value.column && NoSpecial(order.value.column) && UrlSafe(order.value.column)
    requires filter.Some? ==> ':' !in filter.value.column && NoSpecial(filter.value.column) && NoSpecial(filter.value.value)
    requires filter.Some? ==> UrlSafe(filter.value.column) && UrlSafe(filter.value.value)
    ensures var s := ScriptState(page, OrderState(order), FilterState(filter));
      && RequestedPage(IntToString(s.page)) == page
      && OrderParam(s.order) == order
      && FilterParam(s.filter) == filter
  {
    RequestedPageOfLink(page);
    OrderStateRoundTrip(order);
    FilterStateRoundTrip(filter);
  }

  /** The settings the row loop reads. */
  datatype RowConfig = RowConfig(
    page: int,
    rpp: int,
    rowSelect: string,
    primary: string,
    showRowNumber: bool,
    showCheckboxes: bool,
    hidden: seq<string>,
    types: map<string, ColumnType>,
    controls: seq<string>)

  /**
    One body row: whether it is an odd row, the row-select script, the row
    number, the checkbox value, the cells, and the rendered controls (no
    controls cell when there are none).
   */
  datatype RowOut = RowOut(
    odd: bool,
    select: Option<string>,
    number: Option<int>,
    checkbox: Option<string>,
    cells: seq<Cell>,
    controls: seq<string>)

  /** The body row for the `i`-th fetched row (from 0). */
  function RowOutput(c: RowConfig, i: nat, row: Assoc): RowOut
  {
    RowOut(
      i % 2 == 1,
      if Truthy(c.rowSelect) then Some(ParseText(c.primary, row, c.rowSelect)) else None,
      if c.showRowNumber then Some(Paging.RowNumber(c.page, c.rpp, i)) else None,
      if c.showCheckboxes then Some(Get(row, c.primary)) else None,
      FormatRow(c.primary, row, row, c.hidden, c.types, i),
      seq(|c.controls|, k requires 0 <= k < |c.controls| => ParseText(c.primary, row, c.controls[k])))
  }

  /** The body rows for fetched rows, numbered from 0 in fetch order. */
  function RowOutputs(c: RowConfig, rows: seq<Assoc>): seq<RowOut>
    decreases |rows|
  {
    if rows == [] then [] else RowOutputs(c, rows[..|rows| - 1]) + [RowOutput(c, |rows| - 1, rows[|rows| - 1])]
  }

  /** One more fetched row adds its own body row at the end. */
  lemma RowOutputsSnoc(c: RowConfig, rows: seq<Assoc>, row: Assoc)
    ensures RowOutputs(c, rows + [row]) == RowOutputs(c, rows) + [RowOutput(c, |rows|, row)]
  {
    assert (rows + [row])[..|rows|] == rows;
  }

  /** There is one body row per fetched row, and the `k`-th is the row output for the `k`-th fetched row. */
  lemma {:induction false} RowOutputsPointwise(c: RowConfig, rows: seq<Assoc>)
    ensures |RowOutputs(c, rows)| == |rows|
    ensures forall k :: 0 <= k < |rows| ==> RowOutputs(c, rows)[k] == RowOutput(c, k, rows[k])
    decreases |rows|
  {
    if rows != [] {
      var front := rows[..|rows| - 1];
      RowOutputsPointwise(c, front);
      forall k | 0 <= k < |rows|
        ensures RowOutputs(c, rows)[k] == RowOutput(c, k, rows[k])
      {
        if k < |front| {
          assert rows[k] == front[k];
        }
      }
    }
  }

  /** The number of table cells a body row occupies. */
  function RowWidth(r: RowOut): nat
  {
    (if r.number.Some? then 1 else 0) + (if r.checkbox.Some? then 1 else 0) + |r.cells| + (if |r.controls| > 0 then 1 else 0)
  }

  /**
    A body row spans exactly the header's columns: the row number under the
    blank cell, the checkbox under the check-all box, one cell under each
    visible column, the controls under the last blank cell.
   */
  lemma RowLinesUpWithHeader(h: HeadConfig, c: RowConfig, i: nat, row: Assoc, fields: seq<string>)
    requires h.showRowNumber == c.showRowNumber && h.showCheckboxes == c.showCheckboxes
    requires h.hidden == c.hidden && h.controlCount == |c.controls|
    requires |row| == |fields| && forall k :: 0 <= k < |row| ==> row[k].0 == fields[k]
    ensures RowWidth(RowOutput(c, i, row)) == |Lead(h)| + |VisibleFields(fields, h.hidden)| + |Trail(h)|
    ensures forall k :: 0 <= k < |VisibleFields(fields, h.hidden)| ==>
      RowOutput(c, i, row).cells[k] == FormatCell(c.primary, row, VisibleFields(fields, h.hidden)[k], i, VisibleEntries(row, h.hidden)[k].1, TypeOf(c.types, VisibleFields(fields, h.hidden)[k]))
  {
    RowMatchesHeader(row, fields, h.hidden);
    FormatRowCells(c.primary, row, row, c.hidden, c.types, i);
  }

  /** Consecutive rows alternate between even and odd, and their numbers follow one another. */
  lemma ConsecutiveRows(c: RowConfig, i: nat, row: Assoc, next: Assoc)
    ensures RowOutput(c, i, row).odd != RowOutput(c, i + 1, next).odd
    ensures c.showRowNumber ==> RowOutput(c, i + 1, next).number.value == RowOutput(c, i, row).number.value + 1
  {
  }

  /** buildControls: every control of the grid, with its placeholders filled from the row. */
  method BuildControls(primary: string, row: Assoc, controls: seq<string>) returns (shown: seq<string>)
    ensures |shown| == |controls|
    ensures forall k :: 0 <= k < |controls| ==> shown[k] == ParseText(primary, row, controls[k])
  {
    shown := [];
    for k := 0 to |controls|
      invariant |shown| == k
      invariant forall j :: 0 <= j < k ==> shown[j] == ParseText(primary, row, controls[j])
    {
      shown := shown + [ParseText(primary, row, controls[k])];
    }
  }

  /** The body of the table: the no-results row spanning every column, or the rows. */
  datatype Body = NoResults(colspan: int, text: string) | Rows(rows: seq<RowOut>)

  /**
    What printTable produces: the error notice with the stripped error
    text; Aborted when the page query answers true instead of a result set
    (PHP stops with a fatal error there); or the table with its script
    state, create and reset buttons, header, body and footer.
   */
  datatype Output =
    | ErrorNotice(message: string)
    | Aborted
    | Rendered(
        script: Option<ScriptState>,
        create: Option<CreateButton>,
        reset: Option<string>,
        header: Option<seq<HeadCell>>,
        body: Body,
        footer: Option<Paging.Footer>)

  /** The value selectOneValue reads from the count query's answer ("" when there is no row). */
  function CountText(a: MySql.Answer): string
  {
    var rows := MySql.RowsOf(a);
    if rows.Some? then Get(rows.value[0], "COUNT(*)") else ""
  }

  class DataGrid {
    const db: MySql.Adapter
    /** The inlined (base64) content of the image file at a path. */
    const images: string -> string

    var imgEdit: string
    var imgDelete: string
    var imgCreate: string
    var imgReset: string

    var resultsPerPage: int
    var columnCount: int
    var rowCount: int
    var hideHeader: bool
    var hideFooter: bool
    var hideOrder: bool
    var showCheckboxes: bool
    var allowFilters: bool
    var rowSelect: string
    var createButton: Option<CreateButton>
    var resetButton: string
    var showRowNumber: bool
    var hidePageList: bool
    var page: int
    var primary: string
    var hidden: seq<string>
    var header: map<string, string>
    var types: map<string, ColumnType>
    var controls: seq<string>
    var order: Option<Order>
    var filter: Option<Filter>
    var limit: Option<Limit>
    var result: MySql.Reply
    var selectFields: string
    var selectWhere: string
    var selectTable: string
    var imagePath: string

    /** The page is never below 1. */
    predicate Valid()
      reads this`page
    {
      page >= 1
    }

    /** The settings a grid has before any setter is called. */
    predicate Defaults()
      reads this
    {
      && imgEdit == "edit.png" && imgDelete == "delete.png" && imgCreate == "create.png" && imgReset == "reset.png"
      && resultsPerPage == DEFAULT_RESULTS_PER_PAGE && columnCount == 0 && rowCount == 0
      && !hideHeader && !hideFooter && !hideOrder && !showCheckboxes && !allowFilters
      && rowSelect == "" && createButton == None && resetButton == "" && !showRowNumber && !hidePageList
      && primary == "" && hidden == [] && header == map[] && types == map[] && controls == []
      && result == MySql.Failed && selectFields == "" && selectWhere == "" && selectTable == ""
    }

    /**
      The constructor: the image directory (the package's own `images/`
      when none is given), then the page, order and filter read from the
      request. A page that is not positive keeps page 1 and sets the limit
      to the first page.
     */
    constructor (db: MySql.Adapter, imagePath: string, packageImages: string, request: Request, images: string -> string)
      ensures this.db == db && this.images == images && Defaults() && Valid()
      ensures this.imagePath == if Truthy(imagePath) then imagePath else packageImages
      ensures page == RequestedPage(request.page)
      ensures limit == if ResetsLimit(request.page) then Some(Limit(0, DEFAULT_RESULTS_PER_PAGE)) else None
      ensures order == OrderParam(request.order)
      ensures filter == FilterParam(request.filter)
    {
      this.db := db;
      this.images := images;
      imgEdit, imgDelete, imgCreate, imgReset := "edit.png", "delete.png", "create.png", "reset.png";
      resultsPerPage, columnCount, rowCount := DEFAULT_RESULTS_PER_PAGE, 0, 0;
      hideHeader, hideFooter, hideOrder, showCheckboxes, allowFilters := false, false, false, false, false;
      rowSelect, createButton, resetButton := "", None, "";
      showRowNumber, hidePageList := false, false;
      primary := "";
      hidden, header, types, controls := [], map[], map[], [];
      result := MySql.Failed;
      selectFields, selectWhere, selectTable := "", "", "";
      this.imagePath := if Truthy(imagePath) then imagePath else packageImages;
      page := RequestedPage(request.page);
      limit := if ResetsLimit(request.page) then Some(Limit(0, DEFAULT_RESULTS_PER_PAGE)) else None;
      order := OrderParam(request.order);
      filter := FilterParam(request.filter);
      RequestedPageCases(request.page);
    }

    /** hidePageSelectList */
    method HidePageSelectList(on: bool := true)
      modifies this`hidePageList
      ensures hidePageList == on
    {
      hidePageList := on;
    }

    /** allowFilters */
    method AllowFilters(allow: bool := true)
      modifies this`allowFilters
      ensures allowFilters == allow
    {
      allowFilters := allow;
    }

    /** hideOrder */
    method HideOrder(on: bool := true)
      modifies this`hideOrder
      ensures hideOrder == on
    {
      hideOrder := on;
    }

    /** showCheckboxes */
    method ShowCheckboxes(show: bool := true)
      modifies this`showCheckboxes
      ensures showCheckboxes == show
    {
      showCheckboxes := show;
    }

    /** hideHeader */
    method HideHeader(on: bool := true)
      modifies this`hideHeader
      ensures hideHeader == on
    {
      hideHeader := on;
    }

    /** hideFooter */
    method HideFooter(on: bool := true)
      modifies this`hideFooter
      ensures hideFooter == on
    {
      hideFooter := on;
    }

    /** showReset: the reset button's caption (TXT_RESET by default); a falsy caption shows no button. */
    method ShowReset(text: string := TXT_RESET)
      modifies this`resetButton
      ensures resetButton == text
    {
      resetButton := text;
    }

    /** showRowNumber */
    method ShowRowNumber(show: bool := true)
      modifies this`showRowNumber
      ensures showRowNumber == show
    {
      showRowNumber := show;
    }

    /** setQuery: the selected fields, the table, the primary key column and the fixed where condition. */
    method SetQuery(fields: string, table: string, primary: string := "", where: string := "")
      modifies this`primary, this`selectFields, this`selectTable, this`selectWhere
      ensures this.primary == primary && selectFields == fields && selectTable == table && selectWhere == where
    {
      this.primary := primary;
      selectFields := fields;
      selectTable := table;
      selectWhere := where;
    }

    /** setFilter */
    method SetFilter(column: string, value: string)
      modifies this`filter
      ensures filter == Some(Filter(column, value))
    {
      filter := Some(Filter(column, value));
    }

    /** setOrder: the direction is normalised to DESC or ASC. */
    method SetOrder(column: string, token: string)
      modifies this`order
      ensures order == Some(Order(column, DirectionOf(token)))
      ensures order.value.direction == Desc <==> token == ORDER_DESC
    {
      order := Some(Order(column, DirectionOf(token)));
    }

    /** hideColumn: the column is added to the hidden ones (it may already be there). */
    method HideColumn(column: string)
      modifies this`hidden
      ensures hidden == old(hidden) + [column]
      ensures column in hidden
    {
      hidden := hidden + [column];
    }

    /** setColumnHeader: the caption of one column is set, the others are kept. */
    method SetColumnHeader(column: string, caption: string)
      modifies this`header
      ensures header == old(header)[column := caption]
      ensures Caption(header, column) == caption
    {
      header := header[column := caption];
    }

    /**
      setColumnType: the type of one column is set (replacing any earlier
      one), the others are kept. A code of a named type always stands for that
      type, so an Unrecognized type never carries one.
     */
    method SetColumnType(column: string, t: ColumnType)
      requires WellCoded(t)
      modifies this`types
      ensures types == old(types)[column := t]
      ensures TypeOf(types, column) == Some(t)
    {
      types := types[column := t];
    }

    /** setResultsPerPage: the page size, and the limit reset to the first page of that size. */
    method SetResultsPerPage(num: int)
      modifies this`resultsPerPage, this`limit
      ensures resultsPerPage == num
      ensures limit == Some(Limit(0, num))
    {
      resultsPerPage := num;
      SetLimit(0, num);
    }

    /** addStandardControl: an edit or delete link with its icon; any other type adds nothing. */
    method AddStandardControl(kind: int, action: string, actionType: int := TYPE_ONCLICK)
      modifies this`controls
      ensures kind == STDCTRL_EDIT ==>
        controls == old(controls) + [StandardControl(LinkAction(action, actionType), images(imagePath + imgEdit), "Edit")]
      ensures kind == STDCTRL_DELETE ==>
        controls == old(controls) + [StandardControl(LinkAction(action, actionType), images(imagePath + imgDelete), "Delete")]
      ensures kind != STDCTRL_EDIT && kind != STDCTRL_DELETE ==> controls == old(controls)
    {
      var attr := LinkAction(action, actionType);
      if kind == STDCTRL_EDIT {
        controls := controls + [StandardControl(attr, images(imagePath + imgEdit), "Edit")];
      } else if kind == STDCTRL_DELETE {
        controls := controls + [StandardControl(attr, images(imagePath + imgDelete), "Delete")];
      }
    }

    /** addCustomControl: a link around an image (CUSCTRL_IMAGE) or around the text (any other type). */
    method AddCustomControl(kind: int, action: string, actionType: int, text: string, imageSrc: string)
      modifies this`controls
      ensures controls == old(controls) + [CustomControl(kind, LinkAction(action, actionType), text, imageSrc)]
    {
      controls := controls + [CustomControl(kind, LinkAction(action, actionType), text, imageSrc)];
    }

    /** showCreateButton: the create link above the table. */
    method ShowCreateButton(action: string, actionType: int := TYPE_ONCLICK, text: string := "New Record")
      modifies this`createButton
      ensures createButton == Some(CreateButton(LinkAction(action, actionType), text))
    {
      createButton := Some(CreateButton(LinkAction(action, actionType), text));
    }

    /** addRowSelect: the script run when a row is clicked. */
    method AddRowSelect(onclick: string)
      modifies this`rowSelect
      ensures rowSelect == onclick
    {
      rowSelect := onclick;
    }

    /** setLimit */
    method SetLimit(low: int, high: int)
      modifies this`limit
      ensures limit == Some(Limit(low, high))
    {
      limit := Some(Limit(low, high));
    }

    /** `$filter_query` for the current settings. */
    function FilterQuery(): string
      reads this`selectWhere, this`allowFilters, this`filter
    {
      GridQuery.FilterPredicate(selectWhere, allowFilters, filter)
    }

    /** The page query printTable sends, once it has set the limit for the current page. */
    function PageSql(): string
      reads this`selectFields, this`selectTable, this`selectWhere, this`allowFilters, this`filter, this`order
      reads this`page, this`resultsPerPage
    {
      GridQuery.PageQuery(selectFields, selectTable, FilterQuery(), order, Some(GridQuery.LimitOf(page, resultsPerPage)))
    }

    /** printJavascript's script state. */
    function Script(): ScriptState
      reads this`page, this`order, this`filter
    {
      ScriptState(page, OrderState(order), FilterState(filter))
    }

    function HeadSettings(): HeadConfig
      reads this`showRowNumber, this`showCheckboxes, this`hidden, this`header, this`hideOrder, this`order
      reads this`allowFilters, this`types, this`filter, this`controls
    {
      HeadConfig(showRowNumber, showCheckboxes, hidden, header, hideOrder, order, allowFilters, types, filter, |controls|)
    }

    function RowSettings(): RowConfig
      reads this`page, this`resultsPerPage, this`rowSelect, this`primary, this`showRowNumber, this`showCheckboxes
      reads this`hidden, this`types, this`controls
    {
      RowConfig(page, resultsPerPage, rowSelect, primary, showRowNumber, showCheckboxes, hidden, types, controls)
    }

    /** One body row of printTable's row loop, for the `i`-th fetched row (from 0). */
    method BuildRow(i: nat, r: Assoc) returns (out: RowOut)
      ensures out == RowOutput(RowSettings(), i, r)
    {
      var select := if Truthy(rowSelect) then Some(ParseText(primary, r, rowSelect)) else None;
      var line := if page == 1 then i + 1 else i + 1 + (page - 1) * resultsPerPage;
      var number := if showRowNumber then Some(line) else None;
      var checkbox := if showCheckboxes then Some(Get(r, primary)) else None;
      var cells := FormatRow(primary, r, r, hidden, types, i);
      var shown := BuildControls(primary, r, controls);
      assert shown == RowOutput(RowSettings(), i, r).controls;
      out := RowOut(i % 2 == 1, select, number, checkbox, cells, shown);
    }

    /**
      The row loop of printTable over the page's result set: one row per
      fetched row, in fetch order, and the numbers of the first and last
      rows shown.
     */
    method PrintRows(rs: MySql.ResultSet) returns (rows: seq<RowOut>, first: int, last: int)
      requires rs.cursor == 0
      modifies db, rs
      ensures db.sent == old(db.sent) && db.result == old(db.result)
      ensures rows == RowOutputs(RowSettings(), rs.rows)
      ensures first == Paging.FirstShown(page, resultsPerPage, |rs.rows|)
      ensures last == Paging.LastShown(page, resultsPerPage, |rs.rows|)
    {
      var c, p, n := RowSettings(), page, resultsPerPage;
      rows, first, last := [], 0, 0;
      var i: nat := 0;
      var fetched: seq<Assoc> := [];
      var row := db.FetchAssoc(MySql.Handle(rs));
      while row.Some?
        invariant db.sent == old(db.sent) && db.result == old(db.result)
        invariant rs.cursor <= |rs.rows|
        invariant row.Some? ==> rs.cursor == i + 1 && row.value == rs.rows[i]
        invariant row.None? ==> rs.cursor == i == |rs.rows|
        invariant |fetched| == i && forall k :: 0 <= k < i ==> fetched[k] == rs.rows[k]
        invariant rows == RowOutputs(c, fetched)
        invariant first == Paging.FirstShown(p, n, i) && last == Paging.LastShown(p, n, i)
        decreases |rs.rows| - rs.cursor + (if row.Some? then 1 else 0)
      {
        var r := row.value;
        var line := Paging.RowNumber(p, n, i);
        last := line;
        if first == 0 {
          first := line;
        }
        rows := AppendRow(fetched, rows, r);
        fetched := fetched + [r];
        i := i + 1;
        row := db.FetchAssoc(MySql.Handle(rs));
      }
      assert fetched == rs.rows;
    }

    /** One pass of the row loop: the row for the next fetched row is added after the rows of the earlier ones. */
    method AppendRow(fetched: seq<Assoc>, rows: seq<RowOut>, r: Assoc) returns (more: seq<RowOut>)
      requires rows == RowOutputs(RowSettings(), fetched)
      ensures more == RowOutputs(RowSettings(), fetched + [r])
    {
      var out := BuildRow(|fetched|, r);
      RowOutputsSnoc(RowSettings(), fetched, r);
      more := rows + [out];
    }

    /**
      The header printTable lays out for a result with these fields: nothing
      when the header is hidden (the column count is kept), else the header
      row of those fields, whose length becomes the column count.
     */
    predicate HeaderShown(head: Option<seq<HeadCell>>, fields: seq<string>, previousCount: int)
      reads this`hideHeader, this`columnCount, this`showRowNumber, this`showCheckboxes, this`hidden, this`header
      reads this`hideOrder, this`order, this`allowFilters, this`types, this`filter, this`controls
    {
      var h := HeadSettings();
      && (hideHeader ==> head == None && columnCount == previousCount)
      && (!hideHeader ==> head == Some(HeaderRow(fields, h)) && columnCount == |head.value|)
    }

    /** The body for these fetched rows: the no-results row when the count is 0, else one row per fetched row, in fetch order. */
    predicate BodyShown(body: Body, rows: seq<Assoc>)
      reads this`rowCount, this`columnCount, this`page, this`resultsPerPage, this`rowSelect, this`primary
      reads this`showRowNumber, this`showCheckboxes, this`hidden, this`types, this`controls
    {
      && (rowCount == 0 ==> body == NoResults(columnCount, TXT_NORESULTS))
      && (rowCount != 0 ==> body == Rows(RowOutputs(RowSettings(), rows)))
    }

    /**
      The numbers of the first and last rows the row loop reports for these
      fetched rows: both 0 when the count is 0 (the loop does not run) or
      nothing was fetched.
     */
    function ShownRange(rows: seq<Assoc>): (range: (int, int))
      reads this`rowCount, this`page, this`resultsPerPage
      ensures rowCount != 0 && |rows| > 0 && page >= 1 && resultsPerPage > 0 ==>
        range == (Paging.RowNumber(page, resultsPerPage, 0), Paging.RowNumber(page, resultsPerPage, |rows| - 1))
      ensures rowCount == 0 || rows == [] ==> range == (0, 0)
    {
      if rowCount == 0 || rows == [] then (0, 0)
      else
        var range := (Paging.FirstShown(page, resultsPerPage, |rows|), Paging.LastShown(page, resultsPerPage, |rows|));
        if page >= 1 && resultsPerPage > 0 then
          Paging.FirstShownIsFirstRow(page, resultsPerPage, |rows|);
          range
        else range
    }

    /**
      The footer: none when it is hidden, else the footer for the column
      count, the row count, the page and the range of rows shown.
     */
    predicate FooterShown(footer: Option<Paging.Footer>, rows: seq<Assoc>)
      reads this`hideFooter, this`columnCount, this`rowCount, this`resultsPerPage, this`page, this`hidePageList
    {
      && (hideFooter ==> footer == None)
      && (!hideFooter ==> resultsPerPage != 0 && footer == Some(Paging.FooterOf(columnCount, rowCount, resultsPerPage, page, hidePageList, ShownRange(rows).0, ShownRange(rows).1)))
    }

    /**
      The table printTable lays out for a result with these fields and rows:
      the script state unless the request is an Ajax one, the create and
      reset buttons, the header, the body and the footer.
     */
    predicate LaidOut(out: Output, fields: seq<string>, rows: seq<Assoc>, useAjax: string, previousCount: int)
      reads this
    {
      && out.Rendered?
      && out.script == (if IsAjaxUsed(useAjax) then None else Some(Script()))
      && out.create == createButton
      && out.reset == (if Truthy(resetButton) then Some(resetButton) else None)
      && HeaderShown(out.header, fields, previousCount)
      && BodyShown(out.body, rows)
      && FooterShown(out.footer, rows)
    }

    /** buildHeader: nothing when the header is hidden (the column count is kept), else the header cells and their count. */
    method PrintHeader(rs: MySql.ResultSet) returns (head: Option<seq<HeadCell>>)
      modifies this`columnCount
      ensures HeaderShown(head, rs.fields, old(columnCount))
    {
      head := None;
      if !hideHeader {
        var names := db.FieldNameArray(rs);
        var cells, n := BuildHeader(names, HeadSettings());
        columnCount := n;
        head := Some(cells);
      }
    }

    /** The body of printTable: the no-results row, or the row loop with the numbers of the first and last rows shown. */
    method PrintBody(rs: MySql.ResultSet) returns (body: Body, first: int, last: int)
      requires Valid()
      requires rs.cursor == 0
      modifies db, rs
      ensures db.sent == old(db.sent) && db.result == old(db.result)
      ensures BodyShown(body, rs.rows)
      ensures (first, last) == ShownRange(rs.rows)
    {
      first, last := 0, 0;
      if rowCount == 0 {
        body := NoResults(columnCount, TXT_NORESULTS);
      } else {
        var rows;
        rows, first, last := PrintRows(rs);
        body := Rows(rows);
      }
    }

    /** buildFooter: nothing when the footer is hidden, else the footer for the current counts and page. */
    method PrintFooter(first: int, last: int) returns (footer: Option<Paging.Footer>)
      requires hideFooter || resultsPerPage != 0
      ensures hideFooter ==> footer == None
      ensures !hideFooter ==> footer == Some(Paging.FooterOf(columnCount, rowCount, resultsPerPage, page, hidePageList, first, last))
    {
      footer := None;
      if !hideFooter {
        var f := Paging.BuildFooter(columnCount, rowCount, resultsPerPage, page, hidePageList, first, last);
        footer := Some(f);
      }
    }

    /** The part of printTable after the count: the buttons, the header, the rows and the footer. */
    method LayOut(rs: MySql.ResultSet, useAjax: string) returns (out: Output)
      requires Valid()
      requires hideFooter || resultsPerPage != 0
      requires rs.cursor == 0
      modifies this`columnCount, db, rs
      ensures db.sent == old(db.sent) && db.result == old(db.result)
      ensures LaidOut(out, rs.fields, rs.rows, useAjax, old(columnCount))
    {
      var script := if !IsAjaxUsed(useAjax) then Some(Script()) else None;
      var reset := if Truthy(resetButton) then Some(resetButton) else None;
      var head := PrintHeader(rs);
      var body, first, last := PrintBody(rs);
      var footer := PrintFooter(first, last);
      out := Rendered(script, createButton, reset, head, body, footer);
    }

    /**
      printTable. The limit is set for the current page; the page query is
      sent; a refused query gives the error notice and nothing else. Then
      the count query with the same predicate sets the row count, and the
      table is laid out from the page's result.
     */
    method PrintTable(useAjax: string) returns (out: Output)
      requires Valid()
      requires hideFooter || resultsPerPage != 0
      modifies this`limit, this`result, this`rowCount, this`columnCount, db
      ensures limit == Some(GridQuery.LimitOf(page, resultsPerPage))
      ensures out.ErrorNotice? <==> db.server.answer(PageSql()).Refused?
      ensures out.Aborted? <==> db.server.answer(PageSql()).Accepted?
      ensures !db.server.answer(PageSql()).Table? ==> db.sent == old(db.sent) + [PageSql()]
      ensures out.ErrorNotice? ==> out.message == StripQuotes(db.server.errorText(PageSql()))
      ensures db.server.answer(PageSql()).Table? ==>
        db.sent == old(db.sent) + [PageSql()] + [GridQuery.CountQuery(selectTable, FilterQuery())]
      ensures db.server.answer(PageSql()).Table? ==>
        rowCount == CastInt(CountText(db.server.answer(GridQuery.CountQuery(selectTable, FilterQuery()))))
      ensures MySql.Carries(result, db.server.answer(PageSql()))
      ensures !db.server.answer(PageSql()).Table? ==> MySql.Carries(db.result, db.server.answer(PageSql()))
      ensures db.server.answer(PageSql()).Table? ==>
        MySql.Carries(db.result, db.server.answer(GridQuery.CountQuery(selectTable, FilterQuery())))
      ensures result.Fetched? ==> LaidOut(out, result.rs.fields, result.rs.rows, useAjax, old(columnCount))
    {
      var _ := QueryPage();
      out := Conclude(PageSql(), useAjax);
    }

    /**
      printTable once its page query `q` has been answered, as kept in
      `result`: the error notice for a refusal, nothing for a statement
      without a result set, else the count and the table.
     */
    method Conclude(q: string, useAjax: string) returns (out: Output)
      requires Valid()
      requires hideFooter || resultsPerPage != 0
      requires db.sent != [] && db.sent[|db.sent| - 1] == q
      requires result.Fetched? ==> result.rs.cursor == 0
      modifies this`rowCount, this`columnCount, db, if result.Fetched? then {result.rs} else {}
      ensures out.ErrorNotice? <==> result.Failed?
      ensures out.Aborted? <==> result.Done?
      ensures !result.Fetched? ==> db.sent == old(db.sent) && db.result == old(db.result)
      ensures out.ErrorNotice? ==> out.message == StripQuotes(db.server.errorText(q))
      ensures result.Fetched? ==> db.sent == old(db.sent) + [GridQuery.CountQuery(selectTable, FilterQuery())]
      ensures result.Fetched? ==> rowCount == CastInt(CountText(db.server.answer(GridQuery.CountQuery(selectTable, FilterQuery()))))
      ensures result.Fetched? ==> MySql.Carries(db.result, db.server.answer(GridQuery.CountQuery(selectTable, FilterQuery())))
      ensures result.Fetched? ==> LaidOut(out, result.rs.fields, result.rs.rows, useAjax, old(columnCount))
    {
      if result.Failed? {
        var e := db.Error();
        out := ErrorNotice(StripQuotes(e));
      } else if result.Done? {
        out := Aborted;
      } else {
        out := CountAndLayOut(result.rs, useAjax);
      }
    }

    /** The rest of printTable once the page query has returned rows: the count, then the layout. */
    method CountAndLayOut(rs: MySql.ResultSet, useAjax: string) returns (out: Output)
      requires Valid()
      requires hideFooter || resultsPerPage != 0
      requires rs.cursor == 0
      modifies this`rowCount, this`columnCount, db, rs
      ensures db.sent == old(db.sent) + [GridQuery.CountQuery(selectTable, FilterQuery())]
      ensures rowCount == CastInt(CountText(db.server.answer(GridQuery.CountQuery(selectTable, FilterQuery()))))
      ensures MySql.Carries(db.result, db.server.answer(GridQuery.CountQuery(selectTable, FilterQuery())))
      ensures LaidOut(out, rs.fields, rs.rows, useAjax, old(columnCount))
    {
      CountMatches();
      out := LayOut(rs, useAjax);
    }

    /** The first step of printTable: the limit is set for the current page and the page query is sent. */
    method QueryPage() returns (r: MySql.Reply)
      modifies this`limit, this`result, db
      ensures limit == Some(GridQuery.LimitOf(page, resultsPerPage))
      ensures db.sent == old(db.sent) + [PageSql()]
      ensures result == r && db.result == r && MySql.Carries(r, db.server.answer(PageSql()))
      ensures r.Fetched? ==> fresh(r.rs) && r.rs.cursor == 0
    {
      SetLimit((page - 1) * resultsPerPage, resultsPerPage);
      var q := GridQuery.PageQuery(selectFields, selectTable, FilterQuery(), order, limit);
      r := db.Query(q);
      result := r;
    }

    /** The count of printTable: selectOneValue of COUNT(*) with the page's predicate, cast to an integer. */
    method CountMatches()
      modifies this`rowCount, db
      ensures db.sent == old(db.sent) + [GridQuery.CountQuery(selectTable, FilterQuery())]
      ensures rowCount == CastInt(CountText(db.server.answer(GridQuery.CountQuery(selectTable, FilterQuery()))))
      ensures MySql.Carries(db.result, db.server.answer(GridQuery.CountQuery(selectTable, FilterQuery())))
    {
      var count := db.SelectOneValue("COUNT(*)", selectTable, FilterQuery(), "");
      rowCount := CastInt(count);
    }
  }
}
