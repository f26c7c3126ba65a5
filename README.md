# EyeDataGrid in Dafny

A model of the core of EyeDataGrid, a PHP data grid, and its MySQL adapter.

A page script creates a grid over an adapter. The constructor reads the
`page`, `order` and `filter` request parameters. The script then calls the
setters: query, hidden columns, captions, column types, page size, controls
and buttons. A single `printTable` call then:

- sets the LIMIT for the current page;
- sends the page's SELECT;
- shows an error notice when the server refuses the SELECT;
- otherwise counts the matching rows with `selectOneValue('COUNT(*)', …)`;
- lays out the header, one body row per fetched row, and the footer with
  its pagination.

The project has one module per concern:

- `Php` (php.dfy) holds the PHP primitives the code relies on: truthiness,
  `str_replace`, `implode`, `explode(…, 2)`, the `(int)` cast, and
  associative rows.
- `RequestState` (request.dfy) covers request parsing. It includes
  `parseInputCond`, its sanitiser, `setOrder`'s direction normalisation,
  and the state strings the emitted script sends back.
- `Placeholders` (placeholders.dfy) covers `parseVariables`: `%name%`
  tokens and the `%_P%` alias.
- `CellFormat` (format.dfy) covers the column types and the per-cell
  dispatch of the row loop.
- `GridQuery` (query.dfy) covers the filter predicate, the ORDER BY and
  LIMIT clauses, the page query and the count query.
- `Paging` (paging.dfy) covers `buildFooter`'s arithmetic and the row
  numbers.
- `GridHeader` (header.dfy) covers `buildHeader` and the column count.
- `MySql` (mysql.dfy) models the adapter class. Its SQL builders are
  functions. `query`, `resCalc`, `fetchAssoc` and `select` are methods on
  an `Adapter` class that keeps every statement sent and the last result.
  The server is a value of three uninterpreted functions: its answer to a
  statement, its error text, and its escaping.
- `Grid` (grid.dfy) holds the `DataGrid` class. Its fields are the grid's
  settings. Its setters, its constructor and `printTable` are methods.

HTML is modelled as structured records rather than markup: header cells,
body rows with formatted cells, and a footer record. Control markup and
link attributes are the exact strings the source builds, because
`parseVariables` works on them.

A few behaviours of the code are easy to misread:

- The sort direction is DESC only for the exact token `DESC`. Every other
  token, `asc` included, gives ASC.
- A TYPE_CHECK cell that is not checked shows its value. It does not show
  nothing.
- The sanitiser of `parseInputCond` writes `%` in place of what it
  matches; it does not strip anything. As written (EyeDataGrid.php:372),
  it replaces only the whole five-character sequence `'"<>\`, never a
  lone quote. The grid is modelled with the intended replacement of each
  of those characters (see Findings and the ParseInputCond line under
  "Left out").
- Filter and sort column names reach the SQL text as they are. No
  identifier is checked against the schema.
- The page query is sent before the count query.

Where PHP versions behave differently, the model follows PHP 7. There,
`implode` accepts its two arguments in either order. A mysqli function
given a boolean or a string where it expects a result or a link warns and
returns null. PHP 8 throws a TypeError in each of these places; the lines
under "Left out" name the members this affects.

## Model

| member | source | states |
|---|---|---|
| Php.SplitOnce | src/Fgsl/Eyedatagrid/EyeDataGrid.php:372 | `explode(':', s, 2)`: one or two parts. The first part has no delimiter. There are two parts exactly when the delimiter occurs. Joining the parts with the delimiter gives `s` back. |
| Php.SplitOnceOfJoin | src/Fgsl/Eyedatagrid/EyeDataGrid.php:372 | splitting `a:b`, where `a` has no `:`, gives exactly `[a, b]`, whatever `b` holds |
| Php.ReplaceAllAbsent | src/Fgsl/Eyedatagrid/EyeDataGrid.php:396 | `str_replace` leaves a string unchanged when the needle does not occur in it |
| Php.Get | src/Fgsl/Eyedatagrid/EyeDataGrid.php:401 | `$row[$key]` is null (`""`) when no entry has the key, and is the first entry's value when that entry has the key |
| Php.CastInt | src/Fgsl/Eyedatagrid/EyeDataGrid.php:96 | `(int)` skips leading white space (space, tab, newline, vertical tab, form feed, carriage return). A string whose remaining text does not start with a sign or a digit casts to 0. A negative result needs a `-` right after the white space. |
| Php.LeadingNumber | src/Fgsl/Eyedatagrid/EyeDataGrid.php:96 | the number at the head of a text is 0 when the text does not start with a sign or a digit, and negative only after a `-` |
| Php.CastIntSkipsSpace | src/Fgsl/Eyedatagrid/EyeDataGrid.php:96 | white space in front of a number does not change what `(int)` reads |
| Php.NatToStringDigits | src/Fgsl/Eyedatagrid/EyeDataGrid.php:688 | the decimal rendering of a non-negative integer in the LIMIT clause is made of digits only |
| Php.CastIntOfIntToString | src/Fgsl/Eyedatagrid/EyeDataGrid.php:96 | `(int)` of a rendered integer gives the integer back |
| RequestState.DirectionOfText | src/Fgsl/Eyedatagrid/EyeDataGrid.php:236-244 | the stored direction is DESC exactly when the token is `DESC`, and a written direction reads back as itself |
| RequestState.RequestedPageCases | src/Fgsl/Eyedatagrid/EyeDataGrid.php:96-104 | The page is at least 1. The limit is reset exactly when the cast parameter is at most 0, and then the page stays 1. Otherwise the page is the cast parameter. A parameter that is absent, or that after its leading white space does not start with a sign or a digit, resets. |
| RequestState.RequestedPageSkipsSpace | src/Fgsl/Eyedatagrid/EyeDataGrid.php:96-104 | white space in front of the page parameter changes neither the page nor the reset, so ` 5` asks for page 5 |
| RequestState.RequestedPageOfLink | src/Fgsl/Eyedatagrid/EyeDataGrid.php:96-104 | a page number written into the query string is read back as that page, without a reset |
| RequestState.SanitizeAsWrittenKeepsQuote | src/Fgsl/Eyedatagrid/EyeDataGrid.php:372 | the sanitiser as written lets `a'b` through unchanged, quote included (see Findings) |
| RequestState.Sanitize | src/Fgsl/Eyedatagrid/EyeDataGrid.php:372 | the intended sanitiser keeps the length, turns each of `'` `"` `<` `>` `\` into `%`, and keeps every other character in place |
| RequestState.SanitizeRemovesSpecials | src/Fgsl/Eyedatagrid/EyeDataGrid.php:372 | after sanitising no special character is left, and the sanitiser changes a string exactly when it holds one |
| RequestState.SanitizeKeeps | src/Fgsl/Eyedatagrid/EyeDataGrid.php:372 | a string without special characters passes the sanitiser unchanged |
| RequestState.ReplaceAllNotLonger | src/Fgsl/Eyedatagrid/EyeDataGrid.php:372 | `str_replace` with a replacement no longer than its needle never lengthens a string |
| RequestState.SanitizeAsWrittenClean | src/Fgsl/Eyedatagrid/EyeDataGrid.php:372 | if the sanitiser as written neither shortens a string nor leaves a special character in it, the string had none |
| RequestState.SanitizeAgrees | src/Fgsl/Eyedatagrid/EyeDataGrid.php:372 | the sanitiser as written and as intended give the same string exactly when the input holds none of `'` `"` `<` `>` `\`, and on such input both keep it |
| RequestState.ParseInputCond | src/Fgsl/Eyedatagrid/EyeDataGrid.php:370-373 | one or two parts. The column part has no `:`. Joining the parts with `:` gives the sanitised input, so any later `:` stays in the second part. |
| RequestState.OrderStateRoundTrip | src/Fgsl/Eyedatagrid/EyeDataGrid.php:892 | the `tblorder` string `column:DIR` is parsed back by the constructor into the same order |
| RequestState.FilterStateRoundTrip | src/Fgsl/Eyedatagrid/EyeDataGrid.php:893 | the `tblfilter` string `column:value` is parsed back into the same filter, even when the value holds `:` |
| Placeholders.NameLen | src/Fgsl/Eyedatagrid/EyeDataGrid.php:398 | the longest run of `[A-Za-z0-9_ -]` characters at the head of a string |
| Placeholders.TokenAt | src/Fgsl/Eyedatagrid/EyeDataGrid.php:398 | a found token is `%`, a name, `%` at the head of the text |
| Placeholders.Matches | src/Fgsl/Eyedatagrid/EyeDataGrid.php:398 | every match of `preg_match_all` is a whole `%name%` token |
| Placeholders.TokenNameOf | src/Fgsl/Eyedatagrid/EyeDataGrid.php:401 | removing the `%` of `%name%` gives the name |
| Placeholders.SubstituteAsWritten | src/Fgsl/Eyedatagrid/EyeDataGrid.php:398-401 | the loop as written replaces each match everywhere in the text, one match after the other |
| Placeholders.SubstituteAsWrittenMisreads | src/Fgsl/Eyedatagrid/EyeDataGrid.php:398-401 | for `%b%.%a%b%c%` the loop as written gives `B.%aBc%`, while one pass gives `B.AbC` (see Findings) |
| Placeholders.ExpandPlain | src/Fgsl/Eyedatagrid/EyeDataGrid.php:398-403 | a text without `%` is returned unchanged |
| Placeholders.ExpandLiteral | src/Fgsl/Eyedatagrid/EyeDataGrid.php:398-401 | plain text in front of the rest is copied unchanged by the substitution |
| Placeholders.TokenAtName | src/Fgsl/Eyedatagrid/EyeDataGrid.php:398 | `%name%` at the head of a text is recognised as a token with that name |
| Placeholders.ExpandToken | src/Fgsl/Eyedatagrid/EyeDataGrid.php:398-401 | a token at the head is replaced by the row's value under its name |
| Placeholders.ExpandRender | src/Fgsl/Eyedatagrid/EyeDataGrid.php:398-401 | in a template of literal text and `%name%` tokens, each token is replaced by `row[name]` and the literal text is kept, whatever the row values hold |
| Placeholders.MatchesToken | src/Fgsl/Eyedatagrid/EyeDataGrid.php:398 | a token at the head is a match, and matching goes on after it |
| Placeholders.MatchesLiteral | src/Fgsl/Eyedatagrid/EyeDataGrid.php:398 | text without `%` adds no match |
| Placeholders.MatchesRender | src/Fgsl/Eyedatagrid/EyeDataGrid.php:398 | the matches of a template are exactly its tokens, in order |
| Placeholders.SampleMatches | src/Fgsl/Eyedatagrid/EyeDataGrid.php:398 | the matches of `%b%.%a%b%c%` are `%b%`, `%a%` and `%c%` |
| Placeholders.SampleReplaceEach | src/Fgsl/Eyedatagrid/EyeDataGrid.php:400-401 | the loop as written turns `%b%.%a%b%c%` into `B.%aBc%` |
| Placeholders.SampleFirstReplacement | src/Fgsl/Eyedatagrid/EyeDataGrid.php:401 | the first `str_replace` of `%b%` also consumes the `%b%` that spans `%a%b%c%` |
| Placeholders.LaterTokensGone | src/Fgsl/Eyedatagrid/EyeDataGrid.php:401 | after that replacement neither `%a%` nor `%c%` occurs any more |
| Placeholders.SampleExpand | src/Fgsl/Eyedatagrid/EyeDataGrid.php:398-401 | one pass over the same text gives `B.AbC` |
| Placeholders.FillName | src/Fgsl/Eyedatagrid/EyeDataGrid.php:400-401 | the template with its tokens named `n` replaced by the text `v` and every other piece kept in place |
| Placeholders.ReplaceAllRender | src/Fgsl/Eyedatagrid/EyeDataGrid.php:401 | one `str_replace` of `%n%` over a template whose tokens are kept apart replaces exactly the tokens named `n`, whatever the replacement is |
| Placeholders.ReplaceAllAfterToken | src/Fgsl/Eyedatagrid/EyeDataGrid.php:401 | after the closing `%` of a token with another name, no `%n%` starts there and the rest is replaced as a template |
| Placeholders.ReplaceEachFills | src/Fgsl/Eyedatagrid/EyeDataGrid.php:398-401 | the replacements as written, one per token of a list that holds every token of a kept-apart template, give the filled template when no row value holds `%` |
| Placeholders.ReplaceEachAgrees | src/Fgsl/Eyedatagrid/EyeDataGrid.php:398-401 | on a template whose tokens are kept apart (some character outside the name characters lies between any two of them) and a row whose values hold no `%`, the loop as written gives the same text as the one-pass substitution |
| Placeholders.SampleNotApart | src/Fgsl/Eyedatagrid/EyeDataGrid.php:398-401 | the counterexample `%b%.%a%b%c%` is not kept apart, so the agreement does not reach it |
| Placeholders.ParseTextPlain | src/Fgsl/Eyedatagrid/EyeDataGrid.php:394-403 | a string with no `%` comes back unchanged, with or without a primary key |
| Placeholders.ParseTextAlias | src/Fgsl/Eyedatagrid/EyeDataGrid.php:394-401 | with a truthy primary key, `a%_P%b` becomes `a`, the row's primary-key value, `b` |
| Placeholders.ParseVariables | src/Fgsl/Eyedatagrid/EyeDataGrid.php:382-404 | an array is mapped element by element into an array of the same shape, and a string is substituted |
| Placeholders.ParseVariablesPlain | src/Fgsl/Eyedatagrid/EyeDataGrid.php:382-404 | a string or array without `%` anywhere comes back unchanged |
| CellFormat.FormatCell | src/Fgsl/Eyedatagrid/EyeDataGrid.php:765-832 | Untyped and unrecognised columns keep the value. Click and link columns link a truthy value and keep a falsy one. A check cell is the glyph exactly when the value is checked, and the value otherwise. An array column looks the value up. A custom column is the filled template. An image cell is the filled source with id `key-i`. |
| CellFormat.LinkCellPlainAction | src/Fgsl/Eyedatagrid/EyeDataGrid.php:771-779 | a truthy value in a click or link column whose action has no placeholder is linked to that action verbatim |
| CellFormat.CheckSpellings | src/Fgsl/Eyedatagrid/EyeDataGrid.php:797 | `1`, `yes` and `true` always check. With no extra value nothing else does. A non-empty extra value checks itself. |
| CellFormat.AllowsFilterByCode | src/Fgsl/Eyedatagrid/EyeDataGrid.php:513-522 | a column gets a filter box exactly when its type code is not one of the seven special types |
| CellFormat.VisibleEntries | src/Fgsl/Eyedatagrid/EyeDataGrid.php:758-762 | the kept entries are not hidden, every entry that is not hidden is kept, and nothing is added |
| CellFormat.FormatRow | src/Fgsl/Eyedatagrid/EyeDataGrid.php:758-836 | one cell per visible entry of the row |
| CellFormat.FormatRowCells | src/Fgsl/Eyedatagrid/EyeDataGrid.php:758-836 | the `k`-th cell is the `k`-th visible entry's value, formatted under its column's type |
| CellFormat.UntypedRow | src/Fgsl/Eyedatagrid/EyeDataGrid.php:758-835 | with no types set, the cells are the visible values, unchanged and in order |
| GridQuery.LikePattern | src/Fgsl/Eyedatagrid/EyeDataGrid.php:666-669 | a value holding `%` is used verbatim, and any other value is wrapped as `%value%` |
| GridQuery.LikePatternHasWildcard | src/Fgsl/Eyedatagrid/EyeDataGrid.php:666-669 | the pattern always holds a `%` and contains the value |
| GridQuery.FilterPredicate | src/Fgsl/Eyedatagrid/EyeDataGrid.php:660-675 | The LIKE term is added only when filters are allowed and one is set. It is `(where) AND term` with a where condition and just the term without one. |
| GridQuery.FilterPredicateEmpty | src/Fgsl/Eyedatagrid/EyeDataGrid.php:660-678 | the predicate is empty exactly when there is neither a where condition nor an applied filter, and a non-empty one is truthy, so `WHERE ` is added exactly then |
| GridQuery.LimitOf | src/Fgsl/Eyedatagrid/EyeDataGrid.php:657 | the row count is the page size, the offset is 0 on page 1 and never negative on a valid page |
| GridQuery.LimitOfNextPage | src/Fgsl/Eyedatagrid/EyeDataGrid.php:657 | the next page's offset is this page's offset plus its row count, so pages neither overlap nor leave gaps |
| GridQuery.PageQueryFilter | src/Fgsl/Eyedatagrid/EyeDataGrid.php:677-695 | the page query starts `SELECT fields FROM table WHERE predicate` for a non-empty predicate, and with the table and two spaces otherwise |
| GridQuery.CountQueryFilter | src/Fgsl/Eyedatagrid/EyeDataGrid.php:703 | the count query carries the same predicate, has no ORDER BY, and ends in `LIMIT 1`. Without a predicate it is exactly `SELECT COUNT(*) FROM table LIMIT 1`. |
| GridQuery.RequestFilterReachesQuery | src/Fgsl/Eyedatagrid/EyeDataGrid.php:114-117 | a filter read from the request becomes the LIKE term on its parsed column |
| Paging.PageCount | src/Fgsl/Eyedatagrid/EyeDataGrid.php:562 | `ceil(row_count / results_per_page)`, stated by the two bounds that define a ceiling, for either sign of the page size |
| Paging.CeilNegative | src/Fgsl/Eyedatagrid/EyeDataGrid.php:562 | the ceiling bounds for a negative page size |
| Paging.PageCountCases | src/Fgsl/Eyedatagrid/EyeDataGrid.php:562 | no rows make no pages, any row makes at least one page, and more rows than a page make at least two |
| Paging.WindowBounds | src/Fgsl/Eyedatagrid/EyeDataGrid.php:581-587 | for a page in range the window is `[max(1, page-10), min(page+10, pages)]`, holds the page, and is at most 21 pages wide |
| Paging.Window | src/Fgsl/Eyedatagrid/EyeDataGrid.php:581-597 | one entry per page from the window's first to its last page, in order, and none when the last comes before the first. The current page is text and every other page a link. |
| Paging.PageWindow | src/Fgsl/Eyedatagrid/EyeDataGrid.php:590-597 | the loop over the window builds exactly the window |
| Paging.PageWindowCurrentOnce | src/Fgsl/Eyedatagrid/EyeDataGrid.php:581-597 | for a page in range the window shows the current page exactly once, only pages that exist, and at most 21 of them |
| Paging.Options | src/Fgsl/Eyedatagrid/EyeDataGrid.php:616-622 | the drop-down list holds pages 1 to `pages` in order (none for no pages), and an option is selected exactly when it is the current page |
| Paging.OptionsSelectOne | src/Fgsl/Eyedatagrid/EyeDataGrid.php:616-622 | for a page in range exactly one option, the current page's, is selected |
| Paging.PageOptions | src/Fgsl/Eyedatagrid/EyeDataGrid.php:616-622 | the loop over the drop-down list builds exactly the page list |
| Paging.FooterOf | src/Fgsl/Eyedatagrid/EyeDataGrid.php:562-627 | The footer spans the columns and reports the count. It shows the first and last rows exactly when there are rows. The navigation appears exactly when the rows exceed a page: first/prev are live iff `page > 1`, next/last iff `page < pages`, and the window is the page window of the current page. The page list (pages 1 to `pages`, the current one selected) appears when there are several pages and it is not hidden; otherwise the page number; neither when there are no pages. |
| Paging.BuildFooter | src/Fgsl/Eyedatagrid/EyeDataGrid.php:562-627 | buildFooter past the hide_footer test builds exactly the footer of `FooterOf` |
| Paging.FirstShownIsFirstRow | src/Fgsl/Eyedatagrid/EyeDataGrid.php:747-749 | the loop's "first" number is the number of the page's first row, which is at least 1 |
| Paging.RowNumberFollowsLimit | src/Fgsl/Eyedatagrid/EyeDataGrid.php:743-745 | both branches give row `offset + i + 1` of the whole result, and the next page starts right after this one |
| GridHeader.SortOfferToggles | src/Fgsl/Eyedatagrid/EyeDataGrid.php:497-504 | the ordered column offers the other direction and every other column offers ASC. Following the link orders by that column in that direction, and the new header offers the opposite one. |
| GridHeader.FilterBoxOf | src/Fgsl/Eyedatagrid/EyeDataGrid.php:513-531 | A filter box exists exactly when filters are allowed and the type shows its value. It is open exactly when the filter is on this column with a truthy value, and then shows that value. A closed box is empty. |
| GridHeader.OpenFilterBoxUnique | src/Fgsl/Eyedatagrid/EyeDataGrid.php:524-531 | at most one column has an open filter box, and only with a non-empty value |
| GridHeader.HeadColumn | src/Fgsl/Eyedatagrid/EyeDataGrid.php:488-534 | a column cell has its caption override or the name, a sort link unless ordering is hidden, the sort icon only on the ordered column, and its filter box |
| GridHeader.VisibleFields | src/Fgsl/Eyedatagrid/EyeDataGrid.php:479-486 | the kept names are not hidden, every name that is not hidden is kept, and nothing is added |
| GridHeader.VisibleFieldsSnoc | src/Fgsl/Eyedatagrid/EyeDataGrid.php:479-486 | one more field adds itself to the visible fields unless it is hidden |
| GridHeader.HeaderRowCells | src/Fgsl/Eyedatagrid/EyeDataGrid.php:458-546 | the header row is the row-number and check-all cells, one cell per visible field in field order, and the controls cell |
| GridHeader.BuildHeader | src/Fgsl/Eyedatagrid/EyeDataGrid.php:462-545 | the cells are the header row of the fields, and the count kept by the increments and decrements equals the number of cells |
| GridHeader.KeysOfVisible | src/Fgsl/Eyedatagrid/EyeDataGrid.php:758-762 | the column names of a row's visible entries are the visible ones among its column names |
| GridHeader.RowMatchesHeader | src/Fgsl/Eyedatagrid/EyeDataGrid.php:758-762 | a row whose keys are the result's fields has one visible entry per visible header column, in the same order |
| MySql.ResultSet.Fetch | src/Fgsl/Eyedatagrid/EyeMySQLAdap.php:268 | the next row and a cursor moved past it, or null once every row was read |
| MySql.SelectSqlShape | src/Fgsl/Eyedatagrid/EyeMySQLAdap.php:185-194 | `SELECT f FROM t`, then WHERE, ORDER BY and LIMIT in that order. Each clause is present when its argument is truthy, and a falsy argument leaves no trace: the statement is then the same with that clause dropped. |
| MySql.DeleteSqlShape | src/Fgsl/Eyedatagrid/EyeMySQLAdap.php:248-253 | ``DELETE FROM `t` ``, then WHERE and LIMIT. Each is present when its argument is truthy, and a falsy argument leaves no trace. |
| MySql.DeleteSqlDefault | src/Fgsl/Eyedatagrid/EyeMySQLAdap.php:248-251 | with the default arguments (no condition, limit 1) the statement deletes one row of the table |
| MySql.Assignments | src/Fgsl/Eyedatagrid/EyeMySQLAdap.php:141-143 | one `` `f` = 'escaped(v)' `` pair per entry, in array order |
| MySql.BuildAssignments | src/Fgsl/Eyedatagrid/EyeMySQLAdap.php:141-143 | the `foreach` builds exactly those pairs |
| MySql.Escaped | src/Fgsl/Eyedatagrid/EyeMySQLAdap.php:166-167 | every value escaped, every key kept in place |
| MySql.EscapeValues | src/Fgsl/Eyedatagrid/EyeMySQLAdap.php:166-167 | the `foreach` escapes the values in place, giving exactly that array |
| MySql.Keys | src/Fgsl/Eyedatagrid/EyeMySQLAdap.php:169 | `array_keys`: the keys in order |
| MySql.Values | src/Fgsl/Eyedatagrid/EyeMySQLAdap.php:169 | the values in order |
| MySql.InsertListsAlign | src/Fgsl/Eyedatagrid/EyeMySQLAdap.php:169 | the INSERT's column list and value list have one item per entry, and the i-th column is the key of the i-th escaped value |
| MySql.EscapeAsWritten | src/Fgsl/Eyedatagrid/EyeMySQLAdap.php:344-347 | escapeString as written returns an empty text, whatever it is given (see Findings) |
| MySql.InsertAsWrittenBlanks | src/Fgsl/Eyedatagrid/EyeMySQLAdap.php:166-169 | as written, every value of an INSERT is sent as `''` |
| MySql.UpdateAsWrittenBlanks | src/Fgsl/Eyedatagrid/EyeMySQLAdap.php:141-143 | as written, every pair of an UPDATE sets its column to `''` |
| MySql.InsertAsWrittenExample | src/Fgsl/Eyedatagrid/EyeMySQLAdap.php:161-173 | as written, inserting the name `Ann` sends ``INSERT INTO `people`(`name`) VALUES ('')`` |
| MySql.Adapter.Query | src/Fgsl/Eyedatagrid/EyeMySQLAdap.php:115-125 | the statement is sent, and the reply carries the server's answer and is kept as the last result |
| MySql.Adapter.ResCalc | src/Fgsl/Eyedatagrid/EyeMySQLAdap.php:429-438 | a falsy argument gives the last result, a result set is used as it is, and any other string is run as a query first |
| MySql.Adapter.FetchAssoc | src/Fgsl/Eyedatagrid/EyeMySQLAdap.php:265-269 | The next row of the result set that resCalc picks, and the cursor steps past it; a false or true reply gives no row. A query string is sent first: its reply becomes the last result, a new result set whose cursor is past the row returned, and the previous result set is left as it was. |
| MySql.Adapter.CountRows | src/Fgsl/Eyedatagrid/EyeMySQLAdap.php:355-359 | the number of rows of the result set that resCalc picks, 0 for a false or true reply; a query string is sent first, and its reply, a new result set not yet read, becomes the last result |
| MySql.Adapter.Select | src/Fgsl/Eyedatagrid/EyeMySQLAdap.php:185-206 | the SELECT is sent and its reply becomes the last result; the result is every row of a non-empty answer in fetch order, else false, and the result set is left read to its end |
| MySql.Adapter.SelectOne | src/Fgsl/Eyedatagrid/EyeMySQLAdap.php:217-222 | the select is sent with limit `1` and its reply, read to its end, becomes the last result; the result is its first row or null |
| MySql.Adapter.SelectOneValue | src/Fgsl/Eyedatagrid/EyeMySQLAdap.php:233-238 | that first row's entry under the requested field, or null; the `LIMIT 1` reply, read to its end, becomes the last result |
| MySql.Adapter.FieldNameArray | src/Fgsl/Eyedatagrid/EyeMySQLAdap.php:314-326 | the field names of the result set, in order |
| MySql.Adapter.Error | src/Fgsl/Eyedatagrid/EyeMySQLAdap.php:398-401 | the server's error text for the last statement sent |
| MySql.Adapter.Update | src/Fgsl/Eyedatagrid/EyeMySQLAdap.php:136-152 | the UPDATE of the escaped pairs is sent, and the result is true unless the server refused it |
| MySql.Adapter.Insert | src/Fgsl/Eyedatagrid/EyeMySQLAdap.php:161-173 | the INSERT of the escaped row is sent, and the result is true unless the server refused it |
| MySql.Adapter.Delete | src/Fgsl/Eyedatagrid/EyeMySQLAdap.php:248-257 | the DELETE is sent (by default with no condition and a limit of one row), and the result is true unless the server refused it |
| Grid.LinkActionDistinct | src/Fgsl/Eyedatagrid/EyeDataGrid.php:413-421 | two links of the same kind are equal only for equal actions, and a click link never equals a plain link whose target has no `"` |
| Grid.LinkActionPlain | src/Fgsl/Eyedatagrid/EyeDataGrid.php:413-421 | the link attributes add no `%` to the action |
| Grid.StandardControlPlain | src/Fgsl/Eyedatagrid/EyeDataGrid.php:298-314 | a standard control without `%` in its link, icon or text is shown unchanged in every row |
| Grid.CustomControlPlain | src/Fgsl/Eyedatagrid/EyeDataGrid.php:325-338 | the same for a custom control and its link, text and image source |
| Grid.TextControlAround | src/Fgsl/Eyedatagrid/EyeDataGrid.php:335 | a text control around a link target `a p b` is its fixed markup, then `a`, `p`, `b` and the text |
| Grid.TextControlPrimaryKey | src/Fgsl/Eyedatagrid/EyeDataGrid.php:325-338 | a text control linking to `a%_P%b` shows, in each row, a link to `a`, the row's primary key, `b` |
| Grid.StripQuotesAsWrittenKeepsApostrophe | src/Fgsl/Eyedatagrid/EyeDataGrid.php:698 | the quote stripping as written keeps the apostrophe of `it's` (see Findings) |
| Grid.StripQuotesAgree | src/Fgsl/Eyedatagrid/EyeDataGrid.php:698 | as written, a text without an apostrophe is unchanged, a lone `"` included; on a text without quotes the stripping as written and as intended agree |
| Grid.StripQuotes | src/Fgsl/Eyedatagrid/EyeDataGrid.php:698 | no quote is left, a text without quotes is unchanged, and nothing is added |
| Grid.StripQuotesChars | src/Fgsl/Eyedatagrid/EyeDataGrid.php:698 | a character is in the stripped text exactly when it is in the text and is not a quote |
| Grid.StripQuotesAppend | src/Fgsl/Eyedatagrid/EyeDataGrid.php:698 | stripping distributes over concatenation, so the text around a quote is kept in order |
| Grid.ScriptStateRoundTrip | src/Fgsl/Eyedatagrid/EyeDataGrid.php:887-899 | the page, order and filter the script sends back are read by the next request as the grid's current page, order and filter, for column names without `:` and texts without a character the sanitiser replaces or the unencoded query string changes (`&`, `+`, `#`, `%`, control characters) |
| Grid.RowOutputsSnoc | src/Fgsl/Eyedatagrid/EyeDataGrid.php:733-843 | one more fetched row adds its own body row at the end |
| Grid.RowOutputsPointwise | src/Fgsl/Eyedatagrid/EyeDataGrid.php:733-843 | one body row per fetched row, the `k`-th built from the `k`-th row with index `k` |
| Grid.RowLinesUpWithHeader | src/Fgsl/Eyedatagrid/EyeDataGrid.php:751-838 | a body row spans exactly the header's columns, and its `k`-th cell formats the value of the `k`-th visible header column |
| Grid.ConsecutiveRows | src/Fgsl/Eyedatagrid/EyeDataGrid.php:735-745 | consecutive rows alternate odd and even, and their numbers follow one another |
| Grid.BuildControls | src/Fgsl/Eyedatagrid/EyeDataGrid.php:638-648 | every control, in order, with its placeholders filled from the row |
| Grid.DataGrid.constructor | src/Fgsl/Eyedatagrid/EyeDataGrid.php:86-119 | The settings start at their defaults. The image path is the package's own when none is given. The page, limit, order and filter come from the request parameters. |
| Grid.DataGrid.HidePageSelectList | src/Fgsl/Eyedatagrid/EyeDataGrid.php:126-129 | sets the flag |
| Grid.DataGrid.AllowFilters | src/Fgsl/Eyedatagrid/EyeDataGrid.php:136-139 | sets the flag |
| Grid.DataGrid.HideOrder | src/Fgsl/Eyedatagrid/EyeDataGrid.php:146-149 | sets the flag |
| Grid.DataGrid.ShowCheckboxes | src/Fgsl/Eyedatagrid/EyeDataGrid.php:156-159 | sets the flag |
| Grid.DataGrid.HideHeader | src/Fgsl/Eyedatagrid/EyeDataGrid.php:166-169 | sets the flag |
| Grid.DataGrid.HideFooter | src/Fgsl/Eyedatagrid/EyeDataGrid.php:176-179 | sets the flag |
| Grid.DataGrid.ShowReset | src/Fgsl/Eyedatagrid/EyeDataGrid.php:186-189 | sets the reset caption, `Reset Table` when none is given |
| Grid.DataGrid.ShowRowNumber | src/Fgsl/Eyedatagrid/EyeDataGrid.php:196-199 | sets the flag |
| Grid.DataGrid.SetQuery | src/Fgsl/Eyedatagrid/EyeDataGrid.php:209-216 | sets the fields, table, primary key and where condition, the last two empty when not given |
| Grid.DataGrid.SetFilter | src/Fgsl/Eyedatagrid/EyeDataGrid.php:224-228 | sets the filter |
| Grid.DataGrid.SetOrder | src/Fgsl/Eyedatagrid/EyeDataGrid.php:236-244 | sets the order, DESC exactly for the token `DESC` |
| Grid.DataGrid.HideColumn | src/Fgsl/Eyedatagrid/EyeDataGrid.php:251-254 | appends the column to the hidden ones |
| Grid.DataGrid.SetColumnHeader | src/Fgsl/Eyedatagrid/EyeDataGrid.php:262-265 | sets one caption and keeps the others, and the column then shows that caption |
| Grid.DataGrid.SetColumnType | src/Fgsl/Eyedatagrid/EyeDataGrid.php:275-278 | sets one column's type, replacing any earlier one, and keeps the others; the type code of a named type always stands for that type |
| Grid.DataGrid.SetResultsPerPage | src/Fgsl/Eyedatagrid/EyeDataGrid.php:285-289 | sets the page size and resets the limit to the first page of that size |
| Grid.DataGrid.AddStandardControl | src/Fgsl/Eyedatagrid/EyeDataGrid.php:298-314 | appends the edit or delete control with its icon, and adds nothing for any other type |
| Grid.DataGrid.AddCustomControl | src/Fgsl/Eyedatagrid/EyeDataGrid.php:325-338 | appends the image or text control |
| Grid.DataGrid.ShowCreateButton | src/Fgsl/Eyedatagrid/EyeDataGrid.php:347-353 | sets the create button's link and caption |
| Grid.DataGrid.AddRowSelect | src/Fgsl/Eyedatagrid/EyeDataGrid.php:360-363 | sets the row-select script |
| Grid.DataGrid.SetLimit | src/Fgsl/Eyedatagrid/EyeDataGrid.php:429-433 | sets the limit |
| Grid.DataGrid.BuildRow | src/Fgsl/Eyedatagrid/EyeDataGrid.php:735-840 | the body row of the `i`-th fetched row is the row output for it |
| Grid.DataGrid.PrintRows | src/Fgsl/Eyedatagrid/EyeDataGrid.php:731-843 | The loop fetches every row of the result set, and the rows are the row outputs of the fetched rows in fetch order. "first" is the first number set and "last" the number of the last row (0 without rows). No query is sent. |
| Grid.DataGrid.AppendRow | src/Fgsl/Eyedatagrid/EyeDataGrid.php:733-843 | one pass of the row loop adds the next row's output after the earlier ones |
| Grid.DataGrid.ShownRange | src/Fgsl/Eyedatagrid/EyeDataGrid.php:733-750 | 0 and 0 when the count is 0 or nothing was fetched; otherwise, on a valid page of positive size, the numbers of the page's first and last fetched rows |
| Grid.DataGrid.PrintHeader | src/Fgsl/Eyedatagrid/EyeDataGrid.php:452-547 | nothing when the header is hidden, and then the column count is kept. Otherwise the header row of the result's fields, whose length becomes the column count. |
| Grid.DataGrid.PrintBody | src/Fgsl/Eyedatagrid/EyeDataGrid.php:728-844 | the no-results row when the count is 0, else one row per fetched row; "first" and "last" are the shown range of the fetched rows; the adapter sends nothing and keeps its last result |
| Grid.DataGrid.PrintFooter | src/Fgsl/Eyedatagrid/EyeDataGrid.php:556-631 | no footer when it is hidden; otherwise exactly the footer of `FooterOf` for the column count, row count, page size, page, page-list flag and the given first and last numbers |
| Grid.DataGrid.LayOut | src/Fgsl/Eyedatagrid/EyeDataGrid.php:705-850 | the script state unless the request is an Ajax one, the buttons, the header, the body, and the footer of `FooterOf` over the shown range of the fetched rows; no query is sent and the adapter's last result is kept |
| Grid.DataGrid.QueryPage | src/Fgsl/Eyedatagrid/EyeDataGrid.php:657-695 | the limit is set for the current page, and the page query is sent; its reply is kept by the grid and is the adapter's last result |
| Grid.DataGrid.CountMatches | src/Fgsl/Eyedatagrid/EyeDataGrid.php:703 | the count query with the page's predicate is sent, its reply becomes the adapter's last result, and the row count is the `(int)` of its value |
| Grid.DataGrid.CountAndLayOut | src/Fgsl/Eyedatagrid/EyeDataGrid.php:703-850 | the count query, whose reply stays the adapter's last result, then the table laid out from the page's result |
| Grid.DataGrid.Conclude | src/Fgsl/Eyedatagrid/EyeDataGrid.php:696-851 | A refused page query gives the error notice with the stripped error text, and nothing else is sent. A true reply gives no table. A result set gives the count and the table, and the count's reply ends as the adapter's last result. |
| Grid.DataGrid.PrintTable | src/Fgsl/Eyedatagrid/EyeDataGrid.php:654-851 | The limit is set for the page and the page query is sent. A refusal gives only the error notice with the quote-free error text, and a true reply gives no table; either way the adapter's last result is that reply. Otherwise the count query with the same predicate sets the row count and becomes the adapter's last result, and the table is laid out from the fetched fields and rows. |

## Left out

- Database I/O: the server is a value of three uninterpreted functions (answer, error text, escaping). Connecting, closing, `fetchRow`, `fetchOne`, `fieldName`, `countFields`, `insertId`, `affectedRows`, `freeResult` and `dumpInfo` are not modelled, because the grid does not use them.
- The `E_USER_NOTICE` that `query` triggers on a failed statement is not modelled; it is a side channel only.
- Image files: `file_get_contents` plus `base64_encode` of an icon is the uninterpreted function `images` of the grid. The sort, filter, arrow and check icons of the header, footer and cells are not part of the records.
- The request superglobals: `$_GET` is passed to the constructor as a `Request` value, and `useajax` is passed to `PrintTable`. `useAjaxTable` and the JavaScript text of `printJavascript` are not modelled, because they only print fixed script text; only the script's state (page, `tblorder`, `tblfilter`) is modelled.
- Grid.DataGrid.constructor: `packageImages` stands for `realpath(__DIR__ . '/../../..') . '/images/'`, which depends on the file system.
- CellFormat.FormatCell: date, percentage, currency and function cells keep the inputs of `date`/`strtotime`, `round`, `number_format` and `call_user_func`, because those are floating-point, locale or foreign code. The function-call arguments are still substituted.
- HTML markup is modelled as records. Only the control markup and link attributes, which `parseVariables` works on, are exact strings.
- PHP's loose `==` between strings (numeric strings compare as numbers) is modelled as exact equality in `setOrder`, the TYPE_CHECK test, `in_array` for hidden columns and the filter-column test.
- SQL NULL values read from a row are modelled as `""`.
- Grid.DataGrid.PrintTable: requires a non-zero page size unless the footer is hidden, because `buildFooter` divides by it. In PHP 7 that division only warns and gives INF or NAN pages, after which the page-list loop need not end (PHP 8 throws a DivisionByZeroError).
- Paging.PageCount: requires a non-zero page size, because the division by a zero page size gives no page count (see the PrintTable line).
- Grid.DataGrid.Conclude: a page query answered `true` is the output `Aborted`, with no count query and no table. In the code the count query is still sent. With the header shown, `fieldNameArray(true)` then sends the query `1`, gets `false`, and stops with a fatal error on `fetch_fields`. With the header hidden, `buildHeader` returns before it reaches `fieldNameArray`. The table is then printed with its footer and without fetched rows: the row fetch sends `1` and gets no row, and a count of 0 gives the no-results row. mysqli never answers a SELECT with `true`, so this path is not modelled.
- Grid.DataGrid.Conclude: strips the error text with the intended `StripQuotes` (every `'` and `"` removed), not with the code as written, which removes only the sequence `'"` (see Findings). `StripQuotesAgree` proves that the two agree on every text without quotes.
- Grid.ScriptStateRoundTrip: the URL the script builds by plain concatenation is not modelled. A filter value or column with `&`, `+`, `#`, `%` or a control character reaches the next request changed (`dept:R&D` comes back as `dept:R`), so the round trip is stated only for texts without them.
- Grid.DataGrid.SetResultsPerPage: takes an integer, so the `(int)` cast of its argument is not modelled.
- Grid.DataGrid.SetColumnType: the criteria are typed per column type rather than two untyped values.
- MySql.Adapter.FieldNameArray: takes a result set; the branch that runs a query string first is not modelled, because the grid always passes its result.
- Rows with zero columns and result sets whose row keys differ from their field names are not constrained; `RowLinesUpWithHeader` states the alignment for rows whose keys are the field names.
- The reversed `implode` argument order at EyeMySQLAdap.php lines 148, 169 and 188 is modelled as the intended join, which is what PHP 7 does with it; PHP 8 rejects that order.
- Php.CastInt: reads leading white space, a sign and decimal digits. It does not model the forms with a fraction or an exponent that PHP 7.1 and later also read (`"1e1"` casts to 10). It does not model the saturation at PHP_INT_MAX of a longer numeral either, nor the LIMIT text that is then printed as a float.
- Placeholders.ParseText: fills tokens in one left-to-right pass (`Expand`), not with the `str_replace` calls of lines 400-401 one after the other (`ReplaceEach`). `ReplaceEachAgrees` proves the two give the same text on every template whose tokens are kept apart and whose row values hold no `%`. On other input the model gives the intended text, and `SubstituteAsWrittenMisreads` shows the difference (see Findings).
- Placeholders.ParseVariables: fills each string of the template with `ParseText`, so the one-pass filling of the ParseText line applies.
- CellFormat.FormatCell: fills script, link, image, custom and function-argument templates with `ParseText` and `ParseVariables`, so the one-pass filling of the ParseText line applies.
- Grid.BuildControls: fills the control templates with `ParseText`, so the one-pass filling of the ParseText line applies.
- Grid.DataGrid.BuildRow: builds its cells and controls from `FormatCell` and `BuildControls`, so the one-pass filling of the ParseText line applies.
- Grid.DataGrid.AppendRow: appends a row built by `BuildRow`, so the one-pass filling of the ParseText line applies.
- Grid.DataGrid.PrintRows: its rows are built by `BuildRow`, so the one-pass filling of the ParseText line applies.
- Grid.DataGrid.PrintBody: its rows come from `PrintRows`, so the one-pass filling of the ParseText line applies.
- Grid.DataGrid.LayOut: its body comes from `PrintBody`, so the one-pass filling of the ParseText line applies.
- Grid.DataGrid.CountAndLayOut: lays out with `LayOut`, so the one-pass filling of the ParseText line applies.
- Grid.DataGrid.PrintTable: lays out with `LayOut` and strips errors as `Conclude` does, so the ParseText and Conclude lines apply.
- RequestState.ParseInputCond: sanitises with the intended `Sanitize` (each of `'` `"` `<` `>` `\` becomes `%`), not with the code as written, which replaces only the whole sequence `'"<>\` (see Findings). `SanitizeAgrees` proves the two give the same string exactly when the input holds none of those characters.
- Grid.DataGrid.constructor: reads the order and the filter through `ParseInputCond`, so the sanitiser line of ParseInputCond applies.
- MySql.Adapter.FetchAssoc: a `false` or `true` reply gives no row, as in PHP 7, where `mysqli_fetch_assoc` on a boolean warns and returns null. PHP 8 throws a TypeError there, and that is not modelled.
- MySql.Adapter.CountRows: a `false` or `true` reply counts 0 rows, as in PHP 7, where `mysqli_num_rows` on a boolean warns and returns null. PHP 8 throws a TypeError there.
- MySql.Adapter.Select: a refused SELECT counts 0 rows and gives `false`, as in PHP 7. In PHP 8 its `countRows` throws.
- MySql.Adapter.SelectOne: a refused SELECT gives no row, as PHP 7's `false[0]` does. In PHP 8 the `select` it calls throws first.
- MySql.Adapter.SelectOneValue: a refused SELECT gives "", as in PHP 7. In PHP 8 the `select` it calls throws first.
- Grid.DataGrid.CountMatches: a refused count query gives the row count 0, as in PHP 7. In PHP 8 the `select` behind it throws.
- mysqli's exception reporting mode, the default since PHP 8.1, is not modelled: a refused statement is a `false` reply, as under PHP 7.
- MySql.Adapter.Update: sends each value escaped by the server's escaping, which is the intended call. As written (EyeMySQLAdap.php:346) every value is sent as `''`, which `UpdateAsWrittenBlanks` states (see Findings).
- MySql.Adapter.Insert: sends each value escaped by the server's escaping, which is the intended call. As written every value is sent as `''`, which `InsertAsWrittenBlanks` states (see Findings).
- `update` and `insert` test `count($values) < 0`, which never holds, so that branch is left out.

## Findings

| source | as written | input that shows it | evidently intended | confidence | as-written member | corrected member |
|---|---|---|---|---|---|---|
| src/Fgsl/Eyedatagrid/EyeDataGrid.php:372 | the pattern `[\'"\<\>\\]` takes `[` and `]` as delimiters, so it matches only the five-character sequence `'"<>\` | the order parameter `a'b` passes through with its quote | each of `'` `"` `<` `>` `\` replaced by `%` | high, not executed | RequestState.SanitizeAsWrittenKeepsQuote | RequestState.SanitizeRemovesSpecials |
| src/Fgsl/Eyedatagrid/EyeDataGrid.php:698 | the pattern `[\'"]` takes `[` and `]` as delimiters, so it removes only the sequence `'"` from the error text | the error text `it's` keeps its apostrophe and ends the `alert('…')` string early | every `'` and `"` removed | high, not executed | Grid.StripQuotesAsWrittenKeepsApostrophe | Grid.StripQuotesChars |
| src/Fgsl/Eyedatagrid/EyeDataGrid.php:398-401 | each match is replaced everywhere with `str_replace`, one after the other, so a later replacement can consume text that spans two tokens | `%b%.%a%b%c%` with b, a, c = B, A, C gives `B.%aBc%` | one left-to-right pass giving `B.AbC` | high, not executed | Placeholders.SubstituteAsWrittenMisreads | Placeholders.ExpandRender |
| src/Fgsl/Eyedatagrid/EyeMySQLAdap.php:346 | `mysqli_real_escape_string($str, $this->link)` passes the string where the link belongs; PHP 7 warns and returns null, which the statement reads as an empty text | inserting the name `Ann` sends ``INSERT INTO `people`(`name`) VALUES ('')`` | `mysqli_real_escape_string($this->link, $str)` | high, not executed | MySql.InsertAsWrittenExample | MySql.InsertListsAlign |
