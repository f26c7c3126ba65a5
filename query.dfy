/**
  The SQL text printTable composes from the grid state: the filter
  predicate (the fixed where condition and the LIKE filter), the ORDER BY
  and LIMIT clauses, the page's SELECT, and the COUNT(*) query that counts
  the rows matching the same predicate.
 */
module GridQuery {
  import opened Php
  import opened RequestState
  import MySql

  /** The LIKE pattern of a filter value: used verbatim when it holds `%`, else wrapped in `%` on both sides. */
  function LikePattern(v: string): (p: string)
    ensures '%' in v ==> p == v
    ensures '%' !in v ==> p == "%" + v + "%"
  {
    if '%' !in v then "%" + v + "%" else v
  }

  /** The LIKE pattern always contains the filter value and holds a `%`, so it matches at least what the value matches. */
  lemma LikePatternHasWildcard(v: string)
    ensures '%' in LikePattern(v)
    ensures Contains(LikePattern(v), v)
  {
    var p := LikePattern(v);
    if '%' !in v {
      assert p[0] == '%';
      assert p[1..] == v + "%";
      assert v <= p[1..];
    } else {
      assert v <= p;
    }
  }

  /** The LIKE term of a filter. */
  function LikeTerm(f: Filter): string
  {
    "(`" + f.column + "` LIKE '" + LikePattern(f.value) + "')"
  }

  /**
    `$filter_query`: the where condition in parentheses, then (only when
    filters are allowed and one is set) the LIKE term, joined by ` AND `
    when both are there.
   */
  function FilterPredicate(where: string, allowFilters: bool, filter: Option<Filter>): (fq: string)
    ensures !(allowFilters && filter.Some?) ==> fq == (if Truthy(where) then "(" + where + ")" else "")
    ensures allowFilters && filter.Some? && Truthy(where) ==> fq == "(" + where + ") AND " + LikeTerm(filter.value)
    ensures allowFilters && filter.Some? && !Truthy(where) ==> fq == LikeTerm(filter.value)
  {
    var base := if Truthy(where) then "(" + where + ")" else "";
    if allowFilters && filter.Some? then
      (if Truthy(where) then base + " AND " else base) + LikeTerm(filter.value)
    else base
  }

  /** The predicate is empty exactly when there is neither a where condition nor an applied filter. */
  lemma FilterPredicateEmpty(where: string, allowFilters: bool, filter: Option<Filter>)
    ensures FilterPredicate(where, allowFilters, filter) == "" <==> !Truthy(where) && !(allowFilters && filter.Some?)
    ensures Truthy(FilterPredicate(where, allowFilters, filter)) <==> FilterPredicate(where, allowFilters, filter) != ""
  {
    var fq := FilterPredicate(where, allowFilters, filter);
    if fq != "" {
      assert fq[0] == '(';
    }
  }

  /** `$filter`: `WHERE ` and the predicate, or nothing when the predicate is empty. */
  function WhereClause(fq: string): string
  {
    if Truthy(fq) then "WHERE " + fq else ""
  }

  /** `$order`: ``ORDER BY `column` DIR`` when an order is set. */
  function OrderClause(order: Option<Order>): string
  {
    if order.Some? then "ORDER BY `" + order.value.column + "` " + DirectionText(order.value.direction) else ""
  }

  /** The limit printTable sets for a page: skip the earlier pages, take one page of rows. */
  function LimitOf(page: int, rpp: int): (l: Limit)
    ensures l.high == rpp
    ensures page >= 1 && rpp >= 0 ==> l.low >= 0
    ensures page == 1 ==> l.low == 0
  {
    Limit((page - 1) * rpp, rpp)
  }

  /** Consecutive pages take consecutive, non-overlapping windows of rows. */
  lemma LimitOfNextPage(page: int, rpp: int)
    ensures LimitOf(page + 1, rpp).low == LimitOf(page, rpp).low + LimitOf(page, rpp).high
  {
    assert page * rpp == (page - 1) * rpp + rpp;
  }

  /** `$limit`: `LIMIT low, high`, or nothing when no limit is set. */
  function LimitClause(limit: Option<Limit>): string
  {
    if limit.Some? then "LIMIT " + IntToString(limit.value.low) + ", " + IntToString(limit.value.high) else ""
  }

  /** The statement printTable runs: the SELECT, the WHERE, the ORDER BY and the LIMIT, separated by single spaces. */
  function PageQuery(fields: string, table: string, fq: string, order: Option<Order>, limit: Option<Limit>): string
  {
    "SELECT " + fields + " FROM " + table + " " + WhereClause(fq) + " " + OrderClause(order) + " " + LimitClause(limit)
  }

  /** The statement that counts the matching rows: the same predicate, no order, selectOne's `LIMIT 1`. */
  function CountQuery(table: string, fq: string): string
  {
    MySql.SelectSql(MySql.Expr("COUNT(*)"), table, fq, "", "1")
  }

  /**
    The page query filters by the predicate: `WHERE` and the predicate
    follow the table when the predicate is non-empty; otherwise the table
    is followed by the two spaces around the missing WHERE.
   */
  lemma PageQueryFilter(fields: string, table: string, fq: string, order: Option<Order>, limit: Option<Limit>)
    ensures Truthy(fq) ==> ("SELECT " + fields + " FROM " + table + " WHERE " + fq) <= PageQuery(fields, table, fq, order, limit)
    ensures !Truthy(fq) ==> ("SELECT " + fields + " FROM " + table + "  ") <= PageQuery(fields, table, fq, order, limit)
  {
    var head := "SELECT " + fields + " FROM " + table;
    var front := head + " " + WhereClause(fq);
    var x := if Truthy(fq) then head + " WHERE " + fq else head + "  ";
    if Truthy(fq) {
      assert x == head + " " + ("WHERE " + fq);
      MySql.Affixes(x, "");
      assert x <= front;
      PrefixExtend(x, front, " ");
    } else {
      assert x == front + " ";
      MySql.Affixes(x, "");
    }
    PrefixExtend(x, front + " ", OrderClause(order));
    PrefixExtend(x, front + " " + OrderClause(order), " ");
    PrefixExtend(x, front + " " + OrderClause(order) + " ", LimitClause(limit));
  }

  /** A prefix stays a prefix when text is appended. */
  lemma PrefixExtend(x: string, y: string, z: string)
    requires x <= y
    ensures x <= y + z
  {
    assert (y + z)[..|y|] == y;
  }

  /**
    The count query filters by the same predicate as the page query, has no
    ORDER BY, and ends in selectOne's `LIMIT 1`.
   */
  lemma CountQueryFilter(table: string, fq: string)
    ensures Truthy(fq) ==> ("SELECT COUNT(*) FROM " + table + " WHERE " + fq) <= CountQuery(table, fq)
    ensures !Truthy(fq) ==> CountQuery(table, fq) == "SELECT COUNT(*) FROM " + table + " LIMIT 1"
    ensures MySql.EndsWith(CountQuery(table, fq), " LIMIT 1")
  {
    var q := CountQuery(table, fq);
    var head := "SELECT " + MySql.FieldText(MySql.Expr("COUNT(*)")) + " FROM " + table;
    assert Truthy("1") && !Truthy("");
    MySql.SelectSqlShape(MySql.Expr("COUNT(*)"), table, fq, "", "1");
    CountHead(table);
    assert " LIMIT " + "1" == " LIMIT 1";
    if !Truthy(fq) {
      assert q == head + " LIMIT 1";
    }
  }

  /** The head of the count query, spelled out. */
  lemma CountHead(table: string)
    ensures "SELECT " + MySql.FieldText(MySql.Expr("COUNT(*)")) + " FROM " + table == "SELECT COUNT(*) FROM " + table
  {
    assert "SELECT " + "COUNT(*)" + " FROM " == "SELECT COUNT(*) FROM ";
  }

  /** A filter read from the request reaches the query as the LIKE term on that column, with the sanitised value. */
  lemma RequestFilterReachesQuery(raw: string)
    requires Truthy(raw)
    ensures var f := FilterParam(raw);
      f.Some? && FilterPredicate("", true, f) == LikeTerm(f.value)
      && f.value.column == ParseInputCond(raw)[0]
  {
  }
}
