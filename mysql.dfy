/**
  The MySQL adapter (EyeMySQLAdap): the SQL text its builders compose, the
  last-result bookkeeping behind `query` and `resCalc`, and the row loop of
  `select`. The mysqli link itself is a `Server` value whose answers, error
  texts and escaping are left uninterpreted.
 */
module MySql {
  import opened Php

  /** A row as mysqli_fetch_assoc returns it: column name => value, in column order. */
  type Row = Assoc

  /** What the server answers to one statement: false, true, or a result set. */
  datatype Answer = Refused | Accepted | Table(fields: seq<string>, rows: seq<Row>)

  /**
    The database behind the link: its answer to each statement, the text
    mysqli_error reports after a statement, and mysqli_real_escape_string.
   */
  datatype Server = Server(answer: string -> Answer, errorText: string -> string, escape: string -> string)

  /** A mysqli_result: the field names and rows of one answer, and the fetch cursor. */
  class ResultSet {
    const fields: seq<string>
    const rows: seq<Row>
    var cursor: nat

    constructor (fields: seq<string>, rows: seq<Row>)
      ensures this.fields == fields && this.rows == rows && cursor == 0
    {
      this.fields := fields;
      this.rows := rows;
      cursor := 0;
    }

    /** mysqli_fetch_assoc: the next row, or null once every row was read. */
    method Fetch() returns (row: Option<Row>)
      modifies this`cursor
      ensures Stepped(this, row)
    {
      if cursor < |rows| {
        row := Some(rows[cursor]);
        cursor := cursor + 1;
      } else {
        row := None;
      }
    }
  }

  /** `row` is what one fetch from `rs` returned, and the cursor moved past it. */
  twostate predicate Stepped(rs: ResultSet, new row: Option<Row>)
    reads rs
  {
    if old(rs.cursor) < |rs.rows| then row == Some(rs.rows[old(rs.cursor)]) && rs.cursor == old(rs.cursor) + 1
    else row == None && rs.cursor == old(rs.cursor)
  }

  /** What mysqli_query returns: false, true, or a result set. */
  datatype Reply = Failed | Done | Fetched(rs: ResultSet)

  /** `reply` carries exactly what the server answered. */
  predicate Carries(reply: Reply, a: Answer)
  {
    match a
    case Refused => reply.Failed?
    case Accepted => reply.Done?
    case Table(fields, rows) => reply.Fetched? && reply.rs.fields == fields && reply.rs.rows == rows
  }

  /**
    The argument of fetchAssoc and countRows, as resCalc sees it: false (the
    last result), a result set, or a query string to run first.
   */
  datatype Source = Last | Handle(rs: ResultSet) | Sql(query: string)

  /** The `$fields` argument of select: a string used as it is, or an array of column names. */
  datatype Fields = Expr(text: string) | Names(names: seq<string>)

  function FieldText(fields: Fields): string
  {
    match fields
    case Expr(text) => text
    case Names(names) => "`" + Join(names, "`, `") + "`"
  }

  /** `keyword` and `arg` when `arg` is truthy, nothing otherwise. */
  function Clause(keyword: string, arg: string): string
  {
    if Truthy(arg) then keyword + arg else ""
  }

  predicate EndsWith(s: string, t: string)
  {
    |t| <= |s| && s[|s| - |t|..] == t
  }

  lemma Affixes(a: string, b: string)
    ensures a <= a + b && EndsWith(a + b, b)
  {
    assert (a + b)[..|a|] == a;
    assert (a + b)[|a|..] == b;
  }

  /** The statement select sends. */
  function SelectSql(fields: Fields, table: string, where: string, orderBy: string, limit: string): string
  {
    "SELECT " + FieldText(fields) + " FROM " + table + Clause(" WHERE ", where) + Clause(" ORDER BY ", orderBy) + Clause(" LIMIT ", limit)
  }

  /**
    The shape of a SELECT: `SELECT fields FROM table`, then WHERE, ORDER BY
    and LIMIT in that order, each present only when its argument is truthy
    and leaving no trace when it is not.
   */
  lemma SelectSqlShape(fields: Fields, table: string, where: string, orderBy: string, limit: string)
    ensures var head, q := "SELECT " + FieldText(fields) + " FROM " + table, SelectSql(fields, table, where, orderBy, limit);
      && head <= q
      && (Truthy(where) ==> head + " WHERE " + where <= q)
      && (!Truthy(where) ==> q == head + Clause(" ORDER BY ", orderBy) + Clause(" LIMIT ", limit))
      && (Truthy(orderBy) ==> EndsWith(q, " ORDER BY " + orderBy + Clause(" LIMIT ", limit)))
      && (!Truthy(orderBy) ==> q == head + Clause(" WHERE ", where) + Clause(" LIMIT ", limit))
      && (Truthy(limit) ==> EndsWith(q, " LIMIT " + limit))
      && (!Truthy(limit) ==> q == head + Clause(" WHERE ", where) + Clause(" ORDER BY ", orderBy))
      && (!Truthy(where) && !Truthy(orderBy) && !Truthy(limit) ==> q == head)
  {
    var head := "SELECT " + FieldText(fields) + " FROM " + table;
    var w, o, l := Clause(" WHERE ", where), Clause(" ORDER BY ", orderBy), Clause(" LIMIT ", limit);
    Pieces(head, w, o, l);
    if Truthy(where) {
      Regroup(head, " WHERE ", where);
    }
    if Truthy(orderBy) {
      Regroup(" ORDER BY ", orderBy, l);
    }
  }

  /** Where the pieces of a four-part concatenation sit, and what dropping an empty one leaves. */
  lemma Pieces(h: string, w: string, o: string, l: string)
    ensures h <= h + w + o + l && h + w <= h + w + o + l
    ensures EndsWith(h + w + o + l, l) && EndsWith(h + w + o + l, o + l)
    ensures w == [] ==> h + w + o + l == h + o + l
    ensures o == [] ==> h + w + o + l == h + w + l
    ensures l == [] ==> h + w + o + l == h + w + o
    ensures w == [] && o == [] && l == [] ==> h + w + o + l == h
  {
    Affixes(h + w, o + l);
    assert h + w + o + l == (h + w) + (o + l);
    Affixes(h, w);
    Affixes(h + w + o, l);
  }

  /** Appending two pieces one after the other is appending their concatenation. */
  lemma Regroup(a: string, b: string, c: string)
    ensures a + (b + c) == a + b + c
  {
  }

  /** The rows select returns: every row of a non-empty result set, in fetch order, else false. */
  function RowsOf(a: Answer): Option<seq<Row>>
  {
    if a.Table? && |a.rows| > 0 then Some(a.rows) else None
  }

  /** The statement delete sends. */
  function DeleteSql(table: string, where: string, limit: string): string
  {
    "DELETE FROM `" + table + "`" + Clause(" WHERE ", where) + Clause(" LIMIT ", limit)
  }

  /**
    The shape of a DELETE: ``DELETE FROM `table` ``, then WHERE and LIMIT,
    each present only when its argument is truthy.
   */
  lemma DeleteSqlShape(table: string, where: string, limit: string)
    ensures var head, q := "DELETE FROM `" + table + "`", DeleteSql(table, where, limit);
      && head <= q
      && (Truthy(where) ==> head + " WHERE " + where <= q)
      && (!Truthy(where) ==> q == head + Clause(" LIMIT ", limit))
      && (Truthy(limit) ==> EndsWith(q, " LIMIT " + limit))
      && (!Truthy(limit) ==> q == head + Clause(" WHERE ", where))
      && (!Truthy(where) && !Truthy(limit) ==> q == head)
  {
    var head := "DELETE FROM `" + table + "`";
    var w, l := Clause(" WHERE ", where), Clause(" LIMIT ", limit);
    Affixes(head + w, l);
    Affixes(head, w);
  }

  /** With the default arguments of delete (no condition, limit 1) one row of the table goes. */
  lemma DeleteSqlDefault(table: string)
    ensures DeleteSql(table, "", "1") == "DELETE FROM `" + table + "` LIMIT 1"
  {
  }

  /** One `` `field` = 'escaped value' `` pair of an UPDATE. */
  function Assignment(pair: (string, string), escape: string -> string): string
  {
    "`" + pair.0 + "` = '" + escape(pair.1) + "'"
  }

  /** The SET pairs of an UPDATE, one per entry of `values` and in the same order. */
  function Assignments(values: Assoc, escape: string -> string): (parts: seq<string>)
    ensures |parts| == |values|
    ensures forall i :: 0 <= i < |values| ==> parts[i] == Assignment(values[i], escape)
    decreases |values|
  {
    if values == [] then []
    else Assignments(values[..|values| - 1], escape) + [Assignment(values[|values| - 1], escape)]
  }

  /** The foreach of update: builds the SET pairs in array order. */
  method BuildAssignments(values: Assoc, escape: string -> string) returns (parts: seq<string>)
    ensures parts == Assignments(values, escape)
  {
    parts := [];
    for k := 0 to |values|
      invariant parts == Assignments(values[..k], escape)
    {
      assert values[..k + 1][..k] == values[..k];
      parts := parts + [Assignment(values[k], escape)];
    }
    assert values[..|values|] == values;
  }

  function UpdateSql(table: string, parts: seq<string>, where: string, limit: string): string
  {
    "UPDATE `" + table + "` SET " + Join(parts, ", ") + Clause(" WHERE ", where) + Clause(" LIMIT ", limit)
  }

  /** `values` with every value escaped and every key kept in its place. */
  function Escaped(values: Assoc, escape: string -> string): (r: Assoc)
    ensures |r| == |values|
    ensures forall i :: 0 <= i < |values| ==> r[i] == (values[i].0, escape(values[i].1))
    decreases |values|
  {
    if values == [] then []
    else Escaped(values[..|values| - 1], escape) + [(values[|values| - 1].0, escape(values[|values| - 1].1))]
  }

  /** The foreach of insert: escapes each value in place (PHP array keys are unique, so `$values[$field]` is the current entry). */
  method EscapeValues(values: Assoc, escape: string -> string) returns (r: Assoc)
    ensures r == Escaped(values, escape)
  {
    r := values;
    for k := 0 to |values|
      invariant |r| == |values|
      invariant r[..k] == Escaped(values[..k], escape)
      invariant r[k..] == values[k..]
    {
      assert values[..k + 1][..k] == values[..k];
      r := r[k := (r[k].0, escape(r[k].1))];
    }
  }

  /** The keys of an associative array, in order (array_keys). */
  function Keys(a: Assoc): (ks: seq<string>)
    ensures |ks| == |a|
    ensures forall i :: 0 <= i < |a| ==> ks[i] == a[i].0
    decreases |a|
  {
    if a == [] then [] else Keys(a[..|a| - 1]) + [a[|a| - 1].0]
  }

  /** The values of an associative array, in order. */
  function Values(a: Assoc): (vs: seq<string>)
    ensures |vs| == |a|
    ensures forall i :: 0 <= i < |a| ==> vs[i] == a[i].1
    decreases |a|
  {
    if a == [] then [] else Values(a[..|a| - 1]) + [a[|a| - 1].1]
  }

  function InsertSql(table: string, escaped: Assoc): string
  {
    "INSERT INTO `" + table + "`(`" + Join(Keys(escaped), "`, `") + "`) VALUES ('" + Join(Values(escaped), "', '") + "')"
  }

  /**
    The columns and values an INSERT lists line up: the i-th column named is
    the i-th key of `values` and the i-th value is that key's escaped value.
   */
  lemma InsertListsAlign(values: Assoc, escape: string -> string, i: nat)
    requires i < |values|
    ensures |Keys(Escaped(values, escape))| == |Values(Escaped(values, escape))| == |values|
    ensures Keys(Escaped(values, escape))[i] == values[i].0
    ensures Values(Escaped(values, escape))[i] == escape(values[i].1)
  {
  }

  /**
    escapeString as written at line 346: the string goes where mysqli expects
    the link and the link where it expects the string, so PHP 7 warns and
    returns null, which the statement reads as "".
   */
  function EscapeAsWritten(s: string): (r: string)
    ensures |r| == 0
  {
    ""
  }

  /** As written, insert sends every value as '' whatever it was. */
  lemma InsertAsWrittenBlanks(values: Assoc, i: nat)
    requires i < |values|
    ensures Values(Escaped(values, EscapeAsWritten))[i] == ""
  {
    assert Escaped(values, EscapeAsWritten)[i].1 == EscapeAsWritten(values[i].1);
  }

  /** As written, update sets every column to '' whatever value was given. */
  lemma UpdateAsWrittenBlanks(values: Assoc, i: nat)
    requires i < |values|
    ensures Assignments(values, EscapeAsWritten)[i] == "`" + values[i].0 + "` = ''"
  {
    var key := values[i].0;
    assert Assignments(values, EscapeAsWritten)[i] == Assignment(values[i], EscapeAsWritten);
    assert EscapeAsWritten(values[i].1) == [];
    assert "`" + key + "` = '" + [] + "'" == "`" + key + "` = ''";
  }

  /** An INSERT of one name, as written, stores an empty name. */
  lemma InsertAsWrittenExample()
    ensures InsertSql("people", Escaped([("name", "Ann")], EscapeAsWritten)) == "INSERT INTO `people`(`name`) VALUES ('')"
  {
    var one := Escaped([("name", "Ann")], EscapeAsWritten);
    assert one == [("name", "")];
    var ks, vs := Keys(one), Values(one);
    assert |ks| == 1 && ks[0] == "name";
    assert |vs| == 1 && vs[0] == "";
    assert Join(ks, "`, `") == "name";
    assert Join(vs, "', '") == "";
  }

  /** The adapter: the link to the server and the result of the last query. */
  class Adapter {
    const server: Server
    /** Every statement handed to mysqli_query, oldest first. */
    var sent: seq<string>
    /** `$this->result`: the reply to the last query (PHP's null, read as false, before any). */
    var result: Reply

    constructor (server: Server)
      ensures this.server == server && sent == [] && result == Failed
    {
      this.server := server;
      sent := [];
      result := Failed;
    }

    /** query: runs `q` and keeps the reply as the last result. */
    method Query(q: string) returns (r: Reply)
      modifies this
      ensures sent == old(sent) + [q]
      ensures result == r && Carries(r, server.answer(q))
      ensures r.Fetched? ==> fresh(r.rs) && r.rs.cursor == 0
    {
      sent := sent + [q];
      match server.answer(q) {
        case Refused =>
          r := Failed;
        case Accepted =>
          r := Done;
        case Table(fields, rows) =>
          var rs := new ResultSet(fields, rows);
          r := Fetched(rs);
      }
      result := r;
    }

    /**
      resCalc: an argument that compares equal to false (false itself, "" or
      "0") means the last result; a result set is used as it is; any other
      string is run as a query first.
     */
    method ResCalc(arg: Source) returns (r: Reply)
      modifies this
      ensures arg.Last? || (arg.Sql? && !Truthy(arg.query)) ==> r == old(result) && sent == old(sent) && result == old(result)
      ensures arg.Handle? ==> r == Fetched(arg.rs) && sent == old(sent) && result == old(result)
      ensures arg.Sql? && Truthy(arg.query) ==>
        && sent == old(sent) + [arg.query] && result == r && Carries(r, server.answer(arg.query))
        && (r.Fetched? ==> fresh(r.rs) && r.rs.cursor == 0)
    {
      match arg
      case Last =>
        r := result;
      case Handle(rs) =>
        r := Fetched(rs);
      case Sql(q) =>
        if Truthy(q) {
          r := Query(q);
        } else {
          r := result;
        }
    }

    /**
      The result set, existing before the call, that a fetch through `arg`
      may advance: the given one, or the last result when `arg` means it.
      A query string runs first, and its result set is a new one.
     */
    function Target(arg: Source): set<object>
      reads this
    {
      match arg
      case Handle(rs) => {rs}
      case Last => if result.Fetched? then {result.rs} else {}
      case Sql(q) => if !Truthy(q) && result.Fetched? then {result.rs} else {}
    }

    /** fetchAssoc: the next row of the result set resCalc picks; false/true replies give no row. */
    method FetchAssoc(arg: Source) returns (row: Option<Row>)
      modifies this, Target(arg)
      ensures arg.Handle? ==> sent == old(sent) && result == old(result) && Stepped(arg.rs, row)
      ensures arg.Last? || (arg.Sql? && !Truthy(arg.query)) ==>
        && sent == old(sent) && result == old(result)
        && (if old(result).Fetched? then Stepped(old(result).rs, row) else row == None)
      ensures arg.Sql? && Truthy(arg.query) ==>
        && sent == old(sent) + [arg.query] && Carries(result, server.answer(arg.query))
        && row == (if result.Fetched? && |result.rs.rows| > 0 then Some(result.rs.rows[0]) else None)
        && (result.Fetched? ==> fresh(result.rs) && result.rs.cursor == if |result.rs.rows| > 0 then 1 else 0)
        && (old(result).Fetched? ==> unchanged(old(result).rs))
    {
      var r := ResCalc(arg);
      if r.Fetched? {
        row := r.rs.Fetch();
      } else {
        row := None;
      }
    }

    /** countRows: the number of rows of the result set resCalc picks (0 for false/true replies). */
    method CountRows(arg: Source) returns (n: nat)
      modifies this
      ensures arg.Last? || (arg.Sql? && !Truthy(arg.query)) ==>
        sent == old(sent) && result == old(result) && n == if result.Fetched? then |result.rs.rows| else 0
      ensures arg.Handle? ==> sent == old(sent) && result == old(result) && n == |arg.rs.rows|
      ensures arg.Sql? && Truthy(arg.query) ==>
        && sent == old(sent) + [arg.query] && Carries(result, server.answer(arg.query))
        && (result.Fetched? ==> fresh(result.rs) && result.rs.cursor == 0)
        && n == if server.answer(arg.query).Table? then |server.answer(arg.query).rows| else 0
    {
      var r := ResCalc(arg);
      n := if r.Fetched? then |r.rs.rows| else 0;
    }

    /** select: runs the SELECT and collects all rows when there are any. */
    method Select(fields: Fields, table: string, where: string, orderBy: string, limit: string)
      returns (rows: Option<seq<Row>>)
      modifies this
      ensures sent == old(sent) + [SelectSql(fields, table, where, orderBy, limit)]
      ensures Carries(result, server.answer(SelectSql(fields, table, where, orderBy, limit)))
      ensures rows == RowsOf(server.answer(SelectSql(fields, table, where, orderBy, limit)))
      ensures result.Fetched? ==> fresh(result.rs) && result.rs.cursor == |result.rs.rows|
    {
      var sql := SelectSql(fields, table, where, orderBy, limit);
      var r := Query(sql);
      var n := CountRows(Last);
      if n > 0 {
        var acc: seq<Row> := [];
        var row := FetchAssoc(Last);
        while row.Some?
          invariant sent == old(sent) + [sql]
          invariant result == r && r.Fetched? && Carries(r, server.answer(sql))
          invariant r.rs.cursor <= |r.rs.rows|
          invariant row.Some? ==> 1 <= r.rs.cursor && row.value == r.rs.rows[r.rs.cursor - 1] && acc == r.rs.rows[..r.rs.cursor - 1]
          invariant row.None? ==> acc == r.rs.rows && r.rs.cursor == |r.rs.rows|
          decreases |r.rs.rows| - r.rs.cursor + (if row.Some? then 1 else 0)
        {
          acc := acc + [row.value];
          assert acc == r.rs.rows[..r.rs.cursor];
          row := FetchAssoc(Last);
        }
        rows := Some(acc);
      } else {
        rows := None;
      }
    }

    /** selectOne: the first row of a `LIMIT 1` select, or null. */
    method SelectOne(fields: Fields, table: string, where: string, orderBy: string) returns (row: Option<Row>)
      modifies this
      ensures sent == old(sent) + [SelectSql(fields, table, where, orderBy, "1")]
      ensures Carries(result, server.answer(SelectSql(fields, table, where, orderBy, "1")))
      ensures result.Fetched? ==> fresh(result.rs) && result.rs.cursor == |result.rs.rows|
      ensures var rows := RowsOf(server.answer(SelectSql(fields, table, where, orderBy, "1")));
        row == if rows.Some? then Some(rows.value[0]) else None
    {
      var rows := Select(fields, table, where, orderBy, "1");
      row := if rows.Some? then Some(rows.value[0]) else None;
    }

    /** selectOneValue: the requested field of that first row ("" for PHP's null). */
    method SelectOneValue(field: string, table: string, where: string, orderBy: string) returns (v: string)
      modifies this
      ensures sent == old(sent) + [SelectSql(Expr(field), table, where, orderBy, "1")]
      ensures Carries(result, server.answer(SelectSql(Expr(field), table, where, orderBy, "1")))
      ensures result.Fetched? ==> fresh(result.rs) && result.rs.cursor == |result.rs.rows|
      ensures var rows := RowsOf(server.answer(SelectSql(Expr(field), table, where, orderBy, "1")));
        v == if rows.Some? then Get(rows.value[0], field) else ""
    {
      var row := SelectOne(Expr(field), table, where, orderBy);
      v := if row.Some? then Get(row.value, field) else "";
    }

    /** fieldNameArray for a result set: the names of its fields, in field order. */
    method FieldNameArray(rs: ResultSet) returns (names: seq<string>)
      ensures names == rs.fields
    {
      names := [];
      for k := 0 to |rs.fields|
        invariant names == rs.fields[..k]
      {
        names := names + [rs.fields[k]];
      }
    }

    /** error: the text mysqli_error gives for the last statement sent ("" before any). */
    method Error() returns (e: string)
      ensures sent != [] ==> e == server.errorText(sent[|sent| - 1])
      ensures sent == [] ==> e == ""
    {
      e := if sent == [] then "" else server.errorText(sent[|sent| - 1]);
    }

    /** update: sends the UPDATE built from `values`; true unless the server refused it. */
    method Update(values: Assoc, table: string, where: string, limit: string) returns (ok: bool)
      modifies this
      ensures sent == old(sent) + [UpdateSql(table, Assignments(values, server.escape), where, limit)]
      ensures ok <==> !server.answer(UpdateSql(table, Assignments(values, server.escape), where, limit)).Refused?
    {
      var parts := BuildAssignments(values, server.escape);
      var r := Query(UpdateSql(table, parts, where, limit));
      ok := !r.Failed?;
    }

    /** insert: sends the INSERT of one row built from `values`; true unless the server refused it. */
    method Insert(values: Assoc, table: string) returns (ok: bool)
      modifies this
      ensures sent == old(sent) + [InsertSql(table, Escaped(values, server.escape))]
      ensures ok <==> !server.answer(InsertSql(table, Escaped(values, server.escape))).Refused?
    {
      var escaped := EscapeValues(values, server.escape);
      var r := Query(InsertSql(table, escaped));
      ok := !r.Failed?;
    }

    /** delete: sends the DELETE (by default unconditioned, limited to one row); true unless the server refused it. */
    method Delete(table: string, where: string := "", limit: string := "1") returns (ok: bool)
      modifies this
      ensures sent == old(sent) + [DeleteSql(table, where, limit)]
      ensures ok <==> !server.answer(DeleteSql(table, where, limit)).Refused?
    {
      var r := Query(DeleteSql(table, where, limit));
      ok := !r.Failed?;
    }
  }
}
