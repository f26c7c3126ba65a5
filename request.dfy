/**
  Request state of the grid: the page number, the `column:direction` order
  string and the `column:value` filter string the constructor reads from the
  query string, the sanitiser they pass through, and the state strings the
  emitted script sends back (`tblorder`, `tblfilter`).
 */
module RequestState {
  import opened Php

  const ORDER_DESC: string := "DESC"
  const ORDER_ASC: string := "ASC"

  datatype Direction = Asc | Desc

  function DirectionText(d: Direction): string
  {
    if d == Desc then ORDER_DESC else ORDER_ASC
  }

  /** setOrder's normalisation: DESC only for the exact token "DESC"; every other token (even "asc") is ASC. */
  function DirectionOf(token: string): Direction
  {
    if token == ORDER_DESC then Desc else Asc
  }

  /** The stored direction is Desc exactly when the token was "DESC", and a written direction reads back as itself. */
  lemma DirectionOfText(token: string, d: Direction)
    ensures DirectionOf(token) == Desc <==> token == ORDER_DESC
    ensures DirectionOf(DirectionText(d)) == d
  {
  }

  /** `$this->order`: the column and direction of the ORDER BY. */
  datatype Order = Order(column: string, direction: Direction)

  /** `$this->filter`: the column and value of the LIKE filter. */
  datatype Filter = Filter(column: string, value: string)

  /** `$this->limit`: the LIMIT offset and row count. */
  datatype Limit = Limit(low: int, high: int)

  /** The query-string parameters the grid reads (`page`, `order`, `filter`, `useajax`), "" when absent. */
  datatype Request = Request(page: string, order: string, filter: string, useAjax: string)

  /**
    The page the constructor keeps: `(int)` of the parameter when that is
    positive, otherwise the default page 1.
   */
  function RequestedPage(raw: string): int
  {
    var n := CastInt(raw);
    if n == 0 || n <= 0 then 1 else n
  }

  /** The constructor resets the limit to the first page exactly when it keeps the default page. */
  predicate ResetsLimit(raw: string)
  {
    var n := CastInt(raw);
    n == 0 || n <= 0
  }

  /**
    An absent, non-numeric, zero or negative page parameter leaves page 1
    and resets the limit; a positive one is taken as the page.
   */
  lemma RequestedPageCases(raw: string)
    ensures RequestedPage(raw) >= 1
    ensures ResetsLimit(raw) <==> CastInt(raw) <= 0
    ensures ResetsLimit(raw) ==> RequestedPage(raw) == 1
    ensures !ResetsLimit(raw) ==> RequestedPage(raw) == CastInt(raw)
    ensures var t := raw[SpaceRun(raw)..];
      t == "" || !(IsDigit(t[0]) || t[0] == '-' || t[0] == '+') ==> ResetsLimit(raw)
  {
  }

  /** Leading white space is skipped by the cast, so " 5" asks for page 5 like "5". */
  lemma RequestedPageSkipsSpace(w: string, raw: string)
    requires forall k :: 0 <= k < |w| ==> IsSpace(w[k])
    ensures RequestedPage(w + raw) == RequestedPage(raw)
    ensures ResetsLimit(w + raw) <==> ResetsLimit(raw)
  {
    CastIntSkipsSpace(w, raw);
  }

  /** The page number tblSetPage writes into the query string is the page the grid then shows. */
  lemma RequestedPageOfLink(p: int)
    requires p >= 1
    ensures RequestedPage(IntToString(p)) == p && !ResetsLimit(IntToString(p))
  {
    CastIntOfIntToString(p);
  }

  /** The characters the sanitiser of parseInputCond is there to neutralise. */
  predicate IsSpecial(c: char)
  {
    c == '\'' || c == '"' || c == '<' || c == '>' || c == '\\'
  }

  predicate NoSpecial(s: string)
  {
    forall i :: 0 <= i < |s| ==> !IsSpecial(s[i])
  }

  /** What the pattern at line 372 matches: `[` and `]` delimit it, so it is the literal sequence '"<>\ . */
  const SPECIAL_SEQUENCE: string := "'\"<>\\"

  /** The sanitiser as written: only the whole sequence '"<>\ is replaced by `%`. */
  function SanitizeAsWritten(s: string): string
  {
    ReplaceAll(s, SPECIAL_SEQUENCE, "%")
  }

  /** As written, a lone quote passes through the sanitiser untouched. */
  lemma SanitizeAsWrittenKeepsQuote()
    ensures SanitizeAsWritten("a'b") == "a'b"
    ensures !NoSpecial(SanitizeAsWritten("a'b"))
  {
    assert SPECIAL_SEQUENCE[1] == '"' && '"' !in "a'b";
    MissingCharNotContained("a'b", SPECIAL_SEQUENCE, 1);
    ReplaceAllAbsent("a'b", SPECIAL_SEQUENCE, "%");
    assert IsSpecial("a'b"[1]);
  }

  /** The sanitiser as intended: each of ' " < > \ becomes `%`, everything else is kept. */
  function Sanitize(s: string): (r: string)
    ensures |r| == |s|
    ensures forall i :: 0 <= i < |s| ==> r[i] == if IsSpecial(s[i]) then '%' else s[i]
    decreases |s|
  {
    if s == [] then [] else [if IsSpecial(s[0]) then '%' else s[0]] + Sanitize(s[1..])
  }

  /** The intended sanitiser leaves none of the special characters, and touches a string only if it had one. */
  lemma SanitizeRemovesSpecials(s: string)
    ensures NoSpecial(Sanitize(s))
    ensures Sanitize(s) == s <==> NoSpecial(s)
  {
    if NoSpecial(s) {
      assert forall i :: 0 <= i < |s| ==> Sanitize(s)[i] == s[i];
    }
    if Sanitize(s) == s {
      forall i | 0 <= i < |s| ensures !IsSpecial(s[i]) {
        assert Sanitize(s)[i] == s[i];
      }
    }
  }

  /** `str_replace` never lengthens a string when the replacement is no longer than the needle. */
  lemma {:induction false} ReplaceAllNotLonger(s: string, pat: string, rep: string)
    requires |rep| <= |pat|
    ensures |ReplaceAll(s, pat, rep)| <= |s|
    decreases |s|
  {
    if pat != [] && s != [] {
      if pat <= s {
        ReplaceAllNotLonger(s[|pat|..], pat, rep);
      } else {
        ReplaceAllNotLonger(s[1..], pat, rep);
      }
    }
  }

  /**
    If the sanitiser as written neither shortened `s` nor left a special
    character in it, `s` had none to begin with.
   */
  lemma {:induction false} SanitizeAsWrittenClean(s: string)
    ensures |SanitizeAsWritten(s)| == |s| && NoSpecial(SanitizeAsWritten(s)) ==> NoSpecial(s)
    decreases |s|
  {
    if s != [] {
      if SPECIAL_SEQUENCE <= s {
        ReplaceAllNotLonger(s[|SPECIAL_SEQUENCE|..], SPECIAL_SEQUENCE, "%");
      } else {
        var r, rest := SanitizeAsWritten(s), SanitizeAsWritten(s[1..]);
        assert r == [s[0]] + rest;
        SanitizeAsWrittenClean(s[1..]);
        if |r| == |s| && NoSpecial(r) {
          assert NoSpecial(rest) by {
            forall i | 0 <= i < |rest| ensures !IsSpecial(rest[i]) {
              assert rest[i] == r[i + 1];
            }
          }
          forall i | 0 <= i < |s| ensures !IsSpecial(s[i]) {
            if i == 0 {
              assert s[0] == r[0];
            } else {
              assert s[i] == s[1..][i - 1];
            }
          }
        }
      }
    }
  }

  /**
    The sanitiser as written and as intended give the same string exactly
    when the input has none of ' " < > \ ; on such input both keep it.
   */
  lemma SanitizeAgrees(s: string)
    ensures SanitizeAsWritten(s) == Sanitize(s) <==> NoSpecial(s)
    ensures NoSpecial(s) ==> SanitizeAsWritten(s) == s
  {
    SanitizeRemovesSpecials(s);
    if NoSpecial(s) {
      forall k | 0 <= k < |s| ensures s[k] != '\'' {
        assert !IsSpecial(s[k]);
      }
      assert SPECIAL_SEQUENCE[0] == '\'' && '\'' !in s;
      MissingCharNotContained(s, SPECIAL_SEQUENCE, 0);
      ReplaceAllAbsent(s, SPECIAL_SEQUENCE, "%");
    }
    SanitizeAsWrittenClean(s);
  }

  /**
    parseInputCond: sanitise, then split on the first `:` only, so there are
    at most two parts and any later `:` stays in the second.
   */
  function ParseInputCond(s: string): (parts: seq<string>)
    ensures 1 <= |parts| <= 2
    ensures ':' !in parts[0]
    ensures Join(parts, ":") == Sanitize(s)
  {
    SplitOnce(Sanitize(s), ':')
  }

  /** The second variable of `list($column, $value)`: PHP's null, read as "", when there is no `:`. */
  function Second(parts: seq<string>): string
  {
    if |parts| >= 2 then parts[1] else ""
  }

  /** The order the constructor sets from the `order` parameter (only when it is truthy). */
  function OrderParam(raw: string): Option<Order>
  {
    if Truthy(raw) then
      var parts := ParseInputCond(raw);
      Some(Order(parts[0], DirectionOf(Second(parts))))
    else None
  }

  /** The filter the constructor sets from the `filter` parameter (only when it is truthy). */
  function FilterParam(raw: string): Option<Filter>
  {
    if Truthy(raw) then
      var parts := ParseInputCond(raw);
      Some(Filter(parts[0], Second(parts)))
    else None
  }

  /** `implode(':', $this->order)`, the `tblorder` script variable; "" when no order is set. */
  function OrderState(o: Option<Order>): string
  {
    if o.Some? then o.value.column + ":" + DirectionText(o.value.direction) else ""
  }

  /** `implode(':', $this->filter)`, the `tblfilter` script variable; "" when no filter is set. */
  function FilterState(f: Option<Filter>): string
  {
    if f.Some? then f.value.column + ":" + f.value.value else ""
  }

  lemma SanitizeKeeps(s: string)
    requires NoSpecial(s)
    ensures Sanitize(s) == s
  {
    SanitizeRemovesSpecials(s);
  }

  /**
    The order state the script sends back is parsed into the same order,
    provided the column has no `:` and nothing the sanitiser would touch.
   */
  lemma OrderStateRoundTrip(o: Option<Order>)
    requires o.Some? ==> ':' !in o.value.column && NoSpecial(o.value.column)
    ensures OrderParam(OrderState(o)) == o
  {
    if o.Some? {
      var s := OrderState(o);
      var dir := DirectionText(o.value.direction);
      assert s == o.value.column + [':'] + dir;
      assert s[|o.value.column|] == ':';
      assert NoSpecial(s) by {
        forall i | 0 <= i < |s| ensures !IsSpecial(s[i]) {
          if i < |o.value.column| {
            assert s[i] == o.value.column[i];
          }
        }
      }
      SanitizeKeeps(s);
      SplitOnceOfJoin(o.value.column, dir, ':');
    }
  }

  /**
    The filter state the script sends back is parsed into the same filter;
    the value may itself contain `:`.
   */
  lemma FilterStateRoundTrip(f: Option<Filter>)
    requires f.Some? ==> ':' !in f.value.column && NoSpecial(f.value.column) && NoSpecial(f.value.value)
    ensures FilterParam(FilterState(f)) == f
  {
    if f.Some? {
      var s := FilterState(f);
      var col, val := f.value.column, f.value.value;
      assert s == col + [':'] + val;
      assert s[|col|] == ':';
      assert NoSpecial(s) by {
        forall i | 0 <= i < |s| ensures !IsSpecial(s[i]) {
          if i < |col| {
            assert s[i] == col[i];
          } else if i > |col| {
            assert s[i] == val[i - |col| - 1];
          }
        }
      }
      SanitizeKeeps(s);
      SplitOnceOfJoin(col, val, ':');
    }
  }

  /** isAjaxUsed: the `useajax` parameter is exactly "true". */
  function IsAjaxUsed(useAjax: string): bool
  {
    Truthy(useAjax) && useAjax == "true"
  }
}
