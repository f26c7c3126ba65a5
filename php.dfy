/**
  The few PHP primitives the grid and the adapter are built from: a value
  that may be PHP's `false`, string truthiness, `str_replace`, `implode`,
  `explode` with a limit of 2, associative rows, and the `(int)` cast with
  its decimal inverse.
 */
module Php {

  /** A value, or PHP's `false`/`null` standing for "not set". */
  datatype Option<T> = None | Some(value: T)

  /** PHP's boolean view of a string: only "" and "0" are false. */
  predicate Truthy(s: string)
  {
    s != "" && s != "0"
  }

  /** `p` occurs somewhere in `s` (strstr/strpos succeed). */
  predicate Contains(s: string, p: string)
    decreases |s|
  {
    p <= s || (s != [] && Contains(s[1..], p))
  }

  /** A pattern with a character that `s` lacks does not occur in `s`. */
  lemma {:induction false} MissingCharNotContained(s: string, p: string, k: nat)
    requires k < |p| && p[k] !in s
    ensures !Contains(s, p)
    decreases |s|
  {
    assert k < |s| ==> s[k] in s;
    if s != [] {
      MissingCharNotContained(s[1..], p, k);
    }
  }

  /**
    `str_replace(pat, rep, s)` for one needle: occurrences are taken left to
    right and never overlap; an empty needle leaves `s` as it is.
   */
  function ReplaceAll(s: string, pat: string, rep: string): string
    decreases |s|
  {
    if pat == [] || s == [] then s
    else if pat <= s then rep + ReplaceAll(s[|pat|..], pat, rep)
    else [s[0]] + ReplaceAll(s[1..], pat, rep)
  }

  /** str_replace changes nothing when the needle does not occur. */
  lemma {:induction false} ReplaceAllAbsent(s: string, pat: string, rep: string)
    requires !Contains(s, pat)
    ensures ReplaceAll(s, pat, rep) == s
    decreases |s|
  {
    if pat != [] && s != [] {
      ReplaceAllAbsent(s[1..], pat, rep);
    }
  }

  /** `implode(sep, parts)`. */
  function Join(parts: seq<string>, sep: string): string
    decreases |parts|
  {
    if parts == [] then ""
    else if |parts| == 1 then parts[0]
    else parts[0] + sep + Join(parts[1..], sep)
  }

  /**
    `explode(d, s, 2)` for a one-character delimiter: the text before the
    first `d`, and everything after it when there is one.
   */
  function SplitOnce(s: string, d: char): (parts: seq<string>)
    ensures 1 <= |parts| <= 2
    ensures d !in parts[0]
    ensures |parts| == 2 <==> d in s
    ensures Join(parts, [d]) == s
    decreases |s|
  {
    if s == [] then [""]
    else if s[0] == d then ["", s[1..]]
    else
      var rest := SplitOnce(s[1..], d);
      [[s[0]] + rest[0]] + rest[1..]
  }

  /** Splitting a joined pair gives the pair back, whatever the second part holds. */
  lemma {:induction false} SplitOnceOfJoin(a: string, b: string, d: char)
    requires d !in a
    ensures SplitOnce(a + [d] + b, d) == [a, b]
    decreases |a|
  {
    if a == [] {
      assert a + [d] + b == [d] + b;
    } else {
      var s := a + [d] + b;
      assert s[0] == a[0] && a[0] != d;
      assert s[1..] == a[1..] + [d] + b;
      SplitOnceOfJoin(a[1..], b, d);
      var rest := SplitOnce(s[1..], d);
      assert rest == [a[1..], b];
      assert SplitOnce(s, d) == [[s[0]] + rest[0]] + rest[1..];
      assert [a[0]] + a[1..] == a;
      assert rest[1..] == [b];
    }
  }

  /** One fetched row or PHP associative array of strings, in key order. */
  type Assoc = seq<(string, string)>

  /** `$row[$key]`: the value stored under `key`, or "" (PHP's null) when it is missing. */
  function Get(row: Assoc, key: string): (v: string)
    ensures (forall i :: 0 <= i < |row| ==> row[i].0 != key) ==> v == ""
    ensures row != [] && row[0].0 == key ==> v == row[0].1
    decreases |row|
  {
    if row == [] then ""
    else if row[0].0 == key then row[0].1
    else Get(row[1..], key)
  }

  predicate IsDigit(c: char)
  {
    '0' <= c <= '9'
  }

  /** The length of the longest prefix of `s` made of decimal digits. */
  function DigitRun(s: string): (n: nat)
    ensures n <= |s|
    ensures forall k :: 0 <= k < n ==> IsDigit(s[k])
    ensures n < |s| ==> !IsDigit(s[n])
    decreases |s|
  {
    if s == [] || !IsDigit(s[0]) then 0 else 1 + DigitRun(s[1..])
  }

  /** The value of a decimal numeral. */
  function DigitsValue(s: string): int
    decreases |s|
  {
    if s == [] then 0
    else DigitsValue(s[..|s| - 1]) * 10 + (s[|s| - 1] as int - '0' as int)
  }

  /** The white space PHP skips in front of a numeric string: space, tab, newline, vertical tab, form feed, carriage return. */
  predicate IsSpace(c: char)
  {
    c == ' ' || ('\t' <= c <= '\r')
  }

  /** The length of the run of white space at the head of `s`. */
  function SpaceRun(s: string): (n: nat)
    ensures n <= |s|
    ensures forall k :: 0 <= k < n ==> IsSpace(s[k])
    ensures n < |s| ==> !IsSpace(s[n])
    decreases |s|
  {
    if s == [] || !IsSpace(s[0]) then 0 else 1 + SpaceRun(s[1..])
  }

  /** The number at the head of `t`: an optional sign and the leading digits, 0 when there are none. */
  function LeadingNumber(t: string): (n: int)
    ensures t == [] || !(IsDigit(t[0]) || t[0] == '-' || t[0] == '+') ==> n == 0
    ensures n < 0 ==> t[0] == '-'
  {
    if t != [] && (t[0] == '-' || t[0] == '+') then
      var digits := t[1..][..DigitRun(t[1..])];
      DigitsValueNonNegative(digits);
      if t[0] == '-' then -DigitsValue(digits) else DigitsValue(digits)
    else
      DigitsValueNonNegative(t[..DigitRun(t)]);
      DigitsValue(t[..DigitRun(t)])
  }

  /**
    PHP's `(int)` cast of a string: leading white space is skipped, then an
    optional sign and the leading digits are read; a string that does not
    start with a number casts to 0.
   */
  function CastInt(s: string): (n: int)
    ensures var t := s[SpaceRun(s)..];
      t == [] || !(IsDigit(t[0]) || t[0] == '-' || t[0] == '+') ==> n == 0
    ensures n < 0 ==> SpaceRun(s) < |s| && s[SpaceRun(s)] == '-'
  {
    LeadingNumber(s[SpaceRun(s)..])
  }

  /** White space in front of a number does not change what `(int)` reads. */
  lemma CastIntSkipsSpace(w: string, s: string)
    requires forall k :: 0 <= k < |w| ==> IsSpace(w[k])
    ensures CastInt(w + s) == CastInt(s)
  {
    SpaceRunAppend(w, s);
    assert (w + s)[|w| + SpaceRun(s)..] == s[SpaceRun(s)..];
  }

  lemma {:induction false} SpaceRunAppend(w: string, s: string)
    requires forall k :: 0 <= k < |w| ==> IsSpace(w[k])
    ensures SpaceRun(w + s) == |w| + SpaceRun(s)
    decreases |w|
  {
    if w == [] {
      assert w + s == s;
    } else {
      assert (w + s)[0] == w[0] && (w + s)[1..] == w[1..] + s;
      SpaceRunAppend(w[1..], s);
    }
  }

  lemma {:induction false} DigitsValueNonNegative(s: string)
    requires forall k :: 0 <= k < |s| ==> IsDigit(s[k])
    ensures DigitsValue(s) >= 0
    decreases |s|
  {
    if s != [] {
      DigitsValueNonNegative(s[..|s| - 1]);
    }
  }

  function DigitChar(d: int): char
    requires 0 <= d < 10
  {
    ('0' as int + d) as char
  }

  /** PHP's decimal rendering of a non-negative integer. */
  function NatToString(n: nat): (s: string)
    ensures s != []
    decreases n
  {
    if n < 10 then [DigitChar(n)] else NatToString(n / 10) + [DigitChar(n % 10)]
  }

  /** The rendering of a non-negative integer is made of decimal digits only. */
  lemma {:induction false} NatToStringDigits(n: nat)
    ensures forall k :: 0 <= k < |NatToString(n)| ==> IsDigit(NatToString(n)[k])
    decreases n
  {
    if n >= 10 {
      NatToStringDigits(n / 10);
      var s, front := NatToString(n), NatToString(n / 10);
      forall k | 0 <= k < |s|
        ensures IsDigit(s[k])
      {
        if k < |front| {
          assert s[k] == front[k];
        }
      }
    }
  }

  /** PHP's decimal rendering of an integer (string concatenation of an int). */
  function IntToString(n: int): string
  {
    if n < 0 then "-" + NatToString(-n) else NatToString(n)
  }

  lemma {:induction false} NatToStringValue(n: nat)
    ensures DigitsValue(NatToString(n)) == n
    decreases n
  {
    if n >= 10 {
      NatToStringValue(n / 10);
      var s := NatToString(n);
      assert s[..|s| - 1] == NatToString(n / 10);
    }
  }

  /** Reading back a rendered integer with `(int)` gives the integer. */
  lemma CastIntOfIntToString(n: int)
    ensures CastInt(IntToString(n)) == n
  {
    var m: nat := if n < 0 then -n else n;
    var digits, text := NatToString(m), IntToString(n);
    NatToStringValue(m);
    NatToStringDigits(m);
    assert DigitRun(digits) == |digits|;
    assert digits[..|digits|] == digits;
    assert IsDigit(digits[0]);
    if n < 0 {
      assert text[1..] == digits;
    }
    assert !IsSpace(text[0]) && SpaceRun(text) == 0;
    assert text[SpaceRun(text)..] == text;
  }
}
