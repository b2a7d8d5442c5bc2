/**
 * Text helpers shared by the formatting and parsing code: joining with a
 * separator, Rust's `str::split` on one character, decimal rendering of
 * integers (Rust's `{}` format) and Rust's `i64::from_str`.
 */
module Strings {
  import opened Results

  /** `ts` with `sep` between consecutive items; the empty list joins to "". */
  function Join(ts: seq<string>, sep: string): string
  {
    if |ts| == 0 then ""
    else if |ts| == 1 then ts[0]
    else Join(ts[..|ts| - 1], sep) + sep + ts[|ts| - 1]
  }

  /** Every item followed by `sep`: what a loop pushing `item + sep` builds. */
  function Terminated(ts: seq<string>, sep: string): string
  {
    if ts == [] then "" else Terminated(ts[..|ts| - 1], sep) + ts[|ts| - 1] + sep
  }

  /** Dropping the trailing separator of a terminated list gives the joined list. */
  lemma {:induction false} TerminatedIsJoinThenSep(ts: seq<string>, sep: string)
    requires ts != []
    ensures Terminated(ts, sep) == Join(ts, sep) + sep
  {
    if |ts| > 1 {
      TerminatedIsJoinThenSep(ts[..|ts| - 1], sep);
    }
  }

  /** Joining the first item and the rest. */
  lemma {:induction false} JoinFront(ts: seq<string>, sep: string)
    requires |ts| > 1
    ensures Join(ts, sep) == ts[0] + sep + Join(ts[1..], sep)
  {
    if |ts| > 2 {
      JoinFront(ts[..|ts| - 1], sep);
      assert ts[..|ts| - 1][1..] == ts[1..][..|ts| - 2];
    }
  }

  /** A joined list is empty only when every item is, and the separator is never used. */
  lemma {:induction false} JoinEmpty(ts: seq<string>, sep: string)
    requires sep != []
    ensures Join(ts, sep) == [] <==> (|ts| <= 1 && forall i :: 0 <= i < |ts| ==> ts[i] == [])
  {
    if |ts| > 1 {
      JoinEmpty(ts[..|ts| - 1], sep);
    }
  }

  /** `s` ends with `suffix`, as Rust's `str::ends_with`. */
  predicate EndsWith(s: string, suffix: string)
  {
    |suffix| <= |s| && s[|s| - |suffix|..] == suffix
  }

  /**
   * Rust's `s.split(c)`: the maximal pieces between occurrences of `c`.
   * There is always at least one piece, no piece holds `c`, and joining the
   * pieces with `c` gives back `s`.
   */
  function Split(s: string, c: char): (r: seq<string>)
    ensures |r| >= 1
    ensures forall i :: 0 <= i < |r| ==> c !in r[i]
    ensures Join(r, [c]) == s
  {
    if s == [] then [""]
    else
      var init := Split(s[..|s| - 1], c);
      var x := s[|s| - 1];
      assert s == s[..|s| - 1] + [x];
      if x == c then
        JoinSnoc(init, "", [c]);
        init + [""]
      else
        JoinGrowLast(init, [x], [c]);
        init[..|init| - 1] + [init[|init| - 1] + [x]]
  }

  lemma JoinSnoc(ts: seq<string>, t: string, sep: string)
    requires |ts| >= 1
    ensures Join(ts + [t], sep) == Join(ts, sep) + sep + t
  {
    assert (ts + [t])[..|ts|] == ts;
  }

  /** Extending the last item extends the joined text. */
  lemma JoinGrowLast(ts: seq<string>, x: string, sep: string)
    requires |ts| >= 1
    ensures Join(ts[..|ts| - 1] + [ts[|ts| - 1] + x], sep) == Join(ts, sep) + x
  {
    if |ts| > 1 {
      var init := ts[..|ts| - 1];
      JoinSnoc(init, ts[|ts| - 1] + x, sep);
    }
  }

  /** The splitting is the only one with those properties. */
  lemma {:induction false} SplitUnique(s: string, c: char, ps: seq<string>)
    requires |ps| >= 1
    requires forall i :: 0 <= i < |ps| ==> c !in ps[i]
    requires Join(ps, [c]) == s
    ensures ps == Split(s, c)
    decreases |s|, 1
  {
    if s == [] {
      JoinEmpty(ps, [c]);
    } else if ps[|ps| - 1] == [] {
      SplitUniqueEndingInSeparator(s, c, ps);
    } else {
      SplitUniqueEndingInText(s, c, ps);
    }
  }

  lemma {:induction false} SplitUniqueEndingInSeparator(s: string, c: char, ps: seq<string>)
    requires s != [] && |ps| >= 1 && ps[|ps| - 1] == []
    requires forall i :: 0 <= i < |ps| ==> c !in ps[i]
    requires Join(ps, [c]) == s
    ensures ps == Split(s, c)
    decreases |s|, 0
  {
    var init := ps[..|ps| - 1];
    assert ps == init + [[]];
    assert |init| >= 1;
    JoinSnoc(init, [], [c]);
    assert s == Join(init, [c]) + [c];
    assert s[..|s| - 1] == Join(init, [c]);
    SplitUnique(s[..|s| - 1], c, init);
  }

  lemma {:induction false} SplitUniqueEndingInText(s: string, c: char, ps: seq<string>)
    requires s != [] && |ps| >= 1 && ps[|ps| - 1] != []
    requires forall i :: 0 <= i < |ps| ==> c !in ps[i]
    requires Join(ps, [c]) == s
    ensures ps == Split(s, c)
    decreases |s|, 0
  {
    var init := ps[..|ps| - 1];
    var last := ps[|ps| - 1];
    var x := last[|last| - 1];
    var shorter := init + [last[..|last| - 1]];
    assert shorter[..|shorter| - 1] == init;
    assert last == last[..|last| - 1] + [x];
    assert ps == shorter[..|shorter| - 1] + [shorter[|shorter| - 1] + [x]];
    JoinGrowLast(shorter, [x], [c]);
    assert s == Join(shorter, [c]) + [x];
    assert s[..|s| - 1] == Join(shorter, [c]);
    forall i | 0 <= i < |shorter| ensures c !in shorter[i] {
      if i < |init| { assert shorter[i] == ps[i]; }
    }
    SplitUnique(s[..|s| - 1], c, shorter);
  }

  /**
   * The first piece of a split is the text before the first `c`: a prefix of
   * `s` without `c`, followed in `s` by `c` exactly when there is a second piece.
   */
  lemma FirstPiece(s: string, c: char)
    ensures var r := Split(s, c);
      && r[0] <= s
      && c !in r[0]
      && (|r| == 1 <==> c !in s)
      && (|r| > 1 ==> s[|r[0]|] == c)
  {
    var r := Split(s, c);
    if |r| > 1 {
      JoinFront(r, [c]);
      assert s == r[0] + [c] + Join(r[1..], [c]);
      assert s[|r[0]|] == c;
    } else {
      assert s == r[0];
    }
  }

  // Decimal digits

  predicate IsDigit(ch: char)
  {
    '0' <= ch <= '9'
  }

  function DigitChar(d: nat): (ch: char)
    requires d < 10
    ensures IsDigit(ch)
  {
    ('0' as int + d) as char
  }

  function DigitValue(ch: char): (d: nat)
    requires IsDigit(ch)
    ensures d < 10
  {
    ch as int - '0' as int
  }

  /** The value of a string of decimal digits; the empty string is 0. */
  function DigitsValue(ds: string): nat
    requires forall i :: 0 <= i < |ds| ==> IsDigit(ds[i])
  {
    if ds == [] then 0 else DigitsValue(ds[..|ds| - 1]) * 10 + DigitValue(ds[|ds| - 1])
  }

  /** Rust's `{}` rendering of an unsigned integer: digits only, never empty. */
  function NatToString(n: nat): (s: string)
    ensures |s| >= 1
    ensures forall i :: 0 <= i < |s| ==> IsDigit(s[i])
    ensures |s| > 1 ==> s[0] != '0'
  {
    if n < 10 then [DigitChar(n)] else NatToString(n / 10) + [DigitChar(n % 10)]
  }

  /** Rust's `{}` rendering of a signed integer: a minus sign, then the digits of the magnitude. */
  function IntToString(n: int): (s: string)
    ensures |s| >= 1
    ensures forall i :: 0 <= i < |s| ==> IsDigit(s[i]) || (i == 0 && s[i] == '-')
  {
    if n < 0 then "-" + NatToString(-n) else NatToString(n)
  }

  /** Reading the rendered digits back gives the number. */
  lemma {:induction false} NatToStringValue(n: nat)
    ensures DigitsValue(NatToString(n)) == n
  {
    var s := NatToString(n);
    if n >= 10 {
      NatToStringValue(n / 10);
      assert s[..|s| - 1] == NatToString(n / 10);
    }
  }

  const I64Min: int := -0x8000_0000_0000_0000
  const I64Max: int := 0x7FFF_FFFF_FFFF_FFFF

  /**
   * Rust's `str::parse::<i64>()`: an optional `+` or `-`, then at least one
   * decimal digit, and the value must fit in 64 signed bits.
   */
  function ParseI64(x: string): (r: Option<int>)
    ensures r.Some? ==> I64Min <= r.value <= I64Max
    ensures r.Some? ==> |x| >= 1 && IsDigit(x[|x| - 1])
  {
    if |x| == 0 then None
    else
      var negative := x[0] == '-';
      var digits := if x[0] == '-' || x[0] == '+' then x[1..] else x;
      if |digits| == 0 || exists i :: 0 <= i < |digits| && !IsDigit(digits[i]) then None
      else
        var magnitude: int := DigitsValue(digits);
        var v := if negative then -magnitude else magnitude;
        if I64Min <= v <= I64Max then Some(v) else None
  }

  /** Every 64-bit integer survives rendering and parsing back. */
  lemma ParseI64OfIntToString(n: int)
    requires I64Min <= n <= I64Max
    ensures ParseI64(IntToString(n)) == Some(n)
  {
    var x := IntToString(n);
    if n < 0 {
      NatToStringValue(-n);
      assert x[1..] == NatToString(-n);
    } else {
      NatToStringValue(n);
    }
  }
}
