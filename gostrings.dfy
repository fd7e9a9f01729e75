/** The string and integer helpers of the Go libraries the zone engine calls: gstr.Trim,
    strings.Split, gstr.SplitAndTrim, gstr.Contains, strconv.Atoi, strconv.Itoa,
    gstr.IsNumeric and strconv.Quote, each with the properties the engine relies on. */
module GoStrings {
  import opened Wrappers

  // ---------------------------------------------------------------- trimming

  /** The characters gstr.Trim strips: ASCII white space and NUL. */
  predicate IsTrimChar(c: char) {
    c == ' ' || c == '\t' || c == '\n' || c == '\r' || c == '\0' || c as int == 11 || c as int == 12
  }

  predicate AllTrim(s: string) {
    forall i :: 0 <= i < |s| ==> IsTrimChar(s[i])
  }

  /** Neither end of `s` is a character Trim would strip. */
  predicate Trimmed(s: string) {
    s == [] || (!IsTrimChar(s[0]) && !IsTrimChar(s[|s| - 1]))
  }

  /** gstr.Trim: strips the white-space characters at both ends. The result has none at
      either end, and it is empty exactly when `s` is all white space. */
  function Trim(s: string): (r: string)
    ensures Trimmed(r) && |r| <= |s|
    ensures r == [] <==> AllTrim(s)
    decreases |s|
  {
    if |s| > 0 && IsTrimChar(s[0]) then
      var r := Trim(s[1..]);
      assert AllTrim(s) <==> AllTrim(s[1..]) by {
        if AllTrim(s[1..]) {
          forall i | 0 <= i < |s| ensures IsTrimChar(s[i]) {
            if i > 0 { assert s[i] == s[1..][i - 1]; }
          }
        }
      }
      r
    else if |s| > 0 && IsTrimChar(s[|s| - 1]) then
      assert s[..|s| - 1][0] == s[0];
      Trim(s[..|s| - 1])
    else s
  }

  /** Trim removes exactly a white-space prefix and suffix around a trimmed core. */
  lemma {:induction false} TrimExact(pre: string, x: string, suf: string)
    requires AllTrim(pre) && AllTrim(suf)
    requires x != [] && Trimmed(x)
    ensures Trim(pre + x + suf) == x
    decreases |pre| + |suf|
  {
    var s := pre + x + suf;
    if pre != [] {
      assert s[0] == pre[0];
      assert s[1..] == pre[1..] + x + suf;
      TrimExact(pre[1..], x, suf);
    } else if suf != [] {
      assert s[0] == x[0];
      assert s[|s| - 1] == suf[|suf| - 1];
      assert s[..|s| - 1] == pre + x + suf[..|suf| - 1];
      TrimExact(pre, x, suf[..|suf| - 1]);
    } else {
      assert s == x;
    }
  }

  /** Trim leaves an already trimmed string alone. */
  lemma TrimIdentity(x: string)
    requires Trimmed(x)
    ensures Trim(x) == x
  {
    if x != [] {
      TrimExact([], x, []);
      assert [] + x + [] == x;
    }
  }

  // ---------------------------------------------------------------- splitting

  function FirstIndex(s: string, c: char): (i: nat)
    requires c in s
    ensures i < |s| && s[i] == c && c !in s[..i]
  {
    if s[0] == c then 0
    else
      var j := FirstIndex(s[1..], c);
      assert s[..j + 1] == [s[0]] + s[1..][..j];
      j + 1
  }

  /** strings.Split with a one-character separator: the pieces between separators. */
  function Split(s: string, d: char): (r: seq<string>)
    ensures |r| >= 1
    ensures forall i :: 0 <= i < |r| ==> d !in r[i]
    ensures (d in s) == (|r| >= 2)
    decreases |s|
  {
    if d in s then
      var i := FirstIndex(s, d);
      [s[..i]] + Split(s[i + 1..], d)
    else [s]
  }

  /** strings.Join with a one-character separator. */
  function Join(parts: seq<string>, d: char): string
    requires |parts| >= 1
  {
    if |parts| == 1 then parts[0] else parts[0] + [d] + Join(parts[1..], d)
  }

  /** Joining the pieces of a split gives back the original string. */
  lemma {:induction false} JoinSplit(s: string, d: char)
    ensures Join(Split(s, d), d) == s
    decreases |s|
  {
    if d in s {
      var i := FirstIndex(s, d);
      JoinSplit(s[i + 1..], d);
      assert Split(s, d)[1..] == Split(s[i + 1..], d);
      assert s == s[..i] + [d] + s[i + 1..];
    }
  }

  /** The first separator ends the first piece. */
  lemma SplitAfter(a: string, d: char, b: string)
    requires d !in a
    ensures Split(a + [d] + b, d) == [a] + Split(b, d)
  {
    var s := a + [d] + b;
    assert s[|a|] == d;
    assert forall j :: 0 <= j < |a| ==> s[j] == a[j];
    var i := FirstIndex(s, d);
    assert i <= |a| ==> s[..i] == a[..i];
    assert i == |a|;
    assert s[..i] == a;
    assert s[i + 1..] == b;
  }

  /** Splitting a join of separator-free pieces gives back the pieces. */
  lemma {:induction false} SplitJoin(parts: seq<string>, d: char)
    requires |parts| >= 1
    requires forall i :: 0 <= i < |parts| ==> d !in parts[i]
    ensures Split(Join(parts, d), d) == parts
    decreases |parts|
  {
    if |parts| > 1 {
      var rest := parts[1..];
      assert forall i :: 0 <= i < |rest| ==> d !in rest[i] by {
        forall i | 0 <= i < |rest| ensures d !in rest[i] {
          assert rest[i] == parts[i + 1];
        }
      }
      SplitJoin(rest, d);
      assert Join(parts, d) == parts[0] + [d] + Join(rest, d);
      SplitAfter(parts[0], d, Join(rest, d));
      assert parts == [parts[0]] + rest;
    }
  }

  /** A separator occurs in a join of two or more pieces; other characters occur in it only
      if they occur in a piece. */
  lemma {:induction false} JoinContains(parts: seq<string>, d: char, c: char)
    requires |parts| >= 1
    requires c != d
    requires forall i :: 0 <= i < |parts| ==> c !in parts[i]
    ensures c !in Join(parts, d)
    ensures |parts| >= 2 ==> d in Join(parts, d)
    decreases |parts|
  {
    if |parts| > 1 {
      JoinContains(parts[1..], d, c);
      assert (parts[0] + [d] + Join(parts[1..], d))[|parts[0]|] == d;
    }
  }

  /** Trims every piece and drops the pieces that become empty. */
  function Compact(parts: seq<string>): (r: seq<string>)
    ensures |r| <= |parts|
    ensures forall i :: 0 <= i < |r| ==> r[i] != [] && Trimmed(r[i])
  {
    if parts == [] then []
    else (if Trim(parts[0]) == [] then [] else [Trim(parts[0])]) + Compact(parts[1..])
  }

  /** gstr.SplitAndTrim: split, trim every piece, drop the empty ones. */
  function SplitAndTrim(s: string, d: char): seq<string> {
    Compact(Split(s, d))
  }

  /** One step of the clean-up. */
  lemma CompactCons(x: string, rest: seq<string>)
    ensures Compact([x] + rest) == (if Trim(x) == [] then [] else [Trim(x)]) + Compact(rest)
  {
    assert ([x] + rest)[0] == x;
    assert ([x] + rest)[1..] == rest;
  }

  lemma {:induction false} CompactAppend(a: seq<string>, b: seq<string>)
    ensures Compact(a + b) == Compact(a) + Compact(b)
    decreases |a|
  {
    if a == [] {
      assert a + b == b;
    } else {
      assert (a + b)[0] == a[0];
      assert (a + b)[1..] == a[1..] + b;
      CompactAppend(a[1..], b);
    }
  }

  /** Pieces that are already non-empty and trimmed pass through unchanged. */
  lemma {:induction false} CompactClean(parts: seq<string>)
    requires forall i :: 0 <= i < |parts| ==> parts[i] != [] && Trimmed(parts[i])
    ensures Compact(parts) == parts
    decreases |parts|
  {
    if parts != [] {
      TrimIdentity(parts[0]);
      CompactClean(parts[1..]);
    }
  }

  // ---------------------------------------------------------------- substrings

  predicate HasPrefix(s: string, p: string) {
    |p| <= |s| && s[..|p|] == p
  }

  /** gstr.Contains: `sub` occurs somewhere in `s`. */
  predicate Contains(s: string, sub: string)
    decreases |s|
  {
    HasPrefix(s, sub) || (|s| > 0 && Contains(s[1..], sub))
  }

  // ---------------------------------------------------------------- integers

  predicate IsDigit(c: char) {
    '0' <= c <= '9'
  }

  predicate AllDigits(s: string) {
    forall i :: 0 <= i < |s| ==> IsDigit(s[i])
  }

  function DigitValue(c: char): nat
    requires IsDigit(c)
  {
    c as int - '0' as int
  }

  function DigitChar(d: nat): (c: char)
    requires d < 10
    ensures IsDigit(c) && DigitValue(c) == d
  {
    ('0' as int + d) as char
  }

  /** The value of a string of decimal digits. */
  function DigitsValue(s: string): nat
    requires AllDigits(s)
  {
    if s == [] then 0 else 10 * DigitsValue(s[..|s| - 1]) + DigitValue(s[|s| - 1])
  }

  /** strconv.Atoi: an optional sign followed by at least one decimal digit. The 64-bit
      range check of Go is not modelled. */
  function Atoi(s: string): Option<int> {
    if |s| > 0 && (s[0] == '-' || s[0] == '+') then
      if |s| > 1 && AllDigits(s[1..]) then
        var v: int := DigitsValue(s[1..]);
        Some(if s[0] == '-' then -v else v)
      else None
    else if |s| > 0 && AllDigits(s) then Some(DigitsValue(s))
    else None
  }

  /** The decimal digits of `n`, most significant first. */
  function NatToString(n: nat): (r: string)
    ensures |r| >= 1 && AllDigits(r)
    ensures DigitsValue(r) == n
    decreases n
  {
    if n < 10 then [DigitChar(n)]
    else
      var q := NatToString(n / 10);
      var r := q + [DigitChar(n % 10)];
      assert r[..|r| - 1] == q;
      r
  }

  /** strconv.Itoa: a '-' for negative numbers, then the digits. */
  function Itoa(n: int): (r: string)
    ensures |r| >= 1 && IsDigit(r[|r| - 1])
    ensures forall i :: 0 <= i < |r| ==> IsDigit(r[i]) || (i == 0 && r[i] == '-')
  {
    if n < 0 then "-" + NatToString(-n) else NatToString(n)
  }

  /** Atoi reads back what Itoa writes. */
  lemma AtoiItoa(n: int)
    ensures Atoi(Itoa(n)) == Some(n)
  {
    var s := Itoa(n);
    if n < 0 {
      assert s[1..] == NatToString(-n);
    } else {
      assert s == NatToString(n);
    }
  }

  /** A digit string has a positive value exactly when one of its digits is not '0'. */
  lemma {:induction false} DigitsValuePositive(s: string)
    requires AllDigits(s)
    ensures DigitsValue(s) > 0 <==> exists i :: 0 <= i < |s| && s[i] != '0'
    decreases |s|
  {
    if s != [] {
      var p := s[..|s| - 1];
      DigitsValuePositive(p);
      if DigitsValue(s) > 0 {
        if DigitValue(s[|s| - 1]) == 0 {
          var i :| 0 <= i < |p| && p[i] != '0';
          assert s[i] == p[i];
        }
      } else {
        forall i | 0 <= i < |s| ensures s[i] == '0' {
          if i < |p| {
            assert s[i] == p[i];
          }
        }
      }
    }
  }

  predicate IsSign(c: char) {
    c == '-' || c == '+'
  }

  function DotCount(s: string): nat {
    if s == [] then 0 else (if s[0] == '.' then 1 else 0) + DotCount(s[1..])
  }

  /** The character at `i` passes gstr.IsNumeric's scan: a leading sign, a digit, or an
      interior '.' that follows a digit. */
  predicate NumericCharAt(s: string, i: nat)
    requires i < |s|
  {
    (i == 0 && IsSign(s[i])) || IsDigit(s[i]) || (s[i] == '.' && 0 < i < |s| - 1 && IsDigit(s[i - 1]))
  }

  /** gstr.IsNumeric: a possibly signed decimal number with at most one '.'. */
  predicate IsNumeric(s: string) {
    && |s| > 0
    && !(|s| == 1 && IsSign(s[0]))
    && (forall i: nat :: i < |s| ==> NumericCharAt(s, i))
    && DotCount(s) <= 1
  }

  lemma {:induction false} DotCountNone(s: string)
    requires '.' !in s
    ensures DotCount(s) == 0
    decreases |s|
  {
    if s != [] {
      assert s[0] in s;
      assert forall c :: c in s[1..] ==> c in s;
      DotCountNone(s[1..]);
    }
  }

  /** Whatever Atoi accepts, IsNumeric accepts too. */
  lemma AtoiIsNumeric(s: string)
    requires Atoi(s).Some?
    ensures IsNumeric(s)
  {
    forall i: nat | i < |s| ensures NumericCharAt(s, i) {
      if i > 0 && IsSign(s[0]) {
        assert s[i] == s[1..][i - 1];
      }
    }
    assert '.' !in s by {
      forall i | 0 <= i < |s| ensures s[i] != '.' {
        assert NumericCharAt(s, i);
      }
    }
    DotCountNone(s);
  }

  /** The range of Go's 64-bit `int`. */
  const MinInt64: int := -0x8000_0000_0000_0000
  const MaxInt64: int := 0x7FFF_FFFF_FFFF_FFFF

  /** The two's-complement reduction of `x` into Go's 64-bit `int`. */
  function Wrap64(x: int): (r: int)
    ensures MinInt64 <= r <= MaxInt64
    ensures (x - r) % 0x1_0000_0000_0000_0000 == 0
    ensures MinInt64 <= x <= MaxInt64 ==> r == x
  {
    (x - MinInt64) % 0x1_0000_0000_0000_0000 + MinInt64
  }

  /** Go's `n++` on a 64-bit `int`: one more, except that the largest value wraps to the
      smallest. */
  function Inc64(n: int): (r: int)
    ensures MinInt64 <= n <= MaxInt64 ==> MinInt64 <= r <= MaxInt64
  {
    if n == MaxInt64 then MinInt64 else n + 1
  }

  /** On Go's `int`, the increment is the two's-complement reduction of n + 1. */
  lemma Inc64Wraps(n: int)
    requires MinInt64 <= n <= MaxInt64
    ensures Inc64(n) == Wrap64(n + 1)
  {
    if n == MaxInt64 {
      assert n + 1 - MinInt64 == 0x1_0000_0000_0000_0000;
    }
  }

  // ---------------------------------------------------------------- quoting

  function HexDigit(d: nat): char
    requires d < 16
  {
    if d < 10 then DigitChar(d) else ('a' as int + d - 10) as char
  }

  /** The text strconv.Quote writes for one character. ASCII is covered exactly; every other
      character is written as itself. */
  function EscapeChar(c: char): string {
    if c == '"' then "\\\""
    else if c == '\\' then "\\\\"
    else if c as int == 7 then "\\a"
    else if c as int == 8 then "\\b"
    else if c as int == 12 then "\\f"
    else if c == '\n' then "\\n"
    else if c == '\r' then "\\r"
    else if c == '\t' then "\\t"
    else if c as int == 11 then "\\v"
    else if c as int < 32 || c as int == 127 then "\\x" + [HexDigit(c as int / 16), HexDigit(c as int % 16)]
    else [c]
  }

  function QuoteBody(s: string): string {
    if s == [] then [] else EscapeChar(s[0]) + QuoteBody(s[1..])
  }

  /** strconv.Quote: the escaped text between double quotes. */
  function Quote(s: string): string {
    "\"" + QuoteBody(s) + "\""
  }

  /** Printable ASCII other than the double quote and the backslash. */
  predicate PlainText(s: string) {
    forall i :: 0 <= i < |s| ==> 32 <= s[i] as int < 127 && s[i] != '"' && s[i] != '\\'
  }

  /** Quote escapes nothing in plain text. */
  lemma {:induction false} QuotePlain(s: string)
    requires PlainText(s)
    ensures Quote(s) == "\"" + s + "\""
    decreases |s|
  {
    QuoteBodyPlain(s);
  }

  lemma {:induction false} QuoteBodyPlain(s: string)
    requires PlainText(s)
    ensures QuoteBody(s) == s
    decreases |s|
  {
    if s != [] {
      QuoteBodyPlain(s[1..]);
      assert [s[0]] + s[1..] == s;
    }
  }
}
