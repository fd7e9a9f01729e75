/** Field validators of the zone engine: checkTTL, checkPriority, checkIPv4Address and the
    vendor "A9" address check, checkIPv9Address (dns/zonefile/chn.go). */
module Validators {
  import opened Wrappers
  import opened ZoneErrors
  import opened GoStrings

  // ---------------------------------------------------------------- TTL and priority

  /** checkTTL: the TTL must be read by Atoi as an integer greater than zero. */
  function CheckTTL(ttl: string): Outcome<ZoneError> {
    match Atoi(ttl)
    case None => Fail(InvalidTTL)
    case Some(n) => if n <= 0 then Fail(InvalidTTL) else Pass
  }

  /** checkPriority: the same test as checkTTL, for the MX priority. */
  function CheckPriority(pri: string): Outcome<ZoneError> {
    match Atoi(pri)
    case None => Fail(InvalidPriority)
    case Some(n) => if n <= 0 then Fail(InvalidPriority) else Pass
  }

  /** A positive decimal numeral, optionally after a '+': digits only, and not all zeros. */
  predicate PositiveNumeral(s: string) {
    var body := if |s| > 0 && s[0] == '+' then s[1..] else s;
    |body| > 0 && AllDigits(body) && exists i :: 0 <= i < |body| && body[i] != '0'
  }

  /** The TTL and priority checks accept exactly the positive numerals: a '-' sign, zero,
      an empty string and any non-digit are rejected. */
  lemma CheckTTLAccepts(s: string)
    ensures CheckTTL(s) == Pass <==> PositiveNumeral(s)
    ensures CheckPriority(s) == Pass <==> PositiveNumeral(s)
  {
    if |s| > 0 && s[0] == '+' && |s| > 1 && AllDigits(s[1..]) {
      var body := s[1..];
      DigitsValuePositive(body);
      assert Atoi(s) == Some(DigitsValue(body) as int);
      assert |body| > 0 && AllDigits(body);
      assert PositiveNumeral(s) ==> exists i :: 0 <= i < |body| && body[i] != '0';
      assert (exists i :: 0 <= i < |body| && body[i] != '0') ==> PositiveNumeral(s);
      assert CheckTTL(s) == Pass <==> DigitsValue(body) > 0;
    } else if |s| > 0 && s[0] != '-' && s[0] != '+' && AllDigits(s) {
      DigitsValuePositive(s);
      assert Atoi(s) == Some(DigitsValue(s) as int);
      assert PositiveNumeral(s) ==> exists i :: 0 <= i < |s| && s[i] != '0';
      assert (exists i :: 0 <= i < |s| && s[i] != '0') ==> PositiveNumeral(s);
    } else if |s| > 0 && s[0] == '-' {
      assert !IsDigit(s[0]);
    }
  }

  /** A TTL written by Itoa passes exactly when it is positive. */
  lemma CheckTTLItoa(n: int)
    ensures CheckTTL(Itoa(n)) == Pass <==> n > 0
    ensures CheckPriority(Itoa(n)) == Pass <==> n > 0
  {
    AtoiItoa(n);
  }

  // ---------------------------------------------------------------- addresses

  /** checkIPv4Address: net.ParseIP must accept the data. net.ParseIP is not part of this
      model; it is the parameter `isIP` (it accepts IPv6 text too). */
  function CheckIPv4Address(address: string, isIP: string -> bool): Outcome<ZoneError> {
    if isIP(address) then Pass else Fail(InvalidAddress)
  }

  /** One plain A9 segment: an IP literal, or a numeric item Atoi reads as a value >= 0. */
  predicate SegmentValid(item: string, isIP: string -> bool) {
    isIP(item) || (IsNumeric(item) && Atoi(item).Some? && Atoi(item).value >= 0)
  }

  /** What the compression loop demands of one segment. A segment with a ']' needs a count
      in [1, 8] before its first ']', and only the text between the first and the second ']'
      is then checked as a plain segment; other segments must be plain segments. */
  predicate CompressedSegmentValid(item: string, isIP: string -> bool) {
    if ']' in item then
      var parts := Split(item, ']');
      Atoi(parts[0]).Some? && 1 <= Atoi(parts[0]).value <= 8 && SegmentValid(parts[1], isIP)
    else SegmentValid(item, isIP)
  }

  /** The number of segments a compressed segment "N]x" stands for besides itself. */
  function CompressCount(item: string): int {
    if ']' in item then
      match Atoi(Split(item, ']')[0])
      case Some(n) => n
      case None => 0
    else 0
  }

  function TotalCompression(items: seq<string>): int {
    if items == [] then 0
    else TotalCompression(items[..|items| - 1]) + CompressCount(items[|items| - 1])
  }

  /** The A9 notation: no space, '['-separated segments, and either exactly eight plain
      segments, or fewer segments with at least one ']' whose compression counts make the
      total up to eight. */
  predicate IPv9Valid(address: string, isIP: string -> bool) {
    var items := Split(address, '[');
    && ' ' !in address
    && '[' in address
    && if |items| == 8 then
         forall i :: 0 <= i < 8 ==> SegmentValid(items[i], isIP)
       else
         && |items| < 8
         && ']' in address
         && (forall i :: 0 <= i < |items| ==> CompressedSegmentValid(items[i], isIP))
         && |items| + TotalCompression(items) == 8
  }

  /** The test both loops of checkIPv9Address make of one segment. */
  method CheckSegment(item: string, isIP: string -> bool) returns (ok: bool)
    ensures ok == SegmentValid(item, isIP)
  {
    var isAddress := isIP(item);
    if !IsNumeric(item) && !isAddress {
      return false;
    }
    if !isAddress {
      var decIP := Atoi(item);
      if decIP.None? {
        return false;
      }
      if decIP.value < 0 {
        return false;
      }
    }
    return true;
  }

  /** checkIPv9Address, loop for loop: the two segment loops are the methods below. */
  method CheckIPv9Address(address: string, isIP: string -> bool) returns (r: Outcome<ZoneError>)
    ensures r == if IPv9Valid(address, isIP) then Pass else Fail(InvalidAddress)
  {
    if ' ' in address {
      return Fail(InvalidAddress);
    }
    if '[' !in address {
      return Fail(InvalidAddress);
    }
    var items := Split(address, '[');
    if |items| == 8 {
      var ok := CheckPlainSegments(items, isIP);
      return if ok then Pass else Fail(InvalidAddress);
    }
    if |items| > 8 {
      return Fail(InvalidAddress);
    }
    if ']' !in address {
      return Fail(InvalidAddress);
    }
    var ok, compressLens := CheckCompressedSegments(items, isIP);
    if !ok {
      return Fail(InvalidAddress);
    }
    if |items| + compressLens != 8 {
      return Fail(InvalidAddress);
    }
    return Pass;
  }

  /** The loop over exactly eight segments: each must be a plain segment. */
  method CheckPlainSegments(items: seq<string>, isIP: string -> bool) returns (ok: bool)
    ensures ok == forall j :: 0 <= j < |items| ==> SegmentValid(items[j], isIP)
  {
    for i := 0 to |items|
      invariant forall j :: 0 <= j < i ==> SegmentValid(items[j], isIP)
    {
      var valid := CheckSegment(items[i], isIP);
      if !valid {
        return false;
      }
    }
    return true;
  }

  /** The loop over fewer segments: each must be a valid compressed or plain segment, and
      the compression counts are summed. */
  method CheckCompressedSegments(items: seq<string>, isIP: string -> bool) returns (ok: bool, compressLens: int)
    ensures ok == forall j :: 0 <= j < |items| ==> CompressedSegmentValid(items[j], isIP)
    ensures ok ==> compressLens == TotalCompression(items)
  {
    compressLens := 0;
    for i := 0 to |items|
      invariant compressLens == TotalCompression(items[..i])
      invariant forall j :: 0 <= j < i ==> CompressedSegmentValid(items[j], isIP)
    {
      assert items[..i + 1][..i] == items[..i];
      var item := items[i];
      if ']' in item {
        var compressItems := Split(item, ']');
        var compressLen := Atoi(compressItems[0]);
        if compressLen.None? {
          return false, compressLens;
        }
        if compressLen.value <= 0 {
          return false, compressLens;
        }
        if compressLen.value > 8 {
          return false, compressLens;
        }
        compressLens := compressLens + compressLen.value;
        item := compressItems[1];
      }
      var valid := CheckSegment(item, isIP);
      if !valid {
        return false, compressLens;
      }
    }
    assert items[..|items|] == items;
    return true, compressLens;
  }

  // ---------------------------------------------------------------- A9 properties

  /** With a second ']' in a segment, the text after it is never looked at: only the count
      before the first ']' and the text between the two are checked. */
  lemma SecondBracketIgnored(k: string, x: string, rest: string, isIP: string -> bool)
    requires ']' !in k && ']' !in x
    ensures CompressedSegmentValid(k + "]" + x + "]" + rest, isIP) <==>
      Atoi(k).Some? && 1 <= Atoi(k).value <= 8 && SegmentValid(x, isIP)
  {
    var item := k + "]" + x + "]" + rest;
    assert item == k + [']'] + (x + [']'] + rest);
    assert item[|k|] == ']';
    SplitAfter(x, ']', rest);
    SplitAfter(k, ']', x + [']'] + rest);
  }

  /** So "1]2]x" is a valid segment for every IP oracle: "2" is checked, "x" is not. */
  lemma SecondBracketExample(isIP: string -> bool)
    ensures CompressedSegmentValid("1]2]x", isIP)
    ensures !SegmentValid("x", (s: string) => false)
  {
    assert "1]2]x" == "1" + "]" + "2" + "]" + "x";
    SecondBracketIgnored("1", "2", "x", isIP);
    SmallNumerals();
  }

  /** The numerals of the example: "1" and "2" read as numbers, "x" does not. */
  lemma SmallNumerals()
    ensures Atoi("1") == Some(1) && Atoi("2") == Some(2) && IsNumeric("2")
    ensures Atoi("x") == None
  {
    assert Atoi("1") == Some(1) by {
      assert AllDigits("1");
    }
    assert Atoi("2") == Some(2) by {
      assert AllDigits("2");
    }
    assert IsNumeric("2") by {
      assert NumericCharAt("2", 0);
      DotCountNone("2");
    }
    assert Atoi("x") == None by {
      assert !IsDigit("x"[0]);
    }
  }

  /** Next to a successful Atoi the IsNumeric test adds nothing: a plain segment is valid
      exactly when it is an IP literal or reads as a non-negative integer. */
  lemma SegmentValidIff(item: string, isIP: string -> bool)
    ensures SegmentValid(item, isIP) <==> isIP(item) || (Atoi(item).Some? && Atoi(item).value >= 0)
  {
    if Atoi(item).Some? {
      AtoiIsNumeric(item);
    }
  }

  /** With exactly eight segments and no space, an address is accepted exactly when every
      segment is an IP literal or a non-negative integer. */
  lemma EightSegments(address: string, isIP: string -> bool)
    requires ' ' !in address && |Split(address, '[')| == 8
    ensures IPv9Valid(address, isIP) <==>
      forall i :: 0 <= i < 8 ==>
        var item := Split(address, '[')[i];
        isIP(item) || (Atoi(item).Some? && Atoi(item).value >= 0)
  {
    var items := Split(address, '[');
    forall i | 0 <= i < 8 {
      SegmentValidIff(items[i], isIP);
    }
  }

  /** More than eight segments are always rejected, and so are fewer than eight without
      any ']'. */
  lemma SegmentCountRejects(address: string, isIP: string -> bool)
    ensures |Split(address, '[')| > 8 ==> !IPv9Valid(address, isIP)
    ensures |Split(address, '[')| < 8 && ']' !in address ==> !IPv9Valid(address, isIP)
  {
  }

  /** The decimal text of each number. */
  function Decimals(ns: seq<nat>): (r: seq<string>)
    ensures |r| == |ns|
    ensures forall i :: 0 <= i < |ns| ==> r[i] == Itoa(ns[i])
  {
    if ns == [] then [] else [Itoa(ns[0])] + Decimals(ns[1..])
  }

  /** Itoa writes no separator, bracket or space. */
  lemma ItoaHasNo(n: int, c: char)
    requires !IsDigit(c) && c != '-'
    ensures c !in Itoa(n)
  {
  }

  /** A decimal segment is a valid plain segment. */
  lemma DecimalSegmentValid(n: nat, isIP: string -> bool)
    ensures SegmentValid(Itoa(n), isIP)
  {
    AtoiItoa(n);
    SegmentValidIff(Itoa(n), isIP);
  }

  lemma {:induction false} JoinHas(parts: seq<string>, d: char, j: nat, c: char)
    requires j < |parts| && c in parts[j]
    ensures c in Join(parts, d)
    decreases |parts|
  {
    if |parts| > 1 {
      if j > 0 {
        JoinHas(parts[1..], d, j - 1, c);
      }
      var k :| 0 <= k < |parts[j]| && parts[j][k] == c;
      if j == 0 {
        assert Join(parts, d)[k] == c;
      } else {
        var t := Join(parts[1..], d);
        var m :| 0 <= m < |t| && t[m] == c;
        assert Join(parts, d)[|parts[0]| + 1 + m] == c;
      }
    }
  }

  /** Eight non-negative numbers written in decimal and joined by '[' always form a valid
      A9 address. */
  lemma EightDecimalsValid(ns: seq<nat>, isIP: string -> bool)
    requires |ns| == 8
    ensures IPv9Valid(Join(Decimals(ns), '['), isIP)
  {
    var parts := Decimals(ns);
    forall i | 0 <= i < |parts| ensures '[' !in parts[i] && ' ' !in parts[i] {
      ItoaHasNo(ns[i], '[');
      ItoaHasNo(ns[i], ' ');
    }
    SplitJoin(parts, '[');
    JoinContains(parts, '[', ' ');
    forall i | 0 <= i < 8 ensures SegmentValid(parts[i], isIP) {
      DecimalSegmentValid(ns[i], isIP);
    }
  }

  lemma {:induction false} TotalCompressionAppend(a: seq<string>, b: seq<string>)
    ensures TotalCompression(a + b) == TotalCompression(a) + TotalCompression(b)
    decreases |b|
  {
    if b == [] {
      assert a + b == a;
    } else {
      var b' := b[..|b| - 1];
      assert (a + b)[..|a + b| - 1] == a + b';
      TotalCompressionAppend(a, b');
    }
  }

  lemma {:induction false} NoCompression(items: seq<string>)
    requires forall i :: 0 <= i < |items| ==> ']' !in items[i]
    ensures TotalCompression(items) == 0
    decreases |items|
  {
    if items != [] {
      NoCompression(items[..|items| - 1]);
    }
  }

  /** A compressed segment "k]x" written in decimal. */
  lemma CompressedDecimal(k: nat, x: nat, isIP: string -> bool)
    requires 1 <= k <= 8
    ensures var c := Itoa(k) + "]" + Itoa(x);
      && ']' in c && '[' !in c && ' ' !in c
      && CompressCount(c) == k && CompressedSegmentValid(c, isIP)
  {
    var c := Itoa(k) + "]" + Itoa(x);
    ItoaHasNo(k, ']');
    ItoaHasNo(x, ']');
    assert c == Itoa(k) + [']'] + Itoa(x);
    assert c[|Itoa(k)|] == ']';
    SplitAfter(Itoa(k), ']', Itoa(x));
    assert Split(c, ']') == [Itoa(k), Itoa(x)];
    AtoiItoa(k);
    DecimalSegmentValid(x, isIP);
  }

  /** Decimal segments carry no brackets and are valid compression-loop segments. */
  lemma DecimalItems(ns: seq<nat>, isIP: string -> bool)
    ensures forall i :: 0 <= i < |ns| ==>
      ']' !in Decimals(ns)[i] && '[' !in Decimals(ns)[i] && ' ' !in Decimals(ns)[i]
      && CompressedSegmentValid(Decimals(ns)[i], isIP)
    ensures TotalCompression(Decimals(ns)) == 0
  {
    var ds := Decimals(ns);
    forall i | 0 <= i < |ns|
      ensures ']' !in ds[i] && '[' !in ds[i] && ' ' !in ds[i] && CompressedSegmentValid(ds[i], isIP)
    {
      ItoaHasNo(ns[i], ']');
      ItoaHasNo(ns[i], '[');
      ItoaHasNo(ns[i], ' ');
      DecimalSegmentValid(ns[i], isIP);
    }
    NoCompression(ds);
  }

  /** One compressed segment "k]x" among two to seven decimal segments: the address is
      valid exactly when the segments and k make eight. */
  lemma OneCompressedValid(pre: seq<nat>, k: nat, x: nat, post: seq<nat>, isIP: string -> bool)
    requires 1 <= k <= 8
    requires 1 <= |pre| + |post| && |pre| + 1 + |post| < 8
    ensures var address := Join(Decimals(pre) + [Itoa(k) + "]" + Itoa(x)] + Decimals(post), '[');
      IPv9Valid(address, isIP) <==> |pre| + 1 + |post| + k == 8
  {
    var c := Itoa(k) + "]" + Itoa(x);
    var dp := Decimals(pre);
    var dq := Decimals(post);
    var parts := dp + [c] + dq;
    ItemsOfOneCompressed(dp, c, dq, k, x, pre, post, isIP);
    var address := Join(parts, '[');
    SplitJoin(parts, '[');
    JoinContains(parts, '[', ' ');
    JoinHas(parts, '[', |dp|, ']');
    TotalCompressionAppend(dp, [c]);
    TotalCompressionAppend(dp + [c], dq);
    assert TotalCompression([c]) == k by {
      assert [c][..0] == [];
    }
    CompressedForm(address, parts, isIP);
  }

  lemma ItemsOfOneCompressed(dp: seq<string>, c: string, dq: seq<string>, k: nat, x: nat,
                             pre: seq<nat>, post: seq<nat>, isIP: string -> bool)
    requires 1 <= k <= 8
    requires dp == Decimals(pre) && dq == Decimals(post) && c == Itoa(k) + "]" + Itoa(x)
    ensures var parts := dp + [c] + dq;
      && (forall i :: 0 <= i < |parts| ==>
           '[' !in parts[i] && ' ' !in parts[i] && CompressedSegmentValid(parts[i], isIP))
      && ']' in c && CompressCount(c) == k
      && TotalCompression(dp) == 0 && TotalCompression(dq) == 0
  {
    CompressedDecimal(k, x, isIP);
    DecimalItems(pre, isIP);
    DecimalItems(post, isIP);
    var parts := dp + [c] + dq;
    forall i | 0 <= i < |parts|
      ensures '[' !in parts[i] && ' ' !in parts[i] && CompressedSegmentValid(parts[i], isIP)
    {
      if i > |dp| {
        assert parts[i] == dq[i - |dp| - 1];
      } else if i < |dp| {
        assert parts[i] == dp[i];
      }
    }
  }

  /** The compression branch of IPv9Valid, for an address whose segments are known. */
  lemma CompressedForm(address: string, items: seq<string>, isIP: string -> bool)
    requires Split(address, '[') == items && 2 <= |items| < 8
    requires ' ' !in address && ']' in address
    requires forall i :: 0 <= i < |items| ==> CompressedSegmentValid(items[i], isIP)
    ensures IPv9Valid(address, isIP) <==> |items| + TotalCompression(items) == 8
  {
  }
}
