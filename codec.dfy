/** The zone-file line format of dns/zonefile/chn.go: the request record, the line each
    add*Record function writes, and the way findRecord, findDNSRecordAndDelete and
    QueryDNSRecord split a line back into fields. */
module RecordCodec {
  import opened Wrappers
  import opened GoStrings

  /** dnsRecord. `rrClass` is the `IN` field, which a JSON request never sets. */
  datatype DnsRecord = DnsRecord(
    domainName: string,
    ttl: string,
    rrClass: string,
    rrType: string,
    priority: string,
    data: string)

  /** The record types the facades accept. */
  predicate SupportedType(t: string) {
    t in {"MX", "A", "A9", "NS", "PTR", "CNAME", "TXT"}
  }

  /** The comment line after which each add*Record function inserts its line. */
  function SectionMarker(t: string): (m: Option<string>)
    ensures m.Some? <==> SupportedType(t)
    ensures m.Some? ==> |m.value| > 0 && m.value[0] == ';'
  {
    match t
    case "NS" => Some("; Nameservers")
    case "MX" => Some("; Mailservers")
    case "PTR" => Some("; Reverse DNS Records (PTR)")
    case "CNAME" => Some("; CNAME")
    case "TXT" => Some("; TXT")
    case "A" => Some("; HOST RECORDS")
    case "A9" => Some("; HOST RECORDS")
    case _ => None
  }

  /** The line marking the start of the record area every scan begins at. */
  const NameserversMarker: string := "; Nameservers"

  /** The last field of the line each add*Record function writes: NS and CNAME data with a
      "." appended, TXT data through strconv.Quote, MX priority and data, and the bare data
      for PTR, A and A9. */
  function RecordText(rec: DnsRecord): string {
    match rec.rrType
    case "NS" => rec.data + "."
    case "CNAME" => rec.data + "."
    case "TXT" => Quote(rec.data)
    case "MX" => rec.priority + " " + rec.data
    case _ => rec.data
  }

  /** The line written for a record: domain, TTL, "IN", type and the type's own text,
      separated by single spaces. */
  function Encode(rec: DnsRecord): string {
    rec.domainName + " " + rec.ttl + " " + "IN" + " " + rec.rrType + " " + RecordText(rec)
  }

  // ---------------------------------------------------------------- decoding

  /** gstr.SplitAndTrim(line, " "). */
  function Tokens(line: string): seq<string> {
    SplitAndTrim(line, ' ')
  }

  /** Lines every scan passes over: blank ones and comments whose first token is ";". */
  predicate Skipped(line: string) {
    var t := Tokens(line);
    |t| == 0 || t[0] == ";"
  }

  /** gstr.SplitAndTrim(line, `"`): the text of a TXT line is the second piece. */
  function QuotePieces(line: string): seq<string> {
    SplitAndTrim(line, '"')
  }

  /** A line the decoder can read without indexing past the end: four tokens, and the
      pieces its type's data needs. */
  predicate Decodable(line: string) {
    var t := Tokens(line);
    && |t| >= 4
    && (if t[3] == "MX" then |t| >= 6
        else if t[3] == "TXT" then |QuotePieces(line)| >= 2
        else |t| >= 5)
  }

  /** The data the decoder reads from a line of a given type. */
  function LineData(line: string): string
    requires Decodable(line)
  {
    var t := Tokens(line);
    if t[3] == "MX" then t[5]
    else if t[3] == "TXT" then QuotePieces(line)[1]
    else t[4]
  }

  /** The record QueryDNSRecord builds from a line. A priority is read for MX only. */
  function Decode(line: string): DnsRecord
    requires Decodable(line)
  {
    var t := Tokens(line);
    DnsRecord(t[0], t[1], t[2], t[3], if t[3] == "MX" then t[4] else "", LineData(line))
  }

  /** The test of findRecord and findDNSRecordAndDelete: same domain and type, then MX
      compares token 5, TXT the quoted text, NS token 4 with data + ".", and every other
      type token 4 with the data as given. A line too short to index matches nothing. */
  predicate Matches(line: string, rec: DnsRecord) {
    var t := Tokens(line);
    && !Skipped(line)
    && t[0] == rec.domainName
    && |t| >= 4 && t[3] == rec.rrType
    && (if rec.rrType == "MX" then |t| >= 6 && t[5] == rec.data
        else if rec.rrType == "TXT" then |QuotePieces(line)| >= 2 && QuotePieces(line)[1] == rec.data
        else if rec.rrType == "NS" then |t| >= 5 && t[4] == rec.data + "."
        else |t| >= 5 && t[4] == rec.data)
  }

  /** The lines findRecord can test without a panic: Go reads token 3 of every line whose
      first token is the domain, and the type's data when the type is equal too. */
  predicate MatchSafe(line: string, rec: DnsRecord) {
    var t := Tokens(line);
    Skipped(line) || t[0] != rec.domainName || (|t| >= 4 && (t[3] == rec.rrType ==> Decodable(line)))
  }

  /** A line that matches can be tested without a panic. */
  lemma MatchesSafe(line: string, rec: DnsRecord)
    requires Matches(line, rec)
    ensures MatchSafe(line, rec)
  {
  }

  // ---------------------------------------------------------------- round trip

  /** A field that survives tokenising: non-empty, no space, no double quote and no white
      space at either end. */
  predicate Word(s: string) {
    s != [] && Trimmed(s) && ' ' !in s && '"' !in s
  }

  /** The records whose lines read back: every field a Word, the domain not ";", and TXT
      data plain printable text with no white space at either end. */
  predicate PlainRecord(rec: DnsRecord) {
    && Word(rec.domainName) && rec.domainName != ";"
    && Word(rec.ttl) && Word(rec.rrType)
    && (rec.rrType == "MX" ==> Word(rec.priority))
    && (if rec.rrType == "TXT" then rec.data != [] && Trimmed(rec.data) && PlainText(rec.data)
        else Word(rec.data))
  }

  /** The record the decoder returns for the line of `rec`: class "IN", a priority for MX
      only, and NS and CNAME data still carrying the "." the encoder appended. It is the
      record itself exactly when that record already has class "IN", no priority unless it
      is MX, and a type other than NS and CNAME. */
  function ReadBack(rec: DnsRecord): (r: DnsRecord)
    ensures r.domainName == rec.domainName && r.ttl == rec.ttl && r.rrType == rec.rrType
    ensures r == rec <==>
      && rec.rrClass == "IN" && (rec.rrType != "MX" ==> rec.priority == "")
      && rec.rrType != "NS" && rec.rrType != "CNAME"
    ensures rec.rrType == "NS" || rec.rrType == "CNAME" ==> |r.data| == |rec.data| + 1 && r.data[..|rec.data|] == rec.data
  {
    DnsRecord(rec.domainName, rec.ttl, "IN", rec.rrType,
      if rec.rrType == "MX" then rec.priority else "",
      if rec.rrType == "NS" || rec.rrType == "CNAME" then rec.data + "." else rec.data)
  }

  lemma WordDot(s: string)
    requires Word(s)
    ensures Word(s + ".")
  {
    assert (s + ".")[0] == s[0];
  }

  /** The first space ends the first piece. */
  lemma SplitSpace(a: string, x: string)
    requires ' ' !in a
    ensures Split(a + " " + x, ' ') == [a] + Split(x, ' ')
  {
    assert a + " " + x == a + [' '] + x;
    SplitAfter(a, ' ', x);
  }

  /** An encoded line, its pieces grouped from the right. */
  lemma EncodeNested(rec: DnsRecord)
    ensures Encode(rec) == rec.domainName + " " + (rec.ttl + " " + ("IN" + " " + (rec.rrType + " " + RecordText(rec))))
  {
  }

  lemma ConsFour(a: string, b: string, c: string, e: string, t: seq<string>)
    ensures [a] + ([b] + ([c] + ([e] + t))) == [a, b, c, e] + t
  {
  }

  /** The first five space-separated pieces of a line, the last holding the rest. */
  lemma SplitFive(a: string, b: string, c: string, e: string, x: string)
    requires ' ' !in a && ' ' !in b && ' ' !in c && ' ' !in e
    ensures Split(a + " " + (b + " " + (c + " " + (e + " " + x))), ' ') == [a, b, c, e] + Split(x, ' ')
  {
    var r3 := e + " " + x;
    var r2 := c + " " + r3;
    var r1 := b + " " + r2;
    SplitSpace(e, x);
    SplitSpace(c, r3);
    SplitSpace(b, r2);
    SplitSpace(a, r1);
    ConsFour(a, b, c, e, Split(x, ' '));
  }

  lemma TokensOfWord(x: string)
    requires Word(x)
    ensures Tokens(x) == [x]
  {
    assert Split(x, ' ') == [x];
    CompactClean([x]);
  }

  /** Four words and a rest, separated by spaces, tokenise into the words and the tokens
      of the rest. */
  lemma TokensFive(a: string, b: string, c: string, e: string, x: string)
    requires Word(a) && Word(b) && Word(c) && Word(e)
    ensures Tokens(a + " " + (b + " " + (c + " " + (e + " " + x)))) == [a, b, c, e] + Tokens(x)
  {
    var line := a + " " + (b + " " + (c + " " + (e + " " + x)));
    var ws := [a, b, c, e];
    var sx := Split(x, ' ');
    SplitFive(a, b, c, e, x);
    assert Split(line, ' ') == ws + sx;
    CompactAppend(ws, sx);
    CleanFour(a, b, c, e);
  }

  lemma CleanFour(a: string, b: string, c: string, e: string)
    requires Word(a) && Word(b) && Word(c) && Word(e)
    ensures Compact([a, b, c, e]) == [a, b, c, e]
  {
    var ws := [a, b, c, e];
    assert forall i :: 0 <= i < |ws| ==> Word(ws[i]);
    CompactClean(ws);
  }

  /** The tokens of an encoded line: the four leading fields, then those of the type's
      text. */
  lemma TokensOfEncode(rec: DnsRecord)
    requires PlainRecord(rec)
    ensures Tokens(Encode(rec)) == [rec.domainName, rec.ttl, "IN", rec.rrType] + Tokens(RecordText(rec))
  {
    EncodeNested(rec);
    assert Word("IN");
    TokensFive(rec.domainName, rec.ttl, "IN", rec.rrType, RecordText(rec));
  }

  /** The tokens of the MX text: the priority and the data. */
  lemma TokensOfPair(p: string, x: string)
    requires Word(p) && Word(x)
    ensures Tokens(p + " " + x) == [p, x]
  {
    SplitAfter(p, ' ', x);
    assert p + " " + x == p + [' '] + x;
    assert Split(x, ' ') == [x];
    CompactClean([p, x]);
  }

  /** A quoted text always has a token: its opening quote is not white space. */
  lemma QuoteTokens(data: string)
    requires PlainText(data)
    ensures Tokens(Quote(data)) != []
  {
    QuotePlain(data);
    var q := Quote(data);
    var ps := Split(q, ' ');
    if ' ' in q {
      var i := FirstIndex(q, ' ');
      assert ps[0] == q[..i];
      assert i > 0;
      assert q[..i][0] == '"';
    }
    assert ps[0] != [] && ps[0][0] == '"';
    assert !AllTrim(ps[0]);
    assert ps == [ps[0]] + ps[1..];
    CompactAppend([ps[0]], ps[1..]);
  }

  /** The quote pieces of a TXT line: the trimmed text before the opening quote, then the
      quoted text. */
  lemma QuotePiecesOfTxt(head: string, data: string)
    requires head != [] && !IsTrimChar(head[0]) && '"' !in head
    requires data != [] && Trimmed(data) && PlainText(data)
    ensures QuotePieces(head + Quote(data)) == [Trim(head), data]
  {
    QuotedLine(head, data);
    SplitQuoted(head, data);
    assert !AllTrim(head);
    CompactQuoted(head, data);
  }

  /** A line ending in quoted plain text: the text between two quote characters. */
  lemma QuotedLine(head: string, data: string)
    requires PlainText(data)
    ensures '"' !in data
    ensures head + Quote(data) == head + ['"'] + (data + ['"'])
  {
    QuotePlain(data);
  }

  lemma SplitQuoted(head: string, data: string)
    requires '"' !in head && '"' !in data
    ensures Split(head + ['"'] + (data + ['"']), '"') == [head, data, []]
  {
    assert data + ['"'] == data + ['"'] + [];
    SplitAfter(data, '"', []);
    assert Split([], '"') == [[]];
    SplitAfter(head, '"', data + ['"']);
  }

  lemma CompactQuoted(head: string, data: string)
    requires !AllTrim(head)
    requires data != [] && Trimmed(data)
    ensures Compact([head, data, []]) == [Trim(head), data]
  {
    TrimIdentity(data);
    calc {
      Compact([head, data, []]);
    == { assert [head, data, []] == [head] + [data, []]; CompactCons(head, [data, []]); }
      [Trim(head)] + Compact([data, []]);
    == { assert [data, []] == [data] + [[]]; CompactCons(data, [[]]); }
      [Trim(head)] + ([data] + Compact([[]]));
    == { CompactCons([], []); }
      [Trim(head), data];
    }
  }

  lemma CompactOne(x: string)
    ensures Compact([x]) == if Trim(x) == [] then [] else [Trim(x)]
  {
    assert [x][1..] == [];
  }

  /** Decoding the line of a plain record gives back its domain, TTL, "IN", type, the MX
      priority, and the data the way the encoder wrote it. */
  lemma DecodeEncode(rec: DnsRecord)
    requires PlainRecord(rec)
    ensures Decodable(Encode(rec)) && !Skipped(Encode(rec))
    ensures Decode(Encode(rec)) == ReadBack(rec)
  {
    if rec.rrType == "MX" {
      DecodeEncodeMX(rec);
    } else if rec.rrType == "TXT" {
      DecodeEncodeTXT(rec);
    } else {
      DecodeEncodeOther(rec);
    }
  }

  /** The text of each type, one case at a time. */
  lemma RecordTextOf(rec: DnsRecord)
    ensures rec.rrType == "MX" ==> RecordText(rec) == rec.priority + " " + rec.data
    ensures rec.rrType == "NS" || rec.rrType == "CNAME" ==> RecordText(rec) == rec.data + "."
    ensures rec.rrType != "MX" && rec.rrType != "TXT" && rec.rrType != "NS" && rec.rrType != "CNAME" ==>
      RecordText(rec) == rec.data
  {
  }

  lemma DecodeEncodeMX(rec: DnsRecord)
    requires PlainRecord(rec) && rec.rrType == "MX"
    ensures Decodable(Encode(rec)) && !Skipped(Encode(rec))
    ensures Decode(Encode(rec)) == ReadBack(rec)
  {
    TokensOfEncode(rec);
    RecordTextOf(rec);
    TokensOfPair(rec.priority, rec.data);
    DecodeMX(Encode(rec), rec.domainName, rec.ttl, rec.priority, rec.data);
  }

  lemma DecodeEncodeTXT(rec: DnsRecord)
    requires PlainRecord(rec) && rec.rrType == "TXT"
    ensures Decodable(Encode(rec)) && !Skipped(Encode(rec))
    ensures Decode(Encode(rec)) == ReadBack(rec)
  {
    var rest := TxtTokens(rec);
    var h := TxtQuotes(rec);
    DecodeTXT(Encode(rec), rec.domainName, rec.ttl, rest, h, rec.data);
  }

  /** The tokens of a TXT line: the four header tokens, then at least one more. */
  lemma TxtTokens(rec: DnsRecord) returns (rest: seq<string>)
    requires PlainRecord(rec) && rec.rrType == "TXT"
    ensures Tokens(Encode(rec)) == [rec.domainName, rec.ttl, "IN", "TXT"] + rest && rest != []
  {
    TokensOfEncode(rec);
    QuoteTokens(rec.data);
    rest := Tokens(RecordText(rec));
  }

  /** The quote pieces of a TXT line: one piece before the quoted text, then the text. */
  lemma TxtQuotes(rec: DnsRecord) returns (h: string)
    requires PlainRecord(rec) && rec.rrType == "TXT"
    ensures QuotePieces(Encode(rec)) == [h, rec.data]
  {
    var head := rec.domainName + " " + rec.ttl + " " + "IN" + " " + rec.rrType + " ";
    TxtLine(rec, head);
    HeadNoQuote(rec.domainName, rec.ttl, rec.rrType);
    QuotePiecesOfTxt(head, rec.data);
    h := Trim(head);
  }

  lemma HeadNoQuote(d: string, ttl: string, ty: string)
    requires '"' !in d && '"' !in ttl && '"' !in ty
    ensures '"' !in d + " " + ttl + " " + "IN" + " " + ty + " "
  {
    var h := d + " " + ttl + " " + "IN" + " " + ty + " ";
    forall i | 0 <= i < |h| ensures h[i] != '"' {
      if i < |d| {
        assert h[i] == d[i];
      } else if |d| + 1 <= i < |d| + 1 + |ttl| {
        assert h[i] == ttl[i - |d| - 1];
      } else if |d| + |ttl| + 5 <= i < |d| + |ttl| + 5 + |ty| {
        assert h[i] == ty[i - |d| - |ttl| - 5];
      }
    }
  }

  lemma TxtLine(rec: DnsRecord, head: string)
    requires rec.rrType == "TXT" && rec.domainName != []
    requires head == rec.domainName + " " + rec.ttl + " " + "IN" + " " + rec.rrType + " "
    ensures Encode(rec) == head + Quote(rec.data)
    ensures head != [] && head[0] == rec.domainName[0]
  {
  }

  lemma DecodeEncodeOther(rec: DnsRecord)
    requires PlainRecord(rec) && rec.rrType != "MX" && rec.rrType != "TXT"
    ensures Decodable(Encode(rec)) && !Skipped(Encode(rec))
    ensures Decode(Encode(rec)) == ReadBack(rec)
  {
    TokensOfEncode(rec);
    RecordTextOf(rec);
    if rec.rrType == "NS" || rec.rrType == "CNAME" {
      WordDot(rec.data);
      TokensOfWord(rec.data + ".");
    } else {
      TokensOfWord(rec.data);
    }
    DecodeOther(Encode(rec), rec.domainName, rec.ttl, rec.rrType, ReadBack(rec).data);
  }

  lemma AppendFour(ws: seq<string>, rest: seq<string>)
    requires |ws| == 4
    ensures |ws + rest| == 4 + |rest|
    ensures forall i :: 0 <= i < 4 ==> (ws + rest)[i] == ws[i]
    ensures forall i :: 0 <= i < |rest| ==> (ws + rest)[4 + i] == rest[i]
  {
  }

  /** The decoder on a line with the six tokens of an MX record. */
  lemma DecodeMX(line: string, d: string, ttl: string, p: string, x: string)
    requires d != ";"
    requires Tokens(line) == [d, ttl, "IN", "MX"] + [p, x]
    ensures Decodable(line) && !Skipped(line)
    ensures Decode(line) == DnsRecord(d, ttl, "IN", "MX", p, x)
  {
    AppendFour([d, ttl, "IN", "MX"], [p, x]);
  }

  /** The decoder on a line with five tokens, of a type other than MX and TXT. */
  lemma DecodeOther(line: string, d: string, ttl: string, ty: string, x: string)
    requires d != ";" && ty != "MX" && ty != "TXT"
    requires Tokens(line) == [d, ttl, "IN", ty] + [x]
    ensures Decodable(line) && !Skipped(line)
    ensures Decode(line) == DnsRecord(d, ttl, "IN", ty, "", x)
  {
    AppendFour([d, ttl, "IN", ty], [x]);
  }

  /** The decoder on a TXT line: the data is the second quote piece. */
  lemma DecodeTXT(line: string, d: string, ttl: string, rest: seq<string>, h: string, x: string)
    requires d != ";"
    requires Tokens(line) == [d, ttl, "IN", "TXT"] + rest && rest != []
    requires QuotePieces(line) == [h, x]
    ensures Decodable(line) && !Skipped(line)
    ensures Decode(line) == DnsRecord(d, ttl, "IN", "TXT", "", x)
  {
    AppendFour([d, ttl, "IN", "TXT"], rest);
  }

  /** An encoded plain record is found by the duplicate and delete scans, except a CNAME:
      CNAME data is compared without the "." the encoder appended. */
  lemma MatchesEncode(rec: DnsRecord)
    requires PlainRecord(rec)
    ensures Matches(Encode(rec), rec) <==> rec.rrType != "CNAME"
  {
    DecodeEncode(rec);
    var line := Encode(rec);
    var t := Tokens(line);
    if rec.rrType == "TXT" {
      assert QuotePieces(line)[1] == rec.data;
    } else if rec.rrType == "CNAME" {
      assert t[4] == rec.data + ".";
      assert |rec.data + "."| != |rec.data|;
    } else if rec.rrType != "MX" {
      assert t[4] == LineData(line);
    }
  }
}
