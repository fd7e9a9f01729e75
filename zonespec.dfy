/** The zone engine of dns/zonefile/chn.go as functions on the line sequence: where scans
    start, insertion after a section marker, the serial bump, the record matcher, the query
    modes, serialisation, the request checks, and the two facades. The class in
    ZoneEngine is proved against these functions. */
module ZoneSpec {
  import opened Wrappers
  import opened ZoneErrors
  import opened GoStrings
  import opened Validators
  import opened RecordCodec

  // ---------------------------------------------------------------- positions

  /** The index of the first line equal to `x`, or |lines| when there is none. */
  function IndexOf(lines: seq<string>, x: string): (r: nat)
    ensures r <= |lines|
    ensures r < |lines| ==> lines[r] == x
    ensures forall j :: 0 <= j < r ==> lines[j] != x
    ensures r == |lines| <==> x !in lines
  {
    if lines == [] then 0
    else if lines[0] == x then 0
    else 1 + IndexOf(lines[1..], x)
  }

  /** Every scan sets its `start` flag at the first "; Nameservers" line: the lines from
      ScanStart on are the record area. */
  function ScanStart(lines: seq<string>): nat {
    IndexOf(lines, NameserversMarker)
  }

  // ---------------------------------------------------------------- insertion

  /** InsertAfter on the first line equal to the marker, or the "area not found" error with
      the lines unchanged. */
  function InsertAfterMarker(lines: seq<string>, marker: string, line: string)
    : (r: (Outcome<ZoneError>, seq<string>))
    ensures r.0 == Pass <==> marker in lines
    ensures r.0 != Pass ==> r.0 == Fail(SectionNotFound) && r.1 == lines
  {
    var k := IndexOf(lines, marker);
    if k == |lines| then (Fail(SectionNotFound), lines)
    else (Pass, lines[..k + 1] + [line] + lines[k + 1..])
  }

  /** The add*Record function of the record's type: its line after its section marker. */
  function InsertRecord(lines: seq<string>, rec: DnsRecord): (Outcome<ZoneError>, seq<string>) {
    match SectionMarker(rec.rrType)
    case None => (Fail(UnsupportedType), lines)
    case Some(marker) => InsertAfterMarker(lines, marker, Encode(rec))
  }

  function RemoveAt(lines: seq<string>, k: nat): (r: seq<string>)
    requires k < |lines|
    ensures |r| == |lines| - 1
    ensures forall j :: 0 <= j < k ==> r[j] == lines[j]
    ensures forall j :: k <= j < |r| ==> r[j] == lines[j + 1]
  {
    lines[..k] + lines[k + 1..]
  }

  // ---------------------------------------------------------------- serial

  /** The index of the first line containing "IN SOA", or |lines|. */
  function SoaIndex(lines: seq<string>): (r: nat)
    ensures r <= |lines|
    ensures r < |lines| ==> Contains(lines[r], "IN SOA")
  {
    if lines == [] then 0
    else if Contains(lines[0], "IN SOA") then 0
    else 1 + SoaIndex(lines[1..])
  }

  /** No line before the first SOA line contains "IN SOA". */
  lemma {:induction false} SoaIndexFirst(lines: seq<string>, j: nat)
    requires j < SoaIndex(lines)
    ensures !Contains(lines[j], "IN SOA")
    decreases j
  {
    if j > 0 {
      SoaIndexFirst(lines[1..], j - 1);
    }
  }

  /** incrementSerial reads the line after the SOA line; an SOA line that is the last line
      makes it panic. */
  predicate SerialSafe(lines: seq<string>) {
    SoaIndex(lines) + 1 != |lines|
  }

  /** The serial of a line: Atoi of the trimmed text before the first ';'. */
  function ParseSerial(line: string): Option<int> {
    Atoi(Trim(Split(line, ';')[0]))
  }

  /** The line incrementSerial writes. */
  function SerialLine(n: int): string {
    "\t\t\t" + Itoa(n) + " ; serial"
  }

  /** The text of the serial line before its ';'. */
  function SerialHead(n: int): string {
    "\t\t\t" + Itoa(n) + " "
  }

  lemma SerialLineShape(n: int)
    ensures ';' !in SerialHead(n)
    ensures SerialLine(n) == SerialHead(n) + [';'] + " serial"
  {
    var x := Itoa(n);
    var head := SerialHead(n);
    forall i | 0 <= i < |head| ensures head[i] != ';' {
      if 3 <= i < 3 + |x| {
        assert head[i] == x[i - 3];
      }
    }
  }

  lemma SerialHeadTrim(n: int)
    ensures Trim(SerialHead(n)) == Itoa(n)
  {
    var x := Itoa(n);
    assert Trimmed(x) by {
      assert IsDigit(x[|x| - 1]);
      assert IsDigit(x[0]) || x[0] == '-';
    }
    assert AllTrim("\t\t\t") && AllTrim(" ");
    TrimExact("\t\t\t", x, " ");
  }

  lemma SerialLineSplit(n: int)
    ensures Split(SerialLine(n), ';')[0] == SerialHead(n)
  {
    SerialLineShape(n);
    SplitAfter(SerialHead(n), ';', " serial");
  }

  /** The serial line reads back as the number it was written with. */
  lemma ParseSerialLine(n: int)
    ensures ParseSerial(SerialLine(n)) == Some(n)
  {
    SerialLineSplit(n);
    SerialHeadTrim(n);
    AtoiItoa(n);
  }

  /** A serial line written at index `s` parses back. */
  lemma ParsedAt(L: seq<string>, s: nat, n: int)
    requires s < |L| && L[s] == SerialLine(n)
    ensures ParseSerial(L[s]) == Some(n)
  {
    ParseSerialLine(n);
  }

  /** The rewrite incrementSerial makes at line k: the serial Atoi reads there, plus one
      with Go's 64-bit wrap, in a fresh serial line; a serial Atoi rejects is an error with the lines unchanged;
      with no line k nothing happens and nothing fails. */
  function RewriteSerial(lines: seq<string>, k: nat): (r: (Outcome<ZoneError>, seq<string>))
    ensures |r.1| == |lines|
    ensures forall j :: 0 <= j < |lines| && j != k ==> r.1[j] == lines[j]
    ensures r.0 == Pass || r.0 == Fail(InvalidSerial)
    ensures r.0 == Fail(InvalidSerial) <==> k < |lines| && ParseSerial(lines[k]).None?
    ensures r.0 != Pass ==> r.1 == lines
    ensures r.0 == Pass && k < |lines| ==> r.1[k] == SerialLine(Inc64(ParseSerial(lines[k]).value))
    ensures k >= |lines| ==> r == (Pass, lines)
  {
    if k >= |lines| then (Pass, lines)
    else
      match ParseSerial(lines[k])
      case None => (Fail(InvalidSerial), lines)
      case Some(n) => (Pass, lines[k := SerialLine(Inc64(n))])
  }

  /** incrementSerial: the rewrite of the line after the first SOA line. Without an SOA
      line there is no such line. (An SOA line that is the last line is Go's panic; the
      methods exclude it and the function leaves the lines alone there.) */
  function BumpSerial(lines: seq<string>): (Outcome<ZoneError>, seq<string>) {
    RewriteSerial(lines, SoaIndex(lines) + 1)
  }

  /** A serial line holding `n` is rewritten to hold Inc64(n), Go's 64-bit n+1, and reads
      back as that number. */
  lemma SerialBumped(lines: seq<string>, k: nat, n: int)
    requires k < |lines| && ParseSerial(lines[k]) == Some(n)
    ensures RewriteSerial(lines, k) == (Pass, lines[k := SerialLine(Inc64(n))])
    ensures ParseSerial(RewriteSerial(lines, k).1[k]) == Some(Inc64(n))
  {
    var L := lines[k := SerialLine(Inc64(n))];
    assert RewriteSerial(lines, k) == (Pass, L);
    ParsedAt(L, k, Inc64(n));
  }

  /** Go's serial is a 64-bit `int`: a file whose serial is the largest one is rewritten
      with the smallest, a negative serial. */
  lemma SerialWraps(lines: seq<string>, k: nat)
    requires k < |lines| && ParseSerial(lines[k]) == Some(MaxInt64)
    ensures RewriteSerial(lines, k) == (Pass, lines[k := SerialLine(MinInt64)])
    ensures ParseSerial(RewriteSerial(lines, k).1[k]) == Some(MinInt64)
  {
    SerialBumped(lines, k, MaxInt64);
  }

  // ---------------------------------------------------------------- matching

  /** The index of the first line at or after `lo` that matches the record, or |lines|. */
  function FirstMatchFrom(lines: seq<string>, rec: DnsRecord, lo: nat): (r: nat)
    requires lo <= |lines|
    ensures lo <= r <= |lines|
    ensures r < |lines| ==> Matches(lines[r], rec)
    ensures forall j :: lo <= j < r ==> !Matches(lines[j], rec)
    decreases |lines| - lo
  {
    if lo == |lines| then lo
    else if Matches(lines[lo], rec) then lo
    else
      var r := FirstMatchFrom(lines, rec, lo + 1);
      NoMatchExtend(lines, rec, lo, r);
      r
  }

  /** A line that does not match extends a stretch of lines that do not match. */
  lemma NoMatchExtend(lines: seq<string>, rec: DnsRecord, lo: nat, r: nat)
    requires lo < |lines| && r <= |lines| && !Matches(lines[lo], rec)
    requires forall j :: lo + 1 <= j < r ==> !Matches(lines[j], rec)
    ensures forall j :: lo <= j < r ==> !Matches(lines[j], rec)
  {
    forall j | lo <= j < r
      ensures !Matches(lines[j], rec)
    {
      if j != lo {
        assert lo + 1 <= j < r;
      }
    }
  }

  /** Where findRecord returns true and findDNSRecordAndDelete removes. */
  function FirstMatch(lines: seq<string>, rec: DnsRecord): nat {
    FirstMatchFrom(lines, rec, ScanStart(lines))
  }

  predicate HasMatch(lines: seq<string>, rec: DnsRecord) {
    FirstMatch(lines, rec) < |lines|
  }

  /** The scans read tokens of every line they pass before the first match; these reads
      must not index past the end. */
  predicate FindSafe(lines: seq<string>, rec: DnsRecord) {
    forall i :: ScanStart(lines) <= i < FirstMatch(lines, rec) ==> MatchSafe(lines[i], rec)
  }

  /** findDNSRecordAndDelete: the first match is removed, or "not found" with the lines
      unchanged. */
  function DeleteRecord(lines: seq<string>, rec: DnsRecord): (Outcome<ZoneError>, seq<string>) {
    if HasMatch(lines, rec) then (Pass, RemoveAt(lines, FirstMatch(lines, rec)))
    else (Fail(RecordNotFound), lines)
  }

  // ---------------------------------------------------------------- query

  /** The request of QueryDNSRecord: an empty body, or a decoded filter record. */
  datatype QueryRequest = AllRecords | Filter(req: DnsRecord)

  /** The four ways QueryDNSRecord reads the zone, and the fall-through. */
  datatype Mode =
    | All
    | ByType(rrType: string)
    | ByTypeDomain(rrType: string, domainName: string)
    | ByTypeDomainData(rrType: string, domainName: string, data: string)
    | NoMode

  /** The mode a request selects. Fields are compared with "" as given, untrimmed; a
      filter whose non-empty fields are not type, type and domain, or all three selects
      nothing. */
  function ModeOf(q: QueryRequest): (m: Mode)
    ensures q.AllRecords? <==> m.All?
    ensures q.Filter? && q.req.rrType == "" ==> m.NoMode?
    ensures q.Filter? && q.req.domainName == "" && q.req.data != "" ==> m.NoMode?
  {
    match q
    case AllRecords => All
    case Filter(r) =>
      if r.domainName == "" && r.rrType != "" && r.data == "" then ByType(r.rrType)
      else if r.domainName != "" && r.rrType != "" && r.data == "" then ByTypeDomain(r.rrType, r.domainName)
      else if r.domainName != "" && r.rrType != "" && r.data != "" then
        ByTypeDomainData(r.rrType, r.domainName, r.data)
      else NoMode
  }

  /** The type and domain tests a mode makes before it decodes a line. */
  predicate PassesFilter(line: string, m: Mode)
    requires |Tokens(line)| >= 4
  {
    var t := Tokens(line);
    match m
    case All => true
    case ByType(ty) => t[3] == ty
    case ByTypeDomain(ty, d) => t[3] == ty && t[0] == d
    case ByTypeDomainData(ty, d, _) => t[3] == ty && t[0] == d
    case NoMode => false
  }

  /** A line the query returns: a record line that passes the mode's filter and, in the
      third mode, whose decoded data equals the requested data. */
  predicate Selected(line: string, m: Mode) {
    && !Skipped(line)
    && |Tokens(line)| >= 4
    && PassesFilter(line, m)
    && Decodable(line)
    && (m.ByTypeDomainData? ==> LineData(line) == m.data)
  }

  /** The query reads token 3 of every record line in the filtered modes, and decodes
      every line that passes the filter. */
  predicate QuerySafeLine(line: string, m: Mode) {
    m.NoMode? || Skipped(line) || (|Tokens(line)| >= 4 && (PassesFilter(line, m) ==> Decodable(line)))
  }

  predicate QuerySafe(lines: seq<string>, m: Mode) {
    forall i :: ScanStart(lines) <= i < |lines| ==> QuerySafeLine(lines[i], m)
  }

  /** The record the query returns for one line, if it returns one. */
  function Pick(line: string, m: Mode): Option<DnsRecord> {
    if Selected(line, m) then Some(Decode(line)) else None
  }

  function Picks(lines: seq<string>, m: Mode): seq<Option<DnsRecord>> {
    seq(|lines|, i requires 0 <= i < |lines| => Pick(lines[i], m))
  }

  /** The values present in a sequence of options, in order. */
  function Present(os: seq<Option<DnsRecord>>): (r: seq<DnsRecord>)
    ensures |r| <= |os|
  {
    if os == [] then []
    else
      var last := os[|os| - 1];
      Present(os[..|os| - 1]) + (if last.Some? then [last.value] else [])
  }

  /** QueryDNSRecord's result: the records of the selected lines of the record area, in
      document order. */
  function QueryResult(lines: seq<string>, q: QueryRequest): seq<DnsRecord> {
    Present(Picks(lines[ScanStart(lines)..], ModeOf(q)))
  }

  // ---------------------------------------------------------------- serialisation

  /** The content WriteZoneFile writes: every line followed by a newline. */
  function Serialize(lines: seq<string>): string {
    if lines == [] then "" else lines[0] + "\n" + Serialize(lines[1..])
  }

  // ---------------------------------------------------------------- request checks

  /** AddDNSRecord's validation, in its order: blank fields, an MX without priority (tested
      untrimmed), the type, the TTL, the MX priority, A data, A9 data. A field is blank when
      gstr.Trim leaves nothing of it, which by Trim's contract is when it is all trim
      characters. */
  function AddCheck(rec: DnsRecord, isIP: string -> bool): Outcome<ZoneError> {
    if AllTrim(rec.domainName) || AllTrim(rec.ttl) || AllTrim(rec.rrType) || AllTrim(rec.data) then
      Fail(EmptyField)
    else if rec.rrType == "MX" && rec.priority == "" then Fail(MissingPriority)
    else if !SupportedType(rec.rrType) then Fail(UnsupportedType)
    else if CheckTTL(rec.ttl) != Pass then CheckTTL(rec.ttl)
    else if rec.rrType == "MX" && CheckPriority(rec.priority) != Pass then CheckPriority(rec.priority)
    else if rec.rrType == "A" && CheckIPv4Address(rec.data, isIP) != Pass then CheckIPv4Address(rec.data, isIP)
    else if rec.rrType == "A9" && !IPv9Valid(rec.data, isIP) then Fail(InvalidAddress)
    else Pass
  }

  /** DelDNSRecord's validation: blank domain, type or data, then the type. */
  function DelCheck(rec: DnsRecord): Outcome<ZoneError> {
    if AllTrim(rec.domainName) || AllTrim(rec.rrType) || AllTrim(rec.data) then Fail(EmptyField)
    else if !SupportedType(rec.rrType) then Fail(UnsupportedType)
    else Pass
  }

  // ---------------------------------------------------------------- facades

  /** The engine's state: the lines held in memory and the content of the zone file. */
  datatype Zone = Zone(lines: seq<string>, persisted: string)

  /** What writing the zone file does: the content is stored, or the write fails part way.
      A failed os.WriteFile may already have truncated the file or written some of the
      content, so what it leaves on disk is whatever `leftOnDisk` says. */
  datatype WriteResult = Written | WriteError(leftOnDisk: string)

  /** The common tail of both facades: bump the serial of the new lines, then write them.
      A failed bump keeps the new lines in memory without writing them; a failed write
      keeps the bumped lines in memory and leaves on disk what the failed write left. */
  function Commit(z: Zone, lines: seq<string>, w: WriteResult): (r: (Outcome<ZoneError>, Zone)) {
    var (bumped, newLines) := BumpSerial(lines);
    if bumped != Pass then (bumped, Zone(lines, z.persisted))
    else if w.Written? then (Pass, Zone(newLines, Serialize(newLines)))
    else (Fail(WriteFailed), Zone(newLines, w.leftOnDisk))
  }

  /** AddDNSRecord on a request record. The insertion's own error is dropped: the serial
      is bumped and the file written even when no section marker was found. */
  function AddSpec(z: Zone, rec: DnsRecord, isIP: string -> bool, w: WriteResult): (Outcome<ZoneError>, Zone) {
    if AddCheck(rec, isIP) != Pass then (AddCheck(rec, isIP), z)
    else AddChecked(z, rec, w)
  }

  /** AddDNSRecord once the request has passed its checks: the duplicate test, the
      insertion, the serial bump and the write. */
  function AddChecked(z: Zone, rec: DnsRecord, w: WriteResult): (Outcome<ZoneError>, Zone) {
    if HasMatch(z.lines, rec) then (Fail(DuplicateRecord), z)
    else Commit(z, InsertRecord(z.lines, rec).1, w)
  }

  /** DelDNSRecord on a request record. */
  function DelSpec(z: Zone, rec: DnsRecord, w: WriteResult): (Outcome<ZoneError>, Zone) {
    if DelCheck(rec) != Pass then (DelCheck(rec), z)
    else
      var (found, newLines) := DeleteRecord(z.lines, rec);
      if found != Pass then (found, z)
      else Commit(z, newLines, w)
  }

  /** The calls AddDNSRecord makes cannot panic: the duplicate scan reads only lines it
      can index, and the serial bump has a line after the SOA line. */
  predicate AddSafe(lines: seq<string>, rec: DnsRecord, isIP: string -> bool) {
    AddCheck(rec, isIP) == Pass ==>
      FindSafe(lines, rec) && (!HasMatch(lines, rec) ==> SerialSafe(InsertRecord(lines, rec).1))
  }

  predicate DelSafe(lines: seq<string>, rec: DnsRecord) {
    DelCheck(rec) == Pass ==>
      FindSafe(lines, rec) && (HasMatch(lines, rec) ==> SerialSafe(RemoveAt(lines, FirstMatch(lines, rec))))
  }
}
