/** The ChnZone engine of dns/zonefile/chn.go as a class: the in-memory zone file is a
    sequence of lines that the methods update in place, and `persisted` is the content of
    the zone file on disk. Every method is proved against the function of ZoneSpec that
    describes its step. */
module ZoneEngine {
  import opened Wrappers
  import opened ZoneErrors
  import opened GoStrings
  import opened Validators
  import opened RecordCodec
  import opened ZoneSpec
  import opened ZoneProperties

  // ---------------------------------------------------------------- one line of a scan

  /** The test findRecord and findDNSRecordAndDelete make of one line, in their order:
      skip blank and comment lines, then compare the domain, the type and the data. */
  method LineMatches(line: string, rec: DnsRecord) returns (b: bool)
    requires MatchSafe(line, rec)
    ensures b == Matches(line, rec)
  {
    var items := Tokens(line);
    if |items| == 0 || items[0] == ";" {
      return false;
    }
    b := false;
    if items[0] == rec.domainName {
      if items[3] == rec.rrType {
        if rec.rrType == "MX" {
          b := items[5] == rec.data;
        } else if rec.rrType == "TXT" {
          b := QuotePieces(line)[1] == rec.data;
        } else if rec.rrType == "NS" {
          b := items[4] == rec.data + ".";
        } else {
          b := items[4] == rec.data;
        }
      }
    }
  }

  /** The switch on token 3 that builds the record of a line: MX with its priority, TXT
      with the quoted text, every other type with token 4. */
  method DecodeLine(line: string) returns (rec: DnsRecord)
    requires Decodable(line)
    ensures rec == Decode(line)
  {
    var items := Tokens(line);
    if items[3] == "MX" {
      rec := DnsRecord(items[0], items[1], items[2], items[3], items[4], items[5]);
    } else if items[3] == "TXT" {
      var data := QuotePieces(line)[1];
      rec := DnsRecord(items[0], items[1], items[2], items[3], "", data);
    } else {
      rec := DnsRecord(items[0], items[1], items[2], items[3], "", items[4]);
    }
  }

  /** The record QueryDNSRecord appends for one line, if any: skip blank and comment
      lines and lines the mode filters out, build the record by its type, and in the third
      mode keep it only when its data is the requested data. */
  method PickLine(line: string, m: Mode) returns (o: Option<DnsRecord>)
    requires !m.NoMode? && QuerySafeLine(line, m)
    ensures o == Pick(line, m)
  {
    var items := Tokens(line);
    if |items| == 0 || items[0] == ";" {
      return None;
    }
    if !m.All? && items[3] != m.rrType {
      return None;
    }
    if (m.ByTypeDomain? || m.ByTypeDomainData?) && items[0] != m.domainName {
      return None;
    }
    var rec := DecodeLine(line);
    if m.ByTypeDomainData? && rec.data != m.data {
      return None;
    }
    return Some(rec);
  }

  /** One line of the record scans: the new `start` flag, and whether the scan stops at
      this line because it matches the record. */
  method MatchStep(lines: seq<string>, rec: DnsRecord, i: nat, start: bool) returns (started: bool, b: bool)
    requires i < |lines| && (start <==> ScanStart(lines) < i)
    requires FindSafe(lines, rec)
    requires forall j :: ScanStart(lines) <= j < i ==> !Matches(lines[j], rec)
    ensures started <==> ScanStart(lines) < i + 1
    ensures b <==> FirstMatch(lines, rec) == i
    ensures !b ==> forall j :: ScanStart(lines) <= j < i + 1 ==> !Matches(lines[j], rec)
  {
    ScanFlag(lines, i, start);
    started := start || lines[i] == NameserversMarker;
    b := false;
    if started {
      ScanSafe(lines, rec, i);
      b := LineMatches(lines[i], rec);
      FirstMatchIs(lines, rec, i);
    }
    if !b {
      NoMatchStep(lines, rec, i);
    }
  }

  /** One line of the query scan: the new `start` flag, and the records so far with the
      record this line gives appended once the scan has started. */
  method QueryLine(lines: seq<string>, m: Mode, i: nat, start: bool, records: seq<DnsRecord>)
    returns (started: bool, grown: seq<DnsRecord>)
    requires i < |lines| && (start <==> ScanStart(lines) < i)
    requires !m.NoMode? && QuerySafe(lines, m)
    requires start ==> records == Present(Picks(lines[ScanStart(lines)..i], m))
    requires !start ==> records == []
    ensures started <==> ScanStart(lines) < i + 1
    ensures started ==> grown == Present(Picks(lines[ScanStart(lines)..i + 1], m))
    ensures !started ==> grown == []
  {
    ScanFlag(lines, i, start);
    started := start || lines[i] == NameserversMarker;
    grown := records;
    if started {
      var o := PickLine(lines[i], m);
      QueryGrow(lines, m, i, start, records, o);
      if o.Some? {
        grown := records + [o.value];
      }
    }
  }

  /** The serial line of incrementSerial: the number before ';' is read, incremented and
      written back in the canonical layout. */
  method SerialLineRewrite(list: seq<string>, k: nat) returns (r: Outcome<ZoneError>, result: seq<string>)
    requires k < |list|
    ensures (r, result) == RewriteSerial(list, k)
  {
    var serial := Atoi(Trim(Split(list[k], ';')[0]));
    match serial
    case None =>
      r, result := Fail(InvalidSerial), list;
    case Some(n) =>
      SerialBumped(list, k, n);
      r, result := Pass, list[k := "\t\t\t" + Itoa(Inc64(n)) + " ; serial"];
  }

  // ---------------------------------------------------------------- what a scan knows

  /** Where the first SOA line is, told by the lines scanned so far. */
  lemma SoaIndexIs(lines: seq<string>, i: nat)
    requires i <= |lines| && (i < |lines| ==> Contains(lines[i], "IN SOA"))
    requires forall j :: 0 <= j < i ==> !Contains(lines[j], "IN SOA")
    ensures SoaIndex(lines) == i
  {
    if i < SoaIndex(lines) {
      SoaIndexFirst(lines, i);
    }
  }

  /** The `start` flag of a scan: set once the scan has passed the "; Nameservers" line. */
  lemma ScanFlag(lines: seq<string>, i: nat, start: bool)
    requires i < |lines| && (start <==> ScanStart(lines) < i)
    ensures (start || lines[i] == NameserversMarker) <==> ScanStart(lines) < i + 1
  {
  }

  /** A scan for the record that has found no match yet may test the line it is at. */
  lemma ScanSafe(lines: seq<string>, rec: DnsRecord, i: nat)
    requires FindSafe(lines, rec) && ScanStart(lines) <= i < |lines|
    requires forall j :: ScanStart(lines) <= j < i ==> !Matches(lines[j], rec)
    ensures MatchSafe(lines[i], rec)
  {
    var k := FirstMatch(lines, rec);
    if i < k {
      assert ScanStart(lines) <= i < FirstMatch(lines, rec);
    } else {
      assert k == i;
      MatchesSafe(lines[i], rec);
    }
  }

  /** The scan for the record has passed one more line that does not match. */
  lemma NoMatchStep(lines: seq<string>, rec: DnsRecord, i: nat)
    requires i < |lines|
    requires forall j :: ScanStart(lines) <= j < i ==> !Matches(lines[j], rec)
    requires ScanStart(lines) <= i ==> !Matches(lines[i], rec)
    ensures forall j :: ScanStart(lines) <= j < i + 1 ==> !Matches(lines[j], rec)
  {
  }

  /** Past the lines that do not match, the first match is the next line exactly when
      that line matches. */
  lemma FirstMatchIs(lines: seq<string>, rec: DnsRecord, i: nat)
    requires ScanStart(lines) <= i < |lines|
    requires forall j :: ScanStart(lines) <= j < i ==> !Matches(lines[j], rec)
    ensures Matches(lines[i], rec) <==> FirstMatch(lines, rec) == i
  {
    if Matches(lines[i], rec) {
      FirstMatchAt(lines, rec, ScanStart(lines), i);
    }
  }

  /** Deleting when the first match is line i removes line i. */
  lemma DeleteFirst(lines: seq<string>, rec: DnsRecord, i: nat)
    requires i < |lines| && FirstMatch(lines, rec) == i
    ensures DeleteRecord(lines, rec) == (Pass, lines[..i] + lines[i + 1..])
  {
  }

  /** Deleting when nothing matches changes nothing. */
  lemma DeleteNone(lines: seq<string>, rec: DnsRecord)
    requires forall j :: ScanStart(lines) <= j < |lines| ==> !Matches(lines[j], rec)
    ensures DeleteRecord(lines, rec) == (Fail(RecordNotFound), lines)
  {
    NoMatchAnywhere(lines, rec);
  }

  /** Picking from one more line adds that line's pick at the end. */
  lemma PicksSnoc(area: seq<string>, x: string, m: Mode)
    ensures Picks(area + [x], m) == Picks(area, m) + [Pick(x, m)]
  {
    var a := Picks(area + [x], m);
    var b := Picks(area, m) + [Pick(x, m)];
    assert |a| == |b|;
    forall i | 0 <= i < |a| ensures a[i] == b[i] {
      if i < |area| {
        assert (area + [x])[i] == area[i];
      } else {
        assert (area + [x])[i] == x;
      }
    }
  }

  /** The query result over the lines s..i, grown by line i. */
  lemma QueryStep(lines: seq<string>, s: nat, i: nat, m: Mode)
    requires s <= i < |lines|
    ensures Present(Picks(lines[s..i + 1], m)) ==
      Present(Picks(lines[s..i], m)) + (if Pick(lines[i], m).Some? then [Pick(lines[i], m).value] else [])
  {
    assert lines[s..i + 1] == lines[s..i] + [lines[i]];
    PicksSnoc(lines[s..i], lines[i], m);
    PresentSnoc(Picks(lines[s..i], m), Pick(lines[i], m));
  }

  /** The query result so far, grown by the pick of line i once the scan has started. */
  lemma QueryGrow(lines: seq<string>, m: Mode, i: nat, start: bool, records: seq<DnsRecord>, o: Option<DnsRecord>)
    requires i < |lines| && (start <==> ScanStart(lines) < i) && ScanStart(lines) <= i
    requires start ==> records == Present(Picks(lines[ScanStart(lines)..i], m))
    requires !start ==> records == []
    requires o == Pick(lines[i], m)
    ensures records + (if o.Some? then [o.value] else []) == Present(Picks(lines[ScanStart(lines)..i + 1], m))
  {
    var s := ScanStart(lines);
    if !start {
      assert Picks(lines[s..i], m) == [];
    }
    QueryStep(lines, s, i, m);
  }

  /** The query scan at the end of the lines holds the whole result. */
  lemma QueryDone(lines: seq<string>, m: Mode, start: bool, records: seq<DnsRecord>)
    requires start <==> ScanStart(lines) < |lines|
    requires start ==> records == Present(Picks(lines[ScanStart(lines)..|lines|], m))
    requires !start ==> records == []
    ensures records == Present(Picks(lines[ScanStart(lines)..], m))
  {
    var s := ScanStart(lines);
    assert lines[s..|lines|] == lines[s..];
    if !start {
      assert Picks(lines[s..], m) == [];
    }
  }

  class ChnZone {
    /** runtimeZoneFileList: the zone file's lines, in order. */
    var lines: seq<string>
    /** The content of the zone file on disk. */
    var persisted: string

    /** An engine over the lines read from the zone file and that file's content. */
    constructor (loaded: seq<string>, onDisk: string)
      ensures lines == loaded && persisted == onDisk
    {
      lines := loaded;
      persisted := onDisk;
    }

    /** The state as the facade functions see it. */
    function State(): Zone
      reads this
    {
      Zone(lines, persisted)
    }

    /** The loop every add*Record function runs: insert the line after the first line
        equal to the marker, or report that the area is missing. */
    method InsertAfter(marker: string, line: string) returns (r: Outcome<ZoneError>)
      modifies this
      ensures (r, lines) == InsertAfterMarker(old(lines), marker, line)
      ensures persisted == old(persisted)
    {
      var i := 0;
      while i < |lines|
        invariant 0 <= i <= |lines|
        invariant lines == old(lines) && persisted == old(persisted)
        invariant forall j :: 0 <= j < i ==> lines[j] != marker
      {
        if lines[i] == marker {
          assert IndexOf(lines, marker) == i;
          lines := lines[..i + 1] + [line] + lines[i + 1..];
          return Pass;
        }
        i := i + 1;
      }
      return Fail(SectionNotFound);
    }

    /** addNSRecord, addMXRecord, addPTRRecord, addCNAMERecord, addTXTRecord and
        addDomainRecord: the record's line after its type's marker. */
    method AddRecordLine(rec: DnsRecord) returns (r: Outcome<ZoneError>)
      modifies this
      ensures (r, lines) == InsertRecord(old(lines), rec)
      ensures persisted == old(persisted)
    {
      match SectionMarker(rec.rrType)
      case None =>
        r := Fail(UnsupportedType);
      case Some(marker) =>
        r := InsertAfter(marker, Encode(rec));
    }

    /** incrementSerial: rewrite the serial on the line after the first SOA line. */
    method IncrementSerial() returns (r: Outcome<ZoneError>)
      requires SerialSafe(lines)
      modifies this
      ensures (r, lines) == BumpSerial(old(lines))
      ensures persisted == old(persisted)
    {
      var list := lines;
      var i := 0;
      while i < |list|
        invariant 0 <= i <= |list|
        invariant lines == list && persisted == old(persisted)
        invariant forall j :: 0 <= j < i ==> !Contains(list[j], "IN SOA")
      {
        if Contains(list[i], "IN SOA") {
          SoaIndexIs(list, i);
          var newList;
          r, newList := SerialLineRewrite(list, i + 1);
          lines := newList;
          return;
        }
        i := i + 1;
      }
      SoaIndexIs(list, i);
      return Pass;
    }

    /** findRecord: whether a line of the record area matches the record. */
    method FindRecord(rec: DnsRecord) returns (found: bool)
      requires FindSafe(lines, rec)
      ensures found == HasMatch(lines, rec)
    {
      var start := false;
      var i := 0;
      while i < |lines|
        invariant 0 <= i <= |lines|
        invariant start <==> ScanStart(lines) < i
        invariant forall j :: ScanStart(lines) <= j < i ==> !Matches(lines[j], rec)
      {
        var b;
        start, b := MatchStep(lines, rec, i, start);
        if b {
          return true;
        }
        i := i + 1;
      }
      HasMatchIff(lines, rec);
      return false;
    }

    /** findDNSRecordAndDelete: remove the first matching line of the record area, or
        report that there is none. */
    method FindDNSRecordAndDelete(rec: DnsRecord) returns (r: Outcome<ZoneError>)
      requires FindSafe(lines, rec)
      modifies this
      ensures (r, lines) == DeleteRecord(old(lines), rec)
      ensures persisted == old(persisted)
    {
      var list := lines;
      var start := false;
      var i := 0;
      while i < |list|
        invariant 0 <= i <= |list|
        invariant lines == list && persisted == old(persisted)
        invariant start <==> ScanStart(list) < i
        invariant forall j :: ScanStart(list) <= j < i ==> !Matches(list[j], rec)
      {
        var b;
        start, b := MatchStep(list, rec, i, start);
        if b {
          DeleteFirst(list, rec, i);
          lines := list[..i] + list[i + 1..];
          return Pass;
        }
        i := i + 1;
      }
      DeleteNone(list, rec);
      return Fail(RecordNotFound);
    }

    /** The scan of the record area each query mode runs, appending what PickLine keeps. */
    method ScanQuery(m: Mode) returns (records: seq<DnsRecord>)
      requires !m.NoMode? && QuerySafe(lines, m)
      ensures records == Present(Picks(lines[ScanStart(lines)..], m))
    {
      var list := lines;
      var start := false;
      records := [];
      var i := 0;
      while i < |list|
        invariant 0 <= i <= |list|
        invariant start <==> ScanStart(list) < i
        invariant start ==> records == Present(Picks(list[ScanStart(list)..i], m))
        invariant !start ==> records == []
      {
        start, records := QueryLine(list, m, i, start, records);
        i := i + 1;
      }
      QueryDone(list, m, start, records);
    }

    /** QueryDNSRecord: the records of the record area the request selects, in order; a
        request that fits none of the modes selects nothing. */
    method QueryDNSRecord(q: QueryRequest) returns (records: seq<DnsRecord>)
      requires QuerySafe(lines, ModeOf(q))
      ensures records == QueryResult(lines, q)
    {
      var m := ModeOf(q);
      if m.NoMode? {
        QueryFallThrough(lines, q);
        return [];
      }
      records := ScanQuery(m);
    }

    /** WriteZoneFile: build the content line by line and write it; a failed write leaves
        on disk what `w` says it left. */
    method WriteZoneFile(w: WriteResult) returns (r: Outcome<ZoneError>)
      modifies this
      ensures lines == old(lines)
      ensures r == if w.Written? then Pass else Fail(WriteFailed)
      ensures persisted == if w.Written? then Serialize(lines) else w.leftOnDisk
    {
      var content := "";
      for i := 0 to |lines|
        invariant lines == old(lines) && persisted == old(persisted)
        invariant content == Serialize(lines[..i])
      {
        assert lines[..i + 1] == lines[..i] + [lines[i]];
        SerializeAppend(lines[..i], lines[i]);
        content := content + lines[i] + "\n";
      }
      assert lines[..|lines|] == lines;
      match w
      case Written =>
        persisted := content;
        r := Pass;
      case WriteError(left) =>
        persisted := left;
        r := Fail(WriteFailed);
    }

    /** The common tail of AddDNSRecord and DelDNSRecord: bump the serial, then write. */
    method BumpAndWrite(w: WriteResult) returns (r: Outcome<ZoneError>)
      requires SerialSafe(lines)
      modifies this
      ensures (r, State()) == Commit(old(State()), old(lines), w)
    {
      r := IncrementSerial();
      if r != Pass {
        return;
      }
      r := WriteZoneFile(w);
    }

    /** AddDNSRecord's checks of the request, in its order. */
    static method CheckAddRequest(rec: DnsRecord, isIP: string -> bool) returns (r: Outcome<ZoneError>)
      ensures r == AddCheck(rec, isIP)
    {
      if Trim(rec.domainName) == "" || Trim(rec.ttl) == "" || Trim(rec.rrType) == "" || Trim(rec.data) == "" {
        return Fail(EmptyField);
      }
      if rec.rrType == "MX" && rec.priority == "" {
        return Fail(MissingPriority);
      }
      if !SupportedType(rec.rrType) {
        return Fail(UnsupportedType);
      }
      r := CheckTTL(rec.ttl);
      if r != Pass {
        return;
      }
      if rec.rrType == "MX" {
        r := CheckPriority(rec.priority);
        if r != Pass {
          return;
        }
      }
      if rec.rrType == "A" {
        r := CheckIPv4Address(rec.data, isIP);
        if r != Pass {
          return;
        }
      }
      if rec.rrType == "A9" {
        r := CheckIPv9Address(rec.data, isIP);
        if r != Pass {
          return;
        }
      }
      r := Pass;
    }

    /** AddDNSRecord: check the request, refuse a duplicate, insert the record's line
        (whose own error is dropped), bump the serial and write the file. */
    method AddDNSRecord(rec: DnsRecord, isIP: string -> bool, w: WriteResult) returns (r: Outcome<ZoneError>)
      requires AddSafe(lines, rec, isIP)
      modifies this
      ensures (r, State()) == AddSpec(old(State()), rec, isIP, w)
    {
      r := CheckAddRequest(rec, isIP);
      if r != Pass {
        return;
      }
      var found := FindRecord(rec);
      if found {
        return Fail(DuplicateRecord);
      }
      var inserted := AddRecordLine(rec);
      r := BumpAndWrite(w);
    }

    /** DelDNSRecord: check the request, remove the first match, bump the serial and write
        the file. */
    method DelDNSRecord(rec: DnsRecord, w: WriteResult) returns (r: Outcome<ZoneError>)
      requires DelSafe(lines, rec)
      modifies this
      ensures (r, State()) == DelSpec(old(State()), rec, w)
    {
      if Trim(rec.domainName) == "" || Trim(rec.rrType) == "" || Trim(rec.data) == "" {
        return Fail(EmptyField);
      }
      if !SupportedType(rec.rrType) {
        return Fail(UnsupportedType);
      }
      r := FindDNSRecordAndDelete(rec);
      if r != Pass {
        return;
      }
      r := BumpAndWrite(w);
    }
  }
}
