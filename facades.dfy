/** What AddDNSRecord and DelDNSRecord promise, proved about AddSpec and DelSpec: the
    requests they accept, the zone they leave behind on every error, and, for a zone file
    laid out as the engine expects, that a record added can be found, queried and deleted
    again, giving back the original lines with the serial bumped twice. */
module FacadeProperties {
  import opened Wrappers
  import opened ZoneErrors
  import opened GoStrings
  import opened Validators
  import opened RecordCodec
  import opened ZoneSpec
  import opened ZoneProperties

  // ---------------------------------------------------------------- request checks

  /** AddDNSRecord accepts exactly the requests with every required field non-blank, a
      supported type, a positive TTL, a positive priority for MX, and data its address
      check accepts for A and A9. Every request it accepts, DelDNSRecord accepts too. */
  lemma AddCheckIff(rec: DnsRecord, isIP: string -> bool)
    ensures AddCheck(rec, isIP) == Pass <==>
      && !AllTrim(rec.domainName) && !AllTrim(rec.ttl) && !AllTrim(rec.rrType) && !AllTrim(rec.data)
      && SupportedType(rec.rrType)
      && PositiveNumeral(rec.ttl)
      && (rec.rrType == "MX" ==> PositiveNumeral(rec.priority))
      && (rec.rrType == "A" ==> isIP(rec.data))
      && (rec.rrType == "A9" ==> IPv9Valid(rec.data, isIP))
    ensures AddCheck(rec, isIP) == Pass ==> DelCheck(rec) == Pass
  {
    AddCheckPasses(rec, isIP);
    CheckTTLAccepts(rec.ttl);
    CheckTTLAccepts(rec.priority);
  }

  /** The same in terms of the checks themselves, one clause per check of AddDNSRecord. */
  lemma AddCheckPasses(rec: DnsRecord, isIP: string -> bool)
    ensures AddCheck(rec, isIP) == Pass <==>
      && !AllTrim(rec.domainName) && !AllTrim(rec.ttl) && !AllTrim(rec.rrType) && !AllTrim(rec.data)
      && !(rec.rrType == "MX" && rec.priority == "")
      && SupportedType(rec.rrType)
      && CheckTTL(rec.ttl) == Pass
      && (rec.rrType == "MX" ==> CheckPriority(rec.priority) == Pass)
      && (rec.rrType == "A" ==> isIP(rec.data))
      && (rec.rrType == "A9" ==> IPv9Valid(rec.data, isIP))
  {
  }

  /** The errors the checks report are the request errors, never a zone error. */
  lemma CheckErrors(rec: DnsRecord, isIP: string -> bool)
    ensures AddCheck(rec, isIP) in {Pass, Fail(EmptyField), Fail(MissingPriority), Fail(UnsupportedType),
                                    Fail(InvalidTTL), Fail(InvalidPriority), Fail(InvalidAddress)}
    ensures DelCheck(rec) in {Pass, Fail(EmptyField), Fail(UnsupportedType)}
  {
    var r := AddCheck(rec, isIP);
    assert r == Pass || r == Fail(EmptyField) || r == Fail(MissingPriority) || r == Fail(UnsupportedType)
      || r == Fail(InvalidTTL) || r == Fail(InvalidPriority) || r == Fail(InvalidAddress);
  }

  /** The "missing priority" test reads the priority untrimmed: a blank MX priority such as
      " " is not missing, and fails the priority check instead. */
  lemma UntrimmedMXPriority(rec: DnsRecord, isIP: string -> bool)
    requires rec.rrType == "MX" && rec.priority == " "
    requires !AllTrim(rec.domainName) && !AllTrim(rec.ttl) && !AllTrim(rec.data)
    requires CheckTTL(rec.ttl) == Pass
    ensures AllTrim(rec.priority)
    ensures AddCheck(rec, isIP) == Fail(InvalidPriority)
    ensures AddCheck(rec.(priority := ""), isIP) == Fail(MissingPriority)
  {
    assert !AllTrim("MX") by {
      assert !IsTrimChar("MX"[0]);
    }
    assert AllTrim(" ") by {
      assert IsTrimChar(" "[0]);
    }
    assert Atoi(" ") == None by {
      assert !IsDigit(" "[0]);
    }
  }

  // ---------------------------------------------------------------- outcomes

  /** The common tail of both facades: its only errors are the serial error, which keeps
      the new lines in memory and touches no file, and the write error, which leaves on
      disk what the failed write left; on success the file holds the lines in memory. */
  lemma CommitOutcome(z: Zone, lines: seq<string>, w: WriteResult)
    ensures var (r, z2) := Commit(z, lines, w);
      && (r == Pass || r == Fail(InvalidSerial) || r == Fail(WriteFailed))
      && (r == Pass <==> w.Written? && BumpSerial(lines).0 == Pass)
      && (r == Pass ==> z2.persisted == Serialize(z2.lines))
      && (r == Fail(WriteFailed) ==> w.WriteError? && z2.persisted == w.leftOnDisk)
      && (r == Fail(InvalidSerial) ==> z2.lines == lines && z2.persisted == z.persisted)
  {
    var b := BumpSerial(lines);
    assert b.0 == Pass || b.0 == Fail(InvalidSerial);
  }

  /** Whatever AddDNSRecord returns: a rejected request or a duplicate leaves the zone as it
      was; a serial error touches no file; on success the file holds exactly the lines in
      memory, and only a failed write leaves anything else on disk. */
  lemma AddOutcome(z: Zone, rec: DnsRecord, isIP: string -> bool, w: WriteResult)
    ensures var (r, z2) := AddSpec(z, rec, isIP, w);
      && (r == Pass ==> w.Written? && z2.persisted == Serialize(z2.lines))
      && (r != Pass && r != Fail(WriteFailed) ==> z2.persisted == z.persisted)
      && (r == Fail(WriteFailed) ==> w.WriteError? && z2.persisted == w.leftOnDisk)
      && (r.Fail? && r.error != InvalidSerial && r.error != WriteFailed ==> z2 == z)
      && (r == Fail(DuplicateRecord) <==> AddCheck(rec, isIP) == Pass && HasMatch(z.lines, rec))
      && (r == Fail(InvalidSerial) ==> z2.lines == InsertRecord(z.lines, rec).1)
  {
    CheckErrors(rec, isIP);
    if AddCheck(rec, isIP) == Pass && !HasMatch(z.lines, rec) {
      CommitOutcome(z, InsertRecord(z.lines, rec).1, w);
    }
  }

  /** The same for DelDNSRecord, whose own error is a record that is not there. */
  lemma DelOutcome(z: Zone, rec: DnsRecord, w: WriteResult)
    ensures var (r, z2) := DelSpec(z, rec, w);
      && (r == Pass ==> w.Written? && z2.persisted == Serialize(z2.lines))
      && (r != Pass && r != Fail(WriteFailed) ==> z2.persisted == z.persisted)
      && (r == Fail(WriteFailed) ==> w.WriteError? && z2.persisted == w.leftOnDisk)
      && (r.Fail? && r.error != InvalidSerial && r.error != WriteFailed ==> z2 == z)
      && (r == Fail(RecordNotFound) <==> DelCheck(rec) == Pass && !HasMatch(z.lines, rec))
      && (r == Pass ==> |z2.lines| + 1 == |z.lines|)
  {
    CheckErrors(rec, (s: string) => false);
    if DelCheck(rec) == Pass && HasMatch(z.lines, rec) {
      var L := RemoveAt(z.lines, FirstMatch(z.lines, rec));
      CommitOutcome(z, L, w);
      assert |BumpSerial(L).1| == |L|;
    }
  }

  /** The insertion's "area not found" error is dropped: with no section marker for the
      record's type, AddDNSRecord still bumps the serial, writes the file and succeeds, and
      the record is not in the zone. */
  lemma MissingMarkerStillBumps(z: Zone, rec: DnsRecord, isIP: string -> bool)
    requires AddCheck(rec, isIP) == Pass && !HasMatch(z.lines, rec)
    requires SectionMarker(rec.rrType).value !in z.lines
    requires BumpSerial(z.lines).0 == Pass
    ensures var L := BumpSerial(z.lines).1;
      AddSpec(z, rec, isIP, Written) == (Pass, Zone(L, Serialize(L)))
  {
    AddCheckIff(rec, isIP);
  }

  // ---------------------------------------------------------------- layout

  /** A zone file laid out as the engine expects for `rec`: a serial line after the SOA line
      and before the "; Nameservers" line, and the record's section marker at or after the
      "; Nameservers" line. */
  predicate Layout(lines: seq<string>, rec: DnsRecord) {
    && SectionMarker(rec.rrType).Some?
    && SoaIndex(lines) + 1 < ScanStart(lines) <= IndexOf(lines, SectionMarker(rec.rrType).value) < |lines|
  }

  /** Where the record's line goes. */
  function Slot(lines: seq<string>, rec: DnsRecord): nat
    requires Layout(lines, rec)
  {
    IndexOf(lines, SectionMarker(rec.rrType).value) + 1
  }

  /** The insertion in a laid-out file: the line goes right after the marker, nothing before
      it moves, the scans still start and the serial is still found where they were, and
      removing the line gives the file back. */
  lemma InsertLayout(lines: seq<string>, rec: DnsRecord)
    requires Layout(lines, rec)
    ensures var r := InsertRecord(lines, rec); var k := Slot(lines, rec);
      && r.0 == Pass
      && |r.1| == |lines| + 1
      && r.1[k] == Encode(rec)
      && (forall j :: 0 <= j < k ==> r.1[j] == lines[j])
      && (forall j :: k <= j < |lines| ==> r.1[j + 1] == lines[j])
      && ScanStart(r.1) == ScanStart(lines)
      && SoaIndex(r.1) == SoaIndex(lines)
      && RemoveAt(r.1, k) == lines
  {
    var marker := SectionMarker(rec.rrType).value;
    var r := InsertAfterMarker(lines, marker, Encode(rec));
    InsertPlacement(lines, marker, Encode(rec));
    IndexOfAgree(lines, r.1, NameserversMarker);
    SoaIndexAgree(lines, r.1);
    InsertRemove(lines, marker, Encode(rec));
  }

  lemma SerialLineNotMarker(n: int)
    ensures SerialLine(n) != NameserversMarker
  {
    assert SerialLine(n)[0] == '\t';
  }

  /** Rewriting a line between the SOA line and the "; Nameservers" line with a serial
      line moves neither. */
  lemma SerialRewrite(lines: seq<string>, k: nat, n: int)
    requires SoaIndex(lines) < k < ScanStart(lines) < |lines|
    ensures ScanStart(lines[k := SerialLine(n)]) == ScanStart(lines)
    ensures SoaIndex(lines[k := SerialLine(n)]) == SoaIndex(lines)
  {
    SerialLineNotMarker(n);
    IndexOfAgree(lines, lines[k := SerialLine(n)], NameserversMarker);
    SoaIndexAgree(lines, lines[k := SerialLine(n)]);
  }

  /** The lines AddDNSRecord leaves: the record's line after its marker and serial Inc64(n). */
  function Added(lines: seq<string>, rec: DnsRecord, n: int): seq<string>
    requires Layout(lines, rec)
  {
    InsertRecord(lines, rec).1[SoaIndex(lines) + 1 := SerialLine(Inc64(n))]
  }

  /** The added lines: one line more, the record's line in its slot, and the scans start
      and the serial is found where they were. */
  lemma AddedShape(lines: seq<string>, rec: DnsRecord, n: int)
    requires Layout(lines, rec)
    ensures var L := Added(lines, rec, n);
      && |L| == |lines| + 1
      && L[Slot(lines, rec)] == Encode(rec)
      && ScanStart(L) == ScanStart(lines) && SoaIndex(L) == SoaIndex(lines)
  {
    InsertLayout(lines, rec);
    SerialRewrite(InsertRecord(lines, rec).1, SoaIndex(lines) + 1, Inc64(n));
  }

  /** In a laid-out file whose serial is `n`, adding a new record that passed the checks
      succeeds: the zone holds and has written the record's line after its marker, every
      other line as it was, and serial Inc64(n). */
  lemma AddCommitted(z: Zone, rec: DnsRecord, n: int)
    requires !HasMatch(z.lines, rec)
    requires Layout(z.lines, rec) && ParseSerial(z.lines[SoaIndex(z.lines) + 1]) == Some(n)
    ensures var L := Added(z.lines, rec, n);
      AddChecked(z, rec, Written) == (Pass, Zone(L, Serialize(L)))
  {
    var s := SoaIndex(z.lines) + 1;
    InsertLayout(z.lines, rec);
    var L1 := InsertRecord(z.lines, rec).1;
    assert L1[s] == z.lines[s];
    SerialBumped(L1, s, n);
  }

  /** No line of the record area of the added lines matches, other than maybe the new one. */
  lemma AddedOthers(lines: seq<string>, rec: DnsRecord, n: int, j: nat)
    requires !HasMatch(lines, rec) && Layout(lines, rec)
    requires ScanStart(lines) <= j < |lines| + 1 && j != Slot(lines, rec)
    ensures |Added(lines, rec, n)| == |lines| + 1
    ensures !Matches(Added(lines, rec, n)[j], rec)
  {
    InsertLayout(lines, rec);
    var k := Slot(lines, rec);
    var L := Added(lines, rec, n);
    var L1 := InsertRecord(lines, rec).1;
    assert L[j] == L1[j];
    if j < k {
      assert L[j] == lines[j];
    } else {
      assert L[j] == lines[j - 1];
    }
  }

  /** In the added lines, the first match of the record is its own new line, or, for a
      CNAME record, whose data findRecord compares without the "." the encoder appends,
      there is none. */
  lemma AddedFirstMatch(lines: seq<string>, rec: DnsRecord, n: int)
    requires PlainRecord(rec) && !HasMatch(lines, rec) && Layout(lines, rec)
    requires ScanStart(Added(lines, rec, n)) == ScanStart(lines)
    requires |Added(lines, rec, n)| == |lines| + 1 && Added(lines, rec, n)[Slot(lines, rec)] == Encode(rec)
    ensures rec.rrType != "CNAME" ==> FirstMatch(Added(lines, rec, n), rec) == Slot(lines, rec)
    ensures rec.rrType == "CNAME" ==> !HasMatch(Added(lines, rec, n), rec)
  {
    var L := Added(lines, rec, n);
    var k := Slot(lines, rec);
    forall j | ScanStart(L) <= j < |L| && j != k
      ensures !Matches(L[j], rec)
    {
      AddedOthers(lines, rec, n, j);
    }
    OnlyNewLine(L, rec, k);
  }

  /** Lines where only line k could match the record, and line k is its encoded line. */
  lemma OnlyNewLine(L: seq<string>, rec: DnsRecord, k: nat)
    requires PlainRecord(rec)
    requires ScanStart(L) <= k < |L| && L[k] == Encode(rec)
    requires forall j :: ScanStart(L) <= j < |L| && j != k ==> !Matches(L[j], rec)
    ensures rec.rrType != "CNAME" ==> FirstMatch(L, rec) == k
    ensures rec.rrType == "CNAME" ==> !HasMatch(L, rec)
  {
    MatchesEncode(rec);
    if rec.rrType != "CNAME" {
      FirstMatchAt(L, rec, ScanStart(L), k);
    } else {
      NoMatchAnywhere(L, rec);
    }
  }

  // ---------------------------------------------------------------- round trips

  /** Adding the same record twice: the second request is refused as a duplicate, and
      changes nothing. */
  lemma DuplicateAfterAdd(z: Zone, rec: DnsRecord, isIP: string -> bool, n: int, w: WriteResult)
    requires PlainRecord(rec) && rec.rrType != "CNAME"
    requires AddCheck(rec, isIP) == Pass && !HasMatch(z.lines, rec)
    requires Layout(z.lines, rec) && ParseSerial(z.lines[SoaIndex(z.lines) + 1]) == Some(n)
    ensures var z1 := AddSpec(z, rec, isIP, Written).1;
      AddSpec(z1, rec, isIP, w) == (Fail(DuplicateRecord), z1)
  {
    AddCommitted(z, rec, n);
    AddedShape(z.lines, rec, n);
    AddedFirstMatch(z.lines, rec, n);
  }

  /** A CNAME record is never found once added: adding it again succeeds, and deleting it
      reports that it is not there. */
  lemma CnameNeverFound(z: Zone, rec: DnsRecord, isIP: string -> bool, n: int, w: WriteResult)
    requires PlainRecord(rec) && rec.rrType == "CNAME"
    requires AddCheck(rec, isIP) == Pass && !HasMatch(z.lines, rec)
    requires Layout(z.lines, rec) && ParseSerial(z.lines[SoaIndex(z.lines) + 1]) == Some(n)
    ensures var z1 := AddSpec(z, rec, isIP, Written).1;
      && AddSpec(z1, rec, isIP, w).0 != Fail(DuplicateRecord)
      && DelSpec(z1, rec, w) == (Fail(RecordNotFound), z1)
  {
    AddCommitted(z, rec, n);
    AddedShape(z.lines, rec, n);
    AddedFirstMatch(z.lines, rec, n);
    AddCheckIff(rec, isIP);
    var z1 := AddSpec(z, rec, isIP, Written).1;
    AddOutcome(z1, rec, isIP, w);
  }

  lemma RemoveAtUpdate(lines: seq<string>, k: nat, s: nat, x: string)
    requires s < k < |lines|
    ensures RemoveAt(lines[s := x], k) == RemoveAt(lines, k)[s := x]
  {
    var a := RemoveAt(lines[s := x], k);
    var b := RemoveAt(lines, k)[s := x];
    assert |a| == |b|;
    forall j | 0 <= j < |a| ensures a[j] == b[j] {
      if j >= k {
        assert a[j] == lines[j + 1];
      }
    }
  }

  lemma RemoveUpdated(r: seq<string>, lines: seq<string>, k: nat, s: nat, x: string)
    requires s < k < |r| && RemoveAt(r, k) == lines
    ensures |r[s := x]| == |lines| + 1 && RemoveAt(r[s := x], k) == lines[s := x]
  {
    RemoveAtUpdate(r, k, s, x);
  }

  /** Removing the new line from the added lines leaves the original lines with serial
      Inc64(n). */
  lemma RemoveAdded(lines: seq<string>, rec: DnsRecord, n: int)
    requires Layout(lines, rec)
    ensures |Added(lines, rec, n)| == |lines| + 1
    ensures RemoveAt(Added(lines, rec, n), Slot(lines, rec)) == lines[SoaIndex(lines) + 1 := SerialLine(Inc64(n))]
  {
    var r, k, s, x := InsertRecord(lines, rec).1, Slot(lines, rec), SoaIndex(lines) + 1, SerialLine(Inc64(n));
    assert s < k < |r| && RemoveAt(r, k) == lines by { InsertLayout(lines, rec); }
    assert Added(lines, rec, n) == r[s := x];
    RemoveUpdated(r, lines, k, s, x);
  }

  /** Deleting a record whose first match is line k, from lines whose serial after the
      removal is `n`: the line goes, the serial becomes Inc64(n) and the file is written. */
  lemma DelCommitted(z: Zone, rec: DnsRecord, k: nat, n: int)
    requires DelCheck(rec) == Pass && FirstMatch(z.lines, rec) == k < |z.lines|
    requires var L := RemoveAt(z.lines, k);
      SoaIndex(L) + 1 < |L| && ParseSerial(L[SoaIndex(L) + 1]) == Some(n)
    ensures var L := RemoveAt(z.lines, k); var L2 := L[SoaIndex(L) + 1 := SerialLine(Inc64(n))];
      DelSpec(z, rec, Written) == (Pass, Zone(L2, Serialize(L2)))
  {
    var L := RemoveAt(z.lines, k);
    SerialBumped(L, SoaIndex(L) + 1, n);
  }

  /** The added lines, seen by a delete of the same record: its first match is the new
      line, and removing it leaves the original lines with serial Inc64(n). */
  lemma AddedForDelete(lines: seq<string>, rec: DnsRecord, n: int)
    requires PlainRecord(rec) && rec.rrType != "CNAME"
    requires !HasMatch(lines, rec) && Layout(lines, rec)
    ensures var L := Added(lines, rec, n);
      && FirstMatch(L, rec) == Slot(lines, rec) < |L|
      && RemoveAt(L, Slot(lines, rec)) == lines[SoaIndex(lines) + 1 := SerialLine(Inc64(n))]
  {
    AddedShape(lines, rec, n);
    AddedFirstMatch(lines, rec, n);
    RemoveAdded(lines, rec, n);
  }

  /** After the rewrite, the serial line is still found, and holds Inc64(n). */
  lemma RewrittenSerial(lines: seq<string>, n: int)
    requires SoaIndex(lines) + 1 < |lines|
    ensures var s := SoaIndex(lines) + 1; var L := lines[s := SerialLine(Inc64(n))];
      SoaIndex(L) + 1 == s < |L| && ParseSerial(L[s]) == Some(Inc64(n))
  {
    var s := SoaIndex(lines) + 1;
    SoaAfterRewrite(lines, s, SerialLine(Inc64(n)));
    ParsedAt(lines[s := SerialLine(Inc64(n))], s, Inc64(n));
  }

  /** Adding a new, valid record to a laid-out file and then deleting it gives back every
      line of the file except the serial, which is bumped twice (`Inc64(Inc64(n))`); both
      writes succeed. */
  lemma AddThenDelete(z: Zone, rec: DnsRecord, isIP: string -> bool, n: int)
    requires PlainRecord(rec) && rec.rrType != "CNAME"
    requires AddCheck(rec, isIP) == Pass && !HasMatch(z.lines, rec)
    requires Layout(z.lines, rec) && ParseSerial(z.lines[SoaIndex(z.lines) + 1]) == Some(n)
    ensures var L := Added(z.lines, rec, n);
      AddSpec(z, rec, isIP, Written) == (Pass, Zone(L, Serialize(L)))
    ensures var L := Added(z.lines, rec, n); var F := z.lines[SoaIndex(z.lines) + 1 := SerialLine(Inc64(Inc64(n)))];
      DelSpec(Zone(L, Serialize(L)), rec, Written) == (Pass, Zone(F, Serialize(F)))
  {
    var s := SoaIndex(z.lines) + 1;
    var L := Added(z.lines, rec, n);
    AddCommitted(z, rec, n);
    AddedForDelete(z.lines, rec, n);
    RewrittenSerial(z.lines, n);
    AddCheckIff(rec, isIP);
    DelCommitted(Zone(L, Serialize(L)), rec, Slot(z.lines, rec), Inc64(n));
    UpdateTwice(z.lines, s, SerialLine(Inc64(n)), SerialLine(Inc64(Inc64(n))));
  }

  lemma UpdateTwice(lines: seq<string>, s: nat, x: string, y: string)
    requires s < |lines|
    ensures lines[s := x][s := y] == lines[s := y]
  {
  }

  /** Once added, the record is among the records QueryDNSRecord returns, by an empty
      request, by its type and domain, and by its type, domain and data as read back. */
  lemma AddThenQuery(z: Zone, rec: DnsRecord, isIP: string -> bool, n: int)
    requires PlainRecord(rec)
    requires AddCheck(rec, isIP) == Pass && !HasMatch(z.lines, rec)
    requires Layout(z.lines, rec) && ParseSerial(z.lines[SoaIndex(z.lines) + 1]) == Some(n)
    ensures var L := AddSpec(z, rec, isIP, Written).1.lines;
      && ReadBack(rec) in QueryResult(L, AllRecords)
      && ReadBack(rec) in QueryResult(L, Filter(DnsRecord(rec.domainName, "", "", rec.rrType, "", "")))
      && ReadBack(rec) in QueryResult(L, Filter(DnsRecord(rec.domainName, "", "", rec.rrType, "", ReadBack(rec).data)))
  {
    AddCommitted(z, rec, n);
    AddedShape(z.lines, rec, n);
    var L := Added(z.lines, rec, n);
    var k := Slot(z.lines, rec);
    SelectedEncode(rec);
    QueryComplete(L, AllRecords, k);
    QueryComplete(L, Filter(DnsRecord(rec.domainName, "", "", rec.rrType, "", "")), k);
    QueryComplete(L, Filter(DnsRecord(rec.domainName, "", "", rec.rrType, "", ReadBack(rec).data)), k);
  }

  /** The line of a plain record is selected by the empty request and by the filters on
      its own type, domain and data. */
  lemma SelectedEncode(rec: DnsRecord)
    requires PlainRecord(rec)
    ensures Decodable(Encode(rec)) && Decode(Encode(rec)) == ReadBack(rec)
    ensures Selected(Encode(rec), All)
    ensures Selected(Encode(rec), ByTypeDomain(rec.rrType, rec.domainName))
    ensures Selected(Encode(rec), ByTypeDomainData(rec.rrType, rec.domainName, ReadBack(rec).data))
  {
    DecodeEncode(rec);
  }
}
