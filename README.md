# ChnZone zone-file engine, modelled in Dafny

This project models the in-memory engine of `ChnZone` in `dns/zonefile/chn.go`, the
component of the CHN top-level-domain manager that edits a BIND zone file. The engine holds
the zone file as an ordered list of text lines. It has five parts:

- **Validators.** `checkTTL` and `checkPriority` accept positive integers. `checkIPv4Address`
  defers to `net.ParseIP`. `checkIPv9Address` checks the vendor "A9" notation: 8 segments
  separated by `[`, where a segment may start with an `N]` prefix that stands for N
  compressed segments.
- **Per-type encoders.** `addNSRecord`, `addMXRecord`, `addPTRRecord`, `addCNAMERecord`,
  `addTXTRecord` and `addDomainRecord` each build one canonical record line. The line goes
  right after the first line equal to the type's section marker.
- **Line decoder and matcher.** `findRecord`, `findDNSRecordAndDelete` and `QueryDNSRecord`
  scan from the `; Nameservers` line on. They split each line into space-separated tokens
  and skip a line with no tokens or whose first token is exactly `;`. A line such as
  `;comment` is not skipped: Go then reads its fourth token and panics when there is none.
- **Serial bump.** `incrementSerial` rewrites the serial on the line after the first
  `IN SOA` line. The serial is a 64-bit Go `int`, so its increment wraps.
- **Facades.** `AddDNSRecord` and `DelDNSRecord` each validate the request, edit the lines,
  bump the serial and write the file.

The model has eight modules:

- `Wrappers` (Option and Outcome).
- `ZoneErrors` (the error kinds).
- `GoStrings`: the string and number helpers the engine calls, from `gstr` and `strconv`.
- `Validators`: the checks, with `checkIPv9Address` as a method whose loops carry their
  invariants.
- `RecordCodec`: the line format, with the encoder/decoder round trip.
- `ZoneSpec`: every engine step as a function on the line sequence.
- `ZoneProperties` and `FacadeProperties`: lemmas about those functions.
- `ZoneEngine`: the `ChnZone` class. Its `lines` field is updated in place, and its
  `persisted` field is the on-disk content. Its methods run the source's loops, including
  the `start` flag of each scan. Each method is proved equal to its `ZoneSpec` function.

Some quirks of the code are kept on purpose, and each is proved:

- The insertion error is swallowed: with the section marker missing, the serial is still
  bumped and the file still written (`MissingMarkerStillBumps`).
- NS and CNAME data keep the `.` the encoder appended when they are decoded.
- CNAME data is compared without the `.`, so a CNAME record just added is never found
  again, either as a duplicate or for deletion (`CnameNeverFound`).
- A query whose filters fit none of the three modes returns nothing (`QueryFallThrough`).
- The MX "missing priority" test reads the untrimmed string, so a priority of one space
  passes it and fails later as an invalid priority (`UntrimmedMXPriority`).
- With a second `]` in a segment, only the text between the first and second `]` is
  validated, so "1]2]x" is a valid compressed segment (`SecondBracketIgnored`,
  `SecondBracketExample`).
- The serial's increment wraps at 64 bits: the largest serial is rewritten as the smallest,
  a negative one (`SerialWraps`).

## Model

| member | source | states |
|---|---|---|
| GoStrings.Trim | dns/zonefile/chn.go:160 | `gstr.Trim`: the result has no trim character at either end, and it is empty exactly when the input is all trim characters |
| GoStrings.TrimExact | dns/zonefile/chn.go:985 | trimming removes exactly the surrounding white space from a trimmed core |
| GoStrings.Split | dns/zonefile/chn.go:1069 | `gstr.Split` on one character: at least one piece, no piece holds the separator, and there are two or more pieces exactly when the separator occurs |
| GoStrings.JoinSplit | dns/zonefile/chn.go:1069 | joining the pieces of a split gives back the string |
| GoStrings.SplitJoin | dns/zonefile/chn.go:1069 | splitting a join of separator-free pieces gives back the pieces |
| GoStrings.SplitAfter | dns/zonefile/chn.go:985 | text before the first separator is the first piece |
| GoStrings.Compact | dns/zonefile/chn.go:415 | the `SplitAndTrim` clean-up: every piece kept is trimmed and non-empty |
| GoStrings.CompactAppend | dns/zonefile/chn.go:415 | the clean-up distributes over concatenation |
| GoStrings.CompactCons | dns/zonefile/chn.go:415 | the clean-up of one more piece in front: the trimmed piece, unless it trims to nothing, before the clean-up of the rest |
| GoStrings.CompactClean | dns/zonefile/chn.go:415 | pieces already trimmed and non-empty are kept as they are |
| GoStrings.NatToString | dns/zonefile/chn.go:993 | the decimal digits of n, and they read back as n |
| GoStrings.Itoa | dns/zonefile/chn.go:993 | `strconv.Itoa`: digits, with an optional leading '-' |
| GoStrings.AtoiItoa | dns/zonefile/chn.go:985-993 | `Atoi(Itoa(n)) == n` for every integer |
| GoStrings.AtoiIsNumeric | dns/zonefile/chn.go:1074-1081 | every string `Atoi` accepts is numeric, so the `IsNumeric` test never refuses an integer segment |
| GoStrings.QuotePlain | dns/zonefile/chn.go:936 | `strconv.Quote` of plain printable text only adds the two quotes |
| GoStrings.Wrap64 | dns/zonefile/chn.go:990 | reduction into the 64-bit signed range: in range, congruent to the input modulo 2^64, and the identity on values already in range |
| GoStrings.Inc64 | dns/zonefile/chn.go:990 | Go's `serial++` on a 64-bit `int`: a serial in range stays in range |
| GoStrings.Inc64Wraps | dns/zonefile/chn.go:990 | the increment is n+1 reduced into the 64-bit range |
| Validators.CheckTTLAccepts | dns/zonefile/chn.go:1028-1050 | `checkTTL` and `checkPriority` succeed exactly on positive numerals (an optional '+', then digits not all zero); a '-' sign, zero, the empty string and non-digits fail |
| Validators.CheckTTLItoa | dns/zonefile/chn.go:1028-1050 | the decimal text of n passes either check exactly when n > 0 |
| Validators.CheckSegment | dns/zonefile/chn.go:1072-1085 | one segment is accepted exactly when it is an IP literal or a non-negative integer |
| Validators.SegmentValidIff | dns/zonefile/chn.go:1072-1085 | a segment is valid iff `ParseIP` accepts it or `Atoi` gives a value >= 0 |
| Validators.CheckPlainSegments | dns/zonefile/chn.go:1070-1088 | the 8-segment loop accepts exactly when every segment is valid |
| Validators.CheckCompressedSegments | dns/zonefile/chn.go:1097-1133 | the compressed-form loop accepts exactly when every segment is valid after its `N]` prefix (N in 1..8), and its `compressLens` is then the sum of the prefixes |
| Validators.CheckIPv9Address | dns/zonefile/chn.go:1061-1139 | the whole check: success exactly when the address is a valid A9 address, otherwise the invalid-address error |
| Validators.EightSegments | dns/zonefile/chn.go:1069-1088 | with no space and exactly 8 segments, valid iff every segment is an IP literal or a non-negative integer |
| Validators.SegmentCountRejects | dns/zonefile/chn.go:1089-1096 | more than 8 segments, or fewer than 8 with no `]`, is rejected |
| Validators.EightDecimalsValid | dns/zonefile/chn.go:1069-1088 | eight non-negative numbers joined by `[` (such as "1[2[3[4[5[6[7[8") form a valid address |
| Validators.NoCompression | dns/zonefile/chn.go:1097-1117 | segments with no `]` add nothing to the compression count |
| Validators.CompressedDecimal | dns/zonefile/chn.go:1099-1116 | "k]x" with 1 <= k <= 8 is a valid compressed segment that counts k |
| Validators.SecondBracketIgnored | dns/zonefile/chn.go:1099-1116 | in "k]x]rest" only k and x are checked: the segment is valid iff k is 1..8 and x is a valid segment, whatever follows the second `]` |
| Validators.SecondBracketExample | dns/zonefile/chn.go:1099-1116 | "1]2]x" is a valid compressed segment although "x" is not a valid segment |
| Validators.SmallNumerals | dns/zonefile/chn.go:1099-1116 | "1" and "2" read as 1 and 2, "2" is numeric, and "x" is not a number |
| Validators.OneCompressedValid | dns/zonefile/chn.go:1092-1136 | an address of plain numbers and one "k]x" segment, with 2 to 7 segments, is valid iff the segment count plus k is 8 |
| Validators.CompressedForm | dns/zonefile/chn.go:1092-1136 | with 2 to 7 valid segments and a `]` present, valid iff the count plus the compression sum is 8 |
| RecordCodec.SectionMarker | dns/zonefile/chn.go:913-977 | exactly the seven supported types have a section marker, and every marker is a comment line |
| RecordCodec.TokensOfEncode | dns/zonefile/chn.go:913-977 | the tokens of an encoded plain record begin with domain, TTL, "IN" and type |
| RecordCodec.QuotePiecesOfTxt | dns/zonefile/chn.go:432 | the text between the quotes of a TXT line is the data as given |
| RecordCodec.DecodeEncode | dns/zonefile/chn.go:913-977 | decoding the line of a plain record gives its read-back record: the same domain, TTL and type with class "IN", the priority for MX only, TXT text unquoted, and NS/CNAME data with the "." still on |
| RecordCodec.DecodeEncodeMX | dns/zonefile/chn.go:968-977 | for MX: priority from token 4 and data from token 5 |
| RecordCodec.DecodeEncodeTXT | dns/zonefile/chn.go:935-944 | for TXT: the quoted text back unchanged |
| RecordCodec.TxtTokens | dns/zonefile/chn.go:935-944 | the fields of a written TXT line are the domain, the TTL, IN, TXT and a non-empty rest |
| RecordCodec.TxtQuotes | dns/zonefile/chn.go:935-944 | the quote pieces of a written TXT line are the head before the quote and the data |
| RecordCodec.DecodeEncodeOther | dns/zonefile/chn.go:913-966 | for PTR, A, A9, NS and CNAME: the data from token 4, with "." for NS and CNAME |
| RecordCodec.ReadBack | dns/zonefile/chn.go:415-447 | the record a query gives back for an added one: same domain, TTL and type; it equals the request exactly when the class is "IN", only MX carries a priority, and the type is neither NS nor CNAME; NS and CNAME data come back with one character, the ".", appended |
| RecordCodec.MatchesEncode | dns/zonefile/chn.go:1263-1284 | the line written for a plain record matches that record exactly when its type is not CNAME |
| ZoneSpec.IndexOf | dns/zonefile/chn.go:915-921 | the first line equal to the marker, or the length when there is none |
| ZoneSpec.InsertAfterMarker | dns/zonefile/chn.go:913-977 | the insertion succeeds exactly when the marker is present; otherwise the "area not found" error with the lines unchanged |
| ZoneSpec.RemoveAt | dns/zonefile/chn.go:1306 | one line fewer, with the lines before and after it kept in order |
| ZoneSpec.SoaIndex | dns/zonefile/chn.go:981-982 | the first line containing "IN SOA", or the length |
| ZoneSpec.SoaIndexFirst | dns/zonefile/chn.go:981-982 | no line before it contains "IN SOA" |
| ZoneSpec.ParseSerialLine | dns/zonefile/chn.go:985-993 | the serial line written for n reads back as n |
| ZoneSpec.RewriteSerial | dns/zonefile/chn.go:983-996 | only line k changes; a serial Atoi rejects fails with the lines unchanged; otherwise line k becomes the line for `Inc64(n)`, Go's 64-bit n+1; with no line k nothing changes and nothing fails |
| ZoneSpec.SerialBumped | dns/zonefile/chn.go:983-996 | a serial n becomes the line for `Inc64(n)`, which reads back as `Inc64(n)` |
| ZoneSpec.ParsedAt | dns/zonefile/chn.go:985-993 | a line written for n at position s reads back as n |
| ZoneSpec.SerialWraps | dns/zonefile/chn.go:985-993 | the largest 64-bit serial is rewritten as the smallest, which reads back as that negative number |
| ZoneSpec.FirstMatchFrom | dns/zonefile/chn.go:1254-1288 | the first line at or after the start that matches, and no line before it matches |
| ZoneSpec.ModeOf | dns/zonefile/chn.go:407-461 | an empty body selects every record; a filter without type, or with data but no domain, selects nothing |
| ZoneSpec.Present | dns/zonefile/chn.go:421-449 | the appended records, never more than the lines |
| ZoneProperties.IndexOfAgree | dns/zonefile/chn.go:915-921 | two line lists that agree up to the marker find it at the same place |
| ZoneProperties.SoaIndexAgree | dns/zonefile/chn.go:981-982 | two line lists that agree up to the SOA line find it at the same place |
| ZoneProperties.FirstMatchAt | dns/zonefile/chn.go:1254-1288 | a match with none before it is the first match |
| ZoneProperties.HasMatchIff | dns/zonefile/chn.go:1254-1288 | `findRecord` is true iff some line of the record area matches |
| ZoneProperties.NoMatchAnywhere | dns/zonefile/chn.go:1254-1288 | no matching line in the record area means no match found |
| ZoneProperties.InsertRemove | dns/zonefile/chn.go:913-977 | removing the inserted line gives back the original lines |
| ZoneProperties.InsertPlacement | dns/zonefile/chn.go:913-977 | a successful insertion adds one line right after the first marker; the lines up to the marker stay put and the rest shift by one |
| ZoneProperties.SoaAfterRewrite | dns/zonefile/chn.go:993 | rewriting a line after the SOA line keeps the SOA line where it is |
| ZoneProperties.SerializeJoin | dns/zonefile/chn.go:1015-1018 | the written content is the lines joined by newlines, plus a final newline |
| ZoneProperties.SerializeReadBack | dns/zonefile/chn.go:1015-1018 | splitting the written content on newlines gives the lines back, plus an empty last piece |
| ZoneProperties.SerializeAppend | dns/zonefile/chn.go:1016-1017 | one more line appends that line and a newline |
| ZoneProperties.PresentSnoc | dns/zonefile/chn.go:421-449 | one more option appends its value, if it has one |
| ZoneProperties.PresentMembers | dns/zonefile/chn.go:421-449 | a record is in the result iff some pick is that record |
| ZoneProperties.PicksWitness | dns/zonefile/chn.go:409-450 | every result record comes from some line |
| ZoneProperties.QueryWitness | dns/zonefile/chn.go:404-611 | every result record is the decoding of a selected line of the record area |
| ZoneProperties.QuerySound | dns/zonefile/chn.go:461-607 | every result record has the requested type, and the requested domain and data when those are given |
| ZoneProperties.SelectedLine | dns/zonefile/chn.go:469-600 | a selected line decodes to a record that passes its mode's filters |
| ZoneProperties.PicksHas | dns/zonefile/chn.go:409-450 | the record of every selected line is in the result |
| ZoneProperties.QueryComplete | dns/zonefile/chn.go:404-611 | every selected line of the record area contributes its record |
| ZoneProperties.PresentNone | dns/zonefile/chn.go:610 | no picks give no records |
| ZoneProperties.QueryFallThrough | dns/zonefile/chn.go:610 | a request that fits none of the modes returns nothing |
| ZoneProperties.Keep | dns/zonefile/chn.go:461-607 | the records that pass a filter, never more than the input |
| ZoneProperties.KeepSnoc | dns/zonefile/chn.go:461-607 | filtering one more record keeps it iff it passes |
| ZoneProperties.PresentKeep | dns/zonefile/chn.go:461-607 | filtering each pick filters the result |
| ZoneProperties.PickNarrows | dns/zonefile/chn.go:469-600 | each mode's pick is the coarser mode's pick with one more field test |
| ZoneProperties.QueryNarrowing | dns/zonefile/chn.go:461-607 | type-only is all records filtered by type, type+domain is that filtered by domain, and type+domain+data is that filtered by data |
| ZoneProperties.NarrowQuery | dns/zonefile/chn.go:461-607 | when every line's pick in one query is another query's pick kept by a test, the first query returns the second's records kept by that test, in the same order |
| ZoneProperties.IndexOfShift | dns/zonefile/chn.go:411-413 | a header without the marker shifts the marker's position by its length |
| ZoneProperties.QueryIgnoresHeader | dns/zonefile/chn.go:411-413 | lines before "; Nameservers" never reach the result |
| FacadeProperties.AddCheckIff | dns/zonefile/chn.go:160-191 | the add request passes iff its four fields are non-blank, its type is supported, its TTL is positive, MX has a positive priority, A data is an IP and A9 data a valid A9 address; a passing add request passes the delete checks |
| FacadeProperties.AddCheckPasses | dns/zonefile/chn.go:160-191 | the add request passes iff no field is blank, MX carries a priority, the type is supported, the TTL and the MX priority pass their checks, A data is an IP and A9 data a valid A9 address |
| FacadeProperties.CheckErrors | dns/zonefile/chn.go:160-191 | the checks only produce validation errors |
| FacadeProperties.UntrimmedMXPriority | dns/zonefile/chn.go:160-171 | an MX priority of one space is blank once trimmed, yet it passes the missing-priority test and fails as an invalid priority; an empty priority is the missing-priority error |
| FacadeProperties.CommitOutcome | dns/zonefile/chn.go:218-226 | the tail succeeds, fails on the serial, or fails on the write; it succeeds iff the serial parses and the write succeeds, and then the file holds the lines; a failed write leaves on disk what the write left; a serial failure keeps the edited lines and the file as they were |
| FacadeProperties.AddOutcome | dns/zonefile/chn.go:150-226 | validation and duplicate errors change nothing; the duplicate error occurs iff the request passes and a match exists; success means the write succeeded and the file holds the lines; a failed write leaves on disk what the write left; any other failure keeps the file; a serial failure keeps the inserted line in memory |
| FacadeProperties.DelOutcome | dns/zonefile/chn.go:282-313 | validation and not-found errors change nothing; not found iff the request passes and nothing matches; success removes exactly one line, and the file then holds the lines; a failed write leaves on disk what the write left; any other failure keeps the file |
| FacadeProperties.MissingMarkerStillBumps | dns/zonefile/chn.go:199-226 | with the section marker missing, the add still bumps the serial, writes the file and reports success |
| FacadeProperties.InsertLayout | dns/zonefile/chn.go:913-977 | inserting in a well-laid-out zone puts the line at the slot, shifts the rest by one, and keeps the scan start and the SOA line in place |
| FacadeProperties.SerialRewrite | dns/zonefile/chn.go:993 | rewriting the serial moves neither the scan start nor the SOA line |
| FacadeProperties.AddedShape | dns/zonefile/chn.go:199-224 | after insertion and bump: one line more, the record's line at the slot, and the scan start and SOA line unmoved |
| FacadeProperties.AddCommitted | dns/zonefile/chn.go:194-226 | adding a new record to a zone with serial n succeeds when the write does, writes the file, and the lines are the inserted line plus the serial `Inc64(n)` |
| FacadeProperties.AddedOthers | dns/zonefile/chn.go:1254-1288 | after the add, no line but the new one matches the record |
| FacadeProperties.AddedFirstMatch | dns/zonefile/chn.go:1254-1288 | after the add, the new line is the first match, except for CNAME, where nothing matches |
| FacadeProperties.OnlyNewLine | dns/zonefile/chn.go:1263-1284 | when only the record's own line could match, it is the first match unless the type is CNAME, which never matches |
| FacadeProperties.DuplicateAfterAdd | dns/zonefile/chn.go:194-196 | adding the same non-CNAME record twice makes the second add a duplicate that changes nothing |
| FacadeProperties.CnameNeverFound | dns/zonefile/chn.go:1279-1283 | after adding a CNAME record, adding it again is not a duplicate, and deleting it reports not found |
| FacadeProperties.RemoveAdded | dns/zonefile/chn.go:1306 | removing the added line leaves the original lines with the new serial |
| FacadeProperties.DelCommitted | dns/zonefile/chn.go:295-313 | deleting a matched record from a zone with serial n succeeds when the write does, writes the file, and the lines lose the match and get serial `Inc64(n)` |
| FacadeProperties.AddedForDelete | dns/zonefile/chn.go:1291-1330 | after an add, the deletion finds the new line and removing it restores the other lines |
| FacadeProperties.RewrittenSerial | dns/zonefile/chn.go:979-998 | after the rewrite, the serial line is still after the SOA line and reads `Inc64(n)` |
| FacadeProperties.AddThenDelete | dns/zonefile/chn.go:150-313 | adding then deleting a non-CNAME record gives back the original lines, with the serial bumped twice, `Inc64(Inc64(n))` |
| FacadeProperties.AddThenQuery | dns/zonefile/chn.go:404-611 | after an add, the read-back record is returned by the all-records query, by the type+domain query, and by the type+domain+data query with the read-back data |
| FacadeProperties.SelectedEncode | dns/zonefile/chn.go:415-600 | the line of a plain record is selected by the all, type+domain and type+domain+data modes of that record |
| ZoneEngine.LineMatches | dns/zonefile/chn.go:1261-1284 | the nested tests of one line give exactly the matcher's verdict |
| ZoneEngine.DecodeLine | dns/zonefile/chn.go:419-448 | the record built for a line is its decoding |
| ZoneEngine.PickLine | dns/zonefile/chn.go:415-600 | the record appended for one line is that line's pick in the mode |
| ZoneEngine.MatchStep | dns/zonefile/chn.go:1256-1286 | one step of the scan: the flag is set once past "; Nameservers", and the scan stops exactly at the first match |
| ZoneEngine.QueryLine | dns/zonefile/chn.go:409-450 | one step of the query scan: the result so far grows by this line's pick |
| ZoneEngine.ScanSafe | dns/zonefile/chn.go:1261-1284 | a scan that has not yet found a match can test the line it is at |
| ZoneEngine.FirstMatchIs | dns/zonefile/chn.go:1254-1288 | past lines that do not match, the next line is the first match iff it matches |
| ZoneEngine.ChnZone.constructor | dns/zonefile/chn.go:16-22 | the engine holds the loaded lines and the file's content |
| ZoneEngine.ChnZone.InsertAfter | dns/zonefile/chn.go:915-921 | the insertion loop of every add*Record function, proved equal to `InsertAfterMarker` |
| ZoneEngine.ChnZone.AddRecordLine | dns/zonefile/chn.go:913-977 | the add*Record function of the record's type, proved equal to `InsertRecord` |
| ZoneEngine.ChnZone.IncrementSerial | dns/zonefile/chn.go:979-998 | the serial bump in place, proved equal to `BumpSerial` |
| ZoneEngine.SerialLineRewrite | dns/zonefile/chn.go:985-993 | the rewrite of the serial line, proved equal to `RewriteSerial`: Atoi's failure is the invalid-serial error, otherwise the line for `Inc64(n)` |
| ZoneEngine.ChnZone.FindRecord | dns/zonefile/chn.go:1254-1288 | true exactly when a line of the record area matches |
| ZoneEngine.ChnZone.FindDNSRecordAndDelete | dns/zonefile/chn.go:1291-1330 | removes exactly the first match, or reports not found with the lines unchanged |
| ZoneEngine.ChnZone.ScanQuery | dns/zonefile/chn.go:407-451 | a mode's scan returns the picks of the record area in document order |
| ZoneEngine.ChnZone.QueryDNSRecord | dns/zonefile/chn.go:404-611 | the result is `QueryResult`, and the lines are not changed |
| ZoneEngine.ChnZone.WriteZoneFile | dns/zonefile/chn.go:1014-1026 | the content built is the serialised lines; a successful write stores it and reports success; a failed write leaves what the write left and reports the write error |
| ZoneEngine.ChnZone.BumpAndWrite | dns/zonefile/chn.go:218-226 | the common tail, including a failed write, proved equal to `Commit` |
| ZoneEngine.ChnZone.CheckAddRequest | dns/zonefile/chn.go:160-191 | the checks in their order, proved equal to `AddCheck` |
| ZoneEngine.ChnZone.AddDNSRecord | dns/zonefile/chn.go:150-226 | the add facade on the object, for a successful or a failed write, proved equal to `AddSpec` |
| ZoneEngine.ChnZone.DelDNSRecord | dns/zonefile/chn.go:282-313 | the delete facade on the object, for a successful or a failed write, proved equal to `DelSpec` |

## Left out

- JSON decoding of requests (chn.go:153, 285, 454) is left out. Requests are a `DnsRecord`
  datatype, and the query's empty body is the `AllRecords` case. An unmarshal error is not
  modelled.
- File I/O is left out:
  - `Init`, `readZoneContentFromFile` and `WriteDefaultZoneFile` are not modelled; the
    constructor takes the loaded lines.
  - The `os.WriteFile` call is a parameter `w: WriteResult`. A successful write stores the
    serialised lines. A failed write leaves on disk whatever `leftOnDisk` says, such as a
    truncated or partial file.
  - All printing is dropped.
- main.go (the HTTP layer and its mutex), dns/service/runtimestatus.go (calls to `rndc` and
  `systemctl`) and utility/parsefile/parsednszonefile.go are not part of this model.
- `initDefaultZoneFileList` and `defaultZoneFileList` are left out; no modelled operation
  uses them.
- All commented-out code is left out.
- `net.ParseIP` is a parameter `isIP: string -> bool`. The model says nothing about which
  strings it accepts.
- `gstr.Trim` strips the ASCII white-space characters and NUL. Other characters in the
  library's trim set are not modelled.
- `strconv.Quote` is modelled exactly for ASCII. Other characters pass through unescaped.
- `strconv.Atoi` is modelled without its 64-bit range limit; an out-of-range numeral is
  accepted. The serial's increment does wrap at 64 bits (`Inc64`), but a serial read from
  the file is not first limited to that range.
- `gstr.IsNumeric` follows the library's rules for signs and one interior '.', written out
  in `GoStrings.IsNumeric`.
- Go panics are preconditions of the methods rather than modelled behaviour. They arise
  when indexing a token or quote piece past the end (`FindSafe`, `QuerySafe`), and when the
  SOA line is the last line (`SerialSafe`). The functions of `ZoneSpec` treat such lines as
  "no match" or "not selected".
- Validators.CheckIPv9Address: every rejection is the single invalid-address error. Go
  returns the `strconv` error for a segment or prefix that is not an integer, and the model
  does not keep apart which error value Go returns.
- Validators.CheckTTL and Validators.CheckPriority: a non-integer string gives InvalidTTL or
  InvalidPriority, where Go returns the `strconv` error value.
- ZoneEngine.ChnZone.QueryDNSRecord: the four scan loops of the source (one per mode) are
  one method, `ScanQuery`, with the mode as a parameter.
- The linked list is a sequence. The model does not capture element identity, or iteration
  continuing past a removed element; every scan stops at its first match.
