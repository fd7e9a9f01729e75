/** What the zone engine guarantees, proved about the functions of ZoneSpec: positions
    agree on equal prefixes, insertion and removal undo each other, the matcher finds
    exactly the existing matches, the query modes narrow one another, serialisation reads
    back, and the facades change the zone as dns/zonefile/chn.go promises. */
module ZoneProperties {
  import opened Wrappers
  import opened ZoneErrors
  import opened GoStrings
  import opened Validators
  import opened RecordCodec
  import opened ZoneSpec

  // ---------------------------------------------------------------- positions

  /** Two sequences that agree, up to the first `x` of the first, on which lines are `x`
      have their first `x` at the same place. */
  lemma IndexOfAgree(a: seq<string>, b: seq<string>, x: string)
    requires IndexOf(a, x) < |a| && IndexOf(a, x) < |b|
    requires forall j :: 0 <= j <= IndexOf(a, x) ==> (a[j] == x <==> b[j] == x)
    ensures IndexOf(b, x) == IndexOf(a, x)
  {
    var i := IndexOf(a, x);
    assert b[i] == x;
    assert forall j :: 0 <= j < i ==> b[j] != x;
  }

  /** The same for the first SOA line. */
  lemma SoaIndexAgree(a: seq<string>, b: seq<string>)
    requires SoaIndex(a) < |a| && SoaIndex(a) < |b|
    requires forall j :: 0 <= j <= SoaIndex(a) ==> a[j] == b[j]
    ensures SoaIndex(b) == SoaIndex(a)
  {
    var i := SoaIndex(a);
    var r := SoaIndex(b);
    assert Contains(b[i], "IN SOA");
    if r < i {
      SoaIndexFirst(a, r);
      assert false;
    }
    if i < r {
      SoaIndexFirst(b, i);
      assert false;
    }
  }

  /** A matching line with no match between `lo` and it is the first match from `lo`. */
  lemma FirstMatchAt(lines: seq<string>, rec: DnsRecord, lo: nat, k: nat)
    requires lo <= k < |lines| && Matches(lines[k], rec)
    requires forall j :: lo <= j < k ==> !Matches(lines[j], rec)
    ensures FirstMatchFrom(lines, rec, lo) == k
  {
  }

  /** findRecord reports a match exactly when some line of the record area matches. */
  lemma HasMatchIff(lines: seq<string>, rec: DnsRecord)
    ensures HasMatch(lines, rec) <==>
      exists i :: ScanStart(lines) <= i < |lines| && Matches(lines[i], rec)
  {
    if HasMatch(lines, rec) {
      assert Matches(lines[FirstMatch(lines, rec)], rec);
    }
  }

  /** No line of the record area matches: no match is found. */
  lemma NoMatchAnywhere(lines: seq<string>, rec: DnsRecord)
    requires forall j :: ScanStart(lines) <= j < |lines| ==> !Matches(lines[j], rec)
    ensures !HasMatch(lines, rec)
  {
    HasMatchIff(lines, rec);
  }

  // ---------------------------------------------------------------- insertion and removal

  /** A successful insertion puts the line right after the first marker: one line more,
      the lines up to the marker unchanged, and the rest shifted by one. */
  lemma InsertPlacement(lines: seq<string>, marker: string, line: string)
    requires marker in lines
    ensures var r := InsertAfterMarker(lines, marker, line); var k := IndexOf(lines, marker);
      && r.0 == Pass
      && |r.1| == |lines| + 1
      && r.1[k + 1] == line
      && (forall j :: 0 <= j <= k ==> r.1[j] == lines[j])
      && (forall j :: k + 1 <= j < |lines| ==> r.1[j + 1] == lines[j])
  {
    var k := IndexOf(lines, marker);
    InsertedAfter(lines, k, line);
  }

  /** The layout of `line` inserted after index `k`. */
  lemma InsertedAfter(lines: seq<string>, k: nat, line: string)
    requires k < |lines|
    ensures var s := lines[..k + 1] + [line] + lines[k + 1..];
      && |s| == |lines| + 1
      && s[k + 1] == line
      && (forall j :: 0 <= j <= k ==> s[j] == lines[j])
      && (forall j :: k + 1 <= j < |lines| ==> s[j + 1] == lines[j])
  {
  }

  /** Removing the line inserted after index `k` gives the lines back. */
  lemma RemovedAfter(lines: seq<string>, k: nat, line: string)
    requires k < |lines|
    ensures RemoveAt(lines[..k + 1] + [line] + lines[k + 1..], k + 1) == lines
  {
    RemoveInserted(lines[..k + 1], line, lines[k + 1..]);
    SliceJoin(lines, k + 1);
  }

  /** Removing the inserted line gives back the original lines. */
  lemma InsertRemove(lines: seq<string>, marker: string, line: string)
    requires marker in lines
    ensures var r := InsertAfterMarker(lines, marker, line);
      r.0 == Pass && RemoveAt(r.1, IndexOf(lines, marker) + 1) == lines
  {
    var k := IndexOf(lines, marker);
    var s := lines[..k + 1] + [line] + lines[k + 1..];
    assert InsertAfterMarker(lines, marker, line) == (Pass, s);
    RemovedAfter(lines, k, line);
  }

  /** A sequence is its two halves around any cut. */
  lemma SliceJoin(s: seq<string>, n: nat)
    requires n <= |s|
    ensures s[..n] + s[n..] == s
  {
  }

  /** Removing the line placed between `a` and `b` leaves `a + b`. */
  lemma RemoveInserted(a: seq<string>, line: string, b: seq<string>)
    ensures RemoveAt(a + [line] + b, |a|) == a + b
  {
    var s := a + [line] + b;
    assert s[..|a|] == a;
    assert s[|a| + 1..] == b;
  }

  // ---------------------------------------------------------------- serial

  /** Rewriting the serial line of a file whose SOA line comes first keeps the SOA line
      where it was. */
  lemma SoaAfterRewrite(lines: seq<string>, k: nat, line: string)
    requires SoaIndex(lines) < k < |lines|
    ensures SoaIndex(lines[k := line]) == SoaIndex(lines)
  {
    SoaIndexAgree(lines, lines[k := line]);
  }

  // ---------------------------------------------------------------- serialisation

  /** The serialised text is the lines joined by newlines, with a final newline. */
  lemma {:induction false} SerializeJoin(lines: seq<string>)
    ensures Serialize(lines) == Join(lines + [""], '\n')
    decreases |lines|
  {
    if lines != [] {
      SerializeJoin(lines[1..]);
      assert (lines + [""])[1..] == lines[1..] + [""];
    }
  }

  /** Lines without newlines read back from the serialised text: splitting it at newlines
      gives the lines and the empty text after the final newline. */
  lemma SerializeReadBack(lines: seq<string>)
    requires forall i :: 0 <= i < |lines| ==> '\n' !in lines[i]
    ensures Split(Serialize(lines), '\n') == lines + [""]
  {
    SerializeJoin(lines);
    var ps := lines + [""];
    assert forall i :: 0 <= i < |ps| ==> '\n' !in ps[i] by {
      forall i | 0 <= i < |ps| ensures '\n' !in ps[i] {
        if i < |lines| {
          assert ps[i] == lines[i];
        }
      }
    }
    SplitJoin(ps, '\n');
  }

  /** Serialising one more line appends it and a newline. */
  lemma {:induction false} SerializeAppend(lines: seq<string>, x: string)
    ensures Serialize(lines + [x]) == Serialize(lines) + x + "\n"
    decreases |lines|
  {
    if lines == [] {
      assert [] + [x] == [x];
      assert [x][1..] == [];
    } else {
      assert (lines + [x])[1..] == lines[1..] + [x];
      SerializeAppend(lines[1..], x);
    }
  }

  // ---------------------------------------------------------------- query

  /** One more option adds its value, if it has one, at the end. */
  lemma PresentSnoc(os: seq<Option<DnsRecord>>, o: Option<DnsRecord>)
    ensures Present(os + [o]) == Present(os) + (if o.Some? then [o.value] else [])
  {
    assert (os + [o])[..|os|] == os;
  }

  /** A value is present exactly when some option holds it. */
  lemma {:induction false} PresentMembers(os: seq<Option<DnsRecord>>, x: DnsRecord)
    ensures x in Present(os) <==> exists i :: 0 <= i < |os| && os[i] == Some(x)
    decreases |os|
  {
    if os != [] {
      var init := os[..|os| - 1];
      PresentMembers(init, x);
      if x in Present(init) {
        var i :| 0 <= i < |init| && init[i] == Some(x);
        assert os[i] == Some(x);
      }
      if exists i :: 0 <= i < |os| && os[i] == Some(x) {
        var i :| 0 <= i < |os| && os[i] == Some(x);
        if i < |os| - 1 {
          assert init[i] == Some(x);
        }
      }
    }
  }

  lemma PicksWitness(area: seq<string>, m: Mode, r: DnsRecord) returns (k: nat)
    requires r in Present(Picks(area, m))
    ensures k < |area| && Pick(area[k], m) == Some(r)
  {
    var os := Picks(area, m);
    PresentMembers(os, r);
    k :| 0 <= k < |os| && os[k] == Some(r);
  }

  /** Every record QueryDNSRecord returns is the decoded form of a selected line of the
      record area. */
  lemma QueryWitness(lines: seq<string>, q: QueryRequest, r: DnsRecord) returns (i: nat)
    requires r in QueryResult(lines, q)
    ensures ScanStart(lines) <= i < |lines| && Selected(lines[i], ModeOf(q)) && Decode(lines[i]) == r
  {
    var k := PicksWitness(lines[ScanStart(lines)..], ModeOf(q), r);
    i := ScanStart(lines) + k;
    assert lines[ScanStart(lines)..][k] == lines[i];
  }

  /** Every record QueryDNSRecord returns satisfies the request's filter. */
  lemma QuerySound(lines: seq<string>, q: QueryRequest, r: DnsRecord)
    requires r in QueryResult(lines, q)
    ensures q.Filter? ==> q.req.rrType != "" && r.rrType == q.req.rrType
    ensures q.Filter? && q.req.domainName != "" ==> r.domainName == q.req.domainName
    ensures q.Filter? && q.req.data != "" ==> q.req.domainName != "" && r.data == q.req.data
  {
    var i := QueryWitness(lines, q, r);
    SelectedLine(lines[i], ModeOf(q));
  }

  /** What a selected line decodes to, by mode. */
  lemma SelectedLine(line: string, m: Mode)
    requires Selected(line, m)
    ensures !m.NoMode?
    ensures m.ByType? ==> Decode(line).rrType == m.rrType
    ensures m.ByTypeDomain? ==> Decode(line).rrType == m.rrType && Decode(line).domainName == m.domainName
    ensures m.ByTypeDomainData? ==>
      Decode(line).rrType == m.rrType && Decode(line).domainName == m.domainName && Decode(line).data == m.data
  {
  }

  lemma PicksHas(area: seq<string>, m: Mode, k: nat)
    requires k < |area| && Pick(area[k], m).Some?
    ensures Pick(area[k], m).value in Present(Picks(area, m))
  {
    assert Picks(area, m)[k] == Pick(area[k], m);
    PresentMembers(Picks(area, m), Pick(area[k], m).value);
  }

  /** Every selected line of the record area is returned. */
  lemma QueryComplete(lines: seq<string>, q: QueryRequest, i: nat)
    requires ScanStart(lines) <= i < |lines| && Selected(lines[i], ModeOf(q))
    ensures Decode(lines[i]) in QueryResult(lines, q)
  {
    var k := i - ScanStart(lines);
    assert lines[ScanStart(lines)..][k] == lines[i];
    PicksHas(lines[ScanStart(lines)..], ModeOf(q), k);
  }

  lemma {:induction false} PresentNone(os: seq<Option<DnsRecord>>)
    requires forall i :: 0 <= i < |os| ==> os[i].None?
    ensures Present(os) == []
    decreases |os|
  {
    if os != [] {
      PresentNone(os[..|os| - 1]);
    }
  }

  /** A filter outside the three modes returns nothing, whatever the zone holds. */
  lemma QueryFallThrough(lines: seq<string>, q: QueryRequest)
    requires ModeOf(q).NoMode?
    ensures QueryResult(lines, q) == []
  {
    PresentNone(Picks(lines[ScanStart(lines)..], ModeOf(q)));
  }

  /** The records of `rs` that satisfy `p`, in order. */
  function Keep(rs: seq<DnsRecord>, p: DnsRecord -> bool): (r: seq<DnsRecord>)
    ensures |r| <= |rs|
    ensures forall x :: x in r <==> x in rs && p(x)
  {
    if rs == [] then []
    else
      var last := rs[|rs| - 1];
      assert rs == rs[..|rs| - 1] + [last];
      Keep(rs[..|rs| - 1], p) + (if p(last) then [last] else [])
  }

  /** An option narrowed by one more test. */
  function KeepOpt(o: Option<DnsRecord>, p: DnsRecord -> bool): Option<DnsRecord> {
    if o.Some? && p(o.value) then o else None
  }

  lemma KeepSnoc(rs: seq<DnsRecord>, x: DnsRecord, p: DnsRecord -> bool)
    ensures Keep(rs + [x], p) == Keep(rs, p) + (if p(x) then [x] else [])
  {
    assert (rs + [x])[..|rs|] == rs;
  }

  /** Narrowing every option narrows the values present. */
  lemma {:induction false} PresentKeep(fine: seq<Option<DnsRecord>>, coarse: seq<Option<DnsRecord>>,
                                       p: DnsRecord -> bool)
    requires |fine| == |coarse|
    requires forall i :: 0 <= i < |fine| ==> fine[i] == KeepOpt(coarse[i], p)
    ensures Present(fine) == Keep(Present(coarse), p)
    decreases |fine|
  {
    if fine != [] {
      var n := |fine| - 1;
      PresentKeep(fine[..n], coarse[..n], p);
      var init := Present(coarse[..n]);
      if coarse[n].Some? {
        KeepSnoc(init, coarse[n].value, p);
      } else {
        assert init + [] == init;
      }
    }
  }

  /** Per line, each filtered mode is the coarser one with one more test on the decoded
      record. */
  lemma PickNarrows(line: string, t: string, d: string, x: string)
    ensures Pick(line, ByType(t)) == KeepOpt(Pick(line, All), (r: DnsRecord) => r.rrType == t)
    ensures Pick(line, ByTypeDomain(t, d)) == KeepOpt(Pick(line, ByType(t)), (r: DnsRecord) => r.domainName == d)
    ensures Pick(line, ByTypeDomainData(t, d, x)) == KeepOpt(Pick(line, ByTypeDomain(t, d)), (r: DnsRecord) => r.data == x)
  {
  }

  /** The three filtered modes narrow one another: type only keeps the records of that
      type, type and domain keeps those of that domain, and type, domain and data keeps
      those with that data; each time in the same order. */
  lemma QueryNarrowing(lines: seq<string>, t: string, d: string, x: string)
    requires t != "" && d != "" && x != ""
    ensures QueryResult(lines, Filter(DnsRecord("", "", "", t, "", ""))) ==
      Keep(QueryResult(lines, AllRecords), (r: DnsRecord) => r.rrType == t)
    ensures QueryResult(lines, Filter(DnsRecord(d, "", "", t, "", ""))) ==
      Keep(QueryResult(lines, Filter(DnsRecord("", "", "", t, "", ""))), (r: DnsRecord) => r.domainName == d)
    ensures QueryResult(lines, Filter(DnsRecord(d, "", "", t, "", x))) ==
      Keep(QueryResult(lines, Filter(DnsRecord(d, "", "", t, "", ""))), (r: DnsRecord) => r.data == x)
  {
    var qt := Filter(DnsRecord("", "", "", t, "", ""));
    var qd := Filter(DnsRecord(d, "", "", t, "", ""));
    var qx := Filter(DnsRecord(d, "", "", t, "", x));
    assert ModeOf(qt) == ByType(t) && ModeOf(qd) == ByTypeDomain(t, d);
    assert ModeOf(qx) == ByTypeDomainData(t, d, x);
    forall i | ScanStart(lines) <= i < |lines|
      ensures Pick(lines[i], ModeOf(qt)) == KeepOpt(Pick(lines[i], ModeOf(AllRecords)), (r: DnsRecord) => r.rrType == t)
      ensures Pick(lines[i], ModeOf(qd)) == KeepOpt(Pick(lines[i], ModeOf(qt)), (r: DnsRecord) => r.domainName == d)
      ensures Pick(lines[i], ModeOf(qx)) == KeepOpt(Pick(lines[i], ModeOf(qd)), (r: DnsRecord) => r.data == x)
    {
      PickNarrows(lines[i], t, d, x);
    }
    NarrowQuery(lines, AllRecords, qt, (r: DnsRecord) => r.rrType == t);
    NarrowQuery(lines, qt, qd, (r: DnsRecord) => r.domainName == d);
    NarrowQuery(lines, qd, qx, (r: DnsRecord) => r.data == x);
  }

  /** A query whose every pick is a coarser query's pick filtered by `p` returns the
      coarser query's records filtered by `p`. */
  lemma NarrowQuery(lines: seq<string>, coarse: QueryRequest, fine: QueryRequest, p: DnsRecord -> bool)
    requires forall i :: ScanStart(lines) <= i < |lines| ==>
      Pick(lines[i], ModeOf(fine)) == KeepOpt(Pick(lines[i], ModeOf(coarse)), p)
    ensures QueryResult(lines, fine) == Keep(QueryResult(lines, coarse), p)
  {
    var s := ScanStart(lines);
    var area := lines[s..];
    forall i | 0 <= i < |area|
      ensures Pick(area[i], ModeOf(fine)) == KeepOpt(Pick(area[i], ModeOf(coarse)), p)
    {
    }
    NarrowArea(area, ModeOf(coarse), ModeOf(fine), p);
  }

  /** A mode whose pick is a coarser mode's pick filtered by `p` returns the coarser
      mode's records filtered by `p`. */
  lemma NarrowArea(area: seq<string>, coarse: Mode, fine: Mode, p: DnsRecord -> bool)
    requires forall i :: 0 <= i < |area| ==> Pick(area[i], fine) == KeepOpt(Pick(area[i], coarse), p)
    ensures Present(Picks(area, fine)) == Keep(Present(Picks(area, coarse)), p)
  {
    var f := Picks(area, fine);
    var c := Picks(area, coarse);
    forall i | 0 <= i < |f|
      ensures f[i] == KeepOpt(c[i], p)
    {
    }
    PresentKeep(f, c, p);
  }

  /** The first marker of a header-prefixed file is the body's, shifted. */
  lemma IndexOfShift(h: seq<string>, body: seq<string>, x: string)
    requires x !in h && x in body
    ensures IndexOf(h + body, x) == |h| + IndexOf(body, x)
  {
    var b := IndexOf(body, x);
    FirstAfterPrefix(h, body, x, b);
  }

  /** If `x` is not in `h` and first occurs at `b` in `body`, it first occurs at |h| + b
      in `h + body`. */
  lemma FirstAfterPrefix(h: seq<string>, body: seq<string>, x: string, b: nat)
    requires forall j :: 0 <= j < |h| ==> h[j] != x
    requires b < |body| && body[b] == x && forall j :: 0 <= j < b ==> body[j] != x
    ensures IndexOf(h + body, x) == |h| + b
  {
    var hb := h + body;
    forall j | 0 <= j < |h| + b
      ensures hb[j] != x
    {
      if j < |h| {
        assert hb[j] == h[j];
      } else {
        assert hb[j] == body[j - |h|];
      }
    }
    IndexOfAt(hb, x, |h| + b);
  }

  /** A line equal to `x` with none before it is the first occurrence. */
  lemma IndexOfAt(lines: seq<string>, x: string, k: nat)
    requires k < |lines| && lines[k] == x
    requires forall j :: 0 <= j < k ==> lines[j] != x
    ensures IndexOf(lines, x) == k
  {
  }

  /** What comes before the "; Nameservers" line never reaches a query. */
  lemma QueryIgnoresHeader(h: seq<string>, body: seq<string>, q: QueryRequest)
    requires NameserversMarker !in h && NameserversMarker in body
    ensures QueryResult(h + body, q) == QueryResult(body, q)
  {
    IndexOfShift(h, body, NameserversMarker);
    assert (h + body)[ScanStart(h + body)..] == body[ScanStart(body)..];
  }
}
