/** DNSSEC validation of a whole response, from its octets to the verdict. */
module DnssecMessage {
  import opened Bytes
  import opened Text
  import opened WireFormat
  import opened Questions
  import opened Dnssec

  const TYPE_RRSIG: u16 := 46
  const TYPE_DNSKEY: u16 := 48

  datatype ParsedRecord = ParsedRecord(rr: RR, ttl: u32, offset: nat)

  // ---------------------------------------------------------------- extractRecords

  /** readUint16 and readUint32 give 0 past the end and leave the cursor there. */
  function Value16(b: Octets, pos: nat): u16
  {
    if pos + 2 <= |b| then U16(b, pos) else 0
  }

  function Value32(b: Octets, pos: nat): u32
  {
    if pos + 4 <= |b| then U32(b, pos) else 0
  }

  function Past(b: Octets, pos: nat, n: nat): (r: nat)
    ensures r <= |b|
  {
    if pos + n <= |b| then pos + n else |b|
  }

  /** Where the rdata of the record at `pos` begins, and what its length field says. */
  function RdataStart(b: Octets, pos: nat): (r: nat)
    ensures r <= |b|
  {
    Past(b, Past(b, Past(b, Past(b, NameEnd(b, pos), 2), 2), 4), 2)
  }

  function RdataLength(b: Octets, pos: nat): u16
  {
    Value16(b, Past(b, Past(b, Past(b, NameEnd(b, pos), 2), 2), 4))
  }

  function RecordAt(b: Octets, pos: nat): ParsedRecord
  {
    var p0 := NameEnd(b, pos);
    var p1 := Past(b, p0, 2);
    var p2 := Past(b, p1, 2);
    var start, len := RdataStart(b, pos), RdataLength(b, pos);
    ParsedRecord(
      RR(Lower(NameAt(b, pos)), Value16(b, p0), Value16(b, p1), len, b[start..Past(b, start, len)]),
      Value32(b, p2), start)
  }

  function RecordEnd(b: Octets, pos: nat): nat
  {
    RdataStart(b, pos) + RdataLength(b, pos)
  }

  /** Up to `n` records from `pos`; a section ends early where the packet does. */
  function RecordsFrom(b: Octets, pos: nat, n: nat): seq<ParsedRecord>
    decreases n
  {
    if n == 0 || pos >= |b| then [] else [RecordAt(b, pos)] + RecordsFrom(b, RecordEnd(b, pos), n - 1)
  }

  function RecordsEnd(b: Octets, pos: nat, n: nat): nat
    decreases n
  {
    if n == 0 || pos >= |b| then pos else RecordsEnd(b, RecordEnd(b, pos), n - 1)
  }

  datatype Sections = Sections(
    answers: seq<ParsedRecord>, authorities: seq<ParsedRecord>, additionals: seq<ParsedRecord>)

  function SectionsOf(b: Octets): Sections
    requires |b| >= 12
  {
    var p0 := SkipQuestions(b, 12, U16(b, 4));
    var p1 := RecordsEnd(b, p0, U16(b, 6));
    var p2 := RecordsEnd(b, p1, U16(b, 8));
    Sections(RecordsFrom(b, p0, U16(b, 6)), RecordsFrom(b, p1, U16(b, 8)), RecordsFrom(b, p2, U16(b, 10)))
  }

  method ParseRecord(decoder: DnsWireFormat) returns (r: ParsedRecord)
    modifies decoder`offset
    ensures r == RecordAt(decoder.buf[..], old(decoder.offset))
    ensures decoder.offset == RecordEnd(decoder.buf[..], old(decoder.offset))
  {
    hide NameAt, NameEnd, U16, U32;
    ghost var b, p0 := decoder.buf[..], NameEnd(decoder.buf[..], decoder.offset);
    var name := decoder.ReadDomainName();
    var rtype := decoder.ReadUint16();
    assert rtype == Value16(b, p0) && decoder.offset == Past(b, p0, 2);
    var dclass := decoder.ReadUint16();
    assert dclass == Value16(b, Past(b, p0, 2)) && decoder.offset == Past(b, Past(b, p0, 2), 2);
    ghost var p2 := decoder.offset;
    var ttl := decoder.ReadUint32();
    assert ttl == Value32(b, p2) && decoder.offset == Past(b, p2, 4);
    var rdlength := decoder.ReadUint16();
    assert rdlength == Value16(b, Past(b, p2, 4)) && decoder.offset == Past(b, Past(b, p2, 4), 2);
    hide Value16, Value32;
    var end := decoder.offset + rdlength;
    var rdata := decoder.buf[decoder.offset..if end <= decoder.buf.Length then end else decoder.buf.Length];
    r := ParsedRecord(RR(Lower(name), rtype, dclass, rdlength, rdata), ttl, decoder.offset);
    assert rdata == decoder.buf[..][decoder.offset..if end <= decoder.buf.Length then end else decoder.buf.Length];
    decoder.offset := end;
  }

  method ParseSection(decoder: DnsWireFormat, count: nat) returns (records: seq<ParsedRecord>)
    modifies decoder`offset
    ensures records == RecordsFrom(decoder.buf[..], old(decoder.offset), count)
    ensures decoder.offset == RecordsEnd(decoder.buf[..], old(decoder.offset), count)
  {
    hide RecordAt, RecordEnd;
    records := [];
    var i := 0;
    ghost var b := decoder.buf[..];
    while i < count
      invariant 0 <= i <= count && decoder.buf[..] == b
      invariant records + RecordsFrom(b, decoder.offset, count - i) == RecordsFrom(b, old(decoder.offset), count)
      invariant RecordsEnd(b, decoder.offset, count - i) == RecordsEnd(b, old(decoder.offset), count)
    {
      if decoder.offset >= decoder.buf.Length { break; }
      var record := ParseRecord(decoder);
      records := records + [record];
      i := i + 1;
    }
  }

  method ExtractRecords(buffer: array<byte>) returns (r: Sections)
    requires buffer.Length >= 12
    ensures r == SectionsOf(buffer[..])
  {
    hide RecordsFrom, RecordsEnd, NameEnd, U16;
    var decoder := new DnsWireFormat.Over(buffer, 4);
    var qdcount: nat := decoder.ReadUint16();
    var ancount: nat := decoder.ReadUint16();
    var nscount: nat := decoder.ReadUint16();
    var arcount: nat := decoder.ReadUint16();
    for i := 0 to qdcount
      invariant decoder.buf == buffer
      invariant SkipQuestions(buffer[..], decoder.offset, qdcount - i) == SkipQuestions(buffer[..], 12, qdcount)
    {
      var _ := decoder.ReadDomainName();
      decoder.offset := decoder.offset + 4;
    }
    assert decoder.offset == SkipQuestions(buffer[..], 12, qdcount);
    hide SkipQuestions;
    var answers := ParseSection(decoder, ancount);
    var authorities := ParseSection(decoder, nscount);
    var additionals := ParseSection(decoder, arcount);
    r := Sections(answers, authorities, additionals);
  }

  /** Only a record cut off by the end of the packet has fewer octets than its length field says, and it is the last
      of its section. */
  lemma {:induction false} OnlyTheLastIsCut(b: Octets, pos: nat, n: nat)
    ensures var rs := RecordsFrom(b, pos, n);
            && |rs| <= n
            && forall i :: 0 <= i < |rs| - 1 ==> rs[i].rr.rdlength == |rs[i].rr.rdata|
    decreases n
  {
    hide NameAt, NameEnd;
    if n > 0 && pos < |b| {
      OnlyTheLastIsCut(b, RecordEnd(b, pos), n - 1);
    }
  }

  function RRs(records: seq<ParsedRecord>): (r: seq<RR>)
    ensures |r| == |records|
    ensures forall i :: 0 <= i < |r| ==> r[i] == records[i].rr
  {
    seq(|records|, i requires 0 <= i < |records| => records[i].rr)
  }

  predicate IsWhole(r: ParsedRecord)
  {
    r.rr.rdlength == |r.rr.rdata|
  }

  predicate AllWhole(rs: seq<ParsedRecord>)
  {
    forall i :: 0 <= i < |rs| ==> IsWhole(rs[i])
  }

  /** The records of a section are all whole exactly when it ends inside the packet. */
  lemma {:induction false} WholeSection(b: Octets, pos: nat, n: nat)
    requires pos <= |b|
    ensures RecordsEnd(b, pos, n) <= |b| <==> AllWhole(RecordsFrom(b, pos, n))
    decreases n
  {
    hide RecordAt, RecordEnd, IsWhole;
    if n > 0 && pos < |b| {
      var next, rest := RecordEnd(b, pos), RecordsFrom(b, RecordEnd(b, pos), n - 1);
      WholeRecord(b, pos);
      assert RecordsFrom(b, pos, n) == [RecordAt(b, pos)] + rest;
      AllWholeHead(RecordAt(b, pos), rest);
      hide AllWhole;
      if next <= |b| {
        WholeSection(b, next, n - 1);
      } else {
        assert RecordsEnd(b, next, n - 1) == next;
      }
    }
  }

  lemma AllWholeHead(r: ParsedRecord, rest: seq<ParsedRecord>)
    ensures AllWhole([r] + rest) <==> IsWhole(r) && AllWhole(rest)
  {
    hide IsWhole;
    assert ([r] + rest)[0] == r;
    assert forall i :: 0 < i <= |rest| ==> ([r] + rest)[i] == rest[i - 1];
    assert forall i :: 0 <= i < |rest| ==> rest[i] == ([r] + rest)[i + 1];
  }

  lemma {:induction false} WholeRecord(b: Octets, pos: nat)
    ensures IsWhole(RecordAt(b, pos)) <==> RecordEnd(b, pos) <= |b|
  {
    hide NameAt, NameEnd;
  }

  // ---------------------------------------------------------------- records as they are written

  /** A record as a sender means it. Its owner may be compressed and in any case on the wire. */
  datatype WireRecord = WireRecord(labels: seq<Name>, rtype: u16, dclass: u16, ttl: u32, rdata: Octets)

  function Fixed(w: WireRecord): Octets
    requires |w.rdata| < 0x1_0000
  {
    Be16(w.rtype) + (Be16(w.dclass) + (Be32(w.ttl) + (Be16(|w.rdata|) + w.rdata)))
  }

  /** `w` stands at `pos`, its owner using `ptrs` compression pointers, at most as many as the reader follows. */
  ghost predicate LaidAt(b: Octets, pos: nat, w: WireRecord, ptrs: nat)
  {
    && ptrs <= MAX_JUMPS && |w.rdata| < 0x1_0000
    && Encodes(b, pos, w.labels, ptrs)
    && At(b, InPlaceEnd(b, pos, w.labels, ptrs), Fixed(w))
  }

  ghost function LaidEnd(b: Octets, pos: nat, w: WireRecord, ptrs: nat): nat
    requires LaidAt(b, pos, w, ptrs)
  {
    InPlaceEnd(b, pos, w.labels, ptrs) + 10 + |w.rdata|
  }

  ghost predicate Laid(b: Octets, pos: nat, ws: seq<WireRecord>, ptrs: seq<nat>)
    decreases |ws|
  {
    && |ws| == |ptrs|
    && (ws != [] ==> LaidAt(b, pos, ws[0], ptrs[0]) && Laid(b, LaidEnd(b, pos, ws[0], ptrs[0]), ws[1..], ptrs[1..]))
  }

  ghost function LaidsEnd(b: Octets, pos: nat, ws: seq<WireRecord>, ptrs: seq<nat>): nat
    requires Laid(b, pos, ws, ptrs)
    decreases |ws|
  {
    if ws == [] then pos else LaidsEnd(b, LaidEnd(b, pos, ws[0], ptrs[0]), ws[1..], ptrs[1..])
  }

  /** What extraction makes of a record: the owner in lower case, everything else as sent. */
  function AsRR(w: WireRecord): RR
    requires |w.rdata| < 0x1_0000
  {
    RR(Lower(Join(w.labels)), w.rtype, w.dclass, |w.rdata|, w.rdata)
  }

  lemma FixedReadsBack(b: Octets, at: nat, w: WireRecord)
    requires |w.rdata| < 0x1_0000 && At(b, at, Fixed(w))
    ensures at + 10 + |w.rdata| <= |b|
    ensures U16(b, at) == w.rtype && U16(b, at + 2) == w.dclass && U32(b, at + 4) == w.ttl
    ensures U16(b, at + 8) == |w.rdata| && b[at + 10..at + 10 + |w.rdata|] == w.rdata
  {
    hide Be16, Be32;
    AtAppend(b, at, Be16(w.rtype), Be16(w.dclass) + (Be32(w.ttl) + (Be16(|w.rdata|) + w.rdata)));
    AtAppend(b, at + 2, Be16(w.dclass), Be32(w.ttl) + (Be16(|w.rdata|) + w.rdata));
    AtAppend(b, at + 4, Be32(w.ttl), Be16(|w.rdata|) + w.rdata);
    AtAppend(b, at + 8, Be16(|w.rdata|), w.rdata);
    ReadBe16(b, at, w.rtype);
    ReadBe16(b, at + 2, w.dclass);
    ReadBe32(b, at + 4, w.ttl);
    ReadBe16(b, at + 8, |w.rdata|);
  }

  lemma RecordReadsBack(b: Octets, pos: nat, w: WireRecord, ptrs: nat)
    requires LaidAt(b, pos, w, ptrs)
    ensures pos < |b|
    ensures RecordAt(b, pos).rr == AsRR(w) && RecordAt(b, pos).ttl == w.ttl
    ensures RecordEnd(b, pos) == LaidEnd(b, pos, w, ptrs)
  {
    CompressedNameDecodes(b, pos, w.labels, ptrs);
    CursorAfterCompressedName(b, pos, w.labels, ptrs);
    var end := InPlaceEnd(b, pos, w.labels, ptrs);
    FixedReadsBack(b, end, w);
    assert NameEnd(b, pos) == end && NameAt(b, pos) == Join(w.labels);
    hide At, Fixed, Encodes, InPlaceEnd, NameEnd, NameAt, LabelsAt, U16, U32, Join;
    assert RdataStart(b, pos) == end + 10 && RdataLength(b, pos) == |w.rdata|;
    hide RdataStart, RdataLength;
  }

  /** A record the packet cuts off before its rdata: each fixed field is read when it is whole and 0 otherwise, and
      there is no rdata. One cut inside its rdata keeps what is there. */
  lemma {:induction false} CutRecordReads(b: Octets, pos: nat, labels: seq<Name>, ptrs: nat)
    requires Encodes(b, pos, labels, ptrs) && ptrs <= MAX_JUMPS && InPlaceEnd(b, pos, labels, ptrs) <= |b|
    ensures var at := InPlaceEnd(b, pos, labels, ptrs);
            var n, r := |b| - at, RecordAt(b, pos).rr;
            && r.name == Lower(Join(labels))
            && r.rtype == (if n < 2 then 0 else U16(b, at)) && r.dclass == (if n < 4 then 0 else U16(b, at + 2))
            && (n < 10 ==> r.rdlength == 0 && r.rdata == [])
            && (n >= 10 ==> r.rdlength == U16(b, at + 8))
            && (n >= 10 && U16(b, at + 8) > n - 10 ==> r.rdata == b[at + 10..])
  {
    CompressedNameDecodes(b, pos, labels, ptrs);
    CursorAfterCompressedName(b, pos, labels, ptrs);
    hide Encodes, InPlaceEnd, NameEnd, LabelsAt, U16, U32, Join;
  }

  /** Extraction reads a section back exactly, however the owners are compressed and whatever surrounds it. */
  lemma {:induction false} RecordsReadBack(b: Octets, pos: nat, ws: seq<WireRecord>, ptrs: seq<nat>)
    requires Laid(b, pos, ws, ptrs)
    ensures var rs := RecordsFrom(b, pos, |ws|);
            && |rs| == |ws|
            && forall i :: 0 <= i < |ws| ==>
                 |ws[i].rdata| < 0x1_0000 && rs[i].rr == AsRR(ws[i]) && rs[i].ttl == ws[i].ttl
    ensures RecordsEnd(b, pos, |ws|) == LaidsEnd(b, pos, ws, ptrs)
    decreases |ws|
  {
    hide RecordAt, RecordEnd, LaidAt, LaidEnd, AsRR;
    if ws != [] {
      RecordReadsBack(b, pos, ws[0], ptrs[0]);
      RecordsReadBack(b, LaidEnd(b, pos, ws[0], ptrs[0]), ws[1..], ptrs[1..]);
      assert |ws[0].rdata| < 0x1_0000 by { LaidIsShort(b, pos, ws[0], ptrs[0]); }
      var rest := RecordsFrom(b, RecordEnd(b, pos), |ws| - 1);
      assert RecordsFrom(b, pos, |ws|) == [RecordAt(b, pos)] + rest;
      assert forall i :: 0 < i < |ws| ==> ws[i] == ws[1..][i - 1];
    }
  }

  lemma LaidIsShort(b: Octets, pos: nat, w: WireRecord, ptrs: nat)
    requires LaidAt(b, pos, w, ptrs)
    ensures |w.rdata| < 0x1_0000
  {
  }

  // ---------------------------------------------------------------- whole messages

  predicate Sendable(w: WireRecord)
  {
    WireLabels(w.labels) && |w.rdata| < 0x1_0000
  }

  predicate AllSendable(ws: seq<WireRecord>)
  {
    forall i :: 0 <= i < |ws| ==> Sendable(ws[i])
  }

  /** A section with its owners written in full. */
  function SectionOctets(ws: seq<WireRecord>): Octets
    requires AllSendable(ws)
  {
    if ws == [] then [] else EncodeLabels(ws[0].labels) + Fixed(ws[0]) + SectionOctets(ws[1..])
  }

  function AsRRs(ws: seq<WireRecord>): (r: seq<RR>)
    requires AllSendable(ws)
    ensures |r| == |ws|
  {
    if ws == [] then [] else [AsRR(ws[0])] + AsRRs(ws[1..])
  }

  lemma {:induction false} UncompressedEncodes(b: Octets, pos: nat, labels: seq<Name>)
    requires WireLabels(labels) && At(b, pos, EncodeLabels(labels))
    ensures Encodes(b, pos, labels, 0) && InPlaceEnd(b, pos, labels, 0) == pos + |EncodeLabels(labels)|
    decreases |labels|
  {
    hide At, StepAt, EncodeLabels;
    FirstLabel(b, pos, labels);
    StartsWith(b, pos, labels);
    if labels != [] {
      UncompressedEncodes(b, pos + 1 + |labels[0]|, labels[1..]);
    }
  }

  lemma {:induction false} StartsWith(b: Octets, pos: nat, labels: seq<Name>)
    requires WireLabels(labels) && At(b, pos, EncodeLabels(labels))
    ensures pos < |b| && b[pos] == if labels == [] then 0 else |labels[0]|
  {
    AtIndex(b, pos, EncodeLabels(labels), 0);
  }

  lemma {:induction false} OneRecordReadsBack(b: Octets, pos: nat, w: WireRecord)
    requires Sendable(w) && At(b, pos, EncodeLabels(w.labels) + Fixed(w))
    ensures pos < |b| && RecordAt(b, pos).rr == AsRR(w)
    ensures RecordEnd(b, pos) == pos + |EncodeLabels(w.labels) + Fixed(w)|
  {
    AtAppend(b, pos, EncodeLabels(w.labels), Fixed(w));
    UncompressedEncodes(b, pos, w.labels);
    assert |Fixed(w)| == 10 + |w.rdata|;
    hide At, Encodes, InPlaceEnd, EncodeLabels, Fixed, RecordAt, RecordEnd, AsRR;
    RecordReadsBack(b, pos, w, 0);
  }

  lemma {:induction false} SectionReadsBack(b: Octets, pos: nat, ws: seq<WireRecord>)
    requires AllSendable(ws) && At(b, pos, SectionOctets(ws))
    ensures RRs(RecordsFrom(b, pos, |ws|)) == AsRRs(ws)
    ensures RecordsEnd(b, pos, |ws|) == pos + |SectionOctets(ws)|
    decreases |ws|
  {
    hide *;
    if ws == [] {
      NoSection(b, pos);
    } else {
      SectionHead(ws);
      var one := EncodeLabels(ws[0].labels) + Fixed(ws[0]);
      AtAppend(b, pos, one, SectionOctets(ws[1..]));
      OneRecordReadsBack(b, pos, ws[0]);
      RecordsHead(b, pos, |ws|);
      SectionReadsBack(b, pos + |one|, ws[1..]);
    }
  }

  lemma {:induction false} NoSection(b: Octets, pos: nat)
    ensures AllSendable([]) && SectionOctets([]) == [] && AsRRs([]) == []
    ensures RRs(RecordsFrom(b, pos, 0)) == [] && RecordsEnd(b, pos, 0) == pos
  {
  }

  lemma {:induction false} SectionHead(ws: seq<WireRecord>)
    requires AllSendable(ws) && ws != []
    ensures Sendable(ws[0]) && AllSendable(ws[1..]) && LabelsFit(ws[0].labels, 255) && |ws[0].rdata| < 0x1_0000
    ensures SectionOctets(ws) == EncodeLabels(ws[0].labels) + Fixed(ws[0]) + SectionOctets(ws[1..])
    ensures AsRRs(ws) == [AsRR(ws[0])] + AsRRs(ws[1..])
  {
  }

  lemma {:induction false} RecordsHead(b: Octets, pos: nat, n: nat)
    requires n > 0 && pos < |b|
    ensures RRs(RecordsFrom(b, pos, n)) == [RecordAt(b, pos).rr] + RRs(RecordsFrom(b, RecordEnd(b, pos), n - 1))
    ensures RecordsEnd(b, pos, n) == RecordsEnd(b, RecordEnd(b, pos), n - 1)
  {
    hide RecordAt, RecordEnd;
    var r, rest := RecordAt(b, pos), RecordsFrom(b, RecordEnd(b, pos), n - 1);
    assert RecordsFrom(b, pos, n) == [r] + rest;
    assert RRs([r] + rest) == [r.rr] + RRs(rest);
  }

  /** A message with this header start, question section and these three sections, names written in full. */
  function Message(head: Octets, qs: seq<WireQuestion>, answers: seq<WireRecord>, authorities: seq<WireRecord>,
                   additionals: seq<WireRecord>): (b: Octets)
    requires |head| == 4 && AllLegal(qs)
    requires AllSendable(answers) && AllSendable(authorities) && AllSendable(additionals)
    requires |qs| < 0x1_0000 && |answers| < 0x1_0000 && |authorities| < 0x1_0000 && |additionals| < 0x1_0000
    ensures |b| >= 12
  {
    head + Be16(|qs|) + Be16(|answers|) + Be16(|authorities|) + Be16(|additionals|)
    + (Section(qs) + (SectionOctets(answers) + (SectionOctets(authorities) + SectionOctets(additionals))))
  }

  /** Round trip: behind any question section, extraction gives back all three sections of a message, record for
      record. */
  lemma {:induction false} MessageReadsBack(
    head: Octets, qs: seq<WireQuestion>, answers: seq<WireRecord>, authorities: seq<WireRecord>,
    additionals: seq<WireRecord>)
    requires |head| == 4 && AllLegal(qs)
    requires AllSendable(answers) && AllSendable(authorities) && AllSendable(additionals)
    requires |qs| < 0x1_0000 && |answers| < 0x1_0000 && |authorities| < 0x1_0000 && |additionals| < 0x1_0000
    ensures var s := SectionsOf(Message(head, qs, answers, authorities, additionals));
            && RRs(s.answers) == AsRRs(answers)
            && RRs(s.authorities) == AsRRs(authorities)
            && RRs(s.additionals) == AsRRs(additionals)
  {
    hide *;
    var b := Message(head, qs, answers, authorities, additionals);
    MessageCounts(head, qs, answers, authorities, additionals);
    var o, p, q, r := Section(qs), SectionOctets(answers), SectionOctets(authorities), SectionOctets(additionals);
    FourParts(b, 12, o, p, q, r);
    var start := 12 + |o|;
    SectionIsSkipped(b, 12, qs);
    SectionReadsBack(b, start, answers);
    SectionReadsBack(b, start + |p|, authorities);
    SectionReadsBack(b, start + |p| + |q|, additionals);
    SectionsUnfold(b);
  }

  lemma FourParts(b: Octets, pos: nat, o: Octets, p: Octets, q: Octets, r: Octets)
    requires At(b, pos, o + (p + (q + r)))
    ensures At(b, pos, o) && At(b, pos + |o|, p) && At(b, pos + |o| + |p|, q) && At(b, pos + |o| + |p| + |q|, r)
  {
    hide At;
    AtAppend(b, pos, o, p + (q + r));
    AtAppend(b, pos + |o|, p, q + r);
    AtAppend(b, pos + |o| + |p|, q, r);
  }

  lemma SectionsUnfold(b: Octets)
    requires |b| >= 12
    ensures var s := SectionsOf(b);
            var p0 := SkipQuestions(b, 12, U16(b, 4));
            var p1 := RecordsEnd(b, p0, U16(b, 6));
            && s.answers == RecordsFrom(b, p0, U16(b, 6))
            && s.authorities == RecordsFrom(b, p1, U16(b, 8))
            && s.additionals == RecordsFrom(b, RecordsEnd(b, p1, U16(b, 8)), U16(b, 10))
  {
    hide SkipQuestions, RecordsEnd, RecordsFrom, U16;
  }

  lemma {:induction false} MessageCounts(
    head: Octets, qs: seq<WireQuestion>, answers: seq<WireRecord>, authorities: seq<WireRecord>,
    additionals: seq<WireRecord>)
    requires |head| == 4 && AllLegal(qs)
    requires AllSendable(answers) && AllSendable(authorities) && AllSendable(additionals)
    requires |qs| < 0x1_0000 && |answers| < 0x1_0000 && |authorities| < 0x1_0000 && |additionals| < 0x1_0000
    ensures var b := Message(head, qs, answers, authorities, additionals);
            && U16(b, 4) == |qs| && U16(b, 6) == |answers|
            && U16(b, 8) == |authorities| && U16(b, 10) == |additionals|
            && At(b, 12, Section(qs) + (SectionOctets(answers)
                                        + (SectionOctets(authorities) + SectionOctets(additionals))))
  {
    hide SectionOctets, AllSendable, Be16, Section, AllLegal;
    var b := Message(head, qs, answers, authorities, additionals);
    assert At(b, 4, Be16(|qs|)) && At(b, 6, Be16(|answers|));
    assert At(b, 8, Be16(|authorities|)) && At(b, 10, Be16(|additionals|));
    ReadBe16(b, 4, |qs|);
    ReadBe16(b, 6, |answers|);
    ReadBe16(b, 8, |authorities|);
    ReadBe16(b, 10, |additionals|);
  }

  /** Any message laid out with this question section and these three sections, owners in full or compressed. */
  ghost predicate LaidOut(b: Octets, qs: seq<WireQuestion>, answers: seq<WireRecord>, ptrs: seq<nat>,
                          authorities: seq<WireRecord>, ptrs2: seq<nat>, additionals: seq<WireRecord>, ptrs3: seq<nat>)
  {
    && |b| >= 12 && AllLegal(qs) && U16(b, 4) == |qs| && At(b, 12, Section(qs))
    && U16(b, 6) == |answers| && U16(b, 8) == |authorities| && U16(b, 10) == |additionals|
    && var p := 12 + |Section(qs)|;
       && Laid(b, p, answers, ptrs)
       && var q := LaidsEnd(b, p, answers, ptrs);
          Laid(b, q, authorities, ptrs2) && Laid(b, LaidsEnd(b, q, authorities, ptrs2), additionals, ptrs3)
  }

  /** Extraction finds these records. */
  ghost predicate Found(rs: seq<ParsedRecord>, ws: seq<WireRecord>)
  {
    && |rs| == |ws|
    && forall i :: 0 <= i < |ws| ==>
         |ws[i].rdata| < 0x1_0000 && rs[i].rr == AsRR(ws[i]) && rs[i].ttl == ws[i].ttl
  }

  /** The same for compressed owners: every message so laid out is read record for record. */
  lemma {:induction false} LaidOutReadsBack(
    b: Octets, qs: seq<WireQuestion>, answers: seq<WireRecord>, ptrs: seq<nat>,
    authorities: seq<WireRecord>, ptrs2: seq<nat>, additionals: seq<WireRecord>, ptrs3: seq<nat>)
    requires LaidOut(b, qs, answers, ptrs, authorities, ptrs2, additionals, ptrs3)
    ensures var s := SectionsOf(b);
            Found(s.answers, answers) && Found(s.authorities, authorities) && Found(s.additionals, additionals)
  {
    hide At, Section, SkipQuestions, RecordsFrom, RecordsEnd, Laid, LaidsEnd, AsRR, U16, AllLegal;
    SectionIsSkipped(b, 12, qs);
    var p := 12 + |Section(qs)|;
    var q := LaidsEnd(b, p, answers, ptrs);
    RecordsReadBack(b, p, answers, ptrs);
    RecordsReadBack(b, q, authorities, ptrs2);
    RecordsReadBack(b, LaidsEnd(b, q, authorities, ptrs2), additionals, ptrs3);
  }

  // ---------------------------------------------------------------- canonical form

  lemma LowerTwice(s: Name)
    ensures Lower(Lower(s)) == Lower(s)
  {
  }

  /** The owner of RFC 4034 section 6.2: labels in full, in lower case. */
  lemma CanonicalOwner(labels: seq<Name>)
    requires WireLabels(labels) && Dotless(labels)
    ensures Encodable(Lower(Join(labels))) && Written(Lower(Join(labels))) == LowerAll(labels)
    ensures EncodeName(Lower(Join(labels))) == EncodeLabels(LowerAll(labels))
  {
    LowerTwice(Join(labels));
    RewriteLowersCase(labels);
    SplitJoinFit(labels, 63);
    LowerSplit(Join(labels));
  }

  /** The record as RFC 4034 section 3.1.8.1 has it signed. */
  function SignedForm(w: WireRecord, originalTtl: u32): Octets
    requires WireLabels(w.labels) && |w.rdata| < 0x1_0000
  {
    EncodeLabels(LowerAll(w.labels)) + (Be16(w.rtype) + Be16(w.dclass) + Be32(originalTtl) + Be16(|w.rdata|)) + w.rdata
  }

  lemma {:induction false} EncodedLabelsAreWireLabels(b: Octets, pos: nat, labels: seq<Name>, ptrs: nat)
    requires Encodes(b, pos, labels, ptrs)
    ensures WireLabels(labels)
    decreases |labels| + ptrs
  {
    if labels != [] {
      if b[pos] == |labels[0]| && b[pos] < 192 {
        EncodedLabelsAreWireLabels(b, pos + 1 + |labels[0]|, labels[1..], ptrs);
        assert labels == [labels[0]] + labels[1..];
      } else {
        EncodedLabelsAreWireLabels(b, Pointer(b, pos), labels, ptrs - 1);
      }
    }
  }

  /** Neither the compression nor the case of the owner on the wire reaches the signed octets. */
  lemma {:induction false} WireFormDoesNotMatter(b: Octets, pos: nat, w: WireRecord, ptrs: nat, originalTtl: u32)
    requires LaidAt(b, pos, w, ptrs) && Dotless(w.labels) && Canonical(RecordAt(b, pos).rr.name)
    ensures WireLabels(w.labels)
    ensures Piece(RecordAt(b, pos).rr, originalTtl) == SignedForm(w, originalTtl)
  {
    EncodedLabelsAreWireLabels(b, pos, w.labels, ptrs);
    RecordReadsBack(b, pos, w, ptrs);
    CanonicalOwner(w.labels);
    hide LaidAt, RecordAt, EncodeName, EncodeLabels, Join;
  }

  // ---------------------------------------------------------------- RRSIG and DNSKEY rdata

  datatype Rrsig = Rrsig(
    typeCovered: u16, algorithm: byte, labels: byte, originalTtl: u32,
    expiration: u32, inception: u32, keyTag: u16, signerName: Name, signature: Octets, rawRdata: Octets)

  function RrsigOf(rdata: Octets): Option<Rrsig>
  {
    if |rdata| < 18 then None
    else Some(Rrsig(
      U16(rdata, 0), rdata[2], rdata[3], U32(rdata, 4), U32(rdata, 8), U32(rdata, 12), U16(rdata, 16),
      Lower(NameAt(rdata, 18)), rdata[NameEnd(rdata, 18)..], rdata))
  }

  method ParseRrsig(rdata: Octets) returns (r: Option<Rrsig>)
    ensures r == RrsigOf(rdata)
    ensures r.Some? ==> |r.value.rawRdata| >= 18
  {
    hide NameAt, NameEnd;
    if |rdata| < 18 { return None; }
    var buffer := ToBuffer(rdata);
    var decoder := new DnsWireFormat.Over(buffer, 0);
    var typeCovered := decoder.ReadUint16();
    var algorithm := decoder.ReadUint8();
    var labels := decoder.ReadUint8();
    var originalTtl := decoder.ReadUint32();
    var expiration := decoder.ReadUint32();
    var inception := decoder.ReadUint32();
    var keyTag := decoder.ReadUint16();
    var signerName := decoder.ReadDomainName();
    return Some(Rrsig(typeCovered, algorithm, labels, originalTtl, expiration, inception, keyTag,
                      Lower(signerName), rdata[decoder.offset..], rdata));
  }

  /** The RRSIG part of the signed octets is the rdata without the signature, the signer in canonical form
      (RFC 4034 section 3.1.8.1). */
  lemma {:induction false} SignedPrefixIsCanonical(fields: Octets, signer: seq<Name>, signature: Octets)
    requires |fields| == 18 && WireLabels(signer) && Dotless(signer)
    ensures var rdata := fields + EncodeLabels(signer) + signature;
            var r := RrsigOf(rdata).value;
            && Encodable(r.signerName)
            && r.rawRdata[..18] + EncodeName(r.signerName) == fields + EncodeLabels(LowerAll(signer))
            && r.signature == signature
  {
    var rdata := fields + EncodeLabels(signer) + signature;
    assert rdata[18..18 + |EncodeLabels(signer)|] == EncodeLabels(signer);
    UncompressedReadsBack(rdata, 18, signer, 0);
    CanonicalOwner(signer);
    hide NameEnd, LabelsAt, EncodeName, EncodeLabels, Join;
    assert rdata[..18] == fields;
  }

  datatype Dnskey = Dnskey(flags: u16, protocol: byte, algorithm: byte, publicKey: Octets)

  function DnskeyOf(rdata: Octets): Option<Dnskey>
  {
    if |rdata| < 4 then None else Some(Dnskey(U16(rdata, 0), rdata[2], rdata[3], rdata[4..]))
  }

  /** Algorithm 1 takes the tag from the key's last octets; reading before a short key yields no number. */
  function TagOf(rdata: Octets): Option<int>
    requires |rdata| >= 4
  {
    var key := DnskeyOf(rdata).value;
    var n := |key.publicKey|;
    if key.algorithm != 1 then Some(FoldTag(Accumulated(rdata, |rdata|)))
    else if n < 2 then None
    else Some((if n >= 3 then key.publicKey[n - 3] as int * 256 else 0) + key.publicKey[n - 2] as int)
  }

  // ---------------------------------------------------------------- verifyResponse

  /** crypto.verify on an algorithm, a public key, a payload and a signature; false also for its exceptions. */
  type Verifier = (byte, Octets, Octets, Octets) -> bool

  datatype Verdict = Skipped | Valid | Invalid | Thrown

  predicate Matches(k: RR, tag: u16)
  {
    |k.rdata| >= 4 && TagOf(k.rdata) == Some(tag as int)
  }

  function FirstKey(keys: seq<RR>, tag: u16): Option<RR>
  {
    if keys == [] then None else if Matches(keys[0], tag) then Some(keys[0]) else FirstKey(keys[1..], tag)
  }

  function OfType(rs: seq<RR>, rtype: u16): seq<RR>
  {
    if rs == [] then [] else (if rs[0].rtype == rtype then [rs[0]] else []) + OfType(rs[1..], rtype)
  }

  function Covered(rs: seq<RR>, name: Name, rtype: u16): seq<RR>
  {
    if rs == [] then []
    else (if rs[0].name == name && rs[0].rtype == rtype then [rs[0]] else []) + Covered(rs[1..], name, rtype)
  }

  function Judge(sig: Rrsig, rrset: seq<RR>, key: Dnskey, now: int, verify: Verifier): Verdict
    requires |sig.rawRdata| >= 18
  {
    if now > sig.expiration || now < sig.inception then Invalid
    else if !(Canonical(sig.signerName) && AllOwnersEncode(rrset)) then Thrown
    else if sig.algorithm != 8 && !(sig.algorithm == 13 && |key.publicKey| == 64) then Invalid
    else
      var payload := Payload(sig.rawRdata[..18], sig.signerName, rrset, sig.originalTtl);
      if verify(sig.algorithm, key.publicKey, payload, sig.signature) then Valid else Invalid
  }

  /** What becomes of one RRSIG record: skipped without rdata, records to cover, or a key with its tag. */
  function VerdictOn(sig: RR, answers: seq<RR>, keys: seq<RR>, now: int, verify: Verifier): Verdict
  {
    match RrsigOf(sig.rdata)
    case None => Skipped
    case Some(rrsig) =>
      var rrset := Covered(answers, sig.name, rrsig.typeCovered);
      if rrset == [] then Skipped
      else match FirstKey(keys, rrsig.keyTag)
        case None => Skipped
        case Some(key) => match DnskeyOf(key.rdata)
          case None => Skipped
          case Some(dnskey) => Judge(rrsig, rrset, dnskey, now, verify)
  }

  /** The loop over the signatures ends at the first that fails; a response no signature fails is accepted.
      None is an exception on its way to the caller. */
  function OutcomeOf(sigs: seq<RR>, answers: seq<RR>, keys: seq<RR>, now: int, verify: Verifier): Option<bool>
  {
    if sigs == [] then Some(true)
    else match VerdictOn(sigs[0], answers, keys, now, verify)
      case Invalid => Some(false)
      case Thrown => None
      case Skipped => OutcomeOf(sigs[1..], answers, keys, now, verify)
      case Valid => OutcomeOf(sigs[1..], answers, keys, now, verify)
  }

  /** What a response with these answers and other records comes to. */
  function ResponseOutcome(answers: seq<RR>, others: seq<RR>, now: int, verify: Verifier): Option<bool>
  {
    OutcomeOf(OfType(answers + others, TYPE_RRSIG), answers, OfType(answers + others, TYPE_DNSKEY), now, verify)
  }

  method TagMatches(rdata: Octets, tag: u16) returns (r: bool)
    requires |rdata| >= 4
    ensures r == (TagOf(rdata) == Some(tag as int))
  {
    var key := DnskeyOf(rdata).value;
    var n := |key.publicKey|;
    if key.algorithm == 1 {
      if n < 2 { return false; }
      var high: int := if n >= 3 then key.publicKey[n - 3] as int * 256 else 0;
      return high + key.publicKey[n - 2] as int == tag as int;
    }
    var t := KeyTag(rdata);
    return t == tag as int;
  }

  method FindKey(keys: seq<RR>, tag: u16) returns (r: Option<RR>)
    ensures r == FirstKey(keys, tag)
  {
    hide TagOf;
    var i := 0;
    while i < |keys|
      invariant 0 <= i <= |keys|
      invariant FirstKey(keys[i..], tag) == FirstKey(keys, tag)
    {
      assert keys[i..][0] == keys[i] && keys[i..][1..] == keys[i + 1..];
      if |keys[i].rdata| >= 4 {
        var matches := TagMatches(keys[i].rdata, tag);
        if matches { return Some(keys[i]); }
      }
      i := i + 1;
    }
    return None;
  }

  method VerifySignature(sig: Rrsig, rrset: seq<RR>, key: Dnskey, now: int, verify: Verifier) returns (v: Verdict)
    requires |sig.rawRdata| >= 18
    ensures v == Judge(sig, rrset, key, now, verify)
  {
    hide Canonical, AllOwnersEncode, Payload;
    if now > sig.expiration || now < sig.inception { return Invalid; }
    var payload := BuildPayload(sig.rawRdata[..18], sig.signerName, rrset, sig.originalTtl);
    if payload.None? { return Thrown; }
    if sig.algorithm == 8 {
    } else if sig.algorithm == 13 {
      if |key.publicKey| != 64 { return Invalid; }
    } else {
      return Invalid;
    }
    var ok := verify(sig.algorithm, key.publicKey, payload.value, sig.signature);
    return if ok then Valid else Invalid;
  }

  method VerifyResponse(buffer: array<byte>, now: int, verify: Verifier) returns (r: Option<bool>)
    ensures buffer.Length < 12 ==> r == Some(false)
    ensures buffer.Length >= 12 ==>
              var s := SectionsOf(buffer[..]);
              r == ResponseOutcome(RRs(s.answers), RRs(s.authorities) + RRs(s.additionals), now, verify)
  {
    if buffer.Length < 12 { return Some(false); }
    hide SectionsOf, RRs, Judge, OfType, Covered, FirstKey, RrsigOf, DnskeyOf, OutcomeOf;
    var parsed := ExtractRecords(buffer);
    var answers := RRs(parsed.answers);
    var others := RRs(parsed.authorities) + RRs(parsed.additionals);
    var dnskeys := OfType(answers + others, TYPE_DNSKEY);
    var rrsigs := OfType(answers + others, TYPE_RRSIG);
    var i := 0;
    while i < |rrsigs|
      invariant 0 <= i <= |rrsigs|
      invariant OutcomeOf(rrsigs[i..], answers, dnskeys, now, verify)
                == OutcomeOf(rrsigs, answers, dnskeys, now, verify)
    {
      var sigRecord := rrsigs[i];
      OutcomeStep(rrsigs, i, answers, dnskeys, now, verify);
      i := i + 1;
      var rrsig := ParseRrsig(sigRecord.rdata);
      if rrsig.None? { continue; }
      var rrset := Covered(answers, sigRecord.name, rrsig.value.typeCovered);
      if |rrset| == 0 { continue; }
      var matching := FindKey(dnskeys, rrsig.value.keyTag);
      if matching.None? { continue; }
      var key := DnskeyOf(matching.value.rdata);
      if key.None? { continue; }
      var v := VerifySignature(rrsig.value, rrset, key.value, now, verify);
      if v == Invalid { return Some(false); }
      if v == Thrown { return None; }
    }
    OutcomeEnd(rrsigs[i..], answers, dnskeys, now, verify);
    return Some(true);
  }

  lemma OutcomeStep(sigs: seq<RR>, i: nat, answers: seq<RR>, keys: seq<RR>, now: int, verify: Verifier)
    requires i < |sigs|
    ensures OutcomeOf(sigs[i..], answers, keys, now, verify)
         == match VerdictOn(sigs[i], answers, keys, now, verify)
            case Invalid => Some(false)
            case Thrown => None
            case _ => OutcomeOf(sigs[i + 1..], answers, keys, now, verify)
  {
    hide VerdictOn;
    assert sigs[i..][0] == sigs[i] && sigs[i..][1..] == sigs[i + 1..];
  }

  lemma OutcomeEnd(sigs: seq<RR>, answers: seq<RR>, keys: seq<RR>, now: int, verify: Verifier)
    requires sigs == []
    ensures OutcomeOf(sigs, answers, keys, now, verify) == Some(true)
  {
  }

  /** A response is accepted exactly when no signature that could be checked fails: signatures without records to cover
      or without a key in the response, and responses without signatures, pass. */
  lemma {:induction false} AcceptedUnlessOneFails(
    sigs: seq<RR>, answers: seq<RR>, keys: seq<RR>, now: int, verify: Verifier)
    ensures OutcomeOf(sigs, answers, keys, now, verify) == Some(true)
            <==> forall sig :: sig in sigs ==> VerdictOn(sig, answers, keys, now, verify) in {Skipped, Valid}
  {
    hide VerdictOn;
    if sigs != [] {
      AcceptedUnlessOneFails(sigs[1..], answers, keys, now, verify);
      assert sigs == [sigs[0]] + sigs[1..];
    }
  }

  // ---------------------------------------------------------------- the order of the records

  lemma {:induction false} OfTypeCounts(rs: seq<RR>, rtype: u16, x: RR)
    ensures multiset(OfType(rs, rtype))[x] == if x.rtype == rtype then multiset(rs)[x] else 0
  {
    if rs != [] {
      OfTypeCounts(rs[1..], rtype, x);
      assert rs == [rs[0]] + rs[1..];
    }
  }

  lemma {:induction false} CoveredCounts(rs: seq<RR>, name: Name, rtype: u16, x: RR)
    ensures multiset(Covered(rs, name, rtype))[x] == if x.name == name && x.rtype == rtype then multiset(rs)[x] else 0
  {
    if rs != [] {
      CoveredCounts(rs[1..], name, rtype, x);
      assert rs == [rs[0]] + rs[1..];
    }
  }

  lemma {:induction false} CoveredIsOneSet(rs: seq<RR>, name: Name, rtype: u16)
    ensures OneSet(Covered(rs, name, rtype))
    ensures forall x :: x in Covered(rs, name, rtype) ==> x in rs && x.name == name && x.rtype == rtype
  {
    if rs != [] { CoveredIsOneSet(rs[1..], name, rtype); }
  }

  lemma CoveredOfPermutation(a: seq<RR>, b: seq<RR>, name: Name, rtype: u16)
    requires multiset(a) == multiset(b)
    ensures multiset(Covered(a, name, rtype)) == multiset(Covered(b, name, rtype))
    ensures Covered(a, name, rtype) == [] <==> Covered(b, name, rtype) == []
  {
    forall x: RR ensures multiset(Covered(a, name, rtype))[x] == multiset(Covered(b, name, rtype))[x] {
      CoveredCounts(a, name, rtype, x);
      CoveredCounts(b, name, rtype, x);
    }
    hide Covered;
    var ca, cb := multiset(Covered(a, name, rtype)), multiset(Covered(b, name, rtype));
    assert ca == cb && |ca| == |cb|;
  }

  lemma OfTypeOfPermutation(a: seq<RR>, b: seq<RR>, rtype: u16)
    requires multiset(a) == multiset(b)
    ensures multiset(OfType(a, rtype)) == multiset(OfType(b, rtype))
  {
    forall x: RR ensures multiset(OfType(a, rtype))[x] == multiset(OfType(b, rtype))[x] {
      OfTypeCounts(a, rtype, x);
      OfTypeCounts(b, rtype, x);
    }
  }

  lemma CoveredTiesAgree(rs: seq<RR>, name: Name, rtype: u16)
    requires TiesAgree(rs)
    ensures TiesAgree(Covered(rs, name, rtype))
  {
    CoveredIsOneSet(rs, name, rtype);
    var c := Covered(rs, name, rtype);
    forall i, j | 0 <= i < |c| && 0 <= j < |c| && c[i].rdata == c[j].rdata
      ensures c[i].dclass == c[j].dclass && c[i].rdlength == c[j].rdlength
    {
      assert c[i] in rs && c[j] in rs;
    }
  }

  /** Answers of one class, read whole from a packet, agree where they tie; so do the records any signature covers. */
  lemma {:induction false} AnswersReadWholeAgree(b: Octets, name: Name, rtype: u16)
    requires |b| >= 12 && SkipQuestions(b, 12, U16(b, 4)) <= |b|
    requires RecordsEnd(b, SkipQuestions(b, 12, U16(b, 4)), U16(b, 6)) <= |b|
    requires var rs := RRs(SectionsOf(b).answers);
             forall i, j :: 0 <= i < |rs| && 0 <= j < |rs| ==> rs[i].dclass == rs[j].dclass
    ensures TiesAgree(Covered(RRs(SectionsOf(b).answers), name, rtype))
  {
    hide RecordsFrom, RecordsEnd, SkipQuestions;
    WholeSection(b, SkipQuestions(b, 12, U16(b, 4)), U16(b, 6));
    var records := SectionsOf(b).answers;
    assert forall i :: 0 <= i < |records| ==> IsWhole(records[i]);
    WholeRecordsAgree(RRs(records));
    CoveredTiesAgree(RRs(SectionsOf(b).answers), name, rtype);
  }

  /** The key octets the signature primitive is given; None for an ECDSA key of the wrong length. */
  function KeyFor(algorithm: byte, key: RR): Option<Octets>
    requires |key.rdata| >= 4
  {
    if algorithm == 8 || |key.rdata[4..]| == 64 then Some(key.rdata[4..]) else None
  }

  /** Nothing but the key and the primitive can still refuse the signature: it covers records, is in its validity
      window, its names can be written and its algorithm is supported. */
  predicate Checkable(sig: RR, answers: seq<RR>, now: int)
  {
    match RrsigOf(sig.rdata)
    case None => false
    case Some(s) =>
      && Covered(answers, sig.name, s.typeCovered) != []
      && s.inception as int <= now <= s.expiration as int
      && Canonical(s.signerName) && AllOwnersEncode(Covered(answers, sig.name, s.typeCovered))
      && (s.algorithm == 8 || s.algorithm == 13)
  }

  /** ... and some key in the list reaches the primitive. */
  predicate Decisive(sig: RR, answers: seq<RR>, keys: seq<RR>, now: int)
  {
    && Checkable(sig, answers, now)
    && var s := RrsigOf(sig.rdata).value;
       exists i :: 0 <= i < |keys| && Matches(keys[i], s.keyTag) && KeyFor(s.algorithm, keys[i]).Some?
  }

  /** All keys with the signature's tag give the primitive the same octets. */
  predicate KeysAgree(sig: RR, keys: seq<RR>)
    requires |sig.rdata| >= 18
  {
    var s := RrsigOf(sig.rdata).value;
    forall i, j :: 0 <= i < |keys| && 0 <= j < |keys| && Matches(keys[i], s.keyTag) && Matches(keys[j], s.keyTag) ==>
      KeyFor(s.algorithm, keys[i]) == KeyFor(s.algorithm, keys[j])
  }

  /** The condition: where a signature is decided by the primitive, its keys agree and so do the tied records. */
  predicate Settled(sig: RR, answers: seq<RR>, keys: seq<RR>, now: int)
  {
    Decisive(sig, answers, keys, now) ==>
      && KeysAgree(sig, keys)
      && TiesAgree(Covered(answers, sig.name, RrsigOf(sig.rdata).value.typeCovered))
  }

  lemma {:induction false} FirstKeyMatches(keys: seq<RR>, tag: u16)
    ensures FirstKey(keys, tag).Some? ==> FirstKey(keys, tag).value in keys && Matches(FirstKey(keys, tag).value, tag)
    ensures FirstKey(keys, tag).None? ==> forall k :: k in keys ==> !Matches(k, tag)
  {
    hide Matches;
    if keys != [] {
      FirstKeyMatches(keys[1..], tag);
      assert keys == [keys[0]] + keys[1..];
    }
  }

  /** The verdict on a checkable signature, in terms of the first matching key and the payload. */
  function VerdictBy(s: Rrsig, rrset: seq<RR>, key: Option<RR>, verify: Verifier): Verdict
    requires |s.rawRdata| >= 18 && Canonical(s.signerName) && AllOwnersEncode(rrset)
    requires key.Some? ==> |key.value.rdata| >= 4
  {
    if key.None? then Skipped
    else match KeyFor(s.algorithm, key.value)
      case None => Invalid
      case Some(octets) =>
        if verify(s.algorithm, octets, Payload(s.rawRdata[..18], s.signerName, rrset, s.originalTtl), s.signature)
        then Valid else Invalid
  }

  lemma {:induction false} VerdictOfCheckable(
    sig: RR, answers: seq<RR>, keys: seq<RR>, now: int, verify: Verifier)
    requires Checkable(sig, answers, now)
    ensures var s := RrsigOf(sig.rdata).value;
            var key := FirstKey(keys, s.keyTag);
            && (key.Some? ==> |key.value.rdata| >= 4)
            && VerdictOn(sig, answers, keys, now, verify)
               == VerdictBy(s, Covered(answers, sig.name, s.typeCovered), key, verify)
  {
    hide Canonical, AllOwnersEncode, Payload, Covered, FirstKey, TagOf;
    FirstKeyMatches(keys, RrsigOf(sig.rdata).value.keyTag);
  }

  lemma {:induction false} MatchSurvives(a: seq<RR>, b: seq<RR>, tag: u16)
    requires multiset(a) == multiset(b)
    ensures FirstKey(a, tag).None? <==> FirstKey(b, tag).None?
    ensures FirstKey(a, tag).Some? ==>
              && (exists i :: 0 <= i < |a| && a[i] == FirstKey(a, tag).value && Matches(a[i], tag))
              && (exists i :: 0 <= i < |a| && a[i] == FirstKey(b, tag).value && Matches(a[i], tag))
  {
    hide Matches;
    FirstKeyMatches(a, tag);
    FirstKeyMatches(b, tag);
    assert forall k :: k in a <==> k in multiset(a);
    assert forall k :: k in b <==> k in multiset(b);
    if FirstKey(b, tag).Some? { assert FirstKey(b, tag).value in a; }
  }

  lemma {:induction false} SamePayload(s: Rrsig, rs: seq<RR>, qs: seq<RR>)
    requires |s.rawRdata| >= 18 && Canonical(s.signerName) && AllOwnersEncode(rs) && AllOwnersEncode(qs)
    requires multiset(rs) == multiset(qs) && OneSet(rs) && TiesAgree(rs)
    ensures Payload(s.rawRdata[..18], s.signerName, rs, s.originalTtl)
         == Payload(s.rawRdata[..18], s.signerName, qs, s.originalTtl)
  {
    hide Canonical, Payload, OneSet, TiesAgree, AllOwnersEncode;
    PayloadIgnoresOrder(s.rawRdata[..18], s.signerName, rs, qs, s.originalTtl);
  }

  lemma {:induction false} SameVerdictBy(
    s: Rrsig, rs: seq<RR>, qs: seq<RR>, k: Option<RR>, l: Option<RR>, verify: Verifier)
    requires |s.rawRdata| >= 18 && Canonical(s.signerName) && AllOwnersEncode(rs) && AllOwnersEncode(qs)
    requires multiset(rs) == multiset(qs) && OneSet(rs)
    requires (k.Some? ==> |k.value.rdata| >= 4) && (l.Some? ==> |l.value.rdata| >= 4) && (k.None? <==> l.None?)
    requires k.Some? ==> KeyFor(s.algorithm, k.value) == KeyFor(s.algorithm, l.value)
    requires k.Some? && KeyFor(s.algorithm, k.value).Some? ==> TiesAgree(rs)
    ensures VerdictBy(s, rs, k, verify) == VerdictBy(s, qs, l, verify)
  {
    hide Canonical, Payload, OneSet, TiesAgree, AllOwnersEncode, KeyFor;
    if k.Some? && KeyFor(s.algorithm, k.value).Some? { SamePayload(s, rs, qs); }
  }

  lemma {:induction false} CheckableSurvives(sig: RR, a: seq<RR>, b: seq<RR>, now: int)
    requires multiset(a) == multiset(b)
    ensures Checkable(sig, a, now) <==> Checkable(sig, b, now)
  {
    hide Canonical, AllOwnersEncode, Covered, OneSet, TiesAgree;
    if |sig.rdata| >= 18 {
      var s := RrsigOf(sig.rdata).value;
      CoveredOfPermutation(a, b, sig.name, s.typeCovered);
      var ca, cb := Covered(a, sig.name, s.typeCovered), Covered(b, sig.name, s.typeCovered);
      PermutationKeepsSet(ca, cb);
      PermutationKeepsSet(cb, ca);
    }
  }

  /** A signature that is not checkable gets the same verdict in every order of answers and keys. */
  lemma {:induction false} UncheckableIgnoresOrder(
    sig: RR, a: seq<RR>, b: seq<RR>, keysA: seq<RR>, keysB: seq<RR>, now: int, verify: Verifier)
    requires multiset(a) == multiset(b) && multiset(keysA) == multiset(keysB) && !Checkable(sig, a, now)
    ensures VerdictOn(sig, a, keysA, now, verify) == VerdictOn(sig, b, keysB, now, verify)
  {
    hide Canonical, AllOwnersEncode, Covered, OneSet, TiesAgree, FirstKey, TagOf, Payload;
    CheckableSurvives(sig, a, b, now);
    if |sig.rdata| >= 18 {
      var s := RrsigOf(sig.rdata).value;
      CoveredOfPermutation(a, b, sig.name, s.typeCovered);
      MatchSurvives(keysA, keysB, s.keyTag);
      FirstKeyMatches(keysB, s.keyTag);
      var ca, cb := Covered(a, sig.name, s.typeCovered), Covered(b, sig.name, s.typeCovered);
      PermutationKeepsSet(ca, cb);
      PermutationKeepsSet(cb, ca);
    }
  }

  lemma {:induction false} SettledIgnoresOrder(
    sig: RR, a: seq<RR>, b: seq<RR>, keysA: seq<RR>, keysB: seq<RR>, now: int, verify: Verifier)
    requires multiset(a) == multiset(b) && multiset(keysA) == multiset(keysB) && Settled(sig, a, keysA, now)
    ensures VerdictOn(sig, a, keysA, now, verify) == VerdictOn(sig, b, keysB, now, verify)
  {
    if !Checkable(sig, a, now) {
      UncheckableIgnoresOrder(sig, a, b, keysA, keysB, now, verify);
    } else {
      var s := RrsigOf(sig.rdata).value;
      var rs, qs := Covered(a, sig.name, s.typeCovered), Covered(b, sig.name, s.typeCovered);
      CheckableSurvives(sig, a, b, now);
      VerdictOfCheckable(sig, a, keysA, now, verify);
      VerdictOfCheckable(sig, b, keysB, now, verify);
      CoveredOfPermutation(a, b, sig.name, s.typeCovered);
      CoveredIsOneSet(a, sig.name, s.typeCovered);
      MatchSurvives(keysA, keysB, s.keyTag);
      hide Canonical, AllOwnersEncode, Covered, OneSet, TiesAgree, FirstKey, TagOf, Payload;
      hide VerdictOn, VerdictBy, KeyFor;
      SameVerdictBy(s, rs, qs, FirstKey(keysA, s.keyTag), FirstKey(keysB, s.keyTag), verify);
    }
  }

  /** The verdict does not depend on the order of answers and keys, whatever the primitive accepts. */
  ghost predicate OrderFree(sig: RR, a: seq<RR>, keysA: seq<RR>, now: int)
  {
    forall b: seq<RR>, keysB: seq<RR>, verify: Verifier
      | multiset(b) == multiset(a) && multiset(keysB) == multiset(keysA)
      :: VerdictOn(sig, b, keysB, now, verify) == VerdictOn(sig, a, keysA, now, verify)
  }

  function Front(keys: seq<RR>, i: nat): seq<RR>
    requires i < |keys|
  {
    [keys[i]] + (keys[..i] + keys[i + 1..])
  }

  lemma {:induction false} FrontIsPermutation(keys: seq<RR>, i: nat, tag: u16)
    requires i < |keys| && Matches(keys[i], tag)
    ensures multiset(Front(keys, i)) == multiset(keys) && FirstKey(Front(keys, i), tag) == Some(keys[i])
  {
    hide Matches;
    assert keys == keys[..i] + [keys[i]] + keys[i + 1..];
  }

  lemma {:induction false} DifferingKeysDecide(sig: RR, a: seq<RR>, keys: seq<RR>, now: int, i: nat, j: nat)
    requires Checkable(sig, a, now) && i < |keys| && j < |keys|
    requires var s := RrsigOf(sig.rdata).value;
             && Matches(keys[i], s.keyTag) && Matches(keys[j], s.keyTag)
             && KeyFor(s.algorithm, keys[i]).Some? && KeyFor(s.algorithm, keys[j]) != KeyFor(s.algorithm, keys[i])
    ensures !OrderFree(sig, a, keys, now)
  {
    var s := RrsigOf(sig.rdata).value;
    hide Canonical, AllOwnersEncode, Covered, FirstKey, TagOf, Payload, VerdictOn, Checkable;
    var octets := KeyFor(s.algorithm, keys[i]).value;
    var verify: Verifier :=
      (algorithm: byte, publicKey: Octets, payload: Octets, signature: Octets) => publicKey == octets;
    FrontIsPermutation(keys, i, s.keyTag);
    FrontIsPermutation(keys, j, s.keyTag);
    VerdictOfCheckable(sig, a, Front(keys, i), now, verify);
    VerdictOfCheckable(sig, a, Front(keys, j), now, verify);
    hide Front, Matches;
    assert VerdictOn(sig, a, Front(keys, i), now, verify) == Valid;
    assert VerdictOn(sig, a, Front(keys, j), now, verify) == Invalid;
  }

  function Others(rs: seq<RR>, name: Name, rtype: u16): seq<RR>
  {
    if rs == [] then []
    else (if rs[0].name == name && rs[0].rtype == rtype then [] else [rs[0]]) + Others(rs[1..], name, rtype)
  }

  lemma {:induction false} OthersCount(rs: seq<RR>, name: Name, rtype: u16, x: RR)
    ensures multiset(Others(rs, name, rtype))[x] == if x.name == name && x.rtype == rtype then 0 else multiset(rs)[x]
  {
    if rs != [] {
      OthersCount(rs[1..], name, rtype, x);
      assert rs == [rs[0]] + rs[1..];
    }
  }

  lemma {:induction false} OthersAreNotCovered(rs: seq<RR>, name: Name, rtype: u16)
    ensures Covered(Others(rs, name, rtype), name, rtype) == []
  {
    if rs != [] {
      OthersAreNotCovered(rs[1..], name, rtype);
      var rest := Others(rs[1..], name, rtype);
      assert ([rs[0]] + rest)[1..] == rest && [] + rest == rest;
    }
  }

  lemma {:induction false} CoveredFirst(qs: seq<RR>, rest: seq<RR>, name: Name, rtype: u16)
    requires forall q :: q in qs ==> q.name == name && q.rtype == rtype
    ensures Covered(qs + rest, name, rtype) == qs + Covered(rest, name, rtype)
  {
    if qs == [] {
      assert qs + rest == rest;
    } else {
      assert (qs + rest)[1..] == qs[1..] + rest;
      CoveredFirst(qs[1..], rest, name, rtype);
    }
  }

  /** An order of disagreeing records with another payload. */
  lemma {:induction false} OtherPayload(s: Rrsig, rs: seq<RR>) returns (qs: seq<RR>)
    requires |s.rawRdata| >= 18 && Canonical(s.signerName) && AllOwnersEncode(rs) && OneSet(rs) && !TiesAgree(rs)
    ensures multiset(qs) == multiset(rs) && AllOwnersEncode(qs)
    ensures Payload(s.rawRdata[..18], s.signerName, qs, s.originalTtl)
         != Payload(s.rawRdata[..18], s.signerName, rs, s.originalTtl)
  {
    hide Canonical, AllOwnersEncode, Payload, TiesAgree, OneSet;
    var a, b := Disagreement(s.rawRdata[..18], s.signerName, rs, s.originalTtl);
    qs := if Payload(s.rawRdata[..18], s.signerName, a, s.originalTtl)
             != Payload(s.rawRdata[..18], s.signerName, rs, s.originalTtl) then a else b;
  }

  lemma {:induction false} DifferentPayloadsDecide(
    sig: RR, a: seq<RR>, b: seq<RR>, keys: seq<RR>, now: int)
    requires Checkable(sig, a, now) && Checkable(sig, b, now) && multiset(a) == multiset(b)
    requires var s := RrsigOf(sig.rdata).value;
             && FirstKey(keys, s.keyTag).Some? && |FirstKey(keys, s.keyTag).value.rdata| >= 4
             && KeyFor(s.algorithm, FirstKey(keys, s.keyTag).value).Some?
             && Payload(s.rawRdata[..18], s.signerName, Covered(a, sig.name, s.typeCovered), s.originalTtl)
                != Payload(s.rawRdata[..18], s.signerName, Covered(b, sig.name, s.typeCovered), s.originalTtl)
    ensures !OrderFree(sig, a, keys, now)
  {
    var s := RrsigOf(sig.rdata).value;
    var payload := Payload(s.rawRdata[..18], s.signerName, Covered(a, sig.name, s.typeCovered), s.originalTtl);
    hide Canonical, AllOwnersEncode, Covered, FirstKey, Payload, VerdictOn, Checkable, KeyFor;
    var verify: Verifier :=
      (algorithm: byte, publicKey: Octets, signed: Octets, signature: Octets) => signed == payload;
    VerdictOfCheckable(sig, a, keys, now, verify);
    VerdictOfCheckable(sig, b, keys, now, verify);
    assert VerdictOn(sig, a, keys, now, verify) == Valid;
    assert VerdictOn(sig, b, keys, now, verify) == Invalid;
  }

  lemma {:induction false} DisagreeingTiesDecide(sig: RR, a: seq<RR>, keys: seq<RR>, now: int)
    requires Decisive(sig, a, keys, now) && KeysAgree(sig, keys)
    requires !TiesAgree(Covered(a, sig.name, RrsigOf(sig.rdata).value.typeCovered))
    ensures !OrderFree(sig, a, keys, now)
  {
    var s := RrsigOf(sig.rdata).value;
    var rs := Covered(a, sig.name, s.typeCovered);
    DecidedByFirstKey(sig, a, keys, now);
    CoveredIsOneSet(a, sig.name, s.typeCovered);
    hide Covered, Canonical, AllOwnersEncode, TiesAgree, OneSet, Payload, OrderFree, Others, FirstKey, KeyFor;
    var qs := OtherPayload(s, rs);
    var b := qs + Others(a, sig.name, s.typeCovered);
    CoveredPermuted(a, qs, sig.name, s.typeCovered);
    CheckableSurvives(sig, a, b, now);
    DifferentPayloadsDecide(sig, a, b, keys, now);
  }

  lemma {:induction false} DecidedByFirstKey(sig: RR, a: seq<RR>, keys: seq<RR>, now: int)
    requires Decisive(sig, a, keys, now) && KeysAgree(sig, keys)
    ensures var s := RrsigOf(sig.rdata).value;
            && FirstKey(keys, s.keyTag).Some? && |FirstKey(keys, s.keyTag).value.rdata| >= 4
            && KeyFor(s.algorithm, FirstKey(keys, s.keyTag).value).Some?
  {
    var tag := RrsigOf(sig.rdata).value.keyTag;
    hide Checkable, KeyFor, TagOf, FirstKey;
    FirstKeyMatches(keys, tag);
  }

  lemma {:induction false} CoveredPermuted(a: seq<RR>, qs: seq<RR>, name: Name, rtype: u16)
    requires multiset(qs) == multiset(Covered(a, name, rtype))
    ensures multiset(qs + Others(a, name, rtype)) == multiset(a)
    ensures Covered(qs + Others(a, name, rtype), name, rtype) == qs
  {
    var rest := Others(a, name, rtype);
    forall x: RR ensures multiset(qs + rest)[x] == multiset(a)[x] {
      CoveredCounts(a, name, rtype, x);
      OthersCount(a, name, rtype, x);
      assert multiset(qs + rest)[x] == multiset(qs)[x] + multiset(rest)[x];
    }
    CoveredIsOneSet(a, name, rtype);
    OthersAreNotCovered(a, name, rtype);
    hide Covered, Others;
    forall q | q in qs ensures q.name == name && q.rtype == rtype {
      assert q in multiset(qs);
    }
    CoveredFirst(qs, rest, name, rtype);
    assert qs + [] == qs;
  }

  /** The verdict on a signature is the same for every order of the answers and of the keys, whatever the primitive
      accepts, if and only if the signature is settled: when the primitive decides, all keys with its tag give the
      primitive the same octets, and covered records with equal rdata agree on class and length. */
  lemma {:induction false} OrderFreeExactly(sig: RR, a: seq<RR>, keys: seq<RR>, now: int)
    ensures OrderFree(sig, a, keys, now) <==> Settled(sig, a, keys, now)
  {
    assert !Settled(sig, a, keys, now) ==> |sig.rdata| >= 18;
    hide Checkable, Covered, VerdictOn, KeyFor, TagOf, TiesAgree, KeysAgree;
    if Settled(sig, a, keys, now) {
      forall b: seq<RR>, keysB: seq<RR>, verify: Verifier
        | multiset(b) == multiset(a) && multiset(keysB) == multiset(keys)
        ensures VerdictOn(sig, b, keysB, now, verify) == VerdictOn(sig, a, keys, now, verify)
      {
        SettledIgnoresOrder(sig, a, b, keys, keysB, now, verify);
      }
    } else if KeysAgree(sig, keys) {
      DisagreeingTiesDecide(sig, a, keys, now);
    } else {
      KeysDisagree(sig, a, keys, now);
    }
  }

  lemma {:induction false} KeysDisagree(sig: RR, a: seq<RR>, keys: seq<RR>, now: int)
    requires Decisive(sig, a, keys, now) && !KeysAgree(sig, keys)
    ensures !OrderFree(sig, a, keys, now)
  {
    var s := RrsigOf(sig.rdata).value;
    hide Checkable, OrderFree, KeyFor, TagOf;
    var i, j :| 0 <= i < |keys| && 0 <= j < |keys| && Matches(keys[i], s.keyTag) && Matches(keys[j], s.keyTag)
                && KeyFor(s.algorithm, keys[i]) != KeyFor(s.algorithm, keys[j]);
    if KeyFor(s.algorithm, keys[i]).Some? {
      DifferingKeysDecide(sig, a, keys, now, i, j);
    } else {
      DifferingKeysDecide(sig, a, keys, now, j, i);
    }
  }
}
