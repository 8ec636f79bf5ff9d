/** What a reader gets back from a response packet. */
module ResponseReading {
  import opened Bytes
  import opened Text
  import opened WireFormat
  import opened Questions
  import opened Responses

  datatype ResourceRecord = ResourceRecord(owner: Name, qtype: u16, qclass: u16, ttl: u32, rdata: Octets)

  /** The record at `pos` and the offset after it (section 4.1.3 of RFC 1035). */
  function RecordAt(b: Octets, pos: nat): Option<(ResourceRecord, nat)>
  {
    var e := NameEnd(b, pos);
    if e + 10 > |b| || e + 10 + U16(b, e + 8) > |b| then None
    else
      var end := e + 10 + U16(b, e + 8);
      Some((ResourceRecord(NameAt(b, pos), U16(b, e), U16(b, e + 2), U32(b, e + 4), b[e + 10..end]), end))
  }

  function RecordsFrom(b: Octets, pos: nat, n: nat): seq<ResourceRecord>
    decreases n
  {
    if n == 0 then []
    else match RecordAt(b, pos)
      case None => []
      case Some((r, end)) => [r] + RecordsFrom(b, end, n - 1)
  }

  function AsRecord(owner: Name, e: Octets): ResourceRecord
    requires |e| >= 10
  {
    ResourceRecord(owner, U16(e, 0), U16(e, 2), U32(e, 4), e[10..])
  }

  function AsRecords(owner: Name, es: seq<Octets>): seq<ResourceRecord>
    requires forall i :: 0 <= i < |es| ==> |es[i]| >= 10
  {
    if es == [] then [] else [AsRecord(owner, es[0])] + AsRecords(owner, es[1..])
  }

  lemma U16At(b: Octets, pos: nat, x: Octets, i: nat)
    requires At(b, pos, x) && i + 2 <= |x|
    ensures U16(b, pos + i) == U16(x, i)
  {
    AtIndex(b, pos, x, i);
    AtIndex(b, pos, x, i + 1);
  }

  /** The builder's owner name: a pointer to offset 12. */
  lemma OwnerPointer(b: Octets, pos: nat, labels: seq<Name>)
    requires At(b, pos, [0xc0, 0x0c])
    requires WireLabels(labels) && At(b, 12, EncodeLabels(labels))
    ensures NameEnd(b, pos) == pos + 2 && NameAt(b, pos) == Join(labels)
  {
    AtIndex(b, pos, [0xc0, 0x0c], 0);
    AtIndex(b, pos, [0xc0, 0x0c], 1);
    assert StepAt(b, pos) == Jump(12);
    UncompressedReadsBack(b, 12, labels, 1);
    assert LabelsAt(b, pos, 0) == LabelsAt(b, 12, 1);
  }

  lemma AnswerReadsBack(b: Octets, pos: nat, e: Octets, labels: seq<Name>)
    requires IsEntry(e) && At(b, pos, [0xc0, 0x0c] + e)
    requires WireLabels(labels) && At(b, 12, EncodeLabels(labels))
    ensures RecordAt(b, pos) == Some((AsRecord(Join(labels), e), pos + 2 + |e|))
  {
    hide NameEnd, NameAt, Join, U16, EncodeLabels, WireLabels;
    AtAppend(b, pos, [0xc0, 0x0c], e);
    OwnerPointer(b, pos, labels);
    U16At(b, pos + 2, e, 0);
    U16At(b, pos + 2, e, 2);
    U16At(b, pos + 2, e, 4);
    U16At(b, pos + 2, e, 6);
    U16At(b, pos + 2, e, 8);
    assert b[pos + 12..pos + 2 + |e|] == e[10..];
  }

  /** Every answer reads back field by field; its owner is the first question's name, whichever question it answers. */
  lemma {:induction false} AnswersReadBack(b: Octets, pos: nat, es: seq<Octets>, labels: seq<Name>)
    requires AllEntries(es) && At(b, pos, AnswersOctets(es))
    requires WireLabels(labels) && At(b, 12, EncodeLabels(labels))
    ensures RecordsFrom(b, pos, |es|) == AsRecords(Join(labels), es)
    decreases |es|
  {
    hide At, RecordAt, Join, AsRecord, IsEntry, EncodeLabels, WireLabels;
    if es != [] {
      assert IsEntry(es[0]);
      AtAppend(b, pos, [0xc0, 0x0c] + es[0], AnswersOctets(es[1..]));
      AnswerReadsBack(b, pos, es[0], labels);
      AnswersReadBack(b, pos + 2 + |es[0]|, es[1..], labels);
    }
  }

  // ---------------------------------------------------------------- the question section of a response

  /** Names whose pieces fit the wire, as every name the reader returns does. */
  predicate Writable(qs: seq<Question>)
  {
    forall i :: 0 <= i < |qs| ==> LabelsFit(Split(Lower(qs[i].name)), 63)
  }

  lemma WritableIsEncodable(qs: seq<Question>)
    requires Writable(qs)
    ensures AllEncodable(qs)
    ensures forall i :: 0 <= i < |qs| ==> WireLabels(Written(qs[i].name))
  {
    forall i | 0 <= i < |qs| ensures Encodable(qs[i].name) && WireLabels(Written(qs[i].name)) {
      assert LabelsFit(Split(Lower(qs[i].name)), 63);
    }
  }

  function Rewritten(qs: seq<Question>): (r: seq<WireQuestion>)
    ensures |r| == |qs|
    ensures forall i :: 0 <= i < |r| ==> r[i] == WireQuestion(Written(qs[i].name), qs[i].qtype, CLASS_IN)
  {
    seq(|qs|, i requires 0 <= i < |qs| => WireQuestion(Written(qs[i].name), qs[i].qtype, CLASS_IN))
  }

  lemma {:induction false} QuestionsOctetsAreSection(qs: seq<Question>)
    requires Writable(qs)
    ensures AllEncodable(qs) && AllLegal(Rewritten(qs))
    ensures QuestionsOctets(qs) == Section(Rewritten(qs))
  {
    WritableIsEncodable(qs);
    assert AllLegal(Rewritten(qs)) by {
      forall i | 0 <= i < |qs| ensures Legal(Rewritten(qs)[i]) {
        assert WireLabels(Written(qs[i].name));
      }
    }
    if qs != [] {
      QuestionsOctetsAreSection(qs[1..]);
      assert Rewritten(qs)[1..] == Rewritten(qs[1..]);
    }
  }

  lemma HeaderReadsBack(id: u16, flags: u16, qdcount: u16, ancount: u16)
    ensures var h := Header(id, flags, qdcount, ancount);
            && U16(h, 0) == id && U16(h, 2) == flags && U16(h, 4) == qdcount && U16(h, 6) == ancount
            && U16(h, 8) == 0 && U16(h, 10) == 0
  {
    hide Be16, U16;
    var h := Header(id, flags, qdcount, ancount);
    assert h[0..2] == Be16(id) && h[2..4] == Be16(flags) && h[4..6] == Be16(qdcount) && h[6..8] == Be16(ancount);
    assert h[8..10] == Be16(0) && h[10..12] == Be16(0);
    ReadBe16(h, 0, id);
    ReadBe16(h, 2, flags);
    ReadBe16(h, 4, qdcount);
    ReadBe16(h, 6, ancount);
    ReadBe16(h, 8, 0);
    ReadBe16(h, 10, 0);
  }

  /** The six fields of the header: id, flags, two counts, and no authority or additional records; then the sections. */
  lemma PacketLayout(id: u16, flags: u16, qs: seq<Question>, es: seq<Octets>)
    requires AllEncodable(qs) && |qs| < 0x1_0000 && |es| < 0x1_0000
    ensures var b := Packet(id, flags, qs, es);
            && U16(b, 0) == id && U16(b, 2) == flags && U16(b, 4) == |qs| && U16(b, 6) == |es|
            && U16(b, 8) == 0 && U16(b, 10) == 0
            && At(b, 12, QuestionsOctets(qs))
            && At(b, 12 + |QuestionsOctets(qs)|, AnswersOctets(es))
            && |b| == 12 + |QuestionsOctets(qs)| + |AnswersOctets(es)|
  {
    hide QuestionsOctets, AnswersOctets, AllEncodable, Header, U16;
    var b, h := Packet(id, flags, qs, es), Header(id, flags, |qs|, |es|);
    assert b[0..12] == h;
    HeaderReadsBack(id, flags, |qs|, |es|);
    U16At(b, 0, h, 0);
    U16At(b, 0, h, 2);
    U16At(b, 0, h, 4);
    U16At(b, 0, h, 6);
    U16At(b, 0, h, 8);
    U16At(b, 0, h, 10);
  }

  /** Any buffer laid out as a response reads back: its questions in lower case and exactly its answers. */
  lemma {:induction false} LayoutReadsBack(b: Octets, qs: seq<Question>, es: seq<Octets>)
    requires Writable(qs) && AllEncodable(qs) && qs != [] && AllEntries(es)
    requires At(b, 12, QuestionsOctets(qs)) && At(b, 12 + |QuestionsOctets(qs)|, AnswersOctets(es))
    ensures AllLegal(Rewritten(qs))
    ensures QuestionsFrom(b, 12, |qs|) == ReadBack(Rewritten(qs), 12)
    ensures RecordsFrom(b, 12 + |QuestionsOctets(qs)|, |es|) == AsRecords(Join(Written(qs[0].name)), es)
    ensures SkipQuestions(b, 12, |qs|) == 12 + |QuestionsOctets(qs)|
    ensures IpsFrom(b, 12 + |QuestionsOctets(qs)|, |es|) == Addresses(es)
  {
    hide *;
    QuestionsOctetsAreSection(qs);
    FirstNameStands(b, qs);
    SectionReadsBack(b, 12, Rewritten(qs));
    SectionIsSkipped(b, 12, Rewritten(qs));
    AnswersReadBack(b, 12 + |QuestionsOctets(qs)|, es, Written(qs[0].name));
    AnswerIps(b, 12 + |QuestionsOctets(qs)|, es, Written(qs[0].name));
  }

  lemma FirstNameStands(b: Octets, qs: seq<Question>)
    requires Writable(qs) && AllEncodable(qs) && qs != [] && At(b, 12, QuestionsOctets(qs))
    ensures WireLabels(Written(qs[0].name)) && At(b, 12, EncodeLabels(Written(qs[0].name)))
  {
    WritableIsEncodable(qs);
    var q := qs[0];
    hide At, Writable, AllEncodable;
    AtAppend(b, 12, QuestionOctets(q), QuestionsOctets(qs[1..]));
    AtAppend(b, 12, EncodeName(q.name) + Be16(q.qtype), Be16(CLASS_IN));
    AtAppend(b, 12, EncodeName(q.name), Be16(q.qtype));
  }

  // ---------------------------------------------------------------- parseResolvedIpv4s

  /** An octet the handler prints, absent when it lies past the end of the message. */
  function OctetAt(b: Octets, i: nat): Option<byte>
  {
    if i < |b| then Some(b[i]) else None
  }

  type Ip = seq<Option<byte>>

  function IpAt(b: Octets, i: nat): (r: Ip)
    ensures |r| == 4
  {
    [OctetAt(b, i), OctetAt(b, i + 1), OctetAt(b, i + 2), OctetAt(b, i + 3)]
  }

  /** readUint16 as a function: past the end it yields 0 and moves to the end. */
  function Read16(b: Octets, i: nat): (u16, nat)
  {
    if i + 2 <= |b| then (U16(b, i), i + 2) else (0, |b|)
  }

  /** The address of one record, if it is an A record of four octets, and the offset after the record. */
  function IpStep(b: Octets, pos: nat): (seq<Ip>, nat)
  {
    var (qtype, p) := Read16(b, NameEnd(b, pos));
    var (len, q) := Read16(b, p + 6);
    (if qtype == 1 && len == 4 then [IpAt(b, q)] else [], q + len)
  }

  function IpsFrom(b: Octets, pos: nat, n: nat): seq<Ip>
    decreases n
  {
    if n == 0 then [] else var (ip, next) := IpStep(b, pos); ip + IpsFrom(b, next, n - 1)
  }

  function IpsOf(b: Octets): seq<Ip>
    requires |b| >= 12
  {
    IpsFrom(b, SkipQuestions(b, 12, U16(b, 4)), U16(b, 6))
  }

  method ReadIp(f: DnsWireFormat) returns (ip: seq<Ip>)
    modifies f`offset
    ensures (ip, f.offset) == IpStep(f.buf[..], old(f.offset))
  {
    hide U16, NameEnd, NameAt;
    var _ := f.ReadDomainName();
    var qtype := f.ReadUint16();
    f.offset := f.offset + 6;
    var len := f.ReadUint16();
    ip := [];
    if qtype == 1 && len == 4 {
      ip := [IpAt(f.buf[..], f.offset)];
    }
    f.offset := f.offset + len;
  }

  method ParseResolvedIpv4s(resp: array<byte>) returns (ips: seq<Ip>)
    requires resp.Length >= 12
    ensures ips == IpsOf(resp[..])
  {
    hide U16, NameEnd, NameAt, IpStep;
    var f: DnsWireFormat := new DnsWireFormat.Over(resp, 4);
    var qd := f.ReadUint16();
    var an := f.ReadUint16();
    f.offset := f.offset + 4;
    ghost var b := resp[..];
    var i := 0;
    while i < qd
      modifies f`offset
      invariant 0 <= i <= qd
      invariant SkipQuestions(b, f.offset, qd - i) == SkipQuestions(b, 12, qd)
    {
      var _ := f.ReadDomainName();
      f.offset := f.offset + 4;
      i := i + 1;
    }
    ghost var all := IpsFrom(b, f.offset, an);
    ips := [];
    i := 0;
    while i < an
      modifies f`offset
      invariant 0 <= i <= an
      invariant ips + IpsFrom(b, f.offset, an - i) == all
    {
      var ip := ReadIp(f);
      ips := ips + ip;
      i := i + 1;
    }
  }

  /** The address of an A entry of four octets. */
  function AddressOf(e: Octets): seq<Ip>
    requires IsEntry(e)
  {
    if U16(e, 0) == 1 && |e| == 14 then [IpAt(e, 10)] else []
  }

  /** The addresses of the A entries, in order. */
  function Addresses(es: seq<Octets>): seq<Ip>
    requires AllEntries(es)
  {
    if es == [] then []
    else AddressOf(es[0]) + Addresses(es[1..])
  }

  lemma AnswerIp(b: Octets, pos: nat, e: Octets, labels: seq<Name>)
    requires IsEntry(e) && At(b, pos, [0xc0, 0x0c] + e)
    requires WireLabels(labels) && At(b, 12, EncodeLabels(labels))
    ensures NameEnd(b, pos) == pos + 2
    ensures IpStep(b, pos) == (AddressOf(e), pos + 2 + |e|)
  {
    hide NameEnd, NameAt, Join, U16, EncodeLabels, WireLabels;
    AtAppend(b, pos, [0xc0, 0x0c], e);
    OwnerPointer(b, pos, labels);
    U16At(b, pos + 2, e, 0);
    U16At(b, pos + 2, e, 8);
    if |e| == 14 {
      AtIndex(b, pos + 2, e, 10);
      AtIndex(b, pos + 2, e, 11);
      AtIndex(b, pos + 2, e, 12);
      AtIndex(b, pos + 2, e, 13);
    }
  }

  lemma {:induction false} AnswerIps(b: Octets, pos: nat, es: seq<Octets>, labels: seq<Name>)
    requires AllEntries(es) && At(b, pos, AnswersOctets(es))
    requires WireLabels(labels) && At(b, 12, EncodeLabels(labels))
    ensures IpsFrom(b, pos, |es|) == Addresses(es)
    decreases |es|
  {
    hide At, AddressOf, IpAt, IpStep, EncodeLabels, WireLabels, IsEntry, U16;
    if es != [] {
      assert IsEntry(es[0]) && AllEntries(es[1..]);
      assert AnswersOctets(es) == [0xc0, 0x0c] + es[0] + AnswersOctets(es[1..]);
      hide AnswersOctets, AllEntries;
      AtAppend(b, pos, [0xc0, 0x0c] + es[0], AnswersOctets(es[1..]));
      AnswerIp(b, pos, es[0], labels);
      AnswerIps(b, pos + 2 + |es[0]|, es[1..], labels);
    }
  }
}
