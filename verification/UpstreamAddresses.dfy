/** The addresses the handler checks in the messages of other servers. */
module UpstreamAddresses {
  import opened Bytes
  import opened Text
  import opened WireFormat
  import opened Questions
  import opened ResponseReading
  import opened DnssecMessage

  /** The four octets of an A record, whatever its owner and class. */
  function AddressIn(w: WireRecord): seq<Ip>
  {
    if w.rtype == 1 && |w.rdata| == 4
    then [[Some(w.rdata[0]), Some(w.rdata[1]), Some(w.rdata[2]), Some(w.rdata[3])]]
    else []
  }

  function AddressesIn(ws: seq<WireRecord>): seq<Ip>
  {
    if ws == [] then [] else AddressIn(ws[0]) + AddressesIn(ws[1..])
  }

  lemma StepFrom(b: Octets, pos: nat, end: nat)
    requires NameEnd(b, pos) == end && end + 10 <= |b|
    ensures IpStep(b, pos) == (if U16(b, end) == 1 && U16(b, end + 8) == 4 then [IpAt(b, end + 10)] else [],
                               end + 10 + U16(b, end + 8))
  {
    hide NameEnd, U16;
  }

  lemma RecordAddress(b: Octets, pos: nat, w: WireRecord, ptrs: nat)
    requires LaidAt(b, pos, w, ptrs)
    ensures IpStep(b, pos) == (AddressIn(w), LaidEnd(b, pos, w, ptrs))
  {
    CursorAfterCompressedName(b, pos, w.labels, ptrs);
    var end := InPlaceEnd(b, pos, w.labels, ptrs);
    FixedReadsBack(b, end, w);
    StepFrom(b, pos, end);
    hide At, Fixed, Encodes, InPlaceEnd, NameEnd, U16, U32, IpStep;
    var rdata := b[end + 10..end + 10 + |w.rdata|];
    assert forall i :: 0 <= i < |w.rdata| ==> b[end + 10 + i] == rdata[i] == w.rdata[i];
  }

  /** An address the packet cuts off is kept, without the octets that are missing. */
  lemma {:induction false} CutAddress(b: Octets, pos: nat, labels: seq<Name>, ptrs: nat)
    requires Encodes(b, pos, labels, ptrs)
    requires var at := InPlaceEnd(b, pos, labels, ptrs);
             at + 10 <= |b| < at + 14 && At(b, at, [0, 1]) && At(b, at + 8, [0, 4])
    ensures var at, ips := InPlaceEnd(b, pos, labels, ptrs), IpsFrom(b, pos, 1);
            && |ips| == 1 && |ips[0]| == 4
            && forall i :: 0 <= i < 4 ==> ips[0][i] == if at + 10 + i < |b| then Some(b[at + 10 + i]) else None
  {
    CursorAfterCompressedName(b, pos, labels, ptrs);
    var at := InPlaceEnd(b, pos, labels, ptrs);
    StepFrom(b, pos, at);
    hide Encodes, InPlaceEnd, NameEnd, IpStep;
    AtIndex(b, at, [0, 1], 0);
    AtIndex(b, at, [0, 1], 1);
    AtIndex(b, at + 8, [0, 4], 0);
    AtIndex(b, at + 8, [0, 4], 1);
    assert [IpAt(b, at + 10)] + IpsFrom(b, IpStep(b, pos).1, 0) == [IpAt(b, at + 10)];
  }

  lemma {:induction false} AnswerAddresses(b: Octets, pos: nat, ws: seq<WireRecord>, ptrs: seq<nat>)
    requires Laid(b, pos, ws, ptrs)
    ensures IpsFrom(b, pos, |ws|) == AddressesIn(ws)
    decreases |ws|
  {
    hide LaidAt, LaidEnd, IpStep, AddressIn;
    if ws != [] {
      RecordAddress(b, pos, ws[0], ptrs[0]);
      AnswerAddresses(b, LaidEnd(b, pos, ws[0], ptrs[0]), ws[1..], ptrs[1..]);
    }
  }

  /** Behind any question section, with owners in full or compressed and records of any types in any order, extraction
      finds exactly the addresses of the A records of four octets, in order. */
  lemma {:induction false} AddressesAreFound(b: Octets, qs: seq<WireQuestion>, ws: seq<WireRecord>, ptrs: seq<nat>)
    requires |b| >= 12 && AllLegal(qs) && U16(b, 4) == |qs| && At(b, 12, Section(qs))
    requires U16(b, 6) == |ws| && Laid(b, 12 + |Section(qs)|, ws, ptrs)
    ensures IpsOf(b) == AddressesIn(ws)
  {
    hide At, Section, Laid, AllLegal, U16, SkipQuestions, IpsFrom, AddressesIn;
    SectionIsSkipped(b, 12, qs);
    AnswerAddresses(b, 12 + |Section(qs)|, ws, ptrs);
  }
}
