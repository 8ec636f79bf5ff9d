/** Building response packets, and what a reader gets back from them. */
module Responses {
  import opened Bytes
  import opened Text
  import opened WireFormat
  import opened Questions

  const NOERROR: u16 := 0
  const NXDOMAIN: u16 := 3
  const REFUSED: u16 := 5

  // ---------------------------------------------------------------- header flags

  /** (flags & ~QR) | QR | AA | rcode, on sixteen bits. */
  function FlagBits(flags: bv16, rcode: bv16): bv16
  {
    (flags & 0x7fff) | 0x8000 | 0x0400 | rcode
  }

  function ResponseFlags(flags: u16, rcode: u16): u16
  {
    FlagBits(flags as bv16, rcode as bv16) as int
  }

  /** The low four bits of the query's flags lie within the code. */
  predicate LowBitsWithin(flags: bv16, code: bv16)
  {
    flags & 0xf & !code == 0
  }

  /** What a reader finds in the flags of a response: QR and AA are set and the other bits above the code are the
      query's. The low four bits are or-ed, not replaced: they equal the intended code exactly when the query's own low
      bits lie within it. */
  predicate BitsMean(flags: bv16, reply: bv16, code: bv16)
  {
    && reply & 0x8400 == 0x8400
    && reply & 0x7bf0 == flags & 0x7bf0
    && (reply & 0xf == code <==> LowBitsWithin(flags, code))
  }

  lemma FlagBitsMeaning(flags: bv16, rcode: bv16)
    requires rcode < 16
    ensures var r := FlagBits(flags, rcode);
            && r & 0x8400 == 0x8400
            && r & 0x7bf0 == flags & 0x7bf0
            && (r & 0xf == rcode <==> flags & 0xf & !rcode == 0)
  {
  }

  predicate FlagsMean(flags: u16, reply: u16, code: u16)
  {
    BitsMean(flags as bv16, reply as bv16, code as bv16)
  }

  lemma ResponseFlagsMean(flags: u16, code: u16)
    requires code in {NOERROR, NXDOMAIN, REFUSED}
    ensures FlagsMean(flags, ResponseFlags(flags, code), code)
  {
    assert code as bv16 < 16;
    FlagBitsMeaning(flags as bv16, code as bv16);
    FlagBitsBack(flags as bv16, code as bv16);
    hide FlagBits;
  }

  lemma FlagBitsBack(flags: bv16, rcode: bv16)
    ensures (FlagBits(flags, rcode) as int) as bv16 == FlagBits(flags, rcode)
  {
    hide FlagBits;
  }

  // ---------------------------------------------------------------- layout

  function Header(id: u16, flags: u16, qdcount: u16, ancount: u16): (h: Octets)
    ensures |h| == 12
  {
    Be16(id) + Be16(flags) + Be16(qdcount) + Be16(ancount) + Be16(0) + Be16(0)
  }

  predicate AllEncodable(qs: seq<Question>)
  {
    forall i :: 0 <= i < |qs| ==> Encodable(qs[i].name)
  }

  function QuestionOctets(q: Question): (r: Octets)
    requires Encodable(q.name)
    ensures |r| >= 5
  {
    EncodeName(q.name) + Be16(q.qtype) + Be16(CLASS_IN)
  }

  function QuestionsOctets(qs: seq<Question>): (r: Octets)
    requires AllEncodable(qs)
    ensures qs != [] ==> |r| >= 5
  {
    if qs == [] then [] else QuestionOctets(qs[0]) + QuestionsOctets(qs[1..])
  }

  /** An answer entry whose rdlength field tells its size. */
  predicate IsEntry(e: Octets)
  {
    |e| >= 10 && 10 + U16(e, 8) == |e|
  }

  predicate AllEntries(es: seq<Octets>)
  {
    forall i :: 0 <= i < |es| ==> IsEntry(es[i])
  }

  /** Entries under twelve octets, that is with rdata under two, are skipped by the builder. */
  function Kept(es: seq<Octets>): (r: seq<Octets>)
    ensures AllEntries(es) ==> AllEntries(r)
    ensures forall i :: 0 <= i < |r| ==> |r[i]| >= 12
  {
    if es == [] then []
    else if |es[0]| < 12 then Kept(es[1..])
    else [es[0]] + Kept(es[1..])
  }

  /** Every answer is a pointer to offset 12 followed by its entry. */
  function AnswersOctets(es: seq<Octets>): (r: Octets)
  {
    if es == [] then [] else [0xc0, 0x0c] + es[0] + AnswersOctets(es[1..])
  }

  /** The builder throws unless the twelve fixed octets of every answer fit; rdata may run over the end. */
  predicate AnswersFit(pos: nat, es: seq<Octets>)
    decreases |es|
  {
    es == [] || (pos + 12 <= PACKET_SIZE && AnswersFit(pos + 2 + |es[0]|, es[1..]))
  }

  lemma {:induction false} AnswersFitBound(pos: nat, es: seq<Octets>)
    requires AnswersFit(pos, es) && forall i :: 0 <= i < |es| ==> |es[i]| >= 12
    ensures es != [] ==> pos + 14 * |es| <= PACKET_SIZE + 2
    decreases |es|
  {
    if es != [] {
      AnswersFitBound(pos + 2 + |es[0]|, es[1..]);
    }
  }

  /** The whole response before the buffer cuts it; `es` are the answers kept. */
  function Packet(id: u16, flags: u16, qs: seq<Question>, es: seq<Octets>): (r: Octets)
    requires AllEncodable(qs) && |qs| < 0x1_0000 && |es| < 0x1_0000
    ensures |r| >= 12
  {
    Header(id, flags, |qs|, |es|) + QuestionsOctets(qs) + AnswersOctets(es)
  }

  predicate Builds(qs: seq<Question>, es: seq<Octets>)
  {
    && AllEncodable(qs)
    && 12 + |QuestionsOctets(qs)| <= PACKET_SIZE
    && AnswersFit(12 + |QuestionsOctets(qs)|, es)
  }

  /** The builder's result: None when it throws, else the packet cut at the buffer's end. */
  function Assemble(id: u16, flags: u16, rcode: u16, qs: seq<Question>, es: seq<Octets>): Option<Octets>
    requires |qs| < 0x1_0000
  {
    if !Builds(qs, Kept(es)) then None
    else
      AnswersFitBound(12 + |QuestionsOctets(qs)|, Kept(es));
      Some(Clip(Packet(id, ResponseFlags(flags, rcode), qs, Kept(es)), PACKET_SIZE))
  }

  /** The rdata of the last answer, the only part of a packet that may run over. */
  function LastRdata(es: seq<Octets>): nat
    requires forall i :: 0 <= i < |es| ==> |es[i]| >= 12
  {
    if es == [] then 0 else |es[|es| - 1]| - 10
  }

  lemma {:induction false} AnswersFitExactly(pos: nat, es: seq<Octets>)
    requires forall i :: 0 <= i < |es| ==> |es[i]| >= 12
    ensures LastRdata(es) <= |AnswersOctets(es)|
    ensures AnswersFit(pos, es) <==> es == [] || pos + |AnswersOctets(es)| - LastRdata(es) <= PACKET_SIZE
    decreases |es|
  {
    if es != [] {
      var rest := es[1..];
      AnswersFitExactly(pos + 2 + |es[0]|, rest);
      assert |AnswersOctets(es)| == 2 + |es[0]| + |AnswersOctets(rest)|;
      assert rest != [] ==> es[|es| - 1] == rest[|rest| - 1] && |AnswersOctets(rest)| - LastRdata(rest) >= 0;
    }
  }

  /** The size of the whole response, were there room for it. */
  function WholeSize(qs: seq<Question>, es: seq<Octets>): nat
    requires AllEncodable(qs)
  {
    12 + |QuestionsOctets(qs)| + |AnswersOctets(es)|
  }

  /** The builder throws exactly when something other than the last answer's rdata does not fit; else it returns the
      packet, intact when it fits and cut at the end of the buffer when the last rdata runs over. */
  lemma {:induction false} AssembleExact(id: u16, flags: u16, rcode: u16, qs: seq<Question>, es: seq<Octets>)
    requires |qs| < 0x1_0000
    ensures var r := Assemble(id, flags, rcode, qs, es);
            && (r.Some? <==> AllEncodable(qs) && WholeSize(qs, Kept(es)) - LastRdata(Kept(es)) <= PACKET_SIZE)
            && (r.Some? ==>
                  && |Kept(es)| < 0x1_0000
                  && var whole := Packet(id, ResponseFlags(flags, rcode), qs, Kept(es));
                     && |whole| == WholeSize(qs, Kept(es))
                     && r.value == whole[..if |whole| <= PACKET_SIZE then |whole| else PACKET_SIZE])
  {
    hide Header, ResponseFlags, QuestionsOctets, AllEncodable, AnswersFit, AnswersOctets;
    if AllEncodable(qs) {
      var pos := 12 + |QuestionsOctets(qs)|;
      AnswersFitExactly(pos, Kept(es));
      if AnswersFit(pos, Kept(es)) { AnswersFitBound(pos, Kept(es)); }
      LastIsPartOfAll(Kept(es));
    }
  }

  /** Octets 0 to 3 of what the builder returns: the id, and the flags as combined. */
  lemma AssembleHeader(id: u16, flags: u16, rcode: u16, qs: seq<Question>, es: seq<Octets>)
    requires |qs| < 0x1_0000
    ensures var r := Assemble(id, flags, rcode, qs, es);
            r.Some? ==> |r.value| >= 12 && U16(r.value, 0) == id && U16(r.value, 2) == ResponseFlags(flags, rcode)
  {
    hide ResponseFlags, QuestionsOctets, AllEncodable, Kept, AnswersFit, AnswersOctets, U16, Be16;
    if Builds(qs, Kept(es)) {
      AnswersFitBound(12 + |QuestionsOctets(qs)|, Kept(es));
      var combined := ResponseFlags(flags, rcode);
      var packet := Packet(id, combined, qs, Kept(es));
      var r := Clip(packet, PACKET_SIZE);
      assert r[..12] == Header(id, combined, |qs|, |Kept(es)|);
      assert At(r, 0, Be16(id)) && At(r, 2, Be16(combined));
      ReadBe16(r, 0, id);
      ReadBe16(r, 2, combined);
    }
  }

  lemma LastIsPartOfAll(es: seq<Octets>)
    requires forall i :: 0 <= i < |es| ==> |es[i]| >= 12
    ensures es != [] ==> LastRdata(es) + 12 <= |AnswersOctets(es)|
    ensures es == [] ==> AnswersOctets(es) == []
  {
    if es != [] { LastOctets(es); }
  }

  lemma {:induction false} LastOctets(es: seq<Octets>)
    requires es != []
    ensures 2 + |es[|es| - 1]| <= |AnswersOctets(es)|
  {
    if |es| > 1 {
      LastOctets(es[1..]);
      assert es[|es| - 1] == es[1..][|es| - 2];
    }
  }

  // ---------------------------------------------------------------- the builder

  method WriteQuestions(encoder: DnsWireFormat, qs: seq<Question>) returns (ok: bool)
    requires encoder.Writing() && encoder.offset == |encoder.stream| && encoder.offset <= encoder.buf.Length
    modifies encoder`offset, encoder`stream, encoder.buf
    ensures encoder.Writing() && encoder.offset == |encoder.stream|
    ensures ok <==> AllEncodable(qs) && old(encoder.offset) + |QuestionsOctets(qs)| <= encoder.buf.Length
    ensures ok ==> encoder.stream == old(encoder.stream) + QuestionsOctets(qs)
  {
    hide Encodable, EncodeName;
    var i := 0;
    assert qs[0..] == qs;
    while i < |qs|
      modifies encoder`offset, encoder`stream, encoder.buf
      invariant 0 <= i <= |qs|
      invariant encoder.Writing() && encoder.offset <= encoder.buf.Length
      invariant forall j :: 0 <= j < i ==> Encodable(qs[j].name)
      invariant AllEncodable(qs) ==>
                  encoder.stream + QuestionsOctets(qs[i..]) == old(encoder.stream) + QuestionsOctets(qs)
    {
      ghost var was := encoder.stream;
      assert AllEncodable(qs) ==> Encodable(qs[i].name);
      assert qs[i..][1..] == qs[i + 1..];
      assert AllEncodable(qs) ==> QuestionsOctets(qs[i..]) == QuestionOctets(qs[i]) + QuestionsOctets(qs[i + 1..]);
      ok := WriteQuestion(encoder, qs[i]);
      if !ok { return; }
      assert AllEncodable(qs) ==> encoder.stream + QuestionsOctets(qs[i + 1..]) == was + QuestionsOctets(qs[i..]);
      i := i + 1;
    }
    assert qs[i..] == [];
    ok := true;
  }

  method WriteQuestion(encoder: DnsWireFormat, q: Question) returns (ok: bool)
    requires encoder.Writing()
    modifies encoder`offset, encoder`stream, encoder.buf
    ensures encoder.Writing() && encoder.offset == |encoder.stream|
    ensures ok <==> Encodable(q.name) && old(encoder.offset) + |QuestionOctets(q)| <= encoder.buf.Length
    ensures ok ==> encoder.stream == old(encoder.stream) + QuestionOctets(q)
  {
    ok := encoder.WriteDomainName(q.name);
    if !ok { return; }
    ok := encoder.WriteUint16(q.qtype);
    if !ok { return; }
    ok := encoder.WriteUint16(CLASS_IN);
  }

  method ReadEntry(answer: Octets) returns (recordType: u16, recordClass: u16, ttl: u32, rdlength: u16)
    requires |answer| >= 10
    ensures recordType == U16(answer, 0) && recordClass == U16(answer, 2)
    ensures ttl == U32(answer, 4) && rdlength == U16(answer, 8)
  {
    hide U16, U32;
    var copy := ToBuffer(answer);
    var decoder := new DnsWireFormat.Over(copy, 0);
    recordType := decoder.ReadUint16();
    recordClass := decoder.ReadUint16();
    ttl := decoder.ReadUint32();
    rdlength := decoder.ReadUint16();
  }

  method WriteAnswer(encoder: DnsWireFormat, answer: Octets) returns (ok: bool)
    requires encoder.Writing() && encoder.offset == |encoder.stream|
    requires IsEntry(answer)
    modifies encoder`offset, encoder`stream, encoder.buf
    ensures encoder.Writing() && encoder.offset == |encoder.stream|
    ensures ok <==> old(encoder.offset) + 12 <= encoder.buf.Length
    ensures ok ==> encoder.stream == old(encoder.stream) + [0xc0, 0x0c] + answer
  {
    hide DnsWireFormat.Writing, U16, U32, Be16, Be32;
    var recordType, recordClass, ttl, rdlength := ReadEntry(answer);
    AnswerPieces(encoder.stream, answer);
    ok := encoder.WriteUint8(0xc0);
    if !ok { return; }
    ok := encoder.WriteUint8(0x0c);
    if !ok { return; }
    ok := encoder.WriteUint16(recordType);
    if !ok { return; }
    ok := encoder.WriteUint16(recordClass);
    if !ok { return; }
    ok := encoder.WriteUint32(ttl);
    if !ok { return; }
    ok := encoder.WriteUint16(rdlength);
    if !ok { return; }
    encoder.WriteBytes(answer[10..10 + rdlength]);
  }

  lemma AnswerPieces(s: Octets, e: Octets)
    requires IsEntry(e)
    ensures 10 + U16(e, 8) == |e|
    ensures s + [0xc0] + [0x0c] + Be16(U16(e, 0)) + Be16(U16(e, 2)) + Be32(U32(e, 4)) + Be16(U16(e, 8))
            + e[10..10 + U16(e, 8)]
         == s + [0xc0, 0x0c] + e
  {
    hide U16, U32, Be16, Be32;
    var a, b, c, d := Be16(U16(e, 0)), Be16(U16(e, 2)), Be32(U32(e, 4)), Be16(U16(e, 8));
    EntryFields(e);
    assert e[10..|e|] == e[10..];
    assert [0xc0, 0x0c] + (a + b + c + d + e[10..]) == [0xc0] + [0x0c] + a + b + c + d + e[10..];
  }

  /** Reading the fields of an entry and writing them again gives the same octets. */
  lemma EntryFields(e: Octets)
    requires IsEntry(e)
    ensures e == Be16(U16(e, 0)) + Be16(U16(e, 2)) + Be32(U32(e, 4)) + Be16(U16(e, 8)) + e[10..]
  {
    Be16Of(e, 0);
    Be16Of(e, 2);
    Be32Of(e, 4);
    Be16Of(e, 8);
    hide Be16, Be32, U16, U32;
    assert e == e[0..2] + e[2..4] + e[4..8] + e[8..10] + e[10..];
  }

  method WriteAnswers(encoder: DnsWireFormat, answers: seq<Octets>) returns (ok: bool, ancount: nat)
    requires encoder.Writing() && encoder.offset == |encoder.stream| && encoder.buf.Length == PACKET_SIZE
    requires AllEntries(answers)
    modifies encoder`offset, encoder`stream, encoder.buf
    ensures encoder.Writing() && encoder.offset == |encoder.stream|
    ensures ok <==> AnswersFit(old(encoder.offset), Kept(answers))
    ensures ok ==> encoder.stream == old(encoder.stream) + AnswersOctets(Kept(answers))
    ensures ok ==> ancount == |Kept(answers)|
  {
    hide DnsWireFormat.Writing, IsEntry, Kept, AnswersOctets;
    ancount := 0;
    var i := 0;
    KeptEnds(answers);
    while i < |answers|
      modifies encoder`offset, encoder`stream, encoder.buf
      invariant 0 <= i <= |answers|
      invariant encoder.Writing() && encoder.offset == |encoder.stream|
      invariant encoder.stream + AnswersOctets(Kept(answers[i..])) == old(encoder.stream) + AnswersOctets(Kept(answers))
      invariant AnswersFit(encoder.offset, Kept(answers[i..])) <==> AnswersFit(old(encoder.offset), Kept(answers))
      invariant ancount + |Kept(answers[i..])| == |Kept(answers)|
    {
      KeptStep(answers, i, encoder.stream);
      if |answers[i]| >= 12 {
        ok := WriteAnswer(encoder, answers[i]);
        if !ok { return; }
        ancount := ancount + 1;
      }
      i := i + 1;
    }
    ok := true;
  }

  lemma KeptEnds(es: seq<Octets>)
    ensures es[0..] == es && Kept(es[|es|..]) == [] && AnswersOctets([]) == []
  {
  }

  /** One turn of the answer loop: an entry is skipped, or moved to the end of what is written. */
  lemma KeptStep(es: seq<Octets>, i: nat, acc: Octets)
    requires i < |es|
    ensures |es[i]| < 12 ==> Kept(es[i..]) == Kept(es[i + 1..])
    ensures |es[i]| >= 12 ==>
              && |Kept(es[i..])| == 1 + |Kept(es[i + 1..])|
              && Kept(es[i..])[0] == es[i] && Kept(es[i..])[1..] == Kept(es[i + 1..])
              && acc + AnswersOctets(Kept(es[i..]))
              == acc + [0xc0, 0x0c] + es[i] + AnswersOctets(Kept(es[i + 1..]))
  {
    assert es[i..][1..] == es[i + 1..];
    if |es[i]| >= 12 {
      var rest := Kept(es[i + 1..]);
      assert Kept(es[i..])[1..] == rest;
      assert acc + ([0xc0, 0x0c] + es[i] + AnswersOctets(rest)) == acc + [0xc0, 0x0c] + es[i] + AnswersOctets(rest);
    }
  }

  method WriteHeader(encoder: DnsWireFormat, id: u16, flags: u16, qdcount: u16)
    requires encoder.Writing() && encoder.offset == |encoder.stream| == 0 && encoder.buf.Length == PACKET_SIZE
    modifies encoder`offset, encoder`stream, encoder.buf
    ensures encoder.Writing() && encoder.offset == |encoder.stream| == 12
    ensures encoder.stream == Header(id, flags, qdcount, 0)
  {
    hide DnsWireFormat.Writing, Be16;
    var ok := encoder.WriteUint16(id);
    ok := encoder.WriteUint16(flags);
    ok := encoder.WriteUint16(qdcount);
    ok := encoder.WriteUint16(0);
    ok := encoder.WriteUint16(0);
    ok := encoder.WriteUint16(0);
    assert [] + Be16(id) == Be16(id);
  }

  /** buildResponsePacket; buildNoErrorResponse and generateErrorResponse are the same writes without answers. */
  method BuildResponsePacket(id: u16, flags: u16, rcode: u16, questions: seq<Question>, answers: seq<Octets>)
    returns (r: Option<Octets>)
    requires |questions| < 0x1_0000
    requires AllEntries(answers)
    ensures r == Assemble(id, flags, rcode, questions, answers)
  {
    hide DnsWireFormat.Writing, ResponseFlags, QuestionsOctets, AllEncodable, Header;
    hide AnswersOctets, IsEntry, AnswersFit, Kept;
    var encoder: DnsWireFormat := new DnsWireFormat.Alloc(PACKET_SIZE);
    var combined := ResponseFlags(flags, rcode);
    WriteHeader(encoder, id, combined, |questions|);
    var ok := WriteQuestions(encoder, questions);
    if !ok { return None; }
    var ancount;
    ok, ancount := WriteAnswers(encoder, answers);
    if !ok { return None; }
    AnswersFitBound(12 + |QuestionsOctets(questions)|, Kept(answers));
    ghost var questionPart, answerPart := QuestionsOctets(questions), AnswersOctets(Kept(answers));
    assert encoder.stream == Header(id, combined, |questions|, 0) + (questionPart + answerPart);
    ok := encoder.PatchUint16(ancount, 6);
    HeaderPatch(id, combined, |questions|, ancount, questionPart + answerPart);
    assert encoder.stream == Header(id, combined, |questions|, ancount) + questionPart + answerPart;
    var out := encoder.Finish();
    r := Some(out);
  }

  lemma HeaderPatch(id: u16, flags: u16, qdcount: u16, ancount: u16, tail: Octets)
    ensures var s := Header(id, flags, qdcount, 0) + tail;
            s[..6] + Be16(ancount) + s[8..] == Header(id, flags, qdcount, ancount) + tail
  {
  }
}
