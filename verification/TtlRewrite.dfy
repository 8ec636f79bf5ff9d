/** rewriteResponseTtl and skipQuestionSection. */
module TtlRewrite {
  import opened Bytes
  import opened Text
  import opened WireFormat
  import opened Questions
  import opened Responses
  import opened ResponseReading

  /** The end of a name as skipQuestionSection walks it; None where it gives up. */
  function NameSkip(b: Octets, pos: nat): Option<nat>
    decreases |b| - pos
  {
    if pos >= |b| then Some(pos)
    else
      var len := b[pos];
      if len == 0 then Some(pos + 1)
      else if len >= 192 then if pos + 1 >= |b| then None else Some(pos + 2)
      else if pos + 1 + len > |b| then None
      else NameSkip(b, pos + 1 + len)
  }

  /** A name in any valid encoding is stepped over: up to the pointer, or all of it. */
  lemma {:induction false} NameIsSkipped(b: Octets, pos: nat, labels: seq<Name>, ptrs: nat)
    requires Encodes(b, pos, labels, ptrs)
    ensures NameSkip(b, pos) == Some(InPlaceEnd(b, pos, labels, ptrs))
    decreases |labels|
  {
    if 0 < b[pos] < 192 { NameIsSkipped(b, pos + 1 + |labels[0]|, labels[1..], ptrs); }
  }

  /** Where the name is not whole the walk gives up: on a label or a pointer that the end of the packet cuts. Labels
      count up to 191 octets here. At the very end it stops as if the name were over. */
  lemma {:induction false} BrokenNameIsKept(b: Octets, pos: nat, labels: seq<Name>)
    requires LabelsFit(labels, 191) && (forall i :: 0 <= i < |labels| ==> labels[i] != []) && At(b, pos, Labels(labels))
    ensures WalkEnds(b, pos + |Labels(labels)|, NameSkip(b, pos))
    decreases |labels|
  {
    hide WalkEnds;
    if labels == [] {
      FaultEnds(b, pos);
    } else {
      var l, tail := labels[0], Labels(labels[1..]);
      assert labels == [l] + labels[1..];
      hide At, NameSkip, Labels;
      AtAppend(b, pos, [|l|] + l, tail);
      AtAppend(b, pos, [|l|], l);
      OneSkipped(b, pos, l);
      BrokenNameIsKept(b, pos + 1 + |l|, labels[1..]);
    }
  }

  lemma FaultEnds(b: Octets, end: nat)
    ensures WalkEnds(b, end, NameSkip(b, end))
  {
  }

  /** What the walk makes of the octet at `end`. */
  predicate WalkEnds(b: Octets, end: nat, r: Option<nat>)
  {
    && (end >= |b| ==> r == Some(end))
    && (end < |b| && b[end] == 0 ==> r == Some(end + 1))
    && (end < |b| && 1 <= b[end] < 192 && end + 1 + b[end] > |b| ==> r == None)
    && (end + 1 == |b| && b[end] >= 192 ==> r == None)
    && (end + 1 < |b| && b[end] >= 192 ==> r == Some(end + 2))
  }

  lemma OneSkipped(b: Octets, pos: nat, l: Octets)
    requires 1 <= |l| <= 191 && At(b, pos, [|l|]) && At(b, pos + 1, l)
    ensures NameSkip(b, pos) == NameSkip(b, pos + 1 + |l|)
  {
    AtIndex(b, pos, [|l|], 0);
  }

  /** The offset after the question at `pos`, or `pos` itself when it is malformed. */
  function SkipQuestion(b: Octets, pos: nat): nat
  {
    match NameSkip(b, pos)
    case None => pos
    case Some(end) => if end + 4 > |b| then pos else end + 4
  }

  function AnswersStart(b: Octets, pos: nat, n: nat): nat
    decreases n
  {
    if n == 0 || SkipQuestion(b, pos) == pos then pos
    else AnswersStart(b, SkipQuestion(b, pos), n - 1)
  }

  /** Offsets of the TTL fields the rewriter visits. */
  function TtlFields(b: Octets, pos: nat, n: nat): (r: seq<nat>)
    decreases n
  {
    if n == 0 || pos + 12 > |b| then []
    else [pos + 6] + TtlFields(b, pos + 12 + U16(b, pos + 10), n - 1)
  }

  function FieldsOf(b: Octets): seq<nat>
    requires |b| >= 12
  {
    TtlFields(b, AnswersStart(b, 12, U16(b, 4)), U16(b, 6))
  }

  function WithTtl(b: Octets, k: nat, ttl: u32): (r: Octets)
    requires k + 4 <= |b|
    ensures |r| == |b|
  {
    b[..k] + Be32(ttl) + b[k + 4..]
  }

  predicate Inside(fields: seq<nat>, size: nat)
  {
    forall j :: 0 <= j < |fields| ==> fields[j] + 4 <= size
  }

  function Stamp(b: Octets, fields: seq<nat>, ttl: u32): (r: Octets)
    requires Inside(fields, |b|)
    ensures |r| == |b|
    decreases |fields|
  {
    if fields == [] then b else Stamp(WithTtl(b, fields[0], ttl), fields[1..], ttl)
  }

  predicate Spaced(fields: seq<nat>, from: nat)
  {
    && (forall j :: 0 <= j < |fields| ==> from <= fields[j])
    && (forall i, j :: 0 <= i < j < |fields| ==> fields[i] + 4 <= fields[j])
  }

  lemma {:induction false} FieldsAreInside(b: Octets, pos: nat, n: nat)
    ensures Inside(TtlFields(b, pos, n), |b|)
    ensures Spaced(TtlFields(b, pos, n), pos + 6)
    decreases n
  {
    if n > 0 && pos + 12 <= |b| {
      FieldsAreInside(b, pos + 12 + U16(b, pos + 10), n - 1);
    }
  }

  function Rewrite(b: Octets, ttl: u32): (r: Octets)
    ensures |r| == |b|
  {
    if |b| < 12 then b
    else
      FieldsAreInside(b, AnswersStart(b, 12, U16(b, 4)), U16(b, 6));
      Stamp(b, FieldsOf(b), ttl)
  }

  predicate InField(fields: seq<nat>, i: nat)
  {
    exists j :: 0 <= j < |fields| && fields[j] <= i < fields[j] + 4
  }

  lemma InFieldTail(fields: seq<nat>, i: nat)
    requires fields != []
    ensures InField(fields, i) <==> fields[0] <= i < fields[0] + 4 || InField(fields[1..], i)
  {
    forall j | 0 <= j < |fields[1..]| ensures fields[1..][j] == fields[j + 1] {}
    if InField(fields[1..], i) {
      var j :| 0 <= j < |fields[1..]| && fields[1..][j] <= i < fields[1..][j] + 4;
      assert fields[j + 1] <= i < fields[j + 1] + 4;
    }
    if InField(fields, i) && !(fields[0] <= i < fields[0] + 4) {
      var j :| 0 <= j < |fields| && fields[j] <= i < fields[j] + 4;
      assert fields[1..][j - 1] <= i < fields[1..][j - 1] + 4;
    }
  }

  lemma {:induction false} StampMeaning(b: Octets, fields: seq<nat>, ttl: u32)
    requires Inside(fields, |b|)
    requires Spaced(fields, 0)
    ensures var r := Stamp(b, fields, ttl);
            && (forall j :: 0 <= j < |fields| ==> At(r, fields[j], Be32(ttl)))
            && (forall i :: 0 <= i < |b| && !InField(fields, i) ==> r[i] == b[i])
    decreases |fields|
  {
    if fields != [] {
      var k, c := fields[0], WithTtl(b, fields[0], ttl);
      StampMeaning(c, fields[1..], ttl);
      var r := Stamp(c, fields[1..], ttl);
      forall i | 0 <= i < |b| && !InField(fields, i) ensures r[i] == b[i] {
        InFieldTail(fields, i);
      }
      assert r[k..k + 4] == Be32(ttl) by {
        assert forall j :: 0 <= j < |fields[1..]| ==> fields[1..][j] >= k + 4;
        forall i | k <= i < k + 4 ensures r[i] == Be32(ttl)[i - k] {
          assert !InField(fields[1..], i);
        }
      }
      forall j | 0 <= j < |fields| ensures At(r, fields[j], Be32(ttl)) {
        if j > 0 { assert fields[j] == fields[1..][j - 1]; }
      }
    }
  }

  /** On every buffer: the length stays, each visited TTL field holds the new value, no other octet changes. */
  lemma {:induction false} RewriteTouchesOnlyTtls(b: Octets, ttl: u32)
    requires |b| >= 12
    ensures var r := Rewrite(b, ttl);
            && |r| == |b|
            && (forall j :: 0 <= j < |FieldsOf(b)| ==> At(r, FieldsOf(b)[j], Be32(ttl)))
            && (forall i :: 0 <= i < |b| && !InField(FieldsOf(b), i) ==> r[i] == b[i])
  {
    FieldsAreInside(b, AnswersStart(b, 12, U16(b, 4)), U16(b, 6));
    StampMeaning(b, FieldsOf(b), ttl);
  }

  // ---------------------------------------------------------------- the in-place loops

  method SkipQuestionSection(buffer: Octets, start: nat) returns (next: nat)
    ensures next == SkipQuestion(buffer, start)
  {
    var offset := start;
    while offset < |buffer|
      invariant NameSkip(buffer, offset) == NameSkip(buffer, start)
    {
      var len := buffer[offset];
      if len == 0 { offset := offset + 1; break; }
      if len >= 192 {
        if offset + 1 >= |buffer| { return start; }
        offset := offset + 2;
        break;
      }
      if offset + 1 + len > |buffer| { return start; }
      offset := offset + 1 + len;
    }
    if offset + 4 > |buffer| { return start; }
    return offset + 4;
  }

  method RewriteResponseTtl(response: Octets, newTtl: u32) returns (r: Octets)
    ensures r == Rewrite(response, newTtl)
  {
    hide SkipQuestion, WithTtl, U16;
    if |response| < 12 { return response; }
    var result := ToBuffer(response);
    var qdcount := U16(response, 4);
    var offset: nat := 12;
    var i := 0;
    while i < qdcount
      invariant 0 <= i <= qdcount
      invariant fresh(result) && result[..] == response
      invariant AnswersStart(response, offset, qdcount - i) == AnswersStart(response, 12, qdcount)
    {
      var next := SkipQuestionSection(response, offset);
      if next == offset { break; }
      offset := next;
      i := i + 1;
    }
    ghost var start := offset;
    assert start == AnswersStart(response, 12, qdcount);
    var ancount := U16(response, 6);
    i := 0;
    FieldsAreInside(response, start, ancount);
    while i < ancount && offset + 12 <= |response|
      invariant 0 <= i <= ancount
      invariant fresh(result) && result.Length == |response|
      invariant Inside(TtlFields(response, offset, ancount - i), |response|)
      invariant Stamp(result[..], TtlFields(response, offset, ancount - i), newTtl) == Rewrite(response, newTtl)
    {
      FieldsAreInside(response, offset + 12 + U16(response, offset + 10), ancount - i - 1);
      PutTtl(result, offset + 6, newTtl);
      offset := offset + 12 + U16(response, offset + 10);
      i := i + 1;
    }
    r := result[..];
  }

  /** writeUInt32BE */
  method PutTtl(result: array<byte>, k: nat, ttl: u32)
    requires k + 4 <= result.Length
    modifies result
    ensures result[..] == WithTtl(old(result[..]), k, ttl)
  {
    var t := Be32(ttl);
    result[k], result[k + 1], result[k + 2], result[k + 3] := t[0], t[1], t[2], t[3];
  }

  // ---------------------------------------------------------------- packets the builders produce

  function SetTtl(e: Octets, ttl: u32): (r: Octets)
    requires |e| >= 8
    ensures |r| == |e|
  {
    e[..4] + Be32(ttl) + e[8..]
  }

  function SetTtls(es: seq<Octets>, ttl: u32): (r: seq<Octets>)
    requires AllEntries(es)
    ensures |r| == |es|
    ensures AllEntries(r)
    ensures forall i :: 0 <= i < |es| ==> r[i] == SetTtl(es[i], ttl)
  {
    if es == [] then [] else [SetTtl(es[0], ttl)] + SetTtls(es[1..], ttl)
  }

  lemma SetTtlMeaning(e: Octets, ttl: u32, owner: Text.Name)
    requires IsEntry(e)
    ensures var was, r := AsRecord(owner, e), AsRecord(owner, SetTtl(e, ttl));
            r == was.(ttl := ttl)
    ensures forall t: u32 :: SetTtl(SetTtl(e, ttl), t) == SetTtl(e, t)
  {
    var r := SetTtl(e, ttl);
    assert At(r, 4, Be32(ttl));
    ReadBe32(r, 4, ttl);
    assert r[10..] == e[10..];
    forall t: u32 ensures SetTtl(r, t) == SetTtl(e, t) {
      assert r[..4] == e[..4] && r[8..] == e[8..];
    }
  }

  lemma {:induction false} SkipsName(b: Octets, pos: nat, labels: seq<Text.Name>)
    requires WireLabels(labels) && At(b, pos, EncodeLabels(labels))
    ensures NameSkip(b, pos) == Some(pos + |EncodeLabels(labels)|)
    decreases |labels|
  {
    FirstLabel(b, pos, labels);
    hide At, EncodeLabels;
    if labels != [] {
      SkipsName(b, pos + 1 + |labels[0]|, labels[1..]);
    }
  }

  lemma {:induction false} SkipsSection(b: Octets, pos: nat, qs: seq<WireQuestion>)
    requires AllLegal(qs) && At(b, pos, Section(qs))
    ensures AnswersStart(b, pos, |qs|) == pos + |Section(qs)|
    decreases |qs|
  {
    hide At, NameSkip, EncodeLabels;
    if qs != [] {
      var q := qs[0];
      assert Legal(q);
      AtAppend(b, pos, EncodeQuestion(q), Section(qs[1..]));
      AtAppend(b, pos, EncodeLabels(q.labels) + Be16(q.qtype), Be16(q.qclass));
      AtAppend(b, pos, EncodeLabels(q.labels), Be16(q.qtype));
      SkipsName(b, pos, q.labels);
      AtInside(b, pos, EncodeQuestion(q));
      SkipsSection(b, pos + |EncodeQuestion(q)|, qs[1..]);
    }
  }

  lemma AtInside(b: Octets, pos: nat, x: Octets)
    requires At(b, pos, x)
    ensures pos + |x| <= |b|
  {
  }

  /** Stamping the answer section of a packet, even one cut by the buffer, is setting every entry's TTL. */
  lemma {:induction false} StampAnswers(p: Octets, q: Octets, es: seq<Octets>, ttl: u32)
    requires AllEntries(es) && |p| == |q| && (forall i :: 0 <= i < |es| ==> |es[i]| >= 12)
    requires AnswersFit(|p|, es)
    ensures var b := Clip(p + AnswersOctets(es), PACKET_SIZE);
            && Inside(TtlFields(b, |p|, |es|), |b|)
            && Stamp(Clip(q + AnswersOctets(es), PACKET_SIZE), TtlFields(b, |p|, |es|), ttl)
            == Clip(q + AnswersOctets(SetTtls(es, ttl)), PACKET_SIZE)
    decreases |es|
  {
    hide IsEntry, SetTtl, AnswersOctets, WithTtl, Clip, U16;
    if es == [] {
      assert SetTtls(es, ttl) == [];
    } else {
      var e, rest, t := es[0], es[1..], SetTtl(es[0], ttl);
      var ptr: Octets := [0xc0, 0x0c];
      AnswersHead(p, es);
      AnswersHead(q, es);
      AnswersHead(q, SetTtls(es, ttl));
      assert SetTtls(es, ttl)[1..] == SetTtls(rest, ttl);
      FirstAnswer(p, e, AnswersOctets(rest));
      PutClipped(q, e, AnswersOctets(rest), ttl);
      StampAnswers(p + ptr + e, q + ptr + t, rest, ttl);
      var b := Clip(p + AnswersOctets(es), PACKET_SIZE);
      assert TtlFields(b, |p|, |es|) == [|p| + 6] + TtlFields(b, |p| + 2 + |e|, |rest|);
    }
  }

  lemma AnswersHead(x: Octets, es: seq<Octets>)
    requires es != []
    ensures x + AnswersOctets(es) == x + [0xc0, 0x0c] + es[0] + AnswersOctets(es[1..])
  {
  }

  lemma FirstAnswer(p: Octets, e: Octets, tail: Octets)
    requires IsEntry(e) && |p| + 12 <= PACKET_SIZE && |e| >= 12
    ensures var b := Clip(p + [0xc0, 0x0c] + e + tail, PACKET_SIZE);
            && |p| + 12 <= |b|
            && |p| + 12 + U16(b, |p| + 10) == |p| + 2 + |e|
  {
    var s := p + [0xc0, 0x0c] + e + tail;
    assert s[|p| + 10] == e[8] && s[|p| + 11] == e[9];
  }

  lemma PutClipped(q: Octets, e: Octets, tail: Octets, ttl: u32)
    requires |e| >= 12 && |q| + 12 <= PACKET_SIZE
    ensures var s := q + [0xc0, 0x0c] + e + tail;
            && |q| + 10 <= |Clip(s, PACKET_SIZE)|
            && WithTtl(Clip(s, PACKET_SIZE), |q| + 6, ttl)
            == Clip(q + [0xc0, 0x0c] + SetTtl(e, ttl) + tail, PACKET_SIZE)
  {
    var s := q + [0xc0, 0x0c] + e + tail;
    var t := q + [0xc0, 0x0c] + SetTtl(e, ttl) + tail;
    assert t == s[..|q| + 6] + Be32(ttl) + s[|q| + 10..];
  }

  lemma ClippedLayout(id: u16, flags: u16, qs: seq<Question>, es: seq<Octets>)
    requires AllEncodable(qs) && |qs| < 0x1_0000 && |es| < 0x1_0000
    requires 12 + |QuestionsOctets(qs)| <= PACKET_SIZE
    ensures var b := Clip(Packet(id, flags, qs, es), PACKET_SIZE);
            && |b| >= 12 && U16(b, 4) == |qs| && U16(b, 6) == |es|
            && At(b, 12, QuestionsOctets(qs))
  {
    PacketLayout(id, flags, qs, es);
    hide QuestionsOctets, AnswersOctets, AllEncodable, Header;
    var whole, q := Packet(id, flags, qs, es), QuestionsOctets(qs);
    var b := Clip(whole, PACKET_SIZE);
    assert b[4] == whole[4] && b[5] == whole[5] && b[6] == whole[6] && b[7] == whole[7];
    assert b[12..12 + |q|] == whole[12..12 + |q|];
  }

  /** On every packet the builders produce, cut or not, rewriting sets the TTL of each answer and nothing else:
      the result is the packet the builder would have made with the new TTL. */
  lemma {:induction false} RewriteSetsTtls(id: u16, flags: u16, qs: seq<Question>, es: seq<Octets>, ttl: u32)
    requires Writable(qs) && |qs| < 0x1_0000 && |es| < 0x1_0000
    requires AllEntries(es) && (forall i :: 0 <= i < |es| ==> |es[i]| >= 12)
    requires Builds(qs, es)
    ensures Rewrite(Clip(Packet(id, flags, qs, es), PACKET_SIZE), ttl)
         == Clip(Packet(id, flags, qs, SetTtls(es, ttl)), PACKET_SIZE)
  {
    hide At, Writable, AllLegal, AllEntries, AnswersFit, Stamp, Inside, TtlFields, Header, U16;
    var b := Clip(Packet(id, flags, qs, es), PACKET_SIZE);
    var p := Header(id, flags, |qs|, |es|) + QuestionsOctets(qs);
    ClippedLayout(id, flags, qs, es);
    QuestionsOctetsAreSection(qs);
    SkipsSection(b, 12, Rewritten(qs));
    hide QuestionsOctets, AnswersOctets, Section;
    assert AnswersStart(b, 12, U16(b, 4)) == |p|;
    StampAnswers(p, p, es, ttl);
  }

  lemma {:induction false} SetTtlsOverride(es: seq<Octets>, first: u32, second: u32)
    requires AllEntries(es)
    ensures SetTtls(SetTtls(es, first), second) == SetTtls(es, second)
  {
    if es != [] {
      SetTtlMeaning(es[0], first, []);
      SetTtlsOverride(es[1..], first, second);
    }
  }

  lemma {:induction false} AnswersFitAfterSetTtls(pos: nat, es: seq<Octets>, ttl: u32)
    requires AllEntries(es)
    ensures AnswersFit(pos, SetTtls(es, ttl)) <==> AnswersFit(pos, es)
    decreases |es|
  {
    if es != [] {
      AnswersFitAfterSetTtls(pos + 2 + |es[0]|, es[1..], ttl);
    }
  }

  /** A second rewrite overrides the first. */
  lemma {:induction false} RewriteOverrides(
    id: u16, flags: u16, qs: seq<Question>, es: seq<Octets>, first: u32, second: u32)
    requires Writable(qs) && |qs| < 0x1_0000 && |es| < 0x1_0000
    requires AllEntries(es) && (forall i :: 0 <= i < |es| ==> |es[i]| >= 12)
    requires Builds(qs, es)
    ensures var b := Clip(Packet(id, flags, qs, es), PACKET_SIZE);
            Rewrite(Rewrite(b, first), second) == Rewrite(b, second)
  {
    RewriteSetsTtls(id, flags, qs, es, first);
    RewriteSetsTtls(id, flags, qs, es, second);
    AnswersFitAfterSetTtls(12 + |QuestionsOctets(qs)|, es, first);
    RewriteSetsTtls(id, flags, qs, SetTtls(es, first), second);
    SetTtlsOverride(es, first, second);
  }
}
