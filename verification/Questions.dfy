/** Question parsing: parseQuestion and extractQuestions. */
module Questions {
  import opened Bytes
  import opened Text
  import opened WireFormat

  const CLASS_IN: u16 := 1
  const CLASS_ANY: u16 := 255

  /** ParsedQuestion: the name as read, the type, and the offset after the question. */
  datatype Question = Question(name: Name, qtype: u16, next: nat)

  function QuestionAt(b: Octets, base: nat): Option<Question>
  {
    var end := NameEnd(b, base);
    if end + 4 > |b| then None
    else if U16(b, end + 2) != CLASS_IN && U16(b, end + 2) != CLASS_ANY then None
    else Some(Question(NameAt(b, base), U16(b, end), end + 4))
  }

  /** Up to `n` questions from `pos`, stopping at the first that does not parse. */
  function QuestionsFrom(b: Octets, pos: nat, n: nat): (r: seq<Question>)
    ensures |r| <= n
    decreases n
  {
    if n == 0 then []
    else match QuestionAt(b, pos)
      case None => []
      case Some(q) => [q] + QuestionsFrom(b, q.next, n - 1)
  }

  function QuestionsOf(b: Octets): (r: seq<Question>)
    requires |b| >= 6
    ensures |r| <= U16(b, 4)
  {
    QuestionsFrom(b, 12, U16(b, 4))
  }

  method ParseQuestion(query: array<byte>, base: nat) returns (r: Option<Question>)
    ensures r == QuestionAt(query[..], base)
  {
    var decoder := new DnsWireFormat.Over(query, base);
    var name := decoder.ReadDomainName();
    if decoder.offset + 4 > query.Length { return None; }
    var qtype := decoder.ReadUint16();
    var dclass := decoder.ReadUint16();
    if dclass != CLASS_IN && dclass != CLASS_ANY { return None; }
    return Some(Question(name, qtype, decoder.offset));
  }

  method ExtractQuestions(query: array<byte>) returns (questions: seq<Question>)
    requires query.Length >= 6
    ensures questions == QuestionsOf(query[..])
  {
    var qdcount := U16(query[..], 4);
    questions := [];
    var offset := 12;
    var i := 0;
    while i < qdcount
      invariant 0 <= i <= qdcount
      invariant questions + QuestionsFrom(query[..], offset, qdcount - i) == QuestionsOf(query[..])
    {
      var question := ParseQuestion(query, offset);
      if question.None? { break; }
      questions := questions + [question.value];
      offset := question.value.next;
      i := i + 1;
    }
  }

  /** Whatever count the header claims, every question costs at least five octets of the buffer. */
  lemma {:induction false} QuestionBound(b: Octets, pos: nat, n: nat)
    ensures var r := QuestionsFrom(b, pos, n);
            && (r != [] ==> pos + 5 * |r| <= r[|r| - 1].next <= |b|)
            && (forall i :: 0 <= i < |r| ==> pos + 5 * (i + 1) <= r[i].next <= |b|)
            && (forall i, j :: 0 <= i < j < |r| ==> r[i].next + 5 <= r[j].next)
    decreases n
  {
    if n > 0 && QuestionAt(b, pos).Some? {
      var q := QuestionAt(b, pos).value;
      QuestionBound(b, q.next, n - 1);
    }
  }

  lemma {:induction false} ExtractedQuestionsAreBounded(b: Octets)
    requires |b| >= 12
    ensures var r := QuestionsOf(b);
            && |r| <= U16(b, 4) && |r| <= (|b| - 12) / 5
            && (forall i :: 0 <= i < |r| ==> 12 < r[i].next <= |b|)
            && (forall i, j :: 0 <= i < j < |r| ==> r[i].next < r[j].next)
  {
    QuestionBound(b, 12, U16(b, 4));
  }

  /** The question for "a", taken for the root in the last place. */
  function PointerQuestion(n: nat): Question
    requires 1 <= n <= 6
  {
    Question(if n == 6 then [] else [0x61], 1, PointerPlace(n) + 6)
  }

  function PointerQuestions(n: nat): seq<Question>
    requires 1 <= n <= 7
    decreases 7 - n
  {
    if n == 7 then [] else [PointerQuestion(n)] + PointerQuestions(n + 1)
  }

  /** The query of SixPointersLoseTheName asks for "a" seven times, and the seventh question is taken to ask for the
      root. */
  lemma {:induction false} SixPointerQuestion()
    ensures Encodes(SIX_POINTERS, PointerPlace(6), [[0x61]], 6)
    ensures QuestionsOf(SIX_POINTERS) == [Question([0x61], 1, 19)] + PointerQuestions(1)
    ensures |QuestionsOf(SIX_POINTERS)| == 7 && QuestionsOf(SIX_POINTERS)[6] == Question([], 1, 55)
  {
    hide SIX_POINTERS, QuestionAt, Encodes, U16;
    SpelledOctets();
    SpelledQuestion();
    SixPointersLoseTheName(6);
    QuestionsBehind(1);
    assert QuestionsOf(SIX_POINTERS) == [Question([0x61], 1, 19)] + QuestionsFrom(SIX_POINTERS, PointerPlace(1), 6);
    LastPointerQuestion(1);
  }

  lemma {:induction false} LastPointerQuestion(n: nat)
    requires 1 <= n <= 6
    ensures |PointerQuestions(n)| == 7 - n && PointerQuestions(n)[6 - n] == PointerQuestion(6)
    decreases 7 - n
  {
    if n < 6 { LastPointerQuestion(n + 1); }
  }

  lemma SpelledQuestion()
    ensures QuestionAt(SIX_POINTERS, 12) == Some(Question([0x61], 1, 19))
  {
    hide SIX_POINTERS, U16, LabelsAt, Encodes;
    var b := SIX_POINTERS;
    SpelledOctets();
    SpelledEncodes();
    CompressedNameDecodes(b, 12, [[0x61]], 0);
    assert StepAt(b, 12) == Take(1) && StepAt(b, 14) == Stop(15);
    hide StepAt;
    assert NameEnd(b, 14) == 15;
    assert NameEnd(b, 12) == 15;
  }

  lemma PointerQuestionAt(n: nat)
    requires 1 <= n <= 6
    ensures QuestionAt(SIX_POINTERS, PointerPlace(n)) == Some(PointerQuestion(n))
  {
    hide SIX_POINTERS, StepAt, LabelsAt, Encodes;
    var b, pos := SIX_POINTERS, PointerPlace(n);
    PointerOctets(n);
    SixJumps(n);
    SixPointersLoseTheName(n);
    var end := pos + 2;
    assert NameEnd(b, pos) == end;
    assert b[end] == b[pos..pos + 6][2] && b[end + 1] == b[pos..pos + 6][3];
    assert b[end + 2] == b[pos..pos + 6][4] && b[end + 3] == b[pos..pos + 6][5];
    assert U16(b, end) == 1 && U16(b, end + 2) == 1;
    hide NameEnd, U16;
    assert Join([[0x61]]) == [0x61] && Join([]) == [];
  }

  lemma {:induction false} QuestionsBehind(n: nat)
    requires 1 <= n <= 6
    ensures QuestionsFrom(SIX_POINTERS, PointerPlace(n), 7 - n) == PointerQuestions(n)
    decreases 7 - n
  {
    hide SIX_POINTERS, QuestionAt;
    PointerQuestionAt(n);
    if n < 6 { QuestionsBehind(n + 1); }
  }

  /** A question with a name in any encoding parses exactly when its four octets are there and the class is IN or ANY,
      and then to its name, type and the offset behind it. */
  lemma {:induction false} QuestionParsesExactly(b: Octets, pos: nat, labels: seq<Name>, ptrs: nat)
    requires Encodes(b, pos, labels, ptrs) && ptrs <= MAX_JUMPS
    ensures var end := InPlaceEnd(b, pos, labels, ptrs);
            QuestionAt(b, pos) ==
              if end + 4 <= |b| && b[end + 2] == 0 && (b[end + 3] == 1 || b[end + 3] == 255)
              then Some(Question(Join(labels), 256 * b[end] as int + b[end + 1] as int, end + 4)) else None
  {
    CompressedNameDecodes(b, pos, labels, ptrs);
    CursorAfterCompressedName(b, pos, labels, ptrs);
    hide Encodes, InPlaceEnd, NameEnd, LabelsAt, Join;
  }

  // ---------------------------------------------------------------- the section as it is written

  /** A question as labels on the wire. */
  datatype WireQuestion = WireQuestion(labels: seq<Name>, qtype: u16, qclass: u16)

  predicate Legal(q: WireQuestion)
  {
    WireLabels(q.labels) && (q.qclass == CLASS_IN || q.qclass == CLASS_ANY)
  }

  predicate AllLegal(qs: seq<WireQuestion>)
  {
    forall i :: 0 <= i < |qs| ==> Legal(qs[i])
  }

  function EncodeQuestion(q: WireQuestion): (r: Octets)
    requires WireLabels(q.labels)
    ensures |r| >= 5
  {
    EncodeLabels(q.labels) + Be16(q.qtype) + Be16(q.qclass)
  }

  function Section(qs: seq<WireQuestion>): Octets
    requires AllLegal(qs)
  {
    if qs == [] then [] else EncodeQuestion(qs[0]) + Section(qs[1..])
  }

  /** What a reader makes of the section written at `pos`. */
  function ReadBack(qs: seq<WireQuestion>, pos: nat): (r: seq<Question>)
    requires AllLegal(qs)
    ensures |r| == |qs|
    ensures forall i :: 0 <= i < |qs| ==> r[i].name == Join(qs[i].labels) && r[i].qtype == qs[i].qtype
  {
    if qs == [] then []
    else
      var next := pos + |EncodeQuestion(qs[0])|;
      [Question(Join(qs[0].labels), qs[0].qtype, next)] + ReadBack(qs[1..], next)
  }

  lemma QuestionReadsBack(b: Octets, pos: nat, q: WireQuestion)
    requires Legal(q) && At(b, pos, EncodeQuestion(q))
    ensures QuestionAt(b, pos) == Some(Question(Join(q.labels), q.qtype, pos + |EncodeQuestion(q)|))
  {
    var name := EncodeLabels(q.labels);
    AtAppend(b, pos, name + Be16(q.qtype), Be16(q.qclass));
    AtAppend(b, pos, name, Be16(q.qtype));
    UncompressedReadsBack(b, pos, q.labels, 0);
    ReadBe16(b, pos + |name|, q.qtype);
    ReadBe16(b, pos + |name| + 2, q.qclass);
  }

  /** A written question section reads back exactly, wherever it stands and whatever surrounds it. */
  lemma {:induction false} SectionReadsBack(b: Octets, pos: nat, qs: seq<WireQuestion>)
    requires AllLegal(qs) && At(b, pos, Section(qs))
    ensures QuestionsFrom(b, pos, |qs|) == ReadBack(qs, pos)
    decreases |qs|
  {
    hide QuestionAt, EncodeQuestion, At, Join;
    if qs != [] {
      AtAppend(b, pos, EncodeQuestion(qs[0]), Section(qs[1..]));
      QuestionReadsBack(b, pos, qs[0]);
      SectionReadsBack(b, pos + |EncodeQuestion(qs[0])|, qs[1..]);
    }
  }

  /** The class stands in front of where the reader goes on. */
  lemma {:induction false} ClassesStand(b: Octets, pos: nat, qs: seq<WireQuestion>)
    requires AllLegal(qs) && At(b, pos, Section(qs))
    ensures forall i :: 0 <= i < |qs| ==>
              2 <= ReadBack(qs, pos)[i].next <= |b| && U16(b, ReadBack(qs, pos)[i].next - 2) == qs[i].qclass
    decreases |qs|
  {
    hide EncodeQuestion, At, Join, U16;
    if qs != [] {
      var next := pos + |EncodeQuestion(qs[0])|;
      AtAppend(b, pos, EncodeQuestion(qs[0]), Section(qs[1..]));
      ClassStands(b, pos, qs[0]);
      ClassesStand(b, next, qs[1..]);
      assert ReadBack(qs, pos)[0].next == next;
      var rest := ReadBack(qs[1..], next);
      assert forall i :: 0 < i < |qs| ==> ReadBack(qs, pos)[i] == rest[i - 1] && qs[i] == qs[1..][i - 1];
    }
  }

  lemma ClassStands(b: Octets, pos: nat, q: WireQuestion)
    requires Legal(q) && At(b, pos, EncodeQuestion(q))
    ensures pos + |EncodeQuestion(q)| <= |b| && U16(b, pos + |EncodeQuestion(q)| - 2) == q.qclass
  {
    AtAppend(b, pos, EncodeLabels(q.labels) + Be16(q.qtype), Be16(q.qclass));
    ReadBe16(b, pos + |EncodeQuestion(q)| - 2, q.qclass);
  }

  /** Extraction ends at the first question that does not parse, whatever follows and however many are announced. */
  lemma {:induction false} StopsAtFirstMalformed(b: Octets, pos: nat, qs: seq<WireQuestion>, n: nat)
    requires AllLegal(qs) && At(b, pos, Section(qs)) && QuestionAt(b, pos + |Section(qs)|) == None && n >= |qs|
    ensures QuestionsFrom(b, pos, n) == ReadBack(qs, pos)
    decreases |qs|
  {
    hide QuestionAt, EncodeQuestion, At, Join;
    if qs != [] {
      AtAppend(b, pos, EncodeQuestion(qs[0]), Section(qs[1..]));
      QuestionReadsBack(b, pos, qs[0]);
      StopsAtFirstMalformed(b, pos + |EncodeQuestion(qs[0])|, qs[1..], n - 1);
    }
  }

  // ---------------------------------------------------------------- stepping over the section

  /** Where readers that need no questions find the first record. */
  function SkipQuestions(b: Octets, pos: nat, n: nat): nat
    decreases n
  {
    if n == 0 then pos else SkipQuestions(b, NameEnd(b, pos) + 4, n - 1)
  }

  lemma {:induction false} SectionIsSkipped(b: Octets, pos: nat, qs: seq<WireQuestion>)
    requires AllLegal(qs) && At(b, pos, Section(qs))
    ensures SkipQuestions(b, pos, |qs|) == pos + |Section(qs)|
    decreases |qs|
  {
    hide At, NameEnd, EncodeLabels;
    if qs != [] {
      var q := qs[0];
      assert Legal(q);
      AtAppend(b, pos, EncodeQuestion(q), Section(qs[1..]));
      AtAppend(b, pos, EncodeLabels(q.labels) + Be16(q.qtype), Be16(q.qclass));
      AtAppend(b, pos, EncodeLabels(q.labels), Be16(q.qtype));
      UncompressedReadsBack(b, pos, q.labels, 0);
      SectionIsSkipped(b, pos + |EncodeQuestion(q)|, qs[1..]);
    }
  }
}
