/** apply0x20Encoding, and the check of the echoed question section. */
module CaseMixing {
  import opened Bytes
  import opened Text
  import opened WireFormat
  import opened Questions

  /** The random bit drawn for each position of the buffer; true when the drawn octet is even. */
  type Coins = nat -> bool

  /** charCode |= 0x20 or &= ~0x20 on a letter; other octets stay. */
  function Mixed(c: byte, lower: bool): (r: byte)
    ensures LowerChar(r) == LowerChar(c) && (r != c ==> IsLetter(c))
  {
    if !IsLetter(c) then c
    else if lower then LowerChar(c)
    else if IsLower(c) then c - 32 else c
  }

  function MixedAt(b: Octets, from: nat, to: nat, coins: Coins, i: nat): byte
    requires i < |b|
  {
    if from <= i < to then Mixed(b[i], coins(i)) else b[i]
  }

  /** A stretch of the buffer mixed: at most up to its end. */
  function MixRange(b: Octets, from: nat, to: nat, coins: Coins): (r: Octets)
    ensures |r| == |b|
    ensures forall i: nat :: i < |b| ==> r[i] == MixedAt(b, from, to, coins, i)
  {
    seq(|b|, i requires 0 <= i < |b| => MixedAt(b, from, to, coins, i))
  }

  /** The walk over one name, mixing label after label. */
  function MixName(b: Octets, pos: nat, coins: Coins): (r: Octets)
    ensures |r| == |b|
    decreases |b| - pos
  {
    if pos >= |b| || b[pos] == 0 || b[pos] >= 192 then b
    else
      var next := pos + 1 + b[pos];
      MixName(MixRange(b, pos + 1, next, coins), next, coins)
  }

  /** Where that walk ends. */
  function WalkEnd(b: Octets, pos: nat): (r: nat)
    ensures r >= pos
    decreases |b| - pos
  {
    if pos >= |b| then pos
    else if b[pos] == 0 then pos + 1
    else if b[pos] >= 192 then pos + 2
    else WalkEnd(b, pos + 1 + b[pos])
  }

  function NextQuestion(b: Octets, pos: nat): (r: nat)
    ensures r >= pos
  {
    if WalkEnd(b, pos) + 4 <= |b| then WalkEnd(b, pos) + 4 else WalkEnd(b, pos)
  }

  function MixQuestions(b: Octets, pos: nat, n: nat, coins: Coins): (r: Octets)
    ensures |r| == |b|
    decreases n
  {
    if n == 0 then b else MixQuestions(MixName(b, pos, coins), NextQuestion(b, pos), n - 1, coins)
  }

  function Mix(b: Octets, coins: Coins): (r: Octets)
    ensures |r| == |b|
  {
    if |b| < 12 then b else MixQuestions(b, 12, U16(b, 4), coins)
  }

  function Names(qs: seq<Question>): (r: seq<Name>)
    ensures |r| == |qs|
    ensures forall i :: 0 <= i < |qs| ==> r[i] == qs[i].name
  {
    seq(|qs|, i requires 0 <= i < |qs| => qs[i].name)
  }

  // ---------------------------------------------------------------- the loops in place

  method MixLabel(query: array<byte>, start: nat, len: nat, coins: Coins)
    modifies query
    ensures query[..] == MixRange(old(query[..]), start, start + len, coins)
  {
    var j := 0;
    while j < len && start + j < query.Length
      invariant 0 <= j <= len
      invariant forall k :: 0 <= k < query.Length ==>
                  query[k] == if start <= k < start + j then Mixed(old(query[k]), coins(k)) else old(query[k])
    {
      query[start + j] := Mixed(query[start + j], coins(start + j));
      j := j + 1;
    }
  }

  method MixOneName(query: array<byte>, start: nat, coins: Coins) returns (offset: nat)
    modifies query
    ensures query[..] == MixName(old(query[..]), start, coins)
    ensures offset == WalkEnd(old(query[..]), start)
  {
    hide MixRange;
    offset := start;
    while offset < query.Length
      invariant MixName(query[..], offset, coins) == MixName(old(query[..]), start, coins)
      invariant WalkEnd(query[..], offset) == WalkEnd(old(query[..]), start)
      decreases query.Length - offset
    {
      var len := query[offset];
      if len == 0 { offset := offset + 1; break; }
      if len >= 192 { offset := offset + 2; break; }
      ghost var b := query[..];
      MixLabel(query, offset + 1, len, coins);
      WalkIgnoresPrefix(b, query[..], offset + 1 + len);
      offset := offset + 1 + len;
    }
  }

  method Apply0x20(original: Octets, coins: Coins) returns (r: Octets, expected: seq<Name>)
    ensures r == Mix(original, coins)
    ensures expected == if |original| < 12 then [] else Names(QuestionsOf(r))
  {
    hide QuestionsOf, U16, MixName, WalkEnd;
    if |original| < 12 { return original, []; }
    var query := ToBuffer(original);
    var qdcount := U16(original, 4);
    var offset: nat := 12;
    var i := 0;
    while i < qdcount
      invariant fresh(query) && query.Length == |original|
      invariant 0 <= i <= qdcount
      invariant MixQuestions(query[..], offset, qdcount - i, coins) == Mix(original, coins)
    {
      var end := MixOneName(query, offset, coins);
      offset := if end + 4 <= query.Length then end + 4 else end;
      i := i + 1;
    }
    r := query[..];
    var questions := ExtractQuestions(query);
    expected := Names(questions);
  }

  lemma {:induction false} WalkIgnoresPrefix(b: Octets, c: Octets, pos: nat)
    requires |b| == |c| && forall k :: pos <= k < |b| ==> b[k] == c[k]
    ensures WalkEnd(b, pos) == WalkEnd(c, pos)
    decreases |b| - pos
  {
    if pos < |b| && 0 < b[pos] < 192 {
      WalkIgnoresPrefix(b, c, pos + 1 + b[pos]);
    }
  }

  // ---------------------------------------------------------------- every buffer

  /** Nothing before `pos` changes, and no octet changes but for the case of a letter. */
  predicate OnlyCase(b: Octets, c: Octets, pos: nat)
  {
    && |b| == |c|
    && (forall k :: 0 <= k < |b| && k < pos ==> c[k] == b[k])
    && (forall k :: 0 <= k < |b| ==> LowerChar(c[k]) == LowerChar(b[k]))
  }

  lemma {:induction false} NameOnlyCase(b: Octets, pos: nat, coins: Coins)
    ensures OnlyCase(b, MixName(b, pos, coins), pos)
    decreases |b| - pos
  {
    if pos < |b| && 0 < b[pos] < 192 {
      NameOnlyCase(MixRange(b, pos + 1, pos + 1 + b[pos], coins), pos + 1 + b[pos], coins);
    }
  }

  lemma {:induction false} QuestionsOnlyCase(b: Octets, pos: nat, n: nat, coins: Coins)
    ensures OnlyCase(b, MixQuestions(b, pos, n, coins), pos)
    decreases n
  {
    if n > 0 {
      NameOnlyCase(b, pos, coins);
      QuestionsOnlyCase(MixName(b, pos, coins), NextQuestion(b, pos), n - 1, coins);
    }
  }

  /** On every buffer: the length and the header stay, and an octet changes at most by the case of a letter. */
  lemma {:induction false} MixChangesOnlyCase(b: Octets, coins: Coins)
    ensures |Mix(b, coins)| == |b| && Lower(Mix(b, coins)) == Lower(b)
    ensures |b| >= 12 ==> Mix(b, coins)[..12] == b[..12]
  {
    if |b| >= 12 { QuestionsOnlyCase(b, 12, U16(b, 4), coins); }
  }

  // ---------------------------------------------------------------- well-formed queries

  function MixedCharAt(l: Name, start: nat, coins: Coins, i: nat): byte
    requires i < |l|
  {
    Mixed(l[i], coins(start + i))
  }

  function MixedLabel(l: Name, start: nat, coins: Coins): (r: Name)
    ensures |r| == |l| && Lower(r) == Lower(l)
    ensures forall i: nat :: i < |l| ==> r[i] == MixedCharAt(l, start, coins, i)
  {
    seq(|l|, i requires 0 <= i < |l| => MixedCharAt(l, start, coins, i))
  }

  /** The labels of a name at `pos`, each letter given the case of its coin. */
  function MixedLabels(labels: seq<Name>, pos: nat, coins: Coins): (r: seq<Name>)
    ensures |r| == |labels|
    ensures forall i :: 0 <= i < |r| ==> |r[i]| == |labels[i]| && Lower(r[i]) == Lower(labels[i])
  {
    if labels == [] then []
    else [MixedLabel(labels[0], pos + 1, coins)] + MixedLabels(labels[1..], pos + 1 + |labels[0]|, coins)
  }

  function MixedQuestion(q: WireQuestion, pos: nat, coins: Coins): WireQuestion
  {
    q.(labels := MixedLabels(q.labels, pos, coins))
  }

  function MixedSection(qs: seq<WireQuestion>, pos: nat, coins: Coins): (r: seq<WireQuestion>)
    requires AllLegal(qs)
    ensures |r| == |qs|
    ensures AllLegal(r)
  {
    if qs == [] then []
    else
      var next := pos + |EncodeQuestion(qs[0])|;
      [MixedQuestion(qs[0], pos, coins)] + MixedSection(qs[1..], next, coins)
  }

  predicate SameSizes(a: seq<Name>, b: seq<Name>)
  {
    |a| == |b| && forall i :: 0 <= i < |a| ==> |a[i]| == |b[i]|
  }

  /** Same type, class and label sizes. */
  predicate SameShape(a: WireQuestion, b: WireQuestion)
  {
    a.qtype == b.qtype && a.qclass == b.qclass && SameSizes(a.labels, b.labels)
  }

  lemma {:induction false} MixedKeepsShape(qs: seq<WireQuestion>, pos: nat, coins: Coins, i: nat)
    requires AllLegal(qs) && i < |qs|
    ensures SameShape(MixedSection(qs, pos, coins)[i], qs[i])
    decreases i
  {
    hide MixedLabels, EncodeQuestion, SameSizes, EncodeLabels;
    if i > 0 {
      MixedKeepsShape(qs[1..], pos + |EncodeQuestion(qs[0])|, coins, i - 1);
    } else {
      MixedLabelSizes(qs[0].labels, pos, coins);
    }
  }

  lemma {:induction false} MixedLabelSizes(labels: seq<Name>, pos: nat, coins: Coins)
    ensures SameSizes(MixedLabels(labels, pos, coins), labels)
  {
  }

  lemma {:induction false} SameSizesSameLength(a: seq<Name>, b: seq<Name>)
    requires SameSizes(a, b) && LabelsFit(a, 255) && LabelsFit(b, 255)
    ensures |EncodeLabels(a)| == |EncodeLabels(b)|
    decreases |a|
  {
    if a != [] { SameSizesSameLength(a[1..], b[1..]); }
  }

  /** Equal up to `pos` and from `end` on. */
  predicate SameOutside(b: Octets, c: Octets, pos: nat, end: nat)
  {
    |b| == |c| && forall k :: 0 <= k < |b| && (k < pos || k >= end) ==> c[k] == b[k]
  }

  lemma AtOutside(b: Octets, c: Octets, pos: nat, end: nat, at: nat, x: Octets)
    requires SameOutside(b, c, pos, end) && At(b, at, x) && (at >= end || at + |x| <= pos)
    ensures At(c, at, x)
  {
    assert c[at..at + |x|] == b[at..at + |x|];
  }

  lemma LabelInRange(b: Octets, start: nat, l: Name, coins: Coins)
    requires At(b, start, l)
    ensures MixRange(b, start, start + |l|, coins)[start..start + |l|] == MixedLabel(l, start, coins)
  {
    var c := MixRange(b, start, start + |l|, coins)[start..start + |l|];
    forall k: nat | k < |l| ensures c[k] == MixedLabel(l, start, coins)[k] {
      AtIndex(b, start, l, k);
    }
  }

  lemma FirstLabelMixed(b: Octets, pos: nat, labels: seq<Name>, coins: Coins)
    requires labels != [] && WireLabels(labels) && At(b, pos, EncodeLabels(labels))
    ensures var next := pos + 1 + |labels[0]|;
            var c := MixRange(b, pos + 1, next, coins);
            && pos < |b| && b[pos] == |labels[0]|
            && At(c, pos, [|labels[0]|] + MixedLabel(labels[0], pos + 1, coins))
            && At(c, next, EncodeLabels(labels[1..]))
            && SameOutside(b, c, pos, next)
            && next + |EncodeLabels(labels[1..])| == pos + |EncodeLabels(labels)|
            && MixName(b, pos, coins) == MixName(c, next, coins)
            && WalkEnd(b, pos) == WalkEnd(c, next)
  {
    hide MixName, WalkEnd, EncodeLabels, MixRange, MixedLabel;
    TailIsWire(labels);
    FirstLabel(b, pos, labels);
    var l := labels[0];
    var next := pos + 1 + |l|;
    var c := MixRange(b, pos + 1, next, coins);
    assert At(b, pos + 1, l) && pos < |b| && b[pos] == |l| && 0 < |l| < 192;
    hide StepAt, WireLabels, LabelsFit;
    RangeOutside(b, pos + 1, next, coins);
    LabelInRange(b, pos + 1, l, coins);
    WalkStep(b, pos, coins);
    AtOutside(b, c, pos + 1, next, next, EncodeLabels(labels[1..]));
    WalkIgnoresPrefix(b, c, next);
    assert c[pos] == b[pos];
    PrefixedAt(c, pos, MixedLabel(l, pos + 1, coins));
  }

  lemma PrefixedAt(c: Octets, pos: nat, l: Name)
    requires pos + 1 + |l| <= |c| && |l| < 256 && c[pos] == |l| && c[pos + 1..pos + 1 + |l|] == l
    ensures At(c, pos, [|l|] + l)
  {
    var end := pos + 1 + |l|;
    assert c[pos..end] == [c[pos]] + c[pos + 1..end];
  }

  lemma WalkStep(b: Octets, pos: nat, coins: Coins)
    requires pos < |b| && 0 < b[pos] < 192
    ensures var next := pos + 1 + b[pos];
            && MixName(b, pos, coins) == MixName(MixRange(b, pos + 1, next, coins), next, coins)
            && WalkEnd(b, pos) == WalkEnd(b, next)
  {
  }

  lemma RangeOutside(b: Octets, from: nat, to: nat, coins: Coins)
    ensures SameOutside(b, MixRange(b, from, to, coins), from, to)
  {
  }

  lemma {:induction false} NameMixes(b: Octets, pos: nat, labels: seq<Name>, coins: Coins)
    requires WireLabels(labels) && At(b, pos, EncodeLabels(labels))
    ensures var r, end := MixName(b, pos, coins), pos + |EncodeLabels(labels)|;
            && At(r, pos, EncodeLabels(MixedLabels(labels, pos, coins)))
            && SameOutside(b, r, pos, end)
            && WalkEnd(b, pos) == end
    decreases |labels|
  {
    hide *;
    if labels == [] {
      RootMixes(b, pos, coins);
    } else {
      TailIsWire(labels);
      MixedHead(labels, pos, coins);
      var l := labels[0];
      var next, end := pos + 1 + |l|, pos + |EncodeLabels(labels)|;
      var c := MixRange(b, pos + 1, next, coins);
      FirstLabelMixed(b, pos, labels, coins);
      NameMixes(c, next, labels[1..], coins);
      var r, head := MixName(c, next, coins), [|l|] + MixedLabel(l, pos + 1, coins);
      AtOutside(c, r, next, end, pos, head);
      AtAppend(r, pos, head, EncodeLabels(MixedLabels(labels[1..], next, coins)));
      OutsideBoth(b, c, r, pos, next, end);
    }
  }

  lemma RootMixes(b: Octets, pos: nat, coins: Coins)
    requires At(b, pos, EncodeLabels([]))
    ensures EncodeLabels(MixedLabels([], pos, coins)) == EncodeLabels([]) && |EncodeLabels([])| == 1
    ensures MixName(b, pos, coins) == b && WalkEnd(b, pos) == pos + 1 && SameOutside(b, b, pos, pos + 1)
  {
    AtIndex(b, pos, EncodeLabels([]), 0);
  }

  lemma OutsideBoth(b: Octets, c: Octets, r: Octets, pos: nat, mid: nat, end: nat)
    requires SameOutside(b, c, pos, mid) && SameOutside(c, r, mid, end) && pos <= mid <= end
    ensures SameOutside(b, r, pos, end)
  {
  }

  lemma MixedHead(labels: seq<Name>, pos: nat, coins: Coins)
    requires labels != [] && WireLabels(labels)
    ensures LabelsFit(MixedLabels(labels, pos, coins), 255)
    ensures LabelsFit(MixedLabels(labels[1..], pos + 1 + |labels[0]|, coins), 255)
    ensures EncodeLabels(MixedLabels(labels, pos, coins))
         == [|labels[0]|] + MixedLabel(labels[0], pos + 1, coins)
            + EncodeLabels(MixedLabels(labels[1..], pos + 1 + |labels[0]|, coins))
  {
    var mixed, rest := MixedLabels(labels, pos, coins), MixedLabels(labels[1..], pos + 1 + |labels[0]|, coins);
    assert mixed[0] == MixedLabel(labels[0], pos + 1, coins) && mixed[1..] == rest;
  }

  lemma TailIsWire(labels: seq<Name>)
    requires labels != [] && WireLabels(labels)
    ensures WireLabels(labels[1..]) && LabelsFit(labels, 255) && LabelsFit(labels[1..], 255)
  {
  }

  lemma {:induction false} SectionMixes(b: Octets, pos: nat, qs: seq<WireQuestion>, coins: Coins)
    requires AllLegal(qs) && At(b, pos, Section(qs))
    ensures var r, end := MixQuestions(b, pos, |qs|, coins), pos + |Section(qs)|;
            && At(r, pos, Section(MixedSection(qs, pos, coins)))
            && SameOutside(b, r, pos, end)
    decreases |qs|
  {
    hide *;
    if qs != [] {
      UnfoldQuestions(b, pos, |qs|, coins);
      SectionHead(qs, pos, coins);
      var q, rest := qs[0], qs[1..];
      var mixed, next := MixedQuestion(q, pos, coins), pos + |EncodeQuestion(q)|;
      AtAppend(b, pos, EncodeQuestion(q), Section(rest));
      QuestionMixes(b, pos, q, coins);
      var c := MixName(b, pos, coins);
      AtOutside(b, c, pos, next, next, Section(rest));
      AtEnd(b, next, Section(rest));
      SectionMixes(c, next, rest, coins);
      var r := MixQuestions(c, next, |rest|, coins);
      AtOutside(c, r, next, next + |Section(rest)|, pos, EncodeQuestion(mixed));
      AtAppend(r, pos, EncodeQuestion(mixed), Section(MixedSection(rest, next, coins)));
      OutsideBoth(b, c, r, pos, next, next + |Section(rest)|);
    } else {
      NoQuestionsMix(b, pos, coins);
    }
  }

  lemma NoQuestionsMix(b: Octets, pos: nat, coins: Coins)
    requires At(b, pos, Section([]))
    ensures MixedSection([], pos, coins) == [] && Section([]) == []
    ensures MixQuestions(b, pos, 0, coins) == b && SameOutside(b, b, pos, pos)
  {
  }

  lemma UnfoldQuestions(b: Octets, pos: nat, n: nat, coins: Coins)
    requires n > 0
    ensures MixQuestions(b, pos, n, coins)
         == MixQuestions(MixName(b, pos, coins), NextQuestion(b, pos), n - 1, coins)
  {
  }

  lemma SectionHead(qs: seq<WireQuestion>, pos: nat, coins: Coins)
    requires AllLegal(qs) && qs != []
    ensures WireLabels(qs[0].labels) && WireLabels(MixedQuestion(qs[0], pos, coins).labels)
    ensures var next := pos + |EncodeQuestion(qs[0])|;
            && Legal(qs[0]) && AllLegal(qs[1..])
            && Section(qs) == EncodeQuestion(qs[0]) + Section(qs[1..])
            && Legal(MixedQuestion(qs[0], pos, coins))
            && Section(MixedSection(qs, pos, coins))
            == EncodeQuestion(MixedQuestion(qs[0], pos, coins)) + Section(MixedSection(qs[1..], next, coins))
  {
    hide EncodeQuestion, MixedLabels;
    var next := pos + |EncodeQuestion(qs[0])|;
    var all := MixedSection(qs, pos, coins);
    assert Legal(qs[0]) && Legal(all[0]);
    assert all[0] == MixedQuestion(qs[0], pos, coins) && all[1..] == MixedSection(qs[1..], next, coins);
  }

  lemma AtEnd(b: Octets, pos: nat, x: Octets)
    requires At(b, pos, x)
    ensures pos + |x| <= |b|
  {
  }

  lemma MixedParts(q: WireQuestion, pos: nat, coins: Coins)
    requires Legal(q)
    ensures var mixed := MixedQuestion(q, pos, coins);
            && Legal(mixed) && WireLabels(q.labels) && LabelsFit(q.labels, 255)
            && LabelsFit(MixedLabels(q.labels, pos, coins), 255)
            && |EncodeLabels(MixedLabels(q.labels, pos, coins))| == |EncodeLabels(q.labels)|
            && EncodeQuestion(q) == EncodeLabels(q.labels) + Be16(q.qtype) + Be16(q.qclass)
            && EncodeQuestion(mixed)
               == EncodeLabels(MixedLabels(q.labels, pos, coins)) + Be16(q.qtype) + Be16(q.qclass)
  {
    SameSizesSameLength(MixedLabels(q.labels, pos, coins), q.labels);
    hide EncodeLabels, MixedLabels, Be16;
  }

  lemma NextBehind(b: Octets, pos: nat)
    ensures WalkEnd(b, pos) + 4 <= |b| ==> NextQuestion(b, pos) == WalkEnd(b, pos) + 4
  {
    hide WalkEnd;
  }

  lemma QuestionMixes(b: Octets, pos: nat, q: WireQuestion, coins: Coins)
    requires Legal(q) && At(b, pos, EncodeQuestion(q))
    ensures var c, mixed := MixName(b, pos, coins), MixedQuestion(q, pos, coins);
            var next := pos + |EncodeQuestion(q)|;
            && Legal(mixed) && |EncodeQuestion(mixed)| == |EncodeQuestion(q)|
            && At(c, pos, EncodeQuestion(mixed))
            && SameOutside(b, c, pos, next)
            && NextQuestion(b, pos) == next
  {
    hide *;
    MixedParts(q, pos, coins);
    var name, mixedName := EncodeLabels(q.labels), EncodeLabels(MixedLabels(q.labels, pos, coins));
    var c, end := MixName(b, pos, coins), pos + |name|;
    AtEnd(b, pos, EncodeQuestion(q));
    NextBehind(b, pos);
    AtAppend(b, pos, name + Be16(q.qtype), Be16(q.qclass));
    AtAppend(b, pos, name, Be16(q.qtype));
    NameMixes(b, pos, q.labels, coins);
    AtOutside(b, c, pos, end, end, Be16(q.qtype));
    AtOutside(b, c, pos, end, end + 2, Be16(q.qclass));
    AtAppend(c, pos, mixedName, Be16(q.qtype));
    AtAppend(c, pos, mixedName + Be16(q.qtype), Be16(q.qclass));
    WiderOutside(b, c, pos, end, end + 4);
  }

  lemma {:induction false} WiderOutside(b: Octets, c: Octets, pos: nat, end: nat, next: nat)
    requires SameOutside(b, c, pos, end) && end <= next
    ensures SameOutside(b, c, pos, next)
  {
  }

  /** A query as RFC 1035 lays it out: uncompressed questions right after the header. */
  ghost predicate WellFormed(b: Octets, qs: seq<WireQuestion>)
  {
    && |b| >= 12 && U16(b, 4) == |qs|
    && AllLegal(qs) && At(b, 12, Section(qs))
  }

  /** On a well-formed query only letters inside labels change; label lengths, types, classes and all that follows stay,
      and the names the handler expects are the mixed names. */
  lemma {:induction false} MixKeepsStructure(b: Octets, qs: seq<WireQuestion>, coins: Coins)
    requires WellFormed(b, qs)
    ensures var r, mixed := Mix(b, coins), MixedSection(qs, 12, coins);
            && WellFormed(r, mixed)
            && SameOutside(b, r, 12, 12 + |Section(qs)|)
            && (forall i :: 0 <= i < |qs| ==> SameShape(mixed[i], qs[i]))
            && Names(QuestionsOf(r)) == Names(ReadBack(mixed, 12))
  {
    forall i | 0 <= i < |qs| ensures SameShape(MixedSection(qs, 12, coins)[i], qs[i]) {
      MixedKeepsShape(qs, 12, coins, i);
    }
    hide At, Section, MixedSection, QuestionsFrom, MixQuestions, AllLegal, ReadBack, SameShape;
    SectionMixes(b, 12, qs, coins);
    var r := Mix(b, coins);
    assert r[4] == b[4] && r[5] == b[5];
    SectionReadsBack(r, 12, MixedSection(qs, 12, coins));
  }

  // ---------------------------------------------------------------- the echo check

  /** forwardUdpQuery's test: as many questions as expected, each name equal octet for octet. */
  predicate NameCheck(expected: seq<Name>, msg: Octets)
    requires |msg| >= 12
  {
    var qs := QuestionsOf(msg);
    |expected| == |qs| && forall i :: 0 <= i < |expected| ==> qs[i].name == expected[i]
  }

  method Valid0x20(expected: seq<Name>, msg: array<byte>) returns (valid: bool)
    requires msg.Length >= 12
    ensures valid == NameCheck(expected, msg[..])
  {
    var questions := ExtractQuestions(msg);
    valid := |expected| == |questions|;
    var i := 0;
    while i < |expected|
      invariant 0 <= i <= |expected|
      invariant valid == (|expected| == |questions|)
      invariant valid ==> forall j :: 0 <= j < i ==> questions[j].name == expected[j]
    {
      if i >= |questions| || questions[i].name != expected[i] {
        valid := false;
        break;
      }
      i := i + 1;
    }
  }

  lemma {:induction false} JoinTellsApart(a: seq<Name>, b: seq<Name>)
    requires SameSizes(a, b) && Join(a) == Join(b)
    ensures a == b
    decreases |a|
  {
    if |a| == 1 {
      assert a == [a[0]] && b == [b[0]];
    } else if |a| > 1 {
      var n := |a[0]|;
      assert Join(a)[..n] == a[0] && Join(b)[..n] == b[0];
      assert Join(a)[n + 1..] == Join(a[1..]) && Join(b)[n + 1..] == Join(b[1..]);
      JoinTellsApart(a[1..], b[1..]);
      assert a == [a[0]] + a[1..] && b == [b[0]] + b[1..];
    }
  }

  lemma {:induction false} NameOf(qs: seq<WireQuestion>, pos: nat, i: nat)
    requires AllLegal(qs) && i < |qs|
    ensures Names(ReadBack(qs, pos))[i] == Join(qs[i].labels)
  {
  }

  /** A response with any well-formed question section passes the check if and only if it asks as many questions and
      each joined name is the mixed one, octet for octet. */
  lemma {:induction false} EchoCheckComparesNames(
    b: Octets, qs: seq<WireQuestion>, coins: Coins, msg: Octets, echo: seq<WireQuestion>)
    requires WellFormed(b, qs) && WellFormed(msg, echo)
    ensures NameCheck(Names(QuestionsOf(Mix(b, coins))), msg)
            <==> && |echo| == |qs|
                 && forall i :: 0 <= i < |qs| ==> Join(echo[i].labels) == Join(MixedSection(qs, 12, coins)[i].labels)
  {
    var mixed := MixedSection(qs, 12, coins);
    MixKeepsStructure(b, qs, coins);
    SectionReadsBack(msg, 12, echo);
    var expected := Names(QuestionsOf(Mix(b, coins)));
    hide At, Section, MixedSection, QuestionsFrom, MixQuestions, Mix, AllLegal, Join, U16, ReadBack;
    assert QuestionsOf(msg) == ReadBack(echo, 12) && expected == Names(ReadBack(mixed, 12));
    forall i | 0 <= i < |qs| ensures expected[i] == Join(mixed[i].labels) { NameOf(mixed, 12, i); }
    forall i | 0 <= i < |echo| ensures QuestionsOf(msg)[i].name == Join(echo[i].labels) { NameOf(echo, 12, i); }
  }

  predicate DotlessQuestions(qs: seq<WireQuestion>)
  {
    forall i :: 0 <= i < |qs| ==> Dotless(qs[i].labels)
  }

  lemma {:induction false} DotlessJoinTellsApart(a: seq<Name>, b: seq<Name>)
    requires WireLabels(a) && WireLabels(b) && Dotless(a) && Dotless(b)
    ensures Join(a) == Join(b) <==> a == b
  {
    JoinIsEmpty(a);
    JoinIsEmpty(b);
    if a != [] && b != [] {
      SplitJoin(a);
      SplitJoin(b);
    }
  }

  lemma {:induction false} JoinIsEmpty(labels: seq<Name>)
    requires WireLabels(labels)
    ensures Join(labels) == [] <==> labels == []
  {
  }

  /** On labels without dots, as every query the mixing is meant for has them: the check passes if and only if every
      label is echoed verbatim, so that any letter whose case differs anywhere makes it fail. */
  lemma {:induction false} EchoCheckIsExact(
    b: Octets, qs: seq<WireQuestion>, coins: Coins, msg: Octets, echo: seq<WireQuestion>)
    requires WellFormed(b, qs) && WellFormed(msg, echo) && DotlessQuestions(qs) && DotlessQuestions(echo)
    ensures NameCheck(Names(QuestionsOf(Mix(b, coins))), msg)
            <==> && |echo| == |qs|
                 && forall i :: 0 <= i < |qs| ==> echo[i].labels == MixedSection(qs, 12, coins)[i].labels
  {
    var mixed := MixedSection(qs, 12, coins);
    EchoCheckComparesNames(b, qs, coins, msg, echo);
    if |echo| == |qs| {
      forall i | 0 <= i < |qs|
        ensures Join(echo[i].labels) == Join(mixed[i].labels) <==> echo[i].labels == mixed[i].labels
      {
        assert Legal(echo[i]) && Legal(mixed[i]) && Dotless(echo[i].labels);
        MixedStaysDotless(qs, 12, coins, i);
        hide Join, MixedSection, WellFormed;
        DotlessJoinTellsApart(echo[i].labels, mixed[i].labels);
      }
    }
  }

  /** Where labels contain dots the sizes still pin the labels down. */
  lemma {:induction false} EchoOfSameShapeIsExact(
    b: Octets, qs: seq<WireQuestion>, coins: Coins, msg: Octets, echo: seq<WireQuestion>)
    requires WellFormed(b, qs) && WellFormed(msg, echo)
    requires |echo| == |qs| && forall i :: 0 <= i < |qs| ==> SameSizes(echo[i].labels, qs[i].labels)
    ensures NameCheck(Names(QuestionsOf(Mix(b, coins))), msg)
            <==> forall i :: 0 <= i < |qs| ==> echo[i].labels == MixedSection(qs, 12, coins)[i].labels
  {
    var mixed := MixedSection(qs, 12, coins);
    EchoCheckComparesNames(b, qs, coins, msg, echo);
    forall i | 0 <= i < |qs|
      ensures Join(echo[i].labels) == Join(mixed[i].labels) <==> echo[i].labels == mixed[i].labels
    {
      MixedKeepsShape(qs, 12, coins, i);
      if Join(echo[i].labels) == Join(mixed[i].labels) { JoinTellsApart(echo[i].labels, mixed[i].labels); }
    }
  }

  lemma {:induction false} MixedLabelsStayDotless(labels: seq<Name>, pos: nat, coins: Coins)
    requires Dotless(labels)
    ensures Dotless(MixedLabels(labels, pos, coins))
  {
    if labels != [] {
      MixedLabelsStayDotless(labels[1..], pos + 1 + |labels[0]|, coins);
      var l := MixedLabel(labels[0], pos + 1, coins);
      assert NoDot(labels[0]);
      assert forall i: nat :: i < |l| ==> l[i] == MixedCharAt(labels[0], pos + 1, coins, i);
      assert NoDot(l);
      assert forall i :: 0 < i < |labels| ==>
        MixedLabels(labels, pos, coins)[i] == MixedLabels(labels[1..], pos + 1 + |labels[0]|, coins)[i - 1];
    }
  }

  lemma {:induction false} MixedStaysDotless(qs: seq<WireQuestion>, pos: nat, coins: Coins, i: nat)
    requires AllLegal(qs) && DotlessQuestions(qs) && i < |qs|
    ensures Dotless(MixedSection(qs, pos, coins)[i].labels)
    decreases i
  {
    SectionTail(qs, pos, coins);
    hide *;
    if i == 0 {
      MixedLabelsStayDotless(qs[0].labels, pos, coins);
    } else {
      MixedStaysDotless(qs[1..], pos + |EncodeQuestion(qs[0])|, coins, i - 1);
      OneFurther(MixedSection(qs, pos, coins), i);
    }
  }

  lemma {:induction false} OneFurther(qs: seq<WireQuestion>, i: nat)
    requires 0 < i < |qs|
    ensures qs[i] == qs[1..][i - 1]
  {
  }

  lemma {:induction false} SectionTail(qs: seq<WireQuestion>, pos: nat, coins: Coins)
    requires AllLegal(qs) && qs != []
    ensures AllLegal(qs[1..]) && WireLabels(qs[0].labels)
    ensures DotlessQuestions(qs) ==> DotlessQuestions(qs[1..]) && Dotless(qs[0].labels)
    ensures MixedSection(qs, pos, coins)[0].labels == MixedLabels(qs[0].labels, pos, coins)
    ensures |MixedSection(qs, pos, coins)| == |qs|
    ensures MixedSection(qs, pos, coins)[1..] == MixedSection(qs[1..], pos + |EncodeQuestion(qs[0])|, coins)
  {
    hide MixedLabels, EncodeQuestion, Dotless;
    assert Legal(qs[0]);
  }

  // ---------------------------------------------------------------- octets and coins

  /** Offset `p` holds an octet of one of the labels of the name at `pos`. */
  predicate InLabels(labels: seq<Name>, pos: nat, p: nat)
    decreases |labels|
  {
    labels != [] && (pos < p <= pos + |labels[0]| || InLabels(labels[1..], pos + 1 + |labels[0]|, p))
  }

  predicate InNames(qs: seq<WireQuestion>, pos: nat, p: nat)
    requires AllLegal(qs)
    decreases |qs|
  {
    qs != [] && (InLabels(qs[0].labels, pos, p) || InNames(qs[1..], pos + |EncodeQuestion(qs[0])|, p))
  }

  lemma {:induction false} LabelsSpan(labels: seq<Name>, pos: nat, p: nat)
    requires WireLabels(labels) && InLabels(labels, pos, p)
    ensures pos < p < pos + |EncodeLabels(labels)|
    decreases |labels|
  {
    if !(pos < p <= pos + |labels[0]|) { LabelsSpan(labels[1..], pos + 1 + |labels[0]|, p); }
  }

  lemma {:induction false} NamesSpan(qs: seq<WireQuestion>, pos: nat, p: nat)
    requires AllLegal(qs) && InNames(qs, pos, p)
    ensures pos < p < pos + |Section(qs)|
    decreases |qs|
  {
    SectionTail(qs, pos, _ => true);
    if InLabels(qs[0].labels, pos, p) {
      LabelsSpan(qs[0].labels, pos, p);
    } else {
      NamesSpan(qs[1..], pos + |EncodeQuestion(qs[0])|, p);
    }
  }

  /** What mixing makes of one octet. */
  function MixedIf(inside: bool, c: byte, coin: bool): byte
  {
    if inside then Mixed(c, coin) else c
  }

  lemma {:induction false} NameLetters(b: Octets, pos: nat, labels: seq<Name>, coins: Coins, p: nat)
    requires WireLabels(labels) && At(b, pos, EncodeLabels(labels)) && p < |b|
    ensures MixName(b, pos, coins)[p] == MixedIf(InLabels(labels, pos, p), b[p], coins(p))
    decreases |labels|
  {
    if labels == [] {
      FirstLabel(b, pos, labels);
    } else {
      FirstLabelMixed(b, pos, labels, coins);
      TailIsWire(labels);
      var next := pos + 1 + |labels[0]|;
      var c := MixRange(b, pos + 1, next, coins);
      assert c[p] == MixedAt(b, pos + 1, next, coins, p);
      NameLetters(c, next, labels[1..], coins, p);
      hide MixName, MixRange, EncodeLabels, At, WalkEnd, Mixed, WireLabels;
      if InLabels(labels[1..], next, p) { LabelsSpan(labels[1..], next, p); }
    }
  }

  lemma {:induction false} SectionLetters(b: Octets, pos: nat, qs: seq<WireQuestion>, coins: Coins, p: nat)
    requires AllLegal(qs) && At(b, pos, Section(qs)) && p < |b|
    ensures MixQuestions(b, pos, |qs|, coins)[p] == MixedIf(InNames(qs, pos, p), b[p], coins(p))
    decreases |qs|
  {
    hide *;
    if qs == [] {
      NoQuestionsMix(b, pos, coins);
      NoNames(pos, p, b[p], coins(p));
    } else {
      NamesHead(qs, pos, p);
      var next := pos + |EncodeQuestion(qs[0])|;
      QuestionLetters(b, pos, qs, coins, p);
      UnfoldQuestions(b, pos, |qs|, coins);
      if InNames(qs[1..], next, p) { NamesSpan(qs[1..], next, p); }
      MixedTwice(InLabels(qs[0].labels, pos, p), InNames(qs[1..], next, p), b[p], coins(p));
      SectionLetters(MixName(b, pos, coins), next, qs[1..], coins, p);
    }
  }

  lemma NoNames(pos: nat, p: nat, c: byte, coin: bool)
    ensures AllLegal([]) && !InNames([], pos, p) && MixedIf(false, c, coin) == c
  {
  }

  lemma NamesHead(qs: seq<WireQuestion>, pos: nat, p: nat)
    requires AllLegal(qs) && qs != []
    ensures Legal(qs[0]) && WireLabels(qs[0].labels) && AllLegal(qs[1..])
    ensures InNames(qs, pos, p)
            == (InLabels(qs[0].labels, pos, p) || InNames(qs[1..], pos + |EncodeQuestion(qs[0])|, p))
  {
    hide EncodeQuestion, InLabels;
    assert Legal(qs[0]);
  }

  /** Mixing an octet for one question or for a later one. */
  lemma MixedTwice(first: bool, later: bool, c: byte, coin: bool)
    requires !(first && later)
    ensures MixedIf(later, MixedIf(first, c, coin), coin) == MixedIf(first || later, c, coin)
  {
  }

  /** The step over the first question. */
  lemma QuestionLetters(b: Octets, pos: nat, qs: seq<WireQuestion>, coins: Coins, p: nat)
    requires AllLegal(qs) && qs != [] && At(b, pos, Section(qs)) && p < |b|
    ensures AllLegal(qs[1..]) && Legal(qs[0])
    ensures var c, next := MixName(b, pos, coins), pos + |EncodeQuestion(qs[0])|;
            && At(c, next, Section(qs[1..])) && NextQuestion(b, pos) == next
            && c[p] == MixedIf(InLabels(qs[0].labels, pos, p), b[p], coins(p))
            && (InLabels(qs[0].labels, pos, p) ==> p < next)
  {
    hide *;
    SectionHead(qs, pos, coins);
    var q, next := qs[0], pos + |EncodeQuestion(qs[0])|;
    AtAppend(b, pos, EncodeQuestion(q), Section(qs[1..]));
    QuestionMixes(b, pos, q, coins);
    NameStands(b, pos, q);
    NameLetters(b, pos, q.labels, coins, p);
    AtOutside(b, MixName(b, pos, coins), pos, next, next, Section(qs[1..]));
    if InLabels(q.labels, pos, p) { LabelsSpan(q.labels, pos, p); }
  }

  lemma NameStands(b: Octets, pos: nat, q: WireQuestion)
    requires Legal(q) && At(b, pos, EncodeQuestion(q))
    ensures WireLabels(q.labels) && LabelsFit(q.labels, 255)
    ensures At(b, pos, EncodeLabels(q.labels)) && |EncodeLabels(q.labels)| <= |EncodeQuestion(q)|
  {
    var name := EncodeLabels(q.labels);
    assert EncodeQuestion(q) == name + Be16(q.qtype) + Be16(q.qclass);
    hide EncodeLabels, At;
    AtAppend(b, pos, name + Be16(q.qtype), Be16(q.qclass));
    AtAppend(b, pos, name, Be16(q.qtype));
  }

  /** Octet by octet: on a well-formed query every letter of a label takes the case its coin says, and nothing else
      changes. */
  lemma {:induction false} MixFollowsCoins(b: Octets, qs: seq<WireQuestion>, coins: Coins, p: nat)
    requires WellFormed(b, qs) && p < |b|
    ensures var was, r := b[p], Mix(b, coins)[p];
            if InNames(qs, 12, p) && AsciiLetter(was)
            then r % 32 == was % 32 && (if coins(p) then 97 <= r <= 122 else 65 <= r <= 90)
            else r == was
  {
    SectionLetters(b, 12, qs, coins, p);
    assert Mix(b, coins) == MixQuestions(b, 12, |qs|, coins);
    hide *;
    MixedOctet(InNames(qs, 12, p), b[p], coins(p));
  }

  lemma MixedOctet(inside: bool, was: byte, coin: bool)
    ensures var r := MixedIf(inside, was, coin);
            if inside && AsciiLetter(was)
            then r % 32 == was % 32 && (if coin then 97 <= r <= 122 else 65 <= r <= 90)
            else r == was
  {
  }

  // ---------------------------------------------------------------- compressed and cut questions

  /** What ends the labels of a name in place: the empty label, or a compression pointer. */
  predicate IsEnd(end: Octets)
  {
    end == [0] || (|end| == 2 && end[0] >= 192)
  }

  /** A name in place: its labels, which the walk takes up to 191 octets long, and what ends them. */
  datatype PlacedName = PlacedName(labels: seq<Name>, end: Octets)

  predicate Placeable(n: PlacedName)
  {
    IsEnd(n.end) && forall i :: 0 <= i < |n.labels| ==> 1 <= |n.labels[i]| <= 191
  }

  function Placed(n: PlacedName): Octets
    requires Placeable(n)
  {
    Labels(n.labels) + n.end
  }

  /** Where the next name is looked for: behind type and class, or right behind a name the packet ends after. */
  function Behind(b: Octets, end: nat): nat
  {
    if end + 4 <= |b| then end + 4 else end
  }

  /** These names stand one after the other from `pos` on. */
  predicate Stand(b: Octets, pos: nat, ns: seq<PlacedName>)
    decreases |ns|
  {
    ns != [] ==>
      && Placeable(ns[0]) && At(b, pos, Placed(ns[0]))
      && Stand(b, Behind(b, pos + |Placed(ns[0])|), ns[1..])
  }

  /** Offset `p` holds an octet of a label of one of the names. */
  predicate InPlaced(b: Octets, pos: nat, ns: seq<PlacedName>, p: nat)
    requires Stand(b, pos, ns)
    decreases |ns|
  {
    ns != [] && (InLabels(ns[0].labels, pos, p) || InPlaced(b, Behind(b, pos + |Placed(ns[0])|), ns[1..], p))
  }

  lemma EndStops(b: Octets, pos: nat, end: Octets, coins: Coins)
    requires IsEnd(end) && At(b, pos, end)
    ensures MixName(b, pos, coins) == b && WalkEnd(b, pos) == pos + |end|
  {
    AtIndex(b, pos, end, 0);
  }

  lemma PlacedParts(n: PlacedName)
    requires Placeable(n) && n.labels != []
    ensures var l, rest := n.labels[0], n.(labels := n.labels[1..]);
            && 1 <= |l| <= 191 && Placeable(rest)
            && Placed(n) == [|l|] + (l + Placed(rest)) && |Placed(n)| == 1 + |l| + |Placed(rest)|
  {
    var tail := Labels(n.labels[1..]);
    assert Labels(n.labels) + n.end == [|n.labels[0]|] + (n.labels[0] + (tail + n.end));
  }

  lemma ThreeParts(b: Octets, pos: nat, c: byte, l: Octets, tail: Octets)
    requires At(b, pos, [c] + (l + tail))
    ensures At(b, pos, [c]) && At(b, pos + 1 + |l|, tail) && pos + 1 + |l| <= |b|
  {
    AtAppend(b, pos, [c], l + tail);
    AtAppend(b, pos + 1, l, tail);
  }

  lemma OneLabelWalks(b: Octets, pos: nat, n: PlacedName, coins: Coins)
    requires Placeable(n) && n.labels != [] && At(b, pos, Placed(n))
    ensures var l, rest := n.labels[0], n.(labels := n.labels[1..]);
            var next := pos + 1 + |l|;
            && Placeable(rest) && next + |Placed(rest)| == pos + |Placed(n)| && next <= |b|
            && At(b, next, Placed(rest))
            && MixName(b, pos, coins) == MixName(MixRange(b, pos + 1, next, coins), next, coins)
            && WalkEnd(b, pos) == WalkEnd(b, next)
  {
    var l, rest := n.labels[0], n.(labels := n.labels[1..]);
    hide *;
    PlacedParts(n);
    ThreeParts(b, pos, |l|, l, Placed(rest));
    LabelIsWalked(b, pos, |l|, coins);
  }

  lemma LabelIsWalked(b: Octets, pos: nat, n: nat, coins: Coins)
    requires 1 <= n <= 191 && At(b, pos, [n]) && pos + 1 + n <= |b|
    ensures MixName(b, pos, coins) == MixName(MixRange(b, pos + 1, pos + 1 + n, coins), pos + 1 + n, coins)
    ensures WalkEnd(b, pos) == WalkEnd(b, pos + 1 + n)
  {
    AtIndex(b, pos, [n], 0);
  }

  lemma {:induction false} LabelsLiePast(labels: seq<Name>, pos: nat, p: nat)
    requires (forall i :: 0 <= i < |labels| ==> 1 <= |labels[i]| <= 191) && InLabels(labels, pos, p)
    ensures pos < p < pos + |Labels(labels)|
    decreases |labels|
  {
    assert |Labels(labels)| == 1 + |labels[0]| + |Labels(labels[1..])|;
    if !(pos < p <= pos + |labels[0]|) { LabelsLiePast(labels[1..], pos + 1 + |labels[0]|, p); }
  }

  /** Octets from `pos` on are the same. */
  predicate SameFrom(b: Octets, c: Octets, pos: nat)
  {
    |b| == |c| && forall i :: pos <= i < |b| ==> b[i] == c[i]
  }

  lemma SameFromAt(b: Octets, c: Octets, pos: nat, at: nat, x: Octets)
    requires SameFrom(b, c, pos) && at >= pos && At(b, at, x)
    ensures At(c, at, x)
  {
  }

  lemma RangeKeepsRest(b: Octets, from: nat, to: nat, coins: Coins)
    ensures SameFrom(b, MixRange(b, from, to, coins), to)
  {
  }

  lemma NoLabelsLeft(b: Octets, pos: nat, n: PlacedName, coins: Coins, p: nat)
    requires Placeable(n) && n.labels == [] && At(b, pos, Placed(n)) && p < |b|
    ensures MixName(b, pos, coins) == b && WalkEnd(b, pos) == pos + |Placed(n)|
    ensures !InLabels(n.labels, pos, p) && MixedIf(false, b[p], coins(p)) == b[p]
  {
    assert Labels([]) + n.end == n.end;
    EndStops(b, pos, n.end, coins);
  }

  /** One octet after the first label has been mixed. */
  lemma FirstLabelLetter(b: Octets, pos: nat, labels: seq<Name>, coins: Coins, p: nat)
    requires labels != [] && p < |b|
    ensures var next := pos + 1 + |labels[0]|;
            && MixRange(b, pos + 1, next, coins)[p] == MixedIf(pos < p < next, b[p], coins(p))
            && InLabels(labels, pos, p) == (pos < p < next || InLabels(labels[1..], next, p))
  {
    assert MixRange(b, pos + 1, pos + 1 + |labels[0]|, coins)[p]
        == MixedAt(b, pos + 1, pos + 1 + |labels[0]|, coins, p);
  }

  lemma {:induction false} PlacedLetters(b: Octets, pos: nat, n: PlacedName, coins: Coins, p: nat)
    requires Placeable(n) && At(b, pos, Placed(n)) && p < |b|
    ensures MixName(b, pos, coins)[p] == MixedIf(InLabels(n.labels, pos, p), b[p], coins(p))
    ensures WalkEnd(b, pos) == pos + |Placed(n)|
    decreases |n.labels|
  {
    hide *;
    if n.labels == [] {
      NoLabelsLeft(b, pos, n, coins, p);
    } else {
      OneLabelWalks(b, pos, n, coins);
      var rest, next := n.(labels := n.labels[1..]), pos + 1 + |n.labels[0]|;
      var c := MixRange(b, pos + 1, next, coins);
      FirstLabelLetter(b, pos, n.labels, coins, p);
      RangeKeepsRest(b, pos + 1, next, coins);
      SameFromAt(b, c, next, next, Placed(rest));
      PlacedLetters(c, next, rest, coins, p);
      SameWalk(b, c, next);
      if InLabels(rest.labels, next, p) { RestLiesPast(rest, next, p); }
      MixedTwice(pos < p < next, InLabels(rest.labels, next, p), b[p], coins(p));
    }
  }

  lemma SameWalk(b: Octets, c: Octets, pos: nat)
    requires SameFrom(b, c, pos)
    ensures WalkEnd(b, pos) == WalkEnd(c, pos)
  {
    WalkIgnoresPrefix(b, c, pos);
  }

  lemma RestLiesPast(n: PlacedName, pos: nat, p: nat)
    requires Placeable(n) && InLabels(n.labels, pos, p)
    ensures pos < p < pos + |Placed(n)|
  {
    LabelsLiePast(n.labels, pos, p);
  }

  lemma StandHead(b: Octets, pos: nat, ns: seq<PlacedName>)
    requires Stand(b, pos, ns) && ns != []
    ensures Placeable(ns[0]) && At(b, pos, Placed(ns[0]))
    ensures Stand(b, Behind(b, pos + |Placed(ns[0])|), ns[1..]) && Behind(b, pos + |Placed(ns[0])|) >= pos
  {
  }

  lemma {:induction false} StandsPast(b: Octets, pos: nat, ns: seq<PlacedName>, p: nat)
    requires Stand(b, pos, ns) && InPlaced(b, pos, ns, p)
    ensures p > pos
    decreases |ns|
  {
    hide Placed, Placeable, At;
    if InLabels(ns[0].labels, pos, p) {
      RestLiesPast(ns[0], pos, p);
    } else {
      StandsPast(b, Behind(b, pos + |Placed(ns[0])|), ns[1..], p);
    }
  }

  /** Names further on stand where they stood when nothing from there on has changed, and hold the same offsets. */
  lemma {:induction false} StandStill(b: Octets, c: Octets, pos: nat, ns: seq<PlacedName>, p: nat)
    requires Stand(b, pos, ns) && SameFrom(b, c, pos)
    ensures Stand(c, pos, ns) && InPlaced(b, pos, ns, p) == InPlaced(c, pos, ns, p)
    decreases |ns|
  {
    hide Placed, Placeable, At, InLabels;
    if ns != [] {
      var next := Behind(b, pos + |Placed(ns[0])|);
      SameFromAt(b, c, pos, pos, Placed(ns[0]));
      StandStill(b, c, next, ns[1..], p);
    }
  }

  /** The step over the first name. */
  lemma FirstNameMixes(b: Octets, pos: nat, ns: seq<PlacedName>, coins: Coins, p: nat)
    requires Stand(b, pos, ns) && ns != [] && p < |b|
    ensures var c, next := MixName(b, pos, coins), Behind(b, pos + |Placed(ns[0])|);
            && NextQuestion(b, pos) == next
            && SameFrom(b, c, next)
            && c[p] == MixedIf(InLabels(ns[0].labels, pos, p), b[p], coins(p))
            && (InLabels(ns[0].labels, pos, p) ==> p < next)
  {
    hide MixName, InLabels, Placed, WalkEnd, Stand, Placeable, At;
    StandHead(b, pos, ns);
    PlacedLetters(b, pos, ns[0], coins, p);
    var c, next := MixName(b, pos, coins), Behind(b, pos + |Placed(ns[0])|);
    forall i | next <= i < |b| ensures c[i] == b[i] {
      PlacedLetters(b, pos, ns[0], coins, i);
      if InLabels(ns[0].labels, pos, i) { RestLiesPast(ns[0], pos, i); }
    }
    if InLabels(ns[0].labels, pos, p) { RestLiesPast(ns[0], pos, p); }
  }

  lemma {:induction false} PlacedQuestionsMix(b: Octets, pos: nat, ns: seq<PlacedName>, coins: Coins, p: nat)
    requires Stand(b, pos, ns) && p < |b|
    ensures MixQuestions(b, pos, |ns|, coins)[p] == MixedIf(InPlaced(b, pos, ns, p), b[p], coins(p))
    decreases |ns|
  {
    if ns != [] {
      StandHead(b, pos, ns);
      UnfoldQuestions(b, pos, |ns|, coins);
      InPlacedHead(b, pos, ns, p);
      hide *;
      FirstNameMixes(b, pos, ns, coins, p);
      var c, next := MixName(b, pos, coins), Behind(b, pos + |Placed(ns[0])|);
      StandStill(b, c, next, ns[1..], p);
      PlacedQuestionsMix(c, next, ns[1..], coins, p);
      if InPlaced(b, next, ns[1..], p) { StandsPast(b, next, ns[1..], p); }
      MixedTwice(InLabels(ns[0].labels, pos, p), InPlaced(b, next, ns[1..], p), b[p], coins(p));
    }
  }

  lemma InPlacedHead(b: Octets, pos: nat, ns: seq<PlacedName>, p: nat)
    requires Stand(b, pos, ns) && ns != []
    ensures var next := Behind(b, pos + |Placed(ns[0])|);
            InPlaced(b, pos, ns, p) == (InLabels(ns[0].labels, pos, p) || InPlaced(b, next, ns[1..], p))
  {
  }

  /** The same for names that end in a compression pointer, of labels up to 191 octets, and in a packet that ends before
      the type and class of a question: exactly the letters of the labels in place follow their coins. */
  lemma {:induction false} MixFollowsCoinsInPlace(b: Octets, ns: seq<PlacedName>, coins: Coins, p: nat)
    requires |b| >= 12 && U16(b, 4) == |ns| && Stand(b, 12, ns) && p < |b|
    ensures var was, r := b[p], Mix(b, coins)[p];
            if InPlaced(b, 12, ns, p) && AsciiLetter(was)
            then r % 32 == was % 32 && (if coins(p) then 97 <= r <= 122 else 65 <= r <= 90)
            else r == was
  {
    PlacedQuestionsMix(b, 12, ns, coins, p);
    assert Mix(b, coins) == MixQuestions(b, 12, |ns|, coins);
    hide *;
    MixedOctet(InPlaced(b, 12, ns, p), b[p], coins(p));
  }

  /** Coins that differ at one letter give different queries, and a response that echoes the one verbatim fails the
      check of the other. */
  lemma {:induction false} OtherCoinsFail(
    b: Octets, qs: seq<WireQuestion>, coins: Coins, others: Coins, p: nat, msg: Octets)
    requires WellFormed(b, qs) && p < |b|
    requires InNames(qs, 12, p) && AsciiLetter(b[p]) && coins(p) != others(p)
    requires |msg| >= 12 && U16(msg, 4) == U16(b, 4)
    requires 12 + |Section(qs)| <= |b| && At(msg, 12, Mix(b, others)[12..12 + |Section(qs)|])
    ensures Mix(b, coins) != Mix(b, others)
    ensures !NameCheck(Names(QuestionsOf(Mix(b, coins))), msg)
  {
    var mine, theirs := MixedSection(qs, 12, coins), MixedSection(qs, 12, others);
    SectionsDiffer(b, qs, coins, others, p);
    EchoIsWellFormed(b, qs, others, p, msg);
    ShapesKept(b, qs, coins);
    ShapesKept(b, qs, others);
    hide *;
    EchoOfSameShapeIsExact(b, qs, coins, msg, theirs);
    LabelsDecide(qs, mine, theirs);
  }

  lemma SectionsDiffer(b: Octets, qs: seq<WireQuestion>, coins: Coins, others: Coins, p: nat)
    requires WellFormed(b, qs) && p < |b|
    requires InNames(qs, 12, p) && AsciiLetter(b[p]) && coins(p) != others(p)
    ensures Mix(b, coins) != Mix(b, others)
    ensures MixedSection(qs, 12, coins) != MixedSection(qs, 12, others)
  {
    hide *;
    MixFollowsCoins(b, qs, coins, p);
    MixFollowsCoins(b, qs, others, p);
    MixedStands(b, qs, coins, p);
    MixedStands(b, qs, others, p);
  }

  lemma EchoIsWellFormed(b: Octets, qs: seq<WireQuestion>, coins: Coins, p: nat, msg: Octets)
    requires WellFormed(b, qs) && p < |b| && InNames(qs, 12, p) && |msg| >= 12 && U16(msg, 4) == U16(b, 4)
    requires 12 + |Section(qs)| <= |b| && At(msg, 12, Mix(b, coins)[12..12 + |Section(qs)|])
    ensures WellFormed(msg, MixedSection(qs, 12, coins))
  {
    MixKeepsStructure(b, qs, coins);
    MixedStands(b, qs, coins, p);
    hide Mix, MixedSection, Section, InNames, At, SameOutside, SameShape, AllLegal;
  }

  lemma ShapesKept(b: Octets, qs: seq<WireQuestion>, coins: Coins)
    requires WellFormed(b, qs)
    ensures var mixed := MixedSection(qs, 12, coins);
            && |mixed| == |qs|
            && forall i :: 0 <= i < |qs| ==> SameShape(mixed[i], qs[i]) && SameSizes(mixed[i].labels, qs[i].labels)
  {
    MixKeepsStructure(b, qs, coins);
    hide Mix, MixedSection, Section, AllLegal, SameOutside, SameSizes, WellFormed;
  }

  lemma LabelsDecide(qs: seq<WireQuestion>, mine: seq<WireQuestion>, theirs: seq<WireQuestion>)
    requires |mine| == |qs| == |theirs|
    requires forall i :: 0 <= i < |qs| ==> SameShape(mine[i], qs[i]) && SameShape(theirs[i], qs[i])
    ensures (forall i :: 0 <= i < |qs| ==> theirs[i].labels == mine[i].labels) ==> theirs == mine
  {
    if forall i :: 0 <= i < |qs| ==> theirs[i].labels == mine[i].labels {
      forall i | 0 <= i < |qs| ensures theirs[i] == mine[i] {
        assert SameShape(theirs[i], qs[i]) && SameShape(mine[i], qs[i]);
      }
    }
  }

  /** The octets of a mixed query's question section. */
  lemma MixedStands(b: Octets, qs: seq<WireQuestion>, coins: Coins, p: nat)
    requires WellFormed(b, qs) && p < |b| && InNames(qs, 12, p)
    ensures var mixed := Section(MixedSection(qs, 12, coins));
            && |mixed| == |Section(qs)| && 12 + |mixed| <= |b|
            && Mix(b, coins)[12..12 + |mixed|] == mixed
            && 12 < p < 12 + |mixed| && Mix(b, coins)[p] == mixed[p - 12]
  {
    NamesSpan(qs, 12, p);
    MixKeepsStructure(b, qs, coins);
    MixedSectionSize(qs, 12, coins);
    hide Mix, MixedSection, Section, AllLegal, InNames, U16;
    var mixed := Section(MixedSection(qs, 12, coins));
    assert Mix(b, coins)[12..12 + |mixed|] == mixed;
    assert Mix(b, coins)[p] == Mix(b, coins)[12..12 + |mixed|][p - 12];
  }

  lemma {:induction false} MixedSectionSize(qs: seq<WireQuestion>, pos: nat, coins: Coins)
    requires AllLegal(qs)
    ensures |Section(MixedSection(qs, pos, coins))| == |Section(qs)|
    decreases |qs|
  {
    hide *;
    if qs != [] {
      SectionHead(qs, pos, coins);
      QuestionSize(qs[0], pos, coins);
      MixedSectionSize(qs[1..], pos + |EncodeQuestion(qs[0])|, coins);
    }
  }

  lemma QuestionSize(q: WireQuestion, pos: nat, coins: Coins)
    requires Legal(q)
    ensures Legal(MixedQuestion(q, pos, coins))
    ensures |EncodeQuestion(MixedQuestion(q, pos, coins))| == |EncodeQuestion(q)|
  {
    MixedParts(q, pos, coins);
    hide EncodeLabels, MixedLabels, EncodeQuestion;
  }
}
