/** The cursor-based encoder and decoder of DNS messages (RFC 1035). */
module WireFormat {
  import opened Bytes
  import opened Text

  const MAX_JUMPS: nat := 5
  const PACKET_SIZE: nat := 4096

  // ---------------------------------------------------------------- names on the wire

  /** The 14-bit target of a compression pointer. */
  function Pointer(b: Octets, pos: nat): nat
    requires pos + 1 < |b|
  {
    (b[pos] % 64) as int * 256 + b[pos + 1]
  }

  /** What the octet at `pos` asks the reader to do. */
  datatype Step = Stop(end: nat) | Jump(target: nat) | Take(size: nat)

  function StepAt(b: Octets, pos: nat): (s: Step)
    ensures s.Take? ==> 1 <= s.size <= 63 && pos + 1 + s.size <= |b|
    ensures s.Jump? ==> pos + 1 < |b|
  {
    if pos >= |b| then Stop(pos)
    else
      var len := b[pos];
      if len == 0 then Stop(pos + 1)
      else if len >= 192 then if pos + 1 >= |b| then Stop(pos + 1) else Jump(Pointer(b, pos))
      else if len > 63 || pos + 1 + len > |b| then Stop(pos + 1)
      else Take(len)
  }

  /** The labels the reader collects from `pos`, having already followed `jumps` pointers. */
  function LabelsAt(b: Octets, pos: nat, jumps: nat): (r: seq<Name>)
    requires jumps <= MAX_JUMPS
    decreases MAX_JUMPS - jumps, |b| - pos
  {
    match StepAt(b, pos)
    case Stop(_) => []
    case Jump(target) => if jumps == MAX_JUMPS then [] else LabelsAt(b, target, jumps + 1)
    case Take(size) => [b[pos + 1..pos + 1 + size]] + LabelsAt(b, pos + 1 + size, jumps)
  }

  /** Where the reader leaves the cursor: after the bytes of the name stored in place. */
  function NameEnd(b: Octets, pos: nat): (r: nat)
    ensures pos < |b| ==> pos < r <= |b|
    ensures pos >= |b| ==> r == pos
    decreases |b| - pos
  {
    match StepAt(b, pos)
    case Stop(end) => end
    case Jump(_) => pos + 2
    case Take(size) => NameEnd(b, pos + 1 + size)
  }

  /** The name readDomainName returns at `pos`. */
  function NameAt(b: Octets, pos: nat): Name
  {
    Join(LabelsAt(b, pos, 0))
  }

  /** Uncompressed encoding of a label list (section 3.1 of RFC 1035). */
  function EncodeLabels(labels: seq<Name>): (r: Octets)
    requires LabelsFit(labels, 255)
    ensures |r| >= 1
  {
    if labels == [] then [0]
    else [|labels[0]|] + labels[0] + EncodeLabels(labels[1..])
  }

  /** The labels writeDomainName writes for a dotted name. */
  function Written(name: Name): seq<Name>
  {
    NonEmpty(Split(Lower(name)))
  }

  predicate Encodable(name: Name)
  {
    LabelsFit(Split(Lower(name)), 255)
  }

  function EncodeName(name: Name): (r: Octets)
    requires Encodable(name)
    ensures |r| >= 1
  {
    EncodeLabels(Written(name))
  }

  // ---------------------------------------------------------------- compression

  /** A valid encoding of `labels` at `pos` that uses exactly `ptrs` compression pointers
      (section 4.1.4 of RFC 1035). It is a relation on bytes, independent of the reader. */
  ghost predicate Encodes(b: Octets, pos: nat, labels: seq<Name>, ptrs: nat)
    decreases |labels| + ptrs
  {
    && pos < |b|
    && (|| (labels == [] && ptrs == 0 && b[pos] == 0)
        || (&& labels != []
            && 1 <= |labels[0]| <= 63
            && b[pos] == |labels[0]|
            && pos + 1 + |labels[0]| <= |b|
            && b[pos + 1..pos + 1 + |labels[0]|] == labels[0]
            && Encodes(b, pos + 1 + |labels[0]|, labels[1..], ptrs))
        || (&& ptrs > 0
            && b[pos] >= 192
            && pos + 1 < |b|
            && Encodes(b, (b[pos] as int - 192) * 256 + b[pos + 1] as int, labels, ptrs - 1)))
  }

  /** Labels reached before the encoding at `pos` follows its `n`-th pointer. */
  ghost function LabelsBefore(b: Octets, pos: nat, labels: seq<Name>, ptrs: nat, n: nat): (m: nat)
    requires Encodes(b, pos, labels, ptrs)
    requires n >= 1
    ensures m <= |labels|
    ensures n > ptrs ==> m == |labels|
    decreases |labels| + ptrs
  {
    if b[pos] == 0 then 0
    else if b[pos] >= 192 then
      if n == 1 then 0 else LabelsBefore(b, Pointer(b, pos), labels, ptrs - 1, n - 1)
    else 1 + LabelsBefore(b, pos + 1 + |labels[0]|, labels[1..], ptrs, n)
  }

  lemma EncodesStep(b: Octets, pos: nat, labels: seq<Name>, ptrs: nat)
    requires Encodes(b, pos, labels, ptrs)
    ensures pos < |b|
    ensures b[pos] == 0 ==> StepAt(b, pos) == Stop(pos + 1) && labels == []
    ensures b[pos] >= 192 ==>
              && ptrs > 0 && pos + 1 < |b| && StepAt(b, pos) == Jump(Pointer(b, pos))
              && Encodes(b, Pointer(b, pos), labels, ptrs - 1)
    ensures 0 < b[pos] < 192 ==>
              && labels != [] && StepAt(b, pos) == Take(|labels[0]|)
              && b[pos + 1..pos + 1 + |labels[0]|] == labels[0]
              && Encodes(b, pos + 1 + |labels[0]|, labels[1..], ptrs)
  {
  }

  /** The reader recovers exactly the labels that come before a sixth pointer. */
  lemma {:induction false} ReadsUpToSixthPointer(b: Octets, pos: nat, labels: seq<Name>, ptrs: nat, jumps: nat)
    requires Encodes(b, pos, labels, ptrs)
    requires jumps <= MAX_JUMPS
    ensures LabelsAt(b, pos, jumps) == labels[..LabelsBefore(b, pos, labels, ptrs, MAX_JUMPS + 1 - jumps)]
    decreases |labels| + ptrs
  {
    hide *;
    EncodesStep(b, pos, labels, ptrs);
    LabelsBeforeStep(b, pos, labels, ptrs, MAX_JUMPS + 1 - jumps);
    LabelsStep(b, pos, jumps);
    if b[pos] == 0 {
    } else if b[pos] >= 192 {
      if jumps < MAX_JUMPS {
        ReadsUpToSixthPointer(b, Pointer(b, pos), labels, ptrs - 1, jumps + 1);
      }
    } else {
      ReadsUpToSixthPointer(b, pos + 1 + |labels[0]|, labels[1..], ptrs, jumps);
      var m := LabelsBefore(b, pos + 1 + |labels[0]|, labels[1..], ptrs, MAX_JUMPS + 1 - jumps);
      assert labels[..m + 1] == [labels[0]] + labels[1..][..m];
    }
  }

  lemma LabelsStep(b: Octets, pos: nat, jumps: nat)
    requires jumps <= MAX_JUMPS
    ensures LabelsAt(b, pos, jumps) ==
            match StepAt(b, pos)
            case Stop(_) => []
            case Jump(target) => if jumps == MAX_JUMPS then [] else LabelsAt(b, target, jumps + 1)
            case Take(size) => [b[pos + 1..pos + 1 + size]] + LabelsAt(b, pos + 1 + size, jumps)
  {
    hide StepAt;
  }

  lemma LabelsBeforeStep(b: Octets, pos: nat, labels: seq<Name>, ptrs: nat, n: nat)
    requires Encodes(b, pos, labels, ptrs) && n >= 1
    ensures pos < |b|
    ensures b[pos] == 0 ==> LabelsBefore(b, pos, labels, ptrs, n) == 0
    ensures b[pos] >= 192 ==>
              && ptrs > 0 && pos + 1 < |b| && Encodes(b, Pointer(b, pos), labels, ptrs - 1)
              && LabelsBefore(b, pos, labels, ptrs, n)
              == if n == 1 then 0 else LabelsBefore(b, Pointer(b, pos), labels, ptrs - 1, n - 1)
    ensures 0 < b[pos] < 192 ==>
              && labels != [] && Encodes(b, pos + 1 + |labels[0]|, labels[1..], ptrs)
              && LabelsBefore(b, pos, labels, ptrs, n)
              == 1 + LabelsBefore(b, pos + 1 + |labels[0]|, labels[1..], ptrs, n)
  {
    EncodesStep(b, pos, labels, ptrs);
    hide Encodes;
  }

  /** A compressed name decodes to its labels if and only if no label lies beyond a sixth pointer;
      five pointers or fewer always suffice. */
  lemma {:induction false} CompressedNameDecodes(b: Octets, pos: nat, labels: seq<Name>, ptrs: nat)
    requires Encodes(b, pos, labels, ptrs)
    ensures LabelsAt(b, pos, 0) == labels <==> LabelsBefore(b, pos, labels, ptrs, MAX_JUMPS + 1) == |labels|
    ensures ptrs <= MAX_JUMPS ==> LabelsAt(b, pos, 0) == labels
  {
    ReadsUpToSixthPointer(b, pos, labels, ptrs, 0);
  }

  /** A header that counts seven questions, and the first one, which spells "a" at offset 12. */
  const SEVEN_QUESTIONS: Octets := [0, 7, 1, 0, 0, 7, 0, 0, 0, 0, 0, 0] + [1, 0x61, 0, 0, 1, 0, 1]

  /** Where the name of the question begins that needs `n` pointers, and where it points. */
  function PointerPlace(n: nat): nat
    requires 1 <= n <= 6
  {
    13 + 6 * n
  }

  function PointerTarget(n: nat): byte
    requires 1 <= n <= 6
  {
    if n == 1 then 12 else PointerPlace(n - 1)
  }

  function PointersFrom(n: nat): (r: Octets)
    requires 1 <= n <= 7
    ensures |r| == 6 * (7 - n)
    decreases 7 - n
  {
    if n == 7 then [] else [192, PointerTarget(n), 0, 1, 0, 1] + PointersFrom(n + 1)
  }

  /** A query with seven questions for "a": the name of each further one is a pointer to the name before it, as section
      4.1.4 of RFC 1035 wants it. */
  const SIX_POINTERS: Octets := SEVEN_QUESTIONS + PointersFrom(1)

  lemma PointerEncodes(b: Octets, pos: nat, labels: seq<Name>, ptrs: nat)
    requires pos + 1 < |b| && b[pos] >= 192
    requires Encodes(b, Pointer(b, pos), labels, ptrs)
    ensures Encodes(b, pos, labels, ptrs + 1)
  {
  }

  lemma SpelledOctets()
    ensures |SIX_POINTERS| == 55 && U16(SIX_POINTERS, 4) == 7
    ensures SIX_POINTERS[12] == 1 && SIX_POINTERS[13] == 0x61 && SIX_POINTERS[14] == 0
    ensures U16(SIX_POINTERS, 15) == 1 && U16(SIX_POINTERS, 17) == 1
  {
    hide PointersFrom;
  }

  lemma SpelledEncodes()
    ensures Encodes(SIX_POINTERS, 12, [[0x61]], 0)
  {
    hide SIX_POINTERS;
    SpelledOctets();
    var b, a: seq<Name> := SIX_POINTERS, [[0x61]];
    assert Encodes(b, 14, [], 0);
    assert b[13..14] == [0x61] && a[1..] == [];
  }

  lemma {:induction false} PointersAt(n: nat, i: nat)
    requires 1 <= n <= i <= 6
    ensures PointersFrom(n)[6 * (i - n)..6 * (i - n) + 6] == [192, PointerTarget(i), 0, 1, 0, 1]
    decreases i - n
  {
    var rest := PointersFrom(n + 1);
    hide PointerTarget;
    if i > n {
      PointersAt(n + 1, i);
      assert PointersFrom(n)[6..] == rest;
      var at := 6 * (i - n - 1);
      assert PointersFrom(n)[6 + at..6 + at + 6] == PointersFrom(n)[6..][at..at + 6];
    }
  }

  lemma PointerOctets(n: nat)
    requires 1 <= n <= 6
    ensures |SIX_POINTERS| == 55
    ensures SIX_POINTERS[PointerPlace(n)..PointerPlace(n) + 6] == [192, PointerTarget(n), 0, 1, 0, 1]
  {
    assert |SEVEN_QUESTIONS| == 19;
    PointersAt(1, n);
    hide PointersFrom, SEVEN_QUESTIONS, PointerTarget;
    var at := 6 * (n - 1);
    assert SIX_POINTERS[19 + at..19 + at + 6] == PointersFrom(1)[at..at + 6];
  }

  lemma SixJumps(n: nat)
    requires 1 <= n <= 6
    ensures StepAt(SIX_POINTERS, PointerPlace(n)) == Jump(PointerTarget(n))
  {
    hide SIX_POINTERS;
    PointerOctets(n);
    var b, pos := SIX_POINTERS, PointerPlace(n);
    assert b[pos] == b[pos..pos + 6][0] == 192 && b[pos + 1] == b[pos..pos + 6][1] == PointerTarget(n);
  }

  lemma {:induction false} SixPointersEncode(n: nat)
    requires 1 <= n <= 6
    ensures Encodes(SIX_POINTERS, PointerPlace(n), [[0x61]], n)
  {
    hide SIX_POINTERS, Encodes, StepAt;
    SixJumps(n);
    if n == 1 { SpelledEncodes(); } else { SixPointersEncode(n - 1); }
    JumpEncodes(SIX_POINTERS, PointerPlace(n), PointerTarget(n), [[0x61]], n - 1);
  }

  lemma JumpEncodes(b: Octets, pos: nat, target: nat, labels: seq<Name>, ptrs: nat)
    requires StepAt(b, pos) == Jump(target) && Encodes(b, target, labels, ptrs)
    ensures Encodes(b, pos, labels, ptrs + 1)
  {
    PointerEncodes(b, pos, labels, ptrs);
  }

  /** A valid encoding of "a", in the last question of a query, that the reader takes for the root, while it reads "a"
      in all questions before. */
  lemma {:induction false} SixPointersLoseTheName(n: nat)
    requires 1 <= n <= 6
    ensures Encodes(SIX_POINTERS, PointerPlace(n), [[0x61]], n)
    ensures LabelsAt(SIX_POINTERS, PointerPlace(n), 0) == if n == 6 then [] else [[0x61]]
  {
    hide SIX_POINTERS, Encodes, LabelsAt, StepAt;
    var b := SIX_POINTERS;
    SixPointersEncode(n);
    if n < 6 {
      CompressedNameDecodes(b, PointerPlace(n), [[0x61]], n);
    } else {
      FollowedFrom(0);
    }
  }

  /** After `jumps` of the six pointers the name is still lost. */
  lemma {:induction false} FollowedFrom(jumps: nat)
    requires jumps <= MAX_JUMPS
    ensures LabelsAt(SIX_POINTERS, PointerPlace(6 - jumps), jumps) == []
    decreases MAX_JUMPS - jumps
  {
    hide SIX_POINTERS, LabelsAt, StepAt;
    SixJumps(6 - jumps);
    if jumps == MAX_JUMPS {
      SixthJumpStops(SIX_POINTERS, PointerPlace(1), 12);
    } else {
      FollowedFrom(jumps + 1);
      JumpIsFollowed(SIX_POINTERS, PointerPlace(6 - jumps), PointerPlace(5 - jumps), jumps);
    }
  }

  lemma SixthJumpStops(b: Octets, pos: nat, target: nat)
    requires StepAt(b, pos) == Jump(target)
    ensures LabelsAt(b, pos, MAX_JUMPS) == []
  {
  }

  lemma JumpIsFollowed(b: Octets, pos: nat, target: nat, jumps: nat)
    requires StepAt(b, pos) == Jump(target) && jumps < MAX_JUMPS
    ensures LabelsAt(b, pos, jumps) == LabelsAt(b, target, jumps + 1)
  {
  }

  /** The bytes a compressed name occupies in place: up to its first pointer, or all of it. */
  ghost function InPlaceEnd(b: Octets, pos: nat, labels: seq<Name>, ptrs: nat): nat
    requires Encodes(b, pos, labels, ptrs)
    decreases |labels|
  {
    if b[pos] == 0 then pos + 1
    else if b[pos] >= 192 then pos + 2
    else InPlaceEnd(b, pos + 1 + |labels[0]|, labels[1..], ptrs)
  }

  lemma {:induction false} CursorAfterCompressedName(b: Octets, pos: nat, labels: seq<Name>, ptrs: nat)
    requires Encodes(b, pos, labels, ptrs)
    ensures NameEnd(b, pos) == InPlaceEnd(b, pos, labels, ptrs)
    decreases |labels|
  {
    if 0 < b[pos] < 192 {
      CursorAfterCompressedName(b, pos + 1 + |labels[0]|, labels[1..], ptrs);
    }
  }

  // ---------------------------------------------------------------- uncompressed names

  predicate WireLabels(labels: seq<Name>)
  {
    forall i :: 0 <= i < |labels| ==> 1 <= |labels[i]| <= 63
  }

  lemma FirstLabel(b: Octets, pos: nat, labels: seq<Name>)
    requires WireLabels(labels) && At(b, pos, EncodeLabels(labels))
    ensures labels == [] ==> StepAt(b, pos) == Stop(pos + 1) && |EncodeLabels(labels)| == 1
    ensures labels != [] ==>
              var next := pos + 1 + |labels[0]|;
              && StepAt(b, pos) == Take(|labels[0]|)
              && b[pos + 1..next] == labels[0]
              && At(b, next, EncodeLabels(labels[1..]))
              && next + |EncodeLabels(labels[1..])| == pos + |EncodeLabels(labels)|
  {
    if labels == [] {
      AtIndex(b, pos, EncodeLabels(labels), 0);
    } else {
      var l, tail := labels[0], EncodeLabels(labels[1..]);
      assert EncodeLabels(labels) == [|l|] + l + tail && 1 <= |l| <= 63;
      hide EncodeLabels, WireLabels, LabelsFit;
      AtAppend(b, pos, [|l|] + l, tail);
      AtAppend(b, pos, [|l|], l);
      AtIndex(b, pos, [|l|], 0);
      assert b[pos] == |l|;
    }
  }

  /** An uncompressed name reads back, wherever it stands in a packet, and the cursor lands after it. */
  lemma {:induction false} UncompressedReadsBack(b: Octets, pos: nat, labels: seq<Name>, jumps: nat)
    requires WireLabels(labels) && At(b, pos, EncodeLabels(labels))
    requires jumps <= MAX_JUMPS
    ensures LabelsAt(b, pos, jumps) == labels
    ensures NameEnd(b, pos) == pos + |EncodeLabels(labels)|
    decreases |labels|
  {
    hide At, StepAt, EncodeLabels;
    FirstLabel(b, pos, labels);
    if labels != [] {
      UncompressedReadsBack(b, pos + 1 + |labels[0]|, labels[1..], jumps);
    }
  }

  /** Labels in full, without the octet that ends them. */
  function Labels(labels: seq<Name>): Octets
    requires LabelsFit(labels, 255)
  {
    if labels == [] then [] else [|labels[0]|] + labels[0] + Labels(labels[1..])
  }

  /** No name goes on here: the packet ends, or the octet is of the reserved kinds 01 and 10, counts more octets than
      there are, or begins a pointer that is cut off. */
  predicate Malformed(b: Octets, pos: nat)
  {
    || pos >= |b|
    || 64 <= b[pos] < 192
    || (1 <= b[pos] < 64 && pos + 1 + b[pos] > |b|)
    || (b[pos] >= 192 && pos + 1 == |b|)
  }

  /** A malformed name ends where the fault is: the labels before it are the name, and the cursor is behind the octet
      at fault. */
  lemma {:induction false} MalformedNameStops(b: Octets, pos: nat, labels: seq<Name>)
    requires WireLabels(labels) && At(b, pos, Labels(labels)) && Malformed(b, pos + |Labels(labels)|)
    ensures LabelsAt(b, pos, 0) == labels
    ensures var end := pos + |Labels(labels)|; NameEnd(b, pos) == if end >= |b| then end else end + 1
    decreases |labels|
  {
    if labels != [] {
      var l, tail := labels[0], Labels(labels[1..]);
      hide At, Labels;
      AtAppend(b, pos, [|l|] + l, tail);
      AtAppend(b, pos, [|l|], l);
      OneLabel(b, pos, l);
      MalformedNameStops(b, pos + 1 + |l|, labels[1..]);
      hide Malformed, WireLabels;
    }
  }

  lemma OneLabel(b: Octets, pos: nat, l: Name)
    requires 1 <= |l| <= 63 && At(b, pos, [|l|]) && At(b, pos + 1, l)
    ensures StepAt(b, pos) == Take(|l|) && b[pos + 1..pos + 1 + |l|] == l
  {
    AtIndex(b, pos, [|l|], 0);
  }

  lemma {:induction false} ReadLabelsAreWireLabels(b: Octets, pos: nat, jumps: nat)
    requires jumps <= MAX_JUMPS
    ensures WireLabels(LabelsAt(b, pos, jumps))
    decreases MAX_JUMPS - jumps, |b| - pos
  {
    match StepAt(b, pos)
    case Stop(_) =>
    case Jump(target) => if jumps < MAX_JUMPS { ReadLabelsAreWireLabels(b, target, jumps + 1); }
    case Take(size) => ReadLabelsAreWireLabels(b, pos + 1 + size, jumps);
  }

  /** Every name the reader can return is made of pieces of at most 63 octets, so it can be written again. */
  lemma {:induction false} ReadNamesAreWritable(b: Octets, pos: nat)
    ensures LabelsFit(Split(NameAt(b, pos)), 63)
    ensures LabelsFit(Split(Lower(NameAt(b, pos))), 63)
    ensures Encodable(NameAt(b, pos)) && WireLabels(Written(NameAt(b, pos)))
  {
    ReadLabelsAreWireLabels(b, pos, 0);
    SplitJoinFit(LabelsAt(b, pos, 0), 63);
    LowerSplit(NameAt(b, pos));
  }

  /** Writing what was read gives back the labels in lower case if and only if no label contains a dot. */
  lemma {:induction false} RewriteLowersCase(labels: seq<Name>)
    requires WireLabels(labels)
    ensures Written(Join(labels)) == LowerAll(labels) <==> Dotless(labels)
  {
    WrittenIsDotless(Join(labels));
    LowerKeepsDots(labels);
    if Dotless(labels) { DotlessRewrite(labels); }
  }

  lemma {:induction false} WrittenIsDotless(name: Name)
    ensures Dotless(Written(name))
  {
    JoinSplit(Lower(name));
  }

  lemma {:induction false} LowerKeepsDots(labels: seq<Name>)
    ensures Dotless(LowerAll(labels)) <==> Dotless(labels)
  {
    forall i | 0 <= i < |labels| ensures NoDot(LowerAll(labels)[i]) <==> NoDot(labels[i]) {
      assert forall k :: 0 <= k < |labels[i]| ==> (Lower(labels[i])[k] == DOT <==> labels[i][k] == DOT);
    }
  }

  lemma {:induction false} DotlessRewrite(labels: seq<Name>)
    requires WireLabels(labels) && Dotless(labels)
    ensures Written(Join(labels)) == LowerAll(labels)
  {
    LowerJoin(labels);
    if labels == [] {
      assert Split([]) == [[]];
    } else {
      forall i | 0 <= i < |labels| ensures NoDot(LowerAll(labels)[i]) {
        assert NoDot(labels[i]);
      }
      SplitJoin(LowerAll(labels));
      NonEmptyId(LowerAll(labels));
    }
  }

  lemma NonEmptyStep(labels: seq<Name>, i: nat)
    requires i < |labels|
    ensures labels[i] == [] ==> NonEmpty(labels[i..]) == NonEmpty(labels[i + 1..])
    ensures labels[i] != [] ==> NonEmpty(labels[i..]) == [labels[i]] + NonEmpty(labels[i + 1..])
  {
    assert labels[i..][1..] == labels[i + 1..];
  }

  lemma EncodeStep(was: Octets, labels: seq<Name>)
    requires labels != [] && LabelsFit(labels, 255)
    ensures was + EncodeLabels(labels) == was + [|labels[0]|] + labels[0] + EncodeLabels(labels[1..])
  {
  }

  /** LabelsAt with the labels collected so far, the way the reader's loop builds its list. */
  ghost function CollectFrom(b: Octets, pos: nat, jumps: nat, acc: seq<Name>): seq<Name>
    requires jumps <= MAX_JUMPS
    decreases MAX_JUMPS - jumps, |b| - pos
  {
    match StepAt(b, pos)
    case Stop(_) => acc
    case Jump(target) => if jumps == MAX_JUMPS then acc else CollectFrom(b, target, jumps + 1, acc)
    case Take(size) => CollectFrom(b, pos + 1 + size, jumps, acc + [b[pos + 1..pos + 1 + size]])
  }

  lemma {:induction false} CollectFromAppends(b: Octets, pos: nat, jumps: nat, acc: seq<Name>)
    requires jumps <= MAX_JUMPS
    ensures CollectFrom(b, pos, jumps, acc) == acc + LabelsAt(b, pos, jumps)
    decreases MAX_JUMPS - jumps, |b| - pos
  {
    match StepAt(b, pos)
    case Stop(_) =>
    case Jump(target) =>
      if jumps < MAX_JUMPS { CollectFromAppends(b, target, jumps + 1, acc); }
    case Take(size) =>
      CollectFromAppends(b, pos + 1 + size, jumps, acc + [b[pos + 1..pos + 1 + size]]);
  }

  // ---------------------------------------------------------------- the cursor class

  class DnsWireFormat {
    var buf: array<byte>
    var offset: nat
    ghost var stream: Octets  // everything written so far, before clipping to the buffer

    constructor Alloc(cap: nat)
      ensures fresh(buf) && buf.Length == cap
      ensures offset == 0 && stream == [] && Writing()
    {
      buf := new byte[cap](_ => 0);
      offset := 0;
      stream := [];
    }

    constructor Over(data: array<byte>, pos: nat)
      ensures buf == data && offset == pos
    {
      buf := data;
      offset := pos;
      stream := [];
    }

    /** The buffer holds the stream, cut at its capacity. */
    ghost predicate Writing()
      reads this, buf
    {
      && offset == |stream|
      && (forall i :: 0 <= i < offset && i < buf.Length ==> buf[i] == stream[i])
    }

    method WriteUint8(val: int) returns (ok: bool)
      requires Writing()
      modifies this`offset, this`stream, buf
      ensures Writing() && offset == |stream|
      ensures ok <==> 0 <= val < 256 && old(offset) + 1 <= buf.Length
      ensures stream == if ok then old(stream) + [val] else old(stream)
    {
      ok := 0 <= val < 256 && offset + 1 <= buf.Length;
      if ok {
        buf[offset] := val;
        offset := offset + 1;
        stream := stream + [val];
      }
    }

    method WriteUint16(val: int) returns (ok: bool)
      requires Writing()
      modifies this`offset, this`stream, buf
      ensures Writing() && offset == |stream|
      ensures ok <==> 0 <= val < 0x1_0000 && old(offset) + 2 <= buf.Length
      ensures stream == if ok then old(stream) + Be16(val) else old(stream)
    {
      ok := 0 <= val < 0x1_0000 && offset + 2 <= buf.Length;
      if ok {
        buf[offset] := val / 256;
        buf[offset + 1] := val % 256;
        offset := offset + 2;
        stream := stream + Be16(val);
      }
    }

    method WriteUint32(val: int) returns (ok: bool)
      requires Writing()
      modifies this`offset, this`stream, buf
      ensures Writing() && offset == |stream|
      ensures ok <==> 0 <= val < 0x1_0000_0000 && old(offset) + 4 <= buf.Length
      ensures stream == if ok then old(stream) + Be32(val) else old(stream)
    {
      ok := 0 <= val < 0x1_0000_0000 && offset + 4 <= buf.Length;
      if ok {
        var b := Be32(val);
        buf[offset], buf[offset + 1], buf[offset + 2], buf[offset + 3] := b[0], b[1], b[2], b[3];
        offset := offset + 4;
        stream := stream + b;
      }
    }

    /** `copy` never fails: it drops what does not fit, while the offset moves by the full length. */
    method WriteBytes(data: Octets)
      requires Writing()
      modifies this`offset, this`stream, buf
      ensures Writing() && offset == |stream|
      ensures stream == old(stream) + data
    {
      var i := 0;
      while i < |data| && offset + i < buf.Length
        modifies buf
        invariant 0 <= i <= |data|
        invariant forall k :: 0 <= k < offset && k < buf.Length ==> buf[k] == stream[k]
        invariant forall k :: 0 <= k < i ==> offset + k < buf.Length && buf[offset + k] == data[k]
      {
        buf[offset + i] := data[i];
        i := i + 1;
      }
      offset := offset + |data|;
      stream := stream + data;
    }

    /** writeUInt16BE at a fixed position already written. */
    method PatchUint16(val: int, pos: nat) returns (ok: bool)
      requires Writing()
      requires pos + 2 <= offset
      modifies this`stream, buf
      ensures Writing() && offset == |stream|
      ensures ok <==> 0 <= val < 0x1_0000 && pos + 2 <= buf.Length
      ensures stream == if ok then old(stream)[..pos] + Be16(val) + old(stream)[pos + 2..] else old(stream)
    {
      ok := 0 <= val < 0x1_0000 && pos + 2 <= buf.Length;
      if ok {
        buf[pos], buf[pos + 1] := val / 256, val % 256;
        stream := stream[..pos] + Be16(val) + stream[pos + 2..];
      }
    }

    method Finish() returns (r: Octets)
      requires Writing()
      ensures r == Clip(stream, buf.Length)
    {
      r := buf[..if offset <= buf.Length then offset else buf.Length];
    }

    /** Fails exactly when a piece is longer than a length octet can say or the encoding does not fit. */
    method WriteDomainName(name: Name) returns (ok: bool)
      requires Writing()
      modifies this`offset, this`stream, buf
      ensures Writing() && offset == |stream|
      ensures ok <==> Encodable(name) && old(offset) + |EncodeName(name)| <= buf.Length
      ensures ok ==> stream == old(stream) + EncodeName(name)
    {
      var labels := Split(Lower(name));
      ghost var target := if Encodable(name) then stream + EncodeName(name) else [];
      assert labels[0..] == labels;
      var i := 0;
      while i < |labels|
        modifies this`offset, this`stream, buf
        invariant 0 <= i <= |labels|
        invariant Writing()
        invariant forall j :: 0 <= j < i ==> |labels[j]| <= 255
        invariant Encodable(name) ==> stream + EncodeLabels(NonEmpty(labels[i..])) == target
      {
        var piece := labels[i];
        ghost var kept, was := NonEmpty(labels[i..]), stream;
        NonEmptyStep(labels, i);
        i := i + 1;
        if |piece| == 0 { continue; }
        ok := WriteUint8(|piece|);
        if !ok { return; }
        WriteBytes(piece);
        if Encodable(name) { EncodeStep(was, kept); }
      }
      assert labels[i..] == [];
      ok := WriteUint8(0);
    }

    method ReadUint8() returns (v: byte)
      modifies this`offset
      ensures old(offset) + 1 <= buf.Length ==> v == buf[old(offset)] && offset == old(offset) + 1
      ensures old(offset) + 1 > buf.Length ==> v == 0 && offset == buf.Length
    {
      if offset + 1 > buf.Length {
        offset := buf.Length;
        return 0;
      }
      v := buf[offset];
      offset := offset + 1;
    }

    method ReadUint16() returns (v: u16)
      modifies this`offset
      ensures old(offset) + 2 <= buf.Length ==> v == U16(buf[..], old(offset)) && offset == old(offset) + 2
      ensures old(offset) + 2 > buf.Length ==> v == 0 && offset == buf.Length
    {
      if offset + 2 > buf.Length {
        offset := buf.Length;
        return 0;
      }
      v := U16(buf[..], offset);
      offset := offset + 2;
    }

    method ReadUint32() returns (v: u32)
      modifies this`offset
      ensures old(offset) + 4 <= buf.Length ==> v == U32(buf[..], old(offset)) && offset == old(offset) + 4
      ensures old(offset) + 4 > buf.Length ==> v == 0 && offset == buf.Length
    {
      if offset + 4 > buf.Length {
        offset := buf.Length;
        return 0;
      }
      v := U32(buf[..], offset);
      offset := offset + 4;
    }

    method ReadDomainName() returns (name: Name)
      modifies this`offset
      ensures name == NameAt(buf[..], old(offset))
      ensures offset == NameEnd(buf[..], old(offset))
    {
      var labels, next := CollectLabels();
      offset := next;
      name := Join(labels);
    }

    /** The loop of readDomainName. It terminates on every buffer: pointers left, then bytes left. */
    method CollectLabels() returns (labels: seq<Name>, next: nat)
      ensures labels == LabelsAt(buf[..], offset, 0)
      ensures next == NameEnd(buf[..], offset)
    {
      hide StepAt;
      labels := [];
      var jumps := 0;
      var current: nat := offset;
      var saved := -1;
      ghost var b := buf[..];
      ghost var all, end := CollectFrom(b, offset, 0, []), NameEnd(b, offset);
      while true
        invariant 0 <= jumps <= MAX_JUMPS
        invariant saved >= -1
        invariant jumps > 0 ==> saved >= 0
        invariant CollectFrom(b, current, jumps, labels) == all
        invariant end == if saved == -1 then NameEnd(b, current) else saved
        decreases MAX_JUMPS - jumps, buf.Length - current
      {
        var step := ReadStep(current);
        match step {
          case Stop(end) =>
            current := end;
            break;
          case Jump(target) =>
            if jumps + 1 > MAX_JUMPS { break; }
            jumps := jumps + 1;
            if saved == -1 { saved := current + 2; }
            current := target;
          case Take(size) =>
            var piece := ReadLabel(current + 1, size);
            labels := labels + [piece];
            current := current + 1 + size;
        }
      }
      CollectFromAppends(b, offset, 0, []);
      next := if saved != -1 then saved else current;
    }

    /** The tests readDomainName makes on one length octet. */
    method ReadStep(pos: nat) returns (s: Step)
      ensures s == StepAt(buf[..], pos)
    {
      if pos >= buf.Length { return Stop(pos); }
      var len := buf[pos];
      if len == 0 { return Stop(pos + 1); }
      if len >= 192 {
        if pos + 1 >= buf.Length { return Stop(pos + 1); }
        return Jump((len % 64) as int * 256 + buf[pos + 1]);
      }
      if len > 63 || pos + 1 + len > buf.Length { return Stop(pos + 1); }
      return Take(len);
    }

    method ReadLabel(pos: nat, len: nat) returns (piece: Name)
      requires pos + len <= buf.Length
      ensures piece == buf[pos..pos + len]
    {
      piece := [];
      for i := 0 to len
        invariant piece == buf[pos..pos + i]
      {
        piece := piece + [buf[pos + i]];
      }
    }
  }
}
