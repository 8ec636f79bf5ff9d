/** Resource records and the answer entries built from them. */
module Records {
  import opened Bytes
  import opened IpAddress
  import opened Text
  import opened WireFormat

  datatype Record =
    | A(octets: Octets)
    | AAAA(address: Ipv6)
    | CNAME(target: Name)
    | TXT(data: seq<Octets>)
    | MX(priority: u16, exchange: Name)
    | NS(target: Name)
    | SRV(priority: u16, weight: u16, port: u16, target: Name)
    | PTR(target: Name)

  /** HostnameSchema: one to 63 octets between dots, 253 in all. */
  predicate ValidHostname(name: Name)
  {
    |name| <= 253 && WireLabels(Split(name))
  }

  /** What the configuration schema admits, on ASCII text. */
  predicate ValidRecord(r: Record)
  {
    match r
    case A(octets) => |octets| == 4
    case AAAA(address) => IsIpv6(address)
    case CNAME(target) => ValidHostname(target)
    case TXT(data) => LabelsFit(data, 255)
    case MX(_, exchange) => ValidHostname(exchange)
    case NS(target) => ValidHostname(target)
    case SRV(_, _, _, target) => ValidHostname(target)
    case PTR(target) => ValidHostname(target)
  }

  /** toTypeNumber with DNS_TYPES */
  function TypeNumber(r: Record): u16
  {
    match r
    case A(_) => 1
    case NS(_) => 2
    case CNAME(_) => 5
    case PTR(_) => 12
    case MX(_, _) => 15
    case TXT(_) => 16
    case AAAA(_) => 28
    case SRV(_, _, _, _) => 33
  }

  // ---------------------------------------------------------------- rdata

  function GroupOctets(groups: seq<u16>): (r: Octets)
    ensures |r| == 2 * |groups|
  {
    if groups == [] then [] else Be16(groups[0]) + GroupOctets(groups[1..])
  }

  /** The groups encodeAAAARecord writes: one for each piece, "::" filled up to eight pieces. */
  function Groups(a: Ipv6): seq<u16>
    requires IsIpv6(a)
  {
    match a
    case Full(pieces) => Parsed(pieces)
    case Elided(left, right) => Words(left) + Zeros(8 - |left| - |right|) + Parsed(right)
  }

  /** Character strings after `acc`; None when a length octet does not fit its field or the buffer. */
  function TxtFrom(data: seq<Octets>, acc: Octets): Option<Octets>
    decreases |data|
  {
    if data == [] then Some(Clip(acc, PACKET_SIZE))
    else if |data[0]| > 255 || |acc| + 1 > PACKET_SIZE then None
    else TxtFrom(data[1..], acc + [|data[0]|] + data[0])
  }

  function NameAfter(prefix: Octets, name: Name): Option<Octets>
  {
    if Encodable(name) && |prefix| + |EncodeName(name)| <= PACKET_SIZE
    then Some(prefix + EncodeName(name)) else None
  }

  /** The rdata buildSingleAnswer computes; None when the encoder throws. PTR has no case and keeps no rdata. */
  function RData(r: Record): Option<Octets>
    requires ValidRecord(r)
  {
    match r
    case A(octets) => Some(octets)
    case AAAA(address) => Some(GroupOctets(Groups(address)))
    case CNAME(target) => NameAfter([], target)
    case TXT(data) => TxtFrom(data, [])
    case MX(priority, exchange) => NameAfter(Be16(priority), exchange)
    case NS(target) => NameAfter([], target)
    case SRV(priority, weight, port, target) => NameAfter(Be16(priority) + Be16(weight) + Be16(port), target)
    case PTR(_) => Some([])
  }

  /** Padding a piece to four digits adds zeros in front, which parseInt ignores. */
  method EncodeAaaa(address: Ipv6) returns (r: Octets)
    requires IsIpv6(address)
    ensures r == GroupOctets(Groups(address))
  {
    hide GroupOctets, Parsed, Words, IsGroup;
    var parts: seq<Piece>;
    match address {
      case Full(pieces) => parts := pieces;
      case Elided(left, right) =>
        var missing := 8 - |left| - |right|;
        parts := left;
        for i := 0 to missing
          invariant parts == left + ZeroPieces(i)
        {
          parts := parts + [Group([0x30])];
        }
        parts := parts + right;
        ZerosBetween(left, missing, right);
    }
    r := GroupOctets(Parsed(parts));
  }

  function ZeroPieces(n: nat): seq<Piece>
  {
    seq(n, _ => Group([0x30]))
  }

  lemma {:induction false} ZerosAreZero(n: nat)
    ensures Pieces(ZeroPieces(n)) && !EndsDotted(ZeroPieces(n)) && Words(ZeroPieces(n)) == Zeros(n)
  {
    if n > 0 {
      ZerosAreZero(n - 1);
      var zero := Group([0x30]);
      assert zero.digits[..0] == [] && Word(zero) == 0;
      assert ZeroPieces(n) == [zero] + ZeroPieces(n - 1) && Zeros(n) == [0] + Zeros(n - 1);
      FirstGroup(zero, ZeroPieces(n - 1));
    }
  }

  lemma ZerosBetween(left: seq<Piece>, n: nat, right: seq<Piece>)
    requires Pieces(left) && !EndsDotted(left) && Pieces(right)
    ensures Pieces(left + ZeroPieces(n) + right)
    ensures Parsed(left + ZeroPieces(n) + right) == Words(left) + Zeros(n) + Parsed(right)
  {
    ZerosAreZero(n);
    hide *;
    PiecesAppend(ZeroPieces(n), right);
    PiecesAppend(left, ZeroPieces(n) + right);
    assert left + ZeroPieces(n) + right == left + (ZeroPieces(n) + right);
    assert Words(left) + Zeros(n) + Parsed(right) == Words(left) + (Zeros(n) + Parsed(right));
  }

  method EncodeTxt(data: seq<Octets>) returns (r: Option<Octets>)
    ensures r == TxtFrom(data, [])
  {
    var encoder := new DnsWireFormat.Alloc(PACKET_SIZE);
    var i := 0;
    while i < |data|
      invariant 0 <= i <= |data|
      invariant fresh(encoder) && fresh(encoder.buf) && encoder.buf.Length == PACKET_SIZE && encoder.Writing()
      invariant TxtFrom(data[i..], encoder.stream) == TxtFrom(data, [])
    {
      assert data[i..][1..] == data[i + 1..];
      var ok := encoder.WriteUint8(|data[i]|);
      if !ok { return None; }
      encoder.WriteBytes(data[i]);
      i := i + 1;
    }
    var out := encoder.Finish();
    r := Some(out);
  }

  /** encodeCNAME and encodeNS */
  method EncodeTarget(target: Name) returns (r: Option<Octets>)
    ensures r == NameAfter([], target)
  {
    var encoder := new DnsWireFormat.Alloc(PACKET_SIZE);
    var ok := encoder.WriteDomainName(target);
    if !ok { return None; }
    var out := encoder.Finish();
    r := Some(out);
  }

  method EncodeMx(priority: u16, exchange: Name) returns (r: Option<Octets>)
    ensures r == NameAfter(Be16(priority), exchange)
  {
    var encoder := new DnsWireFormat.Alloc(PACKET_SIZE);
    var ok := encoder.WriteUint16(priority);
    assert encoder.stream == Be16(priority);
    ok := encoder.WriteDomainName(exchange);
    if !ok { return None; }
    var out := encoder.Finish();
    r := Some(out);
  }

  method EncodeSrv(priority: u16, weight: u16, port: u16, target: Name) returns (r: Option<Octets>)
    ensures r == NameAfter(Be16(priority) + Be16(weight) + Be16(port), target)
  {
    var encoder := new DnsWireFormat.Alloc(PACKET_SIZE);
    var ok := encoder.WriteUint16(priority);
    ok := encoder.WriteUint16(weight);
    ok := encoder.WriteUint16(port);
    assert encoder.stream == Be16(priority) + Be16(weight) + Be16(port);
    ok := encoder.WriteDomainName(target);
    if !ok { return None; }
    var out := encoder.Finish();
    r := Some(out);
  }

  method EncodeRData(record: Record) returns (r: Option<Octets>)
    requires ValidRecord(record)
    ensures r == RData(record)
  {
    match record {
      case A(octets) => r := Some(octets);
      case AAAA(address) =>
        var out := EncodeAaaa(address);
        r := Some(out);
      case CNAME(target) => r := EncodeTarget(target);
      case TXT(data) => r := EncodeTxt(data);
      case MX(priority, exchange) => r := EncodeMx(priority, exchange);
      case NS(target) => r := EncodeTarget(target);
      case SRV(priority, weight, port, target) => r := EncodeSrv(priority, weight, port, target);
      case PTR(_) => r := Some([]);
    }
  }

  // ---------------------------------------------------------------- entries

  const DEFAULT_TTL: u32 := 300

  /** type, class IN, TTL, rdlength, rdata: an answer without its owner name. */
  function Entry(qtype: u16, ttl: u32, rdata: Octets): (e: Octets)
    requires |rdata| < 0x1_0000
    ensures |e| == 10 + |rdata|
  {
    Be16(qtype) + Be16(1) + Be32(ttl) + Be16(|rdata|) + rdata
  }

  lemma {:induction false} TxtIsClipped(data: seq<Octets>, acc: Octets)
    ensures TxtFrom(data, acc).Some? ==> |TxtFrom(data, acc).value| <= PACKET_SIZE
    decreases |data|
  {
    if data != [] && |data[0]| <= 255 {
      TxtIsClipped(data[1..], acc + [|data[0]|] + data[0]);
    }
  }

  lemma RDataIsShort(r: Record)
    requires ValidRecord(r)
    ensures RData(r).Some? ==> |RData(r).value| <= PACKET_SIZE
  {
    if r.TXT? { TxtIsClipped(r.data, []); }
  }

  /** The entry of one record, None when its rdata cannot be encoded. */
  function EntryOf(r: Record): Option<Octets>
    requires ValidRecord(r)
  {
    match RData(r)
    case None => None
    case Some(rdata) =>
      RDataIsShort(r);
      Some(Entry(TypeNumber(r), DEFAULT_TTL, rdata))
  }

  method BuildSingleAnswer(record: Record) returns (r: Option<Octets>)
    requires ValidRecord(record)
    ensures r == EntryOf(record)
  {
    var rdata := EncodeRData(record);
    if rdata.None? { return None; }
    RDataIsShort(record);
    var entry := FillEntry(TypeNumber(record), rdata.value);
    r := Some(entry);
  }

  /** Buffer.writeUInt16BE inside the buffer, after what is already filled. */
  method PutUint16(a: array<byte>, pos: nat, v: u16)
    requires pos + 2 <= a.Length
    modifies a
    ensures a[..pos + 2] == old(a[..pos]) + Be16(v)
  {
    a[pos] := v / 256;
    a[pos + 1] := v % 256;
  }

  method FillEntry(qtype: u16, rdata: Octets) returns (r: Octets)
    requires |rdata| < 0x1_0000
    ensures r == Entry(qtype, DEFAULT_TTL, rdata)
  {
    var entry := new byte[10 + |rdata|](_ => 0);
    PutUint16(entry, 0, qtype);
    PutUint16(entry, 2, 1);
    PutUint16(entry, 4, DEFAULT_TTL / 0x1_0000);
    PutUint16(entry, 6, DEFAULT_TTL % 0x1_0000);
    PutUint16(entry, 8, |rdata|);
    ghost var head := Be16(qtype) + Be16(1) + Be32(DEFAULT_TTL) + Be16(|rdata|);
    assert entry[..10] == head;
    var pos := 10;
    while pos < 10 + |rdata|
      invariant 10 <= pos <= 10 + |rdata|
      invariant entry[..10] == head
      invariant forall k :: 10 <= k < pos ==> entry[k] == rdata[k - 10]
    {
      entry[pos] := rdata[pos - 10];
      pos := pos + 1;
    }
    r := entry[..];
    assert r == entry[..10] + rdata;
  }

  predicate ValidRecords(records: seq<Record>)
  {
    forall i :: 0 <= i < |records| ==> ValidRecord(records[i])
  }

  /** The records of one type, in configuration order. */
  function OfType(records: seq<Record>, qtype: u16): (r: seq<Record>)
    ensures ValidRecords(records) ==> ValidRecords(r)
    ensures forall i :: 0 <= i < |r| ==> TypeNumber(r[i]) == qtype
  {
    if records == [] then []
    else
      (if TypeNumber(records[0]) == qtype then [records[0]] else []) + OfType(records[1..], qtype)
  }

  /** The entries of a list of records; None as soon as one of them throws. */
  function EntriesOf(records: seq<Record>): Option<seq<Octets>>
    requires ValidRecords(records)
  {
    if records == [] then Some([])
    else match EntryOf(records[0])
      case None => None
      case Some(e) =>
        match EntriesOf(records[1..])
        case None => None
        case Some(rest) => Some([e] + rest)
  }

  /** EntriesOf(OfType(..)) the way buildAnswers accumulates it. */
  function AnswersFrom(records: seq<Record>, qtype: u16, acc: seq<Octets>): Option<seq<Octets>>
    requires ValidRecords(records)
    decreases |records|
  {
    if records == [] then Some(acc)
    else if TypeNumber(records[0]) != qtype then AnswersFrom(records[1..], qtype, acc)
    else match EntryOf(records[0])
      case None => None
      case Some(e) => AnswersFrom(records[1..], qtype, acc + [e])
  }

  lemma {:induction false} AnswersAreEntries(records: seq<Record>, qtype: u16, acc: seq<Octets>)
    requires ValidRecords(records)
    ensures AnswersFrom(records, qtype, acc) ==
            match EntriesOf(OfType(records, qtype))
            case None => None
            case Some(es) => Some(acc + es)
    decreases |records|
  {
    hide EntryOf;
    if records == [] {
      assert acc + [] == acc;
    } else if TypeNumber(records[0]) != qtype {
      assert OfType(records, qtype) == OfType(records[1..], qtype);
      AnswersAreEntries(records[1..], qtype, acc);
    } else {
      assert OfType(records, qtype)[1..] == OfType(records[1..], qtype);
      if EntryOf(records[0]).Some? {
        var e, rest := EntryOf(records[0]).value, EntriesOf(OfType(records[1..], qtype));
        AnswersAreEntries(records[1..], qtype, acc + [e]);
        assert rest.Some? ==> acc + [e] + rest.value == acc + ([e] + rest.value);
      }
    }
  }

  method BuildAnswers(records: seq<Record>, qtype: u16) returns (r: Option<seq<Octets>>)
    requires ValidRecords(records)
    ensures r == EntriesOf(OfType(records, qtype))
  {
    hide EntryOf, EntriesOf, OfType;
    var answers: seq<Octets> := [];
    var i := 0;
    ghost var all := EntriesOf(OfType(records, qtype));
    AnswersAreEntries(records, qtype, []);
    assert all.Some? ==> [] + all.value == all.value;
    while i < |records|
      invariant 0 <= i <= |records|
      invariant AnswersFrom(records[i..], qtype, answers) == AnswersFrom(records, qtype, [])
    {
      assert records[i..][1..] == records[i + 1..];
      if TypeNumber(records[i]) == qtype {
        var entry := BuildSingleAnswer(records[i]);
        if entry.None? { return None; }
        answers := answers + [entry.value];
      }
      i := i + 1;
    }
    r := Some(answers);
  }

  // ---------------------------------------------------------------- reading rdata back

  function GroupsFrom(b: Octets): seq<u16>
    requires |b| % 2 == 0
  {
    if b == [] then [] else [U16(b, 0)] + GroupsFrom(b[2..])
  }

  lemma {:induction false} GroupsReadBack(groups: seq<u16>)
    ensures GroupsFrom(GroupOctets(groups)) == groups
  {
    if groups != [] {
      var b := GroupOctets(groups);
      assert b[2..] == GroupOctets(groups[1..]);
      assert At(b, 0, Be16(groups[0]));
      ReadBe16(b, 0, groups[0]);
      GroupsReadBack(groups[1..]);
    }
  }

  /** Character strings as a resolver reads them (section 3.3.14 of RFC 1035). */
  function StringsFrom(b: Octets): seq<Octets>
  {
    if b == [] || 1 + b[0] > |b| then []
    else [b[1..1 + b[0]]] + StringsFrom(b[1 + b[0]..])
  }

  function TxtOctets(data: seq<Octets>): Octets
    requires LabelsFit(data, 255)
  {
    if data == [] then [] else [|data[0]|] + data[0] + TxtOctets(data[1..])
  }

  lemma {:induction false} StringsReadBack(data: seq<Octets>)
    requires LabelsFit(data, 255)
    ensures StringsFrom(TxtOctets(data)) == data
  {
    if data != [] {
      var b, n := TxtOctets(data), |data[0]|;
      assert b[1..1 + n] == data[0] && b[1 + n..] == TxtOctets(data[1..]);
      StringsReadBack(data[1..]);
    }
  }

  lemma {:induction false} TxtWhenItFits(data: seq<Octets>, acc: Octets)
    requires LabelsFit(data, 255)
    requires |acc + TxtOctets(data)| <= PACKET_SIZE
    ensures TxtFrom(data, acc) == Some(acc + TxtOctets(data))
    decreases |data|
  {
    if data != [] {
      TxtWhenItFits(data[1..], acc + [|data[0]|] + data[0]);
      assert acc + [|data[0]|] + data[0] + TxtOctets(data[1..]) == acc + TxtOctets(data);
    } else {
      assert acc + [] == acc;
    }
  }

  /** The strings that can be encoded: every length octet finds room, so all but the text of the last must fit. */
  predicate TxtEncodes(data: seq<Octets>)
    requires LabelsFit(data, 255)
  {
    data == [] || |TxtOctets(data)| - |data[|data| - 1]| <= PACKET_SIZE
  }

  /** encodeTXT throws exactly when a length octet finds no room, and otherwise cuts what runs over. */
  lemma {:induction false} TxtExactly(data: seq<Octets>, acc: Octets)
    requires LabelsFit(data, 255)
    ensures TxtFrom(data, acc).Some?
       <==> data == [] || |acc| + |TxtOctets(data)| - |data[|data| - 1]| <= PACKET_SIZE
    ensures TxtFrom(data, acc).Some? ==> TxtFrom(data, acc).value == Clip(acc + TxtOctets(data), PACKET_SIZE)
    decreases |data|
  {
    TxtStep(data, acc);
    if data != [] {
      var next, rest := acc + [|data[0]|] + data[0], data[1..];
      TxtExactly(rest, next);
      if rest != [] { LastIsCounted(rest); }
      hide *;
      assert rest == [] ==> |data| == 1;
      assert rest != [] ==> data[|data| - 1] == rest[|rest| - 1];
    }
  }

  lemma TxtStep(data: seq<Octets>, acc: Octets)
    requires LabelsFit(data, 255)
    ensures data == [] ==> TxtFrom(data, acc) == Some(Clip(acc + TxtOctets(data), PACKET_SIZE))
    ensures data != [] ==>
              var next, rest := acc + [|data[0]|] + data[0], data[1..];
              && LabelsFit(rest, 255)
              && TxtFrom(data, acc) == (if |acc| + 1 > PACKET_SIZE then None else TxtFrom(rest, next))
              && next + TxtOctets(rest) == acc + TxtOctets(data)
              && |TxtOctets(data)| == 1 + |data[0]| + |TxtOctets(rest)|
              && (rest == [] ==> TxtOctets(rest) == [] && TxtFrom(rest, next).Some?)
  {
    if data == [] {
      assert acc + [] == acc;
    } else {
      var next, rest := acc + [|data[0]|] + data[0], data[1..];
      assert next + TxtOctets(rest) == acc + TxtOctets(data);
    }
  }

  lemma {:induction false} LastIsCounted(data: seq<Octets>)
    requires LabelsFit(data, 255) && data != []
    ensures |TxtOctets(data)| >= 1 + |data[|data| - 1]|
  {
    if |data| > 1 {
      LastIsCounted(data[1..]);
      assert data[|data| - 1] == data[1..][|data| - 2];
    }
  }

  /** A resolver's reading of rdata of a known type; PTR is never sent. */
  function Decode(qtype: u16, b: Octets): Option<Record>
  {
    if qtype == 1 then Some(A(b))
    else if qtype == 28 then (if |b| == 16 then Some(AAAA(Full(SpelledAll(GroupsFrom(b))))) else None)
    else if qtype == 5 then Some(CNAME(NameAt(b, 0)))
    else if qtype == 16 then Some(TXT(StringsFrom(b)))
    else if qtype == 15 then (if |b| >= 2 then Some(MX(U16(b, 0), NameAt(b, 2))) else None)
    else if qtype == 2 then Some(NS(NameAt(b, 0)))
    else if qtype == 33 then
      (if |b| >= 6 then Some(SRV(U16(b, 0), U16(b, 2), U16(b, 4), NameAt(b, 6))) else None)
    else None
  }

  /** The record a resolver should see: names in lower case, IPv6 groups written out. */
  function Canonical(r: Record): Record
    requires ValidRecord(r)
  {
    match r
    case A(octets) => r
    case AAAA(address) => AAAA(Full(SpelledAll(Value(address))))
    case CNAME(target) => CNAME(Lower(target))
    case TXT(data) => r
    case MX(priority, exchange) => MX(priority, Lower(exchange))
    case NS(target) => NS(Lower(target))
    case SRV(priority, weight, port, target) => SRV(priority, weight, port, Lower(target))
    case PTR(target) => r
  }

  lemma {:induction false} EncodeLabelsLength(labels: seq<Name>)
    requires LabelsFit(labels, 255)
    ensures |EncodeLabels(labels)| <= |Join(labels)| + 2
  {
    if |labels| > 1 {
      EncodeLabelsLength(labels[1..]);
    } else if |labels| == 1 {
      assert labels[1..] == [];
    }
  }

  /** A schema-valid host name always encodes, and reads back in lower case. */
  lemma {:induction false} HostnameReadsBack(prefix: Octets, name: Name)
    requires ValidHostname(name) && |prefix| <= 6
    ensures NameAfter(prefix, name).Some?
    ensures NameAt(NameAfter(prefix, name).value, |prefix|) == Lower(name)
    ensures NameAfter(prefix, name).value[..|prefix|] == prefix
    ensures |NameAfter(prefix, name).value| > |prefix| + 1
  {
    HostnameEncodes(name);
    var labels := Split(Lower(name));
    var b := prefix + EncodeLabels(labels);
    assert At(b, |prefix|, EncodeLabels(labels));
    hide EncodeLabels, Split, Join, WireLabels, LabelsAt, NameEnd;
    UncompressedReadsBack(b, |prefix|, labels, 0);
  }

  lemma HostnameEncodes(name: Name)
    requires ValidHostname(name)
    ensures Encodable(name) && WireLabels(Split(Lower(name))) && Join(Split(Lower(name))) == Lower(name)
    ensures EncodeName(name) == EncodeLabels(Split(Lower(name))) && 1 < |EncodeName(name)| <= 255
  {
    var labels := Split(Lower(name));
    LowerSplit(name);
    JoinSplit(Lower(name));
    forall i | 0 <= i < |labels| ensures 1 <= |labels[i]| <= 63 {
      assert |labels[i]| == |Split(name)[i]|;
    }
    NonEmptyId(labels);
    EncodeLabelsLength(labels);
    hide Split, Join;
    assert |EncodeLabels(labels)| > 1;
  }

  /** No dotted quad at the end, or nothing but zeros after "::". */
  predicate TailIsHarmless(a: Ipv6)
    requires IsIpv6(a)
  {
    match a
    case Full(pieces) => !EndsDotted(pieces)
    case Elided(left, right) => !EndsDotted(right) || AllZero(Words(right))
  }

  /** The groups written are those the address denotes exactly when the tail is harmless. */
  lemma {:induction false} GroupsExactly(a: Ipv6)
    requires IsIpv6(a)
    ensures Groups(a) == Value(a) <==> TailIsHarmless(a)
  {
    match a
    case Full(pieces) =>
      if !EndsDotted(pieces) { ParsedGroups(pieces); }
    case Elided(left, right) =>
      if EndsDotted(right) {
        var s, x, y, z := DottedWords(right);
        DottedTail(left, right, s, x, y, z);
      } else {
        ParsedGroups(right);
      }
  }

  lemma DottedTail(left: seq<Piece>, right: seq<Piece>, s: seq<u16>, x: u16, y: u16, z: u16)
    requires IsIpv6(Elided(left, right)) && EndsDotted(right)
    requires Pieces(right) && Parsed(right) == s + [x] && Words(right) == s + [y, z] && (y == 0 ==> x == 0)
    ensures Groups(Elided(left, right)) == Value(Elided(left, right)) <==> AllZero(Words(right))
  {
    hide *;
    ElidedParts(left, right);
    TailShift(Words(left), 7 - |left| - |right|, s, x, y, z, Parsed(right), Words(right));
  }

  lemma DottedWords(right: seq<Piece>) returns (s: seq<u16>, x: u16, y: u16, z: u16)
    requires Pieces(right) && EndsDotted(right)
    ensures Parsed(right) == s + [x] && Words(right) == s + [y, z] && (y == 0 ==> x == 0)
  {
    var gs, v4 := right[..|right| - 1], right[|right| - 1].v4;
    DottedEnd(right);
    QuadZero(v4);
    hide *;
    s, x, y, z := Words(gs), ParseHex(Dotted(v4)), (v4.a as int) * 256 + v4.b, (v4.c as int) * 256 + v4.d;
  }

  /** "::" is filled with one zero more than it stands for. */
  lemma ElidedParts(left: seq<Piece>, right: seq<Piece>)
    requires IsIpv6(Elided(left, right)) && EndsDotted(right)
    ensures Pieces(left) && Pieces(right) && |left| + |right| < 7
    ensures Groups(Elided(left, right)) == Words(left) + Zeros(8 - |left| - |right|) + Parsed(right)
    ensures Value(Elided(left, right)) == Words(left) + Zeros(7 - |left| - |right|) + Words(right)
  {
    hide Parsed, Words, Pieces, IsGroup;
  }

  lemma QuadZero(v4: V4)
    ensures (v4.a as int) * 256 + v4.b == 0 ==> ParseHex(Dotted(v4)) == 0
  {
    DecimalZero(v4.a);
  }

  lemma TailShift(left: seq<u16>, n: nat, s: seq<u16>, x: u16, y: u16, z: u16, read: seq<u16>, meant: seq<u16>)
    requires (y == 0 ==> x == 0) && read == s + [x] && meant == s + [y, z]
    ensures left + Zeros(n + 1) + read == left + Zeros(n) + meant <==> AllZero(meant)
  {
    ShiftedEqual(s, x, y, z);
    assert Zeros(n + 1) == Zeros(n) + [0];
    hide Zeros;
    var head := left + Zeros(n);
    assert left + Zeros(n + 1) + (s + [x]) == head + ([0] + s + [x]);
    SamePrefix(head, [0] + s + [x], s + [y, z]);
    assert AllZero(s + [y, z]) <==> AllZero(s) && y == 0 && z == 0 by {
      assert forall i :: 0 <= i < |s| ==> (s + [y, z])[i] == s[i];
      assert (s + [y, z])[|s|] == y && (s + [y, z])[|s| + 1] == z;
    }
  }

  lemma SamePrefix<T>(p: seq<T>, a: seq<T>, b: seq<T>)
    ensures p + a == p + b <==> a == b
  {
    assert (p + a)[|p|..] == a && (p + b)[|p|..] == b;
  }

  lemma AaaaReadsBack(a: Ipv6)
    requires IsIpv6(a)
    ensures Decode(28, GroupOctets(Groups(a))) == Some(Canonical(AAAA(a))) <==> TailIsHarmless(a)
  {
    GroupsExactly(a);
    GroupsReadBack(Groups(a));
    SpelledMeans(Groups(a));
    SpelledMeans(Value(a));
    hide Groups, Value, SpelledAll, TailIsHarmless, GroupsFrom, GroupOctets;
  }

  /** Everything but an AAAA address that ends in a dotted quad. */
  predicate Faithful(r: Record)
    requires ValidRecord(r)
  {
    r.AAAA? ==> TailIsHarmless(r.address)
  }

  /** The rdata of a record decodes to that record, except AAAA whose text ends in a dotted quad: of that only the first
      number is written, its decimal digits read as hex ones. */
  lemma {:induction false} RDataReadsBack(r: Record)
    requires ValidRecord(r) && !r.PTR?
    requires r.TXT? ==> |TxtOctets(r.data)| <= PACKET_SIZE
    ensures RData(r).Some? && (Decode(TypeNumber(r), RData(r).value) == Some(Canonical(r)) <==> Faithful(r))
    ensures |RData(r).value| >= 2 <==> !(r.TXT? && |TxtOctets(r.data)| < 2)
  {
    match r
    case A(octets) =>
    case AAAA(address) => AaaaReadsBack(address);
    case CNAME(target) => HostnameReadsBack([], target);
    case TXT(data) =>
      TxtWhenItFits(data, []);
      assert [] + TxtOctets(data) == TxtOctets(data);
      StringsReadBack(data);
    case MX(priority, exchange) =>
      HostnameReadsBack(Be16(priority), exchange);
      ReadBe16(RData(r).value, 0, priority);
    case NS(target) => HostnameReadsBack([], target);
    case SRV(priority, weight, port, target) =>
      HostnameReadsBack(Be16(priority) + Be16(weight) + Be16(port), target);
      SrvFields(RData(r).value, priority, weight, port);
  }

  lemma SrvFields(b: Octets, priority: u16, weight: u16, port: u16)
    requires |b| >= 6 && b[..6] == Be16(priority) + Be16(weight) + Be16(port)
    ensures U16(b, 0) == priority && U16(b, 2) == weight && U16(b, 4) == port
  {
    assert At(b, 0, Be16(priority) + Be16(weight) + Be16(port));
    AtAppend(b, 0, Be16(priority) + Be16(weight), Be16(port));
    AtAppend(b, 0, Be16(priority), Be16(weight));
    ReadBe16(b, 0, priority);
    ReadBe16(b, 2, weight);
    ReadBe16(b, 4, port);
  }
}
