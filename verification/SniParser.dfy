/** The TLS ClientHello parser and the record accumulation in front of it. */
module SniParser {
  import opened Bytes

  const MAX_EXTENSIONS: nat := 50
  const MAX_CLIENT_HELLO: nat := 16384

  // ---------------------------------------------------------------- the parser

  /** The extension loop from `pos`, with `count` extensions seen. */
  function Walk(d: Octets, pos: nat, end: nat, count: nat): Option<Octets>
    decreases |d| - pos
  {
    if pos >= end || pos + 4 > |d| then None
    else if count > MAX_EXTENSIONS then None
    else
      var data := pos + 4;
      if U16(d, pos) == 0 && data + 2 >= |d| then None
      else if U16(d, pos) == 0 && d[data + 2] == 0 then
        if data + 5 > |d| || data + 5 + U16(d, data + 3) > |d| then None
        else Some(d[data + 5..data + 5 + U16(d, data + 3)])
      else Walk(d, data + U16(d, pos + 2), end, count + 1)
  }

  /** extractSNI */
  function Sni(d: Octets): Option<Octets>
  {
    if |d| < 6 || d[0] != 0x16 || d[5] != 1 || |d| <= 43 then None
    else
      var suites: nat := 44 + d[43] as int;
      if suites + 2 > |d| then None
      else
        var compression := suites + 2 + U16(d, suites);
        if compression >= |d| then None
        else
          var extensions := compression + 1 + d[compression];
          if extensions + 2 > |d| then None
          else Walk(d, extensions + 2, extensions + 2 + U16(d, extensions), 0)
  }

  /** Every read below is in bounds on every input, so the handler's catch is never needed, and the loop ends. */
  method ExtractSni(data: array<byte>) returns (r: Option<Octets>)
    ensures r == Sni(data[..])
  {
    if data.Length < 5 || data[0] != 0x16 || data.Length == 5 || data[5] != 0x01 { return None; }
    var offset := 43;
    if offset >= data.Length { return None; }
    offset := offset + 1 + data[offset];
    if offset >= data.Length { return None; }
    if offset + 2 > data.Length { return None; }
    offset := offset + 2 + U16(data[..], offset);
    if offset >= data.Length { return None; }
    offset := offset + 1 + data[offset];
    if offset + 2 > data.Length { return None; }
    var extensionsLength := U16(data[..], offset);
    offset := offset + 2;
    r := WalkExtensions(data, offset, offset + extensionsLength);
  }

  method WalkExtensions(data: array<byte>, start: nat, end: nat) returns (r: Option<Octets>)
    ensures r == Walk(data[..], start, end, 0)
  {
    hide U16;
    var offset, count := start, 0;
    while offset < end && offset + 4 <= data.Length
      invariant Walk(data[..], offset, end, count) == Walk(data[..], start, end, 0)
      decreases data.Length - offset
    {
      if count > MAX_EXTENSIONS { return None; }
      count := count + 1;
      var extType := U16(data[..], offset);
      var extLength := U16(data[..], offset + 2);
      offset := offset + 4;
      if extType == 0 {
        var sniOffset := offset + 2;
        if sniOffset >= data.Length { return None; }
        if data[sniOffset] == 0 {
          sniOffset := sniOffset + 1;
          if sniOffset + 2 > data.Length { return None; }
          var nameLength := U16(data[..], sniOffset);
          sniOffset := sniOffset + 2;
          if sniOffset + nameLength > data.Length { return None; }
          return Some(data[sniOffset..sniOffset + nameLength]);
        }
      }
      offset := offset + extLength;
    }
    return None;
  }

  // ---------------------------------------------------------------- serialization
  // RFC 8446 section 4.1.2 and RFC 6066 section 3

  /** A server_name extension by its first entry and what follows it, or any other extension. */
  datatype Extension =
    | ServerName(nameType: byte, name: Octets, more: Octets)
    | Other(extType: u16, data: Octets)

  datatype ClientHello = ClientHello(recordVersion: Octets, version: Octets, random: Octets, session: Octets,
                                     suites: Octets, compression: Octets, extensions: seq<Extension>)

  predicate FitsExtension(x: Extension)
  {
    match x
    case ServerName(_, name, more) => 5 + |name| + |more| < 0x1_0000
    case Other(extType, data) => extType != 0 && |data| < 0x1_0000
  }

  function Payload(x: Extension): (r: Octets)
    requires FitsExtension(x)
    ensures |r| < 0x1_0000
  {
    match x
    case ServerName(nameType, name, more) => Be16(3 + |name| + |more|) + [nameType] + Be16(|name|) + name + more
    case Other(_, data) => data
  }

  function EncodeExtension(x: Extension): (r: Octets)
    requires FitsExtension(x)
    ensures |r| == 4 + |Payload(x)|
  {
    Be16(if x.ServerName? then 0 else x.extType) + Be16(|Payload(x)|) + Payload(x)
  }

  predicate FitExtensions(xs: seq<Extension>)
  {
    forall i :: 0 <= i < |xs| ==> FitsExtension(xs[i])
  }

  function EncodeExtensions(xs: seq<Extension>): Octets
    requires FitExtensions(xs)
  {
    if xs == [] then [] else EncodeExtension(xs[0]) + EncodeExtensions(xs[1..])
  }

  predicate FitsHello(h: ClientHello)
  {
    && |h.recordVersion| == 2 && |h.version| == 2 && |h.random| == 32
    && |h.session| < 0x100 && |h.suites| < 0x1_0000 && |h.compression| < 0x100
    && FitExtensions(h.extensions) && |EncodeExtensions(h.extensions)| < 0x1_0000
    && |Body(h)| < 0xfffc
  }

  function Body(h: ClientHello): Octets
    requires |h.session| < 0x100 && |h.suites| < 0x1_0000 && |h.compression| < 0x100
    requires FitExtensions(h.extensions) && |EncodeExtensions(h.extensions)| < 0x1_0000
  {
    h.version + h.random
    + [|h.session|] + h.session
    + Be16(|h.suites|) + h.suites
    + [|h.compression|] + h.compression
    + Be16(|EncodeExtensions(h.extensions)|) + EncodeExtensions(h.extensions)
  }

  /** One TLS record holding the handshake message. */
  function Record(h: ClientHello): Octets
    requires FitsHello(h)
  {
    [0x16] + h.recordVersion + Be16(4 + |Body(h)|) + ([1, 0] + Be16(|Body(h)|)) + Body(h)
  }

  /** The name the hello asks for: the first host_name among the first 51 extensions. */
  function Requested(xs: seq<Extension>, count: nat): Option<Octets>
    decreases |xs|
  {
    if xs == [] || count > 50 then None
    else if xs[0].ServerName? && xs[0].nameType == 0 then Some(xs[0].name)
    else Requested(xs[1..], count + 1)
  }

  lemma AtSlice(d: Octets, pos: nat, x: Octets)
    requires At(d, pos, x)
    ensures pos + |x| <= |d| && d[pos..pos + |x|] == x
  {
  }

  /** One extension as the loop reads it. */
  lemma WalkOne(d: Octets, pos: nat, end: nat, count: nat, x: Extension)
    requires FitsExtension(x) && At(d, pos, EncodeExtension(x)) && pos < end && count <= MAX_EXTENSIONS
    ensures Walk(d, pos, end, count) ==
            if x.ServerName? && x.nameType == 0 then Some(x.name)
            else Walk(d, pos + |EncodeExtension(x)|, end, count + 1)
  {
    hide At, U16, Be16, Payload;
    var head, size := Be16(if x.ServerName? then 0 else x.extType), Be16(|Payload(x)|);
    AtSlice(d, pos, EncodeExtension(x));
    AtAppend(d, pos, head + size, Payload(x));
    AtAppend(d, pos, head, size);
    ReadBe16(d, pos, if x.ServerName? then 0 else x.extType);
    ReadBe16(d, pos + 2, |Payload(x)|);
    if x.ServerName? {
      ServerNamePayload(d, pos + 4, x);
    }
  }

  lemma ServerNamePayload(d: Octets, pos: nat, x: Extension)
    requires x.ServerName? && FitsExtension(x) && At(d, pos, Payload(x))
    ensures |Payload(x)| >= 5 && pos + |Payload(x)| <= |d|
    ensures d[pos + 2] == x.nameType
    ensures U16(d, pos + 3) == |x.name| && pos + 5 + |x.name| <= |d|
    ensures d[pos + 5..pos + 5 + |x.name|] == x.name
  {
    hide At, U16, Be16;
    var list := Be16(3 + |x.name| + |x.more|);
    AtSlice(d, pos, Payload(x));
    AtAppend(d, pos, list + [x.nameType] + Be16(|x.name|) + x.name, x.more);
    AtAppend(d, pos, list + [x.nameType] + Be16(|x.name|), x.name);
    AtAppend(d, pos, list + [x.nameType], Be16(|x.name|));
    AtAppend(d, pos, list, [x.nameType]);
    AtIndex(d, pos + 2, [x.nameType], 0);
    ReadBe16(d, pos + 3, |x.name|);
    AtSlice(d, pos + 5, x.name);
  }

  lemma WalkStops(d: Octets, pos: nat, end: nat, count: nat)
    ensures pos >= end || count > MAX_EXTENSIONS ==> Walk(d, pos, end, count) == None
  {
  }

  lemma {:induction false} WalkAll(d: Octets, pos: nat, end: nat, count: nat, xs: seq<Extension>)
    requires FitExtensions(xs) && At(d, pos, EncodeExtensions(xs)) && end == pos + |EncodeExtensions(xs)|
    ensures Walk(d, pos, end, count) == Requested(xs, count)
    decreases |xs|
  {
    hide At, EncodeExtension, U16, FitsExtension, Walk;
    WalkStops(d, pos, end, count);
    if xs != [] && count <= MAX_EXTENSIONS {
      assert FitsExtension(xs[0]);
      AtAppend(d, pos, EncodeExtension(xs[0]), EncodeExtensions(xs[1..]));
      WalkOne(d, pos, end, count, xs[0]);
      WalkAll(d, pos + |EncodeExtension(xs[0])|, end, count + 1, xs[1..]);
    }
  }

  /** Where the extensions start, given the sizes of the fields before them. */
  function ExtensionsAt(session: nat, suites: nat, compression: nat): nat
  {
    44 + session + 2 + suites + 1 + compression + 2
  }

  /** The length fields of a hello at the places the parser reads them. */
  predicate Layout(d: Octets, session: nat, suites: nat, compression: nat, size: nat)
  {
    var at := 44 + session + 2 + suites;
    && |d| >= at + 1 + compression + 2 + size
    && d[43] == session && U16(d, 44 + session) == suites
    && d[at] == compression && U16(d, at + 1 + compression) == size
  }

  lemma RecordLayout(h: ClientHello, tail: Octets)
    requires FitsHello(h)
    ensures var d, exts := Record(h) + tail, EncodeExtensions(h.extensions);
            && |d| >= 9 && d[0] == 0x16 && d[5] == 1
            && U16(d, 3) == 4 + |Body(h)| && |Record(h)| == 9 + |Body(h)|
            && Layout(d, |h.session|, |h.suites|, |h.compression|, |exts|)
            && At(d, ExtensionsAt(|h.session|, |h.suites|, |h.compression|), exts)
  {
    hide At, EncodeExtensions, FitExtensions, Be16, U16;
    var d, exts := Record(h) + tail, EncodeExtensions(h.extensions);
    var a := [0x16] + h.recordVersion;
    var a1 := Be16(4 + |Body(h)|);
    var a2: Octets := [1, 0] + Be16(|Body(h)|);
    WholeStands(Record(h), tail);
    AtAppend(d, 0, a + a1 + a2, Body(h));
    AtAppend(d, 0, a + a1, a2);
    AtAppend(d, 0, a, a1);
    ReadBe16(d, 3, 4 + |Body(h)|);
    AtIndex(d, 0, a, 0);
    AtIndex(d, 5, a2, 0);
    BodyLayout(d, h);
  }

  lemma WholeStands(x: Octets, tail: Octets)
    ensures At(x + tail, 0, x)
  {
  }

  lemma BodyLayout(d: Octets, h: ClientHello)
    requires FitsHello(h) && At(d, 9, Body(h))
    ensures var exts := EncodeExtensions(h.extensions);
            && Layout(d, |h.session|, |h.suites|, |h.compression|, |exts|)
            && At(d, ExtensionsAt(|h.session|, |h.suites|, |h.compression|), exts)
  {
    hide At, EncodeExtensions, FitExtensions, Be16, U16;
    var exts := EncodeExtensions(h.extensions);
    var b0 := h.version + h.random;
    var b1 := b0 + [|h.session|];
    var b2 := b1 + h.session;
    var b3 := b2 + Be16(|h.suites|);
    var b4 := b3 + h.suites;
    var b5 := b4 + [|h.compression|];
    var b6 := b5 + h.compression;
    var b7 := b6 + Be16(|exts|);
    assert Body(h) == b7 + exts;
    AtAppend(d, 9, b7, exts);
    AtAppend(d, 9, b6, Be16(|exts|));
    AtAppend(d, 9, b5, h.compression);
    AtAppend(d, 9, b4, [|h.compression|]);
    AtAppend(d, 9, b3, h.suites);
    AtAppend(d, 9, b2, Be16(|h.suites|));
    AtAppend(d, 9, b1, h.session);
    AtAppend(d, 9, b0, [|h.session|]);
    AtIndex(d, 43, [|h.session|], 0);
    ReadBe16(d, 44 + |h.session|, |h.suites|);
    AtIndex(d, 9 + |b4|, [|h.compression|], 0);
    ReadBe16(d, 9 + |b6|, |exts|);
    AtSlice(d, 9 + |b7|, exts);
  }

  /** For every hello that fits one record, whatever follows it in the buffer, the parser returns exactly the
      first host_name among the first 51 extensions, and null when there is none. */
  lemma {:induction false} SniRoundTrip(h: ClientHello, tail: Octets)
    requires FitsHello(h)
    ensures Sni(Record(h) + tail) == Requested(h.extensions, 0)
  {
    RecordLayout(h, tail);
    hide *;
    SniFromLayout(Record(h) + tail, |h.session|, |h.suites|, |h.compression|, h.extensions);
  }

  lemma {:induction false} SniFromLayout(d: Octets, session: nat, suites: nat, compression: nat, xs: seq<Extension>)
    requires FitExtensions(xs) && |d| >= 9 && d[0] == 0x16 && d[5] == 1
    requires Layout(d, session, suites, compression, |EncodeExtensions(xs)|)
    requires At(d, ExtensionsAt(session, suites, compression), EncodeExtensions(xs))
    ensures Sni(d) == Requested(xs, 0)
  {
    hide *;
    var start := ExtensionsAt(session, suites, compression);
    SniOnLayout(d, session, suites, compression, |EncodeExtensions(xs)|);
    WalkAll(d, start, start + |EncodeExtensions(xs)|, 0, xs);
  }

  lemma SniOnLayout(d: Octets, session: nat, suites: nat, compression: nat, size: nat)
    requires |d| >= 9 && d[0] == 0x16 && d[5] == 1 && Layout(d, session, suites, compression, size)
    ensures var start := ExtensionsAt(session, suites, compression);
            Sni(d) == Walk(d, start, start + size, 0)
  {
    hide U16, Walk;
  }

  /** A name stands at `i` as a server_name entry of type host_name: the type, the length, the octets. */
  predicate NameStands(d: Octets, i: nat, name: Octets)
  {
    3 <= i && At(d, i, name) && d[i - 3] == 0 && U16(d, i - 2) == |name|
  }

  lemma U16InPrefix(d: Octets, k: nat, i: nat)
    requires i + 2 <= k <= |d|
    ensures U16(d[..k], i) == U16(d, i)
  {
  }

  /** One turn of the extension loop that finds something, in the octets cut off at `k`. */
  lemma WalkTurn(d: Octets, pos: nat, end: nat, count: nat, k: nat)
    requires k <= |d| && Walk(d[..k], pos, end, count).Some?
    ensures pos + 6 <= k && (U16(d, pos) == 0 ==> pos + 6 < k)
    ensures var next := pos + 4 + U16(d, pos + 2);
            if U16(d, pos) == 0 && d[pos + 6] == 0
            then pos + 9 <= k && pos + 9 + U16(d, pos + 7) <= k
                 && Walk(d[..k], pos, end, count) == Some(d[pos + 9..pos + 9 + U16(d, pos + 7)])
                 && Walk(d, pos, end, count) == Walk(d[..k], pos, end, count)
            else Walk(d[..k], pos, end, count) == Walk(d[..k], next, end, count + 1)
                 && Walk(d, pos, end, count) == Walk(d, next, end, count + 1)
  {
    assert pos + 4 <= k;
    U16InPrefix(d, k, pos);
    U16InPrefix(d, k, pos + 2);
    hide U16;
    if U16(d, pos) == 0 && d[pos + 6] == 0 {
      U16InPrefix(d, k, pos + 7);
      var n := U16(d, pos + 7);
      assert d[..k][pos + 9..pos + 9 + n] == d[pos + 9..pos + 9 + n];
    }
  }

  lemma {:induction false} WalkReads(d: Octets, pos: nat, end: nat, count: nat, k: nat) returns (i: nat)
    requires k <= |d| && Walk(d[..k], pos, end, count).Some?
    ensures NameStands(d, i, Walk(d[..k], pos, end, count).value) && pos < i <= k
    ensures Walk(d, pos, end, count) == Walk(d[..k], pos, end, count)
    decreases |d| - pos
  {
    WalkTurn(d, pos, end, count, k);
    hide Walk, U16;
    if U16(d, pos) == 0 && d[pos + 6] == 0 {
      i := pos + 9;
    } else {
      i := WalkReads(d, pos + 4 + U16(d, pos + 2), end, count + 1, k);
    }
  }

  /** Octets that are no handshake record with a ClientHello have no name. A name that is found stands in the octets as
      a host_name entry behind the fixed part, and further octets do not change it. */
  lemma {:induction false} SniReads(d: Octets, k: nat)
    requires k <= |d|
    ensures |d| < 6 || d[0] != 22 || d[5] != 1 ==> Sni(d) == None
    ensures Sni(d[..k]).Some? ==>
              Sni(d) == Sni(d[..k]) && exists i: nat :: 44 < i <= k && NameStands(d, i, Sni(d[..k]).value)
  {
    hide Walk, NameStands;
    if Sni(d[..k]).Some? {
      var suites := 44 + d[43] as int;
      assert U16(d, suites) == U16(d[..k], suites);
      var extensions := suites + 2 + U16(d, suites) + 1 + d[suites + 2 + U16(d, suites)];
      assert U16(d, extensions) == U16(d[..k], extensions);
      hide U16;
      var i := WalkReads(d, extensions + 2, extensions + 2 + U16(d, extensions), 0, k);
    }
  }

  // ---------------------------------------------------------------- accumulation

  /** A connection: waiting with what it has, dropped for size, or handled with the parser's result. */
  datatype Progress = Waiting(buffer: Octets) | Dropped | Handled(sni: Option<Octets>)

  function Feed(p: Progress, chunk: Octets): Progress
  {
    if !p.Waiting? then p
    else if |p.buffer| + |chunk| > MAX_CLIENT_HELLO then Dropped
    else
      var buffer := p.buffer + chunk;
      if |buffer| < 5 || |buffer| < 5 + U16(buffer, 3) then Waiting(buffer) else Handled(Sni(buffer))
  }

  class SniConnection {
    var buffer: array<byte>
    var isHandled: bool
    var isDestroyed: bool
    var sni: Option<Octets>

    ghost function View(): Progress
      reads this, buffer
    {
      if isHandled then Handled(sni) else if isDestroyed then Dropped else Waiting(buffer[..])
    }

    constructor ()
      ensures View() == Waiting([])
    {
      buffer := new byte[0];
      isHandled, isDestroyed, sni := false, false, None;
    }

    /** The data event; a destroyed socket delivers none. */
    method OnData(chunk: Octets)
      modifies this
      ensures View() == Feed(old(View()), chunk)
    {
      if isHandled || isDestroyed { return; }
      if buffer.Length + |chunk| > MAX_CLIENT_HELLO {
        isDestroyed := true;
        return;
      }
      buffer := ToBuffer(buffer[..] + chunk);
      if buffer.Length < 5 { return; }
      var recordLength: nat := U16(buffer[..], 3);
      if buffer.Length < 5 + recordLength { return; }
      isHandled := true;
      sni := ExtractSni(buffer);
    }
  }

  function FeedAll(p: Progress, chunks: seq<Octets>): Progress
    decreases |chunks|
  {
    if chunks == [] then p else FeedAll(Feed(p, chunks[0]), chunks[1..])
  }

  function Concat(chunks: seq<Octets>): Octets
  {
    if chunks == [] then [] else chunks[0] + Concat(chunks[1..])
  }

  lemma {:induction false} FinishedStays(p: Progress, chunks: seq<Octets>)
    requires !p.Waiting?
    ensures FeedAll(p, chunks) == p
    decreases |chunks|
  {
    if chunks != [] { FinishedStays(p, chunks[1..]); }
  }

  lemma PrefixLength(h: ClientHello, got: Octets)
    requires FitsHello(h) && got <= Record(h) && |got| >= 5
    ensures U16(got, 3) == 4 + |Body(h)| && |Record(h)| == 9 + |Body(h)|
  {
    RecordLayout(h, []);
    assert Record(h) + [] == Record(h);
    hide Record;
    assert got[3] == Record(h)[3] && got[4] == Record(h)[4];
  }

  lemma WholeRecord(h: ClientHello, got: Octets)
    requires FitsHello(h) && Record(h) <= got
    ensures |got| >= 5 && U16(got, 3) == 4 + |Body(h)| && |Record(h)| == 9 + |Body(h)|
    ensures Sni(got) == Requested(h.extensions, 0)
  {
    var tail := got[|Record(h)|..];
    assert got == Record(h) + tail;
    RecordLayout(h, tail);
    SniRoundTrip(h, tail);
  }

  /** What is buffered when the chunk that completes `size` octets has been added. */
  function SizeAtCompletion(got: nat, chunks: seq<Octets>, size: nat): nat
    decreases |chunks|
  {
    if got >= size || chunks == [] then got else SizeAtCompletion(got + |chunks[0]|, chunks[1..], size)
  }

  lemma {:induction false} CompletionGrows(got: nat, chunks: seq<Octets>, size: nat)
    ensures SizeAtCompletion(got, chunks, size) >= got
    decreases |chunks|
  {
    if got < size && chunks != [] { CompletionGrows(got + |chunks[0]|, chunks[1..], size); }
  }

  lemma {:induction false} FeedFrom(h: ClientHello, got: Octets, chunks: seq<Octets>)
    requires FitsHello(h) && |got| < |Record(h)| && got <= Record(h)
    requires Record(h) <= got + Concat(chunks)
    ensures FeedAll(Waiting(got), chunks)
         == if SizeAtCompletion(|got|, chunks, |Record(h)|) <= MAX_CLIENT_HELLO
            then Handled(Requested(h.extensions, 0)) else Dropped
    decreases |chunks|
  {
    hide Record, Sni, U16, FitsHello, Body;
    assert chunks == [] ==> got + Concat(chunks) == got;
    if chunks != [] {
      var now := got + chunks[0];
      assert got + Concat(chunks) == now + Concat(chunks[1..]);
      CompletionGrows(|now|, chunks[1..], |Record(h)|);
      if |now| > MAX_CLIENT_HELLO {
        FinishedStays(Dropped, chunks[1..]);
      } else if |now| < |Record(h)| {
        PrefixOfBoth(now, Concat(chunks[1..]), Record(h));
        if |now| >= 5 { PrefixLength(h, now); }
        FeedFrom(h, now, chunks[1..]);
      } else {
        PrefixOfLonger(now, Concat(chunks[1..]), Record(h));
        WholeRecord(h, now);
        FinishedStays(Handled(Sni(now)), chunks[1..]);
      }
    }
  }

  lemma PrefixOfBoth(a: Octets, b: Octets, r: Octets)
    requires r <= a + b && |a| <= |r|
    ensures a <= r
  {
    assert a == (a + b)[..|a|] == r[..|a|];
  }

  lemma PrefixOfLonger(a: Octets, b: Octets, r: Octets)
    requires r <= a + b && |r| <= |a|
    ensures r <= a
  {
    assert r == (a + b)[..|r|] == a[..|r|];
  }

  /** However the stream is cut and whatever follows the hello: it is handled, with the name it asks for, if and only
      if no more than 16384 octets are buffered when the chunk that completes it arrives; else the connection is
      dropped. */
  lemma {:induction false} SniIsChunkIndependent(h: ClientHello, chunks: seq<Octets>)
    requires FitsHello(h) && Record(h) <= Concat(chunks)
    ensures FeedAll(Waiting([]), chunks)
         == if SizeAtCompletion(0, chunks, |Record(h)|) <= 16384
            then Handled(Requested(h.extensions, 0)) else Dropped
  {
    assert [] + Concat(chunks) == Concat(chunks);
    FeedFrom(h, [], chunks);
  }
}
