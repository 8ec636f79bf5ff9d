# Zonzon, verified in Dafny

This project models the protocol code of Zonzon, a DNS server and proxy, and proves what that code promises: that
what the encoders write the decoders read back, that the cache cannot be told from the resolver behind it, that the
parsers do not depend on how a stream is cut, and what every interleaving of the small concurrent state machines keeps.

`dafny verify dfyconfig.toml` checks the whole project.

## What is modelled

| module | subject |
|---|---|
| `Bytes`, `Text`, `OrderedMap` | octets and network order; the string operations the server uses, on ASCII; the JavaScript `Map` with its insertion order |
| `WireFormat`, `Questions` | the cursor-based encoder and decoder, compression pointers, question parsing |
| `Records`, `Responses`, `ResponseReading`, `TtlRewrite` | rdata, response packets, what a reader gets back, in-place TTL rewriting |
| `HostLookup`, `IpAddress`, `IpPolicy` | host and wildcard lookup; addresses as text; domain and address policy |
| `CacheKey`, `Resolver`, `CacheRuns` | the resolver with its cache, over whole runs |
| `AnswerRoundTrip`, `ResolverOutcomes`, `UpstreamAddresses` | from a configuration to the records a client decodes; what every query comes to; the addresses in other servers' messages |
| `CaseMixing` | 0x20 mixing and the echo check |
| `SniParser`, `TcpFraming` | the TLS ClientHello parser and the TCP reassembly loop |
| `Dnssec`, `DnssecMessage`, `DnssecVerdict`, `DnssecOrder` | canonical order, signed payload and key tag; validation of a whole response; what a signature is checked against; exactly when acceptance depends on the order of the records |
| `ConfigLock`, `RateLimiter`, `RateBounds`, `CircuitBreaker` | the three concurrent state machines; exactly when the rate limiter's bounds hold |
| `Examples`, `DnssecExample` | concrete configurations, queries and messages at which the exact conditions can be seen |

Code that works step by step is modelled by classes, arrays and loops; each such method is proved equal to a function
of its inputs or of the old state, and the theorems are about those functions. Exceptions are `None`, `Thrown` or
`ok == false`. Clocks, random bits, the outcome of validation and of file operations, and the signature primitive are
parameters, so the theorems hold for all of them. An asynchronous method is cut at its awaits into steps, and runs
interleave the steps of any number of calls.

## What the proofs brought to light

- A name behind six compression pointers is read as if it ended at the sixth, also in the question of a query
  (`WireFormat.SixPointersLoseTheName`, `Questions.SixPointerQuestion`).
- The configuration accepts records that are never sent: PTR, TXT of fewer than two octets, and TXT whose length octets
  do not fit 4096 octets. The last kind turns the whole reply into an exception (`AnswerRoundTrip.NeverSent`,
  `AnswerRoundTrip.OneRecordFailsTheReply`, `Examples.SeventeenStringsThrow`).
- An AAAA address written with a dotted quad at its end is sent as another address or with the wrong length
  (`Records.GroupsExactly`, `Examples.DottedTailIsMisread`).
- A response over 4096 octets makes the builder throw, unless only the last rdata runs over: then it is cut silently
  (`Responses.AssembleExact`, `Examples.SixteenStringsAreCut`).
- The response code is or-ed onto the low four flag bits of the query instead of replacing them, so a reply can carry
  another code than the planned one (`Resolver.ReplyCodeExactly`, `Examples.CodeIsNotReplaced`).
- Every answer names the first question as its owner, also the answers to later questions
  (`AnswerRoundTrip.OwnersExactly`, `Examples.SecondAnswerIsMisnamed`).
- A cached reply carries the id and flags of the query that filled the entry, and a fixed TTL
  (`CacheRuns.CachedReplyKeepsHeader`, `Examples.SecondClientGetsFirstId`).
- Address policies recognise IPv4-mapped and internal IPv6 addresses by their spelling, and a range with a number above
  85 behind its slash matches everything (`IpPolicy.MappedFormSameVerdict`, `IpPolicy.RestrictedV6Exactly`,
  `IpPolicy.MatchesEverything`).
- A TCP message of 65535 octets can never be delivered (`TcpFraming.DeliverableExactly`).
- DNSSEC validation accepts whatever it cannot check, and tries only the first of several keys with one tag, so that
  acceptance can depend on their order (`DnssecMessage.AcceptedUnlessOneFails`, `DnssecOrder.AcceptanceFreeExactly`,
  `DnssecExample.KeyOrderMatters`).
- Zonzon's own README calls the rate limiter a sliding window. It is a fixed window: an interval of one window's
  length can hold 2 * maxRequests - 1 requests, never more while the address is not evicted
  (`RateBounds.SlidesExactly`). A full table of three or more places evicts live buckets, and then that bound is lost
  too (`RateBounds.BoundHoldsExactly`).
- A half-open circuit breaker lets every call through, and a late failure of an old call ends the break early
  (`CircuitBreaker.HalfOpenRefusesNothing`, `CircuitBreaker.LateFailureEndsTheBreak`).

## Model

| member | source | states |
|---|---|---|
| WireFormat.CompressedNameDecodes | packages/core/src/dns-service.ts:61-121 | A name encoded on the wire with any mix of labels and compression pointers decodes to its labels if and only if no label lies beyond a sixth pointer; five pointers or fewer always decode |
| WireFormat.ReadsUpToSixthPointer | packages/core/src/dns-service.ts:61-121 | For every valid encoding the reader returns exactly the labels that come before the sixth pointer |
| WireFormat.SixPointersLoseTheName | packages/core/src/dns-service.ts:61-121 | A concrete 55-octet query that asks for `a` seven times, each further name a pointer to the one before it: the reader reads `a` behind one to five pointers and the root behind six |
| WireFormat.CursorAfterCompressedName | packages/core/src/dns-service.ts:61-121 | After a compressed name the cursor stands behind the octets stored in place, wherever the pointers lead |
| WireFormat.UncompressedReadsBack | packages/core/src/dns-service.ts:29-121 | Round trip: an uncompressed name reads back label for label at any place in any packet, and the cursor lands right behind it |
| WireFormat.MalformedNameStops | packages/core/src/dns-service.ts:61-121 | A name that goes wrong, by the end of the packet, an octet of the reserved kinds, a label or a pointer that is cut off, is the labels before the fault, with the cursor behind the octet at fault |
| WireFormat.RewriteLowersCase | packages/core/src/dns-service.ts:29-37 | Writing a name that was read yields the same labels in lower case if and only if no label contains a dot |
| WireFormat.ReadNamesAreWritable | packages/core/src/dns-service.ts:29-121 | Whatever octets a name is read from, its pieces are at most 63 octets, so writing it cannot fail on a length octet |
| WireFormat.DnsWireFormat.CollectLabels | packages/core/src/dns-service.ts:61-121 | The loop of readDomainName ends on every buffer and offset (measure: pointers left, then octets left), reads only in bounds, and returns the specified labels and cursor |
| WireFormat.DnsWireFormat.ReadDomainName | packages/core/src/dns-service.ts:61-121 | Returns the labels joined by dots and leaves the cursor past the start and inside the buffer |
| WireFormat.DnsWireFormat.WriteDomainName | packages/core/src/dns-service.ts:29-37 | Fails exactly when a piece exceeds 255 octets or the encoding does not fit; otherwise appends the lower-case encoding and nothing else |
| WireFormat.DnsWireFormat.WriteUint8 | packages/core/src/dns-service.ts:19-22 | Appends one octet or, out of range or out of space, changes nothing and fails |
| WireFormat.DnsWireFormat.WriteUint16 | packages/core/src/dns-service.ts:14-17 | Appends two octets in network order or fails without effect |
| WireFormat.DnsWireFormat.WriteUint32 | packages/core/src/dns-service.ts:138-141 | Appends four octets in network order or fails without effect |
| WireFormat.DnsWireFormat.WriteBytes | packages/core/src/dns-service.ts:24-27 | Never fails: the offset moves by the full length while the buffer silently keeps only what fits |
| WireFormat.DnsWireFormat.ReadUint8 | packages/core/src/dns-service.ts:50-59 | Reads in bounds or yields 0 and moves to the end |
| WireFormat.DnsWireFormat.ReadUint16 | packages/core/src/dns-service.ts:39-48 | Reads in bounds or yields 0 and moves to the end |
| WireFormat.DnsWireFormat.ReadUint32 | packages/core/src/dns-service.ts:123-132 | Reads in bounds or yields 0 and moves to the end |
| WireFormat.DnsWireFormat.Finish | packages/core/src/dns-service.ts:134-136 | Returns everything written, cut at the capacity of the buffer |
| Questions.ParseQuestion | packages/core/src/dns-service.ts:218-232 | Name, type and end of the question at an offset; nothing when the fixed fields are missing or the class is neither IN nor ANY |
| Questions.ExtractQuestions | packages/core/src/dns-service.ts:234-247 | The questions up to the claimed count, stopping at the first malformed one |
| Questions.ExtractedQuestionsAreBounded | packages/core/src/dns-service.ts:234-247 | For every buffer and any claimed count: at most min(qdcount, (length - 12) / 5) questions, with strictly increasing offsets inside the buffer |
| Questions.SectionReadsBack | packages/core/src/dns-service.ts:218-247 | Round trip: a written question section reads back exactly, wherever it stands and whatever surrounds it |
| Questions.QuestionParsesExactly | packages/core/src/dns-service.ts:218-232 | A question with a name in any encoding parses if and only if its four octets are there and the class is 1 or 255, and then to its name, its type and the offset behind it |
| Questions.StopsAtFirstMalformed | packages/core/src/dns-service.ts:234-247 | Extraction ends at the first question that does not parse, whatever follows and however many are announced |
| Questions.SixPointerQuestion | packages/core/src/dns-service.ts:218-247 | That query is parsed as six questions for `a` and one for the root |
| Records.EncodeAaaa | packages/core/src/dns-service.ts:149-166 | One group for each piece of the text, `::` filled up to eight pieces with zeros; of a dotted quad only the first number, its decimal digits read as hex ones |
| Records.GroupsExactly | packages/core/src/dns-service.ts:149-166 | The groups written are those the text denotes if and only if it does not end in a dotted quad or all behind `::` is zero |
| Records.EncodeTarget | packages/core/src/dns-service.ts:168-172 | CNAME and NS rdata: the encoded name, or an exception |
| Records.EncodeTxt | packages/core/src/dns-service.ts:174-182 | Length-prefixed strings in order; an exception for a length octet without room, a silent cut for text without room |
| Records.TxtExactly | packages/core/src/dns-service.ts:174-182 | The exact split: encodeTXT throws if and only if all but the text of the last string exceeds 4096 octets, and otherwise returns the strings cut at 4096 |
| Records.EncodeMx | packages/core/src/dns-service.ts:184-189 | Priority followed by the encoded exchange, or an exception |
| Records.EncodeSrv | packages/core/src/dns-service.ts:197-204 | Priority, weight, port and the encoded target, or an exception |
| Records.BuildSingleAnswer | packages/core/src/dns-service.ts:540-578 | Type, class IN, TTL 300, rdata length and rdata in one buffer; PTR has no case and gets no rdata |
| Records.BuildAnswers | packages/core/src/dns-service.ts:580-589 | The entries of exactly the records of the asked type, in configuration order |
| Records.RDataReadsBack | packages/core/src/dns-service.ts:149-204 | Round trip of the rdata of all seven encodable types: decoding gives the configured record, names in lower case and IPv6 groups written out, if and only if it is not AAAA text with a dotted tail |
| Records.HostnameReadsBack | packages/core/src/dns-service.ts:29-37 | A host name the schema admits encodes, within any rdata, and reads back in lower case |
| Responses.BuildResponsePacket | packages/core/src/dns-service.ts:309-366 | The builder's loops against the packet as a function: header, questions, and for each kept answer a pointer to offset 12 and its entry; the answer count is patched in last |
| Responses.AssembleExact | packages/core/src/dns-service.ts:309-366 | The builder succeeds if and only if every name can be written and the packet without the last rdata fits 4096 octets; the result is the packet cut at 4096 octets, so it is intact exactly when it fits |
| Resolver.ReplyCodeExactly | packages/core/src/dns-service.ts:320-717 | Every reply to an accepted query has QR and AA set and the query's other high bits; its low four bits are the planned code if and only if the query's own low four bits lie within that code |
| Examples.CodeIsNotReplaced | packages/core/src/dns-service.ts:320-687 | An instance: an unknown name asked with the flags 0x0104 gets the code 7 instead of 3 |
| ResponseReading.AnswersReadBack | packages/core/src/dns-service.ts:338-361 | Every answer reads back field by field; its owner is the first question's name, whichever question it answers |
| ResponseReading.LayoutReadsBack | packages/core/src/dns-service.ts:309-366 | Any buffer laid out as a response reads back: lower-case questions, exactly its answers, and the address list of its A answers |
| ResponseReading.ParseResolvedIpv4s | packages/core/src/dns-handler.ts:279-305 | The address extraction on any message of at least twelve octets, octets past the end included |
| UpstreamAddresses.AddressesAreFound | packages/core/src/dns-handler.ts:279-305 | On every message with a legal question section, its records of any types with owners in full or behind up to five pointers, the addresses are exactly the rdata of the records of type 1 and four octets, in order |
| UpstreamAddresses.CutAddress | packages/core/src/dns-handler.ts:279-305 | An address the packet cuts off is kept, without the octets that are missing |
| TtlRewrite.SkipQuestionSection | packages/core/src/dns-service.ts:493-508 | The offset behind one question, or the start again when it is malformed |
| TtlRewrite.RewriteResponseTtl | packages/core/src/dns-service.ts:510-538 | The in-place loop on a copy against the rewriting function |
| TtlRewrite.RewriteTouchesOnlyTtls | packages/core/src/dns-service.ts:510-538 | On every buffer: the length stays, every visited TTL field holds the new value and no other octet changes |
| TtlRewrite.NameIsSkipped | packages/core/src/dns-service.ts:493-508 | A name in any valid encoding is stepped over up to its pointer or its end |
| TtlRewrite.BrokenNameIsKept | packages/core/src/dns-service.ts:493-508 | Where the packet cuts a label or a pointer the walk gives up, at its very end it stops as if the name were over; labels count up to 191 octets |
| TtlRewrite.RewriteSetsTtls | packages/core/src/dns-service.ts:493-538 | On every packet the builder produces, cut or not, the rewrite is the same packet with each answer's TTL replaced |
| TtlRewrite.RewriteOverrides | packages/core/src/dns-service.ts:510-538 | A second rewrite overrides the first |
| HostLookup.FindHostConfig | packages/core/src/dns-service.ts:420-441 | The two loops and the fallback against the lookup function, whatever the enumeration order of the keys |
| HostLookup.FindKeyIsMostSpecific | packages/core/src/dns-service.ts:420-441 | Nothing is found exactly when no key covers the name; an exact key wins; otherwise the key found is the longest that covers the name |
| HostLookup.WildIsLabelSuffix | packages/core/src/dns-service.ts:420-441 | `*.` plus joined labels is, label by label, a star followed by a suffix of the name's labels |
| HostLookup.ResolveProxyHost | packages/core/src/http-proxy.ts:11-23 | The proxies' lookup: direct key, then wildcards of at least two labels, longest first |
| HostLookup.ProxyKeyExactly | packages/core/src/http-proxy.ts:11-23 | The proxies find nothing if and only if neither the name is a key nor a wildcard over at least two of its labels; they prefer the name, then the longest such wildcard |
| HostLookup.LookupsAgree | packages/core/src/sni-proxy.ts:138-150 | Resolver and proxy lookups agree whenever the proxies find an entry, for every name if the keys satisfy the schema and otherwise for names that do not begin with `*.`; where the proxies find none the resolver uses the last-label wildcard, then `*` |
| HostLookup.SuffixTestIsLabelTest | packages/core/src/firewall.ts:19-30 | The string test `ends with a dot and the suffix` holds exactly when the suffix's labels are a proper suffix of the domain's labels |
| HostLookup.PatternMatchesExactly | packages/core/src/firewall.ts:19-30 | What a pattern matches, label by label: `*` every name, a wildcard the strict subdomains of the rest, any other pattern the one name it spells |
| HostLookup.EvaluateDomain | packages/core/src/firewall.ts:121-133 | The two loops with their early returns: blocking wins over allowing, and allowing over the default |
| HostLookup.VerdictIgnoresCaseAndDot | packages/core/src/firewall.ts:121-133 | evaluateDomain ignores letter case and one trailing dot |
| HostLookup.DomainLaws | packages/core/src/firewall.ts:121-133 | By labels: a blocked name is denied whatever else the policy says, one that is allowed and not blocked is permitted whatever the default, any other gets the default, and no policy permits all |
| HostLookup.DomainVerdictIsMonotone | packages/core/src/firewall.ts:121-133 | Allowing more, blocking less or a laxer default never turns permission into denial |
| HostLookup.NormalizeExactly | packages/core/src/dns-service.ts:416-418 | Two names normalise alike if and only if they differ in letter case and one trailing dot at most |
| Text.LowerExactly | packages/core/src/dns-service.ts:416-418 | Two texts have the same lower-case form if and only if they differ in the case of letters only, and that form has no letter from A to Z |
| IpPolicy.MaskIsPrefix | packages/core/src/firewall.ts:5-17 | On signed 32-bit operators and sums rounded to double precision, for every address and every text of a range: the masked comparison is equality of the leading bits, as many as the number behind the slash says if it is 0 to 32 |
| IpPolicy.MatchesEverything | packages/core/src/firewall.ts:9-17 | A range matches every address if and only if the number behind its slash is above 85 or from -21 to 0 |
| IpPolicy.RestrictedIsNineBlocks | packages/core/src/firewall.ts:62-77 | The octet tests are membership in the union of nine CIDR blocks |
| IpPolicy.NormalizeExactly | packages/core/src/firewall.ts:32-48 | A mapped IPv6 address becomes its IPv4 address if and only if its text begins with `::ffff:`; of all other addresses exactly those with one group and a dotted quad behind that prefix are changed |
| IpPolicy.MappedFormSameVerdict | packages/core/src/firewall.ts:32-119 | A spelling of a mapped address gets the verdict of its IPv4 address under every policy if and only if it begins with `::ffff:`; without a policy the outbound verdict differs exactly for the other spellings of restricted addresses |
| IpPolicy.LongSpellingIsAllowed | packages/core/src/firewall.ts:50-94 | The mapped form of 127.0.0.1 written out is allowed outbound, 127.0.0.1 is not |
| IpPolicy.RestrictedV6Exactly | packages/core/src/firewall.ts:53-60 | The IPv6 tests by value: of unspecified, loopback, link-local and unique local addresses they miss exactly `::` and `::1` spelled otherwise, fe81: to febf: and fc01: to fcff:, and of all others they restrict exactly those whose text begins with a short group `fd` |
| IpPolicy.EvaluateIp | packages/core/src/firewall.ts:96-119 | The loops with their early returns: blocking wins over allowing, and allowing over the default |
| IpPolicy.EvaluateOutbound | packages/core/src/firewall.ts:79-94 | The loop with its early return: allowing wins over the restricted ranges |
| IpPolicy.VerdictIgnoresOrder | packages/core/src/firewall.ts:96-119 | evaluateIp depends on its lists as sets |
| IpPolicy.IpLaws | packages/core/src/firewall.ts:96-119 | A blocked address is denied whatever else the policy says, one that is allowed and not blocked, by the list or by the leading bits of a range, is permitted whatever the default, any other gets the default, no policy permits all, and text that is no address is denied by every policy |
| IpPolicy.OutboundLaws | packages/core/src/firewall.ts:79-94 | An allowed address is permitted even in a restricted range, any other if and only if it is in none, and the blocklists do not matter |
| IpPolicy.VerdictIsMonotone | packages/core/src/firewall.ts:79-119 | Allowing more, blocking less or a laxer default never turns permission into denial |
| IpPolicy.NoNumberForgets | packages/core/src/firewall.ts:5-7 | A piece of a range's address that is no number makes the integer forget all pieces before it |
| IpPolicy.RoundedIsNearest | packages/core/src/firewall.ts:5-7 | The rounding of the sums: a nearest multiple of the spacing of the doubles, the even one of two |
| CacheKey.RawKeyInjective | packages/core/src/dns-service.ts:443-446 | Equal cache key strings come only from equal names and types in equal order |
| CacheKey.RawKeySame | packages/core/src/dns-service.ts:443-446 | The cache key depends on nothing else of the questions |
| Resolver.DevDnsServer.GetFromCache | packages/core/src/dns-service.ts:455-471 | A fresh entry moves to the end of the order, one of age TTL or more is dropped and never returned |
| Resolver.DevDnsServer.EvictCacheEntry | packages/core/src/dns-service.ts:448-453 | Removes exactly the oldest entry |
| Resolver.DevDnsServer.AddToCache | packages/core/src/dns-service.ts:473-491 | The eviction loop ends and leaves room; the stored response carries the fixed TTL |
| Resolver.DevDnsServer.CollectAnswers | packages/core/src/dns-service.ts:659-676 | The entries of all questions in order, and whether any name is configured |
| Resolver.DevDnsServer.GenerateErrorResponse | packages/core/src/dns-service.ts:591-619 | An empty answer with the code, or nothing for a truncated query |
| Resolver.DevDnsServer.ResolveMiss | packages/core/src/dns-service.ts:655-716 | The part behind the cache: its outcome, and what it stores exactly when the outcome is cacheable |
| Resolver.DevDnsServer.Resolve | packages/core/src/dns-service.ts:621-717 | One call of resolve: outcome and new cache as functions of configuration, cache, query and clock |
| CacheRuns.RunKeepsInvariant | packages/core/src/dns-service.ts:448-491 | After every run the cache is within its size, has one entry per key, and each entry is the rewritten uncached reply to an earlier query of the run with that key |
| CacheRuns.SameQuestionsSameOutcome | packages/core/src/dns-service.ts:621-717 | Without the cache, two queries whose questions have equal types and names equal but for letter case and one trailing dot get the same kind of outcome, equal from the fifth octet on |
| CacheRuns.HitRepeatsEarlierReply | packages/core/src/dns-service.ts:455-491 | On a hit the reply is the rewritten uncached reply to an earlier query of the run with the same questions, inserted less than the TTL before the hit; on a miss it is the uncached reply |
| CacheRuns.HitsExactly | packages/core/src/dns-service.ts:448-491 | A call hits if and only if its questions are among the dnsCacheMaxSize most recently used cacheable ones and the last call that stored a reply to them did so less than the TTL before |
| CacheRuns.CachedReplyKeepsHeader | packages/core/src/dns-service.ts:455-491 | A cached reply carries the first four octets, id and flags, of the reply to the query that filled the entry, so the asker sees its own id if and only if the two queries share it |
| Examples.SecondClientGetsFirstId | packages/core/src/dns-service.ts:455-491 | An instance: two calls with ids 7 and 8, and the second is answered with id 7 |
| CacheRuns.CacheIsTransparent | packages/core/src/dns-service.ts:448-491 | After every run, at any clock readings, the cached server answers like the uncached one: the same exception, null or empty outcome, and the same octets but for id, flags and answer TTLs |
| CacheRuns.CacheIsLeastRecentlyUsed | packages/core/src/dns-service.ts:448-491 | With a positive TTL the key order is exactly the last dnsCacheMaxSize distinct cacheable keys by recency, whatever the clock did |
| CacheRuns.SmallerCacheIsIncluded | packages/core/src/dns-service.ts:448-491 | On the same run a smaller cache's keys are contained in a larger one's |
| AnswerRoundTrip.ResolvedAnswersReadBack | packages/core/src/dns-service.ts:621-717 | For every valid configuration and query with answers whose response fits the packet, a client decodes the questions in lower case, an exact answer count, exactly the matching records in order, and the address extraction yields exactly the A addresses configured for the A questions |
| AnswerRoundTrip.ResolvedRecordsDecode | packages/core/src/dns-service.ts:540-717 | Their composition with the decoding of rdata: the decoded list is the list of the records sent, each as configured if and only if it is not AAAA text with a dotted tail |
| AnswerRoundTrip.OwnersExactly | packages/core/src/dns-service.ts:343-361 | Every record sent carries the name its own question asked for if and only if all questions that contribute a record ask for the first one's name |
| AnswerRoundTrip.OneRecordFailsTheReply | packages/core/src/dns-service.ts:580-676 | Collecting the answers to a query fails if and only if some record that matches it is TXT whose length octets find no room |
| AnswerRoundTrip.ThrownExactly | packages/core/src/dns-service.ts:309-717 | The resolver throws if and only if the query is accepted and such a record matches it, or its planned response without the last rdata exceeds 4096 octets |
| ResolverOutcomes.IgnoredExactly | packages/core/src/dns-service.ts:621-645 | An empty reply goes out if and only if the octets are no standard query: fewer than twelve, QR set, RD clear, no question announced, or answers or authorities announced |
| ResolverOutcomes.ForwardedExactly | packages/core/src/dns-service.ts:655-700 | A query is forwarded if and only if it has a question that parses, no configured key covers any normalised name, the policy blocks none of the names by labels, and there is a fallback |
| ResolverOutcomes.CodeExactly | packages/core/src/dns-service.ts:655-716 | Every reply keeps the id, and its low four flag bits are those of the query or-ed with 0 exactly when some name is covered, with 5 exactly when none is and one is blocked, and with 3 otherwise |
| ResolverOutcomes.CacheableExactly | packages/core/src/dns-service.ts:655-716 | A reply is kept if and only if it has a question and either some name is covered or none is blocked |
| ResolverOutcomes.HostIsMostSpecific | packages/core/src/dns-service.ts:420-441 | The records that answer a question are those of the name's own key or else of a longest key that covers it |
| ResolverOutcomes.ThrowsExactly | packages/core/src/dns-service.ts:309-717 | The exceptions in terms of the records that match and the sizes of names and rdata: a TXT record without room for its length octets, or a query that is not forwarded and whose reply without the last rdata exceeds 4096 octets |
| ResolverOutcomes.RepliesReadBack | packages/core/src/dns-service.ts:309-717 | Every reply that fits 4096 octets, positive or negative, is the header, the questions and the records sent, nothing more, and a client reads the questions in lower case and of class IN, exactly these records, no authority and no additional records, and exactly their addresses |
| Examples.QueryIsAnswered | packages/core/src/dns-service.ts:621-717 | An instance: a concrete configuration and 19-octet query meet the conditions of the round trip, and the address extraction finds the configured address |
| Examples.SecondAnswerIsMisnamed | packages/core/src/dns-service.ts:343-361 | An instance: two questions for two hosts, and the second answer carries the first host's name |
| Examples.SeventeenStringsThrow | packages/core/src/dns-service.ts:174-182 | An instance: TXT of seventeen strings of 255 octets is schema-valid and makes every reply to its question an exception |
| Examples.SixteenStringsAreCut | packages/core/src/dns-service.ts:309-366 | An instance: with sixteen such strings the reply is cut at 4096 of its 4127 octets |
| Examples.DottedTailIsMisread | packages/core/src/dns-service.ts:149-166 | An instance: 64:ff9b::192.0.2.33 is sent as 64:ff9b::192 |
| AnswerRoundTrip.SentRecordDecodes | packages/core/src/dns-service.ts:540-589 | Each record sent whole decodes to the configured record if and only if it is not AAAA text with a dotted tail |
| AnswerRoundTrip.NeverSent | packages/core/src/dns-service.ts:174-341 | Of all schema-valid records: PTR and TXT of fewer than two octets are dropped, TXT whose length octets find no room is refused by an exception, all others are sent, and TXT is sent whole if and only if it fits 4096 octets |
| AnswerRoundTrip.WrittenNameIsLowerCase | packages/core/src/dns-service.ts:29-37 | The name a client reads back is the query's name in lower case when no label contains a dot |
| CaseMixing.Apply0x20 | packages/core/src/dns-service.ts:268-307 | The in-place loops against the mixing function, and the names expected in the echo |
| CaseMixing.MixChangesOnlyCase | packages/core/src/dns-service.ts:268-307 | On every buffer: length and header stay, and an octet changes at most by the case of a letter |
| CaseMixing.MixKeepsStructure | packages/core/src/dns-service.ts:268-307 | On well-formed queries label lengths, types, classes and all octets outside the question section stay, and the expected names are the mixed ones |
| CaseMixing.MixFollowsCoins | packages/core/src/dns-service.ts:268-307 | Octet by octet on well-formed queries: a letter inside a label becomes the lower-case one if its coin is even and the upper-case one if it is odd, and every other octet stays |
| CaseMixing.MixFollowsCoinsInPlace | packages/core/src/dns-service.ts:268-307 | The same for names that end in a pointer, labels of up to 191 octets, and packets that end before the type and class of a question |
| CaseMixing.OtherCoinsFail | packages/core/src/dns-handler.ts:555-567 | Coins that differ at one letter give different queries, and a verbatim echo of the one fails the check of the other |
| CaseMixing.Valid0x20 | packages/core/src/dns-handler.ts:555-562 | The handler's loop computes: as many questions as expected, each name equal octet for octet |
| CaseMixing.EchoCheckComparesNames | packages/core/src/dns-handler.ts:555-567 | Any well-formed response passes if and only if it has as many questions and each joined name equals the mixed one octet for octet |
| CaseMixing.EchoCheckIsExact | packages/core/src/dns-handler.ts:555-567 | On labels without dots, whatever their number and sizes, it passes if and only if it echoes every label verbatim; a letter of flipped case anywhere fails |
| CaseMixing.EchoOfSameShapeIsExact | packages/core/src/dns-handler.ts:555-567 | With dots inside labels the same holds of responses whose labels have the query's sizes |
| SniParser.ExtractSni | packages/core/src/sni-proxy.ts:23-82 | On every byte string each read is in bounds and the loop ends, so the catch is never needed |
| SniParser.SniRoundTrip | packages/core/src/sni-proxy.ts:23-82 | For every ClientHello that fits one record, whatever follows it, the result is exactly the first host_name among the first 51 extensions, or null when there is none |
| SniParser.SniReads | packages/core/src/sni-proxy.ts:23-82 | Octets that are no handshake record with a ClientHello give no name; a name that is found stands in the octets as a host_name entry, and further octets do not change it |
| SniParser.SniConnection.OnData | packages/core/src/sni-proxy.ts:105-124 | One data event: buffered, dropped for size, or handled once |
| SniParser.SniIsChunkIndependent | packages/core/src/sni-proxy.ts:105-124 | For every hello and every way the stream is cut: handled with the name it asks for if at most 16384 octets are buffered when the chunk that completes it arrives, otherwise dropped |
| TcpFraming.TcpConnection.OnData | packages/core/src/dns-handler.ts:769-789 | One data event: the complete messages, what stays buffered, and whether the connection ended |
| TcpFraming.FramingIsChunkIndependent | packages/core/src/dns-handler.ts:769-789 | Any two ways of cutting a stream that never overflow emit the same messages and leave the same state, those of the stream parsed whole |
| TcpFraming.MessagesArriveInOrder | packages/core/src/dns-handler.ts:769-789 | Any sequence of non-empty messages, cut anywhere, is emitted exactly and in order, with only an incomplete frame left in the buffer, if and only if the cut never overflows |
| TcpFraming.DeliverableExactly | packages/core/src/dns-handler.ts:769-789 | Some stream delivers exactly the given messages if and only if each has 1 to 65534 octets: 65535 octets, which the prefix can announce, never arrive |
| Dnssec.CompareRdata | packages/core/src/dnssec.ts:173-179 | The comparator is the lexicographic order of octets, a proper prefix first |
| Dnssec.CompareAntisymmetric | packages/core/src/dnssec.ts:173-179 | Antisymmetric, and zero only on equal rdata |
| Dnssec.CompareTransitive | packages/core/src/dnssec.ts:173-179 | Transitive; with CompareAntisymmetric, a total order |
| Dnssec.StableSortIsUnique | packages/core/src/dnssec.ts:173 | Sorted order and kept ties determine the result, so any stable sort builds the one used here |
| Dnssec.EncodeCanonicalName | packages/core/src/dnssec.ts:154-158 | The canonical name, or an exception when it does not fit the encoder's buffer |
| Dnssec.BuildPayload | packages/core/src/dnssec.ts:167-192 | The octets that are verified: RRSIG prefix, signer, and the records in canonical order, or an exception exactly when a name does not fit |
| Dnssec.PayloadIgnoresOrder | packages/core/src/dnssec.ts:173-192 | Every permutation of an RRset gives the identical payload when records with equal rdata agree on class and length field (RFC 4034 section 6.3) |
| Dnssec.OrderIndependenceExact | packages/core/src/dnssec.ts:173-192 | That condition is exact: the payload is the same for all orders if and only if it holds |
| Dnssec.KeyTag | packages/core/src/dnssec.ts:262-267 | The accumulator loop and the fold on signed 32-bit integers |
| Dnssec.KeyTagIsRfc | packages/core/src/dnssec.ts:262-267 | For every rdata up to 65535 octets the accumulator stays below 2^31 and the tag is that of RFC 4034 appendix B |
| DnssecMessage.ExtractRecords | packages/core/src/dnssec.ts:70-113 | The three sections of any message of at least twelve octets, with the reader's behaviour past the end |
| DnssecMessage.OnlyTheLastIsCut | packages/core/src/dnssec.ts:88-104 | On any buffer only the last record of a section can have fewer octets than its length field says |
| DnssecMessage.WholeSection | packages/core/src/dnssec.ts:88-104 | All records of a section are whole if and only if it ends inside the packet |
| DnssecMessage.MessageReadsBack | packages/core/src/dnssec.ts:70-113 | Round trip: behind any question section all three sections of a written message read back record for record |
| DnssecMessage.LaidOutReadsBack | packages/core/src/dnssec.ts:70-113 | The same for every message whose owners are written in full or with up to five pointers |
| DnssecMessage.CutRecordReads | packages/core/src/dnssec.ts:88-104 | A record the packet cuts off: each fixed field is read when it is whole and 0 otherwise, and the rdata is what is there |
| DnssecMessage.RecordsReadBack | packages/core/src/dnssec.ts:88-104 | Round trip: a written section reads back record for record, however its owners are compressed |
| DnssecMessage.WireFormDoesNotMatter | packages/core/src/dnssec.ts:154-189 | Neither the compression nor the letter case of an owner reaches the signed octets (RFC 4034 section 6.2) |
| DnssecMessage.ParseRrsig | packages/core/src/dnssec.ts:115-142 | The RRSIG fields, the signer in lower case and the signature, or null below 18 octets |
| DnssecMessage.SignedPrefixIsCanonical | packages/core/src/dnssec.ts:115-171 | The RRSIG part of the payload is the rdata without the signature, the signer in canonical form (RFC 4034 section 3.1.8.1) |
| DnssecMessage.FindKey | packages/core/src/dnssec.ts:254-271 | The first DNSKEY whose tag matches |
| DnssecMessage.VerifySignature | packages/core/src/dnssec.ts:160-229 | Validity window, payload, algorithm and key length checks in the order of the code; the signature primitive is a parameter |
| DnssecMessage.VerifyResponse | packages/core/src/dnssec.ts:232-288 | The loop over the signatures ends at the first that fails |
| DnssecMessage.AcceptedUnlessOneFails | packages/core/src/dnssec.ts:232-288 | A response is accepted exactly when no checkable signature fails: unsigned responses, signatures that cover nothing and signatures without a key in the response pass |
| DnssecMessage.OrderFreeExactly | packages/core/src/dnssec.ts:160-271 | The verdict on a signature is the same for every order of answers and keys and every primitive if and only if, when a key reaches the primitive, all keys of its tag give the same octets and tied records of the covered set agree |
| DnssecVerdict.CompareIsCanonicalOrder | packages/core/src/dnssec.ts:173-179 | The comparator is negative exactly on rdata that come first in the order of RFC 4034 section 6.3, stated by the first difference, and positive exactly on those that come later |
| DnssecVerdict.RrsigReadsBack | packages/core/src/dnssec.ts:115-142 | Round trip: every field of a written RRSIG reads back, the signer in lower case |
| DnssecVerdict.VerdictExactly | packages/core/src/dnssec.ts:160-271 | From the records as sent: a signature is skipped exactly when it covers no answer or no key has its tag; it is valid exactly when it covers some, the time is in its window, the names fit the encoder, and the primitive accepts the signed data of RFC 4034 section 3.1.8.1 under the first key with the tag, of a supported kind; an exception is exactly a name without room inside the window |
| DnssecVerdict.FirstFailureDecides | packages/core/src/dnssec.ts:250-288 | The first signature that fails decides: an invalid one rejects, an exception is passed on |
| DnssecVerdict.ResponseIsJudged | packages/core/src/dnssec.ts:232-288 | For every message so laid out: the signatures are the records of type 46 of all sections, the keys those of type 48, and what they cover is sought among the answers |
| DnssecOrder.AcceptanceFreeExactly | packages/core/src/dnssec.ts:160-288 | Acceptance is the same for every order of signatures, answers and keys and every primitive if and only if that condition holds for each signature or one signature fails whatever the primitive says; the converse is for signatures whose owner names are not merely written alike |
| DnssecOrder.AcceptanceIgnoresOrder | packages/core/src/dnssec.ts:232-288 | Acceptance of a response does not depend on the order of the records in any section when that holds of its signatures |
| DnssecMessage.AnswersReadWholeAgree | packages/core/src/dnssec.ts:70-113 | The tied records agree in every message whose answers end inside the packet and share one class |
| DnssecExample.KeyOrderMatters | packages/core/src/dnssec.ts:232-288 | Two concrete messages that differ in the order of two keys of one tag: one is accepted, the other rejected |
| ConfigLock.PessimisticLock.Acquire | packages/control-plane/src/domain/config/config.service.ts:10-16 | Taken at once when free, otherwise the caller joins the end of the queue |
| ConfigLock.PessimisticLock.Release | packages/control-plane/src/domain/config/config.service.ts:18-25 | Handed over, still locked, to the longest waiter; freed when nobody waits |
| ConfigLock.ConfigService.Begin | packages/control-plane/src/domain/config/config.service.ts:51-57 | A call without a tenant never reaches the lock; any other takes it or queues |
| ConfigLock.ConfigService.Resume | packages/control-plane/src/domain/config/config.service.ts:57-70 | A failed validation ends the call and releases the lock |
| ConfigLock.ConfigService.OnWritten | packages/control-plane/src/domain/config/config.service.ts:71-73 | A failed write ends the call and releases the lock |
| ConfigLock.ConfigService.OnRenameEnded | packages/control-plane/src/domain/config/config.service.ts:73-74 | A rename replaces the file, a failed one ends the call |
| ConfigLock.ConfigService.Publish | packages/control-plane/src/domain/config/config.service.ts:75-86 | The configuration is assigned and the lock released in one step |
| ConfigLock.LockIsFairAndExclusive | packages/control-plane/src/domain/config/config.service.ts:6-26 | In every interleaving of any number of updates: at most one inside the critical section, entries in arrival order, and no waiter behind a free lock |
| ConfigLock.UpdatesAreSerial | packages/control-plane/src/domain/config/config.service.ts:51-87 | In every interleaving the configuration is what the ended updates leave when run one at a time in arrival order, and so is the file except between rename and publication |
| ConfigLock.FileMatchesConfig | packages/control-plane/src/domain/config/config.service.ts:51-87 | Once an update has succeeded, file and configuration both equal the last successful one whenever no rename awaits publication |
| ConfigLock.FailedUpdateChangesNothing | packages/control-plane/src/domain/config/config.service.ts:51-87 | A failed update leaves file and configuration as they were when it was granted the lock |
| ConfigLock.SuccessIsEarned | packages/control-plane/src/domain/config/config.service.ts:51-87 | In every interleaving the file is replaced only by a call whose validation and write succeeded before, and the configuration only by one whose rename succeeded too, in this order and with the validated configuration |
| ConfigLock.UpdateCommits | packages/control-plane/src/domain/config/config.service.ts:51-87 | A holder of the lock whose steps all succeed ends with its configuration published and in the file |
| ConfigLock.FailureEnds | packages/control-plane/src/domain/config/config.service.ts:51-87 | After every run a failed validation, write or rename ends the call at once, changes neither configuration nor file, and hands the lock on |
| ConfigLock.CallArrives | packages/control-plane/src/domain/config/config.service.ts:6-16 | After every run a call with a tenant gets the next number and holds the lock at once if it is free, else waits behind all others; one without changes nothing |
| ConfigLock.EveryWaiterEnters | packages/control-plane/src/domain/config/config.service.ts:6-26 | Whatever arrives and whatever fails, a waiter enters within four holder steps for itself and each waiter before it, and a holder step is always possible |
| RateLimiter.RateLimiter.Allow | packages/core/src/rate-limiter.ts:40-63 | One request: a new window with eviction of the oldest entry when the table is full, a refusal, or one more in the window |
| RateLimiter.RateLimiter.GarbageCollect | packages/core/src/rate-limiter.ts:26-33 | Deleting while iterating removes exactly the expired buckets and keeps the order of the others |
| RateLimiter.RateLimiter.GetRequestCount | packages/core/src/rate-limiter.ts:65-73 | The count of a live bucket, otherwise 0 |
| RateLimiter.TableIsBounded | packages/core/src/rate-limiter.ts:40-63 | Over every run, whatever the clock does, the table never exceeds maxTrackedIps |
| RateLimiter.AnyIntervalIsBounded | packages/core/src/rate-limiter.ts:40-63 | Over every run with a monotone clock and without eviction of the address, any half-open interval of one window's length holds at most 2 * maxRequests - 1 allowed requests (a limit of 0 counting as 1), one fewer than twice the limit |
| RateLimiter.BoundIsAttained | packages/core/src/rate-limiter.ts:40-63 | For every limit and every window of at least 2 ms a run fills such an interval to the bound |
| RateBounds.SlidesExactly | packages/core/src/rate-limiter.ts:40-63 | The limiter is a sliding window if and only if the limit is at most 1 or the window is 1 ms |
| RateLimiter.EachWindowIsBounded | packages/core/src/rate-limiter.ts:40-63 | Each window opened by a request holds at most maxRequests |
| RateLimiter.RefusedOnlyWhenFull | packages/core/src/rate-limiter.ts:55-59 | A refused request finds maxRequests allowed ones less than windowMs ago |
| RateLimiter.CountExactly | packages/core/src/rate-limiter.ts:65-73 | After every run the count reported is the number of requests allowed since the last window opened, as long as that window lasts, and else 0 |
| RateLimiter.FewAddressesAreNeverEvicted | packages/core/src/rate-limiter.ts:44-51 | A run over fewer addresses than maxTrackedIps never evicts a live bucket |
| RateBounds.BoundHoldsExactly | packages/core/src/rate-limiter.ts:40-63 | For all limits and every set of addresses: the bound holds on every run over them with a monotone clock if and only if there are fewer addresses than places, or as many and at most two |
| RateLimiter.CollectionIsInvisible | packages/core/src/rate-limiter.ts:26-33 | Below capacity, garbage collection at any moments changes no answer of allow or getRequestCount |
| CircuitBreaker.ProxyCircuitBreaker.Begin | packages/core/src/http-handler.ts:27-38 | A call is refused, or let through, turning an open breaker half-open after the timeout |
| CircuitBreaker.ProxyCircuitBreaker.FinishSuccess | packages/core/src/http-handler.ts:40-45 | A success resets a half-open breaker and changes nothing otherwise |
| CircuitBreaker.ProxyCircuitBreaker.FinishFailure | packages/core/src/http-handler.ts:46-58 | A failure is counted with the start time of the call, and opens the breaker from the fifth on |
| CircuitBreaker.FieldsFollowHistory | packages/core/src/http-handler.ts:15-65 | In every interleaving of concurrent calls: CLOSED exactly when failures < 5, failures is the number of failed completions since the last reset, half-open exactly once a call was let through since the last failure |
| CircuitBreaker.RefusedExactlyWhen | packages/core/src/http-handler.ts:27-38 | A call is refused exactly when at least five failures followed the last reset, no call was let through since the last failure, and the call that failed last began at most 10000 ms ago |
| CircuitBreaker.OnlyProbeSuccessResets | packages/core/src/http-handler.ts:40-64 | Only a success that finds the breaker half-open resets it, and every such success does |
| CircuitBreaker.Recovers | packages/core/src/http-handler.ts:27-64 | From every reachable open state, the first call after the timeout is let through and its success closes the breaker |
| CircuitBreaker.HalfOpenRefusesNothing | packages/core/src/http-handler.ts:27-38 | Half-open lets every call through, not one probe, until a call fails |
| CircuitBreaker.LateFailureEndsTheBreak | packages/core/src/http-handler.ts:51-58 | A slow call from the past that fails late moves the failure time back, and a breaker that refused refuses no more |

## Left out

- Sockets, timers, HTTP and TLS servers, streaming and the file system: their events are steps or parameters; write and rename succeed or fail as a whole, and temporary files are not modelled.
- Cryptography: sha256 of the cache key (the key string itself is the key), signature verification (a parameter), key conversion, HMAC and AES-GCM.
- UTF-8: text is octets, exact on ASCII, and `toLowerCase` maps A to Z only.
- The zod schema as code: its limits appear as `ValidConfig` and `ValidRecord`. Hosts are a finite map, without lookups on the object prototype.
- Parsing of addresses from text: IPv4 starts from four octets, IPv6 from the pieces between its colons, ranges from the numbers parseInt returns.
- Records.EncodeAaaa: does not model IPv6 text with a zone suffix such as `%eth0`, which the schema admits and the address policy also sees; the suffix has no meaning in a record.
- IpPolicy.EvaluateIp: does not model IPv6 text with a zone suffix either, nor do the other members of `IpPolicy`.
- IpPolicy.EvaluateOutbound: the same.
- The cached response is handed out as the stored Buffer object; the model returns its octets, so a caller that overwrites them is not modelled.
- `Array.prototype.sort` is modelled by the stable sorted order, which is unique; the pieces of a signed record are built by a method of their own.
- buildNoErrorResponse and the packet part of generateErrorResponse are instances of one builder method without answers.
- Subscribers of the configuration are not called: a callback's own updateConfig is a call that arrives while the lock is held, which the runs include. Process crashes between rename and publication are not modelled.
- The pending table and retries of forwardUdpQuery, upstream TCP reassembly, appendEdns0DoBit.
- Header scrubbing, redirects, audit log, metrics, proof of work, API keys, the CLI and the container files: they would add only easy members.
