# CloakDNS in Dafny

CloakDNS is a filtering DNS forwarder: it parses a client's query, refuses or blocks it, serves it from a
cache, or forwards it and follows the aliases in the answer before letting it through. This project models
the part of the daemon that works on bytes and state, and proves what that part is relied on for.

How the files follow the program:

| file | models |
|---|---|
| `Wire.dfy` | bytes, big-endian fields, ASCII case |
| `Names.dfy`, `Parser.dfy`, `Edits.dfy` | `src/dns_parser.cpp`: compressed names, messages, and which edits of the bytes leave the parse alone |
| `Encoding.dfy` | the wire format written forwards, by a compressing encoder that `src/dns_parser.cpp` is proved to invert |
| `Writer.dfy`, `Replies.dfy` | `src/dns_writer.cpp` and the query builder of `src/ech_bootstrap.cpp` |
| `Ttl.dfy` | the TTL functions of `src/cache.cpp` |
| `Padding.dfy` | `src/edns_padding.cpp` |
| `RecencyList.dfy`, `Lru.dfy`, `Cache.dfy`, `Serving.dfy` | `DnsCache` of `src/cache.cpp`: linked list, abstract LRU map, the class, what a hit is |
| `Blocklist.dfy` | `src/blocklist.cpp` |
| `Etld.dfy` | `src/etld.cpp` |
| `Uncloaker.dfy` | `src/uncloaker.cpp` |
| `Aliases.dfy` | the aliases a cached response shows when it is served: `src/cache.cpp` against `src/uncloaker.cpp` |
| `Resolver.dfy` | `src/resolver.cpp` |
| `Ordinary.dfy` | the packets the daemon builds, and messages compressed the usual way, against the theorems on byte edits |
| `Server.dfy` | `handle`, `serve` and the reload of `src/server.cpp` as a step system |
| `Base64.dfy`, `Svcb.dfy` | base64 of `src/tls.cpp`, ECH extraction of `src/ech_bootstrap.cpp` |
| `QueryLog.dfy`, `LogReading.dfy`, `Logger.dfy` | `src/query_log.cpp`: the JSON line, what a JSON reader finds in it, and the bounded queue |
| `Samples.dfy` | small packets with one question, for the inputs that break a property |

Loops of the source are methods with loops, proved equal to a recursive function; what the source promises is
then proved about that function. Objects that the source updates are classes (`DnsCache` with a real doubly
linked list, `Blocklist`, `Resolver`, `QueryLogger`), in-place edits work on arrays.

The main results, hardest first:

- The parser reads exactly the wire format: a packet parses to a message if and only if it begins with an encoding of
  it, by an encoder that may compress every name with pointers to any offset, and every name in it can be read
  (`Encoding.ParsesExactly`, `Encoding.DecodedNameExactly`).
- Editing encoded bytes commutes with parsing if and only if every name is decoded alike where it stands
  (`Edits.EditsCommuteExactly`). A compression pointer may lead anywhere in a packet, so what a caller can use is the
  read footprint of a name (`Names.Reads`): bytes no name is decoded from can be changed. TTL rewriting, restoring
  the client's id, serving from the cache, EDNS padding and the synthesised replies each get the exact condition
  (`Ttl.TtlRewriteExactly`, `Serving.IdRewriteExactly`, `Serving.ServedBytesExactly`, `Padding.PaddingExactly`,
  `Replies.EmptyReplyExactly`, `Replies.BlockReplyExactly`) and the footprint corollary, and ordinary packets meet
  the hypotheses of the corollaries (`Ordinary.RequeryOnTheWire`, `Ordinary.UsualResponseIsServed`).
- Over every run of interleaved queries, reloads and sweeps, whatever upstream does, no answer from upstream reaches a
  client unless its name was unblocked by the rules of the last reload before it arrived, and no address answer
  unless every alias in what upstream had said was unblocked (`Server.AddressAnswersAreVetted`). The aliases in the bytes sent are
  unblocked too: always in a relayed answer, and in a cached one if the TTL and id written into it changed no owner
  name and no alias target. That condition is exact (`Aliases.ServedAliasesExactly`), it can fail
  (`Aliases.ServedAliasCanChange`), and responses compressed the usual way meet it (`Server.UsualAnswersAreVetted`).
  Every reply has its reason in an earlier event of its own task (`Server.EveryReplyIsJustified`) and each query gets
  exactly one (`Server.OneReplyEach`). A reload never reaches the uncloaker: aliases are judged by the rules loaded
  at startup.
- The cache is an LRU map over every run: which keys it holds is exactly what the history of inserts, lookups and sweeps
  says, and its counters count them (`Lru.KeysAreExact`, `Lru.EvictsLeastRecentlyUsed`, `Lru.CountersAreRight`). The
  daemon's cache is that map for the operations of its run, and a reply served from it is the latest response with
  exactly the whole seconds left (`Server.CacheIsLru`, `Server.CachedRepliesAreNeverStale`).
- Uncloaking is sound for every upstream, and its iteration cap never hides a chain (`Uncloaker.UncloakIsSound`,
  `CappedWalkEndsRun`). Against an upstream that cooperates, the verdict is determined by the orbit of the name under
  the aliases and by the depth limit (`VerdictIsRight`), so it does not depend on how hops are spread over responses.
  The one exception is an unblocked chain that ends exactly at the limit, where it depends on whether the last
  response shows the address (`VerdictAtLimit`, `BatchingIndependence`, `SpreadMattersAtLimit`).
- A JSON reader finds in a log line exactly the fields of its record (`LogReading.LineIsRead`), and no accepted line is
  lost (`Logger.NothingAcceptedIsLost`).

Where the code and its documentation disagree the model follows the code. `features/04` and a comment in the
blocklist header describe an allowlist that always wins; `src/blocklist.cpp:143-200` lets the longer rule win,
and so does `Blocklist.Match`.

Properties that look true of the code and are not are stated with an input that breaks them, and with the exact
condition under which they hold:

| property | broken by | holds if and only if |
|---|---|---|
| a new deny rule never unblocks a name | `Blocklist.DenyCanUnblock` | `Blocklist.DenyUnblocksExactly` |
| labels in front leave the registrable domain alone | `Etld.PrefixMovesCoUk` | `Etld.PrefixKeepsExactly` |
| a padded query is consumed to its end | `Padding.LongOptionLeavesBytes` | `Padding.NewOptNeedsRoom` |
| padding preserves meaning | `Padding.StrayByteBreaksPadding` | `Padding.PaddingExactly`, `Padding.NewOptKeepsMeaningExactly` |
| a reply without records parses | `Replies.NoQuestionNoReply` | `Replies.EmptyReplyExactly` |
| a block reply parses | `Replies.LadderBlockReplyFails` | `Replies.BlockReplyExactly` |
| rewriting TTLs keeps the message | `Ttl.RewriteCanBreakName` | `Ttl.TtlRewriteExactly` |
| a reply served from the cache shows the aliases that were judged | `Aliases.ServedAliasCanChange` | `Aliases.ServedAliasesExactly` |
| the verdict does not depend on how hops are spread over responses | `Uncloaker.SpreadMattersAtLimit` | `Uncloaker.BatchingIndependence` |
| base64 decoding is canonical | `Base64.DecodeNotCanonical` | `Base64.DecodedIsEncodingExactly` |

## Model

| member | source | states |
|---|---|---|
| `Names.DecodeNameLoop` | src/dns_parser.cpp:28-83 | the decoding loop, with its early length test and the cursor fixed at the first pointer, computes the recursive meaning of a name: its labels, lower-cased and joined, within 16 pointers and 255 bytes; it terminates by remaining pointers, then remaining bytes |
| `Names.DecodedNameIsCanonical` | src/dns_parser.cpp:28-83 | a decoded name has at most 255 bytes and no upper-case letter, and the cursor moves strictly forward inside the packet |
| `Names.LabelsFrame` | src/dns_parser.cpp:28-83 | a name depends only on the bytes the decoder reads: any packet agreeing on them, longer or shorter, gives the same labels and cursor |
| `Names.ReadsFrame` | src/dns_parser.cpp:28-83 | such a packet has the same read footprint too |
| `Names.DecodeNameFrame` | src/dns_parser.cpp:28-83 | decoding as a whole, length limit included, is unchanged outside the footprint |
| `Names.InPlaceFrame` | src/dns_parser.cpp:28-83 | between packets of one size, a name decodes to the same labels or fails alike if the bytes read agree, whether or not it decodes |
| `Names.ReadsInside` | src/dns_parser.cpp:28-83 | every byte a successful decode reads is inside the packet |
| `Names.DecodeNameSurvivesAppend` | src/dns_parser.cpp:28-83 | appending bytes to the packet does not change a name that decodes |
| `Names.SpareHops` | src/dns_parser.cpp:41-58 | a name that decodes decodes to the same labels when more pointers are allowed |
| `Names.UncompressedName` | src/dns_parser.cpp:56-83 | a name without pointers decodes and reads only its own bytes |
| `Encoding.NameIsRead` | src/dns_parser.cpp:28-83 | the decoder undoes the encoder: labels of 1 to 63 bytes followed by a zero byte decode to those labels in lower case, and followed by the two bytes of a pointer to any offset below 16384 to those labels and then the labels at that offset with one pointer less to spend; the cursor ends behind the bytes written |
| `Encoding.DecodedNameExactly` | src/dns_parser.cpp:28-83 | a name decodes at an offset to this text and cursor if and only if such an encoding stands there, means that text with at most 16 pointers, and is at most 255 bytes long |
| `Parser.ParseRecordsLoop` | src/dns_parser.cpp:85-104 | the record loop computes the recursive section parser, errors included |
| `Parser.ParseLoop` | src/dns_parser.cpp:113-153 | the whole parse, with its by-reference cursor, computes the message and the offset after its last record |
| `Parser.SectionsAreOneRun` | src/dns_parser.cpp:113-153 | the three sections are one contiguous run of records after the questions, as many as the header counts say |
| `Parser.MessageIsLaid` | src/dns_parser.cpp:85-153 | records lie after the questions, inside the packet, in order and without overlap |
| `Encoding.HeaderIsRead` | src/dns_parser.cpp:113-133 | a header is read if and only if its bytes stand there: id, QR, OPCODE, AA, TC, RD, RA, three bits not looked at, RCODE, and the four counts, big-endian |
| `Encoding.EncodedMessageParses` | src/dns_parser.cpp:85-153 | parsing undoes encoding: an encoded message, whatever follows it, parses to its header, questions and the records of its three sections, each with name, type, class, TTL, RDATA and where the RDATA stands, or fails if one of the names cannot be read there |
| `Encoding.ParsesExactly` | src/dns_parser.cpp:85-153 | a packet parses to a message and an end if and only if it begins with an encoding of that message of that length all of whose names can be read |
| `Edits.RecordsStand` | src/dns_parser.cpp:85-104 | an edit that keeps type, class and RDLENGTH of a run of records leaves every record where it was, with the TTL and RDATA of the new bytes, if and only if every owner name is decoded alike where it stands |
| `Edits.QuestionsStand` | src/dns_parser.cpp:135-146 | likewise for questions whose bytes are kept: a compressed name may still change |
| `Edits.EditsCommuteExactly` | src/dns_parser.cpp:85-153 | a buffer that keeps the section counts, the question bytes and each record's type, class and RDLENGTH parses to the same message, with id, flags, TTLs and RDATA re-read from the buffer, if and only if every name is decoded alike where it stands |
| `Edits.FootprintStands` | src/dns_parser.cpp:28-83 | every name stands if no byte that some name is decoded from changes |
| `Edits.EditsCommuteWithParsing` | src/dns_parser.cpp:85-153 | so such an edit outside the names' read footprint commutes with parsing |
| `Ttl.CollectTtlOffsets` | src/cache.cpp:123-134 | the collecting loops list the TTL offset of every non-OPT record of the three sections in order |
| `Ttl.RewriteTtls` | src/cache.cpp:136-150 | the in-place loop writes the TTL at every listed offset that fits and changes nothing else |
| `Ttl.TtlFieldsAreClear` | src/cache.cpp:34-42 | for every packet that parses, the collected fields are in bounds, in order and disjoint, after header and questions, and clear of all RDATA and of OPT records, so the bounds test never skips one |
| `Ttl.TtlRewriteExactly` | src/cache.cpp:123-150 | for every response that parses, the rewritten response parses to the same message with exactly the non-OPT TTLs replaced if and only if every name is decoded alike where it stands |
| `Ttl.TtlRewriteCommutes` | src/cache.cpp:123-150 | in particular if no name is read from a TTL byte |
| `Ttl.RewriteCanBreakName` | src/cache.cpp:136-150 | the hypothesis is needed: a response to one question, whose answer's owner is read from its own TTL of 256, parses and, after the TTL is rewritten to 255, does not |
| `Ttl.ComputeCacheTtl` | src/cache.cpp:77-121 | the folding loops compute the lifetime function, early returns included |
| `Ttl.CacheTtlIsLeastLimit` | src/cache.cpp:77-121 | the lifetime is exactly the least of the answer and authority TTLs and, for negative answers, the first SOA's MINIMUM and 86400; it is zero for server failures and responses without such records |
| `Ttl.LimitsAre` | src/cache.cpp:44-60 | those limits, for an answer that is NXDOMAIN or has authority records alone: its TTLs, a day, and the fifth number of its first SOA record, whose RDATA is two names and five numbers; for any other answer its TTLs |
| `Padding.RoundUpIsLeastMultiple` | src/edns_padding.cpp:22-24 | rounding gives the least multiple of the block that is large enough |
| `Padding.ScanOptLoop` | src/edns_padding.cpp:49-57 | the search finds no OPT, an OPT that ends the packet, or an OPT that does not |
| `Padding.LastOptIsLast` | src/edns_padding.cpp:49-57 | an OPT record that ends the packet is the last additional record and the only OPT before the end, and parsing consumed everything |
| `Padding.PadQuerySteps` | src/edns_padding.cpp:61-119 | growing and patching the output step by step gives the padded query of either branch, or the query itself |
| `Padding.GrowsExactly` | src/edns_padding.cpp:61-93 | a query is padded if and only if the block is not zero, it parses, and it has no OPT record and room for one more additional record, or its only OPT record ends the packet and its RDATA can grow to the next multiple of the block; any other is left as it was |
| `Padding.PaddedMessageIs` | src/edns_padding.cpp:36-40 | what padding does to the message: header but for ARCOUNT, questions and all other records are kept; the last additional record is the OPT record that was last, or a new one with the root name, type 41, payload size 4096 and TTL 0; its RDATA is the old one, then 0, 12, the length of the rest in two bytes, and zeros |
| `Padding.PaddingIsAdded` | src/edns_padding.cpp:36-40 | read as a list of options (section 6.1.2 of RFC 6891), the new RDATA is the old list plus one option of code 12 with zero bytes |
| `Padding.NewOptExactly` | src/edns_padding.cpp:95-118 | a padded query without OPT parses to the same message plus one OPT record, whose RDATA is as much of the option as RDLENGTH can say, if and only if every name stands and the root name is read where parsing had stopped and ends after the first byte appended |
| `Padding.RootWhereParsingStopped` | src/edns_padding.cpp:104-112 | the root name is read there if and only if the query was consumed to its end, or all but one byte that makes with the zero byte appended a pointer leading to a root name |
| `Padding.LastOptExactly` | src/edns_padding.cpp:76-94 | a padded query ending in an OPT parses to its last byte as the same message with one padding option appended to that OPT if and only if every name stands |
| `Padding.PaddedLength` | src/edns_padding.cpp:61-119 | whenever the query is padded, its length is the least multiple of the block that fits the added headers |
| `Padding.PaddingExactly` | src/edns_padding.cpp:61-119 | whenever the query is padded, the result parses to its last byte as the same message with one zero-filled padding option in its last OPT if and only if every name stands and, where an OPT is added, the root name is read where parsing had stopped and the option fits in RDLENGTH |
| `Padding.NewOptKeepsMeaningExactly` | src/edns_padding.cpp:95-118 | where an OPT is added and no name uses ARCOUNT bytes, meaning is preserved if and only if the option fits and the query was consumed to its end or left one such pointer byte |
| `Padding.PaddingPreservesMeaning` | src/edns_padding.cpp:61-119 | in particular for a fully consumed query whose names use no overwritten byte and an option that fits: least multiple, and the padded query parses to its last byte as the same message with the padding option added as above |
| `Padding.NewOptNeedsRoom` | src/edns_padding.cpp:104-115 | when an OPT is added, the padded query is consumed to its end if and only if the option fits in RDLENGTH, which a block of at most 65532 guarantees |
| `Padding.LongOptionLeavesBytes` | src/edns_padding.cpp:104-115 | a query of one question padded to 65600 bytes is not consumed to its end |
| `Padding.StrayByteBreaksPadding` | src/edns_padding.cpp:95-118 | a query of one question with the byte 255 left unparsed does not parse once padded, for every block up to 16000 |
| `Padding.StrayPointerKeepsMeaning` | src/edns_padding.cpp:95-118 | with the byte 192 left unparsed instead, a pointer to a zero byte of the header, meaning is preserved |
| `Writer.MeasureLabels` | src/dns_writer.cpp:143-156 | the first pass accepts exactly the names whose parts are labels of 1 to 63 bytes and adds up their encoded length |
| `Writer.AppendLabels` | src/dns_writer.cpp:169-178 | the second pass appends the encoded labels |
| `Writer.BuildAQuery` | src/dns_writer.cpp:136-183 | the builder accepts exactly the names of at most 253 bytes whose parts between dots have 1 to 63 bytes, and writes their query |
| `Writer.SplitIs` | src/dns_writer.cpp:143-156 | the parts of a name are the only dotless ones that joined by dots give it back |
| `Writer.PartsHaveNoDot` | src/dns_writer.cpp:143-156 | and none of them has a dot |
| `Writer.EncodedNameDecodes` | src/dns_parser.cpp:28-83 | the decoder undoes the label encoding wherever it stands in a packet |
| `Writer.AQueryRoundTrip` | src/dns_writer.cpp:136-183 | for every accepted name, parsing the built query gives one A/IN question with the lower-cased name, the id, RD set, nothing else and no trailing bytes |
| `Writer.BuildHttpsQuery` | src/ech_bootstrap.cpp:55-89 | the loop encodes the labels before the first empty part and fails on a label over 63 bytes |
| `Writer.LeadingIs` | src/ech_bootstrap.cpp:66-82 | what it encodes is the parts before the first empty one |
| `Writer.HttpsQueryRoundTrip` | src/ech_bootstrap.cpp:55-89 | the HTTPS query parses if and only if the name fits in 255 bytes, and then to one question of type 65 for that name in lower case |
| `Replies.WriteReplyHeader` | src/dns_writer.cpp:28-46 | the header is written over the first 12 bytes: id, QR, opcode and RD of the query, RA, rcode, counts |
| `Replies.CopyQuestionBytes` | src/dns_writer.cpp:48-54 | the question bytes are copied and nothing else changes |
| `Replies.BuildReply` | src/dns_writer.cpp:58-134 | filling the buffer by index gives header, question bytes and answer |
| `Replies.EmptyReplyExactly` | src/dns_writer.cpp:103-134 | for every query that parses: without a question a refused, servfail or nodata reply does not parse; with one it parses with the query's id, opcode, RD and first question and the intended rcode if and only if that question's name is decoded alike in the reply |
| `Replies.EmptyReplyParses` | src/dns_writer.cpp:103-134 | if the first question's name is decoded from question bytes, the reply parses if and only if the query had a question, and to its last byte if it had one |
| `Replies.NoQuestionNoReply` | src/dns_writer.cpp:42 | twelve zero bytes parse as a query and no such reply to them does |
| `Replies.BlockReplyExactly` | src/dns_writer.cpp:58-101 | for every query with one question, a block reply parses as one zero-address answer whose pointer name decodes to the question's name if and only if that name is decoded alike in the reply and leaves one pointer to spare |
| `Replies.BlockReplyParses` | src/dns_writer.cpp:58-101 | if the name is decoded from question bytes, the reply parses at all if and only if the name leaves one pointer to spare |
| `Replies.LadderBlockReplyFails` | src/dns_writer.cpp:69-70 | a query whose name takes sixteen pointers inside the question parses and no block reply to it does |
| `Replies.UncompressedQueryIsSafe` | src/dns_writer.cpp:58-134 | a query whose name is not compressed meets the conditions of both |
| `RecencyList.RecencyList.PushBack` | src/cache.cpp:204 | a new node is linked in behind the last |
| `RecencyList.RecencyList.Erase` | src/cache.cpp:195 | a node found through its iterator is unlinked, the others keep their order |
| `RecencyList.RecencyList.MoveToBack` | src/cache.cpp:245 | splicing moves the same node to the end |
| `RecencyList.RecencyList.PopFront` | src/cache.cpp:212 | the front node goes and its key is returned |
| `Cache.DnsCache.Insert` | src/cache.cpp:182-207 | the class refines the abstract insert: skip a zero lifetime, drop the old entry, evict from the front until there is room, add at the recent end |
| `Cache.DnsCache.EvictFront` | src/cache.cpp:209-215 | one eviction removes the front of the recency order and its entry |
| `Cache.DnsCache.Lookup` | src/cache.cpp:217-260 | a miss, an expired entry dropped, or a hit that is promoted and served with rewritten TTLs and the client's id |
| `Cache.DnsCache.SweepExpired` | src/cache.cpp:262-277 | visiting the table in any order removes exactly the expired entries and returns how many |
| `Cache.DnsCache.ValidIsConsistent` | src/cache.cpp:182-277 | the table's keys are the list's elements without repeats, each entry's stored node being its own |
| `Lru.RunInvariant` | src/cache.cpp:182-277 | over every run, keys and recency order agree without repeats, the size stays within the limit, and inserts = size + evictions + swept + lazily expired + replaced |
| `Lru.EntryIsLatestInsert` | src/cache.cpp:182-277 | over every run, an entry is what was last stored under its key |
| `Lru.OrderIsLastUse` | src/cache.cpp:182-277 | over every run, the recency order is the order of last insert or hit |
| `Lru.EvictsLeastRecentlyUsed` | src/cache.cpp:199-215 | an insert of a new key into a full cache removes exactly the key whose last use is longest ago; with room nothing is evicted |
| `Lru.HitIsLatest` | src/cache.cpp:217-260 | a hit is the latest insert under its key, still within its lifetime, and the served TTL is exactly the whole seconds left of insert time plus lifetime, or all that 32 bits can say |
| `Lru.KeysAreExact` | src/cache.cpp:182-277 | over every run, after one more operation a key is there if and only if: for a store, it is the stored key, or was there and is not the least recently used one dropped for a new key in a full cache, so that storing again evicts nothing; for a lookup, it was there and is not a looked-up key whose latest insert has expired; for a sweep, it was there and its latest insert has not expired |
| `Lru.CountersAreRight` | src/cache.cpp:182-277 | over every run the counters are the numbers of lookups that found a fresh entry, of those that did not, of responses stored, and of stores of a new key into a full cache |
| `Serving.IdRewriteExactly` | src/cache.cpp:255-258 | changing the id changes only the id of the parsed message if and only if every name is decoded alike where it stands |
| `Serving.IdRewriteCommutes` | src/cache.cpp:255-258 | in particular if no name is read from the id bytes |
| `Serving.ServedBytesExactly` | src/cache.cpp:250-259 | the bytes of a hit parse to the stored message with the client's id and the remaining TTL in every non-OPT record if and only if every name is decoded alike where it stands |
| `Serving.ServedBytesParse` | src/cache.cpp:250-259 | in particular if no name is read from a TTL or id byte |
| `Serving.HitIsNeverStale` | src/cache.cpp:77-260 | in every run, a hit is the latest insert, its TTL is exactly the whole seconds left of it, and at most every answer and authority TTL and, for negative answers, the SOA MINIMUM and a day |
| `Blocklist.Blocklist.AddExact` | src/blocklist.cpp:41-45 | the lower-cased name joins the exact deny rules if it is a valid domain, and nothing changes otherwise |
| `Blocklist.Blocklist.AddSuffix` | src/blocklist.cpp:47-51 | likewise for suffix deny rules |
| `Blocklist.Blocklist.AddAllowExact` | src/blocklist.cpp:58-62 | likewise for exact allow rules |
| `Blocklist.Blocklist.AddAllowSuffix` | src/blocklist.cpp:64-68 | likewise for suffix allow rules |
| `Blocklist.CheckDomain` | src/blocklist.cpp:27-38 | the check loop computes which names are taken into a list |
| `Blocklist.DomainsAre` | src/blocklist.cpp:22-38 | they are those of 1 to 255 bytes that begin and end with no dot and hold only letters, digits, hyphens, underscores and dots, a letter or digit among them |
| `Blocklist.HostNamesAreDomains` | src/blocklist.cpp:27-38 | so every host name, labels of such characters joined by dots, with a letter or digit in it and of at most 255 bytes, is taken |
| `Blocklist.DenyBlocks` | src/blocklist.cpp:41-51 | once added, in whatever case, a domain is blocked, and as a suffix rule every name below it too, unless an allow rule applies |
| `Blocklist.AllowProtects` | src/blocklist.cpp:64-68 | a name at or below an allowed suffix is blocked only by a longer rule |
| `Wire.SameLetter` | src/blocklist.cpp:12-20 | two bytes are alike in lower case if and only if they are equal or the same ASCII letter in two cases |
| `Blocklist.FindSuffixMatch` | src/blocklist.cpp:121-132 | the search loop computes the recursive search from the full name outward |
| `Blocklist.LongestIsLongest` | src/blocklist.cpp:121-132 | it finds the longest label-aligned suffix in the set and misses none |
| `Blocklist.Blocklist.Allowed` | src/blocklist.cpp:136-141 | a name is allowed if and only if it is not empty and an exact or covering suffix allow rule applies |
| `Blocklist.Blocklist.MatchName` | src/blocklist.cpp:143-200 | the arbitration code computes the match function, and blocks if and only if the longest-match rule says so |
| `Blocklist.MatchIsLongestMatch` | src/blocklist.cpp:143-200 | a name is blocked if and only if its longest deny rule is strictly longer than every applicable allow rule; the reported rule is that one; a pattern decides only where no deny rule applies by name |
| `Blocklist.FirstRegexIsFirst` | src/blocklist.cpp:179-190 | that pattern is the first in the list that matches |
| `Blocklist.AllowNeverBlocks` | src/blocklist.cpp:55-68 | adding an allow rule never blocks a name |
| `Blocklist.DenyUnblocksExactly` | src/blocklist.cpp:161-200 | a new deny rule unblocks a name if and only if a pattern alone blocked it, the rule applies, and an applicable allow rule is at least as long |
| `Blocklist.DenyNeverUnblocks` | src/blocklist.cpp:41-51 | without patterns, adding a deny rule never unblocks a name |
| `Blocklist.DenyCanUnblock` | src/blocklist.cpp:179-200 | with a pattern it can: a concrete list and name |
| `Etld.EtldPlusOneSteps` | src/etld.cpp:62-111 | trimming, scanning the table and cutting computes the registrable-domain function |
| `Etld.BestIsBest` | src/etld.cpp:69-75 | the table scan finds a longest listed suffix the host ends with |
| `Etld.ResultIsTail` | src/etld.cpp:62-111 | the result is a label-aligned tail of the trimmed host, not empty unless the host is |
| `Etld.EtldPlusOneIdempotent` | src/etld.cpp:62-111 | taking it twice is taking it once, for every table |
| `Etld.PrefixKeepsExactly` | src/etld.cpp:62-111 | prefixing labels to a host, unless it is made of dots alone, leaves its registrable domain unchanged if and only if the host, less its trailing dots, has a dot and is not itself listed |
| `Etld.PrefixMovesCoUk` | src/etld.cpp:24 | listed hosts exist: whatever is put in front of co.uk changes its registrable domain |
| `Etld.TableIsTwoLabels` | src/etld.cpp:18-49 | every entry of the real table has two labels, as the previous row needs |
| `Uncloaker.WalkLoop` | src/uncloaker.cpp:26-56 | the re-scanning loop with its cap computes the recursive walk |
| `Uncloaker.TakeHopsLoop` | src/uncloaker.cpp:105-136 | the inner loop with its `seen` set checks loop, depth, crossing and blocklist in that order |
| `Uncloaker.UncloakLoop` | src/uncloaker.cpp:69-173 | the outer loop with re-queries computes the recursive run, and terminates |
| `Uncloaker.UncloakIsSound` | src/uncloaker.cpp:69-173 | for every upstream: the chain starts at the name, repeats nothing, respects the depth limit, and each hop is the decoded CNAME target of the one before in the first response or in the answer that upstream gave to the re-query for an earlier name of the chain, at the turn at which that name was asked; clean means no hop is blocked, blocked means the last is the first that is; the crossing flag is exact and records the first crossing; every re-query is for a name of the chain, none for a name twice, and there are at most the depth limit less two |
| `Uncloaker.ReasonIsTrue` | src/uncloaker.cpp:69-173 | for every upstream, the reason an aborted run gives is true: the last response looked at does not parse, has an alias target that does not decode, or leads back into the chain; the chain has reached the depth limit; its last name cannot be put in a query; or the re-query for it brought nothing |
| `Uncloaker.CappedWalkRepeats` | src/uncloaker.cpp:31-55 | a walk that uses all its turns goes through some name twice, by the pigeonhole principle |
| `Uncloaker.CappedWalkEndsRun` | src/uncloaker.cpp:105-144 | so a capped walk is neither reported clean nor followed by a re-query |
| `Uncloaker.PermutedAnswersWalkAlike` | src/uncloaker.cpp:33-54 | if each owner has one CNAME or only addresses, the walk is the same for every order of the answers |
| `Uncloaker.ChainIsOrbit` | src/uncloaker.cpp:85-172 | if all responses agree with one alias map, the chain is a prefix of its orbit |
| `Uncloaker.CleanReachesEnd` | src/uncloaker.cpp:138-144 | if responses are also complete for the asked name, clean means the orbit really ended |
| `Uncloaker.FinishedRunsAgree` | src/uncloaker.cpp:85-172 | two upstreams that describe the same aliases, however unreliably, give the same verdict, rule, chain and crossing whenever neither run aborts |
| `Uncloaker.WholeOrbitExists` | src/uncloaker.cpp:105-136 | under every alias map every name has one orbit without repeats that ends, or comes back to itself |
| `Uncloaker.VerdictIsRight` | src/uncloaker.cpp:69-173 | if upstream answers readably, completely and in agreement with one alias map, then for every orbit, longer than the depth limit or not: the run is blocked if and only if a name within the limit and beyond the first is blocked, and stops at the first such; otherwise its chain is the part of the orbit within the limit, and unless the orbit ends exactly at the limit the run is clean if and only if it ends before it, or at the name itself |
| `Uncloaker.VerdictAtLimit` | src/uncloaker.cpp:138-152 | an unblocked orbit that ends exactly at the limit is clean if and only if the last response the run looked at shows an address of its last name, and aborted otherwise |
| `Uncloaker.BatchingIndependence` | src/uncloaker.cpp:85-172 | two upstreams that so describe the same aliases, whatever hops they put in one response, give the same chain, crossing and rule in every case, and the same verdict if and only if, should the orbit end exactly at the depth limit with no name blocked, both last responses show the address of its last name or neither does |
| `Uncloaker.SpreadMattersAtLimit` | src/uncloaker.cpp:138-152 | in that case the verdict can differ: with limit two, q CNAME b alone is aborted and q CNAME b with b A is clean, from the same cooperative upstream |
| `Uncloaker.CleanFirstResponse` | src/uncloaker.cpp:105-144 | clean means the first response was readable and every alias in it is unblocked |
| `Resolver.ReplyMatchesLoop` | src/resolver.cpp:20-36 | the comparison loop accepts exactly replies whose questions equal the query's |
| `Resolver.Resolver.Send` | src/resolver.cpp:64-108 | the nested attempt loops return the specified reply, send identical bytes at every call, count each absent reply against its adapter and each success once; answered counters sum to successes and timeout counters to absent replies over every run |
| `Resolver.ForwardIsFirstValid` | src/resolver.cpp:64-108 | the result is exactly the first reply of the schedule that came, has at least 12 bytes, begins with the two bytes of our id, and parses with the questions the query parses with, given back with the client's two id bytes and otherwise unchanged; its adapter is the primary for the first attempt and the retries, then each other one in turn; it fails only after all retries + adapters attempts, or at once on a query of less than 12 bytes |
| `Resolver.TimeoutsAreCounted` | src/resolver.cpp:80-93 | each adapter's timeout counter grows by the number of attempts on its turn that brought no reply |
| `Resolver.ReturnedReplyAnswersClient` | src/resolver.cpp:20-108 | the returned reply parses with the client's id and the client's questions |
| `Resolver.OutboundCarriesQuery` | src/resolver.cpp:68-78 | padded or not, what upstream is sent parses to the client's message with our id and the padding added, if no name of the query uses the id bytes and, where it is padded, the padding theorem applies |
| `Aliases.SayAlikeExactly` | src/uncloaker.cpp:33-54 | two packets whose answers differ only in TTLs say the same of every name if and only if every CNAME that is the first relevant record of its owner has the same decoded target in both |
| `Aliases.ServedAliasesExactly` | src/cache.cpp:250-259 | the bytes of a hit parse to the stored message with the client's id and the remaining TTL, and say the same of every name, if and only if every name and every deciding CNAME target is decoded alike where it stands |
| `Aliases.ServedAliases` | src/uncloaker.cpp:26-56 | then, for all rules and every queried name, the aliases in the bytes served can be followed and are unblocked if and only if those in the stored response can and are |
| `Aliases.ClearAliasesAreServed` | src/cache.cpp:250-259 | in particular if no name and no such target is read from a TTL or id byte |
| `Aliases.ServedAliasCanChange` | src/cache.cpp:246-259 | the targets have to be asked for: q CNAME whose target points into its own TTL 354 is an alias of b when stored and, served a second later as the very message that was stored, an alias of a, which a suffix rule blocks |
| `Ordinary.UsualNamesAreClear` | src/cache.cpp:34-42 | a message with one written-out question name, whose owner names are labels that end in the root or in pointers to such names in the question section, in owner names or in RDATA, decodes no name from a TTL or id byte |
| `Ordinary.UsualTargetsAreClear` | src/cache.cpp:34-42 | if its CNAME targets are such names too and end with their RDATA, no target is decoded from one either |
| `Ordinary.UsualResponseIsServed` | src/cache.cpp:217-260 | so it is served from the cache as the same message with the client's id and the remaining TTL, and says the same of every name, without further hypothesis |
| `Ordinary.UsualQueryIsPadded` | src/edns_padding.cpp:61-119 | a query with such names decodes none from a byte that padding overwrites |
| `Ordinary.BuiltQueryPads` | src/edns_padding.cpp:61-119 | every query the daemon builds meets every hypothesis of the padding theorem, for blocks from 1 to 65532 |
| `Ordinary.RequeryOnTheWire` | src/uncloaker.cpp:154-165 | for every encodable name, ids and such block size, the uncloaker's re-query as upstream receives it is the least fitting multiple of the block and parses to its last byte as one A question for the lower-cased name under our id, RD set, with one OPT holding the padding |
| `Server.BeginKeeps` | src/server.cpp:157-200 | from arrival to the first wait: the phase reached is justified, a reply from the cache by this very lookup of an entry stored earlier in the run; only an unparseable query ends without a reply; a query that is let through is forwarded if and only if the cache has no fresh entry for it |
| `Server.AnswerKeeps` | src/server.cpp:202-282 | what this event's upstream brings for this task is relayed and kept in the cache with its lifetime if it cannot hold addresses, and judged first if it can; no answer becomes SERVFAIL |
| `Server.JudgeKeeps` | src/server.cpp:223-267 | only a clean verdict of this event on the response this task was given, under the startup rules, relays and keeps it; a blocked one becomes the block reply of the type, an aborted one SERVFAIL, and neither touches the cache |
| `Server.TaskArrived` | src/server.cpp:292-320 | in every run, every task stems from an arrival event, and the rules it is handled with are those of the last reload event before that, or the startup rules if there was none, whatever is reloaded later |
| `Server.MadeUpRepliesSay` | src/server.cpp:163-186 | for every query with one question, the refusal says REFUSED (5), the failure SERVFAIL (2), and the block reply 0.0.0.0 to type 1, :: to type 28 and no record to any other, for 300 seconds, with the query's id, opcode, RD and question, if and only if the question's name is the same in the reply and, where it is pointed to, leaves a pointer to spare |
| `Server.PlainQueriesAreTold` | src/server.cpp:163-186 | so a client that sends the name in full is always told so |
| `Server.ForwardableTypes` | src/server.cpp:51-74 | the types that may be forwarded, by number |
| `Server.SweepDropsExpired` | src/server.cpp:119-320 | in every run, a sweep event drops exactly the entries that have expired and changes no other |
| `Server.PassedOnIsKept` | src/server.cpp:209-267 | in every run, a response with a lifetime is in the cache under its question from the event that passes it on, until event time plus lifetime |
| `Server.HitIsPromoted` | src/server.cpp:190-200 | in every run, an answer from the cache makes its entry the most recently used one and changes no entry |
| `Server.StepKeeps` | src/server.cpp:119-320 | every event of the step system keeps the invariant: each phase, each reply sent and each cache entry has its reason in an earlier event of the run |
| `Server.EveryReplyIsJustified` | src/server.cpp:119-290 | in every run, every reply belongs to a query that had arrived, was sent by a later event of its own task, and is justified by what had happened to that task before: refused exactly when not one forwardable question; the block reply of its type whenever the rules of the last reload before its arrival block the name; blocked by alias or SERVFAIL only after the uncloaker's verdict on a response that task had been given, or after its forward failed; relayed only what its own forward brought, judged clean if it can hold addresses; from the cache only by its own lookup of an entry stored earlier |
| `Server.AddressAnswersAreVetted` | src/server.cpp:119-320 | in every run of interleaved queries, reloads and sweeps, a reply that was not made up belongs to a query whose name the rules of the last reload before its arrival do not block; what upstream had said echoes the question and, for A and AAAA, had been given to some task asking that question and was judged clean by an event of that task under the rules pinned at startup, so that none of its aliases is blocked by them; nor is any alias in the bytes sent, if they are relayed, or cached and every name and deciding target is decoded alike in them |
| `Server.UsualAnswersAreVetted` | src/server.cpp:119-320 | so in every run no address answer shows the client an alias that the startup rules block, if what upstream had said was compressed the usual way |
| `Server.CacheHoldsVettedReplies` | src/server.cpp:209-267 | in every run, each cache entry was stored by an event of the run from what upstream said to that key (its one question is the key if no name uses the id bytes) and, for A and AAAA, was judged clean then, and no alias of it is blocked |
| `Server.CacheIsLru` | src/server.cpp:119-290 | in every run the daemon's cache is the abstract LRU map after the lookups, inserts and sweeps of the run |
| `Server.CachedRepliesAreNeverStale` | src/server.cpp:190-200 | in every run whose clock does not go back, a reply served from the cache is the latest response stored under its key, its TTL is exactly the whole seconds left of that response's lifetime, and it outlives no answer or authority TTL nor, for negative answers, the SOA MINIMUM and a day |
| `Server.OneReplyEach` | src/server.cpp:119-290 | in every run there is one task for each query that arrived, in that order; it has no reply until it is done and then exactly one if it parsed and none otherwise; every reply carries its query's id |
| `Server.EveryQueryCanFinish` | src/server.cpp:119-290 | from every reachable state, a query can be finished within four more steps, at any moment from then on and with the clock running on, even if upstream never answers again |
| `Base64.EncodeLoop` | src/tls.cpp:37-51 | the group loop computes the encoding |
| `Base64.EncodedSymbols` | src/tls.cpp:37-51 | the i-th four symbols spell the i-th three bytes six bits at a time in the alphabet A-Z a-z 0-9 + /, with an equals sign where a byte is missing |
| `Base64.DecodeLoop` | src/tls.cpp:280-332 | stripping, padding count and group loop compute the decoding, errors included |
| `Base64.DecodesExactly` | src/tls.cpp:280-332 | a text decodes if and only if, without spaces, tabs, CRs and LFs, it is whole groups of four symbols, equals signs standing only in the last two places of a group |
| `Base64.StripIs` | src/tls.cpp:294-299 | the text without white space is the text with exactly the spaces, tabs, CRs and LFs taken out |
| `Base64.RoundTrip` | src/tls.cpp:280-332 | decoding undoes encoding for every byte string, wherever spaces, tabs, CRs and LFs have been put into the text |
| `Base64.DecodedIsEncodingExactly` | src/tls.cpp:280-332 | a text that decodes is an encoding of its result if and only if padding stands only at the end and no stray bits precede it |
| `Base64.DecodeNotCanonical` | src/tls.cpp:303-330 | two different texts for one byte |
| `Svcb.SkipNameLoop` | src/ech_bootstrap.cpp:98-109 | the skipping loop computes the offset after an uncompressed name, or nothing |
| `Svcb.ExtractEchLoop` | src/ech_bootstrap.cpp:113-144 | skipping the target name and walking the parameters computes the extraction function |
| `Svcb.ExtractsEncoded` | src/ech_bootstrap.cpp:98-144 | for every priority, uncompressed target and parameter list, extraction gives the first ECH parameter, and nothing in alias mode |
| `Svcb.ExtractedIsThere` | src/ech_bootstrap.cpp:126-139 | whatever is extracted from any data follows whole parameters of other keys and its own key and length |
| `QueryLog.AppendEscaped` | src/query_log.cpp:52-74 | the appending loop computes the escaping |
| `QueryLog.EscapesAre` | src/query_log.cpp:52-74 | only quotes, backslashes and control characters are escaped, some by name and the others by four hexadecimal digits |
| `QueryLog.EscapeRoundTrip` | src/query_log.cpp:52-80 | a JSON reader gets back exactly the string and exactly what follows its closing quote, for every string and continuation |
| `QueryLog.ToJsonLine` | src/query_log.cpp:133-171 | building the line by appending gives the fields in their order |
| `LogReading.LineIsRead` | src/query_log.cpp:133-171 | a JSON reader finds in a line the members v, ts, qname, qtype, action, rule, cname_chain, upstream, latency_ms, client and, if there is one, tls_ech_status, in that order, each with that field of the record: strings, an array of strings, numbers, or null for an empty rule and an absent upstream |
| `LogReading.NamesAre` | src/query_log.cpp:20-50 | how actions and known record types are spelled, and that any other type is its number |
| `QueryLog.LineHasNoControl` | src/query_log.cpp:133-171 | a line holds no raw control character, so no newline |
| `QueryLog.LineDeterminesRecord` | src/query_log.cpp:133-171 | two records with the same line are the same record, whatever bytes their strings hold |
| `QueryLog.SplitLinesRoundTrip` | src/query_log.cpp:326-332 | splitting a log file on newlines gives back the lines written |
| `Logger.QueryLogger.Log` | src/query_log.cpp:216-238 | a line is written, queued, or counted as dropped when the queue is full; a disabled logger does nothing |
| `Logger.QueryLogger.DrainQueue` | src/query_log.cpp:302-332 | a burst writes the whole queue in order |
| `Logger.QueryLogger.Shutdown` | src/query_log.cpp:199-214 | shutdown leaves the queue empty and everything queued written |
| `Logger.Conservation` | src/query_log.cpp:199-238 | in every interleaving: accepted lines are exactly the first lines up to the bound between drains, and equal written ++ queued in order; accepted + dropped = logged; the queue stays within its bound |
| `Logger.NothingAcceptedIsLost` | src/query_log.cpp:199-214 | after shutdown the file, split on newlines, is exactly the accepted lines |

## Left out

- Sockets, timers, coroutines, signals, TLS and HTTP: an adapter is an arbitrary function from call number to an optional reply, the uncloaker's upstream an arbitrary function, clocks and random ids are parameters.
- Server.OneReplyEach: sending succeeds; a failing `async_send_to` ends the handler without a reply.
- Threads: the cache, the log queue and the rule snapshot are each changed under one lock, so operations are atomic steps; memory orders and mutexes are not modelled.
- `handle` as one coroutine: `Server` cuts it at its waits into pure stages over one state value; the console output and the log records it makes are not modelled.
- `std::regex`: a pattern is an arbitrary predicate on names with a length.
- Integer width of sizes and counters: lengths and counters are unbounded; fields that wrap on the wire (RDLENGTH, ids, TTLs) are modelled with their width.
- Kinds of parse error: every `ParseError` is `None`.
- Cache.DnsCache.Insert: requires a limit of at least one entry, because with a limit of zero the loop at `src/cache.cpp:200` never ends.
- Lru.RunInvariant: assumes the same limit of at least one entry.
- Ttl.TtlRewriteCommutes: the footprint hypothesis is sufficient and not necessary; Ttl.TtlRewriteExactly has the exact condition.
- Padding.PaddingPreservesMeaning: its hypotheses are sufficient and not necessary; Padding.PaddingExactly has the exact condition.
- Serving.ServedBytesParse: its footprint hypotheses are sufficient and not necessary; Serving.ServedBytesExactly has the exact condition.
- Edits.EditsCommuteWithParsing: its footprint hypothesis is sufficient and not necessary; Edits.EditsCommuteExactly has the exact condition.
- Replies.EmptyReplyParses: leaves out queries whose first name is read outside the question bytes; Replies.EmptyReplyExactly has them.
- Replies.BlockReplyParses: leaves out the same queries; Replies.BlockReplyExactly has them.
- Resolver.OutboundCarriesQuery: its hypotheses are sufficient and not necessary, being those of the two theorems it joins.
- Aliases.ClearAliasesAreServed: its footprint hypotheses are sufficient and not necessary; Aliases.ServedAliasesExactly has the exact condition.
- Server.UsualAnswersAreVetted: usual compression is sufficient and not necessary; Server.AddressAnswersAreVetted has the condition on the bytes.
- QueryLog.LineDeterminesRecord: the formatted timestamp and latency are taken as text without quotes, commas or control characters, which the printf formats give.
- LogReading.LineIsRead: likewise as one or more letters, digits, hyphens, colons and points.
- Logger.QueryLogger.Log: the stream is healthy; a file that cannot be opened, rotation and the hash used to redact clients are not modelled.
- Loading hosts files, TOML configuration, paths, privileges, `main.cpp` and the resolver factory: wiring and field-by-field validation.
- ECH bootstrap over the network and its reload, and the Python and PowerShell tools.
