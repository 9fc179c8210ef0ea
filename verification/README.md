# An eD2k server, modelled in Dafny

The server answers file searches over a catalog and over the files its connected clients share, keeps the
register of those shares, speaks an obfuscated stream protocol, and answers datagrams under a rate limit.
Five parts of it have a fast or stateful form that has to agree with a simple one; those are modelled and
proved here. `dafny verify dfyconfig.toml` checks the whole project.

## How it is laid out

Code that computes is a function. Code that changes state is a class or a method, proved equal to a
specification function, and the properties are lemmas about that function.

| files | what they hold |
|---|---|
| `Basics`, `Library` | byte strings, little-endian numbers, records; the text routines with their laws |
| `SearchSyntax`, `SearchParser`, `SearchProofs`, `TagNames`, `SearchDepth`, `MediaLengths` | the two query encodings: what the parsers compute, the parsers over a reader, and the theorems about them, down to the bytes |
| `SearchQueries`, `QueryAlgebra`, `SummaryFields` | matching and what it finds as sets; the pure-AND summary, its soundness and its filters |
| `TrigramIndex`, `Catalogs`, `CatalogViews`, `HashKeywords` | the index, candidate selection, the catalog object, what it stores and shows, and exactly when a search differs from a full scan |
| `SharedIndex`, `ClientIDs`, `ShareRegistry`, `OpenRegistry`, `Listings`, `EndpointTables`, `OfferHistory`, `Servers`, `Refinement` | the share register: critical sections as functions, the interleaving machine with and without its assumptions, its entries told from the offers, the objects, and that they do what the machine does |
| `Traces`, `LostShare`, `ZeroID` | particular runs of that machine |
| `ResultPages` | search results handed out page by page |
| `SourceReplies`, `SourcePlaces` | the sources of a file, ordered and capped |
| `UdpLimiter`, `Datagrams` | the token bucket and the datagram packer |
| `Rc4`, `Rc4Trace`, `KeyAgreement`, `Obfuscation`, `HandshakeBytes` | the keystream and that it is RC4's, the key agreement, and the handshake with its connections and its bytes |

`ShareRegistry` is the server seen as a machine whose steps are the critical sections of the client handlers;
an offer is two of them, a disconnect three, and handlers interleave freely between them. `Enabled` restricts
its steps to the assumptions below; `Allowed` does not, and `OpenRegistry`, `Listings` and `OfferHistory` are about
all runs of allowed steps.
The machine and the objects of `Servers` are two descriptions of the same critical sections. They share the
functions `TakenAll`, `Offered`, `RemovedAll` and `Allocate`, and `Refinement` proves, section by section, that
objects which represent a state represent the next state afterwards.

## What is assumed

* `TrimSpace`, `ToLower` and `EqualFold` are parameters with the laws `LawfulTrim` (idempotent, never longer,
  keeps a tag byte), `LawfulFold` (an equivalence that tells `.x` from `x`) and `LawfulAscii` (the usual letter
  case on 7-bit text, of which trimming only removes outer white space). The parsing of a host and a port into an
  address is a parameter without laws. `LawsAreConsistent` gives routines that meet all of them. Each lemma names those it needs.
* MD5 is an arbitrary function. Private exponents and padding are parameters. How many bytes one network read
  delivers is left open, so every result about streams holds for every segmentation.
* The modulus of the key agreement is only used as an odd number above one that fits in 96 bytes; `PrimeIsGood`
  shows that of the constant.
* Times are real numbers, given with each call, and do not decrease from one call to the next.
* Tag numbers are the usual eD2k ones; the proofs use that they differ and are not white space. The package
  that reads them (`github.com/monkeyWie/goed2k/protocol`) is not part of this model: its readers are taken as
  fixed-width little-endian reads, and reading no bytes succeeds everywhere.
* The invariant of `ShareRegistry` and what follows from it assume one login per session, an endpoint in every
  offered record, and `nextID` plus the number of clients below the largest 32-bit number. `OpenRegistry` and
  `Listings` assume none of this: they cover every batch, also one that names a file with and without an endpoint,
  and every number of logins, except that `Listings.QuiescentExactIff` is about single logins. The theorems of
  `EndpointTables`, which speak of the tables alone, are about runs in which no batch contradicts itself in this
  way (`AgreeingBatches`). All take choosing and registering an ID as one step.

## Where the code does not do what it says

* `ed2ksrv/catalog.go:148-151` promises the results of a full scan. A keyword that is a file's hash matches the
  file whatever its name, and the index only sees names, so such a file can be missed (`HashTokenIsMissed`, with
  a record the catalog stores). `SearchIsFullScanIff` gives the exact condition for any query and any consistent
  catalog: the index uses no key, or the key is not a hash, or the one record with that hash is absent, does not
  match, or has the key's trigrams in its name. `KeywordSearchIsFullScanIff` gives it for a single keyword over
  all catalogs that operations can produce: the keyword is not a hash, or is the zero hash, which no record has.
* The summary is not always implied by the tree: an extension filter loses its leading dot twice, so one that
  starts with two dots is lost (`DoubledDotIsLost`). `SummarySound` is an equivalence: a matching record passes
  the summary exactly when the last extension filter does not start with two dots.
* Replacing the contents with a hash given twice leaves the list and the map out of step
  (`ReplaceConsistentIff`, `DuplicateSurvivesDelete`).
* The depth limit that is said to bound decoded trees (`ed2ksrv/protocol.go:111-113`) only applies to the prefix
  encoding. The linear encoding builds a left-deep tree as high as it has operators (`LinearWithinDepthIff`).
  `DepthLimitExceeded` gives a request for every limit, and `DecodedWithinDepthIff` proves of every request that
  decodes: its tree exceeds the limit exactly when the request is linear with more operators than that.
* A fallback ID can be zero, the value for "not logged in"; `ZeroID.RunToZeroID` is a run that ends so. `ZeroIDIff`
  says exactly when: the client's address does not serve, zero is free, and every number from `nextID` up to zero
  is in use.
* A record offered without an endpoint is entered but not listed, and its file can disappear while it is still
  offered; `LostShare.EndpointlessShareIsLost` is a run that ends so. What a client is listed for is, in every
  state of every run, what its requests show (`ListedIffShown`): of each completed batch the accepted hashes that
  some record of it gives an endpoint for. So a withdrawal or departure takes a file from the index exactly when
  the requests under no other ID show it, whatever other handlers are in the middle of (`OfferedFileIsLostIff`);
  an offer never removes a file (`StepRemovesIff`). And between operations, with single logins, the index is exact
  if and only if every file on offer is shown (`QuiescentExactIff`; `QuiescentListingIff` for any logins). Whether the record in a table has an endpoint
  decides this only if no batch contradicts itself (`EndpointTables`); `ContradictingBatchIsExact` is a run where
  one does and the index is exact although the record on offer has none.
* A second login of a session leaves its old ID listed for exactly the files it was listed for at that moment,
  for ever, also after the session has left (`SecondLoginLeavesListing`).
* The comment on the limiter's table size (`ed2ksrv/udp_limit.go:23-24`) says that the table cannot grow without
  bound. Packets from different addresses at one time leave a bucket each, whatever the cap (`FloodPassesLimit`,
  `FloodOfSize`). The cap is passed exactly when the buckets the sweep may not drop, with the new address, are more
  than it (`GrowsPastLimitIff`); every bucket was then used less than one second ago (`TableBounded`).

## Model

| member | source | states |
|---|---|---|
| `SearchProofs.PrefixAcceptsExactly` | ed2ksrv/protocol.go:135-205 | the prefix parser returns an expression if and only if the body is the encoding of a syntax tree of allowed depth with that meaning |
| `SearchProofs.DecodeInvertsTreeBytes` | ed2ksrv/protocol.go:114-220 | decoding any encoded tree gives its meaning when the depth limit allows its height, and otherwise the two errors of a tree too deep and a body that is not linear |
| `SearchProofs.DecodeInvertsEncoding` | ed2ksrv/protocol.go:114-220 | round trip: a normalised expression is decoded from its encoding if and only if its height is within the limit, and is an error otherwise |
| `SearchProofs.EncodingMeans` | ed2ksrv/protocol.go:315-362 | the encoding of a normalised expression is well formed, means that expression and has its height |
| `SearchProofs.TreeParses` | ed2ksrv/protocol.go:147-205 | from any depth, an encoded tree followed by anything parses to its meaning and leaves exactly what follows |
| `SearchProofs.TooDeepFails` | ed2ksrv/protocol.go:147-150 | a tree that would pass the depth limit fails as too deep, whatever follows it |
| `SearchProofs.TreeOfParse` | ed2ksrv/protocol.go:147-205 | whatever the prefix parser accepts is the encoding of a tree within the limit, followed by what it left unread |
| `SearchProofs.LegacyAcceptsExactly` | ed2ksrv/protocol.go:222-250 | the linear parser returns an expression if and only if the body is a term and a list of operator-term links whose left fold it is |
| `SearchProofs.LinearParses` | ed2ksrv/protocol.go:222-250 | a linear encoding parses to the left fold of its terms, or to the first error in it |
| `SearchProofs.LegacyTermParses` | ed2ksrv/protocol.go:252-305 | one encoded term followed by anything is read as its meaning, and what follows is left |
| `SearchProofs.TermMeaningsAgree` | ed2ksrv/protocol.go:501-536 | a term the prefix parser understands means the same to the linear parser |
| `SearchProofs.PrefixOfLinear` | ed2ksrv/protocol.go:135-145 | given a linear encoding, the prefix parser reads its first term and refuses whatever comes after |
| `SearchProofs.FallbackUnambiguous` | ed2ksrv/protocol.go:122-130 | a body both parsers accept is a single term and both give the same expression |
| `SearchProofs.DecodeInvertsLinear` | ed2ksrv/protocol.go:107-133 | through the whole decoder a linear encoding yields the left fold of its terms, for any number of terms and any depth limit |
| `SearchProofs.DecodesNormalised` | ed2ksrv/protocol.go:315-362 | every decoded expression has trimmed non-empty strings, supported tags and operators, and values that fit |
| `SearchProofs.SummarizedIffOnlyAnds` | ed2ksrv/protocol.go:307-313 | the query decoded from a request is summarised if and only if the request is not empty and all operators of its tree are AND |
| `TagNames.NumberByName` | ed2ksrv/protocol.go:207-220 | through the whole decoder, a number whose tag is written as a name that folds to "bitrate" or "length" is the leaf with tag byte 0xD4 or 0xD3, and every other name is refused, for 32-bit and 64-bit numbers |
| `TagNames.TextByName` | ed2ksrv/protocol.go:315-342 | a text under a name that folds to "codec" is the leaf with tag byte 0xD5, under "length" the number of its seconds with tag byte 0xD3, and under every other name refused; an empty text finds everything |
| `TagNames.NumberByByte` | ed2ksrv/protocol.go:344-362 | a number whose tag is one byte is the leaf with that byte for 0x02, 0x15, 0x30, 0xD3 and 0xD4, and refused for every other |
| `TagNames.TextByByte` | ed2ksrv/protocol.go:315-342 | a text whose tag is one byte is the leaf with that byte for 0x03, 0x04 and 0xD5, a number of seconds for 0xD3, and refused for every other |
| `TagNames.NumberOperatorRefused` | ed2ksrv/protocol.go:207-214 | a number with an operator byte above 5 is refused under any tag |
| `TagNames.KeywordDecodes` | ed2ksrv/protocol.go:174-180 | a keyword decodes to itself, trimmed, and to everything if that is empty |
| `TagNames.TermsOnTheWire` | ed2ksrv/protocol.go:174-204 | the bytes of every term: its type 1, 2, 3 or 8, lengths in two bytes and numbers in four or eight, low byte first |
| `TagNames.NodesOnTheWire` | ed2ksrv/protocol.go:157-173 | a node of the prefix encoding is a zero byte, the operator, and the two subtrees |
| `TagNames.LongTagRefused` | ed2ksrv/protocol.go:527-536 | the linear parser refuses a tag longer than one byte |
| `TagNames.TermDecodes` | ed2ksrv/protocol.go:114-133 | a request of one term decodes to its meaning in the prefix encoding, else to what the linear parser makes of it, else to both errors |
| `SearchDepth.LinearWithinDepthIff` | ed2ksrv/protocol.go:228-248 | a linear request decodes to a tree as high as it has operators, within the depth limit if and only if it has no more operators than that |
| `SearchDepth.DecodedWithinDepthIff` | ed2ksrv/protocol.go:111-133 | for every request that decodes, the tree is within the depth limit if and only if the request is not linear with more operators than the limit |
| `SearchDepth.DepthLimitExceeded` | ed2ksrv/protocol.go:114-133 | for every depth limit, a request that decodes to a tree one level higher |
| `SearchDepth.ThreeWordBytes` | ed2ksrv/protocol.go:114-133 | the sixteen bytes of the request that exceeds a limit of one |
| `SearchDepth.FoldHeight` | ed2ksrv/protocol.go:247 | every operator of the linear encoding adds one level |
| `SearchDepth.MeaningHeight` | ed2ksrv/protocol.go:157-173 | the expression of a prefix encoding is as high as the tree that is encoded |
| `SearchDepth.DefaultDepth` | ed2ksrv/protocol.go:99-120 | a limit of zero or less allows trees of 64 levels, a positive one as many as it says |
| `SearchParser.Reader.ReadByte` | ed2ksrv/protocol.go:151-154 | takes the first unread byte, or fails at the end |
| `SearchParser.Reader.ReadBytes` | ed2ksrv/protocol.go:506-509 | takes exactly so many bytes, or fails |
| `SearchParser.Reader.ReadUInt` | ed2ksrv/protocol.go:191-200 | takes a little-endian number of the given width, or fails |
| `SearchParser.ReadSearchString` | ed2ksrv/protocol.go:501-511 | takes a string with a 16-bit length and trims it |
| `SearchParser.ReadSearchTagRef` | ed2ksrv/protocol.go:513-525 | takes a tag: one byte is a tag number, more is a name, none is an error |
| `SearchParser.ReadLegacySearchTagID` | ed2ksrv/protocol.go:527-536 | takes a tag number that must have length one |
| `MediaLengths.MediaLengthMeans` | ed2ksrv/protocol.go:683-715 | a length is accepted if and only if it is one to three non-negative numbers between colons, and means seconds, 60m + s or 3600h + 60m + s, reduced to 64 bits |
| `MediaLengths.FittingLength` | ed2ksrv/protocol.go:713 | the reduction does not change a length that fits in 63 bits |
| `MediaLengths.JoinOfSplit` | ed2ksrv/protocol.go:699 | every text is its colon-free parts joined by colons |
| `MediaLengths.SplitOfJoin` | ed2ksrv/protocol.go:699 | splitting joined colon-free parts gives the parts back |
| `MediaLengths.NumbersRead` | ed2ksrv/protocol.go:689 | decimal digits are read as their number if it is below 2^63, after a plus too, after a minus as its negative down to -2^63, and else refused |
| `MediaLengths.OthersDoNotRead` | ed2ksrv/protocol.go:705 | a text with anything but digits after at most one sign, or without digits, is no number |
| `MediaLengths.DecimalReads` | ed2ksrv/protocol.go:689 | the decimal digits of a number read as that number |
| `SearchParser.ParseRecursiveNumericExpr` | ed2ksrv/protocol.go:207-220 | reads operator and tag of a number in the prefix encoding |
| `SearchParser.ParseRecursiveTerm` | ed2ksrv/protocol.go:174-204 | reads one leaf of the prefix encoding after its type byte |
| `SearchParser.ParseRecursiveSearchExpr` | ed2ksrv/protocol.go:147-205 | the recursive parser over a reader computes `PrefixExpr` of the unread bytes and leaves the same rest |
| `SearchParser.ParseRecursiveSearchRequest` | ed2ksrv/protocol.go:135-145 | the prefix parser over a whole body, which must be used up |
| `SearchParser.ParseLegacyNumericExpr` | ed2ksrv/protocol.go:292-305 | reads operator and tag of a number in the linear encoding |
| `SearchParser.ParseLegacySearchTerm` | ed2ksrv/protocol.go:252-290 | reads one term of the linear encoding |
| `SearchParser.ParseLegacySearchRequest` | ed2ksrv/protocol.go:222-250 | the loop over operators and terms computes the left fold that `LegacyRequest` defines |
| `SearchParser.ParseSearchRequestLimited` | ed2ksrv/protocol.go:114-133 | empty body, then prefix, then linear: the query of the decoded root with its summary, left unsummarised for an empty body, or the error of both parsers |
| `SearchParser.ParseSearchRequest` | ed2ksrv/protocol.go:107-109 | the same whole result, query or error, for the default depth limit |
| `SearchQueries.SummarySound` | ed2ksrv/protocol.go:390-468 | a record that matches a summarised tree passes the summary filter if and only if the last extension filter does not start with two dots, for every order and combination of range operators |
| `SearchQueries.KeywordsRequired` | ed2ksrv/protocol.go:45-48 | a record that matches a summarised tree matches every keyword of the summary |
| `SearchQueries.SummarizedIffPureAnd` | ed2ksrv/protocol.go:307-313 | the tree is summarised if and only if it is a pure-AND tree of summarisable leaves, and the keywords are then its keyword leaves in order |
| `SearchQueries.CollectsExactlyPureAnd` | ed2ksrv/protocol.go:390-406 | the same for collecting into any summary already begun |
| `SearchQueries.CollectingKeepsMeets` | ed2ksrv/protocol.go:452-468 | a record that meets a summary and matches a tree still meets the summary after the tree has been collected into it |
| `SearchQueries.CollectsLastExtension` | ed2ksrv/protocol.go:421-433 | the summary's extension is that of the last extension leaf without one leading dot |
| `SearchQueries.DoubledDotIsLost` | ed2ksrv/protocol.go:580-582 | a record and a query with an extension of two dots that matches the tree but not the summary |
| `SearchQueries.ToInt64` | ed2ksrv/protocol.go:438-446 | the conversion to a signed number keeps the residue modulo 2^64 and lands in the signed range |
| `SearchQueries.RangeSummaryAdmits` | ed2ksrv/protocol.go:642-672 | a value within the old bounds that satisfies the comparison is within the new ones; between non-negative bounds a positive limit admits exactly the values equality asks for, or the old ones on the right side of the limit |
| `SearchQueries.MinSummaryAdmits` | ed2ksrv/protocol.go:674-681 | the same for a lower bound: a positive limit admits exactly the old values not below it, except that less-than and not-equal change nothing |
| `SearchQueries.CollectNumeric` | ed2ksrv/protocol.go:452-468 | a numeric leaf is written into the bounds of its own tag |
| `SearchQueries.CollectSummary` | ed2ksrv/protocol.go:390-484 | the walk that writes through the query computes `Collected` |
| `SearchQueries.MakeSearchQuery` | ed2ksrv/protocol.go:307-313 | the query of a root: its summary and whether it is summarised |
| `SearchQueries.EndpointsDoNotMatter` | ed2ksrv/protocol.go:371-450 | whether a record matches does not depend on its endpoints |
| `QueryAlgebra.OperatorsAreSetOperations` | ed2ksrv/protocol.go:371-388 | over every catalog and any two subtrees, AND, OR, AND NOT, XOR and NOT AND find the intersection, union, difference, symmetric difference and reverse difference of the positions the subtrees find |
| `QueryAlgebra.JoinedRequestFinds` | ed2ksrv/protocol.go:147-173 | two requests joined by an operator byte decode to one that finds that set operation of what the two requests find |
| `QueryAlgebra.CompoundFinds` | ed2ksrv/protocol.go:371-388 | the same for each operator byte from 0 to 4 |
| `QueryAlgebra.FullScanReturnsFound` | ed2ksrv/catalog.go:161-175 | a full scan returns exactly one entry for each position found, in ascending order, and nothing else |
| `QueryAlgebra.EmptyRequestFindsAll` | ed2ksrv/protocol.go:114-121 | an empty request finds every file |
| `QueryAlgebra.ComparisonsDivide` | ed2ksrv/protocol.go:538-574 | the operator bytes 0, 1 and 2 let through the numbers equal to, above and below the bound, 4, 3 and 5 their complements, and no other byte anything |
| `QueryAlgebra.NumbersFindByField` | ed2ksrv/protocol.go:427-442 | a numeric leaf finds exactly the files whose own field for its tag byte is among the numbers of the comparison |
| `QueryAlgebra.TextsFindByField` | ed2ksrv/protocol.go:399-412 | a text leaf finds exactly the files whose own field for its tag byte equals the text, letter case aside; one dot before an extension does not count |
| `QueryAlgebra.KeywordsFindByNameOrHash` | ed2ksrv/protocol.go:618-640 | a keyword, trimmed and in lower case, finds a file if and only if it is empty, part of the lower-cased name, or the 32 hexadecimal digits of the hash, with or without "ed2k::" |
| `QueryAlgebra.ContainsIffPart` | ed2ksrv/protocol.go:627 | a text contains another if and only if it is that one with something before and after |
| `SummaryFields.SummaryFiltersFields` | ed2ksrv/protocol.go:576-616 | a record passes a summary if and only if each of its fields passes the filters for that field and every keyword finds it |
| `SummaryFields.CollectsTexts` | ed2ksrv/protocol.go:414-426 | the type and codec of a summary are those of the last leaf that asks for one |
| `SummaryFields.CollectsRanges` | ed2ksrv/protocol.go:444-461 | the bounds of size, length and bitrate are those of the comparisons of their own leaves, in order |
| `SummaryFields.CollectsMinima` | ed2ksrv/protocol.go:444-461 | the lower bounds of the source counts are those of the comparisons of their own leaves, in order |
| `SummaryFields.BoundsMove` | ed2ksrv/protocol.go:642-672 | one more comparison moves a bound only on its own side, to the stricter of the two, or to the new one if there was none; equality moves both and inequality neither |
| `SummaryFields.BoundRises` | ed2ksrv/protocol.go:674-681 | a lower bound only rises, to a limit above it, if the comparison is one from below or equality |
| `Records.HashTextMatchesIff` | ed2ksrv/protocol.go:630-639 | a hash equals a 32-digit token, letter case aside, if and only if it is the value of the token |
| `Records.HexTextReads` | ed2ksrv/protocol.go:639 | the hexadecimal text of a number, in lower case, reads as that number |
| `Library.LawsAreConsistent` | ed2ksrv/protocol.go:618-619 | the laws assumed of the text routines are met by routines one can write down |
| `TrigramIndex.UniqueTrigrams` | ed2ksrv/catalog.go:229-244 | exactly the three-byte substrings, each once |
| `TrigramIndex.ContainsImpliesTrigrams` | ed2ksrv/catalog.go:177-180 | a string that contains the key contains all of its trigrams |
| `TrigramIndex.BuildIndex` | ed2ksrv/catalog.go:217-225 | every posting list is strictly ascending and exactly the positions whose lower-cased name has the trigram; trigrams of no file have no list |
| `TrigramIndex.AppendPosting` | ed2ksrv/catalog.go:220-222 | one file appended to the list of each of its trigrams and to no other |
| `TrigramIndex.CountHits` | ed2ksrv/catalog.go:195-205 | for every file the number of the key's trigrams it has; nothing if and only if some trigram has no list |
| `TrigramIndex.CountPostings` | ed2ksrv/catalog.go:202-204 | one more for exactly the members of the list |
| `TrigramIndex.FullyCounted` | ed2ksrv/catalog.go:206-212 | exactly the files with the full count, sorted |
| `TrigramIndex.FullHitsAreCandidates` | ed2ksrv/catalog.go:206-210 | a file's count is full if and only if it has every trigram of the key |
| `TrigramIndex.MissingTrigram` | ed2ksrv/catalog.go:199-201 | when a trigram has no list, no file has them all |
| `TrigramIndex.SelectCandidates` | ed2ksrv/catalog.go:195-213 | counting selects exactly the files that contain every trigram of the key, in order |
| `Catalogs.SearchIsFullScan` | ed2ksrv/catalog.go:148-175 | for every query whose key does not work as a hash the search returns the same entries in the same order as a full scan |
| `HashKeywords.SearchIsFullScanIff` | ed2ksrv/catalog.go:148-214 | for every query and every consistent catalog, search and full scan agree if and only if no key is used, or the key is not a hash, or the record with that hash is absent, does not match, or has all the key's trigrams |
| `HashKeywords.RequestSearchIsFullScanIff` | ed2ksrv/catalog.go:148-214 | the same for every request that decodes and every catalog that operations produce |
| `HashKeywords.KeywordSearchIsFullScanIff` | ed2ksrv/catalog.go:148-151 | for a single keyword, search and full scan agree on every catalog that operations produce if and only if the keyword is not a hash or is the zero hash |
| `HashKeywords.HashTokenIsMissed` | ed2ksrv/protocol.go:630-639 | for every keyword that is a non-zero hash, after one insert the full scan finds the file and the search finds nothing |
| `HashKeywords.HashOnlyIsStored` | ed2ksrv/catalog.go:366-398 | the record of that catalog is accepted and stored as it is, unless its hash is zero |
| `HashKeywords.MatchHasTrigramsOrHash` | ed2ksrv/protocol.go:618-640 | when the key is a hash, a record that matches has all trigrams of the key in its name or has that hash |
| `HashKeywords.MatchesByHashIff` | ed2ksrv/protocol.go:630-639 | a key matches a record by hash if and only if it names the record's hash |
| `Catalogs.MatchHasKeyTrigrams` | ed2ksrv/catalog.go:177-180 | a record that matches a summarised query has all trigrams of its key, unless the key works as a hash |
| `Catalogs.KeyRestrictsNothing` | ed2ksrv/catalog.go:168-174 | restricting the scan to such records removes no result |
| `Catalogs.LongestKey` | ed2ksrv/catalog.go:185-194 | the key is one of the normalised keywords with at least three bytes and none of these is longer |
| `Catalogs.EmptyIndexMeansShortNames` | ed2ksrv/catalog.go:182-184 | the index is empty if and only if no name has three bytes |
| `Catalogs.CandidateResults` | ed2ksrv/catalog.go:168-174 | filtering the candidates in order is filtering all files with the key's restriction |
| `Catalogs.UpsertKeepsConsistent` | ed2ksrv/catalog.go:269-296 | list and map stay two views of the same distinct hashes; the record is in, its namesake out, all others stay |
| `Catalogs.DeleteKeepsConsistent` | ed2ksrv/catalog.go:299-318 | the views stay consistent and exactly the record with the hash is gone |
| `Catalogs.ReplaceConsistentIff` | ed2ksrv/catalog.go:321-341 | after replacing, the views are consistent if and only if no hash was given twice |
| `Catalogs.DuplicateSurvivesDelete` | ed2ksrv/catalog.go:299-341 | after replacing the contents by a record given twice and deleting it, the record is in the list and not in the map |
| `Catalogs.RunKeepsSound` | ed2ksrv/catalog.go:268-341 | every sequence of upserts, deletes and replacements with distinct hashes, of records good or bad, keeps the views consistent and every record normalised |
| `Catalogs.OpKeepsSound` | ed2ksrv/catalog.go:268-341 | so does each of them |
| `Catalogs.NormalizeFileRecord` | ed2ksrv/catalog.go:366-398 | accepted if and only if hash, name and size are present and every endpoint resolves; counts never negative |
| `Catalogs.NormalizingTwice` | ed2ksrv/catalog.go:366-398 | a normalised record is accepted again unchanged |
| `Catalogs.NormalizesEach` | ed2ksrv/catalog.go:325-334 | normalising a list keeps every hash and makes every record one that normalisation leaves alone |
| `Catalogs.NormalizeRecords` | ed2ksrv/catalog.go:325-334 | the records normalised in order and mapped by hash, or the first failure and its position |
| `Catalogs.FailureStays` | ed2ksrv/catalog.go:327-331 | the first failure decides, whatever follows it |
| `CatalogViews.NormalisesFields` | ed2ksrv/catalog.go:366-398 | every text of a normalised record is the trimmed one of its own field, a count below one becomes the number of endpoints or the sources, and everything else is kept |
| `CatalogViews.RefusesInOrder` | ed2ksrv/catalog.go:366-398 | the first thing wrong decides the error, of hash, name, size and the endpoints in order |
| `CatalogViews.UpsertPlaces` | ed2ksrv/catalog.go:283-293 | an upsert replaces the record with the hash where it stands, or appends, and leaves all others in place |
| `CatalogViews.DeletePlaces` | ed2ksrv/catalog.go:306-315 | a delete leaves the records without the hash, in order |
| `CatalogViews.ReplacePlaces` | ed2ksrv/catalog.go:321-341 | a replacement brings exactly the records given, in order; the map knows their hashes and keeps the last record of each |
| `CatalogViews.MapKnows` | ed2ksrv/catalog.go:325-334 | the map of a list knows a hash if and only if a record has it |
| `CatalogViews.MapKeepsLast` | ed2ksrv/catalog.go:325-334 | it keeps the last record of every hash |
| `CatalogViews.FirstLongestKey` | ed2ksrv/catalog.go:185-191 | the key is the first of the longest keywords that, trimmed and in lower case, have three bytes or more |
| `CatalogViews.EntryShowsRecord` | ed2ksrv/catalog.go:413-448 | each field of an entry shows its own field of the record, the size in two halves of which the high one is only there when needed, as long as the numbers fit |
| `CatalogViews.EntryShowsEndpoint` | ed2ksrv/catalog.go:413-448 | the address of an entry is that of the first endpoint, and zero if there is none or it does not resolve |
| `QueryAlgebra.TrigramsAreParts` | ed2ksrv/catalog.go:227-244 | the trigrams of a text are its parts of three bytes |
| `QueryAlgebra.IndexedIffLongName` | ed2ksrv/catalog.go:227-244 | some file has a trigram if and only if some name, in lower case, has three bytes |
| `Catalogs.Catalog.constructor` | ed2ksrv/catalog.go:86 | a catalog without records, its index in order |
| `Catalogs.NewCatalog` | ed2ksrv/catalog.go:85-91 | a catalog of the given records with its index, or the first failure and no catalog |
| `Catalogs.Catalog.RebuildSearchIndex` | ed2ksrv/catalog.go:217-225 | the index is exact for the files again |
| `Catalogs.Catalog.Upsert` | ed2ksrv/catalog.go:269-296 | the new contents are those of `Upserted`, or the error and no change; the index stays exact |
| `Catalogs.Catalog.IndexOfHash` | ed2ksrv/catalog.go:284-289 | the first position with the hash |
| `Catalogs.Catalog.Delete` | ed2ksrv/catalog.go:299-318 | reports whether the hash was known; the new contents are those of `Deleted`; the index stays exact |
| `Catalogs.Catalog.ReplaceAll` | ed2ksrv/catalog.go:321-341 | all records normalised and indexed, or the first error with its position and nothing changed |
| `Catalogs.Catalog.SearchCandidates` | ed2ksrv/catalog.go:181-214 | no candidates list when no key is used, else exactly the files with all its trigrams |
| `Catalogs.Catalog.ScanAll` | ed2ksrv/catalog.go:159-167 | the entries of all matching files |
| `Catalogs.Catalog.ScanCandidates` | ed2ksrv/catalog.go:168-174 | the entries of the matching files at the given positions |
| `Catalogs.Catalog.Search` | ed2ksrv/catalog.go:152-175 | the full scan restricted to names with all trigrams of the key, and the full scan itself when the key does not work as a hash |
| `ShareRegistry.QuiescentIndexIsExact` | ed2ksrv/server.go:1025-1115 | in every interleaving, whenever no handler is mid-operation, the index has exactly the hashes some live session offers and lists under each exactly the offering clients |
| `ShareRegistry.QuiescentIsExact` | ed2ksrv/server.go:1025-1115 | the same from the invariant alone |
| `ShareRegistry.QuiescentSources` | ed2ksrv/server.go:1117-1123 | then the source count of a file is the number of sessions offering it |
| `ShareRegistry.RunKeepsInv` | ed2ksrv/server.go:1025-1115 | the invariant, which also covers half-finished operations, holds along every run |
| `ShareRegistry.StepKeepsInv` | ed2ksrv/server.go:1025-1115 | every critical section of every handler keeps the invariant |
| `ShareRegistry.LoginKeepsInv` | ed2ksrv/server.go:608-620 | so does a login |
| `ShareRegistry.BeginOfferKeepsInv` | ed2ksrv/server.go:1034-1051 | so does the first half of an offer |
| `ShareRegistry.EndOfferKeepsInv` | ed2ksrv/server.go:1053-1061 | so does the second half |
| `ShareRegistry.TableEmptiesKeepsInv` | ed2ksrv/server.go:1069-1075 | so does the first half of a withdrawal |
| `ShareRegistry.WithdrawKeepsInv` | ed2ksrv/server.go:1077-1081 | so does the second half |
| `ShareRegistry.UnregisterKeepsInv` | ed2ksrv/server.go:852-856 | so does the removal of the client |
| `ShareRegistry.BatchKeepsSessionOK` | ed2ksrv/server.go:1034-1051 | a batch leaves a session whose unfinished work accounts for the difference between its table and the index |
| `ShareRegistry.ListedUntilWithdrawn` | ed2ksrv/server.go:1053-1061 | a file a client is listed for stays listed, also through re-offers by anyone, until that client withdraws it or leaves |
| `ShareRegistry.StepKeepsListed` | ed2ksrv/server.go:1053-1061 | the same for one critical section |
| `ShareRegistry.LoginIsFresh` | ed2ksrv/server.go:871-890 | an ID given out is non-zero, held by no live session, and listed nowhere: its previous owner's shares are gone |
| `ShareRegistry.LiveIDsDistinct` | ed2ksrv/server.go:827-890 | in every reachable state no two sessions share an ID |
| `ShareRegistry.FallbackIDsAscend` | ed2ksrv/server.go:880-889 | over every run the fallback IDs ascend, so none repeats |
| `ShareRegistry.MetadataOnlyFillsIn` | ed2ksrv/server.go:1084-1162 | from an entry's creation to its deletion (which includes its only client re-offering it) its name and size never change and each other field changes at most from empty to set |
| `OfferHistory.EntriesTellOffers` | ed2ksrv/server.go:1053-1061 | in every open run, a file is in the index if and only if its log is open; each metadata field is the value of that same field in the earliest offer since the entry's creation that has one, empty if none has; each client's endpoint is that of its last offer with one, and its claim to have the whole file that of its last offer |
| `OfferHistory.RunTold` | ed2ksrv/server.go:1053-1061 | the same from any state in order whose entries tell the log so far |
| `OfferHistory.StepTold` | ed2ksrv/server.go:1053-1082 | every critical section keeps entries telling their offers |
| `OfferHistory.AddTold` | ed2ksrv/server.go:1084-1099 | so does one offered record |
| `OfferHistory.RemoveTold` | ed2ksrv/server.go:1101-1113 | so does a withdrawal |
| `OfferHistory.MetadataShared` | ed2ksrv/server.go:1138-1162 | merging a record fills each empty field in from that same field of the record, and no other |
| `OfferHistory.ReadersSee` | ed2ksrv/server.go:1115-1136 | in every open run, a reader of an entry sees the metadata its offers tell, as sources the clients that offered it with an endpoint and have not left, and as complete those whose last act was to offer it as complete, or all sources when there is none |
| `ShareRegistry.StepExtends` | ed2ksrv/server.go:1095-1097 | the same for one critical section |
| `ShareRegistry.MaterializedCountsHold` | ed2ksrv/server.go:1117-1134 | in every reachable state a reader of an entry sees 1 <= complete sources <= sources, as many as endpoints |
| `ShareRegistry.TablesWithinCap` | ed2ksrv/server.go:1038-1044 | a positive cap bounds every session's table over every run, also with repeated logins and records without endpoints, across batches |
| `ShareRegistry.StepWithinCap` | ed2ksrv/server.go:1038-1044 | the same for one critical section |
| `SharedIndex.AddKeeps` | ed2ksrv/server.go:1084-1102 | adding an offered record keeps the entries in order and lists its client under that hash only |
| `SharedIndex.AddAllKeeps` | ed2ksrv/server.go:1058-1060 | the same for a list of records |
| `SharedIndex.RemoveAllKeeps` | ed2ksrv/server.go:1104-1115 | taking a client out of files keeps the entries in order and touches no other client's listing |
| `SharedIndex.RemoveOneMore` | ed2ksrv/server.go:1079-1081 | removing files one by one, in any order, is removing them at once |
| `SharedIndex.OfferKeeps` | ed2ksrv/server.go:1053-1061 | an offer leaves its client listed for what it had, less the replaced, plus the accepted, and no one else changed |
| `SharedIndex.WithdrawalRemovesIff` | ed2ksrv/server.go:1110-1114 | a withdrawal removes a file if and only if no other client is listed for it |
| `SharedIndex.WithdrawalLists` | ed2ksrv/server.go:1104-1115 | with or without endpoints: the client is listed for exactly the withdrawn files less, others exactly as before; others can lose their claims |
| `SharedIndex.AddAllLists` | ed2ksrv/server.go:1098-1101 | adding records claims all of them for the client and lists it for exactly those with an endpoint |
| `SharedIndex.OfferLists` | ed2ksrv/server.go:1053-1061 | an offer leaves its client listed for what it had, less the replaced, plus the accepted records with an endpoint |
| `SharedIndex.OfferRemovesNothing` | ed2ksrv/server.go:1055-1060 | an offer removes no file from the index |
| `SharedIndex.BatchEndpoints` | ed2ksrv/server.go:1038-1050 | the hashes a table has with an endpoint after a batch are the old ones not replaced and the accepted ones with an endpoint, as long as the batch does not contradict itself |
| `OpenRegistry.OpenRunKeepsInv` | ed2ksrv/server.go:1025-1115 | over every run, with repeated logins and records without endpoints: claims stay within the tables, and what is offered with an endpoint is listed, or will be, under the current or an earlier ID |
| `OpenRegistry.OpenStep` | ed2ksrv/server.go:1025-1115 | so it is for every critical section |
| `OpenRegistry.ListedIsOffered` | ed2ksrv/server.go:1025-1115 | in every run, a session is listed only for files in its table or being withdrawn |
| `OpenRegistry.IndexedIsOffered` | ed2ksrv/server.go:1025-1115 | in every run, between operations, every file of the index is offered by a session or belongs to an earlier ID |
| `Listings.ListedIffShown` | ed2ksrv/server.go:1098-1101 | in every state of every run every ID, also one without a session, is listed for exactly what its requests show: the accepted hashes some record of the last batch with them gives an endpoint for |
| `Listings.StepListsShown` | ed2ksrv/server.go:1025-1115 | every critical section keeps listings and requests in step |
| `Listings.QuiescentExactIff` | ed2ksrv/server.go:1084-1115 | in every run of single logins, between operations, the index is exact if and only if the requests show every file on offer |
| `Listings.QuiescentListingIff` | ed2ksrv/server.go:1084-1115 | in every run, between operations, files are listed under exactly the IDs of the sessions that offer them if and only if the requests show every file on offer and none under an ID without a session |
| `OpenRegistry.StepRemovesIff` | ed2ksrv/server.go:1110-1114 | a step removes a file if and only if it ends a withdrawal of it and no other client is listed for it |
| `Listings.OfferedFileIsLostIff` | ed2ksrv/server.go:1098-1114 | in every run, also with other handlers mid-operation, the end of a withdrawal or departure takes a file from the index if and only if the requests under every other ID do not show it |
| `EndpointTables.EndpointListingIff` | ed2ksrv/server.go:1098-1101 | in runs whose batches do not contradict themselves, a session between requests is listed for a file if and only if its table has it with an endpoint, unless an earlier ID of it is listed |
| `EndpointTables.EndpointExactIff` | ed2ksrv/server.go:1084-1115 | in such runs of single logins, between operations, the index is exact if and only if every record on offer has an endpoint |
| `EndpointTables.EndpointLostIff` | ed2ksrv/server.go:1098-1114 | in such runs, with no other handler mid-operation, a withdrawal or departure takes a file from the index if and only if every other session that offers it has no endpoint for it and no earlier ID is listed |
| `LostShare.EndpointlessShareIsLost` | ed2ksrv/server.go:1098-1114 | a run of ten steps after which a file is offered and not in the index |
| `LostShare.ContradictingBatchIsExact` | ed2ksrv/server.go:1038-1061 | a run with one batch that names a file with and then without an endpoint: the index is exact although the record on offer has none |
| `OpenRegistry.FormerIff` | ed2ksrv/server.go:608-620 | an ID becomes one without a session exactly when its session logs in again, and stays so |
| `OpenRegistry.FormerListingStaysForEver` | ed2ksrv/server.go:1064-1082 | no run of handlers changes what such an ID is listed for |
| `OpenRegistry.SecondLoginLeavesListing` | ed2ksrv/server.go:608-620 | after a second login the old ID is listed for a file if and only if it was at that moment, whatever the session and others do |
| `SharedIndex.AddAllExtends` | ed2ksrv/server.go:1136-1162 | adding records only fills in empty metadata fields of an entry |
| `SharedIndex.OfferExtends` | ed2ksrv/server.go:1136-1162 | so does an offer, for entries another client holds or that are not replaced |
| `SharedIndex.Materialize` | ed2ksrv/server.go:1117-1134 | the metadata with exactly the listed endpoints, their number as sources, and the complete count or, when that is zero, the same number |
| `SharedIndex.CountComplete` | ed2ksrv/server.go:1124-1129 | the number of clients with the whole file |
| `SharedIndex.MaterializedCounts` | ed2ksrv/server.go:1117-1134 | the same of any consistent entry |
| `SharedIndex.BatchWithinCap` | ed2ksrv/server.go:1034-1061 | accepted plus dropped is the batch length, the table stays within a positive cap, and without a cap nothing is dropped |
| `SharedIndex.BatchTable` | ed2ksrv/server.go:1038-1050 | the table afterwards is the old one plus the accepted hashes; the replaced records are the old entries among them |
| `SharedIndex.BatchDecided` | ed2ksrv/server.go:1040-1044 | every record is accepted or met a full table, and one whose hash was already offered is always accepted |
| `SharedIndex.AcceptedInOrder` | ed2ksrv/server.go:1038-1050 | the accepted records are those of the batch with a hash of the resulting table, in the order given, and the table has the last record of every accepted hash |
| `SharedIndex.AcceptedFromBatch` | ed2ksrv/server.go:1048-1049 | only records of the batch are accepted |
| `ClientIDs.FirstFreeFound` | ed2ksrv/server.go:882-889 | the search stops within as many candidates as there are clients plus one, at the first number not in use |
| `ClientIDs.FirstFreeFrom` | ed2ksrv/server.go:882-889 | the same from any point of the search |
| `ClientIDs.AllocateFresh` | ed2ksrv/server.go:871-890 | below the wrap-around the ID is free and non-zero, and a fallback lies between the old and the new `nextID` |
| `ClientIDs.AllocateNeverInUse` | ed2ksrv/server.go:871-890 | the ID is never in use, even across the wrap-around |
| `ClientIDs.ZeroIDIff` | ed2ksrv/server.go:871-890 | the ID is zero if and only if the client's address does not serve, zero is free, and every number from nextID up to zero, wrapping around, is in use |
| `ClientIDs.AllocateMeans` | ed2ksrv/server.go:871-890 | the ID is the client's address if that is not zero and free, and the next number then stays; otherwise it is the first free number from nextID on in 32 bits, and the next number is the one after it |
| `ZeroID.RunToZeroID` | ed2ksrv/server.go:880-889 | a run after which a login is given the ID zero and is not registered |
| `ClientIDs.CandidatesDistinct` | ed2ksrv/server.go:888 | the candidates do not repeat within 2^32 tries |
| `Servers.ClientSession.constructor` | ed2ksrv/server.go:515-520 | a session starts without an ID, offers and results |
| `Servers.ClientSession.TakeBatch` | ed2ksrv/server.go:1034-1051 | the section under the session's lock computes `TakenAll` of the batch |
| `Servers.ClientSession.EmptyTable` | ed2ksrv/server.go:1069-1075 | empties the table and returns exactly the hashes that were in it |
| `Servers.ClientSession.TakeResults` | ed2ksrv/server.go:751-755 | the first results found, as many as the maximum allows, become the snapshot, and its first page is sent |
| `Servers.ClientSession.HandleSearchMore` | ed2ksrv/server.go:758-781 | sends the next page of the snapshot and moves the offset; the snapshot does not change |
| `Servers.Server.SearchAll` | ed2ksrv/server.go:914-926 | the catalog's results in order, then one entry for each matching shared file, none twice and none left out |
| `Servers.Server.HandleSearch` | ed2ksrv/server.go:740-756 | after login the first of all that was found, as many as the maximum allows, become the snapshot and its first page is sent; before login an empty page and no change |
| `Servers.Server.SearchAndMore` | ed2ksrv/server.go:740-781 | a search and any number of requests for more, run on the objects, deliver exactly the first batches of what was found, up to the maximum |
| `Servers.Server.constructor` | ed2ksrv/server.go:238-252 | no clients, no shares, first fallback number 16777217 |
| `Servers.Server.AllocateClientID` | ed2ksrv/server.go:871-890 | the preferred ID if free, else the first free number, and `nextID` behind it; the loop ends |
| `Servers.Server.FindFreeID` | ed2ksrv/server.go:882-889 | the loop ends at the first number not in use |
| `Servers.Server.RegisterClient` | ed2ksrv/server.go:827-837 | the session is entered under its ID, unless that is zero |
| `Servers.Server.HandleLogin` | ed2ksrv/server.go:608-620 | chooses an unused ID, registers the session and clears its results |
| `Servers.Server.AddDynamicLocked` | ed2ksrv/server.go:1084-1102 | the index becomes `Added` |
| `Servers.Server.RemoveDynamicLocked` | ed2ksrv/server.go:1104-1115 | the index becomes `Removed` |
| `Servers.Server.RemoveShares` | ed2ksrv/server.go:1077-1081 | the loop over withdrawn records removes the client from all of them |
| `Servers.Server.UpdateShares` | ed2ksrv/server.go:1053-1060 | the two loops take the replaced records out and the accepted ones in |
| `Servers.Server.MergeClientOfferedFiles` | ed2ksrv/server.go:1025-1062 | the whole new table and index, and counts that add up to the batch length; an empty batch withdraws all, an unknown ID changes nothing |
| `Servers.Server.RemoveClientOfferedFiles` | ed2ksrv/server.go:1064-1082 | the session's table is empty and its hashes are gone from the index |
| `Servers.Server.UnregisterClient` | ed2ksrv/server.go:839-857 | the shares are withdrawn and the client is removed if it still holds its ID |
| `Servers.Server.ForgetClient` | ed2ksrv/server.go:852-856 | the client leaves the table if the ID is still its own |
| `Refinement.ConnectSection` | ed2ksrv/server.go:515-520 | a new session object represents the new session |
| `Refinement.LoginSection` | ed2ksrv/server.go:608-620 | a login of the objects is the login step of the machine |
| `Refinement.OfferTableSection` | ed2ksrv/server.go:1034-1051 | so is the first half of an offer, with the locals the handler carries on |
| `Refinement.OfferIndexSection` | ed2ksrv/server.go:1053-1061 | so is the second half |
| `Refinement.WithdrawTableSection` | ed2ksrv/server.go:1069-1075 | so is the first half of a withdrawal or departure |
| `Refinement.WithdrawIndexSection` | ed2ksrv/server.go:1077-1081 | so is the second half |
| `Refinement.UnregisterSection` | ed2ksrv/server.go:852-856 | so is the removal of the client |
| `ResultPages.DeliveredIsPrefix` | ed2ksrv/server.go:740-781 | the first n replies together are the first n batches of the snapshot, and in the end all of it |
| `ResultPages.ReplyShape` | ed2ksrv/server.go:758-781 | no reply exceeds the batch size, more is announced exactly while items remain, later replies are empty |
| `ResultPages.OffsetIsMultiple` | ed2ksrv/server.go:767-775 | after n replies the offset is n batches, or the end |
| `ResultPages.PageContinues` | ed2ksrv/server.go:767-775 | each page continues where the previous one ended |
| `ResultPages.Capped` | ed2ksrv/server.go:725-731 | with more results than a positive maximum, exactly as many as the maximum, from the front; otherwise all |
| `ResultPages.SearchDelivers` | ed2ksrv/server.go:725-781 | a search and its follow-up requests together deliver the first batches of the first min(max, number found) of what was found for a positive maximum, in the end exactly those, and all of it for any other maximum |
| `ResultPages.CappedIsDeliverable` | ed2ksrv/server.go:725-731 | the snapshot is that part of what was found |
| `ResultPages.Deliverable` | ed2ksrv/server.go:725-731 | the number found or the maximum, whichever a positive maximum makes smaller |
| `SourceReplies.OrderAndCapSources` | ed2ksrv/server.go:947-975 | deduplicating, sorting stably and cutting gives the first distinct high IDs, then the low IDs, capped |
| `SourceReplies.Deduplicate` | ed2ksrv/server.go:953-965 | the first source of every ID and port, in order |
| `SourceReplies.ReplyShape` | ed2ksrv/server.go:944-975 | no ID and port twice, at most 255, as many as the cap allows, and a low ID only if every high ID is in |
| `SourceReplies.FirstOccurrencesDistinct` | ed2ksrv/server.go:953-965 | nothing twice and every ID and port kept |
| `SourceReplies.OrderedDistinct` | ed2ksrv/server.go:966-970 | ordering brings no repetition back |
| `SourceReplies.ClassesSplit` | ed2ksrv/server.go:966-970 | high and low IDs together are all the sources |
| `SourceReplies.StableSortSplits` | ed2ksrv/server.go:966-970 | the stable sort is exactly the high IDs in order followed by the low IDs in order |
| `SourcePlaces.ReplyPlaces` | ed2ksrv/server.go:944-975 | the reply by places in the list: the first source of each ID and port whose ID is routable, in order, then the others likewise, cut at the cap of 1 to 255, and at 255 for any other |
| `SourcePlaces.FirstPlaces` | ed2ksrv/server.go:953-965 | deduplication keeps exactly the sources before which none has the same ID and the same port, in order |
| `SourcePlaces.ClassPlaces` | ed2ksrv/server.go:966-970 | a class keeps exactly its own sources, in order |
| `UdpLimiter.SweepingIsUnobservable` | ed2ksrv/udp_limit.go:40-81 | for every run with a non-decreasing clock the answers are those of a limiter that never sweeps |
| `UdpLimiter.AlikeTablesAnswerAlike` | ed2ksrv/udp_limit.go:40-81 | tables that give every address the same tokens give the same answers for ever, one sweeping and one not |
| `UdpLimiter.SweepKeepsAlike` | ed2ksrv/udp_limit.go:74-81 | a sweep changes no address's tokens |
| `UdpLimiter.LaterKeepsAlike` | ed2ksrv/udp_limit.go:58-65 | neither does waiting make tables differ |
| `UdpLimiter.CallKeepsAlike` | ed2ksrv/udp_limit.go:52-70 | a packet is answered alike and leaves them alike |
| `UdpLimiter.SweptIsRecent` | ed2ksrv/udp_limit.go:73-81 | right after a sweep every bucket left was used less than one second ago |
| `UdpLimiter.WindowBound` | ed2ksrv/udp_limit.go:40-71 | in any window of T seconds of any run one address is allowed at most rate * (1 + T) packets |
| `UdpLimiter.AllowedWithinBudget` | ed2ksrv/udp_limit.go:40-71 | from any table, at most the tokens there plus what the elapsed time brings |
| `UdpLimiter.SpacedIsNeverRefused` | ed2ksrv/udp_limit.go:40-71 | an address whose packets are at least 1/rate apart is never refused |
| `UdpLimiter.SpacedNeverRefused` | ed2ksrv/udp_limit.go:40-71 | the same from any table it has waited for |
| `UdpLimiter.ChargedOK` | ed2ksrv/udp_limit.go:52-70 | tokens stay between zero and the rate |
| `UdpLimiter.LevelGrowth` | ed2ksrv/udp_limit.go:58-65 | tokens come back no faster than the rate and never exceed it |
| `UdpLimiter.CallCost` | ed2ksrv/udp_limit.go:66-70 | an allowed packet costs its own address exactly one token, anything else nothing |
| `UdpLimiter.Limiter.constructor` | ed2ksrv/udp_limit.go:27-36 | the rate, 20 if none is given, and an empty table |
| `UdpLimiter.Limiter.Allow` | ed2ksrv/udp_limit.go:40-71 | the answer and the whole new table, swept first when it is full; afterwards the table is within the cap or all of it used within the last second |
| `UdpLimiter.Limiter.Charge` | ed2ksrv/udp_limit.go:52-70 | the answer and the new table without the sweep |
| `UdpLimiter.RefreshTwice` | ed2ksrv/udp_limit.go:58-65 | bringing a bucket up to date on the way to a later time makes no difference |
| `UdpLimiter.RefreshedOK` | ed2ksrv/udp_limit.go:58-65 | a bucket brought up to date has between no and all tokens and the current time |
| `UdpLimiter.RefreshedIs` | ed2ksrv/udp_limit.go:58-65 | a bucket brought up to date has its tokens and those the elapsed time earns at the rate, never more than the rate |
| `UdpLimiter.NoTimeNoTokens` | ed2ksrv/udp_limit.go:58-65 | with no time passed, or an earlier clock, it stays as it is |
| `UdpLimiter.GrowsPastLimitIff` | ed2ksrv/udp_limit.go:48-50 | a packet leaves the table above the cap if and only if it had reached it and the buckets that may not be dropped, with the packet's own, are more than the cap |
| `UdpLimiter.FloodPassesLimit` | ed2ksrv/udp_limit.go:48-56 | packets from different addresses at one time leave one bucket each, whatever the cap |
| `UdpLimiter.FloodOfSize` | ed2ksrv/udp_limit.go:48-56 | there are such floods of every size up to the number of four-byte addresses |
| `UdpLimiter.TableBounded` | ed2ksrv/udp_limit.go:23-25 | after every run the table is within the cap or every bucket was used less than one second ago |
| `UdpLimiter.Limiter.SweepLocked` | ed2ksrv/udp_limit.go:74-81 | exactly the buckets that would be full again are dropped, and those left were used less than a second ago |
| `Datagrams.GreedyIsOptimal` | ed2ksrv/udp_search.go:261-274 | no order-preserving packing of the same blocks under the same rule uses fewer datagrams |
| `Datagrams.GreedyStaysAhead` | ed2ksrv/udp_search.go:261-266 | after every block the packer is ahead of any other packing |
| `Datagrams.StepStaysAhead` | ed2ksrv/udp_search.go:261-266 | one more block keeps it ahead |
| `Datagrams.PackingIsPacking` | ed2ksrv/udp_search.go:242-274 | blocks whole and in order, every datagram within the limit unless a single oversized block, none empty |
| `Datagrams.PackingKeepsBytes` | ed2ksrv/udp_search.go:242-274 | the payloads concatenate to the blocks' bytes |
| `Datagrams.AddKeepsOK` | ed2ksrv/udp_search.go:261-266 | adding a block keeps the groups in order |
| `Datagrams.FlushKeepsOK` | ed2ksrv/udp_search.go:268-274 | so does a flush, which leaves nothing open |
| `Datagrams.DatagramWriter.constructor` | ed2ksrv/udp_search.go:253-259 | an empty writer; a limit of zero or less becomes 1300 |
| `Datagrams.DatagramWriter.Add` | ed2ksrv/udp_search.go:261-266 | the buffer and what was sent are those of the groups with one more block |
| `Datagrams.DatagramWriter.Flush` | ed2ksrv/udp_search.go:268-274 | the open group is sent if it is not empty |
| `Datagrams.SendBlocks` | ed2ksrv/udp_search.go:166-176 | all blocks added, then a flush: the datagrams of the packing |
| `KeyStreams.AnyTwoChunkingsCancel` | ed2ksrv/obfuscate.go:91-95 | sender and receiver with the same keystream undo each other, however each side cuts the stream |
| `KeyStreams.ChunkingIsInvisible` | ed2ksrv/obfuscate.go:91-95 | transforming pieces one after the other is transforming the whole |
| `KeyStreams.CryptedSum` | ed2ksrv/obfuscate.go:91-95 | the same for two pieces |
| `KeyStreams.CryptedTwice` | ed2ksrv/obfuscate.go:91-95 | a second pass undoes the first |
| `KeyStreams.CryptedAt` | ed2ksrv/obfuscate.go:91-95 | every byte is combined with the keystream byte of its own position |
| `Rc4.AlwaysPermutation` | ed2ksrv/obfuscate.go:61-89 | the table is a permutation of all bytes after key setup and after any number of steps |
| `Rc4.MixedPermutation` | ed2ksrv/obfuscate.go:67-71 | so it is after any number of key rounds |
| `Rc4.AfterKeepsPermutation` | ed2ksrv/obfuscate.go:77-83 | stepping keeps it |
| `Rc4.PermutationHasAll` | ed2ksrv/obfuscate.go:56-59 | 256 different bytes are all the bytes |
| `Rc4.KeyByteIsOutput` | ed2ksrv/obfuscate.go:77-83 | the n-th keystream byte is what the state after n + 1 steps shows |
| `Rc4.Generator.constructor` | ed2ksrv/obfuscate.go:61-74 | a generator at position zero of its key's stream |
| `Rc4.Generator.Setup` | ed2ksrv/obfuscate.go:66-73 | key mixing and 1024 discarded bytes lead to the state where the stream starts |
| `Rc4.Generator.MixKey` | ed2ksrv/obfuscate.go:66-71 | the loop leaves the identity mixed with the key |
| `Rc4.Generator.SwapEntries` | ed2ksrv/obfuscate.go:80 | two entries of the table exchanged in place |
| `Rc4.Generator.NextKeystreamByte` | ed2ksrv/obfuscate.go:77-83 | one step, and the byte the new state shows |
| `Rc4.Generator.Discard` | ed2ksrv/obfuscate.go:85-89 | n steps |
| `Rc4.Generator.XorInPlace` | ed2ksrv/obfuscate.go:91-95 | the buffer combined in place with the next bytes of the stream, the rest of it untouched, and the position moved along |
| `Rc4Trace.StreamIsRc4` | ed2ksrv/obfuscate.go:61-95 | every byte m of the keystream of a key is byte 1024 + m of RC4 as a relation: tables that differ by exchanging two entries, a counter, a running sum, and the entry at the sum of the two entries exchanged |
| `Rc4Trace.EveryKeyHasTrace` | ed2ksrv/obfuscate.go:61-83 | every key has such a trace |
| `Rc4Trace.SetupFollows` | ed2ksrv/obfuscate.go:61-72 | key setup goes through the trace's tables and sums, with the key repeated as often as needed |
| `Rc4Trace.GenerationFollows` | ed2ksrv/obfuscate.go:77-83 | so does the generation after it |
| `Rc4Trace.XorDiffers` | ed2ksrv/obfuscate.go:91-95 | a binary digit of the combined byte is set if and only if the digits of the two bytes differ |
| `KeyAgreement.SecretsAgree` | ed2ksrv/obfuscate.go:182-183 | (g^a)^b = (g^b)^a modulo p |
| `KeyAgreement.ModPowTwice` | ed2ksrv/obfuscate.go:182-183 | raising twice is raising to the product |
| `KeyAgreement.ModPowIsPow` | ed2ksrv/obfuscate.go:182-183 | stepwise reduction gives the residue of the power |
| `KeyAgreement.PublicValueInRange` | ed2ksrv/obfuscate.go:173-176 | every public value lies strictly between 0 and p, so a conforming one is never refused |
| `KeyAgreement.OddDividesNoPower` | ed2ksrv/obfuscate.go:173-176 | an odd number above one divides no power of two |
| `KeyAgreement.PrimeIsGood` | ed2ksrv/obfuscate.go:30-39 | the constant is odd, above one and fits in 96 bytes |
| `KeyAgreement.ReadWriteBE` | ed2ksrv/obfuscate.go:45-53 | a number that fits is read back from its fixed-width big-endian form |
| `KeyAgreement.ReadBEFits` | ed2ksrv/obfuscate.go:41-53 | a number read from so many bytes fits in as many |
| `Obfuscation.ConformingClientAgrees` | ed2ksrv/obfuscate.go:152-261 | a conforming client is accepted if and only if it sends something after its header, and what remains decrypts to exactly its plaintext |
| `Obfuscation.ClientReadsServer` | ed2ksrv/obfuscate.go:198-219 | the client decrypts the hello and everything the server sends later with its own copy of the secret |
| `Obfuscation.OpeningAccepted` | ed2ksrv/obfuscate.go:154-176 | a conforming opening is accepted and read as its public value |
| `Obfuscation.HeaderAccepted` | ed2ksrv/obfuscate.go:221-243 | a conforming header is accepted and leaves the stream right behind its padding |
| `Obfuscation.ServerObfuscatedHandshake` | ed2ksrv/obfuscate.go:152-261 | for every input the outcome the specification gives: the failure, or a connection whose unread plaintext is what follows the header; and exactly the hello is sent |
| `Obfuscation.ServeConformingClient` | ed2ksrv/obfuscate.go:120-261 | for every segmentation and all buffer sizes the bytes read are a prefix of the client's plaintext, and all of it after enough reads |
| `Obfuscation.ReadOpening` | ed2ksrv/obfuscate.go:154-176 | reads and checks public value and clear padding |
| `Obfuscation.SendHello` | ed2ksrv/obfuscate.go:198-219 | sends the public value in clear and the tail encrypted from position zero |
| `Obfuscation.ReadHeader` | ed2ksrv/obfuscate.go:221-243 | reads and checks the encrypted header, and skips its padding in the stream too |
| `Obfuscation.WrapConnection` | ed2ksrv/obfuscate.go:245-261 | the first chunk goes in front of the connection; all that was due remains to be read, none decrypted twice |
| `Obfuscation.ReadChunk` | ed2ksrv/obfuscate.go:246-253 | one chunk, decrypted where it stands in the stream |
| `Obfuscation.DirectionGenerator` | ed2ksrv/obfuscate.go:97-103 | the generator of a secret and a direction |
| `Obfuscation.ReadFull` | ed2ksrv/obfuscate.go:154-158 | exactly the asked number of bytes in order, or failure if and only if fewer are due |
| `Obfuscation.ObfConn.Read` | ed2ksrv/obfuscate.go:120-126 | what is read and what is still to be read are together what was to be read before |
| `Obfuscation.ObfConn.Write` | ed2ksrv/obfuscate.go:128-136 | sends the data under the sending keystream and moves that along; the caller's bytes are not changed |
| `Obfuscation.PrependConn.Read` | ed2ksrv/obfuscate.go:143-150 | the same through the prefix: no byte lost or repeated |
| `Obfuscation.PrependConn.ReadPiece` | ed2ksrv/obfuscate.go:143-150 | one read into a fresh buffer, empty only at the end |
| `Obfuscation.PrependConn.ReadPieces` | ed2ksrv/obfuscate.go:143-150 | successive reads together are the next part of the plaintext, and in the end all of it |
| `HandshakeBytes.HandshakeIff` | ed2ksrv/obfuscate.go:152-261 | exactly which bytes are accepted: a public value between 0 and p in 96 bytes, at most 15 bytes of padding, and under the keystream of byte 34 the magic, a zero byte, at most 15 bytes of padding and something after it; the stream goes on right behind |
| `HandshakeBytes.OpeningIff` | ed2ksrv/obfuscate.go:154-176 | an opening is accepted if and only if it is whole, its padding at most 15 bytes, and its public value between 0 and p |
| `HandshakeBytes.OpeningFailure` | ed2ksrv/obfuscate.go:154-176 | which failure an opening that is not accepted meets |
| `HandshakeBytes.HeaderIff` | ed2ksrv/obfuscate.go:221-243 | a header is accepted if and only if it decrypts to the magic, a zero byte and at most 15 bytes of padding, all there |
| `HandshakeBytes.HelloBytes` | ed2ksrv/obfuscate.go:182-217 | the hello is the residue of a power of two in 96 bytes, and under the keystream of byte 203 of the secret four magic bytes, two zeros, the padding's length and the padding |
| `HandshakeBytes.SyncIff` | ed2ksrv/obfuscate.go:227-229 | four bytes are the magic if and only if they are C4 6F 5E 83 |
| `HandshakeBytes.HighestFirst` | ed2ksrv/obfuscate.go:45-53 | the public value is written with its highest digit first |
| `HandshakeBytes.LowestFirst` | ed2ksrv/obfuscate.go:200-205 | the magic is written with its lowest digit first |

## Left out

- `Limiter`: buckets are values in the table, not shared objects; they never leave it, so update in place is not observable.
- `Limiter`: the rounding of `float64` tokens is not modelled.
- `Server`: entries of the share index are values in the map; their update in place is not modelled.
- `Materialize`: the backing array that the materialised endpoints share with the first offerer's stored record is not modelled; results speak of the endpoints kept by client.
- `HandleLogin`: choosing an ID and registering it are one step, so the gap between them is not modelled; the login's other fields and its replies are left out.
- `EntriesTellOffers`: the metadata of an entry under the zero hash is left out; no offered record has that hash.
- `QuiescentIndexIsExact`: is about single logins and records with endpoints; `ListedIffShown`, `QuiescentExactIff` and `OfferedFileIsLostIff` say what holds of every record and of repeated logins.
- `NetConn`: a read that returns no bytes and no error is not modelled; the only network error is the end of the stream, and writing never fails.
- `ServerObfuscatedHandshake`: failures are told apart by kind only, not by message text; failure of the random source is not modelled.
- `PackingIsPacking`: needs non-empty blocks, as every reply block starts with two header bytes; so do the other packing results.
- Nil receivers, locks as such, counters, timestamps and logging.
- Plain connections, packed frames, and the packet codecs of the protocol.
- Catalog lookups, snapshots and saving; JSON and SQL storage; configuration.
- The HTTP admin interface, audit and tracing.
- The datagram queue and its workers, source and callback requests by datagram, server peers and their pings.
