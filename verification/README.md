# Verification of the selective-disclosure pipeline

A notarized session ends in one signed record, and everything a verifier later
believes rests on that record accounting for every byte of both transcripts. This
project models the chain that leads there, proves each stage against a simpler
description of it, and joins the stages:

* `Chunked`, `Offsets` -- the chunked decoder, the framing it undoes, and the map from decoded to raw offsets.
* `SizeLines`, `Spelling` -- what the decoder and the scanners accept and refuse, stated in literal bytes alone.
* `JsonScan`, `Response`, `Contiguity` -- the member scanners, the response reader, and why a member is returned
  only where the server sent it in one piece, with the exact condition. `BareNumbers` does so for the bare form.
* `JsonText`, `JsonDocument`, `Head`, `PlainBodies`, `Requests` -- printers for JSON documents, message heads and
  requests, which the scanners invert.
* `Ranges`, `Layouts`, `Ceremony`, `Identity`, `IdentityDocument` -- reveal and commit layouts, and the four the ceremonies build.
* `Attest`, `Coverage`, `Record`, `SessionRecords`, `EndToEnd`, `IdentityBuilt`, `TokenBuilt` -- the attested record, its coverage of an honest
  session, its signed preimage, the reader's rules, and the two sessions whole.
* `Session`, `Gate`, `VerifierRace` -- the race of setup against the driver as a state machine over every
  interleaving, the acceptance gate, and the two composed.
* `Base64Url`, `TokenExchange`, `FormCoding`, `Wire` -- the smaller printer and parser pairs.
* `Witnesses` -- concrete sessions that show which hypotheses cannot be dropped.

Loops are methods refined to functions; the properties are proved of those functions.
The guard of the race and the stream of the wire are classes. `dafny verify dfyconfig.toml`
checks the whole project.

## Reading notes

* `usize` is 64 bits. The `checked_add`s on offsets into a slice cannot overflow and have no branch here; the one on
  a chunk's declared length can, and has.
* `httparse::parse_chunk_size` is not part of this model. The size line is modelled as section 7.1 of RFC 9112 without
  extensions: one to sixteen hexadecimal digits, then CRLF, Partial while the line can still become one.
* A canonical chunked body ends in one CRLF after the last size line. The contiguity results hold for any tail without a quote.
* The decoder returns at the last chunk's size line and reads nothing after it, so a missing final CRLF or a cut trailer
  is not an error, although the comment on it says that every malformed input is; `DecodeIsExact` says exactly what is accepted.
* The comment on the bare scan says that it returns nothing only when no comma or brace follows the number. The code also
  refuses a value that is not digits and a leading zero; `BareScanOfText` follows the code.
* The header search is not confined to the head: where the head lacks the header it runs into the body
  (`HeaderParsesBack`); over a JSON document it finds nothing there (`PlainBodies`). The results on chunked responses therefore say that the response is chunked, and
  `PrintedChunkedResponse` says which messages are. The search for `chunked` is case-sensitive; the lossy conversion before it changes no ASCII match.
* The comment on `require_contiguous` says that a member with framing through it is refused. The comparison is with the first
  decoded member, not with the decoded bytes at the match's own place, so some are accepted; `FoundMemberIsOnePiece` and
  `FoundBareIsOnePiece` say exactly which, `Witnesses` has a response for each, and no JSON document whose strings hold no raw CR is one.
* `in_response` compares bytes, not places, so "returned" and "the first member is whole" are not equivalent:
  each direction is proved, and `Witnesses` shows the gap.
* `sort_by_key` is the stable insertion sort of `Ranges`.
* tlsn is not part of this model. Its range sets are sequences of non-empty, ascending ranges that do not touch, and a partial
  transcript is the transcript with the bytes not revealed blanked. keccak256 and SHA-256 are arbitrary functions to 32 bytes.
* Strings are stored without JSON escapes, so a printed document holds no quote inside a string. "JSON document" below means such a one.
* Aborting a task stops it at once in the model; tokio stops it the next time it yields, and until then it runs on with
  the abort already requested.
* Polling the handle of a finished task is always ready in the model. tokio may defer it for cooperative scheduling, which only adds a suspension.
* The comment on the guard says that a caller who drops the session future aborts the driver. During the final join the handle
  has left the guard, so dropping the future there detaches a driver that still runs; `CancelDetachesExactly` says exactly when.
* A range set drops empty ranges, so a token request whose secret's name opens the whole request reveals nothing and commits everything.
* The layout is built without its debug assertion; `PartitionIffNoOverlap` says when it would fire.
* The writer of the wire does not hold a message to the reader's 10 MiB bound, so messages between that bound and
  four gigabytes are written and then refused; the round trips say so.

## Model

| member | source | states |
|---|---|---|
| EndToEnd.TokenSession | crates/libid-tlsn/tests/ceremony_end_to_end.rs:139-185 | for every request and response whose layouts exist, opened and committed in any order: a record exists, tiles both transcripts, carries their bytes, decodes from its own signed bytes; the request is revealed up to its secret, the response at the delimiter and the closing quote and nowhere else; exactly one commitment is framed as the bearer, over exactly the `access_token` value; a request of which nothing is revealed included |
| EndToEnd.IdentitySessionOverJson | crates/libid-tlsn/tests/ceremony_end_to_end.rs:187-250 | the same from an HTTP message whose chunked body is any escape-free JSON document in any whitespace and any chunks: if the two identity layouts are built, the record covers both transcripts; the response side reveals exactly the offsets of the id and handle members, which hold the document's id and handle; the request commits a non-empty bearer alone between the header prefix and CRLF |
| EndToEnd.IdentitySessionOverPlainJson | crates/libid-tlsn/tests/ceremony_end_to_end.rs:187-250 | and the same for a body sent plain, under a head that says nothing of chunks |
| EndToEnd.IdentitySessionReads | crates/libid-tlsn/tests/ceremony_end_to_end.rs:187-250 | the same for any body on which the scanners answer as on a document, chunked or not |
| IdentityBuilt.BuiltIffFound | crates/libid-transcript/src/ceremony.rs:276-283 | the identity layout is built if and only if both members are returned, and otherwise the error names the first missing field |
| IdentityBuilt.PlainIdentityIsBuiltExactly | crates/libid-transcript/src/ceremony.rs:264-284 | for a plain document the identity layout is built if and only if the document holds a handle and an id of the session's shape |
| IdentityBuilt.ChunkedIdentityIsBuilt | crates/libid-transcript/src/ceremony.rs:264-284 | for a chunked one it is built only then, and always then if each member was sent in one chunk |
| IdentityBuilt.OneChunkIdentityIsBuiltExactly | crates/libid-transcript/src/ceremony.rs:264-284 | for one sent as a single chunk, if and only if |
| Requests.BearerIsFound | crates/libid-transcript/src/ceremony.rs:207-224 | in a printed request the layout commits the rest of the first bearer line behind the scheme |
| Requests.RequestIsBuiltExactly | crates/libid-transcript/src/ceremony.rs:207-224 | a request without a body has a layout if and only if it has such a line |
| Requests.RevealedRequest | crates/libid-tlsn/tests/ceremony_end_to_end.rs:125-129 | the revealed bytes joined are the request with its bearer taken out |
| Requests.CountInMessage | crates/libid-tlsn/tests/ceremony_end_to_end.rs:131-136 | the reader's count over any printed message is the number of headers of that name and scheme, blanks and case aside, and whatever follows the head adds |
| Requests.AuthorizationHeadersCounted | crates/libid-tlsn/tests/ceremony_end_to_end.rs:224-227 | over the record of a printed request the count is one if and only if the bearer line is the only such header and nothing behind the head spells another; without a body nothing does |
| EndToEnd.ReturnedValueIsTheDocuments | crates/libid-transcript/src/ranges.rs:197-230 | for any escape-free JSON document in any whitespace, chunked anyhow: whatever member is returned, its transcript bytes are the content of the first string the document holds under that name |
| EndToEnd.WholeMemberIsReturned | crates/libid-transcript/src/ranges.rs:197-230 | and where the document holds one and its member was sent in one chunk, it is returned |
| EndToEnd.OneChunkServesEveryMember | crates/libid-transcript/src/ranges.rs:197-230 | for a document sent as one chunk the scanner returns a member if and only if the document holds such a string, with its content |
| EndToEnd.BearerIsTheDocuments | crates/libid-transcript/src/ceremony.rs:156-199 | the only commitment of a token response that the delimiter precedes covers exactly the first `access_token` string of the chunked document |
| EndToEnd.PlainBearerIsTheDocuments | crates/libid-transcript/src/ceremony.rs:156-199 | and of one sent plain |
| Chunked.DecodeChunkedBody | crates/libid-transcript/src/ranges.rs:82-120 | the loop, refined to `DecodeChunked`, with `rest` strictly shorter after every turn |
| Chunked.DecodeIsExact | crates/libid-transcript/src/ranges.rs:76-120 | decoding gives `out` if and only if the input is some sequence of size line, chunk of that non-zero size, CRLF, closed by a zero size line and any tail, and `out` is the chunks joined |
| Chunked.DecodeFramed | crates/libid-transcript/src/ranges.rs:82-120 | decoding undoes framing for every list of non-empty chunks, any leading zeros and either digit case, any tail |
| Chunked.DecodedWasFramed | crates/libid-transcript/src/ranges.rs:82-120 | every input that decodes is a framing, whose chunks are recovered |
| Chunked.TruncatedFramingFails | crates/libid-transcript/src/ranges.rs:76-120 | every strict prefix that ends before the last size line is complete is an error, never a shorter body |
| Chunked.ParseSizeLine | crates/libid-transcript/src/ranges.rs:90-98 | a size line (section 7.1 of RFC 9112) parses to its own length and value, whatever follows |
| Chunked.CompleteIsSizeLine | crates/libid-transcript/src/ranges.rs:90-98 | a completed parse read exactly one to sixteen hexadecimal digits and CRLF |
| Chunked.ParseIsPrefixStable | crates/libid-transcript/src/ranges.rs:90-98 | more input never changes a verdict other than Partial |
| Chunked.TruncatedSizeLine | crates/libid-transcript/src/ranges.rs:90-98 | every strict prefix of a size line is Partial |
| SizeLines.SizeLineParses | crates/libid-transcript/src/ranges.rs:90-98 | a line that spells n in base 16 -- by literal letters, any mix of cases, any zeros in front, up to sixteen digits -- parses to n |
| SizeLines.ParsedWasSpelled | crates/libid-transcript/src/ranges.rs:90-98 | and what parses to n spells n |
| SizeLines.PrintedDecodes | crates/libid-transcript/src/ranges.rs:82-120 | decoding undoes printing, each chunk's size line spelling the length of its data |
| SizeLines.EveryChunkPrints | crates/libid-transcript/src/ranges.rs:82-120 | every non-empty data has such a line in either case, from a printer by division and remainder |
| SizeLines.ErrorBehindChunks | crates/libid-transcript/src/ranges.rs:82-120 | behind any whole chunks the error is that of what follows them |
| SizeLines.EndsInsideLine | crates/libid-transcript/src/ranges.rs:92-94 | a cut size line ends inside a header |
| SizeLines.SizeIsRefused | crates/libid-transcript/src/ranges.rs:95-96 | no digit, more than sixteen, or anything but CRLF behind them is no size |
| SizeLines.ChunkIsRefused | crates/libid-transcript/src/ranges.rs:104-118 | too little data, no room for the terminator, another terminator: each its own error |
| SizeLines.LengthIsRefused | crates/libid-transcript/src/ranges.rs:101-103 | a chunk that would end past 2^64 overflows |
| Offsets.ImageIncreases | crates/libid-transcript/src/ranges.rs:82-120 | the map from decoded to raw offsets is strictly increasing |
| Offsets.ImageGap | crates/libid-transcript/src/ranges.rs:107-118 | within a chunk it is a translation, and past the chunk's end it has moved further |
| Offsets.WindowAt | crates/libid-transcript/src/ranges.rs:272-287 | raw and decoded bodies agree from any decoded byte to its chunk's end, where the raw one goes on with CRLF and a size digit |
| Offsets.Preimage | crates/libid-transcript/src/ranges.rs:272-287 | a raw byte that is not a hexadecimal digit, CR or LF, nor in the tail, is the image of a decoded byte |
| Offsets.ImageKeepsBytes | crates/libid-transcript/src/ranges.rs:82-120 | the raw byte at an image is the decoded byte |
| JsonScan.SkipJsonWhitespace | crates/libid-transcript/src/ranges.rs:238-243 | the loop passes bytes 9, 10, 13 and 32 and stops at the first other one |
| Spelling.MemberIsScanned | crates/libid-transcript/src/ranges.rs:179-195 | with those four bytes in any mix around the colon, the quoted scan returns the whole member and its value |
| Spelling.NumberIsScanned | crates/libid-transcript/src/ranges.rs:296-323 | and the bare scan the whole member, through blanks and a comma or brace |
| Spelling.OtherNumbersAreRefused | crates/libid-transcript/src/ranges.rs:296-323 | no digit, a leading zero, another byte behind: nothing |
| Spelling.ScannedMemberIsSpelled | crates/libid-transcript/src/ranges.rs:179-195 | and whatever member is returned is spelled so |
| JsonScan.ScanKeyAndValue | crates/libid-transcript/src/ranges.rs:256-270 | the search loop finds the first key a colon (and, quoted, an opening quote) follows, tried at every offset |
| JsonScan.FirstMatchIsFirst | crates/libid-transcript/src/ranges.rs:245-270 | that match is the first there is, and None means there is none |
| JsonScan.FoundIsFirstMember | crates/libid-transcript/src/ranges.rs:179-195 | a returned member is the first match, with a quote-free value between its quotes |
| JsonScan.FirstMemberIsFound | crates/libid-transcript/src/ranges.rs:179-195 | and the first match, when its value is closed, is returned |
| JsonScan.FoundIsFirstBare | crates/libid-transcript/src/ranges.rs:296-323 | a returned number is the first match, its digit run maximal, canonical, and closed by a comma or brace past whitespace |
| JsonScan.FirstBareIsFound | crates/libid-transcript/src/ranges.rs:296-323 | and the first match, when it is such a number, is returned |
| Contiguity.RawMatchIsDecoded | crates/libid-transcript/src/ranges.rs:272-287 | framing creates no match: every raw match is the image of a decoded match and lies in that byte's chunk |
| Contiguity.FirstMatchCarries | crates/libid-transcript/src/ranges.rs:256-270 | the raw scan stops at the image of the decoded scan's match when that match lies in one chunk |
| Contiguity.MemberInOneChunkIsFound | crates/libid-transcript/src/ranges.rs:210-230 | completeness: the first decoded member, sent in one chunk, is returned at exactly its image |
| Contiguity.BareInOneChunkIsFound | crates/libid-transcript/src/ranges.rs:343-365 | completeness of the bare form |
| Contiguity.FoundMemberIsOnePiece | crates/libid-transcript/src/ranges.rs:210-230 | soundness: a returned member and its value hold the first decoded member's bytes, and it was sent in one piece if and only if the decoded body holds those bytes where the raw match comes from; it was whenever the first value holds no CR |
| Contiguity.ContiguousMemberIsOnePiece | crates/libid-transcript/src/ranges.rs:285-287 | what the comparison of the two bodies alone rules out, with the same exact condition |
| Offsets.SeamAt | crates/libid-transcript/src/ranges.rs:107-118 | behind each chunk's data lie its CRLF and one whole size line, and behind those the next decoded byte |
| BareNumbers.RawNumberIsOnePiece | crates/libid-transcript/src/ranges.rs:296-323 | whatever bytes it holds, a number found raw lies in one chunk if and only if the decoded body does not leave that name and colon without a value; it does whenever it holds no CR |
| BareNumbers.FoundBareIsOnePiece | crates/libid-transcript/src/ranges.rs:343-365 | hence soundness of the bare form with the same exact condition |
| BareNumbers.NoNameIsValueless | crates/libid-transcript/src/ranges.rs:296-323 | a printed document leaves no name without a value |
| BareNumbers.ReturnedNumberIsTheDocuments | crates/libid-transcript/src/ranges.rs:338-365 | for a chunked document a returned bare range was sent in one piece, and its digits are the number the document holds first under that name |
| Witnesses.SizeLinePassesForNumber | crates/libid-transcript/src/ranges.rs:343-365 | a whole response in which a name is left without a value and a size line is returned as its number, never sent in one piece |
| Witnesses.SplitFirstMemberIsPassedOver | crates/libid-transcript/src/ranges.rs:221-224 | a whole response with a split first member and an identical whole second one: the second is returned, so soundness names bytes and not place |
| Witnesses.RawCrHidesFraming | crates/libid-transcript/src/ranges.rs:210-230 | a whole response whose first value holds a raw CR, and whose returned member has framing inside and was never sent in one piece |
| Head.HeaderParsesBack | crates/libid-transcript/src/ranges.rs:19-32 | for any printed message the header search returns the value of the first header of that name, case aside; with none, the search goes on into the body |
| Head.BodyParsesBack | crates/libid-transcript/src/ranges.rs:50-56 | the body search returns exactly the appended body |
| Head.PrintedChunkedResponse | crates/libid-transcript/src/ranges.rs:61-74 | a printed message whose first Transfer-Encoding says chunked is what the contiguity results ask for |
| Spelling.TransferEncodingInAnyCase | crates/libid-transcript/src/ranges.rs:24-24 | the header's name is matched in any case of its letters and in no other spelling |
| Spelling.FoldsAscii | crates/libid-transcript/src/ranges.rs:24-24 | case folding is that of ASCII, letter by letter |
| Spelling.ChunkedHeadIsRead | crates/libid-transcript/src/ranges.rs:61-74 | a head with that header in any case and the value `chunked` makes the body chunked |
| Spelling.ChunkedIsSaid | crates/libid-transcript/src/ranges.rs:67-70 | the value says chunked when it holds that word in lower case |
| Spelling.BodyErrors | crates/libid-transcript/src/ranges.rs:61-74 | no end of head, bad framing: each its own error |
| PlainBodies.NothingPastTheHead | crates/libid-transcript/src/ranges.rs:19-32 | a header search that has run past a head over a printed document finds nothing there |
| PlainBodies.PlainIffHeadersSayPlain | crates/libid-transcript/src/ranges.rs:61-74 | so a printed message over a document is read as chunked if and only if its head says so |
| JsonText.ScanIsTokenScan | crates/libid-transcript/src/ranges.rs:256-270 | over any token text with any whitespace the byte scan is the token scan |
| JsonText.QuotedScanOfText | crates/libid-transcript/src/ranges.rs:179-195 | the quoted scan returns exactly the first name token that a colon and a string follow, from its quote to the value's |
| JsonText.BareScanOfText | crates/libid-transcript/src/ranges.rs:289-323 | the bare scan returns the first name token with a colon exactly when a canonical number and a comma or brace follow; otherwise nothing |
| JsonDocument.FindInTokens | crates/libid-transcript/src/ranges.rs:245-270 | searching a document's tokens is searching the document in document order, at any depth |
| JsonDocument.QuotedScanFindsMember | crates/libid-transcript/src/ranges.rs:179-195 | in any printing of any document the quoted scan returns the value of the first member with that name and a string value; the name as a value or under another shape is passed over |
| JsonDocument.BareScanFindsMember | crates/libid-transcript/src/ranges.rs:289-323 | the bare scan returns the first member of that name exactly when its value is a canonical number, the digit run whole; otherwise nothing |
| Ranges.SortIsStable | crates/libid-transcript/src/ceremony.rs:122-122 | elements of equal key keep their order |
| Ranges.SortByIsSorted | crates/libid-transcript/src/ceremony.rs:122-122 | the result is an ascending permutation |
| Ranges.SortedIsUnique | crates/libid-tlsn/src/attest.rs:252-252 | two ascending permutations of one list with distinct keys are equal |
| Ranges.PartitionTiles | crates/libid-tlsn/src/attest.rs:263-281 | non-empty ranges that cover every offset once tile, in whatever order listed |
| Ranges.TilingRebuilds | crates/libid-tlsn/src/attest.rs:263-281 | the slices of a tiling, in offset order, rebuild the transcript |
| Layouts.Complement | crates/libid-transcript/src/ceremony.rs:54-67 | the loop, refined to `ComplementFrom` |
| Layouts.Revealing | crates/libid-transcript/src/ceremony.rs:120-129 | the constructor, refined to `RevealingLayout` |
| Layouts.ComplementCounts | crates/libid-transcript/src/ceremony.rs:49-67 | reveals and complement together cover every offset exactly once |
| Layouts.PartitionIffNoOverlap | crates/libid-transcript/src/ceremony.rs:97-129 | for in-bounds ranges the layout is a partition if and only if the debug assertion holds |
| Layouts.RevealingPartitions | crates/libid-transcript/src/ceremony.rs:89-129 | pairwise disjoint ranges in any order: the reveals are their sorted permutation, the commitments exactly the maximal uncovered runs, both together tile |
| Layouts.LayoutRebuilds | crates/libid-transcript/src/ceremony.rs:89-129 | concatenating the slices in offset order rebuilds the transcript |
| Layouts.LayoutOfItsReveals | crates/libid-transcript/src/ceremony.rs:99-107 | a layout is settled by its reveals, however ordered |
| Ceremony.TokenRequestCommitsASuffix | crates/libid-transcript/src/ceremony.rs:138-154 | the one commitment is the suffix from the first `&field=`; no secret field, nothing hidden; it fails exactly when the needle is absent |
| Ceremony.TokenResponseFramesTheBearer | crates/libid-transcript/src/ceremony.rs:156-199 | the reveals are the delimiter and the closing quote; of all commitments exactly the quote-free, non-empty value is preceded by the delimiter |
| TokenBuilt.TokenIsBuiltExactly | crates/libid-transcript/src/ceremony.rs:171-198 | built if and only if a member named `access_token` is returned whose value is not empty, of whatever length; otherwise the error names that field |
| Spelling.AccessTokenIsSpelled | crates/libid-transcript/src/ceremony.rs:170-170 | that name, as text |
| TokenBuilt.PlainTokenIsBuiltExactly | crates/libid-transcript/src/ceremony.rs:156-199 | for a plain document, if and only if its first string of that name is not empty |
| TokenBuilt.ChunkedTokenIsBuilt | crates/libid-transcript/src/ceremony.rs:156-199 | for a chunked one only then, and always then if the member was sent in one chunk |
| TokenBuilt.OneChunkTokenIsBuiltExactly | crates/libid-transcript/src/ceremony.rs:156-199 | for one sent as a single chunk, if and only if |
| Ceremony.IdentityRequestCommitsTheBearer | crates/libid-transcript/src/ceremony.rs:201-224 | every byte is revealed but the CRLF-free run between the first header prefix and the first CRLF after it; it fails exactly when there is none |
| Spelling.BearerPrefixIsSpelled | crates/libid-transcript/src/ceremony.rs:208-208 | that prefix, as text |
| Identity.IdentityMembers | crates/libid-transcript/src/ceremony.rs:267-284 | the layout reveals exactly the found id member and the found handle member, at transcript offsets |
| Identity.MembersDisjoint | crates/libid-transcript/src/ceremony.rs:267-284 | two found members of distinct names are disjoint in either order and shape, if each string member closes as JSON members do |
| Identity.IdentityResponseTiles | crates/libid-transcript/src/ceremony.rs:120-129 | hence the debug assertion cannot fire and the layout tiles |
| IdentityDocument.MatchIsAligned | crates/libid-transcript/src/ranges.rs:256-270 | in a JSON text every match, not only the first, opens at a token |
| IdentityDocument.PrintedMemberCloses | crates/libid-transcript/src/ceremony.rs:267-284 | every string member of a printed document closes that way |
| IdentityDocument.ChunkedDocumentTiles | crates/libid-transcript/src/ceremony.rs:226-284 | the identity layout of any chunked escape-free JSON document tiles whenever it is built |
| IdentityDocument.PlainDocumentTiles | crates/libid-transcript/src/ceremony.rs:226-284 | and of any document sent plain |
| Witnesses.RevealsCanOverlap | crates/libid-transcript/src/ceremony.rs:123-126 | on a body that is no JSON text the two reveals overlap and the layout is no partition |
| Attest.DirectionFromObserved | crates/libid-tlsn/src/attest.rs:188-258 | the two loops and the sort, refined to `BlockFromObserved` |
| Attest.ReadAuthed | crates/libid-tlsn/src/attest.rs:205-214 | the first loop, refined to `ReadRevealed` |
| Attest.SucceedsIff | crates/libid-tlsn/src/attest.rs:159-177 | a record exists if and only if both lengths fit 32 bits and every hash commitment is SHA-256, over one range that ends within 32 bits, and 32 bytes long |
| Attest.FailureIsBlamed | crates/libid-tlsn/src/attest.rs:82-97 | an error names a fault that is there, with its measure: an offset too large is a length of the session or an end of one of its ranges |
| Attest.FailsInOrder | crates/libid-tlsn/src/attest.rs:167-258 | and which one: the sent length, the received length, the first faulty commitment sent, the first received, each by its checks in order |
| Attest.RecordCarriesTheSession | crates/libid-tlsn/src/attest.rs:167-177 | authority, time and lengths are the session's, and each revealed range is at its offset with its bytes |
| Attest.CommitmentsSorted | crates/libid-tlsn/src/attest.rs:216-252 | each direction's commitments are an ascending permutation of that direction's hash commitments |
| Attest.OrderDoesNotMatter | crates/libid-tlsn/src/attest.rs:63-69 | success is invariant under permutation of the commitment list, and so is the record when starts are distinct within each direction |
| Attest.AuthorityIgnoresCase | crates/libid-ceremony/src/attestation.rs:104-144 | names equal but for ASCII case have one authority id |
| Attest.LowercaseFolds | crates/libid-ceremony/src/attestation.rs:142-144 | the name hashed is the name with its capitals folded and nothing else changed |
| Coverage.NormalizedIsNormal | crates/libid-tlsn/src/attest.rs:189-198 | the normal form of reveals that do not overlap has non-empty ranges that do not touch and covers what they covered |
| Coverage.HonestSessionIsCovered | crates/libid-tlsn/src/attest.rs:188-258 | for any in-bounds reveals of both directions that do not overlap, empty ones allowed, and one commitment per committed range, in any order and mixed: the record exists, its spans tile both directions, revealed spans carry the transcript |
| Coverage.OpenableRevealsAreHonest | crates/libid-transcript/src/ceremony.rs:120-129 | every layout that passes the debug assertion is one such a session can run over |
| Coverage.DisjointRevealsAreHonest | crates/libid-transcript/src/ceremony.rs:89-129 | in particular every layout built from disjoint reveals |
| Coverage.MadeFits | crates/libid-tlsn/src/attest.rs:233-239 | no commitment of such a layout covers an empty or disjoint set |
| Coverage.PreimageIsCovered | crates/libid-ceremony/src/attestation.rs:146-155 | a reader of the signed bytes recovers a record that accounts for every byte of both transcripts exactly once |
| SessionRecords.TokenRecordFramesOneBearer | crates/libid-tlsn/tests/ceremony_end_to_end.rs:166-183 | in the record exactly one commitment begins where a revealed range ends with the delimiter |
| SessionRecords.IdentityRequestRecord | crates/libid-tlsn/tests/ceremony_end_to_end.rs:205-222 | in the record the one commitment sits between the header prefix, revealed from offset zero, and a revealed CRLF |
| SessionRecords.TokenResponseIsHonest | crates/libid-transcript/src/ceremony.rs:192-198 | the token response's layout is covered by the end-to-end result |
| SessionRecords.TokenRequestIsHonest | crates/libid-transcript/src/ceremony.rs:138-154 | so is every token request's, the empty reveal included |
| SessionRecords.IdentityRequestIsHonest | crates/libid-transcript/src/ceremony.rs:220-223 | so is the identity request's |
| SessionRecords.IdentityResponseIsHonest | crates/libid-transcript/src/ceremony.rs:281-284 | so is the identity response's, when its members close |
| Record.DecodesBack | crates/libid-ceremony/src/attestation.rs:15-17 | a one-pass decoder returns every record and leaves every tail |
| Record.EncodingIsPrefixFree | crates/libid-ceremony/src/attestation.rs:15-17 | two records with one preimage, tails included, are equal: no shifted boundary shares a preimage |
| Record.DecodedWasEncoded | crates/libid-ceremony/src/attestation.rs:146-155 | whatever decodes was encoded: the decoder accepts nothing else |
| Record.HeaderAtItsOffsets | crates/libid-ceremony/src/attestation.rs:76-78 | authority, time and lengths sit at their fixed offsets, the first count right after |
| Record.BigEndian | crates/libid-ceremony/src/attestation.rs:80-92 | each byte of a fixed-width integer is the number shifted by the bytes after it |
| Record.EncodedLength | crates/libid-tlsn/src/attest.rs:360-376 | the preimage is 48 bytes plus what the lists imply |
| Session.AbortOnDrop.Drop | crates/libid-tlsn/src/session.rs:122-128 | a held task is stopped, an empty guard touches nothing |
| Session.AbortOnDrop.IntoInner | crates/libid-tlsn/src/session.rs:116-119 | hands out the handle and disarms |
| Session.DropNeverDetaches | crates/libid-tlsn/src/session.rs:94-128 | dropping a guard leaves its task stopped unless it was disarmed |
| Session.DriverBranch | crates/libid-tlsn/src/session.rs:855-863 | the driver's branch on the guard itself: it takes the step the state machine takes and leaves guard and task as the next state says |
| Session.Finish | crates/libid-tlsn/src/session.rs:868-871 | so does the end of the race: a saved result settles it, else the handle leaves the guard |
| Session.StepKeeps | crates/libid-tlsn/src/session.rs:845-878 | every step of the function, the driver or a cancelling caller keeps the invariant |
| Session.RaceIsSafe | crates/libid-tlsn/src/session.rs:845-878 | over every run: the driver's result is taken at most once, nothing finished is polled again, no `expect` fails; success means both succeeded; the early-finish error means the flag was unset; no exit leaves the driver running, save a cancellation during the final join |
| Session.MisuseIsRecorded | crates/libid-tlsn/src/session.rs:111-119 | in any state whatever, polling a completed setup or a finished handle again, or an empty guard met by an `expect`, is recorded |
| Session.RecordsAreKept | crates/libid-tlsn/src/session.rs:111-119 | the records are never lost, and only a finished handle yields a result |
| Session.PollsAreFresh | crates/libid-tlsn/src/session.rs:663-678 | in any run what is polled is fresh: setup pending, the handle held and its result not taken |
| Session.GuardNeverEmpty | crates/libid-tlsn/src/session.rs:111-119 | the guard holds its handle whenever it is asked for it |
| Session.FunctionCanStep | crates/libid-tlsn/src/session.rs:845-878 | the function is never stuck, and each answer of setup leads to one state |
| Session.SetupDecides | crates/libid-tlsn/src/session.rs:852-866 | in any run: a panic and an error of setup end the function, success goes on to the driver's result, pending to the other branch |
| Session.DriverDecides | crates/libid-tlsn/src/session.rs:855-863 | in any run: a running driver parks the race, a finished one is the early-finish error before establishment and kept after it |
| Session.MatchEnds | crates/libid-tlsn/src/session.rs:868-871 | after a successful setup a kept result returns in one step; otherwise one step joins and, the driver finished, one more returns its verdict |
| Session.JoinEnds | crates/libid-tlsn/src/session.rs:868-878 | once the driver has finished the join's next step returns success exactly for its success; until then it waits |
| Session.RaceEnds | crates/libid-tlsn/src/session.rs:845-878 | with the driver finished and setup answering, four steps at most reach an exit from anywhere |
| Session.JoinedRun | crates/libid-tlsn/src/session.rs:868-878 | a successful run exists that joins |
| Session.KeptRun | crates/libid-tlsn/src/session.rs:855-871 | and one that keeps the driver's result |
| Session.FinishedDriverEndsTheRace | crates/libid-tlsn/src/session.rs:130-144 | a woken race whose driver has finished never suspends on both again |
| Session.DriverErrorSurfaces | crates/libid-tlsn/src/session.rs:680-690 | when setup succeeded, the outcome is success exactly when the driver's own result was |
| Session.CancelDetachesExactly | crates/libid-tlsn/src/session.rs:94-103 | dropping the suspended function leaves the driver running if and only if it was being joined and had not finished |
| Session.DetachedExactlyByCancelledJoin | crates/libid-tlsn/src/session.rs:94-103 | a run has let go of a running driver if and only if one of its steps was such a cancellation |
| Session.CancelledJoinDetaches | crates/libid-tlsn/src/session.rs:680-683 | such a run exists |
| Gate.OverrunIsFirst | crates/libid-tlsn/src/session.rs:184-197 | None exactly when every end is in bounds of its own direction; otherwise the first overrun in list order, with its end and length |
| Gate.LengthCountsApplicationData | crates/libid-tlsn/src/session.rs:161-167 | the sum is the length of the direction's joined application data |
| Gate.BoundsCheckIsExact | crates/libid-tlsn/src/session.rs:783-797 | the check passes if and only if every committed range indexes only bytes its direction carried |
| Gate.LimitsAcceptExactly | crates/libid-tlsn/src/session.rs:736-753 | the limits are accepted, that is the call is made, if and only if they are within both maxima |
| Gate.AcceptsExactly | crates/libid-tlsn/src/session.rs:736-816 | `accept` is called, whether or not it then fails, if and only if no earlier step failed, limits are within both maxima, identity was asked for, and every committed range indexes the session; success is the call and nothing failing after it |
| Gate.RejectsExactly | crates/libid-tlsn/src/session.rs:736-811 | which rejection each refusal sends, if and only if its check failed, as the last word of the run; limits of 4096 and 32768 bytes |
| Gate.EstablishedFirst | crates/libid-tlsn/src/session.rs:761-816 | before the call the limits were accepted, the flag stored and the request verified; success comes only after acceptance |
| VerifierRace.VerifierRunIsRun | crates/libid-tlsn/src/session.rs:712-878 | the verifier's own setup inside the race is a run of the race |
| VerifierRace.AnyPartMayRun | crates/libid-tlsn/src/session.rs:717-844 | one poll may run any part of the setup and stay pending |
| VerifierRace.VerifierIsSafe | crates/libid-tlsn/src/session.rs:712-878 | over every interleaving, in every state in which `accept` has been called the gate holds and the flag is stored; a verifier that returns a session has called it; the early-finish error comes only before establishment |
| VerifierRace.AllowedRequestIsServed | crates/libid-tlsn/src/session.rs:712-878 | every request the gate allows, of a session that closes well, is served by some run |
| Base64Url.Base64UrlNoPad | crates/libid-tlsn/examples/ceremony/common.rs:61-78 | the nested loops, refined to `Encode` |
| Base64Url.DecodesBack | crates/libid-tlsn/examples/ceremony/common.rs:61-78 | decoding gives back every byte string (section 5 of RFC 4648) |
| Base64Url.DecodedWasEncoded | crates/libid-tlsn/examples/ceremony/common.rs:61-78 | only encodings decode, unused low bits zero included |
| Base64Url.EncodedLength | crates/libid-tlsn/examples/ceremony/common.rs:61-78 | exactly the ceiling of four thirds as many letters |
| Base64Url.LettersOfTheAlphabet | crates/libid-tlsn/examples/ceremony/common.rs:62-63 | each letter by name |
| TokenExchange.ValidatesExactly | crates/libid-ceremony/src/token_exchange.rs:117-137 | for every request: accepted if and only if the code has 1 to 1024 bytes of 0x21 to 0x7e and the verifier 43 letters, digits, hyphens or underscores; otherwise the error of the first check that fails |
| TokenExchange.DerivedVerifierIsValid | crates/libid-ceremony/src/token_exchange.rs:117-137 | a verifier derived by `code_verifier` has 43 letters, spells its hash, and is never refused |
| TokenExchange.FirstUnprintable | crates/libid-ceremony/src/token_exchange.rs:65-71 | the first byte that is not printable ASCII, None exactly when all are |
| FormCoding.FormEncode | crates/libid-tlsn/examples/capture_ceremony.rs:115-125 | the loop, refined to `Encode` |
| FormCoding.FormDecode | crates/libid-tlsn/examples/capture_ceremony.rs:127-157 | the index loop, in bounds and terminating on any input, refined to `Decode` |
| FormCoding.RoundTrip | crates/libid-tlsn/examples/capture_ceremony.rs:112-157 | decoding an encoding gives back every byte string |
| FormCoding.DecodesBack | crates/libid-tlsn/examples/capture_ceremony.rs:112-157 | and what follows an encoding is decoded as if alone |
| FormCoding.ByteIsEncoded | crates/libid-tlsn/examples/capture_ceremony.rs:117-124 | which characters stay, by name, and which three the other bytes become |
| FormCoding.EncodingIsEncoded | crates/libid-tlsn/examples/capture_ceremony.rs:112-125 | output is unreserved bytes and upper-case `%XX` of the other bytes only |
| FormCoding.ReencodesIffEncoded | crates/libid-tlsn/examples/capture_ceremony.rs:112-157 | decoding loses nothing about a text if and only if an encoder could have written it |
| FormCoding.PairIsRead | crates/libid-tlsn/examples/capture_ceremony.rs:134-136 | which two characters are read as a byte, and as which |
| FormCoding.DecodesOneByOne | crates/libid-tlsn/examples/capture_ceremony.rs:132-153 | what each prefix of any text decodes to |
| FormCoding.LenientTexts | crates/libid-tlsn/examples/capture_ceremony.rs:133-152 | lower-case escapes, plus for space, an unfinished escape and a signed digit are read |
| Wire.Stream.WriteMsg | crates/libid-transcript/src/wire.rs:57-71 | appends one frame, or leaves the stream alone and says why |
| Wire.Stream.ReadMsg | crates/libid-transcript/src/wire.rs:77-89 | takes one frame off the front, as `ReadFrame` says |
| Wire.ReadsExactlyFrames | crates/libid-transcript/src/wire.rs:77-89 | a message is read if and only if the stream begins with a frame within the bound whose payload parses to it |
| Wire.WrittenMessageReadsBack | crates/libid-transcript/src/wire.rs:57-89 | a written message reads back, leaving what follows, if and only if its JSON is within the reader's bound |
| Wire.ReadsExactly | crates/libid-transcript/src/wire.rs:77-89 | for every stream: which error and what it leaves, the bound being 10485760 bytes |
| Wire.FramesExactly | crates/libid-transcript/src/wire.rs:57-71 | for every message: refused when unprintable or of 2^32 bytes or more, else its length in four bytes and the payload |
| Wire.TruncatedFrameIsEof | crates/libid-transcript/src/wire.rs:77-89 | a frame cut short is the end of the stream, never a shorter message |
| Wire.ConversationReadsBack | crates/libid-transcript/src/wire.rs:57-89 | every list can be written, and as many reads give the same list in order with nothing left over, if and only if every message is within the bound |

## Left out

- The MPC-TLS protocol, the TLS handshake, sockets and the web root store: libraries and I/O. Setup is what its polls and its checks can answer.
- The prover's own setup inside `prover_generic`, its inner tasks and the request it builds: only its race is modelled, which is the verifier's.
- `transcript_commit_config`, `ProverStep` and tracing: they drive a builder of the protocol library or report progress.
- Scheduling: a run may stop anywhere, so nothing is said about whether a poll ever comes; that the caller drops the future while it is not suspended is not a step.
- JSON string escapes: the scanners treat the first quote as the close, and so do the printers, whose strings hold no quote.
- UTF-8: strings are bytes. The last step of `form_decode`, which replaces invalid UTF-8, is the identity on the valid strings the round trip is for.
- Trailers and chunk extensions: bytes after the last chunk's size line are any tail.
- `find_request_line_range`, `origin_form`, `hex0x`, `code_challenge` and the other bounds of `token_exchange.rs`: each is settled by reading one branch.
- libid-crypto, libid-signer, the profile tables and the Solidity reader: field names, the secret field and the id shape are parameters, and the reader's rules are those the repository's own end-to-end tests mirror.
- Failures of the transport other than a stream that ends: `write_all` here always succeeds. serde_json is any pair of a printer and a parser that gives the message back.
- Whole-document uniqueness of a field: the layouts reveal the first member and commit the rest, as the source argues.
- The test vectors of the examples, the command-line tools and the fixture server.
