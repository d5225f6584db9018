# A verified model of Sendan's core

Sendan is an end-to-end encrypted file drop. This project models the parts of it that are hard to
get right and proves what they promise, for every input and every run:

- **QR codes** (`Gf256`, `ReedSolomon`, `CodeDistance`, `QrData`, `QrInterleave`, `QrLayout`,
  `QrDraw`, `QrStandard`, `QrReadBack`): log tables multiply in GF(256), check octets make codewords,
  what is drawn agrees with the masks, fields and tables of the standard, and reading a drawn matrix
  back gives the bytes that went in, whichever mask is used, even after damage.
- **Content encoding** (`ContentFraming`, `ContentDecoding`, `ContentStreams`, `ContentWebStreams`,
  `ContentReaders`):
  the record framing of section 2 of RFC 8188 as two streaming writers and readers, proved against
  functions of the whole stream; the accepted streams are described exactly.
- **Storage** (`Shred`, `Multipart`): counter mode at any offset, and an upload kept as object-store
  parts and a tail that behaves as an appended file.
- **The life of an upload** (`Lifecycle`, `LifecycleFinish`, `LifecycleLedger`, `Retention`): a transition system
  over row, partial and blob in which any request may be lost between any two of its steps; a ledger of
  every accepted byte; expiry on reading against the reaper's query; download counting by bytes.
- **Smaller cores**: the token bucket and password attempts (`RateLimit`), master-key rotation
  (`Rekey`), registry pruning (`Prune`), adaptive chunking (`ChunkedUpload`) and the metadata codec
  (`Unicode`, `MetadataCodec`).
- **All of it together** (`EndToEnd`): a file from the pieces a browser reads to the plaintext a
  recipient gets.

Ciphers are parameters: a pair of functions with the laws of authenticated encryption (opening
accepts exactly what sealing produces, sealing adds a tag) or a block function. Clocks, nonces, the
network and the order in which a database returns rows are parameters too. `Bytes` holds octets,
exclusive-or and what several modules share.

Where the code and what is said about it differ, the model follows the code:

- `internal/crypto/content.go:380-383` refuses padding so that no plaintext has two valid encodings.
  A plaintext whose length is a positive multiple of 65519 still has exactly two, the second with an
  empty final record (`ContentDecoding.EncodingsOf`).
- `internal/crypto/content.go:424-426` holds that the two clients' lengths must agree exactly. From an
  encoding of 2^53 octets on, the browser's sums are rounded, and for most sizes they differ
  (`ContentFraming.ClientsDeclareTheSameLength`).
- `internal/store/rekey.go:23-24` holds that a second run of a rotation changes nothing. That is so
  if and only if wrapping is being turned off, or every row's nonce recurs and the old key still
  opens what the new one wrapped (`Rekey.RotateTwice`); a rotation from one key to another is
  otherwise refused or written again.
- `internal/ratelimit/ratelimit.go:147-148` holds that sweeping is indistinguishable from keeping.
  It is so exactly when a bucket refills within the idle time, also where only single events are
  asked for (`RateLimit.SweepsAreInvisibleExactly`).
- The upload endpoint is built without a locker (`internal/httpapi/tus.go:25-34`), and finishing an
  upload does not look at how much is stored. A driver that asks to finish only after a chunk that
  moved the offset to the declared size is safe without one; a driver that also finishes after an
  empty chunk is not, and the exact condition is stated
  (`LifecycleFinish.FinishIsSafeExactly`).
- The reaper can remove an upload that is live. It cannot, if and only if the row was complete, or
  past its deadline or its limit, when it was listed (`Retention.ListedStaysDeadExactly`).
- A deletion can leave a blob or a partial behind although it came to its end. It cannot, if and
  only if no request that may still store something was on its way when the row was gone
  (`Lifecycle.DeletionLeavesNothingExactly`).
- A request body that ends unexpectedly is an error to the filesystem store and a success to the
  object store, and a run in which every chunk is refused leaves an empty blob in the one and
  nothing in the other; otherwise the two agree (`Multipart.RepliesAgreeExactly`,
  `Multipart.BlobsAgreeExactly`).

`dafny verify dfyconfig.toml` checks everything.

## Model

| member | source | states |
|---|---|---|
| `Gf256.ExpDistinct` | web/src/lib/qr.ts:103-110 | the 255 powers the table loop produces are distinct: no shorter period divides 255 |
| `Gf256.PowersCover` | web/src/lib/qr.ts:103-110 | every non-zero octet is one of those powers, so every logarithm is defined |
| `Gf256.Tables.constructor` | web/src/lib/qr.ts:100-112 | the loops fill tables in which EXP is repeated doubling, wrapped once, and LOG is its inverse |
| `Gf256.Tables.Multiply` | web/src/lib/qr.ts:114-117 | the table lookup is the field product |
| `Gf256.MulIsShiftAndAdd` | web/src/lib/qr.ts:109-117 | that product is multiplication of polynomials modulo 0x11d, by shift and add |
| `Gf256.MulCommutes` | web/src/lib/qr.ts:114-117 | multiplication commutes |
| `Gf256.MulAssociates` | web/src/lib/qr.ts:114-117 | multiplication associates |
| `Gf256.MulDistributes` | web/src/lib/qr.ts:114-117 | multiplication distributes over exclusive-or on both sides |
| `Gf256.MulNonZero` | web/src/lib/qr.ts:114-117 | there are no zero divisors |
| `ReedSolomon.MultiplyByRoot` | web/src/lib/qr.ts:133-137 | the inner loop multiplies a polynomial by (x - e) |
| `ReedSolomon.GeneratorRoots` | web/src/lib/qr.ts:130-139 | the product of the factors vanishes at a^0 to a^(degree-1) |
| `ReedSolomon.Generator` | web/src/lib/qr.ts:130-141 | the reversed result is monic, of the degree asked for, and vanishes at each of those powers |
| `ReedSolomon.ShiftKeepsCodeword` | web/src/lib/qr.ts:148-155 | one step of the shift register keeps data and register a codeword |
| `ReedSolomon.ErrorCorrection` | web/src/lib/qr.ts:144-157 | for any data and any number of check octets, data followed by them vanishes at a^0 to a^(count-1): section 7.5.2 of ISO/IEC 18004:2015 |
| `CodeDistance.CodewordsAreFarApart` | web/src/lib/qr.ts:144-157 | two codewords of up to 255 octets differ in more places than there are check octets |
| `CodeDistance.CheckOctetsAreUnique` | web/src/lib/qr.ts:144-157 | no other check octets would make the same data a codeword |
| `CodeDistance.DamageIsCorrectable` | web/src/lib/qr.ts:144-157 | damage to up to half as many octets leaves one nearest codeword |
| `QrData.VersionFor` | web/src/lib/qr.ts:162-173 | the smallest version that fits, and a refusal exactly when none does |
| `QrData.CapacityTable` | web/src/lib/qr.ts:162-165 | the capacities that follow from the block table |
| `QrData.DataCodewords` | web/src/lib/qr.ts:176-210 | mode, length, bytes and terminator packed into octets, then alternating pads, to the capacity exactly |
| `QrData.ParseRecovers` | web/src/lib/qr.ts:181-200 | reading mode and length back gives the bytes, whatever follows them |
| `QrInterleave.SplitBlocks` | web/src/lib/qr.ts:222-232 | the loops cut the data into the version's blocks, each a codeword with its check octets |
| `QrInterleave.WriteColumns` | web/src/lib/qr.ts:234-241 | the loops write column after column, skipping blocks that have ended |
| `QrInterleave.ColumnsAt` | web/src/lib/qr.ts:236-238 | where each octet of each block ends up |
| `QrInterleave.StreamReadsBack` | web/src/lib/qr.ts:219-243 | the stream has the version's length, reads back as the data, and each block read from it is a codeword |
| `QrInterleave.Interleave` | web/src/lib/qr.ts:219-243 | the method establishes that for any data of the version's capacity |
| `QrLayout.WalkMember` | web/src/lib/qr.ts:507-524 | from any strip of the zig-zag on, exactly the cells outside column 6 at that strip and left of it are visited; from the first strip of an odd size of 7 or more, all of them |
| `QrLayout.WalkDistinct` | web/src/lib/qr.ts:507-524 | and none of them twice |
| `QrLayout.RoomForCodewords` | web/src/lib/qr.ts:506-552 | in every version the cells that are not reserved hold all codewords |
| `QrDraw.Finder` | web/src/lib/qr.ts:261-273 | draws one finder pattern with its separator and nothing else |
| `QrDraw.Alignment` | web/src/lib/qr.ts:275-294 | draws the alignment patterns away from the finders and nothing else |
| `QrDraw.Timing` | web/src/lib/qr.ts:498-502 | draws the timing patterns and nothing else |
| `QrDraw.ReserveFormat` | web/src/lib/qr.ts:315-338 | reserves the format and version areas, with the dark module, and nothing else |
| `QrDraw.WriteFormat` | web/src/lib/qr.ts:340-401 | writes both copies of the format bits and the version bits and nothing else |
| `QrDraw.InformationReserved` | web/src/lib/qr.ts:340-401 | every cell it writes is reserved, so no data bit is overwritten |
| `QrDraw.PatternsReserve` | web/src/lib/qr.ts:493-504 | after the patterns are drawn, the reserved cells are those of the layout |
| `QrDraw.PlaceData` | web/src/lib/qr.ts:506-524 | the bits of the codewords, masked, in the order of the walk, on the cells that are not reserved; what the masks are is stated by `QrStandard.MaskIsPicture` |
| `QrDraw.Draw` | web/src/lib/qr.ts:489-528 | every cell of the finished matrix: a function pattern or a masked data bit |
| `QrStandard.MaskIsPicture` | web/src/lib/qr.ts:404-423 | each of the eight masks, on every cell of any matrix, is the repetition of a picture written out cell by cell |
| `QrStandard.Chequered` | web/src/lib/qr.ts:406-407 | mask 0 inverts the corner and flips with every step in either direction |
| `QrStandard.Rows` | web/src/lib/qr.ts:408-409 | mask 1 inverts row 0, is constant along a row and flips with every row |
| `QrStandard.Columns3` | web/src/lib/qr.ts:410-411 | mask 2 is constant down a column and inverts the first of every three |
| `QrStandard.Diagonals` | web/src/lib/qr.ts:412-413 | mask 3 is constant on anti-diagonals, with the first row of mask 2 |
| `QrStandard.Blocks` | web/src/lib/qr.ts:414-415 | mask 4 inverts the first block of two rows by three columns and flips from block to block |
| `QrStandard.DataCellIsStandard` | web/src/lib/qr.ts:512-522 | a data cell of a drawn matrix is the bit of its codeword as a number, most significant first, inverted where the picture of the mask says so |
| `QrStandard.OctetBitsAreItsNumber` | web/src/lib/qr.ts:181-200 | the bits of an octet, most significant first, are those of its value |
| `QrStandard.PadValues` | web/src/lib/qr.ts:202-208 | the pads are 236 and 17 in turn |
| `QrStandard.FormatBitIs` | web/src/lib/qr.ts:297-304 | the fifteen format bits of each mask, written out, bit 0 last |
| `QrStandard.FormatWords` | web/src/lib/qr.ts:297-304 | the check loop gives the format words of level M in the standard |
| `QrStandard.VersionBitIs` | web/src/lib/qr.ts:307-313 | the eighteen version bits of versions 7 to 10, written out, bit 0 last |
| `QrStandard.VersionWords` | web/src/lib/qr.ts:307-313 | the check loop gives the version words of the standard |
| `QrStandard.BlockTable` | web/src/lib/qr.ts:42-74 | the codewords and blocks of each version |
| `QrStandard.BlocksAreEven` | web/src/lib/qr.ts:42-74 | the data is shared out evenly over the blocks, the longer ones last |
| `QrStandard.ByteCapacities` | web/src/lib/qr.ts:162-173 | how many bytes fit each version at level M, exactly |
| `QrStandard.AlignmentCentres` | web/src/lib/qr.ts:77-88 | the alignment centres run from the timing line to seven cells before the edge, with one midway from version 7 on |
| `QrStandard.AlignmentSkips` | web/src/lib/qr.ts:275-284 | of the squares on those centres exactly the three that meet a finder are left out |
| `QrReadBack.MaskIsRead` | web/src/lib/qr.ts:297-304 | the format field of a drawn matrix gives back the mask |
| `QrReadBack.DrawnReadsBack` | web/src/lib/qr.ts:489-528 | walking and unmasking a drawn matrix gives its stream; de-interleaving and parsing that gives the bytes |
| `QrReadBack.EncodeWithMask` | web/src/lib/qr.ts:561-566 | for any bytes and any mask the matrix shows that mask, holds the message in codewords and reads back as the bytes; refused exactly beyond 213 bytes |
| `QrReadBack.DamageLeavesTheBytes` | web/src/lib/qr.ts:212-243 | a matrix with up to half as many damaged octets in each block as it has check octets can have come from one byte string only |
| `QrReadBack.Encode` | web/src/lib/qr.ts:574-591 | the first of the eight matrices with the least penalty is chosen, for any penalty, and it reads back |
| `ContentFraming.NonceInjective` | internal/crypto/content.go:83-93 | different counters give different nonces |
| `ContentFraming.NonceCounts` | internal/crypto/content.go:83-93 | the twelve octets of a nonce, exclusive-ored with the base, are the record number, big-endian |
| `ContentFraming.HeaderFields` | internal/crypto/content.go:163-165 | a header is the salt, the record size 65536 as four octets, big-endian, and a zero |
| `ContentFraming.RecordDelimiter` | internal/crypto/content.go:235-249 | the octet after the data of a record is 2 in the last record and 1 in every other |
| `ContentFraming.DeclaredLengthIsExact` | internal/crypto/content.go:427-446 | the declared length is the length of the encoding |
| `ContentFraming.LengthDoesNotOverflow` | internal/crypto/content.go:427-446 | for lengths below 2^53 no intermediate value leaves 63 bits, and the counter suffices |
| `ContentFraming.ClientsDeclareTheSameLength` | web/src/crypto/content.ts:36-47 | with its division and its three sums rounded to doubles, the browser's formula gives the Go client's length if and only if that is at most 2^53, or a multiple of four, or even and at most 2^53 + 16 |
| `ContentFraming.LargestLengthsDiffer` | web/src/crypto/content.ts:36-47 | for the largest safe integer the browser declares three octets fewer than the Go client |
| `ContentStreams.RecordSealer.Seal` | internal/crypto/content.go:106-121 | never seals twice under one nonce; fails exactly when the counter is used up |
| `ContentStreams.Encryptor.constructor` | internal/crypto/content.go:142-175 | an encryptor that has taken and written nothing |
| `ContentStreams.Encryptor.Write` | internal/crypto/content.go:193-218 | takes all it is given; what is out and what is buffered is the encoding so far |
| `ContentStreams.Encryptor.Flush` | internal/crypto/content.go:235-258 | seals the buffer as one record, after the header if that is due |
| `ContentStreams.Encryptor.Close` | internal/crypto/content.go:220-233 | ends the output with the final record, once |
| `ContentStreams.EncryptAll` | internal/crypto/content.go:193-258 | for every split into writes the output is the one encoding of the joined plaintext, unless the counter does not suffice |
| `ContentWebStreams.WebEncryptor.FlushRecord` | web/src/crypto/content.ts:163-191 | the keys and the header come with the first record; each call seals what is buffered as one record |
| `ContentWebStreams.WebEncryptor.Transform` | web/src/crypto/content.ts:195-208 | takes all of a chunk, sealing a full buffer only when more data remains |
| `ContentWebStreams.WebEncryptor.Flush` | web/src/crypto/content.ts:209-211 | ends with the final record, whatever is buffered |
| `ContentWebStreams.EncryptWeb` | web/src/crypto/content.ts:153-213 | for every split of the file the pieces enqueued join to the encoding the Go encryptor gives |
| `ContentDecoding.AcceptedStreams` | internal/crypto/content.go:348-410 | accepted records are exactly full non-final ones and then one final one, with nothing after |
| `ContentDecoding.AcceptedWholeStreams` | internal/crypto/content.go:286-410 | accepted streams are exactly a header with a 16-byte salt and such records under its keys |
| `ContentDecoding.EncodingsOf` | internal/crypto/content.go:348-410 | a plaintext has one accepted encoding, and positive multiples of 65519 have two |
| `ContentDecoding.EncodingsOfStream` | internal/crypto/content.go:286-410 | the same for whole streams, under each salt |
| `ContentDecoding.EncodingsDiffer` | internal/crypto/content.go:384-396 | the second encoding is longer by one empty record |
| `ContentDecoding.TamperedStreamIsRejected` | internal/crypto/content.go:286-410 | if only what was sealed at a nonce opens there, any other stream fails having delivered a prefix of the true plaintext |
| `ContentReaders.Decryptor.constructor` | internal/crypto/content.go:279-284 | a reader that is to deliver what decoding the whole stream gives |
| `ContentReaders.Decryptor.ReadHeader` | internal/crypto/content.go:286-319 | takes the header, or fails exactly when decoding does |
| `ContentReaders.Decryptor.NextRecord` | internal/crypto/content.go:348-410 | takes one record; what is still to come is unchanged |
| `ContentReaders.Decryptor.Read` | internal/crypto/content.go:321-346 | delivers the next bytes of that, at least one while there are any, then end or failure for good |
| `ContentReaders.ReadAll` | internal/crypto/content.go:321-346 | for every sequence of buffer sizes the deliveries join to the decoding of the whole stream |
| `ContentReaders.RoundTrip` | internal/crypto/content.go:193-346 | for every split into writes and every buffer sizes, encrypting then decrypting gives the plaintext and then the end |
| `ContentReaders.EncodingDecodes` | internal/crypto/content.go:286-410 | decoding inverts encoding, header included |
| `ContentReaders.WebDecryptor.DecryptRecord` | web/src/crypto/content.ts:254-305 | opens one record and checks its delimiter, its counter and that none was final before |
| `ContentReaders.WebDecryptor.Transform` | web/src/crypto/content.ts:308-321 | takes a chunk of any size; what is expected of the rest is unchanged |
| `ContentReaders.WebDecryptor.Flush` | web/src/crypto/content.ts:322-334 | takes the last record and decides |
| `ContentReaders.DecryptWeb` | web/src/crypto/content.ts:221-336 | for every split into chunks the browser accepts what the Go reader accepts and gives the same plaintext |
| `ContentDecoding.ReadersAgree` | web/src/crypto/content.ts:221-336 | although they notice trailing data at different points, the two agree on acceptance and on the plaintext |
| `Shred.IncrementCounter` | internal/blob/shred.go:123-130 | adds n modulo 256^length to the big-endian counter, in place |
| `Shred.AddTwice` | internal/blob/shred.go:123-130 | adding twice is adding the sum |
| `Shred.KeystreamShift` | internal/blob/shred.go:79-121 | starting at a later counter is starting later in the keystream |
| `Shred.KeystreamBlocks` | internal/blob/shred.go:79-121 | octet i of block j of the keystream is octet i of the encrypted block whose value is that of the first counter plus j, modulo 256^16 |
| `Shred.StreamAt` | internal/blob/shred.go:79-121 | the stream for an offset starts there once the reported octets are skipped; negative offsets are refused |
| `Shred.CtrStream.XorKeyStream` | internal/blob/shred.go:79-108 | combines data with the keystream at its position and moves on |
| `Shred.Shredder.WriteChunk` | internal/blob/shred.go:226-241 | over either store: what arrives of a chunk is stored encrypted at its offset, with the store's own reply whether the body ends, is cut short or breaks; negative offsets are refused |
| `Shred.WriteAll` | internal/blob/shred.go:226-252 | in either store, for every split into chunks and however each of them ends, finishing gives the bytes of one write; without a chunk there is nothing to finish |
| `Shred.DecryptingReader.Read` | internal/blob/shred.go:186-201 | returns the plaintext at the current position, as much as is asked for, granted and left |
| `Shred.DecryptingReader.Seek` | internal/blob/shred.go:203-213 | moves to the offset asked for, counted from the start, from where the reader stands or from the end of the blob, and reports it; a place before the start or beyond 63 bits fails and moves nothing |
| `Shred.SeekAndRead` | internal/blob/shred.go:145-213 | in any sequence of seeks and reads of a blob written in any chunks, every read returns what was written where the answers so far say the reader stands, and every seek reports its start, that place or the length of the file plus its offset |
| `Shred.AnswersAreExplained` | internal/blob/shred.go:186-213 | that holds of all the answers the reader gives: the last position reported and the bytes returned since tell where the next call starts |
| `Shred.TellAfterReads` | internal/blob/shred.go:186-213 | after reads alone, a seek of nothing from the current position reports how many bytes they returned, and those are the first of the file |
| `Shred.EndIsLength` | internal/blob/shred.go:203-213 | a seek of nothing from the end reports the length of the file, whatever came before |
| `Multipart.Spool.WriteChunk` | internal/blob/spool.go:37-77 | appends what arrives if the offset is the length, and refuses otherwise |
| `Multipart.Spool.Finish` | internal/blob/fs.go:231-251 | the partial becomes the blob |
| `Multipart.S3.ListAll` | internal/blob/s3multipart.go:61-74 | page after page gives the whole listing |
| `Multipart.S3.State` | internal/blob/s3multipart.go:51-106 | the parts, their bytes and the tail's; an error exactly when a number is missing |
| `Multipart.S3.PutTail` | internal/blob/s3multipart.go:222-231 | replaces the tail, and removes it when empty |
| `Multipart.S3.Fill` | internal/blob/s3multipart.go:181-218 | parts 1 to N of exactly 5 MiB and a shorter tail, holding the old bytes and then the new ones |
| `Multipart.S3.WriteChunk` | internal/blob/s3multipart.go:156-219 | the bytes and the count of the appended file; a wrong offset changes nothing |
| `Multipart.S3.Finish` | internal/blob/s3multipart.go:263-313 | the object is exactly the stored bytes, and nothing is left over |
| `Multipart.S3.Delete` | internal/blob/s3.go:188-202 | nothing of the upload remains, finished or not |
| `Multipart.RunS3` | internal/blob/s3multipart.go:156-313 | every run of chunks replies with the count of the file and its errors except for bodies cut short; finishing gives the accepted bytes in order, if any chunk was accepted |
| `Multipart.RunSpool` | internal/blob/spool.go:37-77 | the same run on the file: its replies, and the accepted bytes if any chunk came at all |
| `Multipart.RepliesAgreeExactly` | internal/blob/s3multipart.go:204-217 | the two reply alike to a call if and only if it is not an accepted one whose body is cut short; the counts always agree |
| `Multipart.BlobsAgreeExactly` | internal/blob/spool.go:46-60 | finishing gives the same in both if and only if no chunk came or one was accepted |
| `Lifecycle.StepKeepsGood` | internal/upload/tusstore.go:79-269 | every step of every request, and every loss of one, keeps the invariant |
| `Lifecycle.DisciplinedRunsAreSafe` | internal/upload/tusstore.go:226-269 | in every interleaving with every crash, a row marked complete has a finished blob of its size under its own key, if no chunk finishes an upload another request is about to finish |
| `Lifecycle.ServiceIsSafe` | internal/upload/tusstore.go:187-269 | from an empty store, with fresh identifiers and a driver that finishes when a chunk reaches the size, that always holds, without any lock |
| `Lifecycle.ReachingIsLone` | internal/upload/tusstore.go:226-243 | two requests of such a driver never finish one upload together |
| `Lifecycle.SerialIsLone` | internal/httpapi/tus.go:25-34 | nor do requests that a locker would serialise, whatever the driver |
| `Lifecycle.FinishIsSafeExactlyWhenLone` | internal/upload/tusstore.go:260-269 | a finishing chunk for a pending row is safe in all that can follow if and only if no other request is already finishing it |
| `LifecycleFinish.FinishIsSafeExactly` | internal/upload/tusstore.go:260-286 | for any row: if and only if no other request is already finishing it, or the row is complete and no other handle is left that could store anything |
| `Lifecycle.EmptyChunksAreNotSafe` | internal/upload/tusstore.go:260-269 | a run in which an empty chunk finishes an upload and a complete row is left with an empty blob |
| `Lifecycle.RowGoneFirst` | internal/upload/upload.go:207-225 | a blob is removed only when its row and key are gone |
| `Lifecycle.DeletionLeavesNothingExactly` | internal/upload/upload.go:197-225 | a deletion that comes to its end leaves no row, partial or blob, whatever else happens, if and only if no request that can still store something was on its way when the row was gone |
| `Lifecycle.DeletionCanLeaveSomething` | internal/upload/upload.go:197-225 | an upload deleted while its first request holds the key is such a case |
| `Lifecycle.UnnamedIsFresh` | internal/store/sql.go:33-64 | an identifier no creation or deletion has named has nothing left anywhere |
| `LifecycleLedger.RunBalances` | internal/blob/spool.go:58-77 | over every run, with crashes, lost requests and chunks that break off, partial and blob hold exactly the chunks booked for them, in bytes and in keys |
| `LifecycleLedger.PartialIsWhatWasAccepted` | internal/blob/spool.go:65-72 | from an empty store, a partial is as long as the chunks accepted since it was begun, whole or broken off |
| `LifecycleLedger.CompleteWasAccepted` | internal/upload/tusstore.go:226-269 | an upload marked complete was accepted to its declared size, all under its own key |
| `LifecycleLedger.ResumesWhereItEnded` | internal/upload/tusstore.go:187-211 | after a crash or a lost request at any point, a client that asks anew gets a handle at the last accepted byte, and nothing stored has changed |
| `LifecycleLedger.UploadCompletes` | internal/upload/tusstore.go:226-286 | an upload sent in any chunks and left alone ends complete, with its whole content under its key and nothing else changed |
| `Retention.StoredLifetime` | internal/store/sqlite.go:244-249 | a stored upload dies no later than asked and less than a second early |
| `Retention.StoredUpload` | internal/store/sqlite.go:87-92 | what is stored of an upload reads back as it was, its instants at the start of their seconds |
| `Retention.RowRoundTrip` | internal/store/sqlite.go:226-249 | a row read and written back is unchanged if and only if no column holds the second that reads as "never" |
| `Retention.ReaperAgreesWithExpiry` | internal/store/sql.go:71-75 | although both instants are cut to seconds, a complete row is listed exactly when it is not live, and a listed row is never live |
| `Retention.ReaperDisagreesExactly` | internal/store/sqlite.go:226-232 | the rows judged differently are exactly those holding the second of the zero instant, and when |
| `Retention.AbandonedExactly` | internal/store/sql.go:74 | an incomplete row is listed if and only if it was created at or before the abandonment deadline |
| `Retention.CountIsWholeFiles` | internal/store/sql.go:56-62 | after any splitting and interleaving of served bytes the count is the whole files in their total |
| `Retention.FirstCompletionCounts` | internal/store/sql.go:77 | an upload is completed once: the first completion gives the instant and later ones change nothing |
| `Retention.DeadStaysDead` | internal/store/store.go:113-133 | a complete row that is dead is dead ever after |
| `Retention.ListedStaysDeadExactly` | internal/upload/upload.go:227-252 | a listed row is never live again, whatever happens to it, if and only if it was complete, expired or exhausted when listed |
| `Retention.ListedThenLive` | internal/upload/upload.go:232-252 | what brings a listed row to life is its completion |
| `Retention.AbandonedCanComplete` | internal/upload/upload.go:232-252 | a row that this happens to |
| `Retention.DownloadLimitHolds` | internal/upload/metadata.go:104-115 | with at most k overlapping transfers, fewer than (limit + k) * size bytes are recorded in every run |
| `Retention.Table.ListDead` | internal/store/sqlite.go:169-179 | distinct dead rows, as many as the limit allows; none is still being uploaded within its deadline, and none can be downloaded |
| `Retention.Table.Delete` | internal/store/sqlite.go:160-165 | removes one row, whether or not it exists |
| `Retention.Table.Reap` | internal/upload/upload.go:232-264 | removes listed rows and no others; a removal that fails, at the row or at the blob, neither stops the rest nor is counted |
| `Retention.Table.Sweep` | internal/upload/upload.go:281-295 | with a positive batch the loop ends, whatever the clock shows at each pass and whichever removals fail; only rows listed at a pass go, a row in use at every pass (created after the deadline, or live) is kept as it was, and without failures none dead at the last pass is left |
| `Retention.SweepOnce` | internal/upload/upload.go:281-295 | at one instant without failures, every dead row goes and every other row stays as it was: an incomplete one stays exactly if it was created after the deadline |
| `RateLimit.Limiter.constructor` | internal/ratelimit/ratelimit.go:56-67 | no buckets, and ten minutes where no idle time is given |
| `RateLimit.Limiter.AllowN` | internal/ratelimit/ratelimit.go:79-106 | all or none of the tokens, from the refilled bucket of that key alone |
| `RateLimit.Limiter.Retry` | internal/ratelimit/ratelimit.go:113-132 | reports the wait and consumes nothing |
| `RateLimit.Limiter.Forget` | internal/ratelimit/ratelimit.go:138-142 | the bucket of that key alone is gone |
| `RateLimit.Limiter.Sweep` | internal/ratelimit/ratelimit.go:150-164 | exactly the buckets idle for too long are gone |
| `RateLimit.RunsAreSound` | internal/ratelimit/ratelimit.go:79-106 | tokens stay between nothing and the burst |
| `RateLimit.WindowBound` | internal/ratelimit/ratelimit.go:79-106 | from any sound bucket what proceeds is at most the burst and the rate times the time it takes |
| `RateLimit.RunWindowBound` | internal/ratelimit/ratelimit.go:79-106 | so in every window of every run |
| `RateLimit.SweepsAreInvisibleExactly` | internal/ratelimit/ratelimit.go:150-164 | sweeps at any times change no decision, on any number of events or on single ones alike, if and only if a bucket refills within the idle time |
| `RateLimit.RetryIsLeastWait` | internal/ratelimit/ratelimit.go:113-132 | the reported wait is the least after which one event proceeds, if and only if rate and burst are positive |
| `RateLimit.Authenticated` | internal/upload/auth.go:57-83 | the allowance is taken before the comparison, and only a correct token clears it |
| `RateLimit.Guess` | internal/upload/auth.go:57-83 | guesses go on until one opens the upload; those compared are exactly those the bucket lets through, and bounded in the same way |
| `Rekey.WrapUnwrap` | internal/store/masterkey.go:124-162 | a wrapped key is the octet 1, the nonce and the sealed key, 61 in all, and unwraps to itself |
| `Rekey.RewrapKeepsKey` | internal/store/rekey.go:55-72 | a row is rewritten exactly when it can be opened; its key is unchanged and its form the new one |
| `Rekey.RotatingAgain` | internal/store/rekey.go:23-24 | one row under the same rotation again is unchanged if and only if wrapping is turned off, or the nonce recurs and the old key opens it to the same key |
| `Rekey.RotationKeepsKeys` | internal/store/rekey.go:75-82 | a rotated table holds the same keys in one form, all opened by the new configuration |
| `Rekey.Keys.ReadAll` | internal/store/rekey.go:105-124 | every row once |
| `Rekey.Keys.Rekey` | internal/store/rekey.go:89-149 | every row keeps its key in one form and the changed rows are counted, or one row cannot be opened and the table is untouched |
| `Rekey.RotateTwice` | internal/store/rekey.go:23-24 | a second run succeeds if and only if the old key opens every row, and changes no row if and only if that holds of each |
| `Rekey.RotatingAgainIsRefused` | internal/store/rekey.go:55-72 | a key rotated from one master key to another cannot be rotated so again |
| `Rekey.RotatingAgainRewrites` | internal/store/rekey.go:55-72 | with one master key for both and a new nonce the second run rewrites the row |
| `Prune.SortedEdgesSorts` | tools/registry-prune/main.go:135-148 | exactly the builds of the main branch, newest first, as often as they occur |
| `Prune.EdgeByTags` | tools/registry-prune/main.go:113-120 | a build of the main branch is tagged, and every tag of it is "edge" or begins with "sha-" |
| `Prune.PlanPrune` | tools/registry-prune/main.go:129-213 | the loops compute the plan, or fail exactly when there is something to remove and a survivor or older build cannot be resolved |
| `Prune.KeptAreNewest` | tools/registry-prune/main.go:150-153 | as many builds are kept as asked for, and each was created after every build to go, or at the same instant with no smaller identifier |
| `Prune.PlanIsSound` | tools/registry-prune/main.go:155-212 | nothing twice, nothing that a survivor is or lists, and every older build after its children that nothing else needs |
| `Prune.PlanNames` | tools/registry-prune/main.go:190-212 | only older builds and untagged versions they list are named |
| `Prune.NamedAreOldest` | tools/registry-prune/main.go:141-153 | a tagged version the plan names is no later, by creation and then identifier, than any build it does not name |
| `Prune.OtherTagsStay` | tools/registry-prune/main.go:109-120 | in any listing at all, a version carrying any other tag is never named |
| `Prune.OlderBuildsGo` | tools/registry-prune/main.go:192-211 | every older build is named |
| `Prune.PrefixIsSafe` | tools/registry-prune/main.go:93-98 | stopping anywhere breaks no survivor, and each child of a removed index is removed or listed by a survivor |
| `ChunkedUpload.ChunkSizeFollowsSpeed` | web/src/lib/upload.ts:168-172 | a slower send is never followed by a larger chunk, the target time keeps the size, and one step at most halves or doubles it |
| `ChunkedUpload.ChunkSizeAimsAtTarget` | web/src/lib/upload.ts:168-172 | at the speed just seen the next chunk takes two seconds, to half a byte; beyond a factor of two it is double or half; between 256 KiB and 4 MiB |
| `ChunkedUpload.ChunksCover` | web/src/lib/upload.ts:358-397 | the chunks join to the stream, none is empty or exceeds the buffer, and all but the last have the size aimed at |
| `ChunkedUpload.Sender.Send` | web/src/lib/upload.ts:367-372 | one request; the offset read from the answer and the next size, or the end of the upload |
| `ChunkedUpload.Sender.Take` | web/src/lib/upload.ts:379-389 | the inner loop makes progress; what is sent, held and still to come is the stream |
| `ChunkedUpload.PatchChunk` | web/src/lib/tus.ts:181-211 | any status but 204, a missing header and an offset that is no safe integer are refused; otherwise the offset is what an honest server stores |
| `ChunkedUpload.SendInChunks` | web/src/lib/upload.ts:344-405 | for every split of the stream and every timing, the chunks sent are those of the whole, or the first of them up to an answer that cannot be read |
| `ChunkedUpload.KeptAllOrLess` | web/src/lib/upload.ts:263-265 | if as much is stored as was sent, what is stored is what was sent |
| `ChunkedUpload.UploadFile` | web/src/lib/upload.ts:181-269 | however the file is cut up, encrypted by the browser's encoder and checked against its own rounded length formula, an upload is reported done only if the server holds the whole encoding, and exactly then if every answer can be read; an encoding of 2^53 octets or more is never reported done |
| `EndToEnd.Download` | internal/blob/shred.go:186-201 | reads of any sizes to the end of a blob join to its plaintext |
| `EndToEnd.Deliver` | web/src/lib/upload.ts:181-269 | if an upload is reported done, what is kept at rest in either store, read back in any sizes and decrypted in the browser is the file |
| `Unicode.FromUtf8Encoded` | internal/crypto/metadata.go:95-97 | decoding UTF-8 inverts encoding |
| `Unicode.FromUtf8Inverts` | internal/crypto/metadata.go:95-97 | and only encodings of text are valid |
| `Unicode.IsWellFormed` | web/src/crypto/metadata.ts:40-54 | the loop accepts exactly the code units of text |
| `MetadataCodec.EncodeStringGo` | internal/crypto/metadata.go:116-148 | over UTF-8: the quoted and escaped text |
| `MetadataCodec.EncodeStringWeb` | web/src/crypto/metadata.ts:65-97 | over UTF-16: the same text |
| `MetadataCodec.EncodeGo` | internal/crypto/metadata.go:94-111 | the one JSON text, or a refusal of bad UTF-8 or a size out of range |
| `MetadataCodec.EncodeWeb` | web/src/crypto/metadata.ts:100-111 | the same for the browser |
| `MetadataCodec.EncodersAgree` | web/src/crypto/metadata.ts:65-111 | for every name, type and size both give the same octets or both refuse |
| `MetadataCodec.StringIsRead` | internal/crypto/metadata.go:116-148 | a reader following section 7 of RFC 8259 reads a written string back, whatever follows |
| `MetadataCodec.JsonIsRead` | internal/crypto/metadata.go:94-111 | and the whole text back to the metadata |
| `MetadataCodec.TotalIsLeast` | internal/crypto/metadata.go:153-155 | the padded length is the least multiple of 256 above the length, by either client's formula |
| `MetadataCodec.Pad` | internal/crypto/metadata.go:153-159 | a marker and zeros up to that length |
| `MetadataCodec.Unpad` | internal/crypto/metadata.go:161-173 | gives back what was padded, and refuses exactly what is not padded |
| `MetadataCodec.PaddedInjective` | internal/crypto/metadata.go:161-173 | padding comes off in one way only |
| `MetadataCodec.RoundTrip` | internal/crypto/metadata.go:94-173 | encoding, padding, unpadding and reading give back the metadata, for every name, type and size in range |

## Left out

- AES, GCM, HKDF, Argon2 and SHA-256: parameters with stated laws; the checks on the length of a file key, and the derivation of content keys, are not modelled.
- Errors of the underlying writer or reader of a content stream: a stream is its bytes and its end.
- Failures of object-store calls inside a chunk or a finish: every such call succeeds. Several uploads in progress for one key, and the insurance sort of a listing that arrives unordered, are left out with them.
- Multipart.Bucket: models the object store's own behaviour (ascending listings in pages of 1000, a part put again replaces the old one); the store itself is not part of this model.
- Lifecycle: a transition system on values, so updates in place of a handle are steps; each blob operation and each statement is one step, and how many bytes are stored under which keys stands for their contents. The resumable-upload library is not part of this model beyond the driver described in `Enabled` and `Reaching`.
- Lifecycle.DeletionLeavesNothingExactly: speaks of deletions that come to their end; one that is lost after the row is gone leaves whatever its next step would have removed.
- QrReadBack.DamageLeavesTheBytes: takes the version and the mask as known; correcting damage to the format field itself is not modelled.
- Rekey.Keys.Rekey: failures of the database itself are left out.
- Retention.Table.Sweep: asks for a positive batch; with zero or less every pass removes nothing and the loop of the original does not end.
- Retention.DownloadLimitHolds: counts are unbounded integers, so a 64-bit overflow of the served total is not modelled.
- RateLimit: exact reals instead of floating point, and times that do not go backwards.
- Prune.PlanIsSound: asks for unique digests and identifiers and for untagged children, as the registry gives them; of the plan for other listings only `Prune.OtherTagsStay` is stated.
- Prune.SortedEdgesSorts: the library sort is modelled by insertion.
- ChunkedUpload.ChunkSizeFollowsSpeed: exact reals instead of floating point.
- ChunkedUpload: sending the whole stream as one request, and cancelling; a server that reports more or less than it stores.
- MetadataCodec.JsonIsRead: the reader takes flat objects of strings and whole numbers without white space, which is all that is written; a full JSON reader is not modelled.
- QrReadBack.Encode: penalty scoring is a parameter, and the SVG path is not modelled.
- Resolving a requested lifetime, bounds on retention, link and base64 parsing, capability and policy parsing, the compatibility protocol: one-branch decisions.
- HTTP handlers, SQL drivers, migrations, configuration, logging, command lines, the service worker and the user interface.
