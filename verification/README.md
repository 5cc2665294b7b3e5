# The .mcrypt container, verified

model-crypt encrypts a model file into a `.mcrypt` container and takes it apart
again.  This project models the container codec (`src/crypt/format.cc`,
`src/crypt/encrypt.cc`, `src/crypt/decrypt.cc`), the wiping buffer it works in
(`src/crypt/secure_buffer.cc`) and the crash-safe file replacement
(`src/util/file_io.cc`), and proves what the design promises about them:

- **Authenticity of the whole file.**  Decryption succeeds on exactly the byte
  strings some encryption run finished, under a key that derives the same cipher
  key, and returns exactly that run's plaintext.  No splice, reorder,
  duplicate, truncation or extension is accepted
  (`Decoding.AcceptsExactlyWrittenFiles`, and on the buffers
  `Decrypt.DecryptBuffer`).  Runs that failed part way, and left seals without a
  file, are part of the statement.
- **Round trip** for every key, option set, plaintext up to the limit and every
  choice of which chunks stay deflated (`Decoding.RoundTrip`,
  `Sessions.EncryptThenDecrypt`).
- **`MC_ERR_COMPRESS` is unreachable** from decryption, on any input and key
  (`Decoding.CompressUnreachable`).
- **Order and cost before authentication.**  Inflate is handed only bytes the
  AEAD has just accepted.  The allocations of a decryption follow one plan, in
  its order: before the first chunk opens the chunk table, the key, the inflate
  scratch when some chunk is deflated, and one chunk; the whole plaintext only
  after a chunk has opened.  What comes before costs at most 32 bytes, four
  thirds of the input and one chunk (`Decrypt.DecryptBuffer`, through
  `Decrypt.Safe`, `Decrypt.PlanFor` and `Decrypt.SafeIsCheap`).
- **The status of an encryption is exact.**  Each bad argument has its status
  (`Encrypt.RefusalExact`).  After that, unless the machine fails, it is
  `MC_ERR_TOO_LARGE` if 64 + 24 per chunk + the plaintext exceeds `SIZE_MAX`, else
  `MC_ERR_COMPRESS` if deflate fails outright on some chunk, else success
  (`Encrypt.EncryptBuffer`, through `Encrypt.StatusIsExact` and
  `Encrypt.ExpectedExactly`).  A failure of the machine is reported as the status
  of the event it was (`Memory.Blamed`).
- **The status of a header is exact**: for every string of bytes it is decided
  which of `MC_ERR_FORMAT`, `MC_ERR_UNSUPPORTED` and `MC_ERR_TOO_LARGE` the first
  defect gives (`Format.HeaderStatusExact`, and on the buffers
  `Decrypt.DecryptBuffer`).
- **The bytes are pinned.**  Magic, offsets, associated data, nonce, record and
  the key of every seal are stated in numbers
  (`Runs.FileStartsWith`, `Runs.SealExactly`, `Runs.ChunkExactly`,
  `Format.NonceExact`, `Format.VectorHeaderBytes`), and the stream kept for a
  chunk is deflate's exactly when it is strictly smaller (`Runs.ChosenExactly`).
- **Salt and nonce prefix are drawn.**  They are the next 16 and 8 bytes of the
  random source (`Encrypt.EncryptBuffer`, through `Encrypt.Draws`); as long as the
  source does not repeat itself, headers are distinct
  (`Sessions.DrawsGiveDistinctHeaders`).
- **Nothing survives a failure.**  After any failing call the out-parameters are
  unchanged and every block the call allocated has been wiped and freed.
- **The grammar is exact and prefix-free** (`Container.ParseFileExact`,
  `Container.PrefixFree`), and the header and record codecs are canonical in
  both directions.
- **Ownership** over every sequence of buffer operations (`Memory.RunKeepsInv`,
  `Memory.NoLeak`, `Memory.MoveTransfersOwnership`), and over every sequence of
  commands on real buffers (`Memory.PerformAll`).
- **Crash consistency** of atomic replacement under every schedule of short
  writes, `EINTR`, failures and power loss, and success exactly when every call
  succeeded, in the order create, mode, write, sync, close, rename
  (`FileIo.WriteFileAtomically`).

## How it is built

| file | what it holds |
|---|---|
| `Wire.dfy` | little-endian codecs, shifts and masks, the writers and readers over buffers |
| `Format.dfy` | header, chunk record, associated data, nonce, chunk arithmetic |
| `Memory.dfy` | blocks and their fates, runs over many buffers, the classes `Machine` and `SecureBuffer`, commands on real buffers |
| `Primitives.dfy` | scrypt, AES-256-GCM, deflate and inflate, the random source, as laws and contracts |
| `Container.dfy` | chunks on the wire and the walk as a recursive parse |
| `Runs.dfy` | an encryption as a value, the file it writes, sizes and nonces |
| `Decoding.dfy` | decryption as a function, and the theorems that join it to runs |
| `Encrypt.dfy`, `Decrypt.dfy` | the two entry points over arrays, offsets and loops |
| `FileIo.dfy` | the file system, atomic replacement, whole-file reads |
| `Sessions.dfy` | writer and reader composed: once, and any number of encryptions against an adversary |

The codec comes in two layers.  `Container`, `Runs` and `Decoding` are pure
functions on byte sequences; `Encrypt` and `Decrypt` are imperative methods whose
postconditions tie them to those functions, so every theorem about the functions
is one about the methods.

The foreign primitives are a `Suite`: four functions that obey `Lawful`.
Theorems hold for every lawful suite; `ToySuiteLawful` exhibits one.
Authenticity is idealised in the class `Aead`, which opens exactly what it
sealed.  The random source is an arbitrary endless stream of bytes.  The theorems
on single calls take distinct serialized headers as the hypothesis
`DistinctHeaders`; over any number of calls it follows from a stream that does
not give the same 24 bytes twice (`Sessions.EncryptMany`).  Failures of the
machine (allocation, OpenSSL, zlib set-up) are nondeterministic and leave a mark
in a ghost trace; `Clean` says there was none, and then the status is the one the
function gives; `Blamed` says that the last event is one, and which status it has.

`EncryptBuffer` and `DecryptBuffer` are long functions whose local buffers are
destroyed on every exit.  Here each is cut into methods along the lifetimes of
those buffers, and the calls that end a lifetime stand for the destructors.

## Where the code and other statements differ

- `src/crypt/encrypt.cc:111` narrows the compression field to a byte.  The writer refuses
  256, yet the header it would build is one the reader takes.  Reader and writer
  agree exactly when the field is no such alias
  (`Runs.AgreementExactlyWithoutAliasing`, `Runs.AliasedCompressionId`).  Since
  validation comes first, no such header is ever written.
- `src/util/file_io.cc:148-157` lets `mkstemp` choose any free name of the template's
  shape.  If the target does not exist and itself has that shape, the temporary
  can be the target, and a crash can leave anything there
  (`FileIo.CollidingTarget`: an empty directory and the target
  `.model-crypt-AAAAAA`).  A run of the protocol is atomic throughout if and only
  if `mkstemp` did not pick the target (`FileIo.WriteFileAtomically`), and some
  schedule makes it do so if and only if the target is free and has the shape
  (`FileIo.SafeExactlyWhenNeverPicked`).
- `docs/Format.md` gives the last chunk `plaintext_size % chunk_size` bytes.  The
  formula is right if and only if the division leaves a remainder or there is no
  plaintext; otherwise the code gives the last chunk `chunk_size` bytes
  (`Format.LastChunkFormula`; `Format.DocumentedLastChunkIsWrong` has 4096 bytes
  in chunks of 4096).  The model follows the code.
- `include/model_crypt/model_crypt.h` leaves `MC_ERR_COMPRESS` out of the statuses of
  `mc_encrypt_buffer`.  Unless the machine fails, and when the worst case fits in
  `SIZE_MAX`, the code returns it if and only if zlib was asked for and deflate
  fails outright on some non-empty chunk (`Encrypt.StatusIsExact`,
  `Encrypt.ExpectedExactly`).
  `Encrypt.BrokenDeflateStops` is such a call.

## Model

| member | source | states |
|---|---|---|
| Wire.ReadOfWrite | src/crypt/format.cc:26-70 | reading a little-endian field gives back the number written, for every width and every value that fits |
| Wire.WriteOfRead | src/crypt/format.cc:26-70 | writing back what was read gives the same bytes, so no byte of a field is outside its meaning |
| Wire.PlaceValues | src/crypt/format.cc:52-70 | the value of a field of two, four or eight bytes, with its place values written out |
| Wire.WriteU16 | src/crypt/format.cc:28-35 | with the shifts and masks of the code, stores the two digits at the offset and touches nothing else |
| Wire.WriteU32 | src/crypt/format.cc:37-42 | with the shifts and masks of the code, stores the four digits at the offset and touches nothing else |
| Wire.WriteU64 | src/crypt/format.cc:44-48 | the loop of shifts and masks stores the eight digits at the offset and touches nothing else |
| Wire.ReadU16 | src/crypt/format.cc:52-55 | or-ing the shifted bytes gives the value of the two bytes |
| Wire.ReadU32 | src/crypt/format.cc:57-61 | or-ing the shifted bytes gives the value of the four bytes |
| Wire.ReadU64 | src/crypt/format.cc:63-70 | the loop that ors in one shifted byte a round accumulates the value of the eight bytes |
| Wire.ShiftSelectsDigit | src/crypt/format.cc:28-48 | shifting by whole bytes and masking selects the digit of the encoding, for every width, value and position |
| Wire.MaskIsRemainder | src/crypt/format.cc:28-48 | a mask of k ones is the remainder by 2 to the k, for every word |
| Wire.OrAppendsByte | src/crypt/format.cc:52-70 | in every round, the first included, or-ing in the next byte at its place reads one byte more |
| Wire.ShiftSelectsBigDigit | src/crypt/format.cc:272-283 | the same shifts give the big-endian digits of the nonce counter |
| Wire.FlagTests | src/crypt/format.cc:241-246 | the masks that test the flag byte are the comparisons the model uses |
| Format.ChunkCountExact | src/crypt/format.cc:101-111 | the count is the one number of full-or-last chunks that covers the plaintext, at least 1, and neither the sum nor the 32-bit cast loses anything in the permitted ranges |
| Format.ChunkStep | src/crypt/encrypt.cc:25-34 | consecutive chunks abut, the first starts at 0, the last ends at the end, and only the last may be short |
| Format.LastChunkFormula | src/crypt/format.cc:101-111 | the last chunk has the remainder of the division for its length if and only if there is a remainder or no plaintext at all; otherwise it is a full chunk |
| Format.ChunksSumToPlaintext | src/crypt/decrypt.cc:31-40 | the chunk lengths from any chunk on add up to the plaintext that is left |
| Format.EveryByteInOneChunk | src/crypt/decrypt.cc:31-40 | every plaintext byte lies in exactly one chunk, the one numbered by division |
| Format.MaxStoredSizeExact | src/crypt/format.cc:113-120 | the limit on a stored chunk is the chunk size, a thousandth of it rounded down and 64 bytes, and the cast loses nothing |
| Format.KdfMemoryExact | src/crypt/format.cc:190-196 | inside the individual ranges the 64-bit scrypt memory product does not wrap |
| Format.ParseHeaderExact | src/crypt/format.cc:143-221 | the parser returns a header if and only if the first 64 bytes are its serialization and its fields are acceptable, the memory bound and the chunk count stated in unbounded arithmetic |
| Format.RawOfHeaderBytes | src/crypt/format.cc:72-92 | every field of a serialized header is found at its offset, the magic in front and the reserved field zero |
| Format.HeaderLayout | src/crypt/format.cc:72-92 | every header has the magic and each field at its absolute offset, in numbers |
| Format.VectorHeaderBytes | tests/vector_test.cc:1-20 | the header of the committed vector file has exactly the 64 bytes that stand in it |
| Format.HeaderStatusExact | src/crypt/format.cc:143-221 | for every string of bytes: the parse answers FORMAT, UNSUPPORTED or TOO_LARGE exactly when the first defect in the order of the checks is one of shape, of version or cost, or of plaintext size, over literal offsets and unbounded arithmetic |
| Format.OneByteChanged | tests/crypt_test.cc:164-173 | changing one byte of an accepted header gives the status of that byte: magic and reserved FORMAT, version, ids and log_n UNSUPPORTED |
| Format.HeaderBytesInjective | src/crypt/format.cc:122-138 | different headers have different bytes |
| Format.SerializeFileHeader | src/crypt/format.cc:122-138 | the writes at the field offsets produce exactly the 64 header bytes |
| Format.ParseFileHeader | src/crypt/format.cc:143-221 | the checks over the buffer, in their order, give the status and header of the specification; a null input is an invalid argument |
| Format.ParseRecordExact | src/crypt/format.cc:231-261 | a record is accepted if and only if its 24 bytes are the serialization of a record with known flags within the size limit |
| Format.RecordLayout | src/crypt/format.cc:223-229 | the 24 bytes of a record in numbers: size, flags, three zeros, tag |
| Format.SerializeChunkHeader | src/crypt/format.cc:223-229 | writes exactly the 24 record bytes at the offset, the reserved ones zero |
| Format.ParseChunkHeader | src/crypt/format.cc:231-261 | the checks over the buffer give the result of the specification |
| Format.BuildAad | src/crypt/format.cc:263-270 | the 73 bytes are the header bytes as they stand in the buffer, the index, the stored size and the flags |
| Format.AadLayout | src/crypt/format.cc:263-270 | the 73 bytes of associated data in numbers: header, index, stored size, flags |
| Format.AadInjective | src/crypt/format.cc:263-270 | equal associated data means equal header bytes, index, stored size and flags |
| Format.BuildNonce | src/crypt/format.cc:272-283 | the 12 bytes are the prefix and the index with its most significant byte first, in numbers |
| Format.NonceExact | src/crypt/format.cc:272-283 | the nonce of a position is the one string of 12 bytes with the prefix in front and the index behind, most significant byte first |
| Format.NonceInBytes | src/crypt/format.cc:279-282 | chunk 1 has the counter 0 0 0 1, chunk 0x01020304 the counter 1 2 3 4 |
| Format.NonceInjective | src/crypt/format.cc:272-283 | equal nonces mean equal prefix and index |
| Memory.SecureWipe | src/crypt/secure_buffer.cc:13-19 | zeroes exactly the range given, and nothing for a null pointer |
| Memory.SecureBuffer.WipeAndFree | src/crypt/secure_buffer.cc:71-80 | the block leaves the heap wiped over its whole length, and the buffer is empty |
| Memory.SecureBuffer.Reset | src/crypt/secure_buffer.cc:45-62 | wipes and frees the old block, then holds n zero bytes in a fresh block, or is empty and reports failure |
| Memory.SecureBuffer.MoveFrom | src/crypt/secure_buffer.cc:33-43 | takes over the block and empties the source, wiping and freeing what it held; onto itself does nothing |
| Memory.SecureBuffer.From | src/crypt/secure_buffer.cc:27-31 | takes over the block and empties the source |
| Memory.SecureBuffer.Release | src/crypt/secure_buffer.cc:64-69 | hands the block out unwiped and is empty |
| Memory.StepKeepsInv | src/crypt/secure_buffer.cc:21-80 | each operation keeps single ownership, exclusive fates and wiped frees, and loses track of no block |
| Memory.MoveTransfersOwnership | src/crypt/secure_buffer.cc:25-43 | for move construction and move assignment anywhere in any run: the source owns nothing afterwards, its block has the destination for its only owner, what the destination held is freed, and after any continuation the block is live with one owner, or released, or freed once and wiped |
| Memory.RunKeepsInv | src/crypt/secure_buffer.cc:21-80 | over every sequence of operations on any number of buffers each live block has one living owner, and every block ever granted is live, released, or freed once and wiped |
| Memory.NoLeak | src/crypt/secure_buffer.cc:21-80 | when the last buffer is destroyed, exactly the granted blocks have been released or freed wiped |
| Memory.Perform | src/crypt/secure_buffer.cc:21-80 | one command on real buffers is exactly one step of the specification, whatever the buffers hold, and asks the allocator exactly what that step says |
| Memory.PerformAll | src/crypt/secure_buffer.cc:21-80 | any sequence of commands on real buffers, with arbitrary client writes between them, is a run of the specification command by command, each allocator answer in it one the allocator gave; when no buffer is left, the blocks granted are those released or freed wiped |
| Primitives.ToySuiteLawful | src/crypt/compress.h:1-51 | the laws asked of the foreign primitives can be met by a suite that really compresses |
| Primitives.OpensExactlySealed | src/crypt/aead.h:1-54 | opening yields a payload if and only if that payload was sealed under this key, nonce and associated data and gave this ciphertext and tag |
| Primitives.Aead.Seal | src/crypt/aead.cc:65-114 | writes the ciphertext and tag of exactly the given payload and records the seal; refuses sizes beyond an int and null data |
| Primitives.Aead.Open | src/crypt/aead.cc:116-168 | on success the payload that was sealed; on refusal nothing is promised about the output range, which has been written |
| Primitives.DeriveKey | src/crypt/kdf.cc:18-56 | the scrypt output in a fresh 32-byte buffer, or an untouched out-parameter |
| Primitives.CompressChunk | src/crypt/compress.cc:24-65 | the stream and whether it is strictly smaller; running out of room is "not smaller", not an error |
| Primitives.DecompressChunk | src/crypt/compress.cc:67-105 | succeeds exactly when the stream inflates to the exact size asked for |
| Primitives.RandomSource.Draw | src/crypt/random.cc:15-37 | the next n bytes of the source, or a failure that is reported |
| Container.ParseOfEncode | src/crypt/decrypt.cc:81-143 | the walk accepts the encoding of chunks fit for their positions and returns them |
| Container.EncodeOfParse | src/crypt/decrypt.cc:81-143 | whatever the walk accepts is that encoding: records and payloads tile the input in order, number the chunk count, and leave nothing over |
| Container.SizeCheckIsImplied | src/crypt/decrypt.cc:53-63 | the up-front size check turns away nothing the walk would take |
| Container.ParseFileExact | src/crypt/decrypt.cc:228-242 | a string is structurally valid if and only if it is the bytes of an acceptable header followed by the encoding of its chunks |
| Container.PrefixFree | src/crypt/decrypt.cc:135-143 | of a string and a proper extension of it at most one is accepted, and the other is MC_ERR_FORMAT |
| Runs.ValidateOptionsExact | src/crypt/encrypt.cc:38-81 | options are taken exactly in these ranges, the memory bound unbounded; all others are an invalid argument |
| Runs.ReaderAgreesWithWriter | src/crypt/encrypt.cc:38-81 | the header made from options is accepted if and only if the options, with the compression field narrowed, validate |
| Runs.AgreementExactlyWithoutAliasing | src/crypt/encrypt.cc:101-117 | reader and writer agree on the options themselves if and only if the compression field is not an alias under narrowing in otherwise valid options |
| Runs.AliasedCompressionId | src/crypt/encrypt.cc:111 | the value 256 shows the disagreement |
| Runs.KeptExactly | src/crypt/encrypt.cc:183-202 | a stream is kept if and only if deflate was asked, there was something to deflate, it finished and the stream is strictly smaller; what is kept is that stream |
| Runs.KeptAtTheEdge | src/crypt/encrypt.cc:193-196 | a stream one byte shorter is kept, one of the same length is not; two equal bytes deflated to one are kept |
| Runs.ChosenExactly | src/crypt/encrypt.cc:181-202 | the same for every sealed chunk of a run, with the room given to deflate in numbers, and deflate did not fail on it |
| Runs.KeptIsOk | src/crypt/encrypt.cc:183-202 | keeping deflate's stream exactly when it is strictly smaller always gives a valid run |
| Runs.PlainChunkAt | src/crypt/encrypt.cc:174-177 | the plaintext of chunk i lies at i times the chunk size, as far as the chunk size or the end |
| Runs.FileStartsWith | src/crypt/encrypt.cc:101-146 | the first 64 bytes of the file in numbers, in terms of the options, the plaintext and the draws |
| Runs.SealExactly | src/crypt/encrypt.cc:211-222 | the key, nonce, associated data and payload of every seal, in numbers |
| Runs.ChunkExactly | src/crypt/encrypt.cc:218-229 | the record and ciphertext of every chunk as they stand in the file, in numbers |
| Runs.RunSnoc | src/crypt/encrypt.cc:173-229 | sealing one more chunk appends exactly one record to the log and exactly that chunk to the file |
| Runs.FileSizeSoFar | src/crypt/encrypt.cc:147-229 | after i chunks the file is at most 64 + 24 i + the plaintext covered, with equality if and only if nothing has shrunk |
| Runs.FileSizeBound | src/crypt/format.h:96-106 | a finished file is at most the worst case, is that long if and only if no chunk shrank, and is within kMaxFileSize |
| Runs.NoncesDistinct | src/crypt/format.cc:272-283 | no two seals of one encryption share a nonce or associated data |
| Decoding.FileParses | src/crypt/decrypt.cc:46-144 | what the writer writes is what the walk takes apart |
| Decoding.RoundTrip | src/crypt/decrypt.cc:217-319 | the finished file of every run decrypts to its plaintext under every key that derives the same cipher key |
| Decoding.FreshDrawsGiveDistinctHeaders | src/crypt/encrypt.cc:119-129 | headers are distinct as soon as no two runs drew both the same salt and the same nonce prefix |
| Decoding.LogGrows | src/crypt/encrypt.cc:212-229 | one more run, finished or not, extends the set of runs that accounts for all seals |
| Decoding.OpenedChunkIsSealed | src/crypt/decrypt.cc:150-173 | a chunk that opens is, record and ciphertext and all, the chunk some run with this header sealed at this position |
| Decoding.OpenedChunksAreSealed | src/crypt/decrypt.cc:281-313 | the chunks that open in sequence are the consecutive chunks of one run |
| Decoding.AcceptedIsWritten | src/crypt/decrypt.cc:217-319 | whatever decrypts is byte for byte a finished file of one of the runs and yields that run's plaintext |
| Decoding.AcceptsExactlyWrittenFiles | src/crypt/decrypt.cc:217-319 | decryption succeeds with a plaintext if and only if the input is a finished file with that plaintext and the key derives its cipher key |
| Decoding.OpenedChunkInflates | src/crypt/decrypt.cc:182-190 | a chunk is refused by the AEAD or yields plaintext; inflating an authenticated payload never fails |
| Decoding.CompressUnreachable | src/crypt/decrypt.cc:182-190 | no input under any key gives MC_ERR_COMPRESS |
| Decoding.HypothesesAreMet | src/crypt/encrypt.cc:83-246 | the hypotheses of the theorems hold together for a concrete run that deflates its chunk |
| Encrypt.ChoosePayload | src/crypt/encrypt.cc:181-202 | unless the machine fails it returns MC_ERR_COMPRESS if and only if deflate was asked for on a non-empty chunk and failed outright; otherwise deflate's stream is kept if and only if it was asked for, the chunk is non-empty, and it finished with a stream strictly smaller than the chunk; the record says which, and the stream inflates back to the chunk |
| Encrypt.RoomForChunk | src/crypt/encrypt.cc:204-209 | the worst case always has room for the next record and payload, so the guard cannot fire |
| Encrypt.SealPayload | src/crypt/encrypt.cc:211-229 | seals under the nonce of the position, prefix then big-endian index, and its associated data, and puts record and ciphertext at the write offset, touching nothing else |
| Encrypt.SealChunk | src/crypt/encrypt.cc:173-229 | one turn of the loop extends the file of the run by its next chunk, on which deflate has not failed, and the log by its seal |
| Encrypt.SealChunks | src/crypt/encrypt.cc:172-230 | the loop turns the header into the complete file of the run, on none of whose chunks deflate failed, or stops with exactly the sealed chunks in the log, at the first chunk that breaks deflate if that is the reason |
| Encrypt.RefusalExact | src/crypt/encrypt.cc:83-99 | which arguments are taken, and which get INVALID_ARG and which TOO_LARGE, with every limit in numbers |
| Encrypt.ExpectedExactly | src/crypt/encrypt.cc:140-191 | the expected status in numbers: too large when 64 + 24 per chunk + the plaintext exceeds SIZE_MAX, else COMPRESS when zlib was asked for and deflate breaks on some non-empty chunk, else OK |
| Encrypt.StatusIsExact | src/crypt/encrypt.cc:83-246 | unless the machine fails the status is TOO_LARGE if and only if the worst case exceeds SIZE_MAX, and otherwise COMPRESS if and only if zlib was asked for and some chunk breaks deflate |
| Encrypt.BrokenDeflateStops | src/crypt/encrypt.cc:184-191 | under a lawful suite whose deflate always fails, a call for zlib stops at its first chunk, and the run that stores that chunk raw is not one the code makes |
| Encrypt.ShrinkToFit | src/crypt/encrypt.cc:232-240 | the file is unchanged; it is copied to its exact size when more than 1 MiB would be left unused, and only then |
| Encrypt.DrawRandom | src/crypt/encrypt.cc:119-129 | the next 16 bytes of the random source are the salt, the next 8 the nonce prefix |
| Encrypt.EncryptBuffer | src/crypt/encrypt.cc:83-246 | on success the first out_size bytes are the file of a complete run over the arguments in which deflate answered for every chunk and its answer decided how it is stored; salt and nonce prefix are the next 24 bytes of the random source; the buffer has its exact final size and the allocations were key, worst case, scratch and shrunk copy, in order; on failure the out-parameters are untouched, the log holds the chunks sealed so far and every block is wiped and freed; the status is the expected one unless the machine failed, and then that of the failure |
| Decrypt.WalkStep | src/crypt/decrypt.cc:82-133 | one turn of the walk is one step of the recursive parse, and the entry lies inside the input |
| Decrypt.WalkChunks | src/crypt/decrypt.cc:81-143 | the loop computes the parse; the entries tile the input and the tracked maximum is the true one |
| Decrypt.WalkChunkTable | src/crypt/decrypt.cc:46-144 | the result of the parse, with one allocation made only when the input can hold the records, and room for records and the largest deflated payload proved to be in the input |
| Decrypt.TableFitsAnyHost | src/crypt/decrypt.cc:65-69 | the table size never exceeds a 32-bit size_t, so that branch is dead |
| Decrypt.TableSpace | src/crypt/decrypt.cc:53-69 | header, records and the largest deflated payload together fit in the input |
| Decrypt.OpenOrWipe | src/crypt/decrypt.cc:157-180 | authenticates with the associated data and the nonce of the position, prefix then big-endian index; on failure everything the AEAD may have written is zero and nothing else has changed |
| Decrypt.OpenChunkInto | src/crypt/decrypt.cc:150-191 | the plaintext of the chunk in its place, or the status of the specification; inflate runs only on what was just accepted |
| Decrypt.OpenNext | src/crypt/decrypt.cc:301-313 | one turn of the loop: one more chunk stands where it belongs, or the job has ended with that chunk's status |
| Decrypt.OpenRest | src/crypt/decrypt.cc:301-313 | the loop fills the plaintext chunk by chunk with what the specification opens, or stops at its first failure |
| Decrypt.OpenFirst | src/crypt/decrypt.cc:268-281 | chunk 0 into a buffer of its own size, the last allocation before a chunk may open; on success all of the plan before authentication has been asked for and nothing of what comes after |
| Decrypt.FillPlaintext | src/crypt/decrypt.cc:283-313 | the full plaintext is what the plan has left once a chunk has opened; it is allocated, filled with what the chunks open to, and the run stays on the plan |
| Decrypt.TableSafe | src/crypt/decrypt.cc:53-69 | the table is the first allocation of the plan, made only when the input can hold its records; after a successful walk exactly the key, the scratch and one chunk are due |
| Decrypt.PlanExactly | src/crypt/decrypt.cc:228-292 | the plan of a file that parses, in numbers and in order: 32 bytes per entry, the key, the largest deflated payload if there is one, chunk 0; then the plaintext |
| Decrypt.PlanWithinBudget | src/crypt/decrypt.cc:217-281 | all that is asked for before authentication adds up to at most the key, four thirds of the input and one chunk |
| Decrypt.SafeIsCheap | src/crypt/decrypt.cc:217-281 | a run on the plan has been granted no more than that before its first chunk opens |
| Decrypt.HeaderStatusDecides | src/crypt/decrypt.cc:228-234 | a defect of the header decides the status of the whole call; UNSUPPORTED has no other cause, TOO_LARGE none before a chunk has opened |
| Decrypt.DecryptBuffer | src/crypt/decrypt.cc:217-319 | on any input: INVALID_ARG exactly for null or a key under 12 bytes; FORMAT, UNSUPPORTED and TOO_LARGE for exactly the header defects they stand for; otherwise the status and plaintext of the specification unless the machine fails; out-parameters untouched on failure; inflate guarded; the allocations before the first chunk opens are, in order, a first part of table, key, scratch if some chunk is deflated, chunk 0, all of them once one has opened, and the full plaintext is allocated only after; every block wiped and freed; accepted input is a finished file of one of the runs |
| Sessions.EncryptThenDecrypt | tests/round_trip_test.cc:1-287 | encrypting and decrypting the first out_size bytes gives the input back, unless the machine fails |
| Sessions.DrawsGiveDistinctHeaders | src/crypt/encrypt.cc:119-129 | runs that drew one after the other from a source that never repeats 24 bytes have distinct headers |
| Sessions.EncryptMany | src/crypt/encrypt.cc:83-246 | after any number of calls, refused, failed and successful, the runs account for the whole log, each came of one of the requests, each file handed out was finished by one of them, and their headers are distinct as long as the random source has not repeated itself |
| Sessions.DecryptForAdversary | src/crypt/decrypt.cc:217-319 | whatever bytes an adversary chooses after seeing all files: if they are accepted, and the random source has not repeated itself, they are a file one of the requests finished and come out as its plaintext; finished files are accepted unless the machine fails; MC_ERR_COMPRESS does not occur |
| FileIo.SettledMeansOldOrNew | src/util/file_io.h:13-16 | for a target whose contents are durable, atomic means the old contents or the new, complete, at any crash |
| FileIo.OldOrFinishedIsAtomic | src/util/file_io.cc:176-198 | if every binding the target may come back with is one it had before or the complete, synced new file, then a crash shows nothing new under it but the whole new contents |
| FileIo.MkstempKeepsAtomicIff | src/util/file_io.cc:148-160 | creating the temporary keeps the target atomic for every name mkstemp may pick if and only if the target exists or is not a filled-in template |
| FileIo.CollisionTears | src/util/file_io.cc:148-160 | when the temporary is the target, a crash can leave other bytes there |
| FileIo.CollidingTarget | src/util/file_io.cc:148-160 | in an empty directory mkstemp may pick the target .model-crypt-AAAAAA, and then a crash can leave other bytes there |
| FileIo.SafeExactlyWhenNeverPicked | src/util/file_io.cc:148-160 | the target exists or is not a filled-in template if and only if no schedule makes mkstemp pick it |
| FileIo.WriteFully | src/util/file_io.cc:52-68 | with short counts and EINTR retried, all bytes are in the file, or an error or power loss ended it; every state on the way leaves other names and files alone |
| FileIo.FillTemporary | src/util/file_io.cc:162-193 | success means that the mode was set, all bytes written, the file synced and closed, and every one of those calls succeeded; after a failure the descriptor is closed |
| FileIo.MoveFinishes | src/util/file_io.cc:195-198 | renaming the filled, synced temporary binds the target to the new contents and removes the temporary name |
| FileIo.RemoveUndoes | src/util/file_io.cc:164-198 | unlinking the temporary restores the directory |
| FileIo.Install | src/util/file_io.cc:195-198 | the rename, or on failure the unlink: the target holds the new contents, or what it held before |
| FileIo.ReplaceWith | src/util/file_io.cc:161-201 | the states of a replacement: the temporary created, then filled, then either the finished file under the target or the old binding; MC_ERR_IO leaves the directory as it was unless unlink itself failed |
| FileIo.WriteFileAtomically | src/util/file_io.cc:142-201 | over every schedule and from a durable target, every state passed through is atomic if and only if mkstemp did not pick the target; without power loss MC_ERR_IO is returned if and only if some call failed; success means create, mode, write, sync, close, rename in this order, the new contents under the target and no temporary; failure ends in close and unlink, and the directory is unchanged unless unlink itself failed |
| FileIo.ReadFully | src/util/file_io.cc:28-50 | with short counts and EINTR retried, the buffer is the file's contents and no call failed, or the read failed |
| FileIo.ReadFile | src/util/file_io.cc:87-140 | the whole file within the limit, or an untouched out-parameter; MC_ERR_IO if and only if some call failed or the file is missing; nothing is allocated for a file over the limit; the descriptor is closed on every path |

## Left out

- `InspectBuffer`, the C API and the command line: argument defaulting, null out-parameters and printing around the code modelled here.
- The insides of OpenSSL and zlib, computational security, timing, swap and threads: GCM is ideal and deflate and scrypt are arbitrary functions that obey stated laws.
- The random source is an arbitrary stream; that it does not give the same 24 bytes twice is a hypothesis (`Sessions.NeverRepeats`), not a result.
- Deflate is a function of its input and the room it is given; the theorems on runs nevertheless allow any valid choice of stored or deflated, chunk by chunk.
- Pointer and length pairs are one array each, so a length that disagrees with its pointer is not modelled; `out` must not alias the key or the input.
- `size_t` has at least 32 bits and is a parameter, but `sizeof(ChunkEntry)` is the 32 bytes of a 64-bit host; the chunk table is an array of entries whose bytes are accounted for by a buffer of that size.
- A block of memory is an allocation, never a reused address.
- Permission bits beyond the mode handed to `fchmod`, umask and path syntax: names live in one directory, and `fchmod` and `close` can only succeed or fail.
- FileIo.WriteFileAtomically: a file system in which a crash brings back, for each name separately, any binding it has had, and arbitrary bytes in a file that was not synced; a file's size and contents do not change under a concurrent reader.
- Endless EINTR or zero-byte writes: a schedule is finite, and its end is a loss of power.
