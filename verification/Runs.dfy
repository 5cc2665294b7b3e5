/** An encryption as a value: what EncryptBuffer was given and drew, what it
    sealed, and the file it wrote. */
module Runs {
  import opened Wire
  import opened Format
  import opened Primitives
  import opened Container

  /** mc_encrypt_options.  The compression field is a C int: callers can put any
      value there. */
  datatype Options = Options(compression: int, chunkSize: u32, kdfLogN: byte, kdfR: u32, kdfP: u32)

  function ValidateOptions(opts: Options): Status {
    if opts.compression != COMPRESS_NONE && opts.compression != COMPRESS_ZLIB then INVALID_ARG
    else if opts.chunkSize < MIN_CHUNK_SIZE || opts.chunkSize > MAX_CHUNK_SIZE then INVALID_ARG
    else if opts.kdfLogN < MIN_KDF_LOG_N || opts.kdfLogN > MAX_KDF_LOG_N then INVALID_ARG
    else if opts.kdfR < MIN_KDF_R || opts.kdfR > MAX_KDF_R || opts.kdfP < MIN_KDF_P || opts.kdfP > MAX_KDF_P then INVALID_ARG
    else if KdfMemory(opts.kdfLogN, opts.kdfR) > MAX_KDF_MEMORY then INVALID_ARG
    else OK
  }

  /** Which options are taken, in numbers and with the scrypt memory unbounded;
      all others are an invalid argument. */
  lemma ValidateOptionsExact(opts: Options)
    ensures ValidateOptions(opts) == OK
       <==> && (opts.compression == 0 || opts.compression == 1)
            && 0x1000 <= opts.chunkSize <= 0x400_0000
            && 14 <= opts.kdfLogN <= 20 && 1 <= opts.kdfR <= 32 && 1 <= opts.kdfP <= 16
            && 128 * Pow2(opts.kdfLogN) * opts.kdfR <= 0x4000_0000
    ensures ValidateOptions(opts) == OK || ValidateOptions(opts) == INVALID_ARG
  {
    hide KdfMemory, Pow2;
    if opts.kdfLogN <= 20 && opts.kdfR <= 32 {
      KdfMemoryExact(opts.kdfLogN, opts.kdfR);
    }
  }

  /** The header EncryptBuffer fills in, the narrowing of the compression field included. */
  function MakeHeader(opts: Options, plaintextSize: u64, salt: Salt, noncePrefix: NoncePrefix): FileHeader
    requires opts.chunkSize > 0
  {
    FileHeader(
      FORMAT_VERSION, KDF_SCRYPT, AEAD_AES256_GCM, opts.compression % 256, opts.kdfLogN, opts.kdfR, opts.kdfP,
      salt, noncePrefix, opts.chunkSize, plaintextSize, ChunkCountFor(plaintextSize, opts.chunkSize))
  }

  /** The reader takes a header made from options exactly when the writer's
      validation takes those options, provided the compression field survives
      the narrowing to a byte. */
  lemma ReaderAgreesWithWriter(opts: Options, plaintextSize: u64, salt: Salt, noncePrefix: NoncePrefix, rest: Bytes)
    requires opts.chunkSize > 0 && plaintextSize <= MAX_PLAINTEXT_SIZE
    ensures var s := HeaderBytes(MakeHeader(opts, plaintextSize, salt, noncePrefix)) + rest;
      ParseHeader(s).Ok? <==> ValidateOptions(opts.(compression := opts.compression % 256)) == OK
    ensures var h := MakeHeader(opts, plaintextSize, salt, noncePrefix);
      ParseHeader(HeaderBytes(h) + rest).Ok? ==> ParseHeader(HeaderBytes(h) + rest) == Ok(h)
  {
    var h := MakeHeader(opts, plaintextSize, salt, noncePrefix);
    var s := HeaderBytes(h) + rest;
    assert s[..HEADER_SIZE] == HeaderBytes(h);
    RawOfHeaderBytes(h);
    RawOfPrefix(s);
  }

  /** So reader and writer agree on `opts` itself if and only if the field is
      not some other value that narrows to a known compressor, in options that
      are otherwise in range. */
  lemma AgreementExactlyWithoutAliasing(opts: Options, plaintextSize: u64, salt: Salt, noncePrefix: NoncePrefix)
    requires opts.chunkSize > 0 && plaintextSize <= MAX_PLAINTEXT_SIZE
    ensures var aliased := opts.compression % 256 in {COMPRESS_NONE, COMPRESS_ZLIB} && !(0 <= opts.compression < 256);
      (ParseHeader(HeaderBytes(MakeHeader(opts, plaintextSize, salt, noncePrefix))).Ok? <==> ValidateOptions(opts) == OK)
      <==> !(aliased && ValidateOptions(opts.(compression := COMPRESS_NONE)) == OK)
  {
    hide HeaderBytes, ParseHeader, MakeHeader, KdfMemory;
    var s := HeaderBytes(MakeHeader(opts, plaintextSize, salt, noncePrefix));
    assert s + [] == s;
    ReaderAgreesWithWriter(opts, plaintextSize, salt, noncePrefix, []);
  }

  /** A compression id of 256 is refused by the writer, yet the header it would
      have produced is one the reader takes. */
  lemma AliasedCompressionId()
    ensures var opts := Options(256, MIN_CHUNK_SIZE, 15, 8, 1);
      && ValidateOptions(opts) == INVALID_ARG
      && ParseHeader(HeaderBytes(MakeHeader(opts, 0, Zeros(SALT_SIZE), Zeros(NONCE_PREFIX_SIZE)))).Ok?
  {
    hide HeaderBytes, ParseHeader, MakeHeader;
    var opts := Options(256, MIN_CHUNK_SIZE, 15, 8, 1);
    Pow2Bound(15);
    KdfMemoryExact(15, 8);
    AgreementExactlyWithoutAliasing(opts, 0, Zeros(SALT_SIZE), Zeros(NONCE_PREFIX_SIZE));
  }

  // ---- A run ----

  /** `streams[i]` is what deflate made of chunk i when that was kept, None when
      the chunk was stored raw.  A run that failed part way has fewer streams
      than chunks: only so many were sealed. */
  datatype Run = Run(
    key: Bytes,
    opts: Options,
    plain: Bytes,
    salt: Salt,
    noncePrefix: NoncePrefix,
    streams: seq<Option<Bytes>>)

  /** The inputs are ones EncryptBuffer goes to work on. */
  predicate Admissible(r: Run) {
    |r.key| >= MIN_KEY_SIZE && |r.plain| <= MAX_PLAINTEXT_SIZE && ValidateOptions(r.opts) == OK
  }

  function HeaderOf(r: Run): FileHeader
    requires Admissible(r)
  {
    MakeHeader(r.opts, |r.plain|, r.salt, r.noncePrefix)
  }

  function ChunkCount(r: Run): u32
    requires Admissible(r)
  {
    ChunkCountFor(|r.plain|, r.opts.chunkSize)
  }

  function PlainSize(r: Run, i: u32): nat {
    if |r.plain| < U64_RANGE then ChunkPlainSize(|r.plain|, r.opts.chunkSize, i) else 0
  }

  /** The plaintext of chunk i. */
  function PlainChunk(r: Run, i: u32): (s: Bytes)
    requires Admissible(r) && i < ChunkCount(r)
    ensures |s| == PlainSize(r, i)
  {
    ChunkStep(|r.plain|, r.opts.chunkSize, i);
    r.plain[i * r.opts.chunkSize..i * r.opts.chunkSize + PlainSize(r, i)]
  }

  /** A kept stream is shorter than its chunk and inflates back to it. */
  ghost predicate StreamOk(p: Suite, r: Run, i: u32)
    requires Admissible(r) && i < ChunkCount(r) && i < |r.streams|
  {
    match r.streams[i]
    case None => true
    case Some(s) =>
      && r.opts.compression == COMPRESS_ZLIB
      && |s| < PlainSize(r, i)
      && p.inflate(s, PlainSize(r, i)) == Some(PlainChunk(r, i))
  }

  ghost predicate ValidRun(p: Suite, r: Run) {
    && Admissible(r)
    && |r.streams| <= ChunkCount(r)
    && forall i: u32 | i < |r.streams| :: StreamOk(p, r, i)
  }

  ghost predicate Complete(p: Suite, r: Run) {
    ValidRun(p, r) && |r.streams| == ChunkCount(r)
  }

  /** What deflate leaves to keep of these bytes in so much room: its stream, when
      it was asked to and the stream is strictly smaller. */
  function Kept(p: Suite, want: bool, plain: Bytes, room: nat): Option<Bytes> {
    if !want || plain == [] then None
    else match p.deflate(plain, room)
         case Stream(s) => if |s| < |plain| then Some(s) else None
         case _ => None
  }

  /** A stream is kept if and only if deflate was asked, there was something to
      deflate, it finished, and the stream is strictly smaller; then it is that
      stream. */
  lemma KeptExactly(p: Suite, want: bool, plain: Bytes, room: nat)
    ensures Kept(p, want, plain, room).Some?
       <==> want && |plain| > 0 && p.deflate(plain, room).Stream? && |p.deflate(plain, room).bytes| < |plain|
    ensures Kept(p, want, plain, room).Some? ==> Kept(p, want, plain, room).value == p.deflate(plain, room).bytes
  {
  }

  /** Two bytes deflated to one are kept, and so is a stream one byte shorter than
      a large chunk; one of the same length is not. */
  lemma KeptAtTheEdge(p: Suite, plain: Bytes, room: nat)
    requires |plain| > 0 && p.deflate(plain, room).Stream?
    ensures |p.deflate(plain, room).bytes| == |plain| - 1 ==> Kept(p, true, plain, room) == Some(p.deflate(plain, room).bytes)
    ensures |p.deflate(plain, room).bytes| >= |plain| ==> Kept(p, true, plain, room) == None
    ensures Kept(ToySuite(), true, [7, 7], 64) == Some([7])
  {
    assert [7, 7] == Repeat(7, 2);
  }

  function KeptFor(p: Suite, r: Run, i: u32): Option<Bytes>
    requires Admissible(r) && i < ChunkCount(r)
  {
    Kept(p, r.opts.compression == COMPRESS_ZLIB, PlainChunk(r, i), MaxStoredSizeFor(r.opts.chunkSize))
  }

  /** Deflate is asked for chunk i and fails outright. */
  predicate BreaksAt(p: Suite, r: Run, i: u32)
    requires Admissible(r) && i < ChunkCount(r)
  {
    && r.opts.compression == COMPRESS_ZLIB
    && PlainChunk(r, i) != []
    && p.deflate(PlainChunk(r, i), MaxStoredSizeFor(r.opts.chunkSize)) == Broken
  }

  /** Chunk i was stored the way deflate's answer says, and there was an answer. */
  predicate ChosenAt(p: Suite, r: Run, i: u32)
    requires Admissible(r) && i < ChunkCount(r) && i < |r.streams|
  {
    r.streams[i] == KeptFor(p, r, i) && !BreaksAt(p, r, i)
  }

  /** So was every chunk sealed so far. */
  ghost predicate ChosenByDeflate(p: Suite, r: Run) {
    && Admissible(r) && |r.streams| <= ChunkCount(r)
    && forall i: u32 | i < |r.streams| :: ChosenAt(p, r, i)
  }

  /** What becomes of a chunk depends on the arguments of the call alone. */
  lemma SameChoice(p: Suite, r: Run, r': Run, i: u32)
    requires Admissible(r) && r.opts == r'.opts && r.plain == r'.plain && r.key == r'.key && i < ChunkCount(r)
    ensures PlainChunk(r', i) == PlainChunk(r, i)
    ensures KeptFor(p, r', i) == KeptFor(p, r, i) && BreaksAt(p, r', i) == BreaksAt(p, r, i)
  {
  }

  /** What that says of each chunk, with the room deflate is given in numbers. */
  lemma ChosenExactly(p: Suite, r: Run, i: u32)
    requires ChosenByDeflate(p, r) && i < |r.streams|
    ensures var plain := PlainChunk(r, i);
      var answer := p.deflate(plain, r.opts.chunkSize + r.opts.chunkSize / 1000 + 64);
      var asked := r.opts.compression == 1 && |plain| > 0;
      && (r.streams[i].Some? <==> asked && answer.Stream? && |answer.bytes| < |plain|)
      && (r.streams[i].Some? ==> r.streams[i].value == answer.bytes)
      && !(asked && answer == Broken)
  {
    hide PlainChunk, ChunkCountFor, KdfMemory;
    assert ChosenAt(p, r, i);
    MaxStoredSizeExact(r.opts.chunkSize);
  }

  lemma ChosenSnoc(p: Suite, r: Run, r': Run)
    requires ChosenByDeflate(p, r) && |r.streams| < ChunkCount(r) && !BreaksAt(p, r, |r.streams|)
    requires r == r'.(streams := r.streams) && r'.streams == r.streams + [KeptFor(p, r, |r.streams|)]
    ensures ChosenByDeflate(p, r')
  {
    hide KeptFor, BreaksAt, ChunkCountFor;
    forall i: u32 | i < |r'.streams| ensures ChosenAt(p, r', i) {
      SameChoice(p, r, r', i);
      if i < |r.streams| {
        assert ChosenAt(p, r, i);
      }
    }
  }

  /** Keeping what deflate produced is a valid choice, for every lawful suite. */
  lemma KeptIsOk(p: Suite, r: Run)
    requires Lawful(p) && ChosenByDeflate(p, r)
    ensures ValidRun(p, r)
  {
    forall i: u32 | i < |r.streams| ensures StreamOk(p, r, i) {
      assert ChosenAt(p, r, i);
    }
  }

  function Payload(r: Run, i: u32): Bytes
    requires Admissible(r) && i < ChunkCount(r) && i < |r.streams|
  {
    match r.streams[i]
    case None => PlainChunk(r, i)
    case Some(s) => s
  }

  function RecordOf(r: Run, i: u32): (c: ChunkHeader)
    requires Admissible(r) && i < ChunkCount(r) && i < |r.streams| && |Payload(r, i)| < U32_RANGE
    ensures c.storedSize == |Payload(r, i)|
  {
    ChunkHeader(|Payload(r, i)|, if r.streams[i].Some? then FLAG_COMPRESSED else 0)
  }

  function DerivedKey(p: Suite, r: Run): Bytes {
    p.scrypt(r.key, r.salt, r.opts.kdfLogN, r.opts.kdfR, r.opts.kdfP)
  }

  lemma PayloadFits(p: Suite, r: Run, i: u32)
    requires ValidRun(p, r) && i < |r.streams|
    ensures |Payload(r, i)| <= PlainSize(r, i) <= r.opts.chunkSize
    ensures r.streams[i].Some? ==> |Payload(r, i)| < PlainSize(r, i)
    ensures |Payload(r, i)| < U32_RANGE
  {
    assert StreamOk(p, r, i);
    ChunkStep(|r.plain|, r.opts.chunkSize, i);
  }

  /** What the AEAD is asked to seal for chunk i. */
  ghost function SealOf(p: Suite, r: Run, i: u32): SealRecord
    requires ValidRun(p, r) && i < |r.streams|
  {
    PayloadFits(p, r, i);
    SealRecord(DerivedKey(p, r), Nonce(r.noncePrefix, i), Aad(HeaderBytes(HeaderOf(r)), i, RecordOf(r, i)), Payload(r, i))
  }

  /** Chunk i as it is written. */
  ghost function ChunkOf(p: Suite, r: Run, i: u32): Chunk
    requires ValidRun(p, r) && i < |r.streams|
  {
    PayloadFits(p, r, i);
    var rec := SealOf(p, r, i);
    var sealed := p.seal(rec.key, rec.nonce, rec.aad, rec.payload);
    Chunk(RecordOf(r, i), sealed.tag, sealed.ciphertext)
  }

  ghost function ChunksOf(p: Suite, r: Run): (chunks: seq<Chunk>)
    requires ValidRun(p, r)
    ensures |chunks| == |r.streams|
    ensures forall i: u32 | i < |chunks| :: chunks[i] == ChunkOf(p, r, i)
  {
    seq(|r.streams|, i requires 0 <= i < |r.streams| => ChunkOf(p, r, i))
  }

  ghost function LogOf(p: Suite, r: Run): (log: seq<SealRecord>)
    requires ValidRun(p, r)
    ensures |log| == |r.streams|
    ensures forall i: u32 | i < |log| :: log[i] == SealOf(p, r, i)
  {
    seq(|r.streams|, i requires 0 <= i < |r.streams| => SealOf(p, r, i))
  }

  ghost function FileOf(p: Suite, r: Run): Bytes
    requires ValidRun(p, r)
  {
    HeaderBytes(HeaderOf(r)) + EncodeBody(ChunksOf(p, r))
  }

  // ---- What is sealed and what is written, in numbers ----

  /** The plaintext of chunk i lies at i times the chunk size. */
  lemma PlainChunkAt(r: Run, i: u32)
    requires Admissible(r) && i < ChunkCount(r)
    ensures var at, end := i * r.opts.chunkSize, i * r.opts.chunkSize + r.opts.chunkSize;
      at <= |r.plain| && PlainChunk(r, i) == r.plain[at..if end < |r.plain| then end else |r.plain|]
  {
    ChunkStep(|r.plain|, r.opts.chunkSize, i);
  }

  /** The key, nonce, associated data and payload of every seal. */
  lemma SealExactly(p: Suite, r: Run, i: u32)
    requires ValidRun(p, r) && i < |r.streams|
    ensures var rec := LogOf(p, r)[i];
      && rec.key == p.scrypt(r.key, r.salt, r.opts.kdfLogN, r.opts.kdfR, r.opts.kdfP)
      && IsNonce(rec.nonce, r.noncePrefix, i)
      && rec.payload == (match r.streams[i] case None => PlainChunk(r, i) case Some(stream) => stream)
      && |rec.aad| == 73
      && rec.aad[0..64] == FileOf(p, r)[..64]
      && FromLE(rec.aad[64..68]) == i
      && FromLE(rec.aad[68..72]) == |rec.payload|
      && rec.aad[72] == if r.streams[i].Some? then 1 else 0
  {
    hide HeaderBytes, Aad, Nonce, StreamOk, PlainChunk, ChunkCountFor, ValidateOptions;
    PayloadFits(p, r, i);
    assert LogOf(p, r)[i] == SealOf(p, r, i);
    NonceExact(Nonce(r.noncePrefix, i), r.noncePrefix, i);
    AadLayout(HeaderBytes(HeaderOf(r)), i, RecordOf(r, i));
    assert FileOf(p, r)[..64] == HeaderBytes(HeaderOf(r));
  }

  /** The record and ciphertext of every chunk, as they stand in the file. */
  lemma ChunkExactly(p: Suite, r: Run, i: u32)
    requires Lawful(p) && ValidRun(p, r) && i < |r.streams|
    ensures var rec := LogOf(p, r)[i];
      var sealed := p.seal(rec.key, rec.nonce, rec.aad, rec.payload);
      var s := ChunkBytes(ChunksOf(p, r)[i]);
      && |s| == 24 + |rec.payload|
      && FromLE(s[0..4]) == |rec.payload|
      && s[4] == (if r.streams[i].Some? then 1 else 0)
      && s[5] == 0 && s[6] == 0 && s[7] == 0
      && s[8..24] == sealed.tag
      && s[24..] == sealed.ciphertext
  {
    hide HeaderBytes, Aad, Nonce, StreamOk, PlainChunk, ChunkCountFor, ValidateOptions, RecordBytes;
    PayloadFits(p, r, i);
    assert LogOf(p, r)[i] == SealOf(p, r, i) && ChunksOf(p, r)[i] == ChunkOf(p, r, i);
    var c := ChunkOf(p, r, i);
    var record := RecordBytes(c.header, c.tag);
    RecordLayout(c.header, c.tag);
    var s := ChunkBytes(c);
    assert s[0..4] == record[0..4] && s[8..24] == record[8..24];
  }

  /** The first 64 bytes of the file of a run, in terms of the call. */
  lemma FileStartsWith(p: Suite, r: Run)
    requires ValidRun(p, r)
    ensures var s := FileOf(p, r);
      && |s| >= 64
      && s[0..8] == [0x4D, 0x43, 0x52, 0x59, 0x50, 0x54, 0x30, 0x32]
      && FromLE(s[8..10]) == 2 && s[10] == 1 && s[11] == 1
      && s[12] == r.opts.compression && s[13] == r.opts.kdfLogN
      && FromLE(s[14..18]) == r.opts.kdfR && FromLE(s[18..22]) == r.opts.kdfP
      && s[22..38] == r.salt && s[38..46] == r.noncePrefix
      && FromLE(s[46..50]) == r.opts.chunkSize && FromLE(s[50..58]) == |r.plain|
      && CountCovers(|r.plain|, r.opts.chunkSize, FromLE(s[58..62]))
      && s[62] == 0 && s[63] == 0
  {
    hide HeaderBytes, FromLE, StreamOk, ChunkCountFor, KdfMemory;
    var h := HeaderOf(r);
    HeaderLayout(h);
    ChunkCountExact(|r.plain|, r.opts.chunkSize);
    var s, t := FileOf(p, r), HeaderBytes(h);
    assert s[..64] == t;
    SamePrefix(s, t);
  }

  lemma SamePrefix(s: Bytes, t: Bytes)
    requires |s| >= 64 && |t| == 64 && s[..64] == t
    ensures s[0..8] == t[0..8] && s[8..10] == t[8..10] && s[14..18] == t[14..18] && s[18..22] == t[18..22]
    ensures s[22..38] == t[22..38] && s[38..46] == t[38..46] && s[46..50] == t[46..50]
    ensures s[50..58] == t[50..58] && s[58..62] == t[58..62]
    ensures forall i | 0 <= i < 64 :: s[i] == t[i]
  {
  }

  // ---- Growing a run chunk by chunk ----

  lemma {:induction false} EncodeSnoc(chunks: seq<Chunk>, c: Chunk)
    ensures EncodeBody(chunks + [c]) == EncodeBody(chunks) + ChunkBytes(c)
  {
    if chunks == [] {
      EncodeCons(c, []);
      assert [c] + [] == [] + [c];
    } else {
      EncodeSnoc(chunks[1..], c);
      assert (chunks + [c])[1..] == chunks[1..] + [c];
    }
  }

  lemma StreamsSnoc(p: Suite, r: Run, stream: Option<Bytes>)
    requires ValidRun(p, r) && |r.streams| < ChunkCount(r)
    requires StreamOk(p, r.(streams := r.streams + [stream]), |r.streams|)
    ensures ValidRun(p, r.(streams := r.streams + [stream]))
  {
    var r' := r.(streams := r.streams + [stream]);
    forall i: u32 | i < |r'.streams| ensures StreamOk(p, r', i) {
      if i < |r.streams| {
        assert StreamOk(p, r, i);
      }
    }
  }

  /** Sealing one more chunk appends one record to the log and one chunk to the file. */
  lemma RunSnoc(p: Suite, r: Run, stream: Option<Bytes>)
    requires ValidRun(p, r) && |r.streams| < ChunkCount(r)
    requires StreamOk(p, r.(streams := r.streams + [stream]), |r.streams|)
    ensures var r' := r.(streams := r.streams + [stream]);
      && ValidRun(p, r')
      && LogOf(p, r') == LogOf(p, r) + [SealOf(p, r', |r.streams|)]
      && FileOf(p, r') == FileOf(p, r) + ChunkBytes(ChunkOf(p, r', |r.streams|))
  {
    hide HeaderBytes, SealOf, ChunkOf, ChunkPlainSize, ChunkCountFor, PlainChunk;
    var r' := r.(streams := r.streams + [stream]);
    var n := |r.streams|;
    StreamsSnoc(p, r, stream);
    forall i: u32 | i < n ensures SealOf(p, r', i) == SealOf(p, r, i) && ChunkOf(p, r', i) == ChunkOf(p, r, i) {
      SameChunk(p, r, r', i);
    }
    assert LogOf(p, r') == LogOf(p, r) + [SealOf(p, r', n)];
    assert ChunksOf(p, r') == ChunksOf(p, r) + [ChunkOf(p, r', n)];
    EncodeSnoc(ChunksOf(p, r), ChunkOf(p, r', n));
  }

  lemma SameChunk(p: Suite, r: Run, r': Run, i: u32)
    requires ValidRun(p, r) && ValidRun(p, r') && r' == r.(streams := r'.streams)
    requires i < |r.streams| && i < |r'.streams| && r.streams[i] == r'.streams[i]
    ensures SealOf(p, r', i) == SealOf(p, r, i) && ChunkOf(p, r', i) == ChunkOf(p, r, i)
  {
  }

  // ---- Sizes ----

  /** The run as it stood before its last chunk. */
  lemma LastChunk(p: Suite, r: Run) returns (front: Run)
    requires Lawful(p) && ValidRun(p, r) && |r.streams| > 0
    ensures front == r.(streams := r.streams[..|r.streams| - 1]) && ValidRun(p, front)
    ensures |FileOf(p, r)| == |FileOf(p, front)| + CHUNK_HEADER_SIZE + |Payload(r, |r.streams| - 1)|
  {
    var n := |r.streams|;
    front := r.(streams := r.streams[..n - 1]);
    forall i: u32 | i < n - 1 ensures StreamOk(p, front, i) {
      assert StreamOk(p, r, i);
    }
    assert r.streams == front.streams + [r.streams[n - 1]];
    assert StreamOk(p, r, n - 1);
    RunSnoc(p, front, r.streams[n - 1]);
    assert |ChunkBytes(ChunkOf(p, r, n - 1))| == CHUNK_HEADER_SIZE + |Payload(r, n - 1)|;
  }

  predicate AllRaw(streams: seq<Option<Bytes>>) {
    forall i | 0 <= i < |streams| :: streams[i] == None
  }

  /** The header, i records and the plaintext the first i chunks cover. */
  function SpaceFor(r: Run, i: u32): nat {
    HEADER_SIZE + CHUNK_HEADER_SIZE * i + if |r.plain| < U64_RANGE then ChunkStart(|r.plain|, r.opts.chunkSize, i) else 0
  }

  lemma NothingWritten(r: Run)
    requires r.streams == []
    ensures SpaceFor(r, 0) == HEADER_SIZE && AllRaw(r.streams)
  {
  }

  lemma SpaceStep(r: Run, i: u32)
    requires Admissible(r) && i < ChunkCount(r)
    ensures SpaceFor(r, i + 1) == SpaceFor(r, i) + CHUNK_HEADER_SIZE + PlainSize(r, i)
  {
    ChunkStep(|r.plain|, r.opts.chunkSize, i);
  }

  lemma SameSpace(r: Run, r': Run, i: u32)
    requires r.plain == r'.plain && r.opts == r'.opts
    ensures SpaceFor(r, i) == SpaceFor(r', i)
  {
  }

  lemma AllRawSnoc(streams: seq<Option<Bytes>>, last: Option<Bytes>)
    ensures AllRaw(streams + [last]) <==> AllRaw(streams) && last == None
  {
    if AllRaw(streams + [last]) {
      assert (streams + [last])[|streams|] == last;
      forall i | 0 <= i < |streams| ensures streams[i] == None {
        assert streams[i] == (streams + [last])[i];
      }
    }
  }

  /** Before chunk i is written the file is no longer than the header, i records
      and the plaintext covered so far; exactly that while nothing has shrunk. */
  lemma {:induction false} FileSizeSoFar(p: Suite, r: Run)
    requires Lawful(p) && ValidRun(p, r)
    ensures |FileOf(p, r)| <= SpaceFor(r, |r.streams|)
    ensures AllRaw(r.streams) <==> |FileOf(p, r)| == SpaceFor(r, |r.streams|)
    decreases |r.streams|
  {
    hide Lawful, StreamOk, HeaderBytes, ChunkOf, SealOf, SpaceFor, AllRaw;
    var n := |r.streams|;
    if n == 0 {
      assert ChunksOf(p, r) == [];
      NothingWritten(r);
    } else {
      var front := LastChunk(p, r);
      FileSizeSoFar(p, front);
      PayloadFits(p, r, n - 1);
      SpaceStep(r, n - 1);
      AllRawSnoc(front.streams, r.streams[n - 1]);
      assert r.streams == front.streams + [r.streams[n - 1]];
      assert SpaceFor(front, n - 1) == SpaceFor(r, n - 1) by { SameSpace(r, front, n - 1); }
    }
  }

  /** A finished file is at most the worst case EncryptBuffer allocates, is that
      long exactly when no chunk shrank, and is one this build will read. */
  lemma FileSizeBound(p: Suite, r: Run)
    requires Lawful(p) && Complete(p, r)
    ensures |FileOf(p, r)| <= HEADER_SIZE + CHUNK_HEADER_SIZE * ChunkCount(r) + |r.plain|
    ensures |FileOf(p, r)| == HEADER_SIZE + CHUNK_HEADER_SIZE * ChunkCount(r) + |r.plain|
       <==> AllRaw(r.streams)
    ensures |FileOf(p, r)| <= MAX_FILE_SIZE
  {
    FileSizeSoFar(p, r);
    ChunkCountExact(|r.plain|, r.opts.chunkSize);
    ChunkStep(|r.plain|, r.opts.chunkSize, ChunkCount(r) - 1);
  }

  /** No two seals of one encryption share a nonce, and no two of them share
      their associated data. */
  lemma NoncesDistinct(p: Suite, r: Run, i: u32, j: u32)
    requires ValidRun(p, r) && i < j < |r.streams|
    ensures LogOf(p, r)[i].nonce != LogOf(p, r)[j].nonce
    ensures LogOf(p, r)[i].aad != LogOf(p, r)[j].aad
  {
    PayloadFits(p, r, i);
    PayloadFits(p, r, j);
    if LogOf(p, r)[i].nonce == LogOf(p, r)[j].nonce {
      NonceInjective(r.noncePrefix, i, r.noncePrefix, j);
    }
    if LogOf(p, r)[i].aad == LogOf(p, r)[j].aad {
      var hb := HeaderBytes(HeaderOf(r));
      AadInjective(hb, i, RecordOf(r, i), hb, j, RecordOf(r, j));
    }
  }

  // ---- A small run, to try things on ----

  /** Three equal bytes, deflated to one. */
  function SmallRun(): Run {
    Run(Zeros(MIN_KEY_SIZE), Options(COMPRESS_ZLIB, MIN_CHUNK_SIZE, MIN_KDF_LOG_N, MIN_KDF_R, MIN_KDF_P), [7, 7, 7],
        Zeros(SALT_SIZE), Zeros(NONCE_PREFIX_SIZE), [Some([7])])
  }

  lemma SmallRunAdmissible()
    ensures Admissible(SmallRun()) && ChunkCount(SmallRun()) == 1 && PlainChunk(SmallRun(), 0) == [7, 7, 7]
  {
    Pow2Bound(MIN_KDF_LOG_N);
    KdfMemoryExact(MIN_KDF_LOG_N, MIN_KDF_R);
  }
}
