/** What decrypting means, and the theorems about it: round trip, authenticity
    of the whole file, and the unreachability of MC_ERR_COMPRESS. */
module Decoding {
  import opened Wire
  import opened Format
  import opened Primitives
  import opened Container
  import opened Runs

  /** OpenChunk: authenticate, then inflate when the record says so. */
  function OpenChunk(p: Suite, log: seq<SealRecord>, derived: Bytes, hb: Bytes, h: FileHeader, index: u32, c: Chunk)
    : Result<Bytes>
    requires |hb| == HEADER_SIZE
  {
    match Opens(p, log, derived, Nonce(h.noncePrefix, index), Aad(hb, index, c.header), Sealed(c.ciphertext, c.tag))
    case None => Err(AUTH)
    case Some(payload) =>
      if !c.header.Compressed() then Ok(payload)
      else
        match p.inflate(payload, ChunkPlainSize(h.plaintextSize, h.chunkSize, index))
        case None => Err(Status.COMPRESS)
        case Some(plain) => Ok(plain)
  }

  /** The chunks from `index` on, in order; the first failure is the answer. */
  function OpenAll(p: Suite, log: seq<SealRecord>, derived: Bytes, hb: Bytes, h: FileHeader, index: u32, chunks: seq<Chunk>)
    : Result<Bytes>
    requires |hb| == HEADER_SIZE && index + |chunks| < U32_RANGE
    decreases |chunks|
  {
    if chunks == [] then Ok([])
    else
      var first :- OpenChunk(p, log, derived, hb, h, index, chunks[0]);
      var rest :- OpenAll(p, log, derived, hb, h, index + 1, chunks[1..]);
      Ok(first + rest)
  }

  function KeyFor(p: Suite, key: Bytes, h: FileHeader): Bytes {
    p.scrypt(key, h.salt, h.kdfLogN, h.kdfR, h.kdfP)
  }

  lemma ParsedCount(s: Bytes, h: FileHeader, chunks: seq<Chunk>)
    requires ParseFile(s) == Ok((h, chunks))
    ensures |s| >= HEADER_SIZE && s[..HEADER_SIZE] == HeaderBytes(h)
    ensures 1 <= |chunks| == h.chunkCount
  {
    ParseFileExact(s, h, chunks);
    assert s[..HEADER_SIZE] == HeaderBytes(h);
  }

  /** DecryptBuffer, when nothing in the machine fails. */
  function Decrypt(p: Suite, log: seq<SealRecord>, key: Bytes, s: Bytes): Result<Bytes> {
    if |key| < MIN_KEY_SIZE then Err(INVALID_ARG)
    else
      var (h, chunks) :- ParseFile(s);
      ParsedCount(s, h, chunks);
      OpenAll(p, log, KeyFor(p, key, h), s[..HEADER_SIZE], h, 0, chunks)
  }

  // ---- The chunks of a run are structurally fit ----

  lemma HeaderOfAcceptable(r: Run)
    requires Admissible(r)
    ensures Acceptable(HeaderOf(r))
  {
    hide KdfMemory, Pow2, ChunkCountFor, CountCovers;
    KdfMemoryExact(r.opts.kdfLogN, r.opts.kdfR);
    ChunkCountExact(|r.plain|, r.opts.chunkSize);
  }

  lemma ChunkOfOk(p: Suite, r: Run, i: u32)
    requires Lawful(p) && ValidRun(p, r) && i < |r.streams|
    ensures ChunkOk(HeaderOf(r), i, ChunkOf(p, r, i))
  {
    hide HeaderBytes, Aad, Nonce, Lawful, StreamOk, MaxStoredSizeFor, ChunkPlainSize, ChunkCountFor, KdfMemory, SealOf;
    PayloadFits(p, r, i);
    SealedSize(p, r, i);
    RawFitsStoredLimit(r.opts.chunkSize);
  }

  lemma RawFitsStoredLimit(chunkSize: u32)
    requires chunkSize <= MAX_CHUNK_SIZE
    ensures chunkSize <= MaxStoredSizeFor(chunkSize)
  {
  }

  lemma SealedSize(p: Suite, r: Run, i: u32)
    requires Lawful(p) && ValidRun(p, r) && i < |r.streams|
    ensures |ChunkOf(p, r, i).ciphertext| == |Payload(r, i)|
    ensures r.streams[i].Some? ==> r.opts.compression == COMPRESS_ZLIB && r.streams[i].value != []
  {
    hide HeaderBytes, Aad, Nonce;
    assert StreamOk(p, r, i);
  }

  /** What EncryptBuffer writes is what the walk takes apart again. */
  lemma FileParses(p: Suite, r: Run)
    requires Lawful(p) && Complete(p, r)
    ensures ParseFile(FileOf(p, r)) == Ok((HeaderOf(r), ChunksOf(p, r)))
  {
    HeaderOfAcceptable(r);
    forall j | 0 <= j < |ChunksOf(p, r)| ensures ChunkOk(HeaderOf(r), 0 + j, ChunksOf(p, r)[j]) {
      ChunkOfOk(p, r, j);
    }
    ParseFileExact(FileOf(p, r), HeaderOf(r), ChunksOf(p, r));
  }

  // ---- Round trip ----

  /** Opening chunk i of a run gives back the plaintext of chunk i, whether it
      was stored raw or deflated. */
  lemma OpenOwnChunk(p: Suite, log: seq<SealRecord>, r: Run, i: u32)
    requires Lawful(p) && ValidRun(p, r) && i < |r.streams|
    requires SealOf(p, r, i) in log
    ensures OpenChunk(p, log, DerivedKey(p, r), HeaderBytes(HeaderOf(r)), HeaderOf(r), i, ChunkOf(p, r, i))
         == Ok(PlainChunk(r, i))
  {
    PayloadFits(p, r, i);
    assert StreamOk(p, r, i);
    var rec, c := SealOf(p, r, i), ChunkOf(p, r, i);
    OpensExactlySealed(p, log, rec.key, rec.nonce, rec.aad, Sealed(c.ciphertext, c.tag), rec.payload);
  }

  lemma OpenAllStep(p: Suite, log: seq<SealRecord>, derived: Bytes, hb: Bytes, h: FileHeader, index: u32, chunks: seq<Chunk>,
                    first: Bytes, rest: Bytes)
    requires |hb| == HEADER_SIZE && index + |chunks| < U32_RANGE && chunks != []
    requires OpenChunk(p, log, derived, hb, h, index, chunks[0]) == Ok(first)
    requires OpenAll(p, log, derived, hb, h, index + 1, chunks[1..]) == Ok(rest)
    ensures OpenAll(p, log, derived, hb, h, index, chunks) == Ok(first + rest)
  {
    hide OpenChunk;
  }

  /** The plaintext from chunk i on. */
  function PlainFrom(r: Run, i: u32): Bytes
    requires Admissible(r)
  {
    r.plain[ChunkStart(|r.plain|, r.opts.chunkSize, i)..]
  }

  lemma {:induction false} OpenOwnChunks(p: Suite, log: seq<SealRecord>, r: Run, i: u32)
    requires Lawful(p) && Complete(p, r) && i <= |r.streams|
    requires forall j: u32 | j < |r.streams| :: SealOf(p, r, j) in log
    ensures OpenAll(p, log, DerivedKey(p, r), HeaderBytes(HeaderOf(r)), HeaderOf(r), i, ChunksOf(p, r)[i..]) == Ok(PlainFrom(r, i))
    decreases |r.streams| - i
  {
    hide HeaderBytes, HeaderOf, SealOf, ChunkOf, OpenChunk, PlainChunk, PlainFrom, Lawful, StreamOk, ChunkCountFor, ChunkPlainSize,
         ChunkStart, ValidateOptions;
    var chunks := ChunksOf(p, r);
    if i < |r.streams| {
      OpenOwnChunk(p, log, r, i);
      OpenOwnChunks(p, log, r, i + 1);
      assert chunks[i..][0] == ChunkOf(p, r, i) && chunks[i..][1..] == chunks[i + 1..];
      OpenAllStep(p, log, DerivedKey(p, r), HeaderBytes(HeaderOf(r)), HeaderOf(r), i, chunks[i..],
                  PlainChunk(r, i), PlainFrom(r, i + 1));
      TailSplits(r, i);
    } else {
      NothingAfterLast(r);
      assert chunks[i..] == [];
    }
  }

  lemma NothingAfterLast(r: Run)
    requires Admissible(r)
    ensures PlainFrom(r, ChunkCount(r)) == []
  {
    ChunkCountExact(|r.plain|, r.opts.chunkSize);
    ChunkStep(|r.plain|, r.opts.chunkSize, ChunkCount(r) - 1);
  }

  lemma TailSplits(r: Run, i: u32)
    requires Admissible(r) && i < ChunkCount(r)
    ensures PlainFrom(r, i) == PlainChunk(r, i) + PlainFrom(r, i + 1)
  {
    ChunkStep(|r.plain|, r.opts.chunkSize, i);
  }

  /** Round trip: for every suite, key, admissible input and every choice of
      what to compress, the finished file decrypts to the plaintext. */
  lemma RoundTrip(p: Suite, log: seq<SealRecord>, r: Run, key: Bytes)
    requires Lawful(p) && Complete(p, r)
    requires forall j: u32 | j < |r.streams| :: SealOf(p, r, j) in log
    requires |key| >= MIN_KEY_SIZE && KeyFor(p, key, HeaderOf(r)) == DerivedKey(p, r)
    ensures Decrypt(p, log, key, FileOf(p, r)) == Ok(r.plain)
  {
    FileParses(p, r);
    OpenOwnChunks(p, log, r, 0);
    assert ChunksOf(p, r)[0..] == ChunksOf(p, r);
    assert FileOf(p, r)[..HEADER_SIZE] == HeaderBytes(HeaderOf(r));
    assert PlainFrom(r, 0) == r.plain;
  }

  // ---- Authenticity ----

  /** Everything in the log was sealed by one of the runs, finished or not. */
  ghost predicate LogFrom(p: Suite, log: seq<SealRecord>, runs: seq<Run>) {
    && (forall r | r in runs :: ValidRun(p, r))
    && (forall rec | rec in log :: exists r, i: u32 :: r in runs && SealedBy(p, r, i, rec))
    && (forall r | r in runs :: forall rec | rec in LogOf(p, r) :: rec in log)
  }

  ghost predicate SealedBy(p: Suite, r: Run, i: u32, rec: SealRecord) {
    ValidRun(p, r) && i < |r.streams| && rec == SealOf(p, r, i)
  }

  /** Fresh salt and nonce prefix make every run's header its own. */
  ghost predicate DistinctHeaders(runs: seq<Run>)
    requires forall r | r in runs :: Admissible(r)
  {
    forall r, r' | r in runs && r' in runs && HeaderBytes(HeaderOf(r)) == HeaderBytes(HeaderOf(r')) :: r == r'
  }

  /** It is enough that no two runs drew both the same salt and the same nonce prefix. */
  lemma FreshDrawsGiveDistinctHeaders(runs: seq<Run>)
    requires forall r | r in runs :: Admissible(r)
    requires forall r, r' | r in runs && r' in runs && r.salt == r'.salt && r.noncePrefix == r'.noncePrefix :: r == r'
    ensures DistinctHeaders(runs)
  {
    forall r, r' | r in runs && r' in runs && HeaderBytes(HeaderOf(r)) == HeaderBytes(HeaderOf(r')) ensures r == r' {
      HeaderBytesInjective(HeaderOf(r), HeaderOf(r'));
    }
  }

  /** One more run extends the log it leaves behind. */
  lemma LogGrows(p: Suite, log: seq<SealRecord>, runs: seq<Run>, r: Run)
    requires LogFrom(p, log, runs) && ValidRun(p, r)
    ensures LogFrom(p, log + LogOf(p, r), runs + [r])
  {
    forall rec | rec in log + LogOf(p, r) ensures exists q, i: u32 :: q in runs + [r] && SealedBy(p, q, i, rec) {
      if rec in log {
        var q, i: u32 :| q in runs && SealedBy(p, q, i, rec);
        assert q in runs + [r];
      } else {
        var i :| 0 <= i < |LogOf(p, r)| && LogOf(p, r)[i] == rec;
        assert r in runs + [r] && SealedBy(p, r, i, rec);
      }
    }
  }

  lemma EmptyLog(p: Suite)
    ensures LogFrom(p, [], [])
  {
  }

  /** A chunk that opens under these header bytes at this position is, bytes and
      all, the chunk some run with that header sealed there. */
  lemma OpenedChunkIsSealed(
    p: Suite, log: seq<SealRecord>, runs: seq<Run>, derived: Bytes, hb: Bytes, h: FileHeader, index: u32, c: Chunk)
    returns (r: Run)
    requires Lawful(p) && LogFrom(p, log, runs) && |hb| == HEADER_SIZE
    requires OpenChunk(p, log, derived, hb, h, index, c) != Err(AUTH)
    ensures r in runs && HeaderBytes(HeaderOf(r)) == hb && derived == DerivedKey(p, r)
    ensures index < |r.streams| && c == ChunkOf(p, r, index) && SealOf(p, r, index) in log
  {
    var nonce, aad := Nonce(h.noncePrefix, index), Aad(hb, index, c.header);
    var payload := Opens(p, log, derived, nonce, aad, Sealed(c.ciphertext, c.tag)).value;
    OpensExactlySealed(p, log, derived, nonce, aad, Sealed(c.ciphertext, c.tag), payload);
    var rec := SealRecord(derived, nonce, aad, payload);
    var i: u32;
    r, i :| r in runs && SealedBy(p, r, i, rec);
    PayloadFits(p, r, i);
    AadInjective(hb, index, c.header, HeaderBytes(HeaderOf(r)), i, RecordOf(r, i));
  }

  /** All chunks of an accepted file come from the one run with its header,
      in their order. */
  lemma {:induction false} OpenedChunksAreSealed(
    p: Suite, log: seq<SealRecord>, runs: seq<Run>, r: Run, derived: Bytes, h: FileHeader, index: u32, chunks: seq<Chunk>)
    requires Lawful(p) && LogFrom(p, log, runs) && DistinctHeaders(runs) && r in runs
    requires index + |chunks| < U32_RANGE
    requires OpenAll(p, log, derived, HeaderBytes(HeaderOf(r)), h, index, chunks).Ok?
    ensures chunks != [] ==> index + |chunks| <= |r.streams| && chunks == ChunksOf(p, r)[index..index + |chunks|]
    decreases |chunks|
  {
    hide HeaderBytes, Aad, Nonce, ChunkPlainSize, OpenChunk, SealOf, ChunkOf, Lawful, MakeHeader;
    if chunks != [] {
      var r' := OpenedChunkIsSealed(p, log, runs, derived, HeaderBytes(HeaderOf(r)), h, index, chunks[0]);
      assert r' == r;
      OpenedChunksAreSealed(p, log, runs, r, derived, h, index + 1, chunks[1..]);
      assert chunks == [chunks[0]] + chunks[1..];
      assert ChunksOf(p, r)[index] == ChunkOf(p, r, index);
    }
  }

  lemma AcceptedChunks(p: Suite, log: seq<SealRecord>, runs: seq<Run>, derived: Bytes, h: FileHeader, chunks: seq<Chunk>)
    returns (r: Run)
    requires Lawful(p) && LogFrom(p, log, runs) && DistinctHeaders(runs)
    requires 1 <= |chunks| == h.chunkCount
    requires OpenAll(p, log, derived, HeaderBytes(h), h, 0, chunks).Ok?
    ensures r in runs && Complete(p, r) && HeaderOf(r) == h && derived == DerivedKey(p, r)
    ensures chunks == ChunksOf(p, r)
  {
    hide HeaderBytes, Aad, Nonce, ChunkPlainSize, OpenChunk, SealOf, ChunkOf, Lawful;
    r := OpenedChunkIsSealed(p, log, runs, derived, HeaderBytes(h), h, 0, chunks[0]);
    HeaderBytesInjective(h, HeaderOf(r));
    OpenedChunksAreSealed(p, log, runs, r, derived, h, 0, chunks);
    assert |r.streams| <= ChunkCount(r) == h.chunkCount;
    assert ChunksOf(p, r)[0..0 + |chunks|] == ChunksOf(p, r);
  }

  /** Authenticity of the whole file: whatever decrypts is, byte for byte, a
      file one of the runs finished, and yields that run's plaintext. */
  lemma AcceptedIsWritten(p: Suite, log: seq<SealRecord>, runs: seq<Run>, key: Bytes, s: Bytes)
    returns (r: Run)
    requires Lawful(p) && LogFrom(p, log, runs) && DistinctHeaders(runs)
    requires Decrypt(p, log, key, s).Ok?
    ensures r in runs && FileFor(p, r, key, s)
    ensures Decrypt(p, log, key, s) == Ok(r.plain)
  {
    var (h, chunks) := ParseFile(s).value;
    ParsedCount(s, h, chunks);
    ParseFileExact(s, h, chunks);
    r := AcceptedChunks(p, log, runs, KeyFor(p, key, h), h, chunks);
    assert s == FileOf(p, r);
    RunIsLogged(p, log, runs, r);
    RoundTrip(p, log, r, key);
  }

  lemma RunIsLogged(p: Suite, log: seq<SealRecord>, runs: seq<Run>, r: Run)
    requires LogFrom(p, log, runs) && r in runs
    ensures forall j: u32 | j < |r.streams| :: SealOf(p, r, j) in log
  {
    forall j: u32 | j < |r.streams| ensures SealOf(p, r, j) in log {
      assert LogOf(p, r)[j] in LogOf(p, r);
    }
  }

  /** `s` is the file this run finished, and `key` derives its cipher key. */
  ghost predicate FileFor(p: Suite, r: Run, key: Bytes, s: Bytes) {
    Complete(p, r) && s == FileOf(p, r) && KeyFor(p, key, HeaderOf(r)) == DerivedKey(p, r)
  }

  /** Decryption succeeds on exactly the finished files, under a key that
      derives the same cipher key, and returns exactly their plaintext. */
  lemma AcceptsExactlyWrittenFiles(p: Suite, log: seq<SealRecord>, runs: seq<Run>, key: Bytes, s: Bytes, plain: Bytes)
    requires Lawful(p) && LogFrom(p, log, runs) && DistinctHeaders(runs)
    ensures Decrypt(p, log, key, s) == Ok(plain)
      <==> |key| >= MIN_KEY_SIZE && exists r :: r in runs && FileFor(p, r, key, s) && r.plain == plain
  {
    if Decrypt(p, log, key, s) == Ok(plain) {
      var r := AcceptedIsWritten(p, log, runs, key, s);
      assert r in runs && FileFor(p, r, key, s) && r.plain == plain;
    }
    if |key| >= MIN_KEY_SIZE && exists r :: r in runs && FileFor(p, r, key, s) && r.plain == plain {
      var r :| r in runs && FileFor(p, r, key, s) && r.plain == plain;
      RunIsLogged(p, log, runs, r);
      RoundTrip(p, log, r, key);
    }
  }

  // ---- MC_ERR_COMPRESS ----

  /** A chunk is refused by the AEAD or yields plaintext: what authenticates inflates. */
  lemma OpenedChunkInflates(
    p: Suite, log: seq<SealRecord>, runs: seq<Run>, derived: Bytes, h: FileHeader, index: u32, c: Chunk)
    requires Lawful(p) && LogFrom(p, log, runs)
    ensures var r := OpenChunk(p, log, derived, HeaderBytes(h), h, index, c); r.Ok? || r == Err(AUTH)
  {
    if OpenChunk(p, log, derived, HeaderBytes(h), h, index, c) != Err(AUTH) {
      var r := OpenedChunkIsSealed(p, log, runs, derived, HeaderBytes(h), h, index, c);
      HeaderBytesInjective(h, HeaderOf(r));
      OpenOwnChunk(p, log, r, index);
    }
  }

  lemma {:induction false} OpenAllErrors(
    p: Suite, log: seq<SealRecord>, runs: seq<Run>, derived: Bytes, h: FileHeader, index: u32, chunks: seq<Chunk>)
    requires Lawful(p) && LogFrom(p, log, runs) && index + |chunks| < U32_RANGE
    ensures var r := OpenAll(p, log, derived, HeaderBytes(h), h, index, chunks); r.Ok? || r == Err(AUTH)
    decreases |chunks|
  {
    if chunks != [] {
      OpenedChunkInflates(p, log, runs, derived, h, index, chunks[0]);
      OpenAllErrors(p, log, runs, derived, h, index + 1, chunks[1..]);
    }
  }

  /** No input whatever, under any key, reaches MC_ERR_COMPRESS: the statuses of
      a decryption in which no primitive fails are these. */
  lemma CompressUnreachable(p: Suite, log: seq<SealRecord>, runs: seq<Run>, key: Bytes, s: Bytes)
    requires Lawful(p) && LogFrom(p, log, runs)
    ensures Decrypt(p, log, key, s).Err? ==>
      Decrypt(p, log, key, s).status in {INVALID_ARG, FORMAT, UNSUPPORTED, TOO_LARGE, AUTH}
  {
    match ParseFile(s) {
      case Ok((h, chunks)) =>
        ParsedCount(s, h, chunks);
        OpenAllErrors(p, log, runs, KeyFor(p, key, h), h, 0, chunks);
      case Err(_) =>
        ParseErrors(s);
    }
  }

  lemma ParseErrors(s: Bytes)
    requires ParseFile(s).Err?
    ensures ParseFile(s).status in {FORMAT, UNSUPPORTED, TOO_LARGE}
  {
    if ParseHeader(s).Ok? {
      SizeCheckIsImplied(s, ParseHeader(s).value);
      WalkErrorsAreFormat(s[HEADER_SIZE..], ParseHeader(s).value, 0);
    }
  }

  /** Whatever was or was not sealed: opening chunks fails with these two only. */
  lemma {:induction false} OpenAllStatuses(
    p: Suite, log: seq<SealRecord>, derived: Bytes, hb: Bytes, h: FileHeader, index: u32, chunks: seq<Chunk>)
    requires |hb| == HEADER_SIZE && index + |chunks| < U32_RANGE
    ensures var r := OpenAll(p, log, derived, hb, h, index, chunks);
      r.Ok? || r.status == AUTH || r.status == Status.COMPRESS
    decreases |chunks|
  {
    hide Opens, Nonce, Aad, ChunkPlainSize;
    if chunks != [] {
      OpenAllStatuses(p, log, derived, hb, h, index + 1, chunks[1..]);
    }
  }

  /** Past the key check and the header only these statuses are left. */
  lemma DecryptStatuses(p: Suite, log: seq<SealRecord>, key: Bytes, s: Bytes)
    requires |key| >= MIN_KEY_SIZE && ParseHeader(s).Ok? && Decrypt(p, log, key, s).Err?
    ensures Decrypt(p, log, key, s).status in {FORMAT, AUTH, Status.COMPRESS}
  {
    hide ParseHeader, OpenAll;
    match ParseFile(s) {
      case Ok((h, chunks)) =>
        ParsedCount(s, h, chunks);
        OpenAllStatuses(p, log, KeyFor(p, key, h), s[..HEADER_SIZE], h, 0, chunks);
      case Err(_) =>
        var h := ParseHeader(s).value;
        ParseHeaderExact(s, h);
        SizeCheckIsImplied(s, h);
        WalkErrorsAreFormat(s[HEADER_SIZE..], h, 0);
    }
  }

  // ---- The hypotheses hold together ----

  lemma SmallRunComplete()
    ensures Lawful(ToySuite()) && Complete(ToySuite(), SmallRun())
  {
    hide HeaderBytes, Lawful, ChunkCountFor, ChunkPlainSize, KdfMemory, PlainChunk;
    SmallRunAdmissible();
    ToySuiteLawful();
    assert [7, 7, 7] == Repeat(7, 3);
    assert StreamOk(ToySuite(), SmallRun(), 0);
  }

  /** Lawful suite, complete run, a log it accounts for, distinct headers: all at
      once, for a run that deflates its one chunk. */
  lemma HypothesesAreMet()
    ensures var p, r := ToySuite(), SmallRun();
      && Lawful(p) && Complete(p, r)
      && LogFrom(p, LogOf(p, r), [r]) && DistinctHeaders([r])
      && Decrypt(p, LogOf(p, r), r.key, FileOf(p, r)) == Ok([7, 7, 7])
  {
    hide HeaderBytes, Lawful, ValidateOptions, ParseFile, OpenAll, SealOf, FileOf, StreamOk, ToySuite, ChunkCountFor;
    var p, r := ToySuite(), SmallRun();
    SmallRunComplete();
    EmptyLog(p);
    LogGrows(p, [], [], r);
    assert [] + LogOf(p, r) == LogOf(p, r) && [] + [r] == [r];
    RunIsLogged(p, LogOf(p, r), [r], r);
    RoundTrip(p, LogOf(p, r), r, r.key);
  }
}
