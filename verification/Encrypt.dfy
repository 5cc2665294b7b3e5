/** src/crypt/encrypt.cc: assembling a file in a buffer sized for the worst case. */
module Encrypt {
  import opened Wire
  import opened Format
  import opened Memory
  import opened Primitives
  import opened Container
  import opened Runs

  const SHRINK_THRESHOLD := 0x10_0000

  /** The size every chunk stored raw would need. */
  function WorstCase(plainSize: nat, count: nat): nat {
    HEADER_SIZE + count * CHUNK_HEADER_SIZE + plainSize
  }

  /** The bytes of `input` from `off` on; the pointer may be null when there are none. */
  ghost function Slice(input: array?<byte>, off: nat, size: nat): Bytes
    reads input
    requires input != null ==> off + size <= input.Length
    requires input == null ==> size == 0
  {
    if input == null then [] else input[off..off + size]
  }

  /** Compression is decided before the seal: deflate when asked to, and keep
      the stream only if it is strictly smaller. */
  method ChoosePayload(suite: Suite, m: Machine, input: array?<byte>, off: nat, size: u32, wantCompression: bool,
                       scratch: array?<byte>)
    returns (rc: Status, chunk: ChunkHeader, inScratch: bool, ghost stream: Option<Bytes>)
    requires Lawful(suite)
    requires input != null ==> off + size <= input.Length
    requires input == null ==> size == 0
    requires input != scratch || input == null
    requires wantCompression ==> scratch != null
    requires size <= UINT32_MAX && (scratch != null ==> scratch.Length <= UINT32_MAX)
    modifies m`trace, scratch
    ensures rc == OK || rc == MEMORY || rc == Status.COMPRESS
    ensures rc == MEMORY ==> Blamed(m.trace, MEMORY)
    ensures rc != MEMORY ==> m.trace == old(m.trace)
    ensures rc != MEMORY ==>
      (rc == Status.COMPRESS
       <==> wantCompression && size > 0 && suite.deflate(Slice(input, off, size), scratch.Length) == Broken)
    ensures rc == OK ==>
      stream == Kept(suite, wantCompression, Slice(input, off, size), if scratch == null then 0 else scratch.Length)
    ensures rc == OK ==>
      (stream.Some?
       <==> && wantCompression && size > 0
            && var answer := suite.deflate(Slice(input, off, size), scratch.Length);
               answer.Stream? && |answer.bytes| < size)
    ensures rc == OK && stream.Some? ==>
      var answer := suite.deflate(Slice(input, off, size), scratch.Length);
      answer.Stream? && stream.value == answer.bytes
    ensures rc == OK ==>
      match stream
      case None => !inScratch && chunk == ChunkHeader(size, 0)
      case Some(s) =>
        && |s| < size && wantCompression && inScratch && chunk == ChunkHeader(|s|, FLAG_COMPRESSED)
        && |s| <= scratch.Length && scratch[..|s|] == s
        && suite.inflate(s, size) == Some(Slice(input, off, size))
  {
    inScratch, stream, chunk := false, None, ChunkHeader(0, 0);
    if wantCompression && size > 0 {
      var produced, smaller;
      rc, produced, smaller := CompressChunk(suite, m, input, off, size, scratch);
      if rc != OK {
        return;
      }
      if smaller {
        chunk := ChunkHeader(produced, chunk.flags + FLAG_COMPRESSED);
        inScratch, stream := true, Some(scratch[..produced]);
      } else {
        chunk := ChunkHeader(size, 0);
      }
    } else {
      chunk := ChunkHeader(size, 0);
    }
    rc := OK;
  }

  /** The room check of the loop never fires: whatever was sealed so far, the
      worst case leaves space for the next record and payload. */
  lemma RoomForChunk(p: Suite, r: Run, r': Run)
    requires Lawful(p) && ValidRun(p, r) && ValidRun(p, r')
    requires |r'.streams| == |r.streams| + 1 && r == r'.(streams := r'.streams[..|r.streams|])
    ensures |FileOf(p, r)| + CHUNK_HEADER_SIZE + |Payload(r', |r.streams|)| <= WorstCase(|r.plain|, ChunkCount(r))
  {
    var front := LastChunk(p, r');
    FileSizeSoFar(p, r');
  }

  lemma ChunkInside(r: Run, i: u32)
    requires Admissible(r) && i < ChunkCount(r)
    ensures i * r.opts.chunkSize + PlainSize(r, i) <= |r.plain|
    ensures PlainSize(r, i) <= r.opts.chunkSize
    ensures PlainSize(r, i) == ChunkPlainSize(|r.plain|, r.opts.chunkSize, i)
  {
    ChunkStep(|r.plain|, r.opts.chunkSize, i);
  }

  /** Everything that stays put while the chunks are sealed. */
  ghost predicate Sealing(aead: Aead, run: Run, input: array?<byte>, headerBytes: array<byte>, derived: array<byte>,
                          file: array<byte>)
    reads input, headerBytes, derived
  {
    && Lawful(aead.suite)
    && ValidRun(aead.suite, run)
    && (input == null ==> run.plain == []) && (input != null ==> run.plain == input[..])
    && headerBytes.Length == HEADER_SIZE && headerBytes[..] == HeaderBytes(HeaderOf(run))
    && derived[..] == DerivedKey(aead.suite, run)
    && file.Length == WorstCase(|run.plain|, ChunkCount(run))
    && file != input && file != headerBytes && file != derived
  }

  /** Seal one payload into the file: ciphertext first, then the record with the tag before it. */
  method SealPayload(aead: Aead, m: Machine, headerBytes: array<byte>, derived: array<byte>, noncePrefix: NoncePrefix,
                     index: u32, chunk: ChunkHeader, payload: array?<byte>, payloadOff: nat, file: array<byte>, writeOffset: nat)
    returns (rc: Status)
    requires Lawful(aead.suite) && headerBytes.Length == HEADER_SIZE
    requires chunk.storedSize <= INT32_MAX
    requires payload == null ==> chunk.storedSize == 0
    requires payload != null ==> payloadOff + chunk.storedSize <= payload.Length
    requires writeOffset + CHUNK_HEADER_SIZE + chunk.storedSize <= file.Length
    requires file != headerBytes && file != derived && file != payload
    modifies aead`log, m`trace, file
    ensures rc == OK || rc == CRYPTO
    ensures rc == CRYPTO ==> Blamed(m.trace, CRYPTO) && aead.log == old(aead.log)
    ensures rc == OK ==>
      var bytes := old(Slice(payload, payloadOff, chunk.storedSize));
      var rec := SealRecord(derived[..], Nonce(noncePrefix, index), Aad(headerBytes[..], index, chunk), bytes);
      var sealed := aead.suite.seal(rec.key, rec.nonce, rec.aad, rec.payload);
      && m.trace == old(m.trace)
      && aead.log == old(aead.log) + [rec]
      && IsNonce(rec.nonce, noncePrefix, index)
      && |sealed.ciphertext| == chunk.storedSize
      && Wire.Wrote(old(file[..]), file[..], writeOffset, ChunkBytes(Chunk(chunk, sealed.tag, sealed.ciphertext)))
  {
    hide Lawful, Aad, Nonce, RecordBytes, IsNonce;
    var aad, nonce := BindChunk(headerBytes, noncePrefix, index, chunk);
    assert headerBytes[..HEADER_SIZE] == headerBytes[..];
    var tag := new byte[TAG_SIZE](_ => 0);
    ghost var before, bytes := file[..], Slice(payload, payloadOff, chunk.storedSize);
    ghost var sealed := aead.suite.seal(derived[..], nonce[..], aad[..], bytes);
    rc := aead.Seal(m, derived, nonce, aad, payload, payloadOff, chunk.storedSize, file, writeOffset + CHUNK_HEADER_SIZE, tag);
    if rc != OK {
      return;
    }
    ghost var middle := file[..];
    SerializeChunkHeader(chunk, tag[..], file, writeOffset);
    WroteBackToBack(before, middle, file[..], writeOffset, RecordBytes(chunk, sealed.tag), sealed.ciphertext);
  }

  /** Writing the second part and then the first, right before it, writes both. */
  lemma WroteBackToBack(before: Bytes, middle: Bytes, after: Bytes, off: nat, first: Bytes, second: Bytes)
    requires Wire.Wrote(before, middle, off + |first|, second)
    requires Wire.Wrote(middle, after, off, first)
    ensures Wire.Wrote(before, after, off, first + second)
  {
    var mid, end := off + |first|, off + |first| + |second|;
    assert after[..off] == middle[..off] == middle[..mid][..off] == before[..mid][..off] == before[..off];
    assert after[mid..end] == after[mid..][..|second|] == middle[mid..][..|second|] == middle[mid..end];
    assert after[end..] == after[mid..][|second|..] == middle[mid..][|second|..] == middle[end..];
    Cut(after, off, mid, end);
  }

  lemma SealedAs(p: Suite, r: Run, i: u32, rec: SealRecord, sealed: Sealed)
    requires ValidRun(p, r) && i < |r.streams| && |Payload(r, i)| < U32_RANGE
    requires rec == SealRecord(DerivedKey(p, r), Nonce(r.noncePrefix, i),
                               Aad(HeaderBytes(HeaderOf(r)), i, RecordOf(r, i)), Payload(r, i))
    requires sealed == p.seal(rec.key, rec.nonce, rec.aad, rec.payload)
    ensures SealOf(p, r, i) == rec && ChunkOf(p, r, i) == Chunk(RecordOf(r, i), sealed.tag, sealed.ciphertext)
  {
    hide Nonce, Aad, HeaderBytes;
  }

  /** Sealing the payload of the next chunk turns the file of `run` into the file of `run'`. */
  method SealNext(aead: Aead, m: Machine, headerBytes: array<byte>, derived: array<byte>, noncePrefix: NoncePrefix,
                  index: u32, chunk: ChunkHeader, payload: array?<byte>, payloadOff: nat, file: array<byte>, writeOffset: nat,
                  ghost run: Run, ghost run': Run)
    returns (rc: Status)
    requires Lawful(aead.suite) && ValidRun(aead.suite, run) && ValidRun(aead.suite, run')
    requires run == run'.(streams := run.streams) && noncePrefix == run.noncePrefix
    requires index == |run.streams| == |run'.streams| - 1
    requires headerBytes.Length == HEADER_SIZE
    requires headerBytes[..] == HeaderBytes(HeaderOf(run)) && derived[..] == DerivedKey(aead.suite, run)
    requires |Payload(run', index)| <= INT32_MAX && chunk == RecordOf(run', index)
    requires payload == null ==> chunk.storedSize == 0
    requires payload != null ==> payloadOff + chunk.storedSize <= payload.Length
    requires Slice(payload, payloadOff, chunk.storedSize) == Payload(run', index)
    requires writeOffset + CHUNK_HEADER_SIZE + chunk.storedSize <= file.Length
    requires file != headerBytes && file != derived && file != payload
    modifies aead`log, m`trace, file
    ensures rc == OK || rc == CRYPTO
    ensures rc == CRYPTO ==> Blamed(m.trace, CRYPTO) && aead.log == old(aead.log)
    ensures rc == OK ==>
      && m.trace == old(m.trace)
      && aead.log == old(aead.log) + [SealOf(aead.suite, run', index)]
      && file[..writeOffset + CHUNK_HEADER_SIZE + chunk.storedSize]
         == old(file[..writeOffset]) + ChunkBytes(ChunkOf(aead.suite, run', index))
  {
    hide Lawful, Aad, Nonce, RecordBytes, HeaderBytes, SealOf, ChunkOf, StreamOk, ChunkBytes;
    ghost var before := file[..];
    rc := SealPayload(aead, m, headerBytes, derived, noncePrefix, index, chunk, payload, payloadOff, file, writeOffset);
    if rc != OK {
      return;
    }
    ghost var rec := SealRecord(derived[..], Nonce(noncePrefix, index), Aad(headerBytes[..], index, chunk), Payload(run', index));
    ghost var sealed := aead.suite.seal(rec.key, rec.nonce, rec.aad, rec.payload);
    SealedAs(aead.suite, run', index, rec, sealed);
    ghost var bytes := ChunkBytes(Chunk(chunk, sealed.tag, sealed.ciphertext));
    ChunkBytesSize(Chunk(chunk, sealed.tag, sealed.ciphertext));
    Extends(before, file[..], 0, writeOffset, bytes);
    assert file[0..writeOffset + |bytes|] == file[..writeOffset + |bytes|];
    assert before[0..writeOffset] == before[..writeOffset];
  }

  lemma ChunkBytesSize(c: Chunk)
    ensures |ChunkBytes(c)| == CHUNK_HEADER_SIZE + |c.ciphertext|
  {
  }

  lemma NextStream(p: Suite, r: Run, stream: Option<Bytes>)
    requires ValidRun(p, r) && |r.streams| < ChunkCount(r)
    requires stream.Some? ==>
      && r.opts.compression == COMPRESS_ZLIB && |stream.value| < PlainSize(r, |r.streams|)
      && p.inflate(stream.value, PlainSize(r, |r.streams|)) == Some(PlainChunk(r, |r.streams|))
    ensures var r' := r.(streams := r.streams + [stream]);
      && StreamOk(p, r', |r.streams|)
      && Payload(r', |r.streams|) == if stream.Some? then stream.value else PlainChunk(r, |r.streams|)
  {
    hide PlainChunk;
    SameChoice(p, r, r.(streams := r.streams + [stream]), |r.streams|);
  }

  /** The run that results from deciding how the next chunk is stored. */
  lemma NextChunk(p: Suite, r: Run, stream: Option<Bytes>) returns (r': Run)
    requires Lawful(p) && ValidRun(p, r) && |r.streams| < ChunkCount(r)
    requires stream.Some? ==>
      && r.opts.compression == COMPRESS_ZLIB && |stream.value| < PlainSize(r, |r.streams|)
      && p.inflate(stream.value, PlainSize(r, |r.streams|)) == Some(PlainChunk(r, |r.streams|))
    ensures r' == r.(streams := r.streams + [stream]) && ValidRun(p, r')
    ensures LogOf(p, r') == LogOf(p, r) + [SealOf(p, r', |r.streams|)]
    ensures FileOf(p, r') == FileOf(p, r) + ChunkBytes(ChunkOf(p, r', |r.streams|))
    ensures Payload(r', |r.streams|) == if stream.Some? then stream.value else PlainChunk(r, |r.streams|)
    ensures |Payload(r', |r.streams|)| <= MAX_CHUNK_SIZE
    ensures |FileOf(p, r)| + CHUNK_HEADER_SIZE + |Payload(r', |r.streams|)| <= WorstCase(|r.plain|, ChunkCount(r))
  {
    hide SealOf, ChunkOf, FileOf, LogOf, Lawful, PlainChunk, HeaderBytes, ChunkBytes, StreamOk, Payload;
    r' := r.(streams := r.streams + [stream]);
    NextStream(p, r, stream);
    RunSnoc(p, r, stream);
    PayloadFits(p, r', |r.streams|);
    RoomForChunk(p, r, r');
  }

  /** The next chunk of the run makes deflate fail outright. */
  predicate DeflateBroke(p: Suite, r: Run)
    requires Admissible(r)
  {
    |r.streams| < ChunkCount(r) && BreaksAt(p, r, |r.streams|)
  }

  /** The run under way is the one that began as `start`, and deflate's answers
      alone decided how its chunks are stored. */
  ghost predicate Under(p: Suite, start: Run, r: Run) {
    r == start.(streams := r.streams) && ValidRun(p, r) && ChosenByDeflate(p, r)
  }

  /** One turn of the loop of EncryptBuffer: choose, seal, write the record. */
  method SealChunk(aead: Aead, m: Machine, input: array?<byte>, headerBytes: array<byte>, derived: array<byte>,
                   wantCompression: bool, scratch: array?<byte>, file: array<byte>, writeOffset: nat,
                   header: FileHeader, index: u32, ghost run: Run)
    returns (rc: Status, newOffset: nat, ghost run': Run)
    requires Sealing(aead, run, input, headerBytes, derived, file)
    requires header == HeaderOf(run)
    requires wantCompression == (run.opts.compression == COMPRESS_ZLIB)
    requires index == |run.streams| < ChunkCount(run)
    requires writeOffset <= file.Length && file[..writeOffset] == FileOf(aead.suite, run)
    requires wantCompression ==> scratch != null
    requires scratch != null ==> scratch.Length == MaxStoredSizeFor(header.chunkSize)
    requires scratch != null ==> scratch != input && scratch != headerBytes && scratch != derived && scratch != file
    modifies aead`log, m`trace, scratch, file
    ensures rc == OK || rc == MEMORY || rc == CRYPTO || rc == Status.COMPRESS
    ensures rc == MEMORY || rc == CRYPTO ==> Blamed(m.trace, rc)
    ensures rc == Status.COMPRESS ==> DeflateBroke(aead.suite, run)
    ensures rc != OK ==> aead.log == old(aead.log)
    ensures rc == OK ==> !BreaksAt(aead.suite, run, index)
    ensures rc == OK ==>
      && run == run'.(streams := run.streams) && run'.streams == run.streams + [KeptFor(aead.suite, run, index)]
      && ValidRun(aead.suite, run')
      && aead.log == old(aead.log) + [SealOf(aead.suite, run', index)]
      && LogOf(aead.suite, run') == LogOf(aead.suite, run) + [SealOf(aead.suite, run', index)]
      && m.trace == old(m.trace)
      && newOffset <= file.Length
      && file[..newOffset] == FileOf(aead.suite, run')
  {
    hide Lawful, Aad, Nonce, RecordBytes, HeaderBytes, FileOf, LogOf, SealOf, ChunkOf, ChunkPlainSize, ChunkCountFor,
         StreamOk, ChunkBytes, KdfMemory;
    newOffset, run' := writeOffset, run;
    ChunkInside(run, index);
    var plainSize := ChunkPlainSize(header.plaintextSize, header.chunkSize, index);
    var plain := index * header.chunkSize;
    assert Slice(input, plain, plainSize) == PlainChunk(run, index);
    var chunk, inScratch;
    ghost var stream;
    rc, chunk, inScratch, stream := ChoosePayload(aead.suite, m, input, plain, plainSize, wantCompression, scratch);
    if rc != OK {
      return;
    }
    run' := NextChunk(aead.suite, run, stream);
    if writeOffset + CHUNK_HEADER_SIZE + chunk.storedSize > file.Length {
      assert false;
    }
    var payload, payloadOff := if inScratch then scratch else input, if inScratch then 0 else plain;
    rc := SealNext(aead, m, headerBytes, derived, header.noncePrefix, index, chunk, payload, payloadOff, file, writeOffset, run, run');
    newOffset := writeOffset + CHUNK_HEADER_SIZE + chunk.storedSize;
  }

  /** The loop of EncryptBuffer, over the whole chunk table. */
  method SealChunks(aead: Aead, m: Machine, input: array?<byte>, headerBytes: array<byte>, derived: array<byte>,
                    wantCompression: bool, scratch: array?<byte>, file: array<byte>, header: FileHeader, ghost start: Run)
    returns (rc: Status, writeOffset: nat, ghost run: Run)
    requires Sealing(aead, start, input, headerBytes, derived, file) && start.streams == []
    requires header == HeaderOf(start)
    requires wantCompression == (start.opts.compression == COMPRESS_ZLIB)
    requires file[..HEADER_SIZE] == HeaderBytes(header)
    requires wantCompression ==> scratch != null
    requires scratch != null ==> scratch.Length == MaxStoredSizeFor(header.chunkSize)
    requires scratch != null ==> scratch != input && scratch != headerBytes && scratch != derived && scratch != file
    modifies aead`log, m`trace, scratch, file
    ensures Under(aead.suite, start, run) && aead.log == old(aead.log) + LogOf(aead.suite, run)
    ensures rc == OK || rc == MEMORY || rc == CRYPTO || rc == Status.COMPRESS
    ensures rc == MEMORY || rc == CRYPTO ==> Blamed(m.trace, rc)
    ensures rc == Status.COMPRESS ==> DeflateBroke(aead.suite, run)
    ensures rc == OK ==>
      && Complete(aead.suite, run)
      && m.trace == old(m.trace)
      && writeOffset <= file.Length && file[..writeOffset] == FileOf(aead.suite, run)
  {
    hide LogOf, FileOf, ChosenByDeflate, BreaksAt, KeptFor, HeaderBytes, SealOf, ChunkCountFor, ValidateOptions, Lawful, StreamOk,
         Clean;
    run, writeOffset := start, HEADER_SIZE;
    NothingSealed(aead.suite, run);
    var index: u32 := 0;
    while index < header.chunkCount
      invariant index <= header.chunkCount
      invariant run == start.(streams := run.streams) && |run.streams| == index
      invariant Sealing(aead, run, input, headerBytes, derived, file) && ChosenByDeflate(aead.suite, run)
      invariant aead.log == old(aead.log) + LogOf(aead.suite, run)
      invariant m.trace == old(m.trace)
      invariant writeOffset <= file.Length && file[..writeOffset] == FileOf(aead.suite, run)
    {
      ghost var next;
      rc, writeOffset, next := SealChunk(aead, m, input, headerBytes, derived, wantCompression, scratch, file, writeOffset,
                                         header, index, run);
      if rc != OK {
        return;
      }
      ChosenSnoc(aead.suite, run, next);
      run := next;
      index := index + 1;
    }
    rc := OK;
  }

  lemma NothingSealed(p: Suite, r: Run)
    requires Admissible(r) && r.streams == []
    ensures ValidRun(p, r) && ChosenByDeflate(p, r)
    ensures LogOf(p, r) == [] && FileOf(p, r) == HeaderBytes(HeaderOf(r))
  {
    assert ChunksOf(p, r) == [];
  }

  // ---- The status of a call ----

  ghost predicate SomeChunkBreaks(p: Suite, r: Run)
    requires Admissible(r)
  {
    exists i: u32 :: i < ChunkCount(r) && BreaksAt(p, r, i)
  }

  /** What a call whose arguments are accepted has to return, unless the machine
      fails: it depends on the arguments, deflate and SIZE_MAX only. */
  ghost function Expected(p: Suite, r: Run, sizeMax: nat): Status
    requires Admissible(r)
  {
    if WorstCase(|r.plain|, ChunkCount(r)) > sizeMax then TOO_LARGE
    else if SomeChunkBreaks(p, r) then Status.COMPRESS
    else OK
  }

  /** What each status says about the run so far and the machine. */
  ghost predicate Accounts(p: Suite, r: Run, rc: Status, t: seq<Event>, sizeMax: nat)
    requires Admissible(r)
  {
    match rc
    case OK => |r.streams| == ChunkCount(r) && WorstCase(|r.plain|, ChunkCount(r)) <= sizeMax
    case COMPRESS => DeflateBroke(p, r) && WorstCase(|r.plain|, ChunkCount(r)) <= sizeMax
    case TOO_LARGE => WorstCase(|r.plain|, ChunkCount(r)) > sizeMax
    case MEMORY => Blamed(t, MEMORY)
    case CRYPTO => Blamed(t, CRYPTO)
    case _ => false
  }

  lemma AccountsForFault(p: Suite, r: Run, rc: Status, t: seq<Event>, sizeMax: nat)
    requires Admissible(r) && (rc == MEMORY || rc == CRYPTO) && Blamed(t, rc)
    ensures Accounts(p, r, rc, t, sizeMax)
  {
  }

  /** Success says nothing about the trace. */
  lemma AccountsForSuccess(p: Suite, r: Run, t: seq<Event>, t': seq<Event>, sizeMax: nat)
    requires Admissible(r) && Accounts(p, r, OK, t, sizeMax)
    ensures Accounts(p, r, OK, t', sizeMax) && |r.streams| == ChunkCount(r)
  {
  }

  /** The expected status, in numbers. */
  lemma ExpectedExactly(p: Suite, r: Run, sizeMax: nat)
    requires Admissible(r)
    ensures var tooLarge := 64 + 24 * ChunkCount(r) + |r.plain| > sizeMax;
      var room := r.opts.chunkSize + r.opts.chunkSize / 1000 + 64;
      var breaks := r.opts.compression == 1 &&
        exists i: u32 :: i < ChunkCount(r) && |PlainChunk(r, i)| > 0 && p.deflate(PlainChunk(r, i), room) == Broken;
      && (Expected(p, r, sizeMax) == TOO_LARGE <==> tooLarge)
      && (Expected(p, r, sizeMax) == Status.COMPRESS <==> !tooLarge && breaks)
      && (Expected(p, r, sizeMax) == OK <==> !tooLarge && !breaks)
  {
    hide PlainChunk, ChunkCountFor, KdfMemory;
    MaxStoredSizeExact(r.opts.chunkSize);
    if SomeChunkBreaks(p, r) {
      var i: u32 :| i < ChunkCount(r) && BreaksAt(p, r, i);
      assert |PlainChunk(r, i)| > 0 && p.deflate(PlainChunk(r, i), r.opts.chunkSize + r.opts.chunkSize / 1000 + 64) == Broken;
    }
    forall i: u32 | i < ChunkCount(r) && r.opts.compression == 1 && |PlainChunk(r, i)| > 0
                    && p.deflate(PlainChunk(r, i), r.opts.chunkSize + r.opts.chunkSize / 1000 + 64) == Broken
      ensures BreaksAt(p, r, i)
    {
    }
  }

  /** So without a failure of the machine the status is exactly the expected one. */
  lemma StatusIsExact(p: Suite, r: Run, rc: Status, t: seq<Event>, sizeMax: nat)
    requires ChosenByDeflate(p, r) && Accounts(p, r, rc, t, sizeMax) && Clean(t)
    ensures rc == Expected(p, r, sizeMax)
  {
    hide BreaksAt, KeptFor, ChunkCountFor, Clean, Blamed;
    CleanIsNotBlamed(t);
    if rc == OK {
      forall i: u32 | i < ChunkCount(r) ensures !BreaksAt(p, r, i) {
        assert ChosenAt(p, r, i);
      }
    }
  }

  /** A suite within the laws whose deflate always fails stops a run at its first
      chunk, and the run that stores that chunk raw is not one the code makes. */
  lemma BrokenDeflateStops()
    ensures var p, r := BrokenSuite(), SmallRun().(streams := []);
      && Lawful(p) && Admissible(r) && ChosenByDeflate(p, r) && DeflateBroke(p, r)
      && Expected(p, r, UINT32_MAX) == Status.COMPRESS
      && var raw := r.(streams := [None]);
      Complete(p, raw) && !ChosenByDeflate(p, raw)
  {
    hide BrokenSuite, Lawful, PlainChunk, ChunkCountFor, ValidateOptions, KeptFor;
    var p, r := BrokenSuite(), SmallRun().(streams := []);
    var raw := r.(streams := [None]);
    BrokenSuiteLawful();
    SmallRunAdmissible();
    SameChoice(p, SmallRun(), r, 0);
    SameChoice(p, SmallRun(), raw, 0);
    assert BreaksAt(p, r, 0) && BreaksAt(p, raw, 0);
    assert !ChosenAt(p, raw, 0);
    assert StreamOk(p, raw, 0);
  }

  /** The arguments EncryptBuffer turns away before doing anything. */
  function Refusal(key: array?<byte>, opts: Options, input: array?<byte>, inSize: nat): Status {
    if key == null then INVALID_ARG
    else if key.Length < MIN_KEY_SIZE then INVALID_ARG
    else if inSize > 0 && input == null then INVALID_ARG
    else if inSize > MAX_PLAINTEXT_SIZE then TOO_LARGE
    else ValidateOptions(opts)
  }

  /** Which arguments are taken, and which status each other one gets: too large
      only when everything checked before the size is in order. */
  lemma RefusalExact(key: array?<byte>, opts: Options, input: array?<byte>, inSize: nat)
    ensures var pointersOk := key != null && key.Length >= 12 && (inSize == 0 || input != null);
      var optionsOk :=
        && (opts.compression == 0 || opts.compression == 1)
        && 0x1000 <= opts.chunkSize <= 0x400_0000
        && 14 <= opts.kdfLogN <= 20 && 1 <= opts.kdfR <= 32 && 1 <= opts.kdfP <= 16
        && 128 * Pow2(opts.kdfLogN) * opts.kdfR <= 0x4000_0000;
      && (Refusal(key, opts, input, inSize) == OK <==> pointersOk && inSize <= 0x10_0000_0000 && optionsOk)
      && (Refusal(key, opts, input, inSize) == TOO_LARGE <==> pointersOk && inSize > 0x10_0000_0000)
      && (Refusal(key, opts, input, inSize) == INVALID_ARG
          <==> !pointersOk || (inSize <= 0x10_0000_0000 && !optionsOk))
  {
    hide ValidateOptions, Pow2;
    ValidateOptionsExact(opts);
  }

  ghost function InputBytes(input: array?<byte>): Bytes
    reads input
  {
    if input == null then [] else input[..]
  }

  /** Copy the file down to its exact size when the slack is not noise. */
  method ShrinkToFit(m: Machine, ghost base: set<array<byte>>, file: SecureBuffer, written: nat)
    returns (rc: Status)
    requires Holds1(m, base, file)
    requires file.data != null && 0 < written <= file.size
    modifies m, file, file.data
    ensures Holds1(m, base, file)
    ensures rc == OK || rc == MEMORY
    ensures rc == MEMORY ==> Blamed(m.trace, MEMORY)
    ensures file.data == old(file.data) || fresh(file.data)
    ensures rc == OK ==>
      && file.data != null
      && file.size == (if old(file.size) - written > 0x10_0000 then written else old(file.size))
      && file.data[..written] == old(file.data[..written])
      && m.trace == old(m.trace) + if old(file.size) - written > 0x10_0000 then [Alloc(written, true)] else []
  {
    if file.size - written > SHRINK_THRESHOLD {
      var exact := new SecureBuffer();
      var ok := exact.Reset(m, written);
      if !ok {
        return MEMORY;
      }
      CopyIn(exact.data, 0, file.data[..written]);
      assert exact.data[..written] == exact.data[0..written];
      file.MoveFrom(m, exact);
      exact.WipeAndFree(m);
    }
    return OK;
  }

  /** Derive the key, allocate the file at its worst case and put the header in front. */
  method PrepareBuffers(suite: Suite, m: Machine, key: array<byte>, header: FileHeader, serialized: array<byte>,
                        file: SecureBuffer, derived: SecureBuffer, scratch: SecureBuffer, ghost base: set<array<byte>>)
    returns (rc: Status)
    requires Lawful(suite) && serialized.Length == HEADER_SIZE
    requires Holds3(m, base, file, derived, scratch)
    requires derived.data == null && file.data == null && scratch.data == null
    modifies m, derived, file
    ensures Holds3(m, base, file, derived, scratch)
    ensures fresh(Data(file)) && fresh(Data(derived)) && scratch.data == null
    ensures rc == OK || rc == INVALID_ARG || rc == MEMORY || rc == CRYPTO || rc == TOO_LARGE
    ensures rc == INVALID_ARG ==> key.Length < MIN_KEY_SIZE
    ensures rc == MEMORY || rc == CRYPTO ==> Blamed(m.trace, rc)
    ensures rc == TOO_LARGE ==> WorstCase(header.plaintextSize, header.chunkCount) > m.sizeMax
    ensures rc == OK ==>
      && derived.data != null && file.data != null
      && derived.data[..] == suite.scrypt(key[..], header.salt, header.kdfLogN, header.kdfR, header.kdfP)
      && file.data.Length == WorstCase(header.plaintextSize, header.chunkCount) <= m.sizeMax
      && file.data[..HEADER_SIZE] == serialized[..]
      && m.trace == old(m.trace) + [Alloc(KEY_SIZE, true), Alloc(WorstCase(header.plaintextSize, header.chunkCount), true)]
  {
    hide Lawful, AllWiped, Acquire, HeapAfterWipe;
    rc := DeriveKey(suite, m, key, header.salt, header.kdfLogN, header.kdfR, header.kdfP, derived);
    if rc != OK {
      return;
    }
    var worstCase := WorstCase(header.plaintextSize, header.chunkCount);
    if worstCase > m.sizeMax {
      return TOO_LARGE;
    }
    var ok := Obtain(m, base, file, derived, scratch, worstCase);
    if !ok {
      return MEMORY;
    }
    CopyIn(file.data, 0, serialized[..]);
    assert file.data[..HEADER_SIZE] == file.data[0..HEADER_SIZE];
    return OK;
  }

  /** What a call allocates to work in, in this order: the key, the file at its
      worst case, and the scratch when compression is wanted. */
  function WorkingSet(h: FileHeader): seq<Event> {
    [Alloc(32, true), Alloc(WorstCase(h.plaintextSize, h.chunkCount), true)]
    + if h.compressionId == 1 then [Alloc(MaxStoredSizeFor(h.chunkSize), true)] else []
  }

  /** The same, and the scratch when compression is wanted. */
  method PrepareAll(suite: Suite, m: Machine, key: array<byte>, header: FileHeader, serialized: array<byte>,
                    file: SecureBuffer, derived: SecureBuffer, scratch: SecureBuffer, ghost base: set<array<byte>>)
    returns (rc: Status)
    requires Lawful(suite) && serialized.Length == HEADER_SIZE && header.chunkSize <= MAX_CHUNK_SIZE
    requires Holds3(m, base, file, derived, scratch)
    requires derived.data == null && file.data == null && scratch.data == null
    modifies m, derived, file, scratch
    ensures Holds3(m, base, file, derived, scratch)
    ensures fresh(Data(file)) && fresh(Data(derived)) && fresh(Data(scratch))
    ensures rc == OK || rc == INVALID_ARG || rc == MEMORY || rc == CRYPTO || rc == TOO_LARGE
    ensures rc == INVALID_ARG ==> key.Length < MIN_KEY_SIZE
    ensures rc == MEMORY || rc == CRYPTO ==> Blamed(m.trace, rc)
    ensures rc == TOO_LARGE ==> WorstCase(header.plaintextSize, header.chunkCount) > m.sizeMax
    ensures rc == OK ==>
      && derived.data != null && file.data != null
      && derived.data[..] == suite.scrypt(key[..], header.salt, header.kdfLogN, header.kdfR, header.kdfP)
      && file.data.Length == WorstCase(header.plaintextSize, header.chunkCount) <= m.sizeMax
      && file.data[..HEADER_SIZE] == serialized[..]
      && m.trace == old(m.trace) + WorkingSet(header)
      && (header.compressionId == COMPRESS_ZLIB ==> scratch.data != null)
      && (scratch.data != null ==> scratch.data.Length == MaxStoredSizeFor(header.chunkSize))
  {
    hide Lawful, AllWiped;
    rc := PrepareBuffers(suite, m, key, header, serialized, file, derived, scratch, base);
    if rc == OK && header.compressionId == COMPRESS_ZLIB {
      var ok := Obtain(m, base, scratch, file, derived, MaxStoredSizeFor(header.chunkSize));
      if !ok {
        return MEMORY;
      }
    }
  }

  /** The loop over prepared buffers. */
  method SealIntoBuffers(aead: Aead, m: Machine, input: array?<byte>, serialized: array<byte>, header: FileHeader,
                         file: SecureBuffer, derived: SecureBuffer, scratch: SecureBuffer,
                         ghost base: set<array<byte>>, ghost start: Run)
    returns (rc: Status, written: nat, ghost run: Run)
    requires Lawful(aead.suite) && Admissible(start) && start.streams == [] && header == HeaderOf(start)
    requires start.plain == InputBytes(input)
    requires serialized[..] == HeaderBytes(header)
    requires Holds3(m, base, file, derived, scratch)
    requires derived.data != null && file.data != null && (header.compressionId == COMPRESS_ZLIB ==> scratch.data != null)
    requires input !in {file.data, scratch.data} || input == null
    requires serialized !in {file.data, scratch.data}
    requires derived.data[..] == DerivedKey(aead.suite, start)
    requires file.data.Length == WorstCase(|start.plain|, ChunkCount(start)) <= m.sizeMax
    requires file.data[..HEADER_SIZE] == serialized[..]
    requires scratch.data != null ==> scratch.data.Length == MaxStoredSizeFor(header.chunkSize)
    modifies aead`log, m`trace, file.data, scratch.data
    ensures Under(aead.suite, start, run) && aead.log == old(aead.log) + LogOf(aead.suite, run)
    ensures Accounts(aead.suite, run, rc, m.trace, m.sizeMax)
    ensures rc == OK ==>
      && 0 < written <= file.size == WorstCase(|run.plain|, ChunkCount(run)) <= m.sizeMax
      && file.data[..written] == FileOf(aead.suite, run)
      && m.trace == old(m.trace)
  {
    hide Lawful, StreamOk, LogOf, HeaderBytes, AllWiped, ChosenByDeflate, DeflateBroke, Holds3;
    BuffersApart(m, base, file, derived, scratch);
    NothingSealed(aead.suite, start);
    var wantCompression := header.compressionId == COMPRESS_ZLIB;
    rc, written, run := SealChunks(aead, m, input, serialized, derived.data, wantCompression, scratch.data, file.data, header, start);
  }

  lemma BuffersApart(m: Machine, base: set<array<byte>>, a: SecureBuffer, b: SecureBuffer, c: SecureBuffer)
    requires Holds3(m, base, a, b, c)
    ensures Apart(a, b) && Apart(a, c) && Apart(b, c) && a.Valid() && b.Valid() && c.Valid()
  {
  }

  /** From the key to the last chunk, in buffers that belong to the caller. */
  method FillFile(aead: Aead, m: Machine, key: array<byte>, header: FileHeader, input: array?<byte>,
                  file: SecureBuffer, derived: SecureBuffer, scratch: SecureBuffer, ghost base: set<array<byte>>, ghost start: Run)
    returns (rc: Status, written: nat, ghost run: Run)
    requires Lawful(aead.suite) && Admissible(start) && start.streams == [] && header == HeaderOf(start)
    requires key[..] == start.key && start.plain == InputBytes(input)
    requires Holds3(m, base, file, derived, scratch)
    requires derived.data == null && file.data == null && scratch.data == null
    modifies aead`log, m, derived, file, scratch
    ensures Holds3(m, base, file, derived, scratch)
    ensures fresh(Data(file)) && fresh(Data(derived)) && fresh(Data(scratch))
    ensures Under(aead.suite, start, run) && aead.log == old(aead.log) + LogOf(aead.suite, run)
    ensures Accounts(aead.suite, run, rc, m.trace, m.sizeMax)
    ensures rc == OK ==>
      && file.data != null && 0 < written <= file.size == WorstCase(|run.plain|, ChunkCount(run)) <= m.sizeMax
      && file.data[..written] == FileOf(aead.suite, run)
      && m.trace == old(m.trace) + WorkingSet(header)
  {
    hide Lawful, StreamOk, LogOf, FileOf, HeaderBytes, AllWiped, ChunkCountFor, ChosenByDeflate, DeflateBroke, Holds3;
    run, written := start, 0;
    NothingSealed(aead.suite, run);
    var serialized := new byte[HEADER_SIZE](_ => 0);
    SerializeFileHeader(header, serialized);
    rc := PrepareAll(aead.suite, m, key, header, serialized, file, derived, scratch, base);
    if rc != OK {
      return;
    }
    rc, written, run := SealIntoBuffers(aead, m, input, serialized, header, file, derived, scratch, base, start);
  }

  /** The same with the key and scratch of the call, which end with it. */
  method EncryptUnshrunk(aead: Aead, m: Machine, key: array<byte>, header: FileHeader, input: array?<byte>,
                         file: SecureBuffer, ghost base: set<array<byte>>, ghost start: Run)
    returns (rc: Status, written: nat, ghost run: Run)
    requires Lawful(aead.suite) && Admissible(start) && start.streams == [] && header == HeaderOf(start)
    requires key[..] == start.key && start.plain == InputBytes(input)
    requires Holds1(m, base, file) && file.data == null
    modifies aead`log, m, file
    ensures Holds1(m, base, file)
    ensures fresh(Data(file))
    ensures Under(aead.suite, start, run) && aead.log == old(aead.log) + LogOf(aead.suite, run)
    ensures Accounts(aead.suite, run, rc, m.trace, m.sizeMax)
    ensures rc == OK ==>
      && file.data != null && 0 < written <= file.size == WorstCase(|run.plain|, ChunkCount(run)) <= m.sizeMax
      && file.data[..written] == FileOf(aead.suite, run)
      && m.trace == old(m.trace) + WorkingSet(header)
  {
    hide Lawful, StreamOk, LogOf, FileOf, HeaderBytes, AllWiped, ChosenByDeflate, DeflateBroke, ChunkCountFor, Accounts,
         ValidateOptions;
    var derived := new SecureBuffer();
    var scratch := new SecureBuffer();
    rc, written, run := FillFile(aead, m, key, header, input, file, derived, scratch, base, start);
    EndInnerScope(m, base, file, derived, scratch);
  }

  /** The buffer handed out: as allocated for the worst case, unless that leaves
      more than 1 MiB unused; then exactly as long as the file. */
  ghost predicate FinalSize(r: Run, written: nat, size: nat, sizeMax: nat)
    requires Admissible(r)
  {
    var worst := 64 + 24 * ChunkCount(r) + |r.plain|;
    written <= worst <= sizeMax && size == if worst - written > 0x10_0000 then written else worst
  }

  /** And for the copy that gives up the slack, when it does. */
  ghost function Shrinking(r: Run, written: nat): seq<Event>
    requires Admissible(r)
  {
    if 64 + 24 * ChunkCount(r) + |r.plain| - written > 0x10_0000 then [Alloc(written, true)] else []
  }

  /** And the copy to the exact size, when it pays. */
  method EncryptInto(aead: Aead, m: Machine, key: array<byte>, header: FileHeader, input: array?<byte>,
                     file: SecureBuffer, ghost base: set<array<byte>>, ghost start: Run)
    returns (rc: Status, written: nat, ghost run: Run)
    requires Lawful(aead.suite) && Admissible(start) && start.streams == [] && header == HeaderOf(start)
    requires key[..] == start.key && start.plain == InputBytes(input)
    requires Holds1(m, base, file) && file.data == null
    modifies aead`log, m, file
    ensures Holds1(m, base, file)
    ensures fresh(Data(file))
    ensures Under(aead.suite, start, run) && aead.log == old(aead.log) + LogOf(aead.suite, run)
    ensures Accounts(aead.suite, run, rc, m.trace, m.sizeMax)
    ensures rc == OK ==>
      && file.data != null && written <= file.size && FinalSize(run, written, file.size, m.sizeMax)
      && file.data[..written] == FileOf(aead.suite, run)
      && m.trace == old(m.trace) + WorkingSet(header) + Shrinking(run, written)
  {
    hide Lawful, StreamOk, LogOf, FileOf, HeaderBytes, AllWiped, ChosenByDeflate, DeflateBroke, ChunkCountFor, Accounts,
         ValidateOptions;
    rc, written, run := EncryptUnshrunk(aead, m, key, header, input, file, base, start);
    if rc == OK {
      ghost var t := m.trace;
      rc := ShrinkToFit(m, base, file, written);
      if rc == OK {
        AccountsForSuccess(aead.suite, run, t, m.trace, m.sizeMax);
      } else {
        AccountsForFault(aead.suite, run, rc, m.trace, m.sizeMax);
      }
    }
  }

  /** The salt and nonce prefix of the run are the next 16 and 8 bytes of the
      random source, in that order. */
  ghost predicate DrawnAt(r: Run, source: RandomSource, at: nat) {
    r.salt == source.BytesAt(at, 16) && r.noncePrefix == source.BytesAt(at + 16, 8)
  }

  /** The salt, then the nonce prefix. */
  method DrawRandom(source: RandomSource, m: Machine) returns (rc: Status, salt: Salt, noncePrefix: NoncePrefix)
    modifies m`trace, source`used
    ensures rc == OK || rc == CRYPTO
    ensures rc == CRYPTO ==> m.trace == old(m.trace) + [Fault(CRYPTO)]
    ensures source.used >= old(source.used)
    ensures rc == OK ==>
      && m.trace == old(m.trace)
      && salt == source.BytesAt(old(source.used), 16) && noncePrefix == source.BytesAt(old(source.used) + 16, 8)
      && source.used == old(source.used) + 24
  {
    noncePrefix := Zeros(NONCE_PREFIX_SIZE);
    rc, salt := source.Draw(m, SALT_SIZE);
    if rc != OK {
      return;
    }
    rc, noncePrefix := source.Draw(m, NONCE_PREFIX_SIZE);
  }

  /** A run over these arguments, decided by deflate's answers. */
  ghost predicate RunFor(p: Suite, r: Run, key: Bytes, opts: Options, plain: Bytes) {
    ValidRun(p, r) && ChosenByDeflate(p, r) && r.key == key && r.opts == opts && r.plain == plain
  }

  /** The run was drawn, and nothing more than it; or the random source failed,
      before anything else had happened. */
  ghost predicate Draws(r: Run, source: RandomSource, at: nat, rc: Status, t: seq<Event>)
    reads source
  {
    || (DrawnAt(r, source, at) && source.used == at + 24)
    || (rc == CRYPTO && t == [Fault(CRYPTO)] && r.streams == [] && source.used >= at)
  }

  /** EncryptBuffer once the header is known: the buffers of the call, and the
      hand-over of the file. */
  method EncryptDrawn(aead: Aead, m: Machine, key: array<byte>, header: FileHeader, input: array?<byte>,
                      out: SecureBuffer, outSize: SizeCell, ghost start: Run)
    returns (rc: Status, ghost run: Run)
    requires Lawful(aead.suite) && AllWiped(m.heap) && out.Valid()
    requires Admissible(start) && start.streams == [] && header == HeaderOf(start)
    requires key[..] == start.key && start.plain == InputBytes(input)
    requires Data(out) <= Live(m) && (out.data != null ==> out.data != input && out.data != key)
    modifies aead`log, m, out, out.data, outSize
    ensures AllWiped(m.heap) && out.Valid()
    ensures rc != OK ==> unchanged(out) && out.Contents() == old(out.Contents()) && unchanged(outSize) && Live(m) == old(Live(m))
    ensures rc == OK ==> out.data != null && fresh(out.data) && Live(m) == old(Live(m)) - old(Data(out)) + Data(out)
    ensures Under(aead.suite, start, run) && aead.log == old(aead.log) + LogOf(aead.suite, run)
    ensures Accounts(aead.suite, run, rc, m.trace, m.sizeMax)
    ensures rc == OK ==>
      && outSize.value <= out.size && FinalSize(run, outSize.value, out.size, m.sizeMax)
      && out.Contents()[..outSize.value] == FileOf(aead.suite, run)
      && m.trace == old(m.trace) + WorkingSet(header) + Shrinking(run, outSize.value)
  {
    hide Lawful, StreamOk, LogOf, FileOf, HeaderBytes, AllWiped, ChosenByDeflate, DeflateBroke, Accounts, FinalSize;
    var file := new SecureBuffer();
    ghost var base := Live(m);
    var written;
    rc, written, run := EncryptInto(aead, m, key, header, input, file, base, start);
    if rc != OK {
      EndScope(m, base, file);
      return;
    }
    HandOver(m, base, out, file);
    outSize.value := written;
  }

  /** EncryptBuffer past its argument checks. */
  method EncryptChecked(aead: Aead, source: RandomSource, m: Machine, key: array<byte>, opts: Options,
                        input: array?<byte>, inSize: nat, out: SecureBuffer, outSize: SizeCell)
    returns (rc: Status, ghost run: Run)
    requires Lawful(aead.suite) && AllWiped(m.heap) && out.Valid()
    requires Refusal(key, opts, input, inSize) == OK && m.trace == []
    requires input != null ==> inSize == input.Length
    requires Data(out) <= Live(m) && (out.data != null ==> out.data != input && out.data != key)
    modifies aead`log, source`used, m, out, out.data, outSize
    ensures AllWiped(m.heap) && out.Valid()
    ensures rc != OK ==> unchanged(out) && out.Contents() == old(out.Contents()) && unchanged(outSize) && Live(m) == old(Live(m))
    ensures rc == OK ==> out.data != null && fresh(out.data) && Live(m) == old(Live(m)) - old(Data(out)) + Data(out)
    ensures RunFor(aead.suite, run, key[..], opts, old(InputBytes(input))) && aead.log == old(aead.log) + LogOf(aead.suite, run)
    ensures Accounts(aead.suite, run, rc, m.trace, m.sizeMax)
    ensures Draws(run, source, old(source.used), rc, m.trace)
    ensures rc == OK ==>
      && outSize.value <= out.size && FinalSize(run, outSize.value, out.size, m.sizeMax)
      && out.Contents()[..outSize.value] == FileOf(aead.suite, run)
      && m.trace == WorkingSet(HeaderOf(run)) + Shrinking(run, outSize.value)
  {
    hide Lawful, StreamOk, LogOf, FileOf, HeaderBytes, AllWiped, ChosenByDeflate, DeflateBroke, Accounts, FinalSize;
    run := Run(key[..], opts, InputBytes(input), Zeros(SALT_SIZE), Zeros(NONCE_PREFIX_SIZE), []);
    NothingSealed(aead.suite, run);
    var salt, noncePrefix;
    rc, salt, noncePrefix := DrawRandom(source, m);
    if rc != OK {
      AccountsForFault(aead.suite, run, rc, m.trace, m.sizeMax);
      return;
    }
    ghost var start := run.(salt := salt, noncePrefix := noncePrefix);
    rc, run := EncryptDrawn(aead, m, key, MakeHeader(opts, inSize, salt, noncePrefix), input, out, outSize, start);
  }

  /** EncryptBuffer.  On success the first `outSize` bytes of `out` are the file
      of a complete run over the arguments; on failure the out-parameters are
      untouched.  Either way the AEAD has sealed exactly the chunks of `run`,
      every block the call allocated is wiped and gone unless it is in `out`,
      its salt and nonce prefix are the next bytes of the random source, and
      unless the machine fails the status is the expected one.  The trace is that
      of this call. */
  method EncryptBuffer(aead: Aead, source: RandomSource, m: Machine, key: array?<byte>, opts: Options,
                       input: array?<byte>, inSize: nat, out: SecureBuffer, outSize: SizeCell)
    returns (rc: Status, ghost run: Run)
    requires Lawful(aead.suite) && AllWiped(m.heap) && out.Valid()
    requires input != null ==> inSize == input.Length
    requires Data(out) <= Live(m) && (out.data != null ==> out.data != input && out.data != key)
    modifies aead`log, source`used, m, out, out.data, outSize
    ensures AllWiped(m.heap) && out.Valid()
    ensures rc != OK ==> unchanged(out) && out.Contents() == old(out.Contents()) && unchanged(outSize) && Live(m) == old(Live(m))
    ensures rc == OK ==> out.data != null && fresh(out.data) && Live(m) == old(Live(m)) - old(Data(out)) + Data(out)
    ensures Refusal(key, opts, input, inSize) != OK ==>
      rc == Refusal(key, opts, input, inSize) && aead.log == old(aead.log) && source.used == old(source.used)
    ensures Refusal(key, opts, input, inSize) == OK ==>
      && RunFor(aead.suite, run, key[..], opts, old(InputBytes(input)))
      && aead.log == old(aead.log) + LogOf(aead.suite, run)
      && Accounts(aead.suite, run, rc, m.trace, m.sizeMax)
      && Draws(run, source, old(source.used), rc, m.trace)
      && (Clean(m.trace) ==> rc == Expected(aead.suite, run, m.sizeMax))
      && (rc == OK ==>
            && Complete(aead.suite, run)
            && outSize.value <= out.size && FinalSize(run, outSize.value, out.size, m.sizeMax)
            && out.Contents()[..outSize.value] == FileOf(aead.suite, run)
            && m.trace == WorkingSet(HeaderOf(run)) + Shrinking(run, outSize.value))
  {
    hide Lawful, AllWiped, StreamOk, LogOf, FileOf, HeaderBytes, ChosenByDeflate, DeflateBroke, SomeChunkBreaks;
    m.trace := [];
    run := Run([], opts, [], Zeros(SALT_SIZE), Zeros(NONCE_PREFIX_SIZE), []);
    rc := Refusal(key, opts, input, inSize);
    if rc != OK {
      return;
    }
    rc, run := EncryptChecked(aead, source, m, key, opts, input, inSize, out, outSize);
    if Clean(m.trace) {
      StatusIsExact(aead.suite, run, rc, m.trace, m.sizeMax);
    }
  }
}
