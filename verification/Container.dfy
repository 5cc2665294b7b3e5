/** What a .mcrypt file is, what encrypting and decrypting mean, and the laws
    that tie the two together.  No buffers here: the methods of Encrypt and
    Decrypt are proved to compute these functions. */
module Container {
  import opened Wire
  import opened Format
  import opened Primitives

  // ---- Chunks on the wire ----

  datatype Chunk = Chunk(header: ChunkHeader, tag: Tag, ciphertext: Bytes)

  function ChunkBytes(c: Chunk): Bytes {
    RecordBytes(c.header, c.tag) + c.ciphertext
  }

  function EncodeBody(chunks: seq<Chunk>): Bytes {
    if chunks == [] then [] else ChunkBytes(chunks[0]) + EncodeBody(chunks[1..])
  }

  /** What the walk demands of the chunk at position `index`, besides being there. */
  ghost predicate ChunkOk(h: FileHeader, index: u32, c: Chunk) {
    && c.header.flags < 2
    && |c.ciphertext| == c.header.storedSize <= MaxStoredSizeFor(h.chunkSize)
    && (!c.header.Compressed() ==> c.header.storedSize == ChunkPlainSize(h.plaintextSize, h.chunkSize, index))
    && (c.header.Compressed() ==> c.header.storedSize > 0 && h.compressionId == COMPRESS_ZLIB)
  }

  /** The walk as a recursive parse of what is left of the input. */
  function ParseBody(body: Bytes, h: FileHeader, index: u32): Result<seq<Chunk>>
    requires index <= h.chunkCount
    decreases h.chunkCount - index
  {
    if index == h.chunkCount then
      if body == [] then Ok([]) else Err(FORMAT)
    else if |body| < CHUNK_HEADER_SIZE then Err(FORMAT)
    else
      var (c, tag) :- ParseRecord(body, MaxStoredSizeFor(h.chunkSize));
      var rest := body[CHUNK_HEADER_SIZE..];
      if |rest| < c.storedSize then Err(FORMAT)
      else if !c.Compressed() && c.storedSize != ChunkPlainSize(h.plaintextSize, h.chunkSize, index) then Err(FORMAT)
      else if c.Compressed() && c.storedSize == 0 then Err(FORMAT)
      else if c.Compressed() && h.compressionId != COMPRESS_ZLIB then Err(FORMAT)
      else
        var chunks :- ParseBody(rest[c.storedSize..], h, index + 1);
        Ok([Chunk(c, tag, rest[..c.storedSize])] + chunks)
  }

  /** WalkChunkTable: the up-front size check, then the walk. */
  function WalkTable(s: Bytes, h: FileHeader): Result<seq<Chunk>>
    requires |s| >= HEADER_SIZE
  {
    if |s| < HEADER_SIZE + h.chunkCount * CHUNK_HEADER_SIZE then Err(FORMAT)
    else ParseBody(s[HEADER_SIZE..], h, 0)
  }

  /** The header parse and the walk together: structural validity. */
  function ParseFile(s: Bytes): Result<(FileHeader, seq<Chunk>)> {
    var h :- ParseHeader(s);
    var chunks :- WalkTable(s, h);
    Ok((h, chunks))
  }

  lemma BodyHead(c: Chunk, rest: Bytes)
    requires |c.ciphertext| == c.header.storedSize
    ensures var body := ChunkBytes(c) + rest;
      && body[..CHUNK_HEADER_SIZE] == RecordBytes(c.header, c.tag)
      && body[CHUNK_HEADER_SIZE..][..c.header.storedSize] == c.ciphertext
      && body[CHUNK_HEADER_SIZE..][c.header.storedSize..] == rest
  {
    var body := ChunkBytes(c) + rest;
    assert body[CHUNK_HEADER_SIZE..] == c.ciphertext + rest;
  }

  /** A chunk fit for its position is parsed off the front, whatever follows. */
  lemma ParseChunkOffFront(c: Chunk, rest: Bytes, h: FileHeader, index: u32)
    requires index < h.chunkCount && ChunkOk(h, index, c)
    ensures ParseBody(ChunkBytes(c) + rest, h, index) ==
            match ParseBody(rest, h, index + 1)
            case Ok(chunks) => Ok([c] + chunks)
            case Err(e) => Err(e)
  {
    BodyHead(c, rest);
    ParseRecordExact(ChunkBytes(c) + rest, MaxStoredSizeFor(h.chunkSize), c.header, c.tag);
  }

  /** Every chunk is fit for its position, counting from `index`. */
  ghost predicate ChunksOk(h: FileHeader, index: nat, chunks: seq<Chunk>)
    requires index + |chunks| <= h.chunkCount
  {
    forall j | 0 <= j < |chunks| :: ChunkOk(h, index + j, chunks[j])
  }

  lemma ChunksOkCons(h: FileHeader, index: nat, c: Chunk, chunks: seq<Chunk>)
    requires index + 1 + |chunks| <= h.chunkCount
    ensures ChunksOk(h, index, [c] + chunks) <==> ChunkOk(h, index, c) && ChunksOk(h, index + 1, chunks)
  {
    var all := [c] + chunks;
    if ChunksOk(h, index, all) {
      assert ChunkOk(h, index + 0, all[0]);
      forall j | 0 <= j < |chunks| ensures ChunkOk(h, index + 1 + j, chunks[j]) {
        assert ChunkOk(h, index + (j + 1), all[j + 1]);
      }
    }
  }

  lemma EncodeCons(c: Chunk, chunks: seq<Chunk>)
    ensures EncodeBody([c] + chunks) == ChunkBytes(c) + EncodeBody(chunks)
  {
    assert ([c] + chunks)[1..] == chunks;
  }

  /** The parse accepts the encoding of the right number of chunks, each fit for
      its position, and returns those chunks ... */
  lemma {:induction false} ParseOfEncode(h: FileHeader, index: u32, chunks: seq<Chunk>)
    requires index + |chunks| == h.chunkCount && ChunksOk(h, index, chunks)
    ensures ParseBody(EncodeBody(chunks), h, index) == Ok(chunks)
    decreases |chunks|
  {
    if chunks != [] {
      assert chunks == [chunks[0]] + chunks[1..];
      ChunksOkCons(h, index, chunks[0], chunks[1..]);
      ParseOfEncode(h, index + 1, chunks[1..]);
      ParseChunkOffFront(chunks[0], EncodeBody(chunks[1..]), h, index);
    }
  }

  /** ... and accepts nothing else: records and payloads tile the body in order
      with nothing between, before or after. */
  lemma {:induction false} EncodeOfParse(body: Bytes, h: FileHeader, index: u32, chunks: seq<Chunk>)
    requires index <= h.chunkCount && ParseBody(body, h, index) == Ok(chunks)
    ensures body == EncodeBody(chunks)
    ensures index + |chunks| == h.chunkCount && ChunksOk(h, index, chunks)
    decreases h.chunkCount - index
  {
    hide ParseRecord, ChunkPlainSize;
    if index < h.chunkCount {
      var c, rest, tail := ParsedHead(body, h, index, chunks);
      EncodeOfParse(rest, h, index + 1, tail);
      EncodeCons(c, tail);
      ChunksOkCons(h, index, c, tail);
    }
  }

  lemma ParsedHead(body: Bytes, h: FileHeader, index: u32, chunks: seq<Chunk>)
    returns (c: Chunk, rest: Bytes, tail: seq<Chunk>)
    requires index < h.chunkCount && ParseBody(body, h, index) == Ok(chunks)
    ensures chunks == [c] + tail && body == ChunkBytes(c) + rest
    ensures ChunkOk(h, index, c)
    ensures ParseBody(rest, h, index + 1) == Ok(tail)
  {
    hide RecordBytes, ChunkPlainSize, ParseRecord;
    var (header, tag) := ParseRecord(body, MaxStoredSizeFor(h.chunkSize)).value;
    ParseRecordExact(body, MaxStoredSizeFor(h.chunkSize), header, tag);
    var after := body[CHUNK_HEADER_SIZE..];
    c, rest := Chunk(header, tag, after[..header.storedSize]), after[header.storedSize..];
    tail := ParseBody(rest, h, index + 1).value;
    assert body == body[..CHUNK_HEADER_SIZE] + after && after == c.ciphertext + rest;
  }

  /** The walk reports nothing but MC_ERR_FORMAT. */
  lemma {:induction false} WalkErrorsAreFormat(body: Bytes, h: FileHeader, index: u32)
    requires index <= h.chunkCount
    ensures ParseBody(body, h, index).Err? ==> ParseBody(body, h, index) == Err(FORMAT)
    decreases h.chunkCount - index
  {
    if index < h.chunkCount && |body| >= CHUNK_HEADER_SIZE {
      var rec := ParseRecord(body, MaxStoredSizeFor(h.chunkSize));
      if rec.Ok? {
        var rest := body[CHUNK_HEADER_SIZE..];
        if |rest| >= rec.value.0.storedSize {
          WalkErrorsAreFormat(rest[rec.value.0.storedSize..], h, index + 1);
        }
      }
    }
  }

  /** The up-front check turns away nothing the walk would take; it only
      bounds the table by the input. */
  lemma {:induction false} EnoughBytesForRecords(body: Bytes, h: FileHeader, index: u32)
    requires index <= h.chunkCount && ParseBody(body, h, index).Ok?
    ensures |body| >= (h.chunkCount - index) * CHUNK_HEADER_SIZE
    decreases h.chunkCount - index
  {
    hide ParseRecord, ChunkPlainSize;
    if index < h.chunkCount {
      var chunks := ParseBody(body, h, index).value;
      var c, rest, tail := ParsedHead(body, h, index, chunks);
      EnoughBytesForRecords(rest, h, index + 1);
    }
  }

  lemma SizeCheckIsImplied(s: Bytes, h: FileHeader)
    requires |s| >= HEADER_SIZE
    ensures WalkTable(s, h) == ParseBody(s[HEADER_SIZE..], h, 0)
  {
    WalkErrorsAreFormat(s[HEADER_SIZE..], h, 0);
    if ParseBody(s[HEADER_SIZE..], h, 0).Ok? {
      EnoughBytesForRecords(s[HEADER_SIZE..], h, 0);
    }
  }

  /** A structurally valid string is a header and chunks, and no other string
      is: the decoder's grammar, in both directions. */
  lemma ParseFileExact(s: Bytes, h: FileHeader, chunks: seq<Chunk>)
    ensures ParseFile(s) == Ok((h, chunks))
      <==> && s == HeaderBytes(h) + EncodeBody(chunks)
           && Acceptable(h)
           && |chunks| == h.chunkCount
           && ChunksOk(h, 0, chunks)
  {
    ParseHeaderExact(s, h);
    if ParseFile(s) == Ok((h, chunks)) {
      SizeCheckIsImplied(s, h);
      EncodeOfParse(s[HEADER_SIZE..], h, 0, chunks);
      assert s == s[..HEADER_SIZE] + s[HEADER_SIZE..];
    }
    if && s == HeaderBytes(h) + EncodeBody(chunks)
       && Acceptable(h)
       && |chunks| == h.chunkCount
       && ChunksOk(h, 0, chunks) {
      assert s[..HEADER_SIZE] == HeaderBytes(h) && s[HEADER_SIZE..] == EncodeBody(chunks);
      SizeCheckIsImplied(s, h);
      ParseOfEncode(h, 0, chunks);
    }
  }

  lemma {:induction false} BodyHasNoExtension(body: Bytes, more: Bytes, h: FileHeader, index: u32)
    requires index <= h.chunkCount && more != []
    requires ParseBody(body, h, index).Ok?
    ensures ParseBody(body + more, h, index) == Err(FORMAT)
    decreases h.chunkCount - index
  {
    hide ParseRecord, ChunkPlainSize;
    if index < h.chunkCount {
      var chunks := ParseBody(body, h, index).value;
      var c, rest, tail := ParsedHead(body, h, index, chunks);
      BodyHasNoExtension(rest, more, h, index + 1);
      assert body + more == ChunkBytes(c) + (rest + more);
      ParseChunkOffFront(c, rest + more, h, index);
    }
  }

  /** Structural validity is prefix-free: of two strings one of which properly
      extends the other at most one is accepted, and the other is MC_ERR_FORMAT. */
  lemma PrefixFree(s: Bytes, more: Bytes)
    requires more != []
    ensures ParseFile(s).Ok? ==> ParseFile(s + more) == Err(FORMAT)
    ensures ParseFile(s + more).Ok? ==> ParseFile(s) == Err(FORMAT)
  {
    if |s| >= HEADER_SIZE {
      assert (s + more)[..HEADER_SIZE] == s[..HEADER_SIZE] && (s + more)[HEADER_SIZE..] == s[HEADER_SIZE..] + more;
      RawOfPrefix(s);
      RawOfPrefix(s + more);
      assert ParseHeader(s + more) == ParseHeader(s);
      if ParseHeader(s).Ok? {
        var h := ParseHeader(s).value;
        SizeCheckIsImplied(s, h);
        SizeCheckIsImplied(s + more, h);
        WalkErrorsAreFormat(s[HEADER_SIZE..], h, 0);
        if ParseBody(s[HEADER_SIZE..], h, 0).Ok? {
          BodyHasNoExtension(s[HEADER_SIZE..], more, h, 0);
        }
      }
    }
  }
}
