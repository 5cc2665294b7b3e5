/** The byte layout of a .mcrypt container and the rules its parser enforces
    (src/crypt/format.h and src/crypt/format.cc). */
module Format {
  import opened Wire

  const MAGIC: Bytes := [0x4D, 0x43, 0x52, 0x59, 0x50, 0x54, 0x30, 0x32]  // "MCRYPT02"
  const HEADER_SIZE := 64
  const CHUNK_HEADER_SIZE := 24
  const SALT_SIZE := 16
  const NONCE_PREFIX_SIZE := 8
  const NONCE_SIZE := 12
  const TAG_SIZE := 16
  const KEY_SIZE := 32
  const AAD_SIZE := 73

  const FORMAT_VERSION := 2
  const KDF_SCRYPT := 1
  const AEAD_AES256_GCM := 1
  const COMPRESS_NONE := 0
  const COMPRESS_ZLIB := 1
  const FLAG_COMPRESSED := 1

  const MIN_CHUNK_SIZE := 0x1000
  const MAX_CHUNK_SIZE := 0x400_0000
  const MIN_KDF_LOG_N := 14
  const MAX_KDF_LOG_N := 20
  const MIN_KDF_R := 1
  const MAX_KDF_R := 32
  const MIN_KDF_P := 1
  const MAX_KDF_P := 16
  const MAX_KDF_MEMORY := 0x4000_0000
  const MAX_PLAINTEXT_SIZE := 0x10_0000_0000
  const MAX_FILE_SIZE := MAX_PLAINTEXT_SIZE + (MAX_PLAINTEXT_SIZE / MIN_CHUNK_SIZE) * CHUNK_HEADER_SIZE + HEADER_SIZE

  const U32_RANGE := 0x1_0000_0000
  const U64_RANGE := 0x1_0000_0000_0000_0000

  type Salt = s: Bytes | |s| == SALT_SIZE witness Zeros(SALT_SIZE)
  type NoncePrefix = s: Bytes | |s| == NONCE_PREFIX_SIZE witness Zeros(NONCE_PREFIX_SIZE)
  type Tag = s: Bytes | |s| == TAG_SIZE witness Zeros(TAG_SIZE)

  datatype FileHeader = FileHeader(
    formatVersion: u16,
    kdfId: byte,
    aeadId: byte,
    compressionId: byte,
    kdfLogN: byte,
    kdfR: u32,
    kdfP: u32,
    salt: Salt,
    noncePrefix: NoncePrefix,
    chunkSize: u32,
    plaintextSize: u64,
    chunkCount: u32)

  datatype ChunkHeader = ChunkHeader(storedSize: u32, flags: byte)
  {
    predicate Compressed() {
      flags % 2 == 1
    }
  }

  // ---- Chunk arithmetic ----

  /** ChunkCountFor, with the narrowing cast written out. */
  function ChunkCountFor(plaintextSize: u64, chunkSize: u32): u32
    requires chunkSize > 0
  {
    if plaintextSize == 0 then 1
    else ((plaintextSize + chunkSize - 1) % U64_RANGE / chunkSize) % U32_RANGE
  }

  /** MaxStoredSizeFor, with the narrowing cast written out. */
  function MaxStoredSizeFor(chunkSize: u32): u32 {
    (chunkSize + chunkSize / 1000 + 64) % U32_RANGE
  }

  /** In the permitted range the cast loses nothing: the limit is the chunk size,
      a thousandth of it rounded down, and 64 bytes. */
  lemma MaxStoredSizeExact(chunkSize: u32)
    requires chunkSize <= MAX_CHUNK_SIZE
    ensures var slack := MaxStoredSizeFor(chunkSize) - chunkSize - 64; 1000 * slack <= chunkSize < 1000 * slack + 1000
  {
  }

  /** ChunkPlainSize; encrypt.cc and decrypt.cc each hold a copy of it. */
  function ChunkPlainSize(plaintextSize: u64, chunkSize: u32, index: u32): nat {
    var offset := index * chunkSize;
    if offset >= plaintextSize then 0
    else if plaintextSize - offset < chunkSize then plaintextSize - offset
    else chunkSize
  }

  ghost predicate SizesInRange(plaintextSize: u64, chunkSize: u32) {
    plaintextSize <= MAX_PLAINTEXT_SIZE && MIN_CHUNK_SIZE <= chunkSize <= MAX_CHUNK_SIZE
  }

  /** What a chunk count has to be, said without division or casts. */
  ghost predicate CountCovers(plaintextSize: nat, chunkSize: nat, count: nat) {
    && count >= 1
    && plaintextSize <= count * chunkSize
    && (count == 1 || (count - 1) * chunkSize < plaintextSize)
  }

  lemma CountCoversUnique(plaintextSize: nat, chunkSize: nat, a: nat, b: nat)
    requires CountCovers(plaintextSize, chunkSize, a) && CountCovers(plaintextSize, chunkSize, b)
    ensures a == b
  {
    if a < b {
      MulMono(chunkSize, a, b - 1);
    } else if b < a {
      MulMono(chunkSize, b, a - 1);
    }
  }

  lemma CeilDiv(n: nat, d: nat)
    requires n > 0 && d > 0
    ensures CountCovers(n, d, (n + d - 1) / d)
  {
    var q, r := (n + d - 1) / d, (n + d - 1) % d;
    assert n + d - 1 == d * q + r;
    assert q >= 1 by { assert d * 0 == 0; }
    assert (q - 1) * d == d * q - d;
    assert q * d == d * q;
  }

  /** In the permitted ranges neither cast nor sum in ChunkCountFor loses anything. */
  lemma ChunkCountExact(plaintextSize: u64, chunkSize: u32)
    requires SizesInRange(plaintextSize, chunkSize)
    ensures CountCovers(plaintextSize, chunkSize, ChunkCountFor(plaintextSize, chunkSize))
    ensures ChunkCountFor(plaintextSize, chunkSize) <= MAX_PLAINTEXT_SIZE / MIN_CHUNK_SIZE
  {
    if plaintextSize > 0 {
      var q := (plaintextSize + chunkSize - 1) / chunkSize;
      CeilDiv(plaintextSize, chunkSize);
      CountBound(plaintextSize, chunkSize, q);
      SmallMod(plaintextSize + chunkSize - 1, U64_RANGE);
      SmallMod(q, U32_RANGE);
    }
  }

  lemma CountBound(plaintextSize: nat, chunkSize: nat, count: nat)
    requires plaintextSize <= MAX_PLAINTEXT_SIZE && chunkSize >= MIN_CHUNK_SIZE
    requires CountCovers(plaintextSize, chunkSize, count)
    ensures count <= MAX_PLAINTEXT_SIZE / MIN_CHUNK_SIZE
  {
    if count > 1 {
      var n := count - 1;
      MulMono(n, MIN_CHUNK_SIZE, chunkSize);
      assert n * chunkSize < MAX_PLAINTEXT_SIZE;
    }
  }

  /** Where chunk `index` begins in the plaintext. */
  function ChunkStart(plaintextSize: u64, chunkSize: u32, index: u32): nat {
    if index * chunkSize < plaintextSize then index * chunkSize else plaintextSize
  }

  /** Consecutive chunks abut, the first starts at 0 and the last ends at the end. */
  lemma ChunkStep(plaintextSize: u64, chunkSize: u32, index: u32)
    requires SizesInRange(plaintextSize, chunkSize)
    requires index < ChunkCountFor(plaintextSize, chunkSize)
    ensures index * chunkSize <= plaintextSize
    ensures ChunkStart(plaintextSize, chunkSize, index) == index * chunkSize
    ensures ChunkStart(plaintextSize, chunkSize, index) + ChunkPlainSize(plaintextSize, chunkSize, index)
         == ChunkStart(plaintextSize, chunkSize, index + 1)
    ensures index + 1 == ChunkCountFor(plaintextSize, chunkSize)
            ==> ChunkStart(plaintextSize, chunkSize, index + 1) == plaintextSize
    ensures index + 1 < ChunkCountFor(plaintextSize, chunkSize)
            ==> ChunkPlainSize(plaintextSize, chunkSize, index) == chunkSize
    ensures plaintextSize > 0 ==> ChunkPlainSize(plaintextSize, chunkSize, index) > 0
    ensures ChunkPlainSize(plaintextSize, chunkSize, index) <= chunkSize
  {
    ChunkCountExact(plaintextSize, chunkSize);
    var count := ChunkCountFor(plaintextSize, chunkSize);
    MulMono(chunkSize, index, count - 1);
    assert (index + 1) * chunkSize == index * chunkSize + chunkSize;
    if index + 1 < count {
      MulMono(chunkSize, index + 1, count - 1);
    }
  }

  /** The length docs/Format.md gives the last chunk, the remainder, is the right
      one exactly when there is a remainder or no plaintext at all; otherwise the
      last chunk is full. */
  lemma LastChunkFormula(plaintextSize: u64, chunkSize: u32)
    requires SizesInRange(plaintextSize, chunkSize)
    ensures ChunkCountFor(plaintextSize, chunkSize) >= 1
    ensures var last := ChunkPlainSize(plaintextSize, chunkSize, ChunkCountFor(plaintextSize, chunkSize) - 1);
      var remainder := plaintextSize % chunkSize;
      && (last == remainder <==> remainder != 0 || plaintextSize == 0)
      && (last != remainder ==> last == chunkSize)
  {
    ChunkCountExact(plaintextSize, chunkSize);
    if plaintextSize == 0 {
      return;
    }
    var i := ChunkCountFor(plaintextSize, chunkSize) - 1;
    var last := ChunkPlainSize(plaintextSize, chunkSize, i);
    ChunkStep(plaintextSize, chunkSize, i);
    assert plaintextSize == chunkSize * i + last;
    if last == chunkSize {
      assert chunkSize * (i + 1) == chunkSize * i + last;
      EuclideanQuotient(plaintextSize, chunkSize, i + 1, 0);
    } else {
      EuclideanQuotient(plaintextSize, chunkSize, i, last);
    }
  }

  /** One full chunk: the documented length is 0, the chunk has 4096 bytes. */
  lemma DocumentedLastChunkIsWrong()
    ensures ChunkCountFor(MIN_CHUNK_SIZE, MIN_CHUNK_SIZE) == 1
    ensures MIN_CHUNK_SIZE % MIN_CHUNK_SIZE == 0
    ensures ChunkPlainSize(MIN_CHUNK_SIZE, MIN_CHUNK_SIZE, 0) == 4096
  {
  }

  /** The lengths of the chunks from `index` on. */
  function PlainSizesFrom(plaintextSize: u64, chunkSize: u32, index: u32, count: u32): nat
    requires index <= count
    decreases count - index
  {
    if index == count then 0
    else ChunkPlainSize(plaintextSize, chunkSize, index) + PlainSizesFrom(plaintextSize, chunkSize, index + 1, count)
  }

  /** The chunk lengths add up to the plaintext: nothing is lost, nothing counted twice. */
  lemma {:induction false} ChunksSumToPlaintext(plaintextSize: u64, chunkSize: u32, index: u32)
    requires SizesInRange(plaintextSize, chunkSize)
    requires index <= ChunkCountFor(plaintextSize, chunkSize)
    ensures ChunkStart(plaintextSize, chunkSize, index)
          + PlainSizesFrom(plaintextSize, chunkSize, index, ChunkCountFor(plaintextSize, chunkSize))
         == plaintextSize
    decreases ChunkCountFor(plaintextSize, chunkSize) - index
  {
    var count := ChunkCountFor(plaintextSize, chunkSize);
    if index < count {
      ChunkStep(plaintextSize, chunkSize, index);
      ChunksSumToPlaintext(plaintextSize, chunkSize, index + 1);
    } else {
      ChunkCountExact(plaintextSize, chunkSize);
    }
  }

  /** Every plaintext byte belongs to exactly one chunk. */
  lemma EveryByteInOneChunk(plaintextSize: u64, chunkSize: u32, at: nat, index: u32)
    requires SizesInRange(plaintextSize, chunkSize)
    requires at < plaintextSize && index < ChunkCountFor(plaintextSize, chunkSize)
    ensures at / chunkSize < ChunkCountFor(plaintextSize, chunkSize)
    ensures index * chunkSize <= at < index * chunkSize + ChunkPlainSize(plaintextSize, chunkSize, index)
       <==> index == at / chunkSize
  {
    ChunkCountExact(plaintextSize, chunkSize);
    QuotientBelow(at, chunkSize, ChunkCountFor(plaintextSize, chunkSize));
    OneInterval(at, chunkSize, index);
    var start := index * chunkSize;
    assert ChunkPlainSize(plaintextSize, chunkSize, index) ==
           if start >= plaintextSize then 0 else if plaintextSize - start < chunkSize then plaintextSize - start else chunkSize;
  }

  lemma QuotientBelow(n: nat, d: nat, count: nat)
    requires d > 0 && n < count * d
    ensures n / d < count
  {
    var q := n / d;
    assert n == q * d + n % d;
    if q >= count {
      MulMono(d, count, q);
    }
  }

  lemma OneInterval(n: nat, d: nat, index: nat)
    requires d > 0
    ensures index * d <= n < index * d + d <==> index == n / d
  {
    var q := n / d;
    assert n == q * d + n % d;
    if index < q {
      MulMono(d, index + 1, q);
    } else if q < index {
      MulMono(d, q + 1, index);
    }
  }

  // ---- scrypt cost ----

  /** 128 * 2^logN * r as the C++ computes it, in 64 bits. */
  function KdfMemory(logN: byte, r: u32): u64 {
    (128 * (Pow2(logN) % U64_RANGE) * r) % U64_RANGE
  }

  lemma {:induction false} Pow2Bound(logN: nat)
    requires logN <= 20
    ensures Pow2(logN) <= 0x10_0000
    decreases 20 - logN
  {
    if logN == 20 {
      assert Pow2(5) == 32 by { assert Pow2(3) == 8; }
      assert Pow2(10) == 1024 by { assert Pow2(7) == 128; }
      assert Pow2(15) == 32768 by { assert Pow2(12) == 4096; }
      assert Pow2(17) == 4 * Pow2(15);
      assert Pow2(20) == 8 * Pow2(17);
    } else {
      Pow2Bound(logN + 1);
    }
  }

  /** Inside the individual ranges the 64-bit product is the true product. */
  lemma KdfMemoryExact(logN: byte, r: u32)
    requires logN <= MAX_KDF_LOG_N && r <= MAX_KDF_R
    ensures KdfMemory(logN, r) == 128 * Pow2(logN) * r
  {
    Pow2Bound(logN);
    Product64(Pow2(logN), r);
  }

  lemma Product64(n: nat, r: nat)
    requires n <= 0x10_0000 && r <= MAX_KDF_R
    ensures (128 * (n % U64_RANGE) * r) % U64_RANGE == 128 * n * r
  {
    assert n % U64_RANGE == n;
    var p := 128 * n;
    MulMono(p, r, MAX_KDF_R);
    SmallMod(p * r, U64_RANGE);
  }

  lemma SmallMod(n: nat, d: nat)
    requires n < d
    ensures n % d == n
  {
  }

  // ---- The file header ----

  /** The 64 header bytes, in three runs of fields. */
  function HeaderBytes(h: FileHeader): (s: Bytes)
    ensures |s| == HEADER_SIZE
  {
    IdentityBytes(h) + h.salt + h.noncePrefix + SizeBytes(h)
  }

  function IdentityBytes(h: FileHeader): (s: Bytes)
    ensures |s| == 22
  {
    MAGIC + LE(2, h.formatVersion) + [h.kdfId, h.aeadId, h.compressionId, h.kdfLogN] + LE(4, h.kdfR) + LE(4, h.kdfP)
  }

  function SizeBytes(h: FileHeader): (s: Bytes)
    ensures |s| == 18
  {
    LE(4, h.chunkSize) + LE(8, h.plaintextSize) + LE(4, h.chunkCount) + LE(2, 0)
  }

  /** The meaning of an acceptable header, stated on the fields alone and in
      unbounded arithmetic. */
  ghost predicate Acceptable(h: FileHeader) {
    && h.formatVersion == FORMAT_VERSION
    && h.kdfId == KDF_SCRYPT
    && h.aeadId == AEAD_AES256_GCM
    && (h.compressionId == COMPRESS_NONE || h.compressionId == COMPRESS_ZLIB)
    && MIN_KDF_LOG_N <= h.kdfLogN <= MAX_KDF_LOG_N
    && MIN_KDF_R <= h.kdfR <= MAX_KDF_R
    && MIN_KDF_P <= h.kdfP <= MAX_KDF_P
    && 128 * Pow2(h.kdfLogN) * h.kdfR <= MAX_KDF_MEMORY
    && SizesInRange(h.plaintextSize, h.chunkSize)
    && CountCovers(h.plaintextSize, h.chunkSize, h.chunkCount)
  }

  /** A value of n bytes read at offset `off`. */
  function Field(s: Bytes, off: nat, n: nat): nat
    requires off + n <= |s|
  {
    FromLE(s[off..off + n])
  }

  lemma FieldBound(s: Bytes, off: nat, n: nat)
    requires off + n <= |s|
    ensures Field(s, off, n) < Pow256(n)
    ensures s[off..off + n] == LE(n, Field(s, off, n))
  {
    WriteOfRead(s[off..off + n]);
  }

  function FieldU16(s: Bytes, off: nat): u16
    requires off + 2 <= |s|
  {
    FieldBound(s, off, 2);
    Pow256Values();
    Field(s, off, 2)
  }

  function FieldU32(s: Bytes, off: nat): u32
    requires off + 4 <= |s|
  {
    FieldBound(s, off, 4);
    Pow256Values();
    Field(s, off, 4)
  }

  function FieldU64(s: Bytes, off: nat): u64
    requires off + 8 <= |s|
  {
    FieldBound(s, off, 8);
    Pow256Values();
    Field(s, off, 8)
  }

  /** Every field at its offset, before any check. */
  function RawHeader(s: Bytes): FileHeader
    requires |s| >= HEADER_SIZE
  {
    FileHeader(
      FieldU16(s, 8), s[10], s[11], s[12], s[13], FieldU32(s, 14), FieldU32(s, 18),
      s[22..38], s[38..46], FieldU32(s, 46), FieldU64(s, 50), FieldU32(s, 58))
  }

  /** ParseFileHeader: the same tests in the same order. */
  function ParseHeader(s: Bytes): Result<FileHeader> {
    if |s| < HEADER_SIZE then Err(FORMAT)
    else if s[0..8] != MAGIC then Err(FORMAT)
    else
      var h := RawHeader(s);
      if h.formatVersion != FORMAT_VERSION then Err(UNSUPPORTED)
      else if h.kdfId != KDF_SCRYPT || h.aeadId != AEAD_AES256_GCM then Err(UNSUPPORTED)
      else if h.compressionId != COMPRESS_NONE && h.compressionId != COMPRESS_ZLIB then Err(UNSUPPORTED)
      else if FieldU16(s, 62) != 0 then Err(FORMAT)
      else if h.kdfLogN < MIN_KDF_LOG_N || h.kdfLogN > MAX_KDF_LOG_N || h.kdfR < MIN_KDF_R || h.kdfR > MAX_KDF_R
              || h.kdfP < MIN_KDF_P || h.kdfP > MAX_KDF_P then Err(UNSUPPORTED)
      else if KdfMemory(h.kdfLogN, h.kdfR) > MAX_KDF_MEMORY then Err(UNSUPPORTED)
      else if h.chunkSize < MIN_CHUNK_SIZE || h.chunkSize > MAX_CHUNK_SIZE then Err(FORMAT)
      else if h.plaintextSize > MAX_PLAINTEXT_SIZE then Err(TOO_LARGE)
      else if h.chunkCount != ChunkCountFor(h.plaintextSize, h.chunkSize) then Err(FORMAT)
      else Ok(h)
  }

  lemma IdentityLayout(h: FileHeader)
    ensures
      var s := IdentityBytes(h);
      && s[0..8] == MAGIC
      && s[8..10] == LE(2, h.formatVersion)
      && s[10] == h.kdfId && s[11] == h.aeadId && s[12] == h.compressionId && s[13] == h.kdfLogN
      && s[14..18] == LE(4, h.kdfR)
      && s[18..22] == LE(4, h.kdfP)
  {
  }

  lemma SizeLayout(h: FileHeader)
    ensures
      var s := SizeBytes(h);
      && s[0..4] == LE(4, h.chunkSize)
      && s[4..12] == LE(8, h.plaintextSize)
      && s[12..16] == LE(4, h.chunkCount)
      && s[16..18] == LE(2, 0)
  {
  }

  /** Every field of a serialized header is found again at its offset. */
  lemma RawOfHeaderBytes(h: FileHeader)
    ensures
      var s := HeaderBytes(h);
      && s[0..8] == MAGIC
      && RawHeader(s) == h
      && FieldU16(s, 62) == 0
  {
    hide FromLE, LE;
    var s := HeaderBytes(h);
    var a, z := IdentityBytes(h), SizeBytes(h);
    assert s[..22] == a && s[22..38] == h.salt && s[38..46] == h.noncePrefix && s[46..] == z;
    IdentityLayout(h);
    SizeLayout(h);
    assert s[0..8] == a[0..8] && s[8..10] == a[8..10] && s[14..18] == a[14..18] && s[18..22] == a[18..22];
    assert s[46..50] == z[0..4] && s[50..58] == z[4..12] && s[58..62] == z[12..16] && s[62..64] == z[16..18];
    Pow256Values();
    ReadOfWrite(2, h.formatVersion);
    ReadOfWrite(4, h.kdfR);
    ReadOfWrite(4, h.kdfP);
    ReadOfWrite(4, h.chunkSize);
    ReadOfWrite(8, h.plaintextSize);
    ReadOfWrite(4, h.chunkCount);
    ReadOfWrite(2, 0);
  }

  /** Where every field stands, and the magic, in numbers. */
  lemma HeaderLayout(h: FileHeader)
    ensures
      var s := HeaderBytes(h);
      && |s| == 64
      && s[0..8] == [0x4D, 0x43, 0x52, 0x59, 0x50, 0x54, 0x30, 0x32]
      && FromLE(s[8..10]) == h.formatVersion
      && s[10] == h.kdfId && s[11] == h.aeadId && s[12] == h.compressionId && s[13] == h.kdfLogN
      && FromLE(s[14..18]) == h.kdfR && FromLE(s[18..22]) == h.kdfP
      && s[22..38] == h.salt && s[38..46] == h.noncePrefix
      && FromLE(s[46..50]) == h.chunkSize && FromLE(s[50..58]) == h.plaintextSize && FromLE(s[58..62]) == h.chunkCount
      && s[62] == 0 && s[63] == 0
  {
    hide HeaderBytes, FromLE;
    RawOfHeaderBytes(h);
    var s := HeaderBytes(h);
    ZeroField(s[62..64]);
  }

  lemma ZeroField(s: Bytes)
    requires |s| == 2
    ensures FromLE(s) == 0 <==> s[0] == 0 && s[1] == 0
  {
    PlaceValues(s);
  }

  /** Reading the raw fields and writing them back gives the same 64 bytes. */
  lemma HeaderBytesOfRaw(s: Bytes)
    requires |s| >= HEADER_SIZE
    requires s[0..8] == MAGIC && FieldU16(s, 62) == 0
    ensures HeaderBytes(RawHeader(s)) == s[..HEADER_SIZE]
  {
    IdentityOfRaw(s);
    SizesOfRaw(s);
    assert s[..64] == s[..22] + s[22..38] + s[38..46] + s[46..64];
  }

  lemma IdentityOfRaw(s: Bytes)
    requires |s| >= HEADER_SIZE && s[0..8] == MAGIC
    ensures IdentityBytes(RawHeader(s)) == s[..22]
  {
    FieldBound(s, 8, 2);
    FieldBound(s, 14, 4);
    FieldBound(s, 18, 4);
    assert s[..22] == s[0..8] + s[8..10] + [s[10], s[11], s[12], s[13]] + s[14..18] + s[18..22];
  }

  lemma SizesOfRaw(s: Bytes)
    requires |s| >= HEADER_SIZE && FieldU16(s, 62) == 0
    ensures SizeBytes(RawHeader(s)) == s[46..64]
  {
    FieldBound(s, 46, 4);
    FieldBound(s, 50, 8);
    FieldBound(s, 58, 4);
    FieldBound(s, 62, 2);
    Cut(s, 46, 50, 64);
    Cut(s, 50, 58, 64);
    Cut(s, 58, 62, 64);
    assert s[46..64] == s[46..50] + s[50..58] + s[58..62] + s[62..64];
  }

  /** The parser accepts a string exactly when it starts with the serialization
      of an acceptable header, and then returns that header. */
  lemma ParseHeaderExact(s: Bytes, h: FileHeader)
    ensures ParseHeader(s) == Ok(h)
      <==> |s| >= HEADER_SIZE && s[..HEADER_SIZE] == HeaderBytes(h) && Acceptable(h)
  {
    if ParseHeader(s) == Ok(h) {
      HeaderBytesOfRaw(s);
      KdfMemoryExact(h.kdfLogN, h.kdfR);
      ChunkCountExact(h.plaintextSize, h.chunkSize);
    }
    if |s| >= HEADER_SIZE && s[..HEADER_SIZE] == HeaderBytes(h) && Acceptable(h) {
      RawOfHeaderBytes(h);
      RawOfPrefix(s);
      KdfMemoryExact(h.kdfLogN, h.kdfR);
      ChunkCountExact(h.plaintextSize, h.chunkSize);
      CountCoversUnique(h.plaintextSize, h.chunkSize, h.chunkCount, ChunkCountFor(h.plaintextSize, h.chunkSize));
    }
  }

  /** The parser looks at the first 64 bytes only. */
  lemma RawOfPrefix(s: Bytes)
    requires |s| >= HEADER_SIZE
    ensures RawHeader(s) == RawHeader(s[..HEADER_SIZE])
    ensures FieldU16(s, 62) == FieldU16(s[..HEADER_SIZE], 62)
    ensures s[0..8] == s[..HEADER_SIZE][0..8]
  {
    var t := s[..HEADER_SIZE];
    assert s[8..10] == t[8..10] && s[14..18] == t[14..18] && s[18..22] == t[18..22];
    assert s[22..38] == t[22..38] && s[38..46] == t[38..46];
    assert s[46..50] == t[46..50] && s[50..58] == t[50..58] && s[58..62] == t[58..62] && s[62..64] == t[62..64];
  }

  /** Different headers have different bytes. */
  lemma HeaderBytesInjective(a: FileHeader, b: FileHeader)
    requires HeaderBytes(a) == HeaderBytes(b)
    ensures a == b
  {
    RawOfHeaderBytes(a);
    RawOfHeaderBytes(b);
  }

  /** The header of tests/vectors/v2-two-chunks.mcrypt: two chunks of 4096 bytes,
      scrypt with 2^14, 8 and 1. */
  function VectorHeader(): FileHeader {
    FileHeader(
      2, 1, 1, 1, 14, 8, 1,
      [0xD4, 0xCD, 0x53, 0x21, 0x48, 0xC6, 0x01, 0x0A, 0xE5, 0x68, 0xD1, 0x7E, 0xEC, 0x92, 0x75, 0x8B],
      [0xB9, 0x0E, 0xA7, 0x2B, 0xCD, 0x97, 0x36, 0x8A],
      0x1000, 0x2000, 2)
  }

  /** Its 64 bytes, as they stand in the file. */
  lemma VectorHeaderBytes()
    ensures HeaderBytes(VectorHeader()) ==
      [0x4D, 0x43, 0x52, 0x59, 0x50, 0x54, 0x30, 0x32]
      + [0x02, 0x00] + [0x01, 0x01, 0x01, 0x0E] + [0x08, 0x00, 0x00, 0x00] + [0x01, 0x00, 0x00, 0x00]
      + [0xD4, 0xCD, 0x53, 0x21, 0x48, 0xC6, 0x01, 0x0A, 0xE5, 0x68, 0xD1, 0x7E, 0xEC, 0x92, 0x75, 0x8B]
      + [0xB9, 0x0E, 0xA7, 0x2B, 0xCD, 0x97, 0x36, 0x8A]
      + ([0x00, 0x10, 0x00, 0x00] + [0x00, 0x20, 0x00, 0x00, 0x00, 0x00, 0x00, 0x00] + [0x02, 0x00, 0x00, 0x00] + [0x00, 0x00])
  {
    hide LE;
    FromBytes([0x02, 0x00], 2);
    FromBytes([0x08, 0x00, 0x00, 0x00], 8);
    FromBytes([0x01, 0x00, 0x00, 0x00], 1);
    FromBytes([0x00, 0x10, 0x00, 0x00], 0x1000);
    FromBytes([0x00, 0x20, 0x00, 0x00, 0x00, 0x00, 0x00, 0x00], 0x2000);
    FromBytes([0x02, 0x00, 0x00, 0x00], 2);
    FromBytes([0x00, 0x00], 0);
  }

  lemma FromBytes(s: Bytes, v: nat)
    requires |s| == 2 ==> var b0: nat, b1: nat := s[0], s[1]; v == b0 + 0x100 * b1
    requires |s| == 4 || |s| == 8 ==>
      var b0: nat, b1: nat, b2: nat, b3: nat := s[0], s[1], s[2], s[3];
      v == b0 + 0x100 * b1 + 0x1_0000 * b2 + 0x100_0000 * b3
    requires |s| == 8 ==> s[4] == 0 && s[5] == 0 && s[6] == 0 && s[7] == 0
    requires |s| == 2 || |s| == 4 || |s| == 8
    ensures LE(|s|, v) == s
  {
    PlaceValues(s);
    if |s| == 8 {
      PlaceValues(s[..4]);
      PlaceValues(s[4..]);
    }
    WriteOfRead(s);
  }

  // ---- Which status for which defect ----

  /** Not a container at all: too short, or another magic. */
  ghost predicate Foreign(s: Bytes) {
    |s| < 64 || s[0..8] != [0x4D, 0x43, 0x52, 0x59, 0x50, 0x54, 0x30, 0x32]
  }

  /** Another version, key derivation, cipher or compressor. */
  ghost predicate UnknownIds(s: Bytes)
    requires |s| >= 64
  {
    FromLE(s[8..10]) != 2 || s[10] != 1 || s[11] != 1 || (s[12] != 0 && s[12] != 1)
  }

  /** scrypt parameters out of their ranges, or more than 1 GiB of memory together. */
  ghost predicate CostOutOfRange(s: Bytes)
    requires |s| >= 64
  {
    var logN: nat, r, p := s[13], FromLE(s[14..18]), FromLE(s[18..22]);
    logN < 14 || logN > 20 || r < 1 || r > 32 || p < 1 || p > 16 || 128 * Pow2(logN) * r > 0x4000_0000
  }

  ghost predicate ChunkSizeOutOfRange(s: Bytes)
    requires |s| >= 64
  {
    FromLE(s[46..50]) < 0x1000 || FromLE(s[46..50]) > 0x400_0000
  }

  ghost predicate PlaintextTooLarge(s: Bytes)
    requires |s| >= 64
  {
    FromLE(s[50..58]) > 0x10_0000_0000
  }

  /** The chunk count is not the one that covers the plaintext. */
  ghost predicate WrongCount(s: Bytes)
    requires |s| >= 64
  {
    !CountCovers(FromLE(s[50..58]), FromLE(s[46..50]), FromLE(s[58..62]))
  }

  /** The header is answered MC_ERR_FORMAT: the first defect is one of shape. */
  ghost predicate HeaderMalformed(s: Bytes) {
    Foreign(s) ||
    (!UnknownIds(s) &&
       (s[62] != 0 || s[63] != 0 ||
        (!CostOutOfRange(s) && (ChunkSizeOutOfRange(s) || (!PlaintextTooLarge(s) && WrongCount(s))))))
  }

  /** It is answered MC_ERR_UNSUPPORTED: a container, but not one this build can read. */
  ghost predicate HeaderUnsupported(s: Bytes) {
    !Foreign(s) && (UnknownIds(s) || (s[62] == 0 && s[63] == 0 && CostOutOfRange(s)))
  }

  /** It is answered MC_ERR_TOO_LARGE: nothing is wrong with it up to the plaintext size. */
  ghost predicate HeaderTooLarge(s: Bytes) {
    && !Foreign(s) && !UnknownIds(s) && s[62] == 0 && s[63] == 0
    && !CostOutOfRange(s) && !ChunkSizeOutOfRange(s) && PlaintextTooLarge(s)
  }

  /** The status of the header parse, for every string of bytes. */
  lemma HeaderStatusExact(s: Bytes)
    ensures ParseHeader(s) == Err(FORMAT) <==> HeaderMalformed(s)
    ensures ParseHeader(s) == Err(UNSUPPORTED) <==> HeaderUnsupported(s)
    ensures ParseHeader(s) == Err(TOO_LARGE) <==> HeaderTooLarge(s)
    ensures ParseHeader(s).Ok? <==> !HeaderMalformed(s) && !HeaderUnsupported(s) && !HeaderTooLarge(s)
  {
    hide FromLE, KdfMemory, ChunkCountFor, CountCovers, Pow2;
    if |s| >= 64 {
      ZeroField(s[62..64]);
      CostAgrees(s);
      if !ChunkSizeOutOfRange(s) && !PlaintextTooLarge(s) {
        CountAgrees(s);
      }
    }
  }

  lemma CostAgrees(s: Bytes)
    requires |s| >= 64
    ensures var h := RawHeader(s);
      h.kdfLogN <= 20 && h.kdfR <= 32 ==> KdfMemory(h.kdfLogN, h.kdfR) == 128 * Pow2(s[13]) * FromLE(s[14..18])
  {
    hide FromLE, KdfMemory;
    var h := RawHeader(s);
    if h.kdfLogN <= 20 && h.kdfR <= 32 {
      KdfMemoryExact(h.kdfLogN, h.kdfR);
    }
  }

  lemma CountAgrees(s: Bytes)
    requires |s| >= 64 && !ChunkSizeOutOfRange(s) && !PlaintextTooLarge(s)
    ensures var h := RawHeader(s);
      h.chunkCount == ChunkCountFor(h.plaintextSize, h.chunkSize) <==> !WrongCount(s)
  {
    hide FromLE, ChunkCountFor;
    var h := RawHeader(s);
    ChunkCountExact(h.plaintextSize, h.chunkSize);
    if !WrongCount(s) {
      CountCoversUnique(h.plaintextSize, h.chunkSize, h.chunkCount, ChunkCountFor(h.plaintextSize, h.chunkSize));
    }
  }

  /** One header that is accepted, and what changing one byte of it makes of the answer. */
  lemma OneByteChanged(s: Bytes, at: nat, value: byte)
    requires ParseHeader(s).Ok? && at < |s| && s[at] != value
    ensures at < 8 ==> ParseHeader(s[at := value]) == Err(FORMAT)
    ensures at == 8 || at == 9 || at == 10 || at == 11 ==> ParseHeader(s[at := value]) == Err(UNSUPPORTED)
    ensures at == 12 && value > 1 ==> ParseHeader(s[at := value]) == Err(UNSUPPORTED)
    ensures at == 13 && (value < 14 || value > 20) ==> ParseHeader(s[at := value]) == Err(UNSUPPORTED)
    ensures at == 62 || at == 63 ==> ParseHeader(s[at := value]) == Err(FORMAT)
  {
    hide FromLE, KdfMemory, ChunkCountFor, CountCovers, Pow2, ParseHeader;
    HeaderStatusExact(s);
    HeaderStatusExact(s[at := value]);
    OtherBytesStay(s, at, value);
  }

  lemma OtherBytesStay(s: Bytes, at: nat, value: byte)
    requires |s| >= 64 && at < |s| && s[at] != value
    ensures var t := s[at := value];
      && (at < 8 ==> t[0..8] != s[0..8])
      && (at >= 8 ==> t[0..8] == s[0..8])
      && (8 <= at < 10 ==> FromLE(t[8..10]) != FromLE(s[8..10]))
      && (at >= 10 ==> t[8..10] == s[8..10])
  {
    var t := s[at := value];
    if at < 8 {
      assert t[0..8][at] != s[0..8][at];
    } else if at < 10 {
      PlaceValues(t[8..10]);
      PlaceValues(s[8..10]);
    }
  }

  // ---- The chunk record ----

  function RecordBytes(c: ChunkHeader, tag: Tag): (s: Bytes)
    ensures |s| == CHUNK_HEADER_SIZE
  {
    LE(4, c.storedSize) + [c.flags] + Zeros(3) + tag
  }

  /** The record, byte range by byte range. */
  lemma RecordLayout(c: ChunkHeader, tag: Tag)
    ensures
      var s := RecordBytes(c, tag);
      && |s| == 24
      && FromLE(s[0..4]) == c.storedSize
      && s[4] == c.flags
      && s[5] == 0 && s[6] == 0 && s[7] == 0
      && s[8..24] == tag
  {
    var s := RecordBytes(c, tag);
    assert s[0..4] == LE(4, c.storedSize);
    Pow256Values();
    ReadOfWrite(4, c.storedSize);
  }

  /** ParseChunkHeader, on the 24 record bytes at the front of `s`. */
  function ParseRecord(s: Bytes, maxStoredSize: u32): Result<(ChunkHeader, Tag)>
    requires |s| >= CHUNK_HEADER_SIZE
  {
    var c := ChunkHeader(FieldU32(s, 0), s[4]);
    if c.flags >= 2 then Err(FORMAT)
    else if s[5] != 0 || s[6] != 0 || s[7] != 0 then Err(FORMAT)
    else if c.storedSize > maxStoredSize then Err(FORMAT)
    else Ok((c, s[8..24]))
  }

  /** The record parser accepts exactly the canonical bytes of a record within its limits. */
  lemma ParseRecordExact(s: Bytes, maxStoredSize: u32, c: ChunkHeader, tag: Tag)
    requires |s| >= CHUNK_HEADER_SIZE
    ensures ParseRecord(s, maxStoredSize) == Ok((c, tag))
      <==> s[..CHUNK_HEADER_SIZE] == RecordBytes(c, tag) && c.flags < 2 && c.storedSize <= maxStoredSize
  {
    FieldBound(s, 0, 4);
    var t := RecordBytes(c, tag);
    assert t[..4] == LE(4, c.storedSize) && t[4] == c.flags && t[5..8] == Zeros(3) && t[8..24] == tag;
    if ParseRecord(s, maxStoredSize) == Ok((c, tag)) {
      assert s[..24] == s[0..4] + [s[4]] + s[5..8] + s[8..24];
      assert s[5..8] == Zeros(3);
    }
    if s[..CHUNK_HEADER_SIZE] == t && c.flags < 2 && c.storedSize <= maxStoredSize {
      assert s[0..4] == t[..4] && s[8..24] == t[8..24] && s[5..8] == t[5..8];
      assert s[4] == t[4] && s[5] == t[5] && s[6] == t[6] && s[7] == t[7];
      Pow256Values();
      ReadOfWrite(4, c.storedSize);
    }
  }

  // ---- Associated data and nonce ----

  function Aad(serializedHeader: Bytes, index: u32, c: ChunkHeader): (s: Bytes)
    requires |serializedHeader| == HEADER_SIZE
    ensures |s| == AAD_SIZE
  {
    serializedHeader + LE(4, index) + LE(4, c.storedSize) + [c.flags]
  }

  function Nonce(prefix: NoncePrefix, index: u32): (s: Bytes)
    ensures |s| == NONCE_SIZE
  {
    prefix + BE(4, index)
  }

  /** Equal associated data means the same header bytes, position, size and flags. */
  lemma AadInjective(hb: Bytes, i: u32, c: ChunkHeader, hb': Bytes, i': u32, c': ChunkHeader)
    requires |hb| == HEADER_SIZE && |hb'| == HEADER_SIZE
    requires Aad(hb, i, c) == Aad(hb', i', c')
    ensures hb == hb' && i == i' && c == c'
  {
    var s, s' := Aad(hb, i, c), Aad(hb', i', c');
    assert s[..64] == hb && s'[..64] == hb';
    assert s[64..68] == LE(4, i) && s'[64..68] == LE(4, i');
    assert s[68..72] == LE(4, c.storedSize) && s'[68..72] == LE(4, c'.storedSize);
    assert s[72] == c.flags && s'[72] == c'.flags;
    Pow256Values();
    LEInjective(4, i, i');
    LEInjective(4, c.storedSize, c'.storedSize);
  }

  /** The associated data, byte range by byte range. */
  lemma AadLayout(serializedHeader: Bytes, index: u32, c: ChunkHeader)
    requires |serializedHeader| == 64
    ensures
      var s := Aad(serializedHeader, index, c);
      && |s| == 73
      && s[0..64] == serializedHeader
      && FromLE(s[64..68]) == index && FromLE(s[68..72]) == c.storedSize
      && s[72] == c.flags
  {
    var s := Aad(serializedHeader, index, c);
    assert s[64..68] == LE(4, index) && s[68..72] == LE(4, c.storedSize);
    Pow256Values();
    ReadOfWrite(4, index);
    ReadOfWrite(4, c.storedSize);
  }

  /** Twelve bytes: the prefix, then the chunk index, most significant byte first. */
  ghost predicate IsNonce(n: Bytes, noncePrefix: NoncePrefix, index: u32) {
    && |n| == 12
    && n[0..8] == noncePrefix
    && var b8: nat, b9: nat, b10: nat, b11: nat := n[8], n[9], n[10], n[11];
       0x100_0000 * b8 + 0x1_0000 * b9 + 0x100 * b10 + b11 == index
  }

  /** That describes the nonce of a position and no other bytes. */
  lemma NonceExact(n: Bytes, noncePrefix: NoncePrefix, index: u32)
    ensures n == Nonce(noncePrefix, index) <==> IsNonce(n, noncePrefix, index)
  {
    var s := Nonce(noncePrefix, index);
    assert s[0..8] == noncePrefix && s[8..12] == BE(4, index);
    BigEndianDigits(index);
    if IsNonce(n, noncePrefix, index) {
      FourDigits(n[8], n[9], n[10], n[11], s[8], s[9], s[10], s[11]);
      assert n == n[0..8] + [n[8], n[9], n[10], n[11]];
      assert s == s[0..8] + [s[8], s[9], s[10], s[11]];
    }
  }

  lemma BigEndianDigits(v: u32)
    ensures var s := BE(4, v);
      var b0: nat, b1: nat, b2: nat, b3: nat := s[0], s[1], s[2], s[3];
      0x100_0000 * b0 + 0x1_0000 * b1 + 0x100 * b2 + b3 == v
  {
    var q1, q2, q3 := v / 256, v / 256 / 256, v / 256 / 256 / 256;
    assert BE(1, q3) == [q3 % 256];
    assert BE(2, q2) == BE(1, q3) + [q2 % 256];
    assert BE(3, q1) == BE(2, q2) + [q1 % 256];
    assert BE(4, v) == BE(3, q1) + [v % 256];
    assert q3 < 256;
  }

  lemma FourDigits(a0: byte, a1: byte, a2: byte, a3: byte, b0: byte, b1: byte, b2: byte, b3: byte)
    requires var x0: nat, x1: nat, x2: nat, x3: nat, y0: nat, y1: nat, y2: nat, y3: nat := a0, a1, a2, a3, b0, b1, b2, b3;
      0x100_0000 * x0 + 0x1_0000 * x1 + 0x100 * x2 + x3 == 0x100_0000 * y0 + 0x1_0000 * y1 + 0x100 * y2 + y3
    ensures a0 == b0 && a1 == b1 && a2 == b2 && a3 == b3
  {
  }

  /** Chunk 1, and chunk 0x01020304, in bytes. */
  lemma NonceInBytes(noncePrefix: NoncePrefix)
    ensures Nonce(noncePrefix, 1) == noncePrefix + [0, 0, 0, 1]
    ensures Nonce(noncePrefix, 0x0102_0304) == noncePrefix + [1, 2, 3, 4]
  {
    NonceExact(noncePrefix + [0, 0, 0, 1], noncePrefix, 1);
    NonceExact(noncePrefix + [1, 2, 3, 4], noncePrefix, 0x0102_0304);
  }

  /** Equal nonces mean the same prefix and the same chunk index. */
  lemma NonceInjective(p: NoncePrefix, i: u32, p': NoncePrefix, i': u32)
    requires Nonce(p, i) == Nonce(p', i')
    ensures p == p' && i == i'
  {
    var s, s' := Nonce(p, i), Nonce(p', i');
    assert s[..8] == p && s'[..8] == p';
    assert s[8..12] == BE(4, i) && s'[8..12] == BE(4, i');
    Pow256Values();
    BEInjective(4, i, i');
  }

  // ---- The same codecs over buffers ----

  method SerializeFileHeader(header: FileHeader, out: array<byte>)
    requires out.Length == HEADER_SIZE
    modifies out
    ensures out[..] == HeaderBytes(header)
  {
    Fill(out, 0, HEADER_SIZE);
    SerializeIdentity(header, out);
    ghost var beforeSalt := out[..];
    CopyIn(out, 22, header.salt);
    Extends(beforeSalt, out[..], 0, 22, header.salt);
    ghost var beforePrefix := out[..];
    CopyIn(out, 38, header.noncePrefix);
    Extends(beforePrefix, out[..], 0, 38, header.noncePrefix);
    ghost var beforeSizes := out[..];
    SerializeSizes(header, out);
    Extends(beforeSizes, out[..], 0, 46, SizeBytes(header));
    assert out[..] == out[0..64];
  }

  method SerializeIdentity(header: FileHeader, out: array<byte>)
    requires out.Length == HEADER_SIZE
    modifies out
    ensures out[0..22] == IdentityBytes(header)
  {
    ghost var beforeMagic := out[..];
    CopyIn(out, 0, MAGIC);
    Extends(beforeMagic, out[..], 0, 0, MAGIC);
    ghost var beforeVersion := out[..];
    WriteU16(out, 8, header.formatVersion);
    Extends(beforeVersion, out[..], 0, 8, LE(2, header.formatVersion));
    ghost var start := out[0..10];
    WriteU8(out, 10, header.kdfId);
    WriteU8(out, 11, header.aeadId);
    WriteU8(out, 12, header.compressionId);
    WriteU8(out, 13, header.kdfLogN);
    assert out[0..14] == start + [header.kdfId, header.aeadId, header.compressionId, header.kdfLogN];
    ghost var beforeR := out[..];
    WriteU32(out, 14, header.kdfR);
    Extends(beforeR, out[..], 0, 14, LE(4, header.kdfR));
    ghost var beforeP := out[..];
    WriteU32(out, 18, header.kdfP);
    Extends(beforeP, out[..], 0, 18, LE(4, header.kdfP));
  }

  method SerializeSizes(header: FileHeader, out: array<byte>)
    requires out.Length == HEADER_SIZE
    modifies out
    ensures Wrote(old(out[..]), out[..], 46, SizeBytes(header))
  {
    ghost var beforeChunk := out[..];
    WriteU32(out, 46, header.chunkSize);
    Extends(beforeChunk, out[..], 46, 46, LE(4, header.chunkSize));
    ghost var beforePlain := out[..];
    WriteU64(out, 50, header.plaintextSize);
    Extends(beforePlain, out[..], 46, 50, LE(8, header.plaintextSize));
    ghost var beforeCount := out[..];
    WriteU32(out, 58, header.chunkCount);
    Extends(beforeCount, out[..], 46, 58, LE(4, header.chunkCount));
    ghost var beforeReserved := out[..];
    WriteU16(out, 62, 0);
    Extends(beforeReserved, out[..], 46, 62, LE(2, 0));
  }

  /** ParseFileHeader. The header out-parameter is written on success only, so
      it is the value of the result. */
  method ParseFileHeader(input: array?<byte>) returns (r: Result<FileHeader>)
    ensures input == null ==> r == Err(INVALID_ARG)
    ensures input != null ==> r == ParseHeader(input[..])
  {
    hide FromLE, KdfMemory, ChunkCountFor;
    if input == null {
      return Err(INVALID_ARG);
    }
    if input.Length < HEADER_SIZE {
      return Err(FORMAT);
    }
    ghost var s := input[..];
    if input[0..8] != MAGIC {
      return Err(FORMAT);
    }
    var formatVersion := ReadU16(input, 8);
    if formatVersion != FORMAT_VERSION {
      return Err(UNSUPPORTED);
    }
    var kdfId, aeadId := input[10], input[11];
    if kdfId != KDF_SCRYPT || aeadId != AEAD_AES256_GCM {
      return Err(UNSUPPORTED);
    }
    var compressionId := input[12];
    if compressionId != COMPRESS_NONE && compressionId != COMPRESS_ZLIB {
      return Err(UNSUPPORTED);
    }
    var reserved := ReadU16(input, 62);
    if reserved != 0 {
      return Err(FORMAT);
    }
    var kdfLogN := input[13];
    var kdfR := ReadU32(input, 14);
    var kdfP := ReadU32(input, 18);
    if kdfLogN < MIN_KDF_LOG_N || kdfLogN > MAX_KDF_LOG_N || kdfR < MIN_KDF_R || kdfR > MAX_KDF_R
       || kdfP < MIN_KDF_P || kdfP > MAX_KDF_P {
      return Err(UNSUPPORTED);
    }
    if KdfMemory(kdfLogN, kdfR) > MAX_KDF_MEMORY {
      return Err(UNSUPPORTED);
    }
    var salt, noncePrefix := input[22..38], input[38..46];
    var chunkSize := ReadU32(input, 46);
    if chunkSize < MIN_CHUNK_SIZE || chunkSize > MAX_CHUNK_SIZE {
      return Err(FORMAT);
    }
    var plaintextSize := ReadU64(input, 50);
    if plaintextSize > MAX_PLAINTEXT_SIZE {
      return Err(TOO_LARGE);
    }
    var chunkCount := ReadU32(input, 58);
    if chunkCount != ChunkCountFor(plaintextSize, chunkSize) {
      return Err(FORMAT);
    }
    return Ok(FileHeader(formatVersion, kdfId, aeadId, compressionId, kdfLogN, kdfR, kdfP, salt, noncePrefix,
                         chunkSize, plaintextSize, chunkCount));
  }

  /** The bytes between flags and tag are the ones the initial memset left. */
  lemma RecordFront(zeroed: Bytes, sized: Bytes, flagged: Bytes, off: nat, size: Bytes, flags: byte)
    requires |size| == 4 && off + CHUNK_HEADER_SIZE <= |zeroed|
    requires zeroed[off..off + CHUNK_HEADER_SIZE] == Zeros(CHUNK_HEADER_SIZE)
    requires Wrote(zeroed, sized, off, size) && Wrote(sized, flagged, off + 4, [flags])
    ensures flagged[off..off + 8] == size + [flags] + Zeros(3)
    ensures flagged[..off] == zeroed[..off]
    ensures flagged[off + CHUNK_HEADER_SIZE..] == zeroed[off + CHUNK_HEADER_SIZE..]
  {
    Extends(zeroed, sized, off, off, size);
    Extends(sized, flagged, off, off + 4, [flags]);
    Cut(flagged, off, off + 5, off + 8);
    forall k | off + 5 <= k < off + 8 ensures flagged[k] == 0 {
      assert flagged[k] == flagged[off + 5..][k - off - 5] == sized[off + 5..][k - off - 5];
      assert sized[k] == sized[off + 4..][k - off - 4] == zeroed[off + 4..][k - off - 4];
      assert zeroed[k] == zeroed[off..off + CHUNK_HEADER_SIZE][k - off];
    }
    assert flagged[off + 5..off + 8] == Zeros(3);
    assert flagged[off + CHUNK_HEADER_SIZE..] == flagged[off + 5..][19..] == sized[off + 5..][19..];
    assert sized[off + CHUNK_HEADER_SIZE..] == sized[off + 4..][20..] == zeroed[off + 4..][20..];
  }

  method SerializeChunkHeader(chunk: ChunkHeader, tag: Tag, out: array<byte>, off: nat)
    requires off + CHUNK_HEADER_SIZE <= out.Length
    modifies out
    ensures Wrote(old(out[..]), out[..], off, RecordBytes(chunk, tag))
  {
    Fill(out, off, CHUNK_HEADER_SIZE);
    ghost var beforeSize := out[..];
    WriteU32(out, off, chunk.storedSize);
    ghost var beforeFlags := out[..];
    WriteU8(out, off + 4, chunk.flags);
    RecordFront(beforeSize, beforeFlags, out[..], off, LE(4, chunk.storedSize), chunk.flags);
    ghost var beforeTag := out[..];
    CopyIn(out, off + 8, tag);
    Extends(beforeTag, out[..], off, off + 8, tag);
  }

  method ParseChunkHeader(input: array<byte>, off: nat, maxStoredSize: u32) returns (r: Result<(ChunkHeader, Tag)>)
    requires off + CHUNK_HEADER_SIZE <= input.Length
    ensures r == ParseRecord(input[off..], maxStoredSize)
  {
    ghost var s := input[off..];
    assert s[0..4] == input[off..off + 4] && s[8..24] == input[off + 8..off + 24];
    var storedSize := ReadU32(input, off);
    var flags := input[off + 4];
    FlagTests(flags);
    if And(flags, 0xFE) != 0 {
      return Err(FORMAT);
    }
    for i := 0 to 3
      invariant forall j | 5 <= j < 5 + i :: s[j] == 0
    {
      if input[off + 5 + i] != 0 {
        assert s[5 + i] != 0;
        return Err(FORMAT);
      }
    }
    if storedSize > maxStoredSize {
      return Err(FORMAT);
    }
    return Ok((ChunkHeader(storedSize, flags), input[off + 8..off + 24]));
  }

  /** BuildAad: the header bytes come from the buffer they were written to or read from. */
  method BuildAad(serializedHeader: array<byte>, index: u32, chunk: ChunkHeader, out: array<byte>)
    requires serializedHeader.Length >= HEADER_SIZE && out.Length == AAD_SIZE && out != serializedHeader
    modifies out
    ensures out[..] == Aad(serializedHeader[..HEADER_SIZE], index, chunk)
  {
    ghost var beforeHeader := out[..];
    CopyIn(out, 0, serializedHeader[..HEADER_SIZE]);
    Extends(beforeHeader, out[..], 0, 0, serializedHeader[..HEADER_SIZE]);
    ghost var beforeIndex := out[..];
    WriteU32(out, HEADER_SIZE, index);
    Extends(beforeIndex, out[..], 0, HEADER_SIZE, LE(4, index));
    ghost var beforeSize := out[..];
    WriteU32(out, HEADER_SIZE + 4, chunk.storedSize);
    Extends(beforeSize, out[..], 0, HEADER_SIZE + 4, LE(4, chunk.storedSize));
    ghost var beforeFlags := out[..];
    WriteU8(out, HEADER_SIZE + 8, chunk.flags);
    Extends(beforeFlags, out[..], 0, HEADER_SIZE + 8, [chunk.flags]);
    assert out[..] == out[0..AAD_SIZE];
  }

  method BuildNonce(noncePrefix: NoncePrefix, index: u32, out: array<byte>)
    requires out.Length == NONCE_SIZE
    modifies out
    ensures out[..] == Nonce(noncePrefix, index)
    ensures out[..8] == noncePrefix
    ensures var b8: nat, b9: nat, b10: nat, b11: nat := out[8], out[9], out[10], out[11];
      0x100_0000 * b8 + 0x1_0000 * b9 + 0x100 * b10 + b11 == index
  {
    CopyIn(out, 0, noncePrefix);
    ghost var counter := BE(4, index);
    ShiftSelectsBigDigit(4, index, 0);
    ShiftSelectsBigDigit(4, index, 1);
    ShiftSelectsBigDigit(4, index, 2);
    ShiftSelectsBigDigit(4, index, 3);
    out[8] := And(Shr8(index, 3), 0xFF);
    out[9] := And(Shr8(index, 2), 0xFF);
    out[10] := And(Shr8(index, 1), 0xFF);
    out[11] := And(index, 0xFF);
    assert counter == [counter[0], counter[1], counter[2], counter[3]];
    assert out[..] == out[..8] + [out[8], out[9], out[10], out[11]];
    assert out[..8] == noncePrefix;
    BigEndianDigits(index);
  }

  /** The two stack buffers every seal and every open starts from. */
  method BindChunk(serializedHeader: array<byte>, noncePrefix: NoncePrefix, index: u32, chunk: ChunkHeader)
    returns (aad: array<byte>, nonce: array<byte>)
    requires serializedHeader.Length >= HEADER_SIZE
    ensures fresh(aad) && aad[..] == Aad(serializedHeader[..HEADER_SIZE], index, chunk)
    ensures fresh(nonce) && nonce[..] == Nonce(noncePrefix, index) && IsNonce(nonce[..], noncePrefix, index)
    ensures aad.Length == AAD_SIZE && nonce.Length == NONCE_SIZE && aad != nonce
  {
    aad := new byte[AAD_SIZE](_ => 0);
    BuildAad(serializedHeader, index, chunk, aad);
    nonce := new byte[NONCE_SIZE](_ => 0);
    BuildNonce(noncePrefix, index, nonce);
    NonceExact(nonce[..], noncePrefix, index);
  }
}
