/** src/crypt/decrypt.cc: the three-phase decoder over an untrusted buffer. */
module Decrypt {
  import opened Wire
  import opened Format
  import opened Memory
  import opened Primitives
  import opened Container
  import opened Runs
  import opened Decoding

  const ENTRY_SIZE := 32  // sizeof(ChunkEntry) on a 64-bit host

  /** One row of the table the walk fills in. */
  datatype Entry = Entry(offset: nat, header: ChunkHeader, tag: Tag)

  /** The row says where the chunk's record was and where its payload is. */
  ghost predicate EntryFor(s: Bytes, e: Entry, c: Chunk) {
    && e.header == c.header && e.tag == c.tag
    && HEADER_SIZE + CHUNK_HEADER_SIZE <= e.offset
    && e.offset + e.header.storedSize <= |s|
    && s[e.offset..e.offset + e.header.storedSize] == c.ciphertext
  }

  ghost predicate TableFor(s: Bytes, entries: seq<Entry>, chunks: seq<Chunk>) {
    && |entries| == |chunks|
    && forall i | 0 <= i < |chunks| :: EntryFor(s, entries[i], chunks[i])
  }

  /** Row after row the payloads tile the input up to `offset`: each starts one
      record after the end of the one before. */
  ghost predicate Tiles(entries: seq<Entry>, offset: nat) {
    && offset == (if entries == [] then HEADER_SIZE else EndOf(entries[|entries| - 1]))
    && forall i | 0 <= i < |entries| ::
         entries[i].offset == CHUNK_HEADER_SIZE + if i == 0 then HEADER_SIZE else EndOf(entries[i - 1])
  }

  lemma TableSnoc(s: Bytes, entries: seq<Entry>, chunks: seq<Chunk>, offset: nat, e: Entry, c: Chunk)
    requires TableFor(s, entries, chunks) && Tiles(entries, offset)
    requires EntryFor(s, e, c) && e.offset == offset + CHUNK_HEADER_SIZE
    ensures TableFor(s, entries + [e], chunks + [c]) && Tiles(entries + [e], EndOf(e))
  {
    var es, cs := entries + [e], chunks + [c];
    forall i | 0 <= i < |cs| ensures EntryFor(s, es[i], cs[i]) {
      if i < |chunks| {
        assert EntryFor(s, entries[i], chunks[i]);
      }
    }
  }

  function EndOf(e: Entry): nat {
    e.offset + e.header.storedSize
  }

  /** `chunks` first, then whatever `rest` is. */
  function After(chunks: seq<Chunk>, rest: Result<seq<Chunk>>): Result<seq<Chunk>> {
    match rest
    case Ok(more) => Ok(chunks + more)
    case Err(e) => Err(e)
  }

  /** One step of the walk, with its checks in their order. */
  method WalkStep(input: array<byte>, offset: nat, header: FileHeader, index: u32, maxStoredSize: u32)
    returns (r: Result<Entry>)
    requires HEADER_SIZE <= offset <= input.Length
    requires index < header.chunkCount && maxStoredSize == MaxStoredSizeFor(header.chunkSize)
    ensures r.Err? ==> r == Err(FORMAT) && ParseBody(input[offset..], header, index) == Err(FORMAT)
    ensures r.Ok? ==>
      var e := r.value;
      && e.offset == offset + CHUNK_HEADER_SIZE && EndOf(e) <= input.Length
      && var c := Chunk(e.header, e.tag, input[e.offset..EndOf(e)]);
      && ChunkOk(header, index, c)
      && ParseBody(input[offset..], header, index) == After([c], ParseBody(input[EndOf(e)..], header, index + 1))
  {
    hide ParseRecord, ChunkPlainSize, ParseBody, ChunkOk, After;
    if input.Length - offset < CHUNK_HEADER_SIZE {
      ParseBodyRefuses(input[offset..], header, index);
      return Err(FORMAT);
    }
    var record := ParseChunkHeader(input, offset, maxStoredSize);
    ParseBodyRefuses(input[offset..], header, index);
    if record.Err? {
      return Err(FORMAT);
    }
    var (chunk, tag) := record.value;
    var start := offset + CHUNK_HEADER_SIZE;
    assert input[offset..][CHUNK_HEADER_SIZE..] == input[start..];
    if input.Length - start < chunk.storedSize {
      return Err(FORMAT);
    }
    var end := start + chunk.storedSize;
    var plainSize := ChunkPlainSize(header.plaintextSize, header.chunkSize, index);
    FlagTests(chunk.flags);
    var compressed := And(chunk.flags, FLAG_COMPRESSED) != 0;
    if !compressed && chunk.storedSize != plainSize {
      return Err(FORMAT);
    }
    if compressed && chunk.storedSize == 0 {
      return Err(FORMAT);
    }
    if compressed && header.compressionId != COMPRESS_ZLIB {
      return Err(FORMAT);
    }
    assert input[start..][..chunk.storedSize] == input[start..end] && input[start..][chunk.storedSize..] == input[end..];
    ParseBodyAdvances(input[offset..], header, index, chunk, tag);
    return Ok(Entry(start, chunk, tag));
  }

  /** Whatever is wrong with the next record, the parse stops with MC_ERR_FORMAT. */
  lemma ParseBodyRefuses(body: Bytes, h: FileHeader, index: u32)
    requires index < h.chunkCount
    ensures |body| < CHUNK_HEADER_SIZE ==> ParseBody(body, h, index) == Err(FORMAT)
    ensures |body| >= CHUNK_HEADER_SIZE ==>
      match ParseRecord(body, MaxStoredSizeFor(h.chunkSize))
      case Err(_) => ParseBody(body, h, index) == Err(FORMAT)
      case Ok((c, _)) =>
        || |body[CHUNK_HEADER_SIZE..]| < c.storedSize
        || (!c.Compressed() && c.storedSize != ChunkPlainSize(h.plaintextSize, h.chunkSize, index))
        || (c.Compressed() && (c.storedSize == 0 || h.compressionId != COMPRESS_ZLIB))
        ==> ParseBody(body, h, index) == Err(FORMAT)
  {
    hide ChunkPlainSize;
  }

  /** When nothing is wrong with it, the parse takes one chunk and goes on. */
  lemma ParseBodyAdvances(body: Bytes, h: FileHeader, index: u32, c: ChunkHeader, tag: Tag)
    requires index < h.chunkCount && |body| >= CHUNK_HEADER_SIZE
    requires ParseRecord(body, MaxStoredSizeFor(h.chunkSize)) == Ok((c, tag))
    requires |body[CHUNK_HEADER_SIZE..]| >= c.storedSize
    requires !c.Compressed() ==> c.storedSize == ChunkPlainSize(h.plaintextSize, h.chunkSize, index)
    requires c.Compressed() ==> c.storedSize > 0 && h.compressionId == COMPRESS_ZLIB
    ensures var rest := body[CHUNK_HEADER_SIZE..];
      var chunk := Chunk(c, tag, rest[..c.storedSize]);
      && ChunkOk(h, index, chunk)
      && ParseBody(body, h, index) == After([chunk], ParseBody(rest[c.storedSize..], h, index + 1))
  {
    hide ChunkPlainSize;
    ParseRecordExact(body, MaxStoredSizeFor(h.chunkSize), c, tag);
  }

  /** The largest deflated payload, 0 when there is none. */
  ghost predicate IsMaxCompressed(chunks: seq<Chunk>, most: nat) {
    && (forall i | 0 <= i < |chunks| && chunks[i].header.Compressed() :: chunks[i].header.storedSize <= most)
    && (most > 0 ==> exists i :: 0 <= i < |chunks| && chunks[i].header.Compressed() && chunks[i].header.storedSize == most)
  }

  lemma MaxCompressedSnoc(chunks: seq<Chunk>, most: nat, c: Chunk)
    requires IsMaxCompressed(chunks, most)
    ensures IsMaxCompressed(chunks + [c],
      if c.header.Compressed() && c.header.storedSize > most then c.header.storedSize else most)
  {
    var all := chunks + [c];
    var most' := if c.header.Compressed() && c.header.storedSize > most then c.header.storedSize else most;
    if most' != most {
      assert all[|chunks|] == c;
    } else if most > 0 {
      var i :| 0 <= i < |chunks| && chunks[i].header.Compressed() && chunks[i].header.storedSize == most;
      assert all[i] == chunks[i];
    }
  }

  ghost function MaxCompressed(chunks: seq<Chunk>): (most: u32)
    ensures IsMaxCompressed(chunks, most)
  {
    if chunks == [] then 0
    else
      var front, c := chunks[..|chunks| - 1], chunks[|chunks| - 1];
      MaxCompressedSnoc(front, MaxCompressed(front), c);
      assert chunks == front + [c];
      if c.header.Compressed() && c.header.storedSize > MaxCompressed(front) then c.header.storedSize else MaxCompressed(front)
  }

  lemma OneMaximum(chunks: seq<Chunk>, most: nat)
    requires IsMaxCompressed(chunks, most)
    ensures most == MaxCompressed(chunks)
  {
  }

  /** The loop of WalkChunkTable, filling the table and tracking the largest deflated payload. */
  method WalkChunks(input: array<byte>, header: FileHeader, entries: array<Entry>)
    returns (rc: Status, maxCompressed: u32, ghost chunks: seq<Chunk>)
    requires input.Length >= HEADER_SIZE && entries.Length == header.chunkCount > 0
    modifies entries
    ensures rc == OK || rc == FORMAT
    ensures rc == FORMAT ==> ParseBody(input[HEADER_SIZE..], header, 0) == Err(FORMAT)
    ensures rc == OK ==>
      && ParseBody(input[HEADER_SIZE..], header, 0) == Ok(chunks)
      && entries.Length == |chunks|
      && TableFor(input[..], entries[..], chunks) && Tiles(entries[..], input.Length)
      && IsMaxCompressed(chunks, maxCompressed)
  {
    hide ParseRecord, ChunkPlainSize, ParseBody, ChunkOk, TableFor, Tiles, IsMaxCompressed;
    maxCompressed, chunks := 0, [];
    var maxStoredSize := MaxStoredSizeFor(header.chunkSize);
    var offset := HEADER_SIZE;
    var index: u32 := 0;
    EmptyTable(input[..]);
    assert entries[..index] == [];
    AfterNothing(ParseBody(input[offset..], header, index));
    while index < header.chunkCount
      invariant index <= header.chunkCount && |chunks| == index
      invariant HEADER_SIZE <= offset <= input.Length
      invariant TableFor(input[..], entries[..index], chunks) && Tiles(entries[..index], offset)
      invariant IsMaxCompressed(chunks, maxCompressed)
      invariant ParseBody(input[HEADER_SIZE..], header, 0) == After(chunks, ParseBody(input[offset..], header, index))
    {
      var step := WalkStep(input, offset, header, index, maxStoredSize);
      if step.Err? {
        return FORMAT, 0, [];
      }
      var e := step.value;
      ghost var c := Chunk(e.header, e.tag, input[e.offset..EndOf(e)]);
      ghost var rows := entries[..index];
      TableSnoc(input[..], rows, chunks, offset, e, c);
      entries[index] := e;
      assert entries[..index + 1] == rows + [e];
      AfterSnoc(chunks, c, ParseBody(input[EndOf(e)..], header, index + 1));
      MaxCompressedSnoc(chunks, maxCompressed, c);
      if e.header.Compressed() && e.header.storedSize > maxCompressed {
        maxCompressed := e.header.storedSize;
      }
      chunks := chunks + [c];
      offset := EndOf(e);
      index := index + 1;
    }
    assert entries[..index] == entries[..];
    EndOfWalk(chunks, input[offset..], header, index);
    if offset != input.Length {
      return FORMAT, 0, [];
    }
    return OK, maxCompressed, chunks;
  }

  lemma EmptyTable(s: Bytes)
    ensures TableFor(s, [], []) && Tiles([], HEADER_SIZE) && IsMaxCompressed([], 0)
  {
  }

  lemma AfterNothing(rest: Result<seq<Chunk>>)
    ensures After([], rest) == rest
  {
    if rest.Ok? {
      assert [] + rest.value == rest.value;
    }
  }

  lemma AfterSnoc(chunks: seq<Chunk>, c: Chunk, rest: Result<seq<Chunk>>)
    ensures After(chunks, After([c], rest)) == After(chunks + [c], rest)
  {
    if rest.Ok? {
      assert chunks + ([c] + rest.value) == chunks + [c] + rest.value;
    }
  }

  lemma EndOfWalk(chunks: seq<Chunk>, body: Bytes, h: FileHeader, index: u32)
    requires index == h.chunkCount
    ensures After(chunks, ParseBody(body, h, index)) == if body == [] then Ok(chunks) else Err(FORMAT)
  {
    assert chunks + [] == chunks;
  }

  // ---- What a run may do, and in what order ----

  /** Inflate is only ever handed the bytes the AEAD has just accepted. */
  ghost predicate InflateGuarded(t: seq<Event>) {
    forall i | 0 <= i < |t| && t[i].Inflating? :: i > 0 && t[i - 1] == Memory.Opened(t[i].stream)
  }

  ghost predicate HasOpened(t: seq<Event>) {
    exists e :: e in t && e.Opened?
  }

  /** The sizes asked of the allocator, in order: before the first chunk opened,
      or after it. */
  ghost function Asked(t: seq<Event>, late: bool): seq<nat> {
    if t == [] then []
    else
      var front, last := t[..|t| - 1], t[|t| - 1];
      Asked(front, late) + if last.Alloc? && HasOpened(front) == late then [last.size] else []
  }

  /** Every allocation of a call: what it may ask for until a tag has verified,
      and what only after. */
  datatype Plan = Plan(before: seq<nat>, after: seq<nat>)

  /** Inflate is guarded, and the allocations are those of the plan, in its
      order: before anything opened some first part of the one list, and once a
      chunk has opened all of it and then some first part of the other. */
  ghost predicate Safe(t: seq<Event>, plan: Plan) {
    && InflateGuarded(t)
    && Asked(t, false) <= plan.before
    && Asked(t, true) <= plan.after
    && (HasOpened(t) ==> Asked(t, false) == plan.before)
  }

  /** Nothing has opened, and this is what is left to ask for before it does. */
  ghost predicate Due(t: seq<Event>, plan: Plan, rest: seq<nat>) {
    Safe(t, plan) && !HasOpened(t) && Asked(t, true) == [] && Asked(t, false) + rest == plan.before
  }

  /** A chunk has opened, and this is what is left to ask for. */
  ghost predicate DueAfter(t: seq<Event>, plan: Plan, rest: seq<nat>) {
    Safe(t, plan) && HasOpened(t) && Asked(t, true) + rest == plan.after
  }

  /** All is allocated that has to be before a chunk opens. */
  ghost predicate MayOpen(t: seq<Event>, plan: Plan) {
    Safe(t, plan) && (HasOpened(t) || Due(t, plan, []))
  }

  /** A SecureBuffer of size 0 allocates nothing. */
  function Want(n: nat): seq<nat> {
    if n == 0 then [] else [n]
  }

  lemma OneMore(t: seq<Event>, e: Event)
    ensures HasOpened(t + [e]) <==> HasOpened(t) || e.Opened?
    ensures Asked(t + [e], false) == (Asked(t, false) + if e.Alloc? && !HasOpened(t) then [e.size] else [])
    ensures Asked(t + [e], true) == (Asked(t, true) + if e.Alloc? && HasOpened(t) then [e.size] else [])
    ensures InflateGuarded(t) && (e.Inflating? ==> t != [] && t[|t| - 1] == Memory.Opened(e.stream)) ==>
            InflateGuarded(t + [e])
  {
    hide HasOpened, InflateGuarded;
    var u := t + [e];
    assert u[..|u| - 1] == t;
    OpenedBy(t, e);
    if InflateGuarded(t) && (e.Inflating? ==> t != [] && t[|t| - 1] == Memory.Opened(e.stream)) {
      StillGuarded(t, e);
    }
  }

  lemma OpenedBy(t: seq<Event>, e: Event)
    ensures HasOpened(t + [e]) <==> HasOpened(t) || e.Opened?
  {
    var u := t + [e];
    if HasOpened(t) {
      var x :| x in t && x.Opened?;
      assert x in u;
    }
    assert e in u;
  }

  lemma StillGuarded(t: seq<Event>, e: Event)
    requires InflateGuarded(t) && (e.Inflating? ==> t != [] && t[|t| - 1] == Memory.Opened(e.stream))
    ensures InflateGuarded(t + [e])
  {
    var u := t + [e];
    forall i | 0 <= i < |u| && u[i].Inflating? ensures i > 0 && u[i - 1] == Memory.Opened(u[i].stream) {
      if i < |t| {
        assert t[i].Inflating?;
      }
    }
  }

  /** An event that allocates nothing keeps a run safe; a chunk may open once
      everything before that is allocated. */
  lemma SafeSnoc(t: seq<Event>, e: Event, plan: Plan)
    requires Safe(t, plan) && !e.Alloc?
    requires e.Opened? ==> MayOpen(t, plan)
    requires e.Inflating? ==> t != [] && t[|t| - 1] == Memory.Opened(e.stream)
    ensures Safe(t + [e], plan) && Asked(t + [e], true) == Asked(t, true)
    ensures HasOpened(t + [e]) <==> HasOpened(t) || e.Opened?
  {
    hide InflateGuarded, HasOpened, Asked;
    OneMore(t, e);
  }

  // ---- Phase 1 ----

  lemma {:induction false} BodySpace(chunks: seq<Chunk>, i: nat)
    requires i < |chunks|
    ensures |EncodeBody(chunks)| >= CHUNK_HEADER_SIZE * |chunks| + |chunks[i].ciphertext|
    decreases |chunks|
  {
    assert chunks == [chunks[0]] + chunks[1..];
    EncodeCons(chunks[0], chunks[1..]);
    if i > 0 {
      BodySpace(chunks[1..], i - 1);
    } else {
      RecordsSpace(chunks[1..]);
    }
  }

  lemma {:induction false} RecordsSpace(chunks: seq<Chunk>)
    ensures |EncodeBody(chunks)| >= CHUNK_HEADER_SIZE * |chunks|
    decreases |chunks|
  {
    if chunks != [] {
      RecordsSpace(chunks[1..]);
    }
  }

  /** The records and the largest deflated payload are all there in the input. */
  lemma TableSpace(s: Bytes, h: FileHeader, chunks: seq<Chunk>, most: nat)
    requires |s| >= HEADER_SIZE && ParseBody(s[HEADER_SIZE..], h, 0) == Ok(chunks) && IsMaxCompressed(chunks, most)
    ensures HEADER_SIZE + CHUNK_HEADER_SIZE * h.chunkCount + most <= |s|
  {
    EncodeOfParse(s[HEADER_SIZE..], h, 0, chunks);
    RecordsSpace(chunks);
    if most > 0 {
      var i :| 0 <= i < |chunks| && chunks[i].header.Compressed() && chunks[i].header.storedSize == most;
      BodySpace(chunks, i);
      assert ChunkOk(h, 0 + i, chunks[i]);
    }
  }

  /** No accepted header asks for a table beyond a 32-bit size_t. */
  lemma TableFitsAnyHost(s: Bytes, h: FileHeader)
    requires ParseHeader(s) == Ok(h)
    ensures |s| >= HEADER_SIZE && h.chunkCount >= 1 && h.chunkCount * ENTRY_SIZE <= UINT32_MAX
  {
    ParseHeaderExact(s, h);
    CountBound(h.plaintextSize, h.chunkSize, h.chunkCount);
  }

  /** WalkChunkTable.  The table is allocated only once the input is known to be
      large enough for its records. */
  method WalkChunkTable(m: Machine, input: array<byte>, header: FileHeader, entryStorage: SecureBuffer, ghost base: set<array<byte>>)
    returns (rc: Status, entries: array<Entry>, maxCompressed: u32, ghost chunks: seq<Chunk>)
    requires ParseHeader(input[..]) == Ok(header) && m.sizeMax >= UINT32_MAX
    requires Holds1(m, base, entryStorage) && entryStorage.data == null
    modifies m, entryStorage
    ensures Holds1(m, base, entryStorage) && fresh(Data(entryStorage)) && fresh(entries)
    ensures rc == OK || rc == FORMAT || rc == MEMORY
    ensures rc == FORMAT ==> WalkTable(input[..], header) == Err(FORMAT)
    ensures rc == MEMORY ==> Blamed(m.trace, MEMORY)
    ensures rc == OK ==>
      && WalkTable(input[..], header) == Ok(chunks)
      && TableFor(input[..], entries[..], chunks) && Tiles(entries[..], input.Length)
      && IsMaxCompressed(chunks, maxCompressed)
      && entries.Length == |chunks|
      && HEADER_SIZE + CHUNK_HEADER_SIZE * header.chunkCount + maxCompressed <= input.Length
    ensures m.trace == old(m.trace) +
      if input.Length < HEADER_SIZE + header.chunkCount * CHUNK_HEADER_SIZE then []
      else [Alloc(header.chunkCount * ENTRY_SIZE, rc != MEMORY)]
  {
    hide ParseBody, ParseHeader, AllWiped, TableFor, Tiles, IsMaxCompressed;
    maxCompressed, chunks := 0, [];
    entries := new Entry[0];
    TableFitsAnyHost(input[..], header);
    if input.Length < HEADER_SIZE + header.chunkCount * CHUNK_HEADER_SIZE {
      return FORMAT, entries, 0, [];
    }
    var tableBytes := header.chunkCount * ENTRY_SIZE;
    if tableBytes > m.sizeMax {
      assert false;
    }
    var ok := ObtainOnly(m, base, entryStorage, tableBytes);
    if !ok {
      return MEMORY, entries, 0, [];
    }
    entries := new Entry[header.chunkCount](_ => Entry(0, ChunkHeader(0, 0), Zeros(TAG_SIZE)));
    assert input[..][HEADER_SIZE..] == input[HEADER_SIZE..];
    rc, maxCompressed, chunks := WalkChunks(input, header, entries);
    if rc == OK {
      TableSpace(input[..], header, chunks, maxCompressed);
    }
  }

  // ---- Opening one chunk ----

  /** The bytes behind a pointer that may be null. */
  ghost function Held(a: array?<byte>): Bytes
    reads a
  {
    if a == null then [] else a[..]
  }

  /** After the AEAD has refused: whatever it may have written is zero again,
      and nothing else has changed. */
  ghost predicate NothingUnverified(compressed: bool, scratch: Bytes, stored: nat, before: Bytes, after: Bytes, off: nat, size: nat) {
    if compressed then stored <= |scratch| && AllZero(scratch[..stored]) && after == before
    else Wire.Wrote(before, after, off, Zeros(size))
  }

  /** The wipes that follow a refusal; `before` is the output as it was before the AEAD wrote to it. */
  method WipeUnverified(compressed: bool, scratch: array?<byte>, stored: nat, plainOut: array?<byte>, plainOff: nat, plainSize: nat,
                        ghost before: Bytes)
    requires compressed ==> scratch != null && stored <= scratch.Length && Held(plainOut) == before
    requires if plainOut == null then plainSize == 0 && before == [] else plainOff + plainSize <= plainOut.Length == |before|
    requires plainOut != null ==> plainOut != scratch
    requires plainOut != null ==>
      plainOut[..plainOff] == before[..plainOff] && plainOut[plainOff + plainSize..] == before[plainOff + plainSize..]
    modifies plainOut, scratch
    ensures NothingUnverified(compressed, Held(scratch), stored, before, Held(plainOut),
                              if plainOut == null then 0 else plainOff, plainSize)
  {
    if compressed {
      SecureWipe(scratch, 0, stored);
      assert scratch[..stored] == scratch[0..stored];
    } else {
      SecureWipe(plainOut, plainOff, plainSize);
    }
  }

  /** aead::Open into the right buffer, wiped if it fails. */
  method OpenOrWipe(aead: Aead, m: Machine, derived: array<byte>, input: array<byte>, header: FileHeader, index: u32, entry: Entry,
                    plainOut: array?<byte>, plainOff: nat, plainSize: nat, scratch: array?<byte>, ghost c: Chunk, ghost plan: Plan)
    returns (rc: Status, ghost payload: Bytes, ghost nonce: Bytes)
    requires Lawful(aead.suite) && input.Length >= HEADER_SIZE && header.chunkSize <= MAX_CHUNK_SIZE
    requires EntryFor(input[..], entry, c) && ChunkOk(header, index, c)
    requires plainSize == ChunkPlainSize(header.plaintextSize, header.chunkSize, index)
    requires if plainOut == null then plainSize == 0 else plainOff + plainSize <= plainOut.Length
    requires entry.header.Compressed() ==> scratch != null
    requires scratch != null ==> (entry.header.Compressed() ==> entry.header.storedSize <= scratch.Length)
    requires plainOut != input && plainOut != derived && scratch != input && scratch != derived
    requires plainOut != null ==> plainOut != scratch
    requires MayOpen(m.trace, plan)
    modifies m`trace, plainOut, scratch
    ensures rc == OK || rc == AUTH || rc == CRYPTO
    ensures IsNonce(nonce, header.noncePrefix, index)
    ensures var found := Opens(aead.suite, aead.log, derived[..], nonce,
                               Aad(input[..HEADER_SIZE], index, c.header), Sealed(c.ciphertext, c.tag));
      && (rc == OK ==> found == Some(payload))
      && (rc == AUTH ==> found == None)
    ensures rc == OK ==> |payload| == entry.header.storedSize && m.trace == old(m.trace) + [Memory.Opened(payload)]
    ensures rc == OK && entry.header.Compressed() ==> scratch[..|payload|] == payload
    ensures rc == OK && !entry.header.Compressed() && plainOut != null ==> Wire.Wrote(old(plainOut[..]), plainOut[..], plainOff, payload)
    ensures plainOut != null && entry.header.Compressed() ==> plainOut[..] == old(plainOut[..])
    ensures rc == CRYPTO ==> Blamed(m.trace, CRYPTO)
    ensures Safe(m.trace, plan) && Asked(m.trace, true) == Asked(old(m.trace), true)
    ensures HasOpened(m.trace) <==> HasOpened(old(m.trace)) || rc == OK
    ensures rc != OK ==>
      NothingUnverified(entry.header.Compressed(), Held(scratch), entry.header.storedSize,
        old(Held(plainOut)), Held(plainOut), if plainOut == null then 0 else plainOff, plainSize)
  {
    hide Lawful, Aad, Nonce, IsNonce, Safe, Due, Asked, HasOpened, ChunkPlainSize, Opens, NothingUnverified;
    payload := [];
    ghost var before := Held(plainOut);
    var aad, bound := BindChunk(input, header.noncePrefix, index, entry.header);
    nonce := bound[..];
    FlagTests(entry.header.flags);
    var compressed := And(entry.header.flags, FLAG_COMPRESSED) != 0;
    var aeadOut, aeadOff := if compressed then scratch else plainOut, if compressed then 0 else plainOff;
    SizeFitsInt(header, index, c);
    assert input[entry.offset..EndOf(entry)] == c.ciphertext;
    rc := aead.Open(m, derived, bound, aad, input, entry.offset, entry.header.storedSize, entry.tag, aeadOut, aeadOff);
    ghost var event := m.trace[|m.trace| - 1];
    SafeSnoc(old(m.trace), event, plan);
    if rc != OK {
      WipeUnverified(compressed, scratch, entry.header.storedSize, plainOut, plainOff, plainSize, before);
      return;
    }
    payload := event.payload;
    if compressed {
      assert scratch[..|payload|] == scratch[0..|payload|];
    }
  }

  lemma SizeFitsInt(h: FileHeader, index: u32, c: Chunk)
    requires ChunkOk(h, index, c) && h.chunkSize <= MAX_CHUNK_SIZE
    ensures c.header.storedSize <= INT32_MAX && AAD_SIZE <= INT32_MAX
  {
  }

  /** OpenChunk: authenticate, and only then inflate. */
  method OpenChunkInto(aead: Aead, m: Machine, derived: array<byte>, input: array<byte>, header: FileHeader, index: u32, entry: Entry,
                       plainOut: array?<byte>, plainOff: nat, plainSize: nat, scratch: array?<byte>, ghost c: Chunk, ghost plan: Plan)
    returns (rc: Status, ghost plain: Bytes)
    requires Lawful(aead.suite) && input.Length >= HEADER_SIZE && header.chunkSize <= MAX_CHUNK_SIZE
    requires EntryFor(input[..], entry, c) && ChunkOk(header, index, c)
    requires plainSize == ChunkPlainSize(header.plaintextSize, header.chunkSize, index)
    requires if plainOut == null then plainSize == 0 else plainOff + plainSize <= plainOut.Length
    requires entry.header.Compressed() ==> scratch != null
    requires scratch != null ==> (entry.header.Compressed() ==> entry.header.storedSize <= scratch.Length)
    requires plainOut != input && plainOut != derived && scratch != input && scratch != derived
    requires plainOut != null ==> plainOut != scratch
    requires MayOpen(m.trace, plan)
    modifies m`trace, plainOut, scratch
    ensures rc == OK || rc == AUTH || rc == Status.COMPRESS || rc == CRYPTO || rc == MEMORY
    ensures var r := Decoding.OpenChunk(aead.suite, aead.log, derived[..], input[..HEADER_SIZE], header, index, c);
      && (rc == OK ==> r == Ok(plain) && |plain| == plainSize)
      && (rc == AUTH || rc == Status.COMPRESS ==> r == Err(rc))
    ensures rc == OK && plainOut != null ==> Wire.Wrote(old(plainOut[..]), plainOut[..], plainOff, plain)
    ensures rc == CRYPTO || rc == MEMORY ==> Blamed(m.trace, rc)
    ensures Safe(m.trace, plan) && Asked(m.trace, true) == Asked(old(m.trace), true)
    ensures HasOpened(old(m.trace)) || rc == OK ==> HasOpened(m.trace)
    ensures rc == AUTH || rc == CRYPTO ==>
      NothingUnverified(entry.header.Compressed(), Held(scratch), entry.header.storedSize,
        old(Held(plainOut)), Held(plainOut), if plainOut == null then 0 else plainOff, plainSize)
  {
    hide Lawful, Aad, Nonce, IsNonce, Safe, Due, Asked, HasOpened, ChunkPlainSize, Opens, NothingUnverified;
    ghost var payload, nonce;
    plain := [];
    rc, payload, nonce := OpenOrWipe(aead, m, derived, input, header, index, entry, plainOut, plainOff, plainSize, scratch, c, plan);
    NonceExact(nonce, header.noncePrefix, index);
    if rc != OK {
      return;
    }
    if !entry.header.Compressed() {
      plain := payload;
      return;
    }
    PlainSizeFits(header, index);
    SizeFitsInt(header, index, c);
    ghost var before := m.trace;
    rc := DecompressChunk(aead.suite, m, scratch, entry.header.storedSize, plainOut, plainOff, plainSize);
    SafeSnoc(before, m.trace[|m.trace| - 1], plan);
    if rc == OK {
      InflatedSize(aead.suite, payload, plainSize);
      plain := aead.suite.inflate(payload, plainSize).value;
    }
  }

  lemma PlainSizeFits(h: FileHeader, index: u32)
    requires h.chunkSize <= MAX_CHUNK_SIZE
    ensures ChunkPlainSize(h.plaintextSize, h.chunkSize, index) <= MAX_CHUNK_SIZE
  {
  }

  lemma InflatedSize(p: Suite, s: Bytes, n: nat)
    requires Lawful(p) && p.inflate(s, n).Some?
    ensures |p.inflate(s, n).value| == n
  {
  }

  // ---- All chunks ----

  /** What a decryption has to compute, once the input is parsed and the key derived. */
  datatype Job = Job(suite: Suite, log: seq<SealRecord>, key: Bytes, headerBytes: Bytes, h: FileHeader, chunks: seq<Chunk>)
  {
    ghost predicate Valid() {
      && Lawful(suite)
      && |headerBytes| == HEADER_SIZE && Acceptable(h)
      && |chunks| == h.chunkCount && ChunksOk(h, 0, chunks)
    }

    ghost function One(index: u32): Result<Bytes>
      requires Valid() && index < |chunks|
    {
      Decoding.OpenChunk(suite, log, key, headerBytes, h, index, chunks[index])
    }

    /** The plaintext of the chunks from `index` on. */
    ghost function From(index: u32): Result<Bytes>
      requires Valid() && index <= |chunks|
    {
      OpenAll(suite, log, key, headerBytes, h, index, chunks[index..])
    }

    function Start(index: u32): nat {
      ChunkStart(h.plaintextSize, h.chunkSize, index)
    }

    function Size(index: u32): nat {
      ChunkPlainSize(h.plaintextSize, h.chunkSize, index)
    }
  }

  function Join(done: Bytes, rest: Result<Bytes>): Result<Bytes> {
    match rest
    case Ok(more) => Ok(done + more)
    case Err(e) => Err(e)
  }

  lemma FromStep(j: Job, index: u32)
    requires j.Valid() && index < |j.chunks|
    ensures j.From(index) == match j.One(index) { case Ok(plain) => Join(plain, j.From(index + 1)) case Err(e) => Err(e) }
  {
    hide Decoding.OpenChunk, Lawful, Acceptable;
    assert j.chunks[index..][0] == j.chunks[index] && j.chunks[index..][1..] == j.chunks[index + 1..];
  }

  lemma JoinJoin(a: Bytes, b: Bytes, rest: Result<Bytes>)
    ensures Join(a, Join(b, rest)) == Join(a + b, rest)
  {
    if rest.Ok? {
      assert a + (b + rest.value) == a + b + rest.value;
    }
  }

  lemma JobEnds(j: Job)
    requires j.Valid()
    ensures |j.chunks| >= 1 && j.Start(0) == 0 && j.Start(|j.chunks|) == j.h.plaintextSize
    ensures j.From(|j.chunks|) == Ok([])
  {
    CountCoversUnique(j.h.plaintextSize, j.h.chunkSize, j.h.chunkCount, ChunkCountOf(j.h));
    ChunkStep(j.h.plaintextSize, j.h.chunkSize, j.h.chunkCount - 1);
  }

  function ChunkCountOf(h: FileHeader): (n: u32)
    requires SizesInRange(h.plaintextSize, h.chunkSize)
    ensures CountCovers(h.plaintextSize, h.chunkSize, n)
  {
    ChunkCountExact(h.plaintextSize, h.chunkSize);
    ChunkCountFor(h.plaintextSize, h.chunkSize)
  }

  /** Where chunk `index` goes in the plaintext. */
  lemma JobStep(j: Job, index: u32)
    requires j.Valid() && index < |j.chunks|
    ensures index * j.h.chunkSize == j.Start(index)
    ensures j.Start(index) + j.Size(index) == j.Start(index + 1) <= j.h.plaintextSize
    ensures j.Size(index) == ChunkPlainSize(j.h.plaintextSize, j.h.chunkSize, index)
    ensures j.h.plaintextSize == 0 ==> |j.chunks| == 1
  {
    CountCoversUnique(j.h.plaintextSize, j.h.chunkSize, j.h.chunkCount, ChunkCountOf(j.h));
    ChunkStep(j.h.plaintextSize, j.h.chunkSize, index);
  }

  /** What a status says about the job and the machine. */
  ghost predicate Ended(j: Job, rc: Status, plain: Bytes, sizeMax: nat, t: seq<Event>)
    requires j.Valid()
  {
    match rc
    case OK => j.From(0) == Ok(plain) && |plain| == j.h.plaintextSize <= sizeMax
    case AUTH => j.From(0) == Err(AUTH)
    case COMPRESS => j.From(0) == Err(Status.COMPRESS)
    case TOO_LARGE => j.h.plaintextSize > sizeMax && HasOpened(t)
    case MEMORY => Blamed(t, MEMORY)
    case CRYPTO => Blamed(t, CRYPTO)
    case _ => false
  }

  lemma EndedEarly(j: Job, rc: Status, plain: Bytes, sizeMax: nat, t: seq<Event>)
    requires j.Valid()
    requires (rc == TOO_LARGE && j.h.plaintextSize > sizeMax && HasOpened(t)) || (rc == MEMORY && Blamed(t, MEMORY))
    ensures Ended(j, rc, plain, sizeMax, t)
  {
  }

  /** The arrays and values the methods work on are those the job talks about. */
  ghost predicate Doing(j: Job, aead: Aead, derived: array<byte>, input: array<byte>, entries: array<Entry>, scratch: array?<byte>)
    reads aead, derived, input, entries
  {
    && j.Valid()
    && j.suite == aead.suite && j.log == aead.log && j.key == derived[..]
    && input.Length >= HEADER_SIZE && j.headerBytes == input[..HEADER_SIZE]
    && entries.Length == |j.chunks| && TableFor(input[..], entries[..], j.chunks)
    && (forall i | 0 <= i < |j.chunks| && j.chunks[i].header.Compressed() ::
          scratch != null && j.chunks[i].header.storedSize <= scratch.Length)
    && scratch != input && scratch != derived
  }

  /** One chunk of the job, into its place. */
  method OpenJobChunk(aead: Aead, m: Machine, derived: array<byte>, input: array<byte>, header: FileHeader, entries: array<Entry>,
                      index: u32, plainOut: array?<byte>, plainOff: nat, plainSize: nat, scratch: array?<byte>,
                      ghost j: Job, ghost plan: Plan)
    returns (rc: Status, ghost plain: Bytes)
    requires Doing(j, aead, derived, input, entries, scratch) && header == j.h
    requires index < entries.Length && plainSize == j.Size(index)
    requires if plainOut == null then plainSize == 0 else plainOff + plainSize <= plainOut.Length
    requires plainOut != input && plainOut != derived && (plainOut != null ==> plainOut != scratch)
    requires MayOpen(m.trace, plan)
    modifies m`trace, plainOut, scratch
    ensures rc == OK || rc == AUTH || rc == Status.COMPRESS || rc == CRYPTO || rc == MEMORY
    ensures rc == OK ==> j.One(index) == Ok(plain) && |plain| == plainSize
    ensures rc == AUTH || rc == Status.COMPRESS ==> j.One(index) == Err(rc)
    ensures rc == OK && plainOut != null ==> Wire.Wrote(old(plainOut[..]), plainOut[..], plainOff, plain)
    ensures rc == CRYPTO || rc == MEMORY ==> Blamed(m.trace, rc)
    ensures Safe(m.trace, plan) && Asked(m.trace, true) == Asked(old(m.trace), true)
    ensures HasOpened(old(m.trace)) || rc == OK ==> HasOpened(m.trace)
  {
    hide Lawful, Safe, Decoding.OpenChunk, ChunkPlainSize, NothingUnverified;
    assert EntryFor(input[..], entries[index], j.chunks[index]);
    assert ChunkOk(j.h, 0 + index, j.chunks[index]);
    rc, plain := OpenChunkInto(aead, m, derived, input, header, index, entries[index], plainOut, plainOff, plainSize, scratch,
                               j.chunks[index], plan);
  }

  /** Writing one more chunk into its place moves the frontier past it. */
  lemma RestStep(j: Job, index: u32, before: Bytes, after: Bytes, plain: Bytes)
    requires j.Valid() && 1 <= index < |j.chunks| && |before| == j.h.plaintextSize
    requires j.One(index) == Ok(plain) && |plain| == j.Size(index)
    requires Wire.Wrote(before, after, j.Start(index), plain)
    requires j.From(0) == Join(before[..j.Start(index)], j.From(index))
    ensures j.Start(index + 1) <= |after| && j.From(0) == Join(after[..j.Start(index + 1)], j.From(index + 1))
  {
    hide Decoding.OpenChunk, Job.One, Job.From, Job.Start, Job.Size, Acceptable, ChunksOk, Lawful;
    JobStep(j, index);
    FromStep(j, index);
    Extends(before, after, 0, j.Start(index), plain);
    assert after[0..j.Start(index + 1)] == after[..j.Start(index + 1)] && before[0..j.Start(index)] == before[..j.Start(index)];
    JoinJoin(before[..j.Start(index)], plain, j.From(index + 1));
  }

  /** The chunks before `index` stand in the plaintext, each where it belongs. */
  ghost predicate FilledTo(j: Job, held: Bytes, index: u32)
    requires j.Valid()
  {
    && 1 <= index <= |j.chunks|
    && |held| == j.h.plaintextSize && j.Start(index) <= |held|
    && j.From(0) == Join(held[..j.Start(index)], j.From(index))
  }

  /** One turn of the loop of phase 3. */
  method OpenNext(aead: Aead, m: Machine, derived: array<byte>, input: array<byte>, header: FileHeader, entries: array<Entry>,
                  index: u32, plaintext: array?<byte>, scratch: array?<byte>, ghost j: Job, ghost plan: Plan)
    returns (rc: Status)
    requires Doing(j, aead, derived, input, entries, scratch) && header == j.h && index < header.chunkCount
    requires plaintext != input && plaintext != derived && (plaintext != null ==> plaintext != scratch)
    requires FilledTo(j, Held(plaintext), index)
    requires Safe(m.trace, plan) && HasOpened(m.trace)
    modifies m`trace, plaintext, scratch
    ensures rc == OK ==> FilledTo(j, Held(plaintext), index + 1)
    ensures rc != OK ==> Ended(j, rc, Held(plaintext), m.sizeMax, m.trace)
    ensures Safe(m.trace, plan) && HasOpened(m.trace)
  {
    hide Safe, Decoding.OpenChunk, Job.One, Job.From, Job.Start, Job.Size, TableFor, HasOpened, Acceptable, ChunksOk, Lawful;
    JobStep(j, index);
    assert plaintext != null;
    var plainSize := ChunkPlainSize(header.plaintextSize, header.chunkSize, index);
    var plainOff := index * header.chunkSize;
    ghost var before, plain := plaintext[..], [];
    rc, plain := OpenJobChunk(aead, m, derived, input, header, entries, index, plaintext, plainOff, plainSize, scratch, j, plan);
    if rc != OK {
      FromStep(j, index);
      return;
    }
    RestStep(j, index, before, plaintext[..], plain);
  }

  /** Phase 3, once chunk 0 is in place: the remaining chunks, each where it belongs. */
  method OpenRest(aead: Aead, m: Machine, derived: array<byte>, input: array<byte>, header: FileHeader, entries: array<Entry>,
                  plaintext: array?<byte>, scratch: array?<byte>, ghost j: Job, ghost plan: Plan)
    returns (rc: Status)
    requires Doing(j, aead, derived, input, entries, scratch) && header == j.h
    requires if plaintext == null then header.plaintextSize == 0 else plaintext.Length == header.plaintextSize
    requires plaintext != input && plaintext != derived && (plaintext != null ==> plaintext != scratch)
    requires |Held(plaintext)| >= j.Start(1) && j.One(0) == Ok(Held(plaintext)[..j.Start(1)])
    requires Safe(m.trace, plan) && HasOpened(m.trace) && header.plaintextSize <= m.sizeMax
    modifies m`trace, plaintext, scratch
    ensures Ended(j, rc, Held(plaintext), m.sizeMax, m.trace) && Safe(m.trace, plan)
  {
    hide Safe, TableFor, HasOpened, Acceptable, ChunksOk, Lawful, FilledTo, Ended, Job.From, Job.One, Job.Start;
    FirstFills(j, Held(plaintext));
    var index: u32 := 1;
    while index < header.chunkCount
      invariant index <= header.chunkCount
      invariant Doing(j, aead, derived, input, entries, scratch)
      invariant FilledTo(j, Held(plaintext), index)
      invariant Safe(m.trace, plan) && HasOpened(m.trace)
    {
      rc := OpenNext(aead, m, derived, input, header, entries, index, plaintext, scratch, j, plan);
      if rc != OK {
        return;
      }
      index := index + 1;
    }
    AllFilled(j, Held(plaintext), m.sizeMax, m.trace);
    rc := OK;
  }

  lemma FirstFills(j: Job, held: Bytes)
    requires j.Valid() && |held| == j.h.plaintextSize
    requires |held| >= j.Start(1) && j.One(0) == Ok(held[..j.Start(1)])
    ensures 1 <= |j.chunks| && FilledTo(j, held, 1)
  {
    hide Decoding.OpenChunk, Job.One, Job.From, Job.Start, Acceptable, ChunksOk, Lawful;
    JobEnds(j);
    FromStep(j, 0);
  }

  lemma AllFilled(j: Job, held: Bytes, sizeMax: nat, t: seq<Event>)
    requires j.Valid() && FilledTo(j, held, |j.chunks|) && j.h.plaintextSize <= sizeMax
    ensures Ended(j, OK, held, sizeMax, t)
  {
    hide Decoding.OpenChunk, Job.One, Job.From, Job.Start, Acceptable, ChunksOk, Lawful;
    JobEnds(j);
    assert held[..j.Start(|j.chunks|)] == held == held + [];
  }

  // ---- Phases 2 and 3 ----

  /** Asking for what is due next, before a chunk has opened. */
  lemma AllocDue(t: seq<Event>, plan: Plan, due: seq<nat>, n: nat, granted: bool, rest: seq<nat>)
    requires Due(t, plan, due) && due == Want(n) + rest
    ensures Due(t + if n == 0 then [] else [Alloc(n, granted)], plan, rest)
  {
    hide InflateGuarded, HasOpened, Asked;
    if n > 0 {
      OneMore(t, Alloc(n, granted));
      assert Asked(t, false) + (Want(n) + rest) == Asked(t, false) + [n] + rest;
    } else {
      assert t + [] == t;
    }
  }

  /** The same once one has. */
  lemma AllocAfter(t: seq<Event>, plan: Plan, n: nat, granted: bool)
    requires DueAfter(t, plan, Want(n))
    ensures DueAfter(t + if n == 0 then [] else [Alloc(n, granted)], plan, [])
  {
    hide InflateGuarded, HasOpened, Asked;
    if n > 0 {
      OneMore(t, Alloc(n, granted));
    } else {
      assert t + [] == t;
    }
  }

  /** Phase 2: chunk 0 into a buffer of its own size. */
  method OpenFirst(aead: Aead, m: Machine, derived: array<byte>, input: array<byte>, header: FileHeader, entries: array<Entry>,
                   first: SecureBuffer, scratch: array?<byte>, ghost base: set<array<byte>>, ghost j: Job, ghost plan: Plan)
    returns (rc: Status)
    requires Doing(j, aead, derived, input, entries, scratch) && header == j.h
    requires Holds1(m, base, first) && first.data == null
    requires Due(m.trace, plan, Want(j.Size(0)))
    modifies m, first, scratch
    ensures Holds1(m, base, first) && fresh(Data(first))
    ensures rc == OK || rc == AUTH || rc == Status.COMPRESS || rc == CRYPTO || rc == MEMORY
    ensures rc == OK ==> j.One(0) == Ok(first.Contents()) && first.size == j.Size(0)
    ensures rc == AUTH || rc == Status.COMPRESS ==> j.One(0) == Err(rc)
    ensures rc == CRYPTO || rc == MEMORY ==> Blamed(m.trace, rc)
    ensures Safe(m.trace, plan) && (rc == OK ==> DueAfter(m.trace, plan, plan.after))
  {
    hide Safe, Asked, AllWiped, Decoding.OpenChunk, TableFor, Acceptable, ChunksOk, Lawful, HasOpened;
    JobEnds(j);
    var plainSize := ChunkPlainSize(header.plaintextSize, header.chunkSize, 0);
    var ok := ObtainOnly(m, base, first, plainSize);
    AllocDue(old(m.trace), plan, Want(plainSize), plainSize, ok, []);
    if !ok {
      return MEMORY;
    }
    ghost var before, plain := first.Contents(), [];
    rc, plain := OpenJobChunk(aead, m, derived, input, header, entries, 0, first.data, 0, plainSize, scratch, j, plan);
    if rc == OK {
      WroteWhole(before, first.Contents(), plain);
    }
  }

  lemma WroteWhole(before: Bytes, after: Bytes, bytes: Bytes)
    requires |before| == |after| == |bytes|
    requires bytes != [] ==> Wire.Wrote(before, after, 0, bytes)
    ensures after == bytes
  {
    if bytes != [] {
      assert after == after[0..|bytes|];
    }
  }

  /** Phase 3: only now the full plaintext. */
  method FillPlaintext(aead: Aead, m: Machine, derived: array<byte>, input: array<byte>, header: FileHeader, entries: array<Entry>,
                       first: SecureBuffer, plaintext: SecureBuffer, scratch: array?<byte>,
                       ghost base: set<array<byte>>, ghost j: Job, ghost plan: Plan)
    returns (rc: Status)
    requires Doing(j, aead, derived, input, entries, scratch) && header == j.h
    requires Holds1(m, base, plaintext) && plaintext.data == null && first.Valid() && first != plaintext
    requires j.One(0) == Ok(first.Contents()) && first.size == j.Size(0)
    requires DueAfter(m.trace, plan, Want(header.plaintextSize))
    modifies m, plaintext, scratch
    ensures Holds1(m, base, plaintext) && fresh(Data(plaintext))
    ensures Ended(j, rc, plaintext.Contents(), m.sizeMax, m.trace) && Safe(m.trace, plan)
  {
    hide Safe, Asked, AllWiped, Decoding.OpenChunk, TableFor, Acceptable, ChunksOk, Lawful, HasOpened, Job.From, Job.One,
         Job.Start, Job.Size, ChunkPlainSize, Ended;
    JobEnds(j);
    JobStep(j, 0);
    if header.plaintextSize > m.sizeMax {
      EndedEarly(j, TOO_LARGE, plaintext.Contents(), m.sizeMax, m.trace);
      return TOO_LARGE;
    }
    var ok := ObtainOnly(m, base, plaintext, header.plaintextSize);
    AllocAfter(old(m.trace), plan, header.plaintextSize, ok);
    if !ok {
      EndedEarly(j, MEMORY, plaintext.Contents(), m.sizeMax, m.trace);
      return MEMORY;
    }
    if first.size > 0 {
      CopyIn(plaintext.data, 0, first.data[..first.size]);
      assert plaintext.data[..first.size] == plaintext.data[0..first.size];
    }
    assert Held(plaintext.data)[..j.Start(1)] == first.Contents();
    rc := OpenRest(aead, m, derived, input, header, entries, plaintext.data, scratch, j, plan);
  }

  /** Phases 2 and 3; the buffer of chunk 0 ends with them. */
  method OpenAllChunks(aead: Aead, m: Machine, derived: array<byte>, input: array<byte>, header: FileHeader, entries: array<Entry>,
                       plaintext: SecureBuffer, scratch: array?<byte>, ghost base: set<array<byte>>, ghost j: Job, ghost plan: Plan)
    returns (rc: Status)
    requires Doing(j, aead, derived, input, entries, scratch) && header == j.h
    requires Holds1(m, base, plaintext) && plaintext.data == null
    requires Due(m.trace, plan, Want(j.Size(0))) && plan.after == Want(header.plaintextSize)
    modifies m, plaintext, scratch
    ensures Holds1(m, base, plaintext) && fresh(Data(plaintext))
    ensures Ended(j, rc, plaintext.Contents(), m.sizeMax, m.trace) && Safe(m.trace, plan)
  {
    hide Safe, Asked, AllWiped, Decoding.OpenChunk, TableFor, Acceptable, ChunksOk, Lawful, HasOpened, Job.From, Job.One;
    JobEnds(j);
    FromStep(j, 0);
    var first := new SecureBuffer();
    rc := OpenFirst(aead, m, derived, input, header, entries, first, scratch, base, j, plan);
    ghost var inner := base + Data(first);
    if rc == OK {
      rc := FillPlaintext(aead, m, derived, input, header, entries, first, plaintext, scratch, inner, j, plan);
    }
    EndOne(m, base, plaintext, first);
  }

  /** The inflate scratch, as large as the largest deflated chunk present, and everything after it. */
  method DecryptWithKey(aead: Aead, m: Machine, derived: array<byte>, input: array<byte>, header: FileHeader, entries: array<Entry>,
                        maxCompressed: u32, plaintext: SecureBuffer, ghost base: set<array<byte>>, ghost j: Job, ghost plan: Plan)
    returns (rc: Status)
    requires j.Valid() && header == j.h && j.suite == aead.suite && j.log == aead.log && j.key == derived[..]
    requires input.Length >= HEADER_SIZE && j.headerBytes == input[..HEADER_SIZE]
    requires entries.Length == |j.chunks| && TableFor(input[..], entries[..], j.chunks) && IsMaxCompressed(j.chunks, maxCompressed)
    requires Holds1(m, base, plaintext) && plaintext.data == null
    requires Due(m.trace, plan, Want(maxCompressed) + Want(j.Size(0))) && plan.after == Want(header.plaintextSize)
    modifies m, plaintext
    ensures Holds1(m, base, plaintext) && fresh(Data(plaintext))
    ensures Ended(j, rc, plaintext.Contents(), m.sizeMax, m.trace) && Safe(m.trace, plan)
  {
    hide Safe, Asked, AllWiped, TableFor, Acceptable, ChunksOk, Lawful, HasOpened, Job.From, Job.One, Job.Size;
    var scratch := new SecureBuffer();
    var ok := true;
    if maxCompressed > 0 {
      ok := ObtainOnly(m, base, scratch, maxCompressed);
    }
    AllocDue(old(m.trace), plan, Want(maxCompressed) + Want(j.Size(0)), maxCompressed, ok, Want(j.Size(0)));
    if !ok {
      return MEMORY;
    }
    ScratchSuffices(j, maxCompressed);
    rc := OpenAllChunks(aead, m, derived, input, header, entries, plaintext, scratch.data, base + Data(scratch), j, plan);
    EndOne(m, base, plaintext, scratch);
  }

  /** A scratch of the largest deflated size serves every deflated chunk. */
  lemma ScratchSuffices(j: Job, most: nat)
    requires j.Valid() && IsMaxCompressed(j.chunks, most)
    ensures forall i | 0 <= i < |j.chunks| && j.chunks[i].header.Compressed() :: 0 < j.chunks[i].header.storedSize <= most
  {
    forall i | 0 <= i < |j.chunks| && j.chunks[i].header.Compressed() ensures 0 < j.chunks[i].header.storedSize <= most {
      assert ChunkOk(j.h, 0 + i, j.chunks[i]);
    }
  }

  /** What the result of the machine-free decryption says about a status. */
  ghost predicate Explains(p: Suite, log: seq<SealRecord>, key: Bytes, s: Bytes, rc: Status, plain: Bytes, sizeMax: nat, t: seq<Event>) {
    match rc
    case OK => Decoding.Decrypt(p, log, key, s) == Ok(plain) && |plain| <= sizeMax
    case MEMORY => Blamed(t, MEMORY)
    case CRYPTO => Blamed(t, CRYPTO)
    case TOO_LARGE =>
      || Decoding.Decrypt(p, log, key, s) == Err(TOO_LARGE)
      || (ParseHeader(s).Ok? && ParseHeader(s).value.plaintextSize > sizeMax && HasOpened(t))
    case _ => Decoding.Decrypt(p, log, key, s) == Err(rc)
  }

  /** A structural error is the answer whatever the key and the log. */
  lemma ExplainsBadHeader(p: Suite, log: seq<SealRecord>, key: Bytes, s: Bytes, plain: Bytes, sizeMax: nat, t: seq<Event>)
    requires |key| >= MIN_KEY_SIZE && ParseHeader(s).Err?
    ensures Explains(p, log, key, s, ParseHeader(s).status, plain, sizeMax, t)
  {
  }

  lemma ExplainsBadTable(
    p: Suite, log: seq<SealRecord>, key: Bytes, s: Bytes, h: FileHeader, plain: Bytes, sizeMax: nat, t: seq<Event>)
    requires |key| >= MIN_KEY_SIZE && |s| >= HEADER_SIZE && ParseHeader(s) == Ok(h) && WalkTable(s, h) == Err(FORMAT)
    ensures Explains(p, log, key, s, FORMAT, plain, sizeMax, t)
  {
  }

  lemma FileTaken(s: Bytes, h: FileHeader, chunks: seq<Chunk>)
    requires |s| >= HEADER_SIZE && ParseHeader(s) == Ok(h) && WalkTable(s, h) == Ok(chunks)
    ensures ParseFile(s) == Ok((h, chunks))
  {
  }

  /** The result of the job, and how it ended, is what the decryption comes to. */
  lemma ExplainsJob(j: Job, key: Bytes, s: Bytes, rc: Status, plain: Bytes, sizeMax: nat, t: seq<Event>)
    requires |key| >= MIN_KEY_SIZE && ParseFile(s) == Ok((j.h, j.chunks)) && j.Valid()
    requires j.key == KeyFor(j.suite, key, j.h) && |s| >= HEADER_SIZE && j.headerBytes == s[..HEADER_SIZE]
    requires Ended(j, rc, plain, sizeMax, t)
    ensures Explains(j.suite, j.log, key, s, rc, plain, sizeMax, t)
  {
    hide ParseHeader, WalkTable, OpenAll;
    assert j.chunks[0..] == j.chunks;
    HeaderParsed(s, j.h, j.chunks);
  }

  lemma HeaderParsed(s: Bytes, h: FileHeader, chunks: seq<Chunk>)
    requires ParseFile(s) == Ok((h, chunks))
    ensures ParseHeader(s) == Ok(h)
  {
  }

  lemma ExplainsFault(p: Suite, log: seq<SealRecord>, key: Bytes, s: Bytes, rc: Status, plain: Bytes, sizeMax: nat, t: seq<Event>)
    requires (rc == MEMORY || rc == CRYPTO) && Blamed(t, rc)
    ensures Explains(p, log, key, s, rc, plain, sizeMax, t)
  {
  }

  /** The key, and everything after it. */
  method DecryptWithTable(aead: Aead, m: Machine, key: array<byte>, input: array<byte>, header: FileHeader, entries: array<Entry>,
                          maxCompressed: u32, plaintext: SecureBuffer, ghost base: set<array<byte>>,
                          ghost chunks: seq<Chunk>, ghost plan: Plan)
    returns (rc: Status)
    requires Lawful(aead.suite) && key.Length >= MIN_KEY_SIZE && ParseFile(input[..]) == Ok((header, chunks))
    requires entries.Length == |chunks| && TableFor(input[..], entries[..], chunks) && IsMaxCompressed(chunks, maxCompressed)
    requires Holds1(m, base, plaintext) && plaintext.data == null
    requires Due(m.trace, plan, [KEY_SIZE] + (Want(maxCompressed) + Want(FirstSize(header))))
    requires plan.after == Want(header.plaintextSize)
    modifies m, plaintext
    ensures Holds1(m, base, plaintext) && fresh(Data(plaintext))
    ensures Explains(aead.suite, aead.log, key[..], input[..], rc, plaintext.Contents(), m.sizeMax, m.trace)
    ensures Safe(m.trace, plan)
  {
    hide Safe, Asked, AllWiped, TableFor, Acceptable, ChunksOk, Lawful, HasOpened, IsMaxCompressed, HeaderBytes,
         ParseFile, Explains, Ended, Want;
    ParsedCount(input[..], header, chunks);
    ParseFileExact(input[..], header, chunks);
    var derived := new SecureBuffer();
    rc := DeriveKey(aead.suite, m, key, header.salt, header.kdfLogN, header.kdfR, header.kdfP, derived);
    DeriveKeySafe(old(m.trace), m.trace, rc, plan, Want(maxCompressed) + Want(FirstSize(header)));
    if rc != OK {
      ExplainsFault(aead.suite, aead.log, key[..], input[..], rc, plaintext.Contents(), m.sizeMax, m.trace);
      return;
    }
    ghost var j := Job(aead.suite, aead.log, derived.data[..], input[..HEADER_SIZE], header, chunks);
    rc := DecryptWithKey(aead, m, derived.data, input, header, entries, maxCompressed, plaintext, base + Data(derived), j, plan);
    ExplainsJob(j, key[..], input[..], rc, plaintext.Contents(), m.sizeMax, m.trace);
    EndOne(m, base, plaintext, derived);
  }

  lemma DeriveKeySafe(before: seq<Event>, after: seq<Event>, rc: Status, plan: Plan, rest: seq<nat>)
    requires Due(before, plan, [KEY_SIZE] + rest)
    requires rc == OK ==> after == before + [Alloc(KEY_SIZE, true)]
    requires rc == MEMORY ==> after == before + [Alloc(KEY_SIZE, false)]
    requires rc == CRYPTO ==> after == before + [Alloc(KEY_SIZE, true), Fault(CRYPTO)]
    requires rc == OK || rc == MEMORY || rc == CRYPTO
    ensures Safe(after, plan) && (rc == OK ==> Due(after, plan, rest))
  {
    hide InflateGuarded, HasOpened, Asked;
    AllocDue(before, plan, [KEY_SIZE] + rest, KEY_SIZE, rc != MEMORY, rest);
    if rc == CRYPTO {
      var middle := before + [Alloc(KEY_SIZE, true)];
      SafeSnoc(middle, Fault(CRYPTO), plan);
      assert after == middle + [Fault(CRYPTO)];
    }
  }

  /** The plaintext size of chunk 0 as the header claims it. */
  function FirstSize(h: FileHeader): nat {
    ChunkPlainSize(h.plaintextSize, h.chunkSize, 0)
  }

  /** What decrypting `s` may allocate, whatever the key.  Before a tag has
      verified: the table, if the input can hold the records it describes; then,
      if the walk accepts the input, the key, the inflate scratch when some chunk
      is deflated, and one chunk.  Only afterwards: the whole plaintext. */
  ghost function PlanFor(s: Bytes): Plan {
    match ParseHeader(s)
    case Err(_) => Plan([], [])
    case Ok(h) =>
      var table := if |s| < HEADER_SIZE + h.chunkCount * CHUNK_HEADER_SIZE then [] else [h.chunkCount * ENTRY_SIZE];
      TableFitsAnyHost(s, h);
      match WalkTable(s, h)
      case Err(_) => Plan(table, [])
      case Ok(chunks) =>
        Plan(table + ([KEY_SIZE] + (Want(MaxCompressed(chunks)) + Want(FirstSize(h)))), Want(h.plaintextSize))
  }

  /** Everything after the header; the chunk table ends with it. */
  method DecryptParsed(aead: Aead, m: Machine, key: array<byte>, input: array<byte>, header: FileHeader, plaintext: SecureBuffer,
                       ghost base: set<array<byte>>)
    returns (rc: Status)
    requires Lawful(aead.suite) && key.Length >= MIN_KEY_SIZE && m.sizeMax >= UINT32_MAX && m.trace == []
    requires ParseHeader(input[..]) == Ok(header)
    requires Holds1(m, base, plaintext) && plaintext.data == null
    modifies m, plaintext
    ensures Holds1(m, base, plaintext) && fresh(Data(plaintext))
    ensures Explains(aead.suite, aead.log, key[..], input[..], rc, plaintext.Contents(), m.sizeMax, m.trace)
    ensures Safe(m.trace, PlanFor(input[..]))
  {
    hide Safe, Due, PlanFor, AllWiped, TableFor, Tiles, Lawful, HasOpened, IsMaxCompressed, Decoding.Decrypt,
         ParseHeader, WalkTable, ParseFile, Explains;
    TableFitsAnyHost(input[..], header);
    var entryStorage := new SecureBuffer();
    var entries, maxCompressed;
    ghost var chunks;
    rc, entries, maxCompressed, chunks := WalkChunkTable(m, input, header, entryStorage, base);
    TableSafe(input[..], header, m.trace, rc, chunks, maxCompressed);
    if rc == OK {
      FileTaken(input[..], header, chunks);
      rc := DecryptWithTable(aead, m, key, input, header, entries, maxCompressed, plaintext, base + Data(entryStorage), chunks,
                             PlanFor(input[..]));
    } else if rc == FORMAT {
      ExplainsBadTable(aead.suite, aead.log, key[..], input[..], header, plaintext.Contents(), m.sizeMax, m.trace);
    } else {
      ExplainsFault(aead.suite, aead.log, key[..], input[..], rc, plaintext.Contents(), m.sizeMax, m.trace);
    }
    EndOne(m, base, plaintext, entryStorage);
  }

  /** The three phases. */
  method DecryptInto(aead: Aead, m: Machine, key: array<byte>, input: array<byte>, plaintext: SecureBuffer, ghost base: set<array<byte>>)
    returns (rc: Status)
    requires Lawful(aead.suite) && key.Length >= MIN_KEY_SIZE && m.sizeMax >= UINT32_MAX && m.trace == []
    requires Holds1(m, base, plaintext) && plaintext.data == null
    modifies m, plaintext
    ensures Holds1(m, base, plaintext) && fresh(Data(plaintext))
    ensures Explains(aead.suite, aead.log, key[..], input[..], rc, plaintext.Contents(), m.sizeMax, m.trace)
    ensures Safe(m.trace, PlanFor(input[..]))
    ensures ParseHeader(input[..]).Err? ==> rc == ParseHeader(input[..]).status && m.trace == []
  {
    hide Safe, PlanFor, AllWiped, Lawful, Decoding.Decrypt, ParseHeader, Explains;
    var parsed := ParseFileHeader(input);
    if parsed.Err? {
      SafeNothing(PlanFor(input[..]));
      ExplainsBadHeader(aead.suite, aead.log, key[..], input[..], plaintext.Contents(), m.sizeMax, m.trace);
      return parsed.status;
    }
    rc := DecryptParsed(aead, m, key, input, parsed.value, plaintext, base);
  }

  lemma SafeNothing(plan: Plan)
    ensures Safe([], plan) && Due([], plan, plan.before)
  {
  }

  lemma PlanBegins(s: Bytes, h: FileHeader)
    requires ParseHeader(s) == Ok(h)
    ensures h.chunkCount >= 1
    ensures |s| >= HEADER_SIZE + h.chunkCount * CHUNK_HEADER_SIZE ==>
      PlanFor(s).before == [h.chunkCount * ENTRY_SIZE] + PlanFor(s).before[1..]
  {
    hide ParseHeader, WalkTable, MaxCompressed, Want;
    TableFitsAnyHost(s, h);
  }

  lemma PlanAfterWalk(s: Bytes, h: FileHeader, chunks: seq<Chunk>, most: nat)
    requires ParseHeader(s) == Ok(h) && |s| >= HEADER_SIZE
    requires WalkTable(s, h) == Ok(chunks) && IsMaxCompressed(chunks, most)
    ensures |s| >= HEADER_SIZE + h.chunkCount * CHUNK_HEADER_SIZE
    ensures PlanFor(s).before == [h.chunkCount * ENTRY_SIZE] + ([KEY_SIZE] + (Want(most) + Want(FirstSize(h))))
    ensures PlanFor(s).after == Want(h.plaintextSize)
  {
    hide ParseHeader, ParseBody, Want, IsMaxCompressed;
    OneMaximum(chunks, most);
  }

  /** The table comes first in the plan. */
  lemma TableSafe(s: Bytes, h: FileHeader, t: seq<Event>, rc: Status, chunks: seq<Chunk>, most: nat)
    requires ParseHeader(s) == Ok(h) && |s| >= HEADER_SIZE
    requires t == [] +
      if |s| < HEADER_SIZE + h.chunkCount * CHUNK_HEADER_SIZE then []
      else [Alloc(h.chunkCount * ENTRY_SIZE, rc != MEMORY)]
    requires rc == OK ==> WalkTable(s, h) == Ok(chunks) && IsMaxCompressed(chunks, most)
    ensures Safe(t, PlanFor(s))
    ensures rc == OK ==>
      && Due(t, PlanFor(s), [KEY_SIZE] + (Want(most) + Want(FirstSize(h))))
      && PlanFor(s).after == Want(h.plaintextSize)
  {
    hide InflateGuarded, HasOpened, Asked, IsMaxCompressed, ParseHeader, WalkTable, PlanFor, FirstSize;
    var plan := PlanFor(s);
    SafeNothing(plan);
    if |s| >= HEADER_SIZE + h.chunkCount * CHUNK_HEADER_SIZE {
      PlanBegins(s, h);
      AllocDue([], plan, plan.before, h.chunkCount * ENTRY_SIZE, rc != MEMORY, plan.before[1..]);
    }
    if rc == OK {
      PlanAfterWalk(s, h, chunks, most);
    }
  }

  /** The plan for a file that parses, in numbers and in order. */
  lemma PlanExactly(s: Bytes, h: FileHeader, chunks: seq<Chunk>, most: nat)
    requires ParseFile(s) == Ok((h, chunks)) && IsMaxCompressed(chunks, most)
    ensures PlanFor(s).before ==
      [32 * h.chunkCount, 32] + (if most > 0 then [most] else [])
      + (if h.plaintextSize == 0 then [] else if h.plaintextSize < h.chunkSize then [h.plaintextSize] else [h.chunkSize])
    ensures PlanFor(s).after == if h.plaintextSize == 0 then [] else [h.plaintextSize]
  {
    hide IsMaxCompressed, ParseHeader, ParseBody;
    OneMaximum(chunks, most);
    TableFitsAnyHost(s, h);
    HeaderInRange(s, h);
  }

  lemma HeaderInRange(s: Bytes, h: FileHeader)
    requires ParseHeader(s) == Ok(h)
    ensures h.chunkSize > 0
  {
    hide KdfMemory, ChunkCountFor;
  }

  // ---- The cost of the plan ----

  /** The bytes granted before the first chunk opened. */
  ghost function PreAuth(t: seq<Event>): nat {
    if t == [] then 0
    else
      var front, last := t[..|t| - 1], t[|t| - 1];
      PreAuth(front) + if last.Alloc? && last.granted && !HasOpened(front) then last.size else 0
  }

  ghost function Sum(ns: seq<nat>): nat {
    if ns == [] then 0 else Sum(ns[..|ns| - 1]) + ns[|ns| - 1]
  }

  lemma {:induction false} SumAppend(a: seq<nat>, b: seq<nat>)
    ensures Sum(a + b) == Sum(a) + Sum(b)
  {
    if b == [] {
      assert a + b == a;
    } else {
      assert (a + b)[..|a + b| - 1] == a + b[..|b| - 1];
      SumAppend(a, b[..|b| - 1]);
    }
  }

  lemma SumOne(n: nat)
    ensures Sum([n]) == n && Sum(Want(n)) == n
  {
    assert [n][..0] == [];
  }

  lemma {:induction false} GrantedWasAsked(t: seq<Event>)
    ensures PreAuth(t) <= Sum(Asked(t, false))
  {
    hide HasOpened;
    if t != [] {
      var front, last := t[..|t| - 1], t[|t| - 1];
      GrantedWasAsked(front);
      if last.Alloc? && !HasOpened(front) {
        SumAppend(Asked(front, false), [last.size]);
        SumOne(last.size);
      } else {
        assert Asked(t, false) == Asked(front, false);
      }
    }
  }

  /** What may be granted before a tag has verified: the key, four thirds of the
      input for the table and the inflate scratch together, and one chunk. */
  ghost function PreAuthBudget(s: Bytes): nat {
    KEY_SIZE + 4 * |s| / 3 + match ParseHeader(s) { case Err(_) => 0 case Ok(h) => FirstSize(h) }
  }

  /** The table is paid for by the records it describes, the scratch by the
      payloads that follow them. */
  lemma PlanWithinBudget(s: Bytes)
    ensures Sum(PlanFor(s).before) <= PreAuthBudget(s)
  {
    hide ParseHeader, MaxCompressed, ParseBody, ChunkPlainSize;
    match ParseHeader(s)
    case Err(_) =>
    case Ok(h) =>
      TableFitsAnyHost(s, h);
      var n := h.chunkCount * ENTRY_SIZE;
      SumOne(n);
      match WalkTable(s, h) {
        case Err(_) =>
        case Ok(chunks) =>
          var most := MaxCompressed(chunks);
          TableSpace(s, h, chunks, most);
          SumAppend([n], [KEY_SIZE] + (Want(most) + Want(FirstSize(h))));
          SumAppend([KEY_SIZE], Want(most) + Want(FirstSize(h)));
          SumAppend(Want(most), Want(FirstSize(h)));
          SumOne(KEY_SIZE);
          SumOne(most);
          SumOne(FirstSize(h));
      }
  }

  /** Keeping to the plan keeps to the budget. */
  lemma SafeIsCheap(t: seq<Event>, s: Bytes)
    requires Safe(t, PlanFor(s))
    ensures PreAuth(t) <= PreAuthBudget(s)
  {
    hide PlanFor, PreAuthBudget;
    GrantedWasAsked(t);
    PlanWithinBudget(s);
    var some, all := Asked(t, false), PlanFor(s).before;
    assert all == some + all[|some|..];
    SumAppend(some, all[|some|..]);
  }

  /** A defect of the header decides the status whatever the key and the machine. */
  lemma HeaderStatusDecides(
    p: Suite, log: seq<SealRecord>, key: Bytes, s: Bytes, rc: Status, plain: Bytes, sizeMax: nat, t: seq<Event>)
    requires |key| >= MIN_KEY_SIZE && Explains(p, log, key, s, rc, plain, sizeMax, t)
    requires ParseHeader(s).Err? ==> rc == ParseHeader(s).status
    ensures rc != INVALID_ARG
    ensures HeaderMalformed(s) ==> rc == FORMAT
    ensures HeaderUnsupported(s) <==> rc == UNSUPPORTED
    ensures HeaderTooLarge(s) ==> rc == TOO_LARGE
    ensures rc == TOO_LARGE ==> HeaderTooLarge(s) || HasOpened(t)
    ensures rc == FORMAT ==> HeaderMalformed(s) || ParseHeader(s).Ok?
  {
    hide ParseHeader, Decoding.Decrypt, HasOpened, HeaderMalformed, HeaderUnsupported, HeaderTooLarge, Blamed;
    HeaderStatusExact(s);
    if ParseHeader(s).Err? {
      HeaderErrors(s);
    }
    if ParseHeader(s).Ok? && Decoding.Decrypt(p, log, key, s).Err? {
      DecryptStatuses(p, log, key, s);
    }
  }

  lemma HeaderErrors(s: Bytes)
    requires ParseHeader(s).Err?
    ensures ParseHeader(s).status in {FORMAT, UNSUPPORTED, TOO_LARGE}
  {
    HeaderStatusExact(s);
  }

  /** DecryptBuffer past its argument checks. */
  method DecryptChecked(aead: Aead, m: Machine, key: array<byte>, input: array<byte>, out: SecureBuffer, outSize: SizeCell)
    returns (rc: Status)
    requires Lawful(aead.suite) && key.Length >= MIN_KEY_SIZE && m.sizeMax >= UINT32_MAX && m.trace == []
    requires AllWiped(m.heap) && out.Valid()
    requires Data(out) <= Live(m) && (out.data != null ==> out.data != input && out.data != key)
    modifies m, out, out.data, outSize
    ensures AllWiped(m.heap) && out.Valid()
    ensures rc != OK ==> unchanged(out) && out.Contents() == old(out.Contents()) && unchanged(outSize) && Live(m) == old(Live(m))
    ensures rc == OK ==> outSize.value == out.size && Live(m) == old(Live(m)) - old(Data(out)) + Data(out)
    ensures Explains(aead.suite, aead.log, key[..], input[..], rc, out.Contents(), m.sizeMax, m.trace)
    ensures Safe(m.trace, PlanFor(input[..]))
    ensures ParseHeader(input[..]).Err? ==> rc == ParseHeader(input[..]).status && m.trace == []
  {
    hide Safe, AllWiped, Lawful, Decoding.Decrypt, ParseHeader;
    var plaintext := new SecureBuffer();
    ghost var base := Live(m);
    rc := DecryptInto(aead, m, key, input, plaintext, base);
    if rc != OK {
      EndScope(m, base, plaintext);
      return;
    }
    outSize.value := plaintext.size;
    HandOver(m, base, out, plaintext);
  }

  lemma ExplainsAuthenticity(
    p: Suite, log: seq<SealRecord>, runs: seq<Run>, key: Bytes, s: Bytes, rc: Status, plain: Bytes, sizeMax: nat, t: seq<Event>)
    requires Lawful(p) && LogFrom(p, log, runs) && Explains(p, log, key, s, rc, plain, sizeMax, t)
    ensures forall r | r in runs :: Admissible(r)
    ensures rc != Status.COMPRESS
    ensures DistinctHeaders(runs) && rc == OK ==> exists r :: r in runs && FileFor(p, r, key, s) && r.plain == plain
  {
    hide Lawful, FileFor, Decoding.Decrypt, StreamOk;
    CompressUnreachable(p, log, runs, key, s);
    if DistinctHeaders(runs) && rc == OK {
      AcceptsExactlyWrittenFiles(p, log, runs, key, s, plain);
    }
  }

  /** DecryptBuffer, on any input and key whatever.  `runs` are encryptions that
      account for the log; the claims that need them say so. */
  method DecryptBuffer(aead: Aead, m: Machine, key: array?<byte>, input: array?<byte>, out: SecureBuffer, outSize: SizeCell,
                       ghost runs: seq<Run>)
    returns (rc: Status)
    requires Lawful(aead.suite) && m.sizeMax >= UINT32_MAX && AllWiped(m.heap) && out.Valid()
    requires Data(out) <= Live(m) && (out.data != null ==> out.data != input && out.data != key)
    modifies m, out, out.data, outSize
    // memory: whatever happens, every block the call allocated is wiped and gone, unless it is the result
    ensures AllWiped(m.heap) && out.Valid()
    ensures rc != OK ==> unchanged(out) && out.Contents() == old(out.Contents()) && unchanged(outSize) && Live(m) == old(Live(m))
    ensures rc == OK ==> outSize.value == out.size && Live(m) == old(Live(m)) - old(Data(out)) + Data(out)
    // status and result
    ensures key == null || input == null || key.Length < 12 <==> rc == INVALID_ARG
    ensures rc != INVALID_ARG ==>
      && (HeaderMalformed(input[..]) ==> rc == FORMAT)
      && (HeaderUnsupported(input[..]) <==> rc == UNSUPPORTED)
      && (HeaderTooLarge(input[..]) ==> rc == TOO_LARGE)
      && (rc == TOO_LARGE ==> HeaderTooLarge(input[..]) || HasOpened(m.trace))
      && (rc == FORMAT ==> HeaderMalformed(input[..]) || ParseHeader(input[..]).Ok?)
    ensures key != null && input != null && key.Length >= MIN_KEY_SIZE ==>
      && Explains(aead.suite, aead.log, key[..], input[..], rc, out.Contents(), m.sizeMax, m.trace)
      && Safe(m.trace, PlanFor(input[..])) && PreAuth(m.trace) <= PreAuthBudget(input[..])
    // authenticity
    ensures LogFrom(aead.suite, aead.log, runs) ==> rc != Status.COMPRESS
    ensures LogFrom(aead.suite, aead.log, runs) && DistinctHeaders(runs) && rc == OK ==>
      key != null && input != null &&
      exists r :: r in runs && FileFor(aead.suite, r, key[..], input[..]) && r.plain == out.Contents()
  {
    hide Lawful, AllWiped, Safe, PlanFor, PreAuth, PreAuthBudget, Explains, ParseHeader, HasOpened, HeaderMalformed,
         HeaderUnsupported, HeaderTooLarge, FileFor, LogFrom;
    m.trace := [];
    if key == null || input == null {
      return INVALID_ARG;
    }
    if key.Length < MIN_KEY_SIZE {
      return INVALID_ARG;
    }
    ghost var k, s := key[..], input[..];
    rc := DecryptChecked(aead, m, key, input, out, outSize);
    SafeIsCheap(m.trace, s);
    HeaderStatusDecides(aead.suite, aead.log, k, s, rc, out.Contents(), m.sizeMax, m.trace);
    if LogFrom(aead.suite, aead.log, runs) {
      ExplainsAuthenticity(aead.suite, aead.log, runs, k, s, rc, out.Contents(), m.sizeMax, m.trace);
    }
  }
}
