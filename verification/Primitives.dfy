/** The foreign primitives the container is built on, as contracts only:
    scrypt, AES-256-GCM, deflate/inflate and the random source.

    A Suite is any choice of those functions that obeys `Lawful`; every theorem
    quantifies over all of them.  Authenticity is idealised in the class Aead:
    it remembers what it sealed and opens exactly that. */
module Primitives {
  import opened Wire
  import opened Format
  import opened Memory

  const INT32_MAX := 0x7FFF_FFFF
  const UINT32_MAX := 0xFFFF_FFFF
  const MIN_KEY_SIZE := 12

  datatype Sealed = Sealed(ciphertext: Bytes, tag: Tag)

  /** How deflate ends: a finished stream, no room for one, or an internal failure. */
  datatype Deflated = Stream(bytes: Bytes) | NoRoom | Broken

  datatype Suite = Suite(
    scrypt: (Bytes, Bytes, nat, nat, nat) -> Bytes,  // key, salt, log_n, r, p
    seal: (Bytes, Bytes, Bytes, Bytes) -> Sealed,    // key, nonce, aad, payload
    deflate: (Bytes, nat) -> Deflated,               // input, output capacity
    inflate: (Bytes, nat) -> Option<Bytes>)          // stream, exact output size

  /** The laws the container relies on.
      Sealing preserves length and, under one key, nonce and associated data,
      is injective.  Inflating succeeds only with the exact output size, never
      on an empty stream, and undoes deflate. */
  ghost predicate Lawful(p: Suite) {
    && (forall k, s, n, r, q :: |p.scrypt(k, s, n, r, q)| == KEY_SIZE)
    && (forall k, n, a, x :: |p.seal(k, n, a, x).ciphertext| == |x|)
    && (forall k, n, a, x, y :: p.seal(k, n, a, x) == p.seal(k, n, a, y) ==> x == y)
    && (forall s, n :: p.inflate(s, n).Some? ==> |p.inflate(s, n).value| == n && s != [])
    && (forall x, cap :: p.deflate(x, cap).Stream? ==>
          |p.deflate(x, cap).bytes| <= cap && p.inflate(p.deflate(x, cap).bytes, |x|) == Some(x))
  }

  /** A suite that stores one byte for a run of equal bytes and seals in the clear. */
  function ToySuite(): Suite {
    Suite(
      (k, s, n, r, q) => Zeros(KEY_SIZE),
      (k, n, a, x) => Sealed(x, Zeros(TAG_SIZE)),
      (x, cap) => if cap > 0 && |x| > 0 && x == Repeat(x[0], |x|) then Stream([x[0]]) else NoRoom,
      (s, n) => if |s| == 1 then Some(Repeat(s[0], n)) else None)
  }

  function Repeat(b: byte, n: nat): Bytes {
    seq(n, _ => b)
  }

  /** The laws can be met, by a suite whose deflate really shrinks something. */
  lemma ToySuiteLawful()
    ensures Lawful(ToySuite())
    ensures ToySuite().deflate([7, 7, 7], 3) == Stream([7])
  {
    assert [7, 7, 7] == Repeat(7, 3);
  }

  /** The same suite with a deflate that never works. */
  function BrokenSuite(): Suite {
    ToySuite().(deflate := (x, cap) => Broken)
  }

  /** The laws do not keep deflate from failing outright. */
  lemma BrokenSuiteLawful()
    ensures Lawful(BrokenSuite())
    ensures forall x, room :: BrokenSuite().deflate(x, room) == Broken
  {
  }

  // ---- The idealised AEAD ----

  datatype SealRecord = SealRecord(key: Bytes, nonce: Bytes, aad: Bytes, payload: Bytes)

  predicate Matches(p: Suite, rec: SealRecord, key: Bytes, nonce: Bytes, aad: Bytes, sealed: Sealed) {
    && rec.key == key && rec.nonce == nonce && rec.aad == aad
    && p.seal(key, nonce, aad, rec.payload) == sealed
  }

  /** What opening yields, given everything that was ever sealed. */
  function Opens(p: Suite, log: seq<SealRecord>, key: Bytes, nonce: Bytes, aad: Bytes, sealed: Sealed): Option<Bytes> {
    if log == [] then None
    else
      var last := log[|log| - 1];
      if Matches(p, last, key, nonce, aad, sealed) then Some(last.payload)
      else Opens(p, log[..|log| - 1], key, nonce, aad, sealed)
  }

  /** Opening yields a payload exactly when that payload was sealed under this
      key, nonce and associated data and gave this ciphertext and tag. */
  lemma {:induction false} OpensExactlySealed(
    p: Suite, log: seq<SealRecord>, key: Bytes, nonce: Bytes, aad: Bytes, sealed: Sealed, payload: Bytes)
    requires Lawful(p)
    ensures Opens(p, log, key, nonce, aad, sealed) == Some(payload)
       <==> SealRecord(key, nonce, aad, payload) in log && p.seal(key, nonce, aad, payload) == sealed
  {
    if log != [] {
      var front, last := log[..|log| - 1], log[|log| - 1];
      OpensExactlySealed(p, front, key, nonce, aad, sealed, payload);
      assert log == front + [last];
    }
  }

  /** aead::Seal and aead::Open over one growing record of what was sealed. */
  class Aead {
    const suite: Suite
    var log: seq<SealRecord>

    constructor (suite: Suite)
      ensures this.suite == suite && log == []
    {
      this.suite := suite;
      log := [];
    }

    method Seal(m: Machine, key: array<byte>, nonce: array<byte>, aad: array<byte>,
                pt: array?<byte>, ptOff: nat, size: nat, ct: array<byte>, ctOff: nat, tag: array<byte>)
      returns (rc: Status)
      requires Lawful(suite)
      requires pt != null ==> ptOff + size <= pt.Length
      requires ctOff + size <= ct.Length && tag.Length == TAG_SIZE && ct != tag
      requires ct != key && ct != nonce && ct != aad && ct != pt && tag != key && tag != nonce && tag != aad && tag != pt
      modifies this`log, m`trace, ct, tag
      ensures rc == OK && size > 0 ==> pt != null
      ensures rc == OK ==>
        var payload := if size == 0 then [] else pt[ptOff..ptOff + size];
        && log == old(log) + [SealRecord(key[..], nonce[..], aad[..], payload)]
        && var sealed := suite.seal(key[..], nonce[..], aad[..], payload);
        && |sealed.ciphertext| == size
        && Wrote(old(ct[..]), ct[..], ctOff, sealed.ciphertext)
        && tag[..] == sealed.tag
      ensures rc == OK ==> m.trace == old(m.trace)
      ensures rc != OK ==> log == old(log)
      ensures rc == INVALID_ARG <==> size > INT32_MAX || aad.Length > INT32_MAX || (size > 0 && pt == null)
      ensures rc == CRYPTO ==> m.trace == old(m.trace) + [Fault(CRYPTO)]
      ensures rc == OK || rc == INVALID_ARG || rc == CRYPTO
    {
      if size > 0 && pt == null {
        return INVALID_ARG;
      }
      if size > INT32_MAX || aad.Length > INT32_MAX {
        return INVALID_ARG;
      }
      var broken: bool := *;
      if broken {
        m.trace := m.trace + [Fault(CRYPTO)];
        return CRYPTO;
      }
      var payload := if size == 0 then [] else pt[ptOff..ptOff + size];
      var sealed := suite.seal(key[..], nonce[..], aad[..], payload);
      log := log + [SealRecord(key[..], nonce[..], aad[..], payload)];
      CopyIn(ct, ctOff, sealed.ciphertext);
      CopyIn(tag, 0, sealed.tag);
      assert tag[..] == tag[0..TAG_SIZE];
      return OK;
    }

    /** On MC_ERR_AUTH and MC_ERR_CRYPTO the output range may already hold
        unverified bytes; nothing is promised about it. */
    method Open(m: Machine, key: array<byte>, nonce: array<byte>, aad: array<byte>,
                ct: array<byte>, ctOff: nat, size: nat, tag: Tag, pt: array?<byte>, ptOff: nat)
      returns (rc: Status)
      requires Lawful(suite)
      requires pt != null ==> ptOff + size <= pt.Length
      requires ctOff + size <= ct.Length
      requires pt != ct && pt != key && pt != nonce && pt != aad
      modifies m`trace, pt
      ensures rc == OK || rc == AUTH || rc == CRYPTO || rc == INVALID_ARG
      ensures rc == OK && size > 0 ==> pt != null
      ensures var found := Opens(suite, log, key[..], nonce[..], aad[..], Sealed(ct[ctOff..ctOff + size], tag));
        && (rc == OK ==>
              && found.Some? && |found.value| == size
              && (pt != null ==> Wrote(old(pt[..]), pt[..], ptOff, found.value))
              && m.trace == old(m.trace) + [Memory.Opened(found.value)])
        && (rc == AUTH ==> found == None && m.trace == old(m.trace) + [Rejected])
      ensures rc == CRYPTO ==> m.trace == old(m.trace) + [Fault(CRYPTO)]
      ensures rc == INVALID_ARG <==> size > INT32_MAX || aad.Length > INT32_MAX || (size > 0 && pt == null)
      ensures rc == INVALID_ARG ==> m.trace == old(m.trace)
      ensures pt != null ==> pt[..ptOff] == old(pt[..ptOff]) && pt[ptOff + size..] == old(pt[ptOff + size..])
    {
      if size > 0 && pt == null {
        return INVALID_ARG;
      }
      if size > INT32_MAX || aad.Length > INT32_MAX {
        return INVALID_ARG;
      }
      Scribble(pt, ptOff, size);
      var broken: bool := *;
      if broken {
        m.trace := m.trace + [Fault(CRYPTO)];
        return CRYPTO;
      }
      var sealed := Sealed(ct[ctOff..ctOff + size], tag);
      var found := Opens(suite, log, key[..], nonce[..], aad[..], sealed);
      if found == None {
        m.trace := m.trace + [Rejected];
        return AUTH;
      }
      OpensExactlySealed(suite, log, key[..], nonce[..], aad[..], sealed, found.value);
      m.trace := m.trace + [Memory.Opened(found.value)];
      if pt != null {
        CopyIn(pt, ptOff, found.value);
      }
      return OK;
    }
  }

  /** Bytes of which nothing is known. */
  method Scribble(out: array?<byte>, off: nat, size: nat)
    requires out != null ==> off + size <= out.Length
    modifies out
    ensures out != null ==> out[..off] == old(out[..off]) && out[off + size..] == old(out[off + size..])
  {
    if out != null {
      for i := 0 to size
        invariant out[..off] == old(out[..off])
        invariant out[off + size..] == old(out[off + size..])
      {
        out[off + i] := *;
      }
    }
  }

  // ---- scrypt, zlib, the random source ----

  lemma DerivedSize(suite: Suite, key: Bytes, salt: Bytes, logN: nat, r: nat, p: nat)
    requires Lawful(suite)
    ensures |suite.scrypt(key, salt, logN, r, p)| == KEY_SIZE
  {
  }

  /** The part of kdf::DeriveKey that works on its local buffer. */
  method FillKey(suite: Suite, m: Machine, key: array<byte>, salt: Salt, logN: byte, r: u32, p: u32, derived: SecureBuffer)
    returns (rc: Status)
    requires Lawful(suite) && derived.Valid() && derived.data == null
    modifies m, derived
    ensures derived.Valid() && fresh(Data(derived))
    ensures rc == OK || rc == MEMORY || rc == CRYPTO
    ensures rc == OK ==> derived.data != null && derived.data[..] == suite.scrypt(key[..], salt, logN, r, p)
    ensures m.trace == old(m.trace) + [Alloc(KEY_SIZE, rc != MEMORY)] + if rc == CRYPTO then [Fault(CRYPTO)] else []
    ensures rc != OK ==> Blamed(m.trace, rc)
    ensures AllWiped(old(m.heap)) ==> AllWiped(m.heap)
    ensures Live(m) == old(Live(m)) + Data(derived)
  {
    hide Acquire, HeapAfterWipe, AllWiped, Lawful;
    var ok := derived.Reset(m, KEY_SIZE);
    if !ok {
      return MEMORY;
    }
    var broken: bool := *;
    if broken {
      m.trace := m.trace + [Fault(CRYPTO)];
      return CRYPTO;
    }
    DerivedSize(suite, key[..], salt, logN, r, p);
    CopyIn(derived.data, 0, suite.scrypt(key[..], salt, logN, r, p));
    assert derived.data[..] == derived.data[0..KEY_SIZE];
    return OK;
  }

  /** kdf::DeriveKey. */
  method DeriveKey(suite: Suite, m: Machine, key: array<byte>, salt: Salt, logN: byte, r: u32, p: u32, out: SecureBuffer)
    returns (rc: Status)
    requires Lawful(suite) && out.Valid() && out.data == null
    modifies m, out
    ensures out.Valid() && (out.data == null || fresh(out.data))
    ensures rc == OK ==> out.data != null && out.data[..] == suite.scrypt(key[..], salt, logN, r, p)
    ensures rc != OK ==> out.data == null
    ensures rc == INVALID_ARG <==> key.Length < MIN_KEY_SIZE
    ensures rc == INVALID_ARG ==> m.trace == old(m.trace)
    ensures rc == MEMORY ==> m.trace == old(m.trace) + [Alloc(KEY_SIZE, false)]
    ensures rc == CRYPTO ==> m.trace == old(m.trace) + [Alloc(KEY_SIZE, true), Fault(CRYPTO)]
    ensures rc == OK ==> m.trace == old(m.trace) + [Alloc(KEY_SIZE, true)]
    ensures rc == MEMORY || rc == CRYPTO ==> Blamed(m.trace, rc)
    ensures rc == OK || rc == INVALID_ARG || rc == MEMORY || rc == CRYPTO
    ensures AllWiped(old(m.heap)) ==> AllWiped(m.heap)
    ensures m.heap.live.Keys == old(m.heap.live).Keys + (if out.data == null then {} else {out.data})
  {
    hide Acquire, HeapAfterWipe, AllWiped, Lawful;
    if key.Length < MIN_KEY_SIZE {
      return INVALID_ARG;
    }
    var derived := new SecureBuffer();
    rc := FillKey(suite, m, key, salt, logN, r, p, derived);
    if rc == OK {
      out.MoveFrom(m, derived);
    }
    derived.WipeAndFree(m);
  }

  /** compression::CompressChunk, writing the stream to the front of `out`. */
  method CompressChunk(suite: Suite, m: Machine, input: array<byte>, off: nat, size: nat, out: array<byte>)
    returns (rc: Status, produced: nat, smaller: bool)
    requires Lawful(suite) && off + size <= input.Length && input != out
    modifies m`trace, out
    ensures rc == OK || rc == INVALID_ARG || rc == MEMORY || rc == COMPRESS
    ensures rc == INVALID_ARG <==> size > UINT32_MAX || out.Length > UINT32_MAX
    ensures rc == MEMORY ==> m.trace == old(m.trace) + [Fault(MEMORY)]
    ensures rc == COMPRESS ==> suite.deflate(input[off..off + size], out.Length) == Broken
    ensures rc == OK ==>
      match suite.deflate(input[off..off + size], out.Length)
      case Stream(s) => produced == |s| <= out.Length && out[..produced] == s && smaller == (|s| < size)
      case NoRoom => produced == 0 && !smaller
      case Broken => false
    ensures rc != MEMORY ==> m.trace == old(m.trace)
  {
    produced, smaller := 0, false;
    if size > UINT32_MAX || out.Length > UINT32_MAX {
      return INVALID_ARG, 0, false;
    }
    var broken: bool := *;
    if broken {
      m.trace := m.trace + [Fault(MEMORY)];
      return MEMORY, 0, false;
    }
    Scribble(out, 0, out.Length);
    match suite.deflate(input[off..off + size], out.Length)
    case Stream(s) =>
      CopyIn(out, 0, s);
      assert out[..|s|] == out[0..|s|];
      return OK, |s|, |s| < size;
    case NoRoom =>
      return OK, 0, false;
    case Broken =>
      return COMPRESS, 0, false;
  }

  /** compression::DecompressChunk: exactly `outSize` bytes from exactly `size` bytes, or failure. */
  method DecompressChunk(suite: Suite, m: Machine, input: array<byte>, size: nat, out: array?<byte>, outOff: nat, outSize: nat)
    returns (rc: Status)
    requires Lawful(suite) && size <= input.Length && input != out
    requires out != null ==> outOff + outSize <= out.Length
    modifies m`trace, out
    ensures rc == OK || rc == INVALID_ARG || rc == MEMORY || rc == COMPRESS
    ensures rc == INVALID_ARG <==> (outSize > 0 && out == null) || size > UINT32_MAX || outSize > UINT32_MAX
    ensures rc == INVALID_ARG ==> m.trace == old(m.trace)
    ensures rc == MEMORY ==> m.trace == old(m.trace) + [Fault(MEMORY)]
    ensures rc == OK || rc == COMPRESS ==> m.trace == old(m.trace) + [Inflating(input[..size])]
    ensures rc == OK ==>
      && suite.inflate(input[..size], outSize).Some?
      && (out != null ==> Wrote(old(out[..]), out[..], outOff, suite.inflate(input[..size], outSize).value))
    ensures rc == COMPRESS ==> suite.inflate(input[..size], outSize) == None
    ensures out != null ==> out[..outOff] == old(out[..outOff]) && out[outOff + outSize..] == old(out[outOff + outSize..])
  {
    if outSize > 0 && out == null {
      return INVALID_ARG;
    }
    if size > UINT32_MAX || outSize > UINT32_MAX {
      return INVALID_ARG;
    }
    var broken: bool := *;
    if broken {
      m.trace := m.trace + [Fault(MEMORY)];
      return MEMORY;
    }
    m.trace := m.trace + [Inflating(input[..size])];
    var inflated := suite.inflate(input[..size], outSize);
    Scribble(out, outOff, outSize);
    if inflated == None {
      return COMPRESS;
    }
    if out != null {
      CopyIn(out, outOff, inflated.value);
    }
    return OK;
  }

  /** The random source: one endless stream of bytes, of which nothing is known,
      read from the front. */
  class RandomSource {
    const stream: nat -> byte
    var used: nat

    constructor (stream: nat -> byte)
      ensures this.stream == stream && used == 0
    {
      this.stream := stream;
      used := 0;
    }

    /** The n bytes of the stream that start at `at`. */
    function BytesAt(at: nat, n: nat): (s: seq<byte>)
      ensures |s| == n
    {
      seq(n, i requires 0 <= i < n => stream(at + i))
    }

    /** random_bytes::Fill.  A draw that fails may have used up its bytes. */
    method Draw(m: Machine, n: nat) returns (rc: Status, bytes: seq<byte>)
      modifies m`trace, this`used
      ensures rc == OK || rc == CRYPTO
      ensures used == old(used) + n && bytes == BytesAt(old(used), n)
      ensures rc == CRYPTO ==> m.trace == old(m.trace) + [Fault(CRYPTO)]
      ensures rc == OK ==> m.trace == old(m.trace)
    {
      bytes := BytesAt(used, n);
      used := used + n;
      var broken: bool := *;
      if broken {
        m.trace := m.trace + [Fault(CRYPTO)];
        return CRYPTO, bytes;
      }
      return OK, bytes;
    }
  }
}
