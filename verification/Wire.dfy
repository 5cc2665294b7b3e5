/** The hand-written integer codecs of src/crypt/format.cc.

    Words are naturals below their width; shift, mask and or are defined on them
    bit by bit, and the writers and readers use them where the C++ does. */
module Wire {

  type byte = b: int | 0 <= b < 256
  type u16 = n: int | 0 <= n < 0x1_0000
  type u32 = n: int | 0 <= n < 0x1_0000_0000
  type u64 = n: int | 0 <= n < 0x1_0000_0000_0000_0000
  type Bytes = seq<byte>

  /** The mc_status values the modelled code can return. */
  datatype Status =
    | OK
    | INVALID_ARG
    | FORMAT
    | UNSUPPORTED
    | AUTH
    | COMPRESS
    | CRYPTO
    | MEMORY
    | IO
    | TOO_LARGE

  datatype Option<+T> = None | Some(value: T)

  datatype Result<+T> = Ok(value: T) | Err(status: Status)
  {
    predicate IsFailure() { Err? }

    function PropagateFailure<U>(): Result<U>
      requires Err?
    {
      Err(status)
    }

    function Extract(): T
      requires Ok?
    {
      value
    }
  }

  function Zeros(n: nat): (s: Bytes)
    ensures |s| == n && AllZero(s)
  {
    seq(n, _ => 0)
  }

  predicate AllZero(s: Bytes) {
    forall i | 0 <= i < |s| :: s[i] == 0
  }

  /** 256 to the power k. */
  function Pow256(k: nat): (p: nat)
    ensures p > 0
  {
    if k == 0 then 1 else 256 * Pow256(k - 1)
  }

  /** The k low-order base-256 digits of v, least significant first. */
  function LE(k: nat, v: nat): (s: Bytes)
    ensures |s| == k
  {
    if k == 0 then [] else [v % 256] + LE(k - 1, v / 256)
  }

  /** The number a little-endian byte string denotes. */
  function FromLE(s: Bytes): nat {
    if s == [] then 0 else s[0] + 256 * FromLE(s[1..])
  }

  /** Big-endian digits: only the nonce counter uses them. */
  function BE(k: nat, v: nat): (s: Bytes)
    ensures |s| == k
  {
    if k == 0 then [] else BE(k - 1, v / 256) + [v % 256]
  }

  lemma Pow256Values()
    ensures Pow256(0) == 1
    ensures Pow256(1) == 0x100
    ensures Pow256(2) == 0x1_0000
    ensures Pow256(3) == 0x100_0000
    ensures Pow256(4) == 0x1_0000_0000
    ensures Pow256(8) == 0x1_0000_0000_0000_0000
  {
    assert Pow256(2) == 256 * Pow256(1);
    assert Pow256(4) == 256 * Pow256(3);
    assert Pow256(6) == 256 * Pow256(5);
  }

  /** Reading inverts writing, for every value that fits the width. */
  lemma {:induction false} ReadOfWrite(k: nat, v: nat)
    requires v < Pow256(k)
    ensures FromLE(LE(k, v)) == v
  {
    if k > 0 {
      ReadOfWrite(k - 1, v / 256);
      assert LE(k, v)[1..] == LE(k - 1, v / 256);
    }
  }

  /** Writing inverts reading, for every byte string: the codec has no slack. */
  lemma {:induction false} WriteOfRead(s: Bytes)
    ensures FromLE(s) < Pow256(|s|)
    ensures LE(|s|, FromLE(s)) == s
  {
    if s != [] {
      WriteOfRead(s[1..]);
      FirstDigit(s[0], FromLE(s[1..]));
      assert s == [s[0]] + s[1..];
    }
  }

  lemma FirstDigit(b: byte, rest: nat)
    ensures (b + 256 * rest) % 256 == b && (b + 256 * rest) / 256 == rest
  {
  }

  /** The place values, written out for the three widths in use. */
  lemma PlaceValues(s: Bytes)
    ensures |s| == 2 ==> var b0: nat, b1: nat := s[0], s[1]; FromLE(s) == b0 + 0x100 * b1
    ensures |s| == 4 ==>
      var b0: nat, b1: nat, b2: nat, b3: nat := s[0], s[1], s[2], s[3];
      FromLE(s) == b0 + 0x100 * b1 + 0x1_0000 * b2 + 0x100_0000 * b3
    ensures |s| == 8 ==> FromLE(s) == FromLE(s[..4]) + 0x1_0000_0000 * FromLE(s[4..])
  {
    if |s| == 4 {
      assert s[1..][1..] == s[2..] && s[2..][1..] == s[3..] && s[3..][1..] == [];
      assert FromLE(s[2..]) == s[2] + 256 * FromLE(s[3..]);
      assert FromLE(s[1..]) == s[1] + 256 * FromLE(s[2..]);
    } else if |s| == 2 {
      assert s[1..][1..] == [];
      assert FromLE(s[1..]) == s[1] + 256 * FromLE([]);
    } else if |s| == 8 {
      FromLEConcat(s[..4], s[4..]);
      Pow256Values();
      assert s == s[..4] + s[4..];
    }
  }

  lemma {:induction false} FromLEConcat(a: Bytes, b: Bytes)
    ensures FromLE(a + b) == FromLE(a) + Pow256(|a|) * FromLE(b)
  {
    if a == [] {
      assert a + b == b;
    } else {
      FromLEConcat(a[1..], b);
      assert (a + b)[1..] == a[1..] + b;
      assert 256 * (Pow256(|a| - 1) * FromLE(b)) == Pow256(|a|) * FromLE(b);
    }
  }

  /** Equal encodings of in-range values are encodings of equal values. */
  lemma {:induction false} LEInjective(k: nat, v: nat, w: nat)
    requires v < Pow256(k) && w < Pow256(k)
    requires LE(k, v) == LE(k, w)
    ensures v == w
  {
    ReadOfWrite(k, v);
    ReadOfWrite(k, w);
  }

  lemma {:induction false} BEInjective(k: nat, v: nat, w: nat)
    requires v < Pow256(k) && w < Pow256(k)
    requires BE(k, v) == BE(k, w)
    ensures v == w
  {
    if k > 0 {
      assert BE(k, v)[..k - 1] == BE(k - 1, v / 256);
      assert BE(k, w)[..k - 1] == BE(k - 1, w / 256);
      assert BE(k, v)[k - 1] == v % 256 && BE(k, w)[k - 1] == w % 256;
      BEInjective(k - 1, v / 256, w / 256);
    }
  }

  lemma MulMono(d: nat, x: int, y: int)
    requires x <= y
    ensures d * x <= d * y
  {
    assert d * (y - x) >= 0;
  }

  lemma EuclideanQuotient(n: nat, d: nat, q: int, r: nat)
    requires d > 0 && r < d && n == d * q + r
    ensures n / d == q && n % d == r
  {
    var q', r' := n / d, n % d;
    assert d * q' + r' == n;
    if q' < q {
      MulMono(d, q' + 1, q);
    } else if q < q' {
      MulMono(d, q + 1, q');
    }
  }

  /** Appending the next digit, as the loop of ReadU64 accumulates it. */
  lemma {:induction false} FromLESnoc(s: Bytes, b: byte)
    ensures FromLE(s + [b]) == FromLE(s) + b * Pow256(|s|)
  {
    if s != [] {
      assert (s + [b])[1..] == s[1..] + [b];
      FromLESnoc(s[1..], b);
      assert b * Pow256(|s|) == 256 * (b * Pow256(|s| - 1));
    } else {
      assert (s + [b])[1..] == [];
    }
  }

  // ---- Shifts, masks and or, on unsigned words ----

  /** 2 to the power n. */
  function Pow2(n: nat): (p: nat)
    ensures p > 0
  {
    if n == 0 then 1 else 2 * Pow2(n - 1)
  }

  /** a | b, bit by bit. */
  function Or(a: nat, b: nat): nat {
    if a == 0 && b == 0 then 0 else 2 * Or(a / 2, b / 2) + if a % 2 == 1 || b % 2 == 1 then 1 else 0
  }

  /** a & b, bit by bit. */
  function And(a: nat, b: nat): (r: nat)
    ensures r <= a && r <= b
  {
    if a == 0 || b == 0 then 0 else 2 * And(a / 2, b / 2) + if a % 2 == 1 && b % 2 == 1 then 1 else 0
  }

  /** v >> 8 * i */
  function Shr8(v: nat, i: nat): nat {
    if i == 0 then v else Shr8(v / 256, i - 1)
  }

  /** b << 8 * i, in a word with room for it. */
  function Shl8(b: byte, i: nat): nat {
    b * Pow256(i)
  }

  lemma {:induction false} OrZero(b: nat)
    ensures Or(0, b) == b
  {
    if b > 0 {
      OrZero(b / 2);
    }
  }

  lemma OrEven(a: nat, x: nat)
    ensures Or(a, 2 * x) == 2 * Or(a / 2, x) + a % 2
  {
  }

  /** Or-ing in bits above the k low ones is adding them. */
  lemma {:induction false} OrAboveIsSum(low: nat, high: nat, k: nat)
    requires low < Pow2(k)
    ensures Or(low, high * Pow2(k)) == low + high * Pow2(k)
  {
    if k == 0 {
      OrZero(high);
    } else {
      var x := high * Pow2(k - 1);
      assert high * Pow2(k) == 2 * x;
      OrAboveIsSum(low / 2, high, k - 1);
      OrEven(low, x);
    }
  }

  lemma {:induction false} Pow256IsPow2(i: nat)
    ensures Pow256(i) == Pow2(8 * i)
  {
    if i > 0 {
      Pow256IsPow2(i - 1);
      var n := 8 * (i - 1);
      assert Pow2(n + 4) == 2 * Pow2(n + 3) && Pow2(n + 3) == 2 * Pow2(n + 2) && Pow2(n + 2) == 2 * Pow2(n + 1);
      assert Pow2(n + 8) == 2 * Pow2(n + 7) && Pow2(n + 7) == 2 * Pow2(n + 6) && Pow2(n + 6) == 2 * Pow2(n + 5);
    }
  }

  /** Or-ing in the next byte, shifted past the ones before it, reads one more byte. */
  lemma OrAppendsByte(s: Bytes, b: byte)
    ensures Or(FromLE(s), Shl8(b, |s|)) == FromLE(s + [b])
  {
    WriteOfRead(s);
    Pow256IsPow2(|s|);
    OrAboveIsSum(FromLE(s), b, 8 * |s|);
    FromLESnoc(s, b);
  }

  lemma AndOdd(v: nat, m: nat)
    ensures And(v, 2 * m + 1) == 2 * And(v / 2, m) + v % 2
  {
  }

  lemma HalfRemainder(v: nat, p: nat)
    requires p > 0
    ensures v % (2 * p) == 2 * ((v / 2) % p) + v % 2
  {
    var q, r := (v / 2) / p, (v / 2) % p;
    assert v / 2 == p * q + r;
    assert v == 2 * p * q + (2 * r + v % 2);
    EuclideanQuotient(v, 2 * p, q, 2 * r + v % 2);
  }

  /** A mask of k ones keeps the k low bits. */
  lemma {:induction false} MaskIsRemainder(v: nat, k: nat)
    ensures And(v, Pow2(k) - 1) == v % Pow2(k)
  {
    if k > 0 {
      var p := Pow2(k - 1);
      MaskIsRemainder(v / 2, k - 1);
      AndOdd(v, p - 1);
      HalfRemainder(v, p);
    }
  }

  /** Shifting down and masking selects the digit of the encoding. */
  lemma {:induction false} ShiftSelectsDigit(k: nat, v: nat, i: nat)
    requires i < k
    ensures And(Shr8(v, i), 0xFF) == LE(k, v)[i]
  {
    if i == 0 {
      Pow256IsPow2(1);
      assert Pow256(1) == 256;
      MaskIsRemainder(v, 8);
    } else {
      ShiftSelectsDigit(k - 1, v / 256, i - 1);
    }
  }

  /** The same for the big-endian counter. */
  lemma {:induction false} ShiftSelectsBigDigit(k: nat, v: nat, i: nat)
    requires i < k
    ensures And(Shr8(v, i), 0xFF) == BE(k, v)[k - 1 - i]
  {
    if i == 0 {
      ShiftSelectsDigit(1, v, 0);
    } else {
      ShiftSelectsBigDigit(k - 1, v / 256, i - 1);
    }
  }

  /** The flag tests of ParseChunkHeader and its callers. */
  lemma FlagTests(f: byte)
    ensures And(f, 0xFE) != 0 <==> f >= 2
    ensures And(f, 0x01) != 0 <==> f % 2 == 1
  {
    assert Pow2(7) == 128 by { assert Pow2(3) == 8; }
    MaskIsRemainder(f / 2, 7);
    assert And(f, 0xFE) == 2 * And(f / 2, 0x7F);
  }

  // ---- The writers and readers, over a buffer and an offset ----

  /** `after` is `before` with `bytes` standing at `off`. */
  ghost predicate Wrote(before: Bytes, after: Bytes, off: nat, bytes: Bytes) {
    && |after| == |before|
    && off + |bytes| <= |after|
    && after[..off] == before[..off]
    && after[off..off + |bytes|] == bytes
    && after[off + |bytes|..] == before[off + |bytes|..]
  }

  /** A write that starts where the previous one ended extends what stands there. */
  lemma Extends(before: Bytes, after: Bytes, start: nat, off: nat, bytes: Bytes)
    requires start <= off && Wrote(before, after, off, bytes)
    ensures after[start..off + |bytes|] == before[start..off] + bytes
    ensures after[..start] == before[..start]
  {
    assert after[start..off] == after[..off][start..] == before[..off][start..] == before[start..off];
    Cut(after, start, off, off + |bytes|);
    assert after[..start] == after[..off][..start] == before[..off][..start];
  }

  lemma Cut(s: Bytes, a: nat, b: nat, c: nat)
    requires a <= b <= c <= |s|
    ensures s[a..c] == s[a..b] + s[b..c]
  {
  }

  method WriteU8(out: array<byte>, off: nat, value: byte)
    requires off + 1 <= out.Length
    modifies out
    ensures Wrote(old(out[..]), out[..], off, [value])
  {
    out[off] := value;
  }

  method WriteU16(out: array<byte>, off: nat, value: u16)
    requires off + 2 <= out.Length
    modifies out
    ensures Wrote(old(out[..]), out[..], off, LE(2, value))
  {
    ghost var digits := LE(2, value);
    ShiftSelectsDigit(2, value, 0);
    ShiftSelectsDigit(2, value, 1);
    assert Pow256(0) == 1;
    out[off] := And(value, 0xFF);
    out[off + 1] := And(Shr8(value, 1), 0xFF);
    assert digits == [digits[0], digits[1]];
  }

  method WriteU32(out: array<byte>, off: nat, value: u32)
    requires off + 4 <= out.Length
    modifies out
    ensures Wrote(old(out[..]), out[..], off, LE(4, value))
  {
    ghost var digits := LE(4, value);
    ShiftSelectsDigit(4, value, 0);
    ShiftSelectsDigit(4, value, 1);
    ShiftSelectsDigit(4, value, 2);
    ShiftSelectsDigit(4, value, 3);
    assert Pow256(0) == 1;
    out[off] := And(value, 0xFF);
    out[off + 1] := And(Shr8(value, 1), 0xFF);
    out[off + 2] := And(Shr8(value, 2), 0xFF);
    out[off + 3] := And(Shr8(value, 3), 0xFF);
    assert digits == [digits[0], digits[1], digits[2], digits[3]];
  }

  method WriteU64(out: array<byte>, off: nat, value: u64)
    requires off + 8 <= out.Length
    modifies out
    ensures Wrote(old(out[..]), out[..], off, LE(8, value))
  {
    for i := 0 to 8
      invariant out[..off] == old(out[..off])
      invariant out[off + 8..] == old(out[off + 8..])
      invariant forall j | 0 <= j < i :: out[off + j] == LE(8, value)[j]
    {
      ShiftSelectsDigit(8, value, i);
      out[off + i] := And(Shr8(value, i), 0xFF);
    }
  }

  /** memcpy of `bytes` to `out + off`. */
  method CopyIn(out: array<byte>, off: nat, bytes: Bytes)
    requires off + |bytes| <= out.Length
    modifies out
    ensures Wrote(old(out[..]), out[..], off, bytes)
  {
    for i := 0 to |bytes|
      invariant out[..off] == old(out[..off])
      invariant out[off..off + i] == bytes[..i]
      invariant out[off + |bytes|..] == old(out[off + |bytes|..])
    {
      out[off + i] := bytes[i];
      assert out[off..off + i + 1] == out[off..off + i] + [bytes[i]];
    }
  }

  /** memset(out + off, 0, n). */
  method Fill(out: array<byte>, off: nat, n: nat)
    requires off + n <= out.Length
    modifies out
    ensures Wrote(old(out[..]), out[..], off, Zeros(n))
  {
    for i := 0 to n
      invariant out[..off] == old(out[..off])
      invariant forall j | off <= j < off + i :: out[j] == 0
      invariant out[off + n..] == old(out[off + n..])
    {
      out[off + i] := 0;
    }
  }

  method ReadU16(input: array<byte>, off: nat) returns (value: u16)
    requires off + 2 <= input.Length
    ensures value == FromLE(input[off..off + 2])
  {
    OrAppendsByte([input[off]], input[off + 1]);
    assert FromLE([input[off]]) == input[off];
    assert input[off..off + 2] == [input[off]] + [input[off + 1]];
    ReadFits(input[off..off + 2]);
    value := Or(input[off], Shl8(input[off + 1], 1));
  }

  lemma ReadFits(s: Bytes)
    ensures FromLE(s) < Pow256(|s|)
    ensures |s| == 2 ==> FromLE(s) < 0x1_0000
    ensures |s| == 4 ==> FromLE(s) < 0x1_0000_0000
    ensures |s| == 8 ==> FromLE(s) < 0x1_0000_0000_0000_0000
  {
    WriteOfRead(s);
    Pow256Values();
  }

  method ReadU32(input: array<byte>, off: nat) returns (value: u32)
    requires off + 4 <= input.Length
    ensures value == FromLE(input[off..off + 4])
  {
    ghost var s := input[off..off + 4];
    OrAppendsByte(s[..1], s[1]);
    OrAppendsByte(s[..2], s[2]);
    OrAppendsByte(s[..3], s[3]);
    assert s[..1] + [s[1]] == s[..2] && s[..2] + [s[2]] == s[..3] && s[..3] + [s[3]] == s;
    assert s[..1] == [input[off]] && FromLE([input[off]]) == input[off];
    ReadFits(s);
    value := Or(Or(Or(input[off], Shl8(input[off + 1], 1)), Shl8(input[off + 2], 2)), Shl8(input[off + 3], 3));
  }

  method ReadU64(input: array<byte>, off: nat) returns (value: u64)
    requires off + 8 <= input.Length
    ensures value == FromLE(input[off..off + 8])
  {
    var sum: nat := 0;
    for i := 0 to 8
      invariant sum == FromLE(input[off..off + i])
    {
      assert input[off..off + i + 1] == input[off..off + i] + [input[off + i]];
      OrAppendsByte(input[off..off + i], input[off + i]);
      sum := Or(sum, Shl8(input[off + i], i));
    }
    ReadFits(input[off..off + 8]);
    value := sum;
  }
}
