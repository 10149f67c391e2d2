/**
 * The value type `u206265`: a fixed-length little-endian byte array whose top
 * byte uses only its lowest bit, and the introspection of its significant length.
 */
module Repr {
  import opened LittleEndian
  import opened Outcomes

  /** Width of the type in bits. */
  const BITS: nat := 206265

  /** Bytes needed to hold BITS bits: BITS / 8, plus one for a partial byte. */
  const BYTES: nat := BITS / 8 + (if BITS % 8 > 0 then 1 else 0)

  /** The array is wider than every native integer type, with room to spare. */
  lemma WideEnough()
    ensures 17 < BYTES - 1
  {
  }

  /** The storage array `[u8; BYTES]`; the array length is part of the type. */
  type ByteArray = s: seq<byte> | |s| == BYTES witness Zeros(BYTES)

  /** `u206265`, little-endian: byte 0 is least significant. */
  datatype U206265 = U206265(bytes: ByteArray)

  /** The type's invariant: the last byte only uses one bit. */
  predicate Valid(x: U206265)
  {
    x.bytes[BYTES - 1] <= 1
  }

  /** The value of a `u206265`. */
  function Value(x: U206265): nat
  {
    Val(x.bytes)
  }

  /** 2^BITS: one more than the largest representable value. */
  function Modulus(): nat
  {
    2 * Pow256(BYTES - 1)
  }

  /** 2^n. */
  function Pow2(n: nat): (r: nat)
    ensures r >= 1
  {
    if n == 0 then 1 else 2 * Pow2(n - 1)
  }

  lemma {:induction false} Pow2Bytes(k: nat)
    ensures Pow2(8 * k + 1) == 2 * Pow256(k)
  {
    if k > 0 {
      Pow2Bytes(k - 1);
      var n := 8 * (k - 1) + 1;
      calc {
        Pow2(8 * k + 1);
        2 * Pow2(n + 7);
        4 * Pow2(n + 6);
        8 * Pow2(n + 5);
        16 * Pow2(n + 4);
        32 * Pow2(n + 3);
        64 * Pow2(n + 2);
        128 * Pow2(n + 1);
        256 * Pow2(n);
      }
    }
  }

  /** The array holds exactly BITS bits: BYTES - 1 full bytes and one bit, so
      Modulus is 2^BITS. */
  lemma BytesHoldBits()
    ensures BITS == 8 * (BYTES - 1) + 1
    ensures Modulus() == Pow2(BITS)
  {
    Pow2Bytes(BYTES - 1);
  }

  /** Splitting a byte array into its low BYTES - 1 bytes and its top byte. */
  lemma TopSplit(s: ByteArray)
    ensures Val(s) == Val(s[..BYTES - 1]) + s[BYTES - 1] * Pow256(BYTES - 1)
    ensures Val(s[..BYTES - 1]) < Pow256(BYTES - 1)
  {
    ValBound(s[..BYTES - 1]);
  }

  /** The invariant holds exactly when the value is below 2^BITS. */
  lemma ValidIffBelowModulus(x: U206265)
    ensures Valid(x) <==> Value(x) < Modulus()
  {
    var s := x.bytes;
    var p := Pow256(BYTES - 1);
    TopSplit(s);
    if s[BYTES - 1] <= 1 {
      MulLeft(s[BYTES - 1], 1, p);
    } else {
      MulLeft(2, s[BYTES - 1], p);
    }
  }

  // ---------------------------------------------------------------------------
  // Significant length
  // ---------------------------------------------------------------------------

  /** Significant length as a characterisation: at least one byte, no nonzero
      byte at or above it, and a nonzero byte just below it unless it is 1. */
  predicate IsSignificantLength(s: seq<byte>, n: nat)
  {
    && 1 <= n <= |s|
    && (forall i :: n <= i < |s| ==> s[i] == 0)
    && (n > 1 ==> s[n - 1] != 0)
  }

  /** The top-down scan of `significant_bytes`, at index i with every byte
      above i already seen to be zero. */
  function ScanDown(s: seq<byte>, i: nat): (r: nat)
    requires i < |s|
    requires forall j :: i < j < |s| ==> s[j] == 0
    ensures 1 <= r <= i + 1
    ensures IsSignificantLength(s, r)
    decreases i
  {
    if s[i] > 0 then i + 1
    else if i == 0 then 1
    else ScanDown(s, i - 1)
  }

  /** `significant_bytes`: the byte count without leading zero bytes; 1 for zero. */
  function SignificantBytes(x: U206265): (r: nat)
    ensures 1 <= r <= BYTES
    ensures IsSignificantLength(x.bytes, r)
  {
    ScanDown(x.bytes, BYTES - 1)
  }

  /** The significant length is the least number of bytes (at least one) that
      can hold the value. */
  lemma SignificantBytesFitsValue(x: U206265)
    ensures Value(x) < Pow256(SignificantBytes(x))
    ensures SignificantBytes(x) > 1 ==> Value(x) >= Pow256(SignificantBytes(x) - 1)
  {
    var n := SignificantBytes(x);
    ValZeroTail(x.bytes, n);
    ValBound(x.bytes[..n]);
    if n > 1 {
      ValLowerBound(x.bytes[..n]);
    }
  }

  /** Conversely, any length bracketing the value in that way is the significant length. */
  lemma SignificantBytesOfValue(x: U206265, n: nat)
    requires 1 <= n <= BYTES
    requires Value(x) < Pow256(n)
    requires n > 1 ==> Value(x) >= Pow256(n - 1)
    ensures SignificantBytes(x) == n
  {
    var k := SignificantBytes(x);
    SignificantBytesFitsValue(x);
    if k < n {
      Pow256Monotone(k, n - 1);
    } else if k > n {
      Pow256Monotone(n, k - 1);
    }
  }

  /** A value fits in its low n bytes exactly when its significant length is at
      most n, and then those bytes denote it. */
  lemma FitsInLowBytes(x: U206265, n: nat)
    requires 1 <= n <= BYTES
    ensures SignificantBytes(x) <= n <==> Value(x) < Pow256(n)
    ensures SignificantBytes(x) <= n ==> Val(x.bytes[..n]) == Value(x)
  {
    var k := SignificantBytes(x);
    SignificantBytesFitsValue(x);
    if k > n {
      Pow256Monotone(n, k - 1);
    } else {
      Pow256Monotone(k, n);
      ValZeroTail(x.bytes, n);
    }
  }

  /** `significant_bytes_slice`: the bytes up to the significant length. */
  function SignificantBytesSlice(x: U206265): (r: seq<byte>)
    ensures 1 <= |r| <= BYTES
    ensures r == x.bytes[..|r|]
    ensures Val(r) == Value(x)
    ensures |r| > 1 ==> r[|r| - 1] != 0
  {
    ValZeroTail(x.bytes, SignificantBytes(x));
    x.bytes[..SignificantBytes(x)]
  }

  /** The trimmed slice is the shortest nonempty little-endian encoding of the value. */
  lemma SliceIsShortestEncoding(x: U206265, t: seq<byte>)
    requires 1 <= |t| && Val(t) == Value(x)
    ensures |SignificantBytesSlice(x)| <= |t|
  {
    var r := SignificantBytesSlice(x);
    if |r| > |t| {
      ValBound(t);
      ValLowerBound(r);
      Pow256Monotone(|t|, |r| - 1);
    }
  }

  /** Zero has significant length 1; a nonzero value has a nonzero byte just
      below its significant length. */
  lemma SignificantBytesTopByte(x: U206265)
    ensures Value(x) == 0 <==> SignificantBytes(x) == 1 && x.bytes[0] == 0
    ensures Value(x) != 0 ==> x.bytes[SignificantBytes(x) - 1] != 0
  {
    var n := SignificantBytes(x);
    ValZeroTail(x.bytes, n);
    assert x.bytes[..1][..0] == [];
    if n > 1 {
      ValLowerBound(x.bytes[..n]);
    }
  }

  // ---------------------------------------------------------------------------
  // significant_bytes_u32
  // ---------------------------------------------------------------------------

  /** `significant_bytes_u32` as written: its debug assertion `res < BYTES`
      panics (None) on every value whose top byte is set; otherwise the
      result is cast to `u32` (truncation modulo 2^32). */
  function SignificantBytesU32AsWritten(x: U206265): (r: Option<nat>)
    ensures r.None? <==> SignificantBytes(x) == BYTES
    ensures r.Some? ==> r.value == SignificantBytes(x)
  {
    var res := SignificantBytes(x);
    if res < BYTES then Some(res % 0x1_0000_0000) else None
  }

  /** `significant_bytes_u32` with the assertion relaxed to `res <= BYTES`,
      which always holds: the `u32` cast never truncates. */
  function SignificantBytesU32(x: U206265): (r: nat)
    ensures r < 0x1_0000_0000
    ensures r == SignificantBytes(x)
  {
    var res := SignificantBytes(x);
    assert res <= BYTES;
    res % 0x1_0000_0000
  }
}
