/**
 * Conversions between `u206265` and the native integer widths: the widening
 * `from_uN` / `try_from_uN` / `try_from_iN` constructors and the narrowing
 * `try_into_uN`. The per-width macro expansions are one definition
 * parameterised by the width.
 */
module Conversions {
  import opened LittleEndian
  import opened Outcomes
  import opened Repr
  import opened PureRustImpl

  /** The native widths with a fixed size (`usize`/`isize` depend on the platform). */
  datatype Width = W8 | W16 | W32 | W64 | W128 {

    /** `TYPE_BITS >> 3`: the width in bytes. */
    function Bytes(): (n: nat)
      ensures 1 <= n <= 16
    {
      match this
      case W8 => 1
      case W16 => 2
      case W32 => 4
      case W64 => 8
      case W128 => 16
    }
  }

  /** Whether v is a value of the unsigned native type of width w. */
  predicate InUnsigned(w: Width, v: int)
  {
    0 <= v < Pow256(w.Bytes())
  }

  /** Whether v is a value of the signed native type of width w. */
  predicate InSigned(w: Width, v: int)
  {
    -(Pow256(w.Bytes()) / 2) <= v < Pow256(w.Bytes()) / 2
  }

  /** `u206265ToUnsigned`: the narrowing error, carrying the bytes actually needed. */
  datatype U206265ToUnsigned = U206265ToUnsigned(minBytes: nat)

  /** `from_uN`: `create_bytes` of the value's little-endian bytes. */
  function FromUnsigned(w: Width, v: nat): (r: U206265)
    requires InUnsigned(w, v)
    ensures Valid(r) && Value(r) == v
    ensures forall i :: w.Bytes() <= i < BYTES ==> r.bytes[i] == 0
  {
    WideEnough();
    CreateBytes(ToLeBytes(v, w.Bytes()))
  }

  /** `try_from_uN`: always succeeds. */
  function TryFromUnsigned(w: Width, v: nat): (r: Option<U206265>)
    requires InUnsigned(w, v)
    ensures r.Some? && Valid(r.value) && Value(r.value) == v
  {
    Some(FromUnsigned(w, v))
  }

  /** `try_from_iN`: negative values are rejected, the rest widen as unsigned. */
  function TryFromSigned(w: Width, v: int): (r: Option<U206265>)
    requires InSigned(w, v)
    ensures r.None? <==> v < 0
    ensures r.Some? ==> Valid(r.value) && Value(r.value) == v
  {
    if v >= 0 then Some(FromUnsigned(w, v)) else None
  }

  /** `try_into_uN`: the low bytes as a native integer, or the significant
      length when the value does not fit. */
  function TryIntoUnsigned(w: Width, x: U206265): (r: Result<nat, U206265ToUnsigned>)
    ensures r.Err? <==> SignificantBytes(x) > w.Bytes()
    ensures r.Err? ==> r.error.minBytes == SignificantBytes(x)
    ensures r.Ok? <==> Value(x) < Pow256(w.Bytes())
    ensures r.Ok? ==> r.value == Value(x) && InUnsigned(w, r.value)
  {
    WideEnough();
    var bytes := x.bytes[..w.Bytes()];
    var significantLength := SignificantBytes(x);
    FitsInLowBytes(x, w.Bytes());
    if significantLength > |bytes| then
      Err(U206265ToUnsigned(significantLength))
    else
      Ok(FromLeBytes(bytes))
  }

  // ---------------------------------------------------------------------------
  // Round trips
  // ---------------------------------------------------------------------------

  /** Widening with `try_from_uN` and narrowing back at the same width gives
      the value back. */
  method FromIntoUnsigned(w: Width, v: nat) returns (back: Result<nat, U206265ToUnsigned>)
    requires InUnsigned(w, v)
    ensures back == Ok(v)
  {
    var widened := TryFromUnsigned(w, v);
    back := TryIntoUnsigned(w, widened.value);
  }

  /** Widening with `try_from_iN` rejects exactly the negative values; the rest
      narrow back unchanged. */
  method FromIntoSigned(w: Width, v: int) returns (back: Option<Result<nat, U206265ToUnsigned>>)
    requires InSigned(w, v)
    ensures back.None? <==> v < 0
    ensures v >= 0 ==> back == Some(Ok(v))
  {
    var widened := TryFromSigned(w, v);
    if widened.Some? {
      var narrowed := TryIntoUnsigned(w, widened.value);
      back := Some(narrowed);
    } else {
      back := None;
    }
  }

  /** A narrowing to a width the value needs more bytes than reports exactly the
      bytes the value needs. */
  lemma NarrowingErrorReportsWidth(w: Width, x: U206265, n: nat)
    requires w.Bytes() < n <= BYTES
    requires Pow256(n - 1) <= Value(x) < Pow256(n)
    ensures TryIntoUnsigned(w, x) == Err(U206265ToUnsigned(n))
  {
    SignificantBytesOfValue(x, n);
  }

  // ---------------------------------------------------------------------------
  // Worked examples
  // ---------------------------------------------------------------------------

  /** Significant lengths of small widened values: 0, 1, 255 and 0x00FF need one
      byte, 0x01FF needs two. */
  lemma SignificantBytesExamples()
    ensures SignificantBytes(FromUnsigned(W8, 0)) == 1
    ensures SignificantBytes(FromUnsigned(W8, 1)) == 1
    ensures SignificantBytes(FromUnsigned(W8, 255)) == 1
    ensures SignificantBytes(FromUnsigned(W16, 0x00FF)) == 1
    ensures SignificantBytes(FromUnsigned(W16, 0x01FF)) == 2
  {
    SignificantBytesOfValue(FromUnsigned(W8, 0), 1);
    SignificantBytesOfValue(FromUnsigned(W8, 1), 1);
    SignificantBytesOfValue(FromUnsigned(W8, 255), 1);
    SignificantBytesOfValue(FromUnsigned(W16, 0x00FF), 1);
    SignificantBytesOfValue(FromUnsigned(W16, 0x01FF), 2);
  }

  /** The trimmed slice of `1u8` is `[1]`. */
  lemma SliceOfOneExample()
    ensures SignificantBytesSlice(FromUnsigned(W8, 1)) == [1]
  {
    var one := FromUnsigned(W8, 1);
    SignificantBytesOfValue(one, 1);
    assert one.bytes[..1] == ToLeBytes(1, 1);
  }

  /** A value needing two bytes trims to its low byte and its high byte. */
  lemma SliceOfTwoByteValue(x: U206265, lo: nat, hi: nat)
    requires lo < 256 && 0 < hi < 256 && Value(x) == lo + 256 * hi
    ensures SignificantBytesSlice(x) == [lo, hi]
  {
    var v := lo + 256 * hi;
    assert Pow256(2) == 65536;
    SignificantBytesOfValue(x, 2);
    var r := SignificantBytesSlice(x);
    assert |r| == 2 && r[..2] == r && r[..0] == [];
    ValPrefixStep(r, 0);
    ValPrefixStep(r, 1);
    DivModUnique(v, 256, r[0], r[1]);
    DivModUnique(v, 256, lo, hi);
    assert r == [lo, hi];
  }

  /** The trimmed slice of `0xAABBu32` is `[0xBB, 0xAA]`: the two zero high
      bytes are dropped. */
  lemma SliceOfTwoByteExample()
    ensures SignificantBytesSlice(FromUnsigned(W32, 0xAABB)) == [0xBB, 0xAA]
  {
    SliceOfTwoByteValue(FromUnsigned(W32, 0xAABB), 0xBB, 0xAA);
  }
}
