/** The named constants of `u206265`. */
module Constants {
  import opened LittleEndian
  import opened Repr
  import opened PureRustImpl

  /** `MIN`: `create_bytes` of the empty array. */
  const MIN: U206265 := CreateBytes([])

  /** `ZERO` is `MIN`. */
  const ZERO: U206265 := MIN

  /** `ONE`: `create_bytes([0x01])`. */
  const ONE: U206265 := CreateBytes([1])

  /** `MAX`: every byte 0xFF except the top byte, which is 0b1. */
  const MAX: U206265 := U206265(seq(BYTES, i => if i == BYTES - 1 then 1 else 255))

  /** ZERO is all zero bytes, keeps the invariant, denotes 0 and has significant length 1. */
  lemma ZeroIsZero()
    ensures MIN == ZERO
    ensures Valid(ZERO) && Value(ZERO) == 0
    ensures forall i :: 0 <= i < BYTES ==> ZERO.bytes[i] == 0
    ensures SignificantBytes(ZERO) == 1
  {
    SignificantBytesTopByte(ZERO);
  }

  /** ONE has byte 0 equal to 1 and the rest zero, and denotes 1. */
  lemma OneIsOne()
    ensures Valid(ONE) && Value(ONE) == 1
    ensures ONE.bytes[0] == 1 && forall i :: 1 <= i < BYTES ==> ONE.bytes[i] == 0
    ensures SignificantBytes(ONE) == 1
  {
    assert [1 as byte][..0] == [];
    SignificantBytesOfValue(ONE, 1);
  }

  /** MAX keeps the invariant and denotes 2^BITS - 1. */
  lemma MaxValue()
    ensures Valid(MAX) && Value(MAX) == Modulus() - 1
  {
    ValAllOnes(MAX.bytes[..BYTES - 1]);
    TopSplit(MAX.bytes);
  }

  /** MAX keeps the invariant, denotes 2^BITS - 1, fills every byte, and is the
      largest valid value. */
  lemma MaxIsLargest()
    ensures Valid(MAX) && Value(MAX) == Modulus() - 1
    ensures SignificantBytes(MAX) == BYTES
    ensures forall x :: Valid(x) ==> Value(x) <= Value(MAX)
  {
    MaxValue();
    forall x | Valid(x)
      ensures Value(x) <= Value(MAX)
    {
      ValidIffBelowModulus(x);
    }
    Pow256Succ(BYTES - 1);
    SignificantBytesOfValue(MAX, BYTES);
  }

  /** The debug assertion of `significant_bytes_u32` fires on MAX. */
  lemma SignificantBytesU32RejectsMax()
    ensures SignificantBytesU32AsWritten(MAX).None?
  {
    MaxIsLargest();
  }
}
