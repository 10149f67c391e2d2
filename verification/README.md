# u206265 — a Dafny model of the additive core

`u206265` is a fixed-width unsigned integer of 206 265 bits, stored as a
little-endian array of `BYTES = 206265 / 8 + 1 = 25 784` bytes whose top byte
only ever uses its lowest bit. This project models, and proves properties of:

- the representation and its invariant (`Repr`): the byte array, its value, the
  top-byte invariant, and the significant-length introspection
  (`significant_bytes`, `significant_bytes_u32`, `significant_bytes_slice`);
- the kernel (`PureRustImpl`): `create_bytes`, the carry-chain adder
  `const_add` and the borrow-chain subtractor `const_sub`, with their loops
  written as methods whose loop invariants carry the running sum or difference;
- the named constants `MIN`, `ZERO`, `ONE` and `MAX` (`Constants`);
- the widening constructors `from_uN`, `try_from_uN`, `try_from_iN` and the
  narrowing `try_into_uN`, for every fixed native width (`Conversions`);
- the `Add` / `AddAssign` operator impls (`Ops`);
- the laws the repository's tests check, add against native `uN` addition and
  sub against native `uN` subtraction, together with commutativity and
  associativity of `const_add` and `a - a == ZERO` (`Laws`); the from/into
  round trips sit with the conversions (`Conversions.FromIntoUnsigned`,
  `Conversions.FromIntoSigned`).

A `u206265` is modelled as `datatype U206265 = U206265(bytes: ByteArray)`, with
`ByteArray` the sequences of exactly `BYTES` bytes. `Value` reads the bytes as
a little-endian natural number. `Modulus()` is 2^BITS, and the invariant
`Valid` holds exactly when `Value < Modulus()`. Every arithmetic contract is
stated on `Value`, which is independent of the byte-walking code it describes.
`LittleEndian` supplies `Val` and the `u8` primitives the kernel calls:
`overflowing_add`, `overflowing_sub`, `& 0xFE`, `& 0x01`, `to_le_bytes` and
`from_le_bytes`.

## Model

| member | source | states |
|---|---|---|
| Repr.ValidIffBelowModulus | src/lib.rs:21-26 | The invariant "the last byte only uses one bit" holds exactly when the value is below 2^BITS. |
| Repr.BytesHoldBits | src/lib.rs:6-21 | BYTES is the number of bytes for BITS bits: BITS = 8 * (BYTES - 1) + 1, so the modulus is 2^BITS. |
| Repr.SignificantBytes | src/lib.rs:38-49 | The scan's result lies in 1..BYTES. Every byte at or above it is zero, and the byte just below it is nonzero unless the result is 1. |
| Repr.SignificantBytesFitsValue | src/lib.rs:38-49 | The value is below 256^len, and is at least 256^(len-1) when len > 1: the significant length is the least byte count that holds the value. |
| Repr.SignificantBytesOfValue | src/lib.rs:38-49 | Converse: any length n that brackets the value as 256^(n-1) <= v < 256^n is the significant length. |
| Repr.SignificantBytesTopByte | src/lib.rs:38-49 | Zero has significant length 1 (byte 0 is zero). A nonzero value has a nonzero byte just below its significant length. |
| Repr.FitsInLowBytes | src/lib.rs:38-49 | The significant length is at most n iff the value is below 256^n, and then the low n bytes denote the value. |
| Repr.SignificantBytesSlice | src/lib.rs:63-65 | The slice is a nonempty prefix of the bytes. It denotes the value, and its last byte is nonzero when it is longer than one. |
| Repr.SliceIsShortestEncoding | src/lib.rs:63-65 | No nonempty little-endian encoding of the value is shorter than the slice. |
| Repr.SignificantBytesU32AsWritten | src/lib.rs:51-61 | As written, the debug assertion fails exactly when the significant length is BYTES. Otherwise the result is the significant length. |
| Repr.SignificantBytesU32 | src/lib.rs:51-61 | With the assertion relaxed to `<=`, the result always fits in u32 and equals the significant length. |
| PureRustImpl.CreateBytes | src/pure_rust_impl.rs:5-16 | Given at most BYTES bytes (with a top byte of at most 1 when all BYTES are given), the result keeps the invariant. Its low bytes are the input and the rest are zero, so it denotes the input's value. |
| PureRustImpl.AddLength | src/pure_rust_impl.rs:19-32 | The walk length is at least 2 and at most BYTES. |
| PureRustImpl.CarryStep | src/pure_rust_impl.rs:36-49 | One byte of the add loop: the new byte plus 256 times the carry out equals carry in plus both bytes, and the carry out is 0 or 1. |
| PureRustImpl.CarryChain | src/pure_rust_impl.rs:34-50 | After walking bytes 0..n, the carry is 0 or 1 and bytes from n up are untouched. The low n bytes plus carry * 256^n equal the sum of both operands' low n bytes. |
| PureRustImpl.AddFullWalk | src/pure_rust_impl.rs:52-65 | After a full walk over two valid operands the carry out is zero and the top byte is at most 3, so the `4..` panic arm is unreachable. |
| PureRustImpl.FoldTopCarry | src/pure_rust_impl.rs:52-65 | After a walk over every byte, the top-byte match yields a valid value denoting (a + b) mod 2^BITS, and reports overflow iff a + b >= 2^BITS. |
| PureRustImpl.ConstAdd | src/pure_rust_impl.rs:18-70 | The result keeps the invariant and denotes (a + b) mod 2^BITS. Overflow is reported iff a + b >= 2^BITS, and never when both significant lengths are below BYTES. Bytes above the walk are zero. |
| PureRustImpl.BorrowStep | src/pure_rust_impl.rs:75-87 | One byte of the sub loop: the new byte minus 256 times the borrow out equals the lhs byte minus borrow in minus the rhs byte, and the borrow out is 0 or 1. |
| PureRustImpl.BorrowChain | src/pure_rust_impl.rs:73-88 | After all bytes the borrow is 0 or 1, and the bytes minus borrow * 256^BYTES equal lhs - rhs. |
| PureRustImpl.SubUnderflow | src/pure_rust_impl.rs:90-97 | With a true underflow the final borrow is 1 and the top byte is 254 or 255. Keeping only its low bit yields (a - b) mod 2^BITS. |
| PureRustImpl.SubChainEnds | src/pure_rust_impl.rs:88-97 | How the borrow chain ends: without a true underflow the top byte is at most 1 and the bytes are the exact difference; with one the top byte is 254 or 255 and keeping its low bit gives (a - b) mod 2^BITS. |
| PureRustImpl.FoldTopBorrow | src/pure_rust_impl.rs:90-97 | The final top-byte match keeps the invariant, denotes (a - b) mod 2^BITS, reports underflow iff b > a, and gives the exact difference otherwise. |
| PureRustImpl.ConstSub | src/pure_rust_impl.rs:72-99 | The result keeps the invariant and denotes (a - b) mod 2^BITS. Underflow is reported iff b > a; without underflow the result is the exact difference. |
| Constants.ZeroIsZero | src/lib.rs:29-30 | MIN and ZERO coincide. ZERO keeps the invariant, is all zero bytes, denotes 0 and has significant length 1. |
| Constants.OneIsOne | src/lib.rs:31 | ONE has byte 0 equal to 1 and every other byte zero, denotes 1 and has significant length 1. |
| Constants.MaxIsLargest | src/lib.rs:32-36 | MAX uses every byte, and no valid value exceeds it: it is the largest valid value, 2^BITS - 1. |
| Conversions.FromUnsigned | src/lib.rs:82-84 | `from_uN` keeps the invariant, denotes the native value, and its bytes from the width up are zero. |
| Conversions.TryFromUnsigned | src/lib.rs:86-89 | `try_from_uN` always succeeds, with the native value. |
| Conversions.TryFromSigned | src/lib.rs:146-154 | `try_from_iN` is None iff the value is negative; otherwise it denotes the value. |
| Conversions.TryIntoUnsigned | src/lib.rs:92-108 | `try_into_uN` fails iff the significant length exceeds the width in bytes, and the error carries that length. It succeeds iff the value is below 256^width, and then returns the value. |
| Conversions.FromIntoUnsigned | src/tests/from_into.rs:7-23 | `try_from_uN` followed by narrowing back to uN returns `Ok` of the original value. |
| Conversions.FromIntoSigned | src/tests/from_into.rs:7-23 | `try_from_iN` gives None exactly for negative inputs; a non-negative input narrows back through `try_into_uN` unchanged. |
| Conversions.NarrowingErrorReportsWidth | src/lib.rs:101-106 | A value needing n > width bytes narrows to the error `min_bytes = n`. |
| Conversions.SignificantBytesExamples | src/tests/misc.rs:22-26 | The lengths of from(0u8), from(1u8), from(255u8) and from(0x00FFu16) are 1; from(0x01FFu16) has length 2. |
| Conversions.SliceOfOneExample | src/tests/from_into.rs:96 | The trimmed slice of from(1u8) is [1]. |
| Conversions.SliceOfTwoByteValue | src/lib.rs:63-65 | A value lo + 256 * hi with a nonzero high byte trims to exactly [lo, hi]. |
| Conversions.SliceOfTwoByteExample | src/tests/from_into.rs:97 | The trimmed slice of from(0xAABBu32) is [0xBB, 0xAA]. |
| Ops.Add | src/lib.rs:254-283 | `+` returns a valid value denoting the sum modulo 2^BITS, and exactly the sum whenever it is below 2^BITS (the case the debug assertion admits). |
| Ops.AddAssign | src/lib.rs:285-299 | `+=` leaves a valid value denoting the sum modulo 2^BITS, and exactly the sum whenever it is below 2^BITS. |
| Laws.AddCommutes | src/pure_rust_impl.rs:18-70 | `const_add(a, b)` and `const_add(b, a)` produce the same value and the same overflow flag. |
| Laws.AddAssociates | src/pure_rust_impl.rs:18-70 | `(a + b) + c` and `a + (b + c)`, each computed by two `const_add` calls, are the same value, namely (a + b + c) mod 2^BITS. |
| Laws.SubSelfIsZero | src/pure_rust_impl.rs:72-99 | `const_sub(a, a)` is ZERO without underflow. |
| Laws.AddNative | src/tests/add.rs:3-24 | Adding two widened uN values never overflows. Narrowing the sum back gives the native sum when it fits, and otherwise the error `min_bytes = width + 1` (17 for u128). |
| Laws.AddThenNarrow | src/tests/add.rs:12-23 | `const_add` of two widened uN values, narrowed back to uN: no overflow, then the sum or the error `min_bytes = width + 1`. |
| Laws.NarrowNativeSum | src/tests/add.rs:15-23 | Narrowing the sum of two uN values gives the sum when it fits, else the error `min_bytes = width + 1`. |
| Laws.SubNative | src/tests/sub.rs:3-25 | Subtracting two widened uN values underflows iff rhs > lhs. Without underflow, narrowing gives the native difference; with it, the error reports BYTES. |
| Laws.SubThenNarrow | src/tests/sub.rs:12-24 | `const_sub` of two widened uN values, narrowed back to uN: underflow iff rhs > lhs, then the difference or the error `min_bytes = BYTES`. |
| Laws.WrappedSmallDifferenceIsFullLength | src/tests/sub.rs:17-21 | A negative native difference wrapped modulo 2^BITS has significant length BYTES. |
| Laws.NarrowingJustAboveWidth | src/lib.rs:92-108 | Narrowing a value below 2 * 256^width gives the value when it fits, and otherwise reports width + 1 bytes. |
| LittleEndian.ToLeBytes | src/lib.rs:82-84 | `to_le_bytes` yields exactly n bytes that denote the value. |
| LittleEndian.FromLeBytes | src/lib.rs:107 | `from_le_bytes` of n bytes is a native value below 256^n. |
| LittleEndian.LeBytesRoundTrip | src/lib.rs:107 | `to_le_bytes(from_le_bytes(s)) == s`. |
| LittleEndian.OverflowingAdd | src/pure_rust_impl.rs:39-47 | The wrapped byte plus 256 when the flag is set is the true sum. |
| LittleEndian.OverflowingSub | src/pure_rust_impl.rs:75-85 | The wrapped byte minus 256 when the flag is set is the true difference. |
| LittleEndian.HighBits | src/pure_rust_impl.rs:91 | `x & 0xFE` is even, at most x, and differs from x by at most one. |
| LittleEndian.LowBit | src/pure_rust_impl.rs:91-95 | `x & 0x01` is at most 1 and, added to `x & 0xFE`, gives x back. |

## Left out

- The other kernels (`const_mul`, `const_div`, `const_shl`, `const_shr`, `const_cmp`, the bitwise ops, `const_ilog*`), formatting and `Not`: they are outside the additive core modelled here.
- `usize` and `isize` conversions: the width depends on the platform. The five fixed widths `u8` … `u128` and `i8` … `i128` are modelled through one `Width` parameter.
- Narrowing to signed types (`TryFrom<u206265> for iN`): this is `try_into_uN` followed by the standard library's `uN -> iN` conversion, which is foreign code.
- `From<uN>`, `From<&uN>` and the `TryFrom` wrappers around the named functions: they only forward. `NegativeIntError` carries no data and corresponds to `None`.
- The `paste!` / `macro_rules!` generation, `no_std`, `Clone`/`Copy`, borrowing, and the derived `PartialOrd`/`Ord`/`Hash`: these are not behaviour of the core.
- `BITS_U32`: a compile-time check that BITS fits in 31 bits. `SignificantBytesU32` proves the cast it protects never truncates.
- `create_bytes` panics when given more than BYTES bytes or an oversized top byte. `PureRustImpl.CreateBytes` takes these as preconditions, since every caller passes a compile-time array that meets them.
- Ops.Add: the panic of `debug_assert!(!overflow)` in debug builds is not modelled; the model follows release builds, which return the wrapped sum.
- Ops.AddAssign: it returns the updated value instead of mutating `self` in place.
- The repository's add and sub tests name the error field `bytes_required`, but the struct declares `min_bytes`. The model follows the struct.

## Findings

| source | as written | input that shows it | evidently intended | confidence | as-written member | corrected member |
|---|---|---|---|---|---|---|
| src/lib.rs:53 | `debug_assert!(res_usize < BYTES)`, with a comment claiming the result is below the byte count | `u206265::MAX` (and every value whose top bit is set) has significant length BYTES, so the assertion panics in debug builds | `res_usize <= BYTES`, which always holds and still makes the `u32` cast lossless | medium, not executed | Repr.SignificantBytesU32AsWritten, Constants.SignificantBytesU32RejectsMax | Repr.SignificantBytesU32 |
