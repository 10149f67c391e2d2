/**
 * The pure kernel: construction from a short byte array, and addition and
 * subtraction with carry/borrow chains and an overflow/underflow flag.
 */
module PureRustImpl {
  import opened LittleEndian
  import opened Repr

  /** `create_bytes`: copy N <= BYTES bytes into the low end and zero the rest.
      Both asserts of the source (N too big, top byte above 1) are caller obligations. */
  function CreateBytes(src: seq<byte>): (r: U206265)
    requires |src| <= BYTES
    requires |src| == BYTES ==> src[BYTES - 1] <= 1
    ensures Valid(r)
    ensures r.bytes[..|src|] == src
    ensures forall i :: |src| <= i < BYTES ==> r.bytes[i] == 0
    ensures Value(r) == Val(src)
  {
    var bytes := src + Zeros(BYTES - |src|);
    assert bytes[..|src|] == src;
    ValZeroTail(bytes, |src|);
    U206265(bytes)
  }

  /** How far `const_add` walks: one byte past the longer operand, capped at BYTES. */
  function AddLength(a: U206265, b: U206265): (n: nat)
    ensures 2 <= n <= BYTES
  {
    var la := SignificantBytes(a);
    var lb := SignificantBytes(b);
    var sl := if la > lb then la else lb;
    if sl < BYTES then sl + 1 else sl
  }

  // ---------------------------------------------------------------------------
  // Addition
  // ---------------------------------------------------------------------------

  /** The arithmetic of one carry step, at byte weight p. */
  lemma CarryArith(lo: int, la: int, lb: int, c: int, x: int, y: int, s: int, c': int, p: int)
    requires lo + c * p == la + lb
    requires s + 256 * c' == c + x + y
    ensures (lo + s * p) + c' * (256 * p) == (la + x * p) + (lb + y * p)
  {
    assert c' * (256 * p) == 256 * (c' * p);
    assert (s + 256 * c') * p == s * p + 256 * (c' * p);
    assert (c + x + y) * p == c * p + x * p + y * p;
  }

  /** One byte of the carry chain keeps the running equation
      low(result) + carry * 256^i == low(a) + low(b). */
  lemma AddStep(lhs: seq<byte>, a: seq<byte>, b: seq<byte>, i: nat, carry: nat, sum: byte, carry': nat)
    requires i < |lhs| && i < |a| && i < |b|
    requires lhs[i] == a[i]
    requires Val(lhs[..i]) + carry * Pow256(i) == Val(a[..i]) + Val(b[..i])
    requires sum + 256 * carry' == carry + a[i] + b[i]
    ensures Val(lhs[i := sum][..i + 1]) + carry' * Pow256(i + 1) == Val(a[..i + 1]) + Val(b[..i + 1])
  {
    var lhs' := lhs[i := sum];
    assert lhs'[..i] == lhs[..i];
    ValPrefixStep(lhs', i);
    ValPrefixStep(a, i);
    ValPrefixStep(b, i);
    CarryArith(Val(lhs[..i]), Val(a[..i]), Val(b[..i]), carry, a[i], b[i], sum, carry', Pow256(i));
  }

  /** An operand whose significant length is below n is held by its low n - 1 bytes. */
  lemma OperandBelow(x: U206265, n: nat)
    requires SignificantBytes(x) < n <= BYTES
    ensures Val(x.bytes[..n]) == Value(x) < Pow256(n - 1)
  {
    SignificantBytesFitsValue(x);
    Pow256Monotone(SignificantBytes(x), n - 1);
    ValZeroTail(x.bytes, n);
  }

  /** A carry out of a sum of two values below p, at weight 256 * p, is zero. */
  lemma NoCarryOut(lo: nat, c: nat, la: nat, lb: nat, p: nat)
    requires la < p && lb < p
    requires lo + c * (256 * p) == la + lb
    ensures c == 0 && lo == la + lb < 256 * p
  {
    if c >= 1 {
      MulLeft(1, c, 256 * p);
    }
  }

  /** A sum below 256^n with n < BYTES is below 2^BITS. */
  lemma ShortSumFits(v: nat, n: nat)
    requires n < BYTES && v < Pow256(n)
    ensures v < Modulus()
  {
    Pow256Monotone(n, BYTES - 1);
  }

  /** Values below 2^BITS are unchanged modulo 2^BITS. */
  lemma BelowModulus(v: nat)
    requires v < Modulus()
    ensures v % Modulus() == v
  {
    DivModUnique(v, Modulus(), v, 0);
  }

  /** When the walk stops short of the top byte, both operands live below the
      last walked byte, so the carry out is zero and the sum fits. */
  lemma AddShortWalk(a: U206265, b: U206265, lhs: ByteArray, carry: nat, n: nat)
    requires SignificantBytes(a) < n && SignificantBytes(b) < n && n < BYTES
    requires forall j :: n <= j < BYTES ==> lhs[j] == a.bytes[j]
    requires Val(lhs[..n]) + carry * Pow256(n) == Val(a.bytes[..n]) + Val(b.bytes[..n])
    ensures carry == 0
    ensures Value(U206265(lhs)) == Value(a) + Value(b) < Modulus()
    ensures forall j :: n <= j < BYTES ==> lhs[j] == a.bytes[j] == 0
    ensures lhs[BYTES - 1] == 0
  {
    OperandBelow(a, n);
    OperandBelow(b, n);
    Pow256Succ(n - 1);
    NoCarryOut(Val(lhs[..n]), carry, Value(a), Value(b), Pow256(n - 1));
    assert forall j :: n <= j < BYTES ==> a.bytes[j] == 0;
    ValZeroTail(lhs, n);
    ShortSumFits(Value(a) + Value(b), n);
  }

  /** When the walk covers every byte, the carry out is zero and the top byte is
      at most 3: the `4..` arm of `const_add` cannot be reached. */
  lemma AddFullWalk(a: U206265, b: U206265, lhs: ByteArray, carry: nat)
    requires Valid(a) && Valid(b)
    requires Val(lhs) + carry * Pow256(BYTES) == Value(a) + Value(b)
    ensures carry == 0
    ensures lhs[BYTES - 1] <= 3
  {
    ValidIffBelowModulus(a);
    ValidIffBelowModulus(b);
    var p := Pow256(BYTES - 1);
    assert Pow256(BYTES) == 256 * p;
    TopSplit(lhs);
    if carry >= 1 {
      MulLeft(1, carry, Pow256(BYTES));
    }
    if lhs[BYTES - 1] >= 4 {
      MulLeft(4, lhs[BYTES - 1], p);
    }
  }

  /** A top byte of 0 or 1 after the full walk: the sum fit and is the result. */
  lemma AddNoWrap(a: U206265, b: U206265, lhs: ByteArray)
    requires Val(lhs) == Value(a) + Value(b) && lhs[BYTES - 1] <= 1
    ensures Value(a) + Value(b) < Modulus()
    ensures Val(lhs) == (Value(a) + Value(b)) % Modulus()
  {
    ValidIffBelowModulus(U206265(lhs));
    DivModUnique(Value(a) + Value(b), Modulus(), Val(lhs), 0);
  }

  /** A top byte of 2 or 3 after the full walk: the sum reached 2^BITS, and
      dropping the top carry bit leaves the sum modulo 2^BITS. */
  lemma AddWrap(a: U206265, b: U206265, lhs: ByteArray, top: byte)
    requires Valid(a) && Valid(b)
    requires Val(lhs) == Value(a) + Value(b) && lhs[BYTES - 1] == top + 2
    ensures top <= 1
    ensures Value(a) + Value(b) >= Modulus()
    ensures Val(lhs[BYTES - 1 := top]) == (Value(a) + Value(b)) % Modulus()
  {
    ValidIffBelowModulus(a);
    ValidIffBelowModulus(b);
    LowerTop(lhs, top, 2);
    var lhs' := lhs[BYTES - 1 := top];
    ValBound(lhs');
    ValidIffBelowModulus(U206265(lhs'));
    DivModUnique(Value(a) + Value(b), Modulus(), Val(lhs'), 1);
  }

  /** Lowering the top byte by k lowers the value by k * 256^(BYTES-1). */
  lemma LowerTop(lhs: ByteArray, t: byte, k: nat)
    requires lhs[BYTES - 1] == t + k
    ensures Val(lhs[BYTES - 1 := t]) == Val(lhs) - k * Pow256(BYTES - 1)
  {
    var lhs' := lhs[BYTES - 1 := t];
    assert lhs'[..BYTES - 1] == lhs[..BYTES - 1];
    TopSplit(lhs);
    TopSplit(lhs');
    var p := Pow256(BYTES - 1);
    assert (t + k) * p == t * p + k * p;
  }

  /** One byte of the `const_add` loop: add the lhs byte, then the rhs byte, to
      the carry in, counting the two wrap-arounds as the carry out. */
  function CarryStep(carry: byte, x: byte, y: byte): (r: (byte, byte))
    requires carry <= 1
    ensures r.1 <= 1
    ensures r.0 + 256 * r.1 == carry + x + y
  {
    var (sum1, overflow1) := OverflowingAdd(carry, x);
    var carryOut := if overflow1 then 1 else 0;
    var (sum2, overflow2) := OverflowingAdd(sum1, y);
    (sum2, if overflow2 then carryOut + 1 else carryOut)
  }

  /** The `const_for` loop of `const_add`: add rhs into lhs over bytes 0..n with a
      one-bit carry. The low n bytes of the result plus the carry out, at weight
      256^n, equal the sum of the operands' low n bytes; bytes from n up are untouched. */
  method CarryChain(lhs0: ByteArray, rhs: ByteArray, n: nat) returns (lhs: ByteArray, carry: byte)
    requires n <= BYTES
    ensures carry <= 1
    ensures forall j :: n <= j < BYTES ==> lhs[j] == lhs0[j]
    ensures Val(lhs[..n]) + carry * Pow256(n) == Val(lhs0[..n]) + Val(rhs[..n])
  {
    lhs := lhs0;
    carry := 0;
    var i := 0;
    while i < n
      invariant 0 <= i <= n
      invariant carry <= 1
      invariant forall j :: i <= j < BYTES ==> lhs[j] == lhs0[j]
      invariant Val(lhs[..i]) + carry * Pow256(i) == Val(lhs0[..i]) + Val(rhs[..i])
    {
      var (sum, carryOut) := CarryStep(carry, lhs[i], rhs[i]);
      AddStep(lhs, lhs0, rhs, i, carry, sum, carryOut);
      lhs := lhs[i := sum];
      carry := carryOut;
      i := i + 1;
    }
  }

  /** Operands whose significant lengths are below BYTES sum to less than 2^BITS. */
  lemma SmallOperandsFit(a: U206265, b: U206265)
    requires SignificantBytes(a) < BYTES && SignificantBytes(b) < BYTES
    ensures Value(a) + Value(b) < Modulus()
  {
    OperandBelow(a, BYTES);
    OperandBelow(b, BYTES);
  }

  /** `const_add`: the sum modulo 2^BITS, and whether the true sum reached 2^BITS. */
  method ConstAdd(a: U206265, b: U206265) returns (r: U206265, overflow: bool)
    requires Valid(a) && Valid(b)
    ensures Valid(r)
    ensures Value(r) == (Value(a) + Value(b)) % Modulus()
    ensures overflow <==> Value(a) + Value(b) >= Modulus()
    ensures SignificantBytes(a) < BYTES && SignificantBytes(b) < BYTES ==> !overflow
    ensures forall i :: AddLength(a, b) <= i < BYTES ==> r.bytes[i] == a.bytes[i] == 0
  {
    var n := AddLength(a, b);
    var lhs, carry := CarryChain(a.bytes, b.bytes, n);
    if n == BYTES {
      r, overflow := FoldTopCarry(a, b, lhs, carry);
    } else {
      AddShortWalk(a, b, lhs, carry, n);
      BelowModulus(Value(a) + Value(b));
      overflow := false;
      r := U206265(lhs);
    }
    if SignificantBytes(a) < BYTES && SignificantBytes(b) < BYTES {
      SmallOperandsFit(a, b);
    }
  }

  /** The top-byte `match` of `const_add` after a walk over every byte: 0 or 1
      is kept; 2 or 3 is a carry into bit BITS, which is dropped and reported. */
  method FoldTopCarry(a: U206265, b: U206265, lhs: ByteArray, carry: nat) returns (r: U206265, overflow: bool)
    requires Valid(a) && Valid(b)
    requires Val(lhs[..BYTES]) + carry * Pow256(BYTES) == Val(a.bytes[..BYTES]) + Val(b.bytes[..BYTES])
    ensures Valid(r)
    ensures Value(r) == (Value(a) + Value(b)) % Modulus()
    ensures overflow <==> Value(a) + Value(b) >= Modulus()
  {
    assert lhs[..BYTES] == lhs && a.bytes[..BYTES] == a.bytes && b.bytes[..BYTES] == b.bytes;
    AddFullWalk(a, b, lhs, carry);
    var top := lhs[BYTES - 1];
    if top <= 1 {
      overflow := false;
      AddNoWrap(a, b, lhs);
      r := U206265(lhs);
    } else if top == 2 {
      overflow := true;
      AddWrap(a, b, lhs, 0);
      r := U206265(lhs[BYTES - 1 := 0]);
    } else if top == 3 {
      overflow := true;
      AddWrap(a, b, lhs, 1);
      r := U206265(lhs[BYTES - 1 := 1]);
    } else {
      // "Most-significant bit cannot be 4 or more"
      assert false;
    }
  }

  // ---------------------------------------------------------------------------
  // Subtraction
  // ---------------------------------------------------------------------------

  /** The arithmetic of one borrow step, at byte weight p. */
  lemma BorrowArith(lo: int, la: int, lb: int, c: int, x: int, y: int, d: int, c': int, p: int)
    requires lo - c * p == la - lb
    requires d - 256 * c' == x - c - y
    ensures (lo + d * p) - c' * (256 * p) == (la + x * p) - (lb + y * p)
  {
    assert c' * (256 * p) == 256 * (c' * p);
    assert (d - 256 * c') * p == d * p - 256 * (c' * p);
    assert (x - c - y) * p == x * p - c * p - y * p;
  }

  /** One byte of the borrow chain keeps the running equation
      low(result) - borrow * 256^i == low(a) - low(b). */
  lemma SubStep(lhs: seq<byte>, a: seq<byte>, b: seq<byte>, i: nat, borrow: nat, diff: byte, borrow': nat)
    requires i < |lhs| && i < |a| && i < |b|
    requires lhs[i] == a[i]
    requires Val(lhs[..i]) - borrow * Pow256(i) == Val(a[..i]) - Val(b[..i])
    requires diff - 256 * borrow' == a[i] - borrow - b[i]
    ensures Val(lhs[i := diff][..i + 1]) - borrow' * Pow256(i + 1) == Val(a[..i + 1]) - Val(b[..i + 1])
  {
    var lhs' := lhs[i := diff];
    assert lhs'[..i] == lhs[..i];
    ValPrefixStep(lhs', i);
    ValPrefixStep(a, i);
    ValPrefixStep(b, i);
    BorrowArith(Val(lhs[..i]), Val(a[..i]), Val(b[..i]), borrow, a[i], b[i], diff, borrow', Pow256(i));
  }

  /** Without a true underflow the borrow chain ends at zero and the top byte is 0 or 1. */
  lemma SubNoUnderflow(a: U206265, b: U206265, lhs: ByteArray, borrow: nat)
    requires Valid(a) && borrow <= 1
    requires Val(lhs) - borrow * Pow256(BYTES) == Value(a) - Value(b)
    requires Value(b) <= Value(a)
    ensures borrow == 0 && lhs[BYTES - 1] <= 1
    ensures Val(lhs) == Value(a) - Value(b) == (Value(a) - Value(b)) % Modulus()
  {
    ValidIffBelowModulus(a);
    ValBound(lhs);
    assert borrow == 0;
    ValidIffBelowModulus(U206265(lhs));
    DivModUnique(Value(a) - Value(b), Modulus(), Val(lhs), 0);
  }

  /** The top byte of a value lying strictly between 254 * 256^(BYTES-1) and 256^BYTES. */
  lemma TopByteOfHighValue(lhs: ByteArray)
    requires Val(lhs) > 254 * Pow256(BYTES - 1)
    ensures lhs[BYTES - 1] >= 254
  {
    var p := Pow256(BYTES - 1);
    TopSplit(lhs);
    if lhs[BYTES - 1] <= 253 {
      MulLeft(lhs[BYTES - 1], 253, p);
    }
  }

  /** With a true underflow the chain ends with a borrow and the top byte is 254 or 255;
      keeping only its lowest bit adds 2^BITS to the negative difference. */
  lemma SubUnderflow(a: U206265, b: U206265, lhs: ByteArray, borrow: nat)
    requires Valid(b) && borrow <= 1
    requires Val(lhs) - borrow * Pow256(BYTES) == Value(a) - Value(b)
    requires Value(b) > Value(a)
    ensures borrow == 1 && lhs[BYTES - 1] >= 254
    ensures Val(lhs[BYTES - 1 := LowBit(lhs[BYTES - 1])]) == Value(a) - Value(b) + Modulus()
    ensures Val(lhs[BYTES - 1 := LowBit(lhs[BYTES - 1])]) == (Value(a) - Value(b)) % Modulus()
  {
    ValidIffBelowModulus(b);
    var p := Pow256(BYTES - 1);
    Pow256Succ(BYTES - 1);
    UnderflowArith(Val(lhs), borrow, Value(a) - Value(b), p);
    TopByteOfHighValue(lhs);
    LowerTop(lhs, LowBit(lhs[BYTES - 1]), 254);
    var lhs' := lhs[BYTES - 1 := LowBit(lhs[BYTES - 1])];
    DivModUnique(Value(a) - Value(b), Modulus(), Val(lhs'), -1);
  }

  /** The arithmetic of a negative difference d above -2p, computed with a
      borrow of weight 256 * p. */
  lemma UnderflowArith(v: nat, borrow: nat, d: int, p: nat)
    requires borrow <= 1 && v - borrow * (256 * p) == d
    requires -2 * p < d < 0
    ensures borrow == 1 && v > 254 * p && v - 254 * p == d + 2 * p
  {
  }

  /** One byte of the `const_sub` loop: subtract the borrow in, then the rhs
      byte, counting the two wrap-arounds as the borrow out. */
  function BorrowStep(x: byte, borrow: byte, y: byte): (r: (byte, byte))
    requires borrow <= 1
    ensures r.1 <= 1
    ensures r.0 - 256 * r.1 == x - borrow - y
  {
    var (diff1, underflow1) := OverflowingSub(x, borrow);
    var borrowOut := if underflow1 then 1 else 0;
    var (diff2, underflow2) := OverflowingSub(diff1, y);
    (diff2, if underflow2 then borrowOut + 1 else borrowOut)
  }

  /** The `const_for` loop of `const_sub`: subtract rhs from lhs over all bytes
      with a one-bit borrow. The result minus the borrow out, at weight 256^BYTES,
      equals the difference of the operands. */
  method BorrowChain(lhs0: ByteArray, rhs: ByteArray) returns (lhs: ByteArray, borrow: byte)
    ensures borrow <= 1
    ensures Val(lhs) - borrow * Pow256(BYTES) == Val(lhs0) - Val(rhs)
  {
    lhs := lhs0;
    borrow := 0;
    var i := 0;
    while i < BYTES
      invariant 0 <= i <= BYTES
      invariant borrow <= 1
      invariant forall j :: i <= j < BYTES ==> lhs[j] == lhs0[j]
      invariant Val(lhs[..i]) - borrow * Pow256(i) == Val(lhs0[..i]) - Val(rhs[..i])
    {
      var (diff, borrowOut) := BorrowStep(lhs[i], borrow, rhs[i]);
      SubStep(lhs, lhs0, rhs, i, borrow, diff, borrowOut);
      lhs := lhs[i := diff];
      borrow := borrowOut;
      i := i + 1;
    }
    assert lhs[..BYTES] == lhs && lhs0[..BYTES] == lhs0 && rhs[..BYTES] == rhs;
  }

  /** How the borrow chain ends, in both cases: without a true underflow the top
      byte already keeps the invariant, and with one it is 254 or 255 and its low
      bit completes the wrapped difference. */
  lemma SubChainEnds(a: U206265, b: U206265, lhs: ByteArray, borrow: nat)
    requires Valid(a) && Valid(b) && borrow <= 1
    requires Val(lhs) - borrow * Pow256(BYTES) == Value(a) - Value(b)
    ensures Value(b) <= Value(a) ==> lhs[BYTES - 1] <= 1 && Val(lhs) == Value(a) - Value(b) == (Value(a) - Value(b)) % Modulus()
    ensures Value(b) > Value(a) ==> lhs[BYTES - 1] >= 254
    ensures Value(b) > Value(a) ==> Val(lhs[BYTES - 1 := LowBit(lhs[BYTES - 1])]) == (Value(a) - Value(b)) % Modulus()
  {
    if Value(b) <= Value(a) {
      SubNoUnderflow(a, b, lhs, borrow);
    } else {
      SubUnderflow(a, b, lhs, borrow);
    }
  }

  /** The final match of `const_sub` on the top byte after the borrow chain:
      `& 0xFE` nonzero means the true difference was negative, and `& 0x01`
      restores the invariant. */
  method FoldTopBorrow(a: U206265, b: U206265, lhs0: ByteArray, borrow: nat) returns (r: U206265, underflow: bool)
    requires Valid(a) && Valid(b) && borrow <= 1
    requires Val(lhs0) - borrow * Pow256(BYTES) == Value(a) - Value(b)
    ensures Valid(r)
    ensures Value(r) == (Value(a) - Value(b)) % Modulus()
    ensures underflow <==> Value(b) > Value(a)
    ensures !underflow ==> Value(r) == Value(a) - Value(b)
  {
    SubChainEnds(a, b, lhs0, borrow);
    var lhs := lhs0;
    var top := lhs[BYTES - 1];
    if HighBits(top) == 0 {
      underflow := false;
    } else {
      underflow := true;
      lhs := lhs[BYTES - 1 := LowBit(top)];
    }
    r := U206265(lhs);
  }

  /** `const_sub`: the difference modulo 2^BITS, and whether the true difference was negative. */
  method ConstSub(a: U206265, b: U206265) returns (r: U206265, underflow: bool)
    requires Valid(a) && Valid(b)
    ensures Valid(r)
    ensures Value(r) == (Value(a) - Value(b)) % Modulus()
    ensures underflow <==> Value(b) > Value(a)
    ensures !underflow ==> Value(r) == Value(a) - Value(b)
  {
    var lhs, borrow := BorrowChain(a.bytes, b.bytes);
    r, underflow := FoldTopBorrow(a, b, lhs, borrow);
  }
}
