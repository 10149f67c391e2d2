/**
 * Algebraic laws of the additive kernel, and its agreement with native
 * unsigned arithmetic of every fixed width (the repository's tests use `u128`).
 */
module Laws {
  import opened LittleEndian
  import opened Outcomes
  import opened Repr
  import opened PureRustImpl
  import opened Constants
  import opened Conversions

  /** Valid values are determined by what they denote. */
  lemma ValueDeterminesRepr(x: U206265, y: U206265)
    requires Value(x) == Value(y)
    ensures x == y
  {
    ValInjective(x.bytes, y.bytes);
  }

  /** `a + b == b + a`, flags included. */
  method AddCommutes(a: U206265, b: U206265) returns (ab: U206265, o1: bool, ba: U206265, o2: bool)
    requires Valid(a) && Valid(b)
    ensures ab == ba && o1 == o2
    ensures Value(ab) == (Value(a) + Value(b)) % Modulus()
  {
    ab, o1 := ConstAdd(a, b);
    ba, o2 := ConstAdd(b, a);
    ValueDeterminesRepr(ab, ba);
  }

  /** `(a + b) + c == a + (b + c)`, both sides wrapping modulo 2^BITS. */
  method AddAssociates(a: U206265, b: U206265, c: U206265) returns (l: U206265, r: U206265)
    requires Valid(a) && Valid(b) && Valid(c)
    ensures l == r
    ensures Value(l) == (Value(a) + Value(b) + Value(c)) % Modulus()
  {
    var ab, o1 := ConstAdd(a, b);
    var o2;
    l, o2 := ConstAdd(ab, c);
    var bc, o3 := ConstAdd(b, c);
    var o4;
    r, o4 := ConstAdd(a, bc);
    WrappedSumAssociates(Value(a), Value(b), Value(c), Modulus(), Value(ab), Value(bc), Value(l), Value(r));
    ValueDeterminesRepr(l, r);
  }

  /** Associativity of addition modulo m, on the residues each side computes. */
  lemma WrappedSumAssociates(x: int, y: int, z: int, m: int, xy: int, yz: int, left: int, right: int)
    requires m > 0
    requires xy == (x + y) % m && left == (xy + z) % m
    requires yz == (y + z) % m && right == (x + yz) % m
    ensures left == right == (x + y + z) % m
  {
    ModShift(x + y, z, m, xy, xy + z, x + y + z);
    ModShift(y + z, x, m, yz, x + yz, x + y + z);
  }

  /** Reducing one summand first does not change the sum's residue: with
      r = u mod m, the sums r + v and u + v agree modulo m. */
  lemma ModShift(u: int, v: int, m: int, r: int, reduced: int, sum: int)
    requires m > 0 && r == u % m && reduced == r + v && sum == u + v
    ensures reduced % m == sum % m
  {
    var q, q2 := u / m, reduced / m;
    var r2 := reduced % m;
    assert u == q * m + r;
    assert reduced == q2 * m + r2;
    assert sum == r2 + (q + q2) * m;
    DivModUnique(sum, m, r2, q + q2);
  }

  /** `a - a == ZERO` without underflow. */
  method SubSelfIsZero(a: U206265) returns (d: U206265, underflow: bool)
    requires Valid(a)
    ensures d == ZERO && !underflow
  {
    d, underflow := ConstSub(a, a);
    ZeroIsZero();
    ValueDeterminesRepr(d, ZERO);
  }

  /** Narrowing a value below twice the range of a native width: the value when
      it fits, otherwise an error reporting one byte more than the width. */
  lemma NarrowingJustAboveWidth(w: Width, x: U206265)
    requires Value(x) < 2 * Pow256(w.Bytes())
    ensures Value(x) < Pow256(w.Bytes()) ==> TryIntoUnsigned(w, x) == Ok(Value(x))
    ensures Value(x) >= Pow256(w.Bytes()) ==> TryIntoUnsigned(w, x) == Err(U206265ToUnsigned(w.Bytes() + 1))
  {
    var n := w.Bytes();
    WideEnough();
    if Value(x) >= Pow256(n) {
      assert Pow256(n + 1) == 256 * Pow256(n);
      NarrowingErrorReportsWidth(w, x, n + 1);
    }
  }

  /** Adding two widened native values never overflows `u206265`; narrowing the
      sum back to the same width gives the native sum when it fits and otherwise
      reports one byte more than the width (17 for `u128`). */
  method AddNative(w: Width, lhs: nat, rhs: nat) returns (narrowed: Result<nat, U206265ToUnsigned>, overflow: bool)
    requires InUnsigned(w, lhs) && InUnsigned(w, rhs)
    ensures !overflow
    ensures lhs + rhs < Pow256(w.Bytes()) ==> narrowed == Ok(lhs + rhs)
    ensures lhs + rhs >= Pow256(w.Bytes()) ==> narrowed == Err(U206265ToUnsigned(w.Bytes() + 1))
  {
    var theLhs := FromUnsigned(w, lhs);
    var theRhs := FromUnsigned(w, rhs);
    narrowed, overflow := AddThenNarrow(w, theLhs, theRhs, lhs, rhs);
  }

  /** `const_add` of the widened values a and b of lhs and rhs, narrowed back to
      width w. */
  method AddThenNarrow(w: Width, a: U206265, b: U206265, lhs: nat, rhs: nat) returns (narrowed: Result<nat, U206265ToUnsigned>, overflow: bool)
    requires Valid(a) && Valid(b) && Value(a) == lhs && Value(b) == rhs
    requires InUnsigned(w, lhs) && InUnsigned(w, rhs)
    ensures !overflow
    ensures lhs + rhs < Pow256(w.Bytes()) ==> narrowed == Ok(lhs + rhs)
    ensures lhs + rhs >= Pow256(w.Bytes()) ==> narrowed == Err(U206265ToUnsigned(w.Bytes() + 1))
  {
    NativeSumFits(w, lhs, rhs);
    var sum;
    sum, overflow := ConstAdd(a, b);
    narrowed := TryIntoUnsigned(w, sum);
    NarrowNativeSum(w, lhs, rhs, sum);
  }

  /** Narrowing the wrapped sum of two native values of width w. */
  lemma NarrowNativeSum(w: Width, lhs: nat, rhs: nat, sum: U206265)
    requires InUnsigned(w, lhs) && InUnsigned(w, rhs)
    requires Value(sum) == (lhs + rhs) % Modulus()
    ensures lhs + rhs < Pow256(w.Bytes()) ==> TryIntoUnsigned(w, sum) == Ok(lhs + rhs)
    ensures lhs + rhs >= Pow256(w.Bytes()) ==> TryIntoUnsigned(w, sum) == Err(U206265ToUnsigned(w.Bytes() + 1))
  {
    NativeSumFits(w, lhs, rhs);
    NarrowingJustAboveWidth(w, sum);
  }

  /** The sum of two native values is far below 2^BITS. */
  lemma NativeSumFits(w: Width, lhs: nat, rhs: nat)
    requires InUnsigned(w, lhs) && InUnsigned(w, rhs)
    ensures lhs + rhs < Modulus()
    ensures (lhs + rhs) % Modulus() == lhs + rhs
  {
    WideEnough();
    Pow256Monotone(w.Bytes(), BYTES - 1);
    DivModUnique(lhs + rhs, Modulus(), lhs + rhs, 0);
  }

  /** Subtracting two widened native values underflows exactly when the native
      subtraction does; without underflow, narrowing gives the native difference,
      and with it the wrapped result fills every byte. */
  method SubNative(w: Width, lhs: nat, rhs: nat) returns (narrowed: Result<nat, U206265ToUnsigned>, underflow: bool)
    requires InUnsigned(w, lhs) && InUnsigned(w, rhs)
    ensures underflow <==> rhs > lhs
    ensures !underflow ==> narrowed == Ok(lhs - rhs)
    ensures underflow ==> narrowed == Err(U206265ToUnsigned(BYTES))
  {
    var theLhs := FromUnsigned(w, lhs);
    var theRhs := FromUnsigned(w, rhs);
    narrowed, underflow := SubThenNarrow(w, theLhs, theRhs, lhs, rhs);
  }

  /** `const_sub` of the widened values a and b of lhs and rhs, narrowed back to
      width w. */
  method SubThenNarrow(w: Width, a: U206265, b: U206265, lhs: nat, rhs: nat) returns (narrowed: Result<nat, U206265ToUnsigned>, underflow: bool)
    requires Valid(a) && Valid(b) && Value(a) == lhs && Value(b) == rhs
    requires InUnsigned(w, lhs) && InUnsigned(w, rhs)
    ensures underflow <==> rhs > lhs
    ensures !underflow ==> narrowed == Ok(lhs - rhs)
    ensures underflow ==> narrowed == Err(U206265ToUnsigned(BYTES))
  {
    var difference;
    difference, underflow := ConstSub(a, b);
    narrowed := TryIntoUnsigned(w, difference);
    if underflow {
      WrappedSmallDifferenceIsFullLength(w, difference, lhs - rhs);
    }
  }

  /** A negative difference of native values, wrapped modulo 2^BITS, has
      significant length BYTES. */
  lemma WrappedSmallDifferenceIsFullLength(w: Width, x: U206265, d: int)
    requires 0 < d + Pow256(w.Bytes()) && d < 0
    requires Value(x) == d % Modulus()
    ensures SignificantBytes(x) == BYTES
  {
    WideEnough();
    Pow256Monotone(w.Bytes(), BYTES - 1);
    DivModUnique(d, Modulus(), d + Modulus(), -1);
    ValBound(x.bytes);
    SignificantBytesOfValue(x, BYTES);
  }
}
