/**
 * The `Add` and `AddAssign` operator impls. All borrowed and owned forms call
 * `const_add` and keep only the sum. The debug assertion that the add did not
 * overflow is absent from release builds, where the sum wraps modulo 2^BITS.
 */
module Ops {
  import opened LittleEndian
  import opened Repr
  import opened PureRustImpl

  /** `lhs + rhs`: the wrapped sum, which is the exact sum when it stays below 2^BITS. */
  method Add(lhs: U206265, rhs: U206265) returns (sum: U206265)
    requires Valid(lhs) && Valid(rhs)
    ensures Valid(sum)
    ensures Value(sum) == (Value(lhs) + Value(rhs)) % Modulus()
    ensures Value(lhs) + Value(rhs) < Modulus() ==> Value(sum) == Value(lhs) + Value(rhs)
  {
    var result, overflow := ConstAdd(lhs, rhs);
    if !overflow {
      DivModUnique(Value(lhs) + Value(rhs), Modulus(), Value(lhs) + Value(rhs), 0);
    }
    sum := result;
  }

  /** `self += rhs`, written as returning the updated `self`. */
  method AddAssign(self: U206265, rhs: U206265) returns (self': U206265)
    requires Valid(self) && Valid(rhs)
    ensures Valid(self')
    ensures Value(self') == (Value(self) + Value(rhs)) % Modulus()
    ensures Value(self) + Value(rhs) < Modulus() ==> Value(self') == Value(self) + Value(rhs)
  {
    var sum, overflow := ConstAdd(self, rhs);
    if !overflow {
      DivModUnique(Value(self) + Value(rhs), Modulus(), Value(self) + Value(rhs), 0);
    }
    self' := sum;
  }
}
