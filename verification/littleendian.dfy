/**
 * Little-endian byte sequences and the natural number they denote, plus the
 * `u8` primitives (`overflowing_add`, `overflowing_sub`, `&`) and the native
 * `to_le_bytes` / `from_le_bytes` conversions the kernel is built from.
 */
module LittleEndian {

  /** One byte, `u8` in the source. */
  type byte = x: int | 0 <= x < 256

  /** 256^n: the number of distinct values of n bytes. */
  function Pow256(n: nat): (r: nat)
    ensures r >= 1
  {
    if n == 0 then 1 else 256 * Pow256(n - 1)
  }

  /** The value of a little-endian byte sequence: byte 0 is least significant. */
  function Val(s: seq<byte>): nat
  {
    if |s| == 0 then 0 else Val(s[..|s| - 1]) + s[|s| - 1] * Pow256(|s| - 1)
  }

  /** A sequence of n zero bytes. */
  function Zeros(n: nat): (r: seq<byte>)
    ensures |r| == n
    ensures forall i :: 0 <= i < n ==> r[i] == 0
  {
    seq(n, _ => 0)
  }

  // ---------------------------------------------------------------------------
  // u8 primitives
  // ---------------------------------------------------------------------------

  /** `u8::overflowing_add`: the wrapped sum and whether it wrapped. */
  function OverflowingAdd(x: byte, y: byte): (r: (byte, bool))
    ensures r.0 + (if r.1 then 256 else 0) == x + y
  {
    if x + y >= 256 then (x + y - 256, true) else (x + y, false)
  }

  /** `u8::overflowing_sub`: the wrapped difference and whether it wrapped. */
  function OverflowingSub(x: byte, y: byte): (r: (byte, bool))
    ensures r.0 - (if r.1 then 256 else 0) == x - y
  {
    if x < y then (x - y + 256, true) else (x - y, false)
  }

  /** `x & 0xFE` on a `u8`: every bit but the lowest. */
  function HighBits(x: byte): (r: byte)
    ensures r % 2 == 0 && r <= x && x - r <= 1
  {
    x - x % 2
  }

  /** `x & 0x01` on a `u8`: the lowest bit. */
  function LowBit(x: byte): (r: byte)
    ensures r <= 1 && HighBits(x) + r == x
  {
    x % 2
  }

  // ---------------------------------------------------------------------------
  // Arithmetic helpers
  // ---------------------------------------------------------------------------

  lemma MulShift(x: int, y: int)
    ensures 256 * (x * y) == x * (256 * y)
  {
  }

  lemma MulLeft(a: int, b: int, c: nat)
    requires a <= b
    ensures a * c <= b * c
  {
  }

  lemma DivModUnique(v: int, d: int, lo: int, hi: int)
    requires d > 0 && 0 <= lo < d && v == lo + hi * d
    ensures v / d == hi && v % d == lo
  {
    var q, r := v / d, v % d;
    assert v == q * d + r;
    assert (hi - q) * d == r - lo;
    if hi - q >= 1 {
      MulLeft(1, hi - q, d);
    } else if hi - q <= -1 {
      MulLeft(hi - q, -1, d);
    }
  }

  // ---------------------------------------------------------------------------
  // Facts about Val
  // ---------------------------------------------------------------------------

  lemma {:induction false} Pow256Add(m: nat, n: nat)
    ensures Pow256(m + n) == Pow256(m) * Pow256(n)
  {
    if n > 0 {
      var k := n - 1;
      Pow256Add(m, k);
      var x, y, z := Pow256(m), Pow256(k), Pow256(m + k);
      assert Pow256(m + n) == 256 * z && Pow256(n) == 256 * y;
      MulShift(x, y);
    }
  }

  lemma Pow256Succ(n: nat)
    ensures Pow256(n + 1) == 256 * Pow256(n)
  {
  }

  lemma Pow256Monotone(m: nat, n: nat)
    requires m <= n
    ensures Pow256(m) <= Pow256(n)
  {
    Pow256Add(m, n - m);
  }

  /** Extending a prefix by one byte adds that byte at its weight. */
  lemma ValPrefixStep(s: seq<byte>, i: nat)
    requires i < |s|
    ensures Val(s[..i + 1]) == Val(s[..i]) + s[i] * Pow256(i)
  {
    assert s[..i + 1][..i] == s[..i];
  }

  /** A value of n bytes is below 256^n. */
  lemma {:induction false} ValBound(s: seq<byte>)
    ensures Val(s) < Pow256(|s|)
  {
    if |s| > 0 {
      var n := |s| - 1;
      ValBound(s[..n]);
      MulLeft(s[n], 255, Pow256(n));
    }
  }

  /** A value whose top byte is nonzero is at least 256^(n-1). */
  lemma ValLowerBound(s: seq<byte>)
    requires |s| > 0 && s[|s| - 1] != 0
    ensures Val(s) >= Pow256(|s| - 1)
  {
    MulLeft(1, s[|s| - 1], Pow256(|s| - 1));
  }

  /** Val of a sequence whose bytes at index k and above are zero. */
  lemma {:induction false} ValZeroTail(s: seq<byte>, k: nat)
    requires k <= |s|
    requires forall i :: k <= i < |s| ==> s[i] == 0
    ensures Val(s) == Val(s[..k])
  {
    if |s| > k {
      var n := |s| - 1;
      assert s[..n][..k] == s[..k];
      ValZeroTail(s[..n], k);
    } else {
      assert s[..k] == s;
    }
  }

  /** Val of n bytes 0xFF is 256^n - 1. */
  lemma {:induction false} ValAllOnes(s: seq<byte>)
    requires forall i :: 0 <= i < |s| ==> s[i] == 255
    ensures Val(s) == Pow256(|s|) - 1
  {
    if |s| > 0 {
      ValAllOnes(s[..|s| - 1]);
    }
  }

  /** Two sequences of the same length with the same value are equal. */
  lemma {:induction false} ValInjective(s: seq<byte>, t: seq<byte>)
    requires |s| == |t| && Val(s) == Val(t)
    ensures s == t
  {
    if |s| > 0 {
      var n := |s| - 1;
      ValBound(s[..n]);
      ValBound(t[..n]);
      // Both values split as low + top * 256^n with low < 256^n.
      DivModUnique(Val(s), Pow256(n), Val(s[..n]), s[n]);
      DivModUnique(Val(t), Pow256(n), Val(t[..n]), t[n]);
      ValInjective(s[..n], t[..n]);
      assert s == s[..n] + [s[n]];
      assert t == t[..n] + [t[n]];
    }
  }

  /** Val of a byte put in front of a sequence. */
  lemma {:induction false} ValCons(b: byte, t: seq<byte>)
    ensures Val([b] + t) == b + 256 * Val(t)
  {
    if |t| > 0 {
      var n := |t| - 1;
      var s := [b] + t;
      assert s[..n + 1] == [b] + t[..n];
      ValCons(b, t[..n]);
      var v, x, p := Val(t[..n]), t[n], Pow256(n);
      assert Val(s) == (b + 256 * v) + x * (256 * p);
      ConsArith(b, v, x, p);
    } else {
      assert [b] + t == [b];
      assert [b][..0] == [];
    }
  }

  lemma ConsArith(b: int, v: int, x: int, p: int)
    ensures (b + 256 * v) + x * (256 * p) == b + 256 * (v + x * p)
  {
  }

  // ---------------------------------------------------------------------------
  // Native integers as little-endian bytes
  // ---------------------------------------------------------------------------

  /** `to_le_bytes` of an n-byte native unsigned integer. */
  function ToLeBytes(v: nat, n: nat): (r: seq<byte>)
    requires v < Pow256(n)
    ensures |r| == n
    ensures Val(r) == v
  {
    if n == 0 then []
    else
      var rest := ToLeBytes(v / 256, n - 1);
      ValCons(v % 256, rest);
      [v % 256] + rest
  }

  /** `from_le_bytes`: the native integer denoted by n little-endian bytes. */
  function FromLeBytes(s: seq<byte>): (v: nat)
    ensures v < Pow256(|s|)
  {
    ValBound(s);
    Val(s)
  }

  /** The two native conversions are inverse to each other. */
  lemma LeBytesRoundTrip(s: seq<byte>)
    ensures ToLeBytes(FromLeBytes(s), |s|) == s
  {
    ValInjective(ToLeBytes(FromLeBytes(s), |s|), s);
  }
}
