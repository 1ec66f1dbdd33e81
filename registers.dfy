/**
 * The integer core of the HyperLogLog register update of task_2.py, on
 * values: the index `x & (m - 1)`, the remainder `x >> p`, `rho` with its
 * `bit_length`, and the register sequence after one or many adds.
 */
module Registers {

  /** The width of the 64-bit hash. */
  const HashWidth: nat := 64

  /** `1 << n`. */
  function Pow2(n: nat): (r: nat)
    ensures r >= 1
  {
    if n == 0 then 1 else 2 * Pow2(n - 1)
  }

  /** An unsigned 64-bit hash value: below `2 ** 64`. */
  type Word64 = x: nat | x < Pow2(HashWidth) witness 0

  lemma Double(u: nat, v: nat)
    ensures 2 * (u * v) == (2 * u) * v
  {
  }

  lemma {:induction false} Pow2Add(a: nat, b: nat)
    ensures Pow2(a + b) == Pow2(a) * Pow2(b)
  {
    if a > 0 {
      Pow2Add(a - 1, b);
      assert Pow2(a + b) == 2 * Pow2(a - 1 + b);
      Double(Pow2(a - 1), Pow2(b));
    }
  }

  lemma {:induction false} Pow2Monotone(a: nat, b: nat)
    requires a <= b
    ensures Pow2(a) <= Pow2(b)
  {
    if a < b {
      Pow2Monotone(a, b - 1);
    }
  }

  /** Python's `a & b` on non-negative integers, one bit at a time from the least significant. */
  function BitAnd(a: nat, b: nat): (r: nat)
    ensures r <= a && r <= b
  {
    if a == 0 || b == 0 then 0
    else 2 * BitAnd(a / 2, b / 2) + (if a % 2 == 1 && b % 2 == 1 then 1 else 0)
  }

  /** Python's `x >> p` on a non-negative `x`: `p` halvings, each dropping the lowest bit. */
  function ShiftRight(x: nat, p: nat): (r: nat)
    ensures r <= x
    ensures p > 0 && x > 0 ==> r < x
  {
    if p == 0 then x else ShiftRight(x / 2, p - 1)
  }

  lemma MulMono(d: nat, a: nat, b: nat)
    requires a <= b
    ensures d * a <= d * b
  {
    assert d * b == d * a + d * (b - a);
  }

  lemma MulGap(d: nat, a: nat, b: nat)
    requires a < b
    ensures d * a + d <= d * b
  {
    MulMono(d, a + 1, b);
    assert d * (a + 1) == d * a + d;
  }

  lemma DivMod(x: nat, d: nat)
    requires d > 0
    ensures x == d * (x / d) + x % d && 0 <= x % d < d
  {
  }

  /** Quotient and remainder are the only such pair. */
  lemma ModUnique(x: nat, d: nat, t: nat, r: nat)
    requires d > 0 && r < d && x == d * t + r
    ensures x % d == r && x / d == t
  {
    var t' := x / d;
    DivMod(x, d);
    if t' < t {
      MulGap(d, t', t);
    } else if t' > t {
      MulGap(d, t, t');
    }
  }

  lemma BitAndOdd(x: nat, k: nat)
    ensures BitAnd(x, 2 * k + 1) == 2 * BitAnd(x / 2, k) + x % 2
  {
    assert (2 * k + 1) / 2 == k && (2 * k + 1) % 2 == 1;
  }

  lemma Combine(x: nat, h: nat, bit: nat, q: nat, s: nat, low: nat)
    requires x == 2 * h + bit && bit < 2
    requires h == q * s + low && low < q
    ensures x == (2 * q) * s + (2 * low + bit) && 2 * low + bit < 2 * q
  {
    Double(q, s);
  }

  /** `x` is `x >> p` shifted back up, plus the low bits `x & (2 ** p - 1)`, which lie below `2 ** p`. */
  lemma {:induction false} SplitAt(x: nat, p: nat)
    ensures BitAnd(x, Pow2(p) - 1) < Pow2(p)
    ensures x == Pow2(p) * ShiftRight(x, p) + BitAnd(x, Pow2(p) - 1)
  {
    if p > 0 {
      var q := Pow2(p - 1);
      var s, low := ShiftRight(x / 2, p - 1), BitAnd(x / 2, q - 1);
      assert x / 2 == q * s + low && low < q by {
        SplitAt(x / 2, p - 1);
      }
      assert BitAnd(x, Pow2(p) - 1) == 2 * low + x % 2 by {
        BitAndOdd(x, q - 1);
      }
      assert Pow2(p) == 2 * q && ShiftRight(x, p) == s;
      Combine(x, x / 2, x % 2, q, s, low);
    }
  }

  /**
   * Masking with `m - 1` for `m == 2 ** p` is reduction modulo `m`, and
   * shifting right by `p` is division by `m`.
   */
  lemma LowMaskIsMod(x: nat, p: nat)
    ensures BitAnd(x, Pow2(p) - 1) == x % Pow2(p)
    ensures ShiftRight(x, p) == x / Pow2(p)
  {
    SplitAt(x, p);
    ModUnique(x, Pow2(p), ShiftRight(x, p), BitAnd(x, Pow2(p) - 1));
  }

  /** The register `x` updates: `j = x & (m - 1)`. */
  function RegisterIndex(x: nat, p: nat): (j: nat)
    ensures j == x % Pow2(p) && j < Pow2(p)
  {
    LowMaskIsMod(x, p);
    BitAnd(x, Pow2(p) - 1)
  }

  /** Python's `w.bit_length()` on a non-negative `w`. */
  function BitLength(w: nat): (n: nat)
    ensures w == 0 ==> n == 0
    ensures w < Pow2(n)
    ensures w > 0 ==> n >= 1 && Pow2(n - 1) <= w
  {
    if w == 0 then 0 else 1 + BitLength(w / 2)
  }

  /** `w` has at most `n` bits exactly when it is below `2 ** n`. */
  lemma BitLengthBound(w: nat, n: nat)
    ensures BitLength(w) <= n <==> w < Pow2(n)
  {
    if BitLength(w) <= n {
      Pow2Monotone(BitLength(w), n);
    } else {
      Pow2Monotone(n, BitLength(w) - 1);
    }
  }

  /** `_rho`: leading zeros of `w` counted in a 64-bit word, plus one; 64 for zero. */
  function Rho(w: nat): (r: int)
    ensures w < Pow2(HashWidth) ==> 1 <= r <= HashWidth
    ensures r == HashWidth <==> w <= 1
  {
    BitLengthBound(w, HashWidth);
    if w != 0 then (HashWidth - BitLength(w)) + 1 else HashWidth
  }

  /** A quotient is below `r` when the dividend is below `q * r`. */
  lemma QuotientBelow(x: nat, q: nat, w: nat, low: nat, r: nat)
    requires x == q * w + low && x < q * r
    ensures w < r
  {
    if w >= r {
      MulMono(q, r, w);
    }
  }

  /** With `p >= n` nothing of an `n`-bit value remains after the shift. */
  lemma RemainderVanishes(x: nat, n: nat, p: nat)
    requires x < Pow2(n) && p >= n
    ensures ShiftRight(x, p) == 0
  {
    Pow2Monotone(n, p);
    SplitAt(x, p);
    QuotientBelow(x, Pow2(p), ShiftRight(x, p), BitAnd(x, Pow2(p) - 1), 1);
  }

  /** Otherwise the remainder of an `n`-bit value lies below `2 ** (n - p)`. */
  lemma RemainderBound(x: nat, n: nat, p: nat)
    requires x < Pow2(n) && p <= n
    ensures ShiftRight(x, p) < Pow2(n - p)
  {
    Pow2Add(p, n - p);
    SplitAt(x, p);
    QuotientBelow(x, Pow2(p), ShiftRight(x, p), BitAnd(x, Pow2(p) - 1), Pow2(n - p));
  }

  /** A nonzero remainder of an `n`-bit value has at most `n - p` bits, and then `p < n`. */
  lemma RemainderBits(x: nat, n: nat, p: nat)
    requires x < Pow2(n)
    ensures ShiftRight(x, p) != 0 ==> p < n && BitLength(ShiftRight(x, p)) <= n - p
  {
    if p >= n {
      RemainderVanishes(x, n, p);
    } else {
      RemainderBound(x, n, p);
      BitLengthBound(ShiftRight(x, p), n - p);
    }
  }

  /**
   * Since `rho` counts leading zeros against 64 bits although the remainder
   * `x >> p` has only `64 - p` of them, a nonzero remainder gives at least `p + 1`.
   */
  lemma RhoOfRemainder(x: Word64, p: nat)
    requires ShiftRight(x, p) != 0
    ensures p < HashWidth
    ensures p + 1 <= Rho(ShiftRight(x, p)) <= HashWidth
  {
    RemainderBits(x, HashWidth, p);
  }

  function Max(a: nat, b: int): nat
  {
    if a >= b then a else b
  }

  /** The registers after `add` of a value whose hash is `x`. */
  function Update(regs: seq<nat>, p: nat, x: Word64): (r: seq<nat>)
    requires |regs| == Pow2(p)
    ensures |r| == |regs|
    ensures forall k :: 0 <= k < |regs| && k != x % Pow2(p) ==> r[k] == regs[k]
    ensures forall k :: 0 <= k < |regs| ==> r[k] >= regs[k]
    ensures r[x % Pow2(p)] >= Rho(ShiftRight(x, p))
  {
    var j := RegisterIndex(x, p);
    regs[j := Max(regs[j], Rho(ShiftRight(x, p)))]
  }

  /** Every register holds a value in `[0, 64]`. */
  predicate Bounded(regs: seq<nat>)
  {
    forall k :: 0 <= k < |regs| ==> regs[k] <= HashWidth
  }

  /** Updates keep every register within `[0, 64]`. */
  lemma UpdateBounded(regs: seq<nat>, p: nat, x: Word64)
    requires |regs| == Pow2(p) && Bounded(regs)
    ensures Bounded(Update(regs, p, x))
  {
  }

  /** Adding the same hash twice leaves the registers of a single add. */
  lemma UpdateIdempotent(regs: seq<nat>, p: nat, x: Word64)
    requires |regs| == Pow2(p)
    ensures Update(Update(regs, p, x), p, x) == Update(regs, p, x)
  {
  }

  /** The order of two adds does not matter. */
  lemma UpdateCommutes(regs: seq<nat>, p: nat, x: Word64, y: Word64)
    requires |regs| == Pow2(p)
    ensures Update(Update(regs, p, x), p, y) == Update(Update(regs, p, y), p, x)
  {
    var jx, jy := RegisterIndex(x, p), RegisterIndex(y, p);
    var rx, ry := Rho(ShiftRight(x, p)), Rho(ShiftRight(y, p));
    var xy, yx := Update(Update(regs, p, x), p, y), Update(Update(regs, p, y), p, x);
    forall k | 0 <= k < |regs| ensures xy[k] == yx[k] {
      if k == jx && k == jy {
        assert xy[k] == Max(Max(regs[k], rx), ry) && yx[k] == Max(Max(regs[k], ry), rx);
      }
    }
  }

  /** The registers after `add` of each item in turn. */
  function AddAll(regs: seq<nat>, p: nat, hash64: string -> Word64, items: seq<string>): (r: seq<nat>)
    requires |regs| == Pow2(p)
    ensures |r| == |regs|
  {
    if items == [] then regs
    else Update(AddAll(regs, p, hash64, items[..|items| - 1]), p, hash64(items[|items| - 1]))
  }

  /**
   * Across any sequence of adds the registers never decrease, stay within
   * `[0, 64]`, and every added item's register holds at least its `rho`.
   */
  lemma {:induction false} AddAllProperties(regs: seq<nat>, p: nat, hash64: string -> Word64, items: seq<string>)
    requires |regs| == Pow2(p) && Bounded(regs)
    ensures Bounded(AddAll(regs, p, hash64, items))
    ensures forall k :: 0 <= k < |regs| ==> AddAll(regs, p, hash64, items)[k] >= regs[k]
    ensures forall y :: y in items ==>
      AddAll(regs, p, hash64, items)[hash64(y) % Pow2(p)] >= Rho(ShiftRight(hash64(y), p))
  {
    if items != [] {
      var init, last := items[..|items| - 1], items[|items| - 1];
      var before := AddAll(regs, p, hash64, init);
      AddAllProperties(regs, p, hash64, init);
      UpdateBounded(before, p, hash64(last));
      forall y | y in items
        ensures AddAll(regs, p, hash64, items)[hash64(y) % Pow2(p)] >= Rho(ShiftRight(hash64(y), p))
      {
        if y != last {
          var i :| 0 <= i < |items| && items[i] == y;
          assert init[i] == y;
        }
      }
    }
  }

  /** `self.registers.count(0)`. */
  function CountZeros(regs: seq<nat>): (v: nat)
    ensures v <= |regs|
  {
    if regs == [] then 0
    else CountZeros(regs[..|regs| - 1]) + (if regs[|regs| - 1] == 0 then 1 else 0)
  }

  /**
   * `V` is the register count exactly when every register is zero, and
   * positive exactly when some register is zero.
   */
  lemma {:induction false} CountZerosBounds(regs: seq<nat>)
    ensures CountZeros(regs) == |regs| <==> forall k :: 0 <= k < |regs| ==> regs[k] == 0
    ensures CountZeros(regs) > 0 <==> exists k :: 0 <= k < |regs| && regs[k] == 0
  {
    if regs != [] {
      var init := regs[..|regs| - 1];
      CountZerosBounds(init);
      assert forall k :: 0 <= k < |init| ==> init[k] == regs[k];
      if regs[|regs| - 1] != 0 && CountZeros(regs) > 0 {
        var k :| 0 <= k < |init| && init[k] == 0;
        assert regs[k] == 0;
      }
    }
  }
}
