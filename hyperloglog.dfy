/**
 * The HyperLogLog counter of task_2.py: `m = 2 ** p` registers, all zero at
 * construction, updated in place by `add`.
 *
 * The 64-bit hash (mmh3 `hash64`, unsigned, first half) is a parameter,
 * `hash64`, fixed at construction.
 */
module Counter {
  import opened Wrappers
  import opened Registers

  class HyperLogLog {
    const p: nat
    const m: nat
    const registers: array<nat>
    const hash64: string -> Word64

    ghost predicate Valid()
      reads registers
    {
      m == Pow2(p) && registers.Length == m && Bounded(registers[..])
    }

    constructor (p: nat, hash64: string -> Word64)
      ensures Valid() && fresh(registers)
      ensures this.p == p && m == Pow2(p) && this.hash64 == hash64
      ensures forall k :: 0 <= k < m ==> registers[k] == 0
      ensures CountZeros(registers[..]) == m
    {
      this.p := p;
      m := Pow2(p);
      this.hash64 := hash64;
      registers := new nat[Pow2(p)](_ => 0);
      new;
      CountZerosBounds(registers[..]);
    }

    /** `add(item)`: raise register `x & (m - 1)` to at least `rho(x >> p)`. */
    method Add(item: string)
      requires Valid()
      modifies registers
      ensures Valid()
      ensures registers[..] == Update(old(registers[..]), p, hash64(item))
      ensures forall k :: 0 <= k < m && k != hash64(item) % m ==> registers[k] == old(registers[k])
      ensures registers[hash64(item) % m] == Max(old(registers[hash64(item) % m]), Rho(ShiftRight(hash64(item), p)))
    {
      var x := hash64(item);
      var j := BitAnd(x, m - 1);
      var w := ShiftRight(x, p);
      LowMaskIsMod(x, p);
      ghost var before := registers[..];
      registers[j] := Max(registers[j], Rho(w));
      UpdateBounded(before, p, x);
    }

    /** `V = self.registers.count(0)` of `count`: reads the registers only. */
    method ZeroRegisters() returns (v: nat)
      requires Valid()
      ensures v == CountZeros(registers[..])
    {
      v := 0;
      for i := 0 to m
        invariant v == CountZeros(registers[..i])
      {
        assert registers[..i + 1][..i] == registers[..i];
        if registers[i] == 0 {
          v := v + 1;
        }
      }
      assert registers[..m] == registers[..];
    }
  }

  /**
   * `HyperLogLog(p)`: the constructor makes no check of its own, and `1 << p`
   * raises ValueError for a negative `p`. Allocation failures for a large
   * `p` are not modelled.
   */
  method NewHyperLogLog(p: int, hash64: string -> Word64) returns (r: Result<HyperLogLog>)
    ensures r.Err? <==> p < 0
    ensures r.Err? ==> r.error == ValueError
    ensures r.Ok? ==> fresh(r.value) && fresh(r.value.registers) && r.value.Valid()
    ensures r.Ok? ==> r.value.p == p && r.value.m == Pow2(p) && r.value.hash64 == hash64
    ensures r.Ok? ==> forall k :: 0 <= k < r.value.m ==> r.value.registers[k] == 0
  {
    if p < 0 {
      return Err(ValueError);
    }
    var hll := new HyperLogLog(p, hash64);
    return Ok(hll);
  }
}
