# Bloom filter and HyperLogLog register update

This project models the two append-only probabilistic structures of the
repository and proves their exact integer core:

- **Bloom filter** (`task_1.py`). A filter holds `size` cells, all clear at
  construction. `add` sets the `num_hashes` positions of an item, and the
  membership test checks that all of them are set. A position is the SHA-256
  digest of the item's bytes followed by the index `i` as two little-endian
  bytes, reduced modulo `size`. `check_password_uniqueness` sorts a batch of
  passwords into *invalid* (empty), *already used* (the filter says present)
  and *unique* (absent; the password is then added). The result is a
  dictionary keyed by password, so a repeated password keeps only its last
  status.
- **HyperLogLog** (`task_2.py`). The counter has `m = 2^p` registers, all zero
  at construction. `add` hashes the item to a 64-bit `x`. It picks register
  `j = x & (m - 1)` and raises it to `rho(x >> p)`, where
  `rho(w) = 64 - bit_length(w) + 1`, or 64 for `w = 0`.

The modules are:

- `Bloom` (bloom.dfy): positions, the cells on values (`Insert`, `Member`),
  and the class `BloomFilter` over an `array<bool>`.
- `Passwords` (passwords.dfy): the batch classification. `Classify` is a
  fold over the batch, and the method `CheckPasswordUniqueness` is proved
  against it.
- `Registers` (registers.dfy): `&`, `>>`, `bit_length` and `rho` on
  unbounded naturals, and the registers after one or many adds.
- `Counter` (hyperloglog.dfy): the class `HyperLogLog` over an `array<nat>`.
- `Wrappers` (wrappers.dfy): `Option`, `Result` and the exceptions raised.

The two hash functions are constructor parameters of function type.
`BloomFilter` takes `digest` for SHA-256, and `HyperLogLog` takes `hash64` for
the unsigned first half of mmh3's `hash64`. The properties proved hold for
every such function.

`rho` counts leading zeros against 64 bits, although `x >> p` has only
`64 - p` significant bits. The model keeps this behaviour:
`Registers.RhoOfRemainder` proves that every nonzero remainder gives at
least `p + 1`. Registers are bounded by 64.

The HyperLogLog constructor makes no range check of its own on `p`: a
negative `p` fails with ValueError from `1 << p`, and the failures of
allocating `m` registers for a large `p` are not modelled (see Left out).
Registers are bounded by 64, not by the textbook `64 - p + 1`. The middle
status is "вже використаний" ("already used"), modelled as `AlreadyUsed`.

## Model

| member | source | states |
|---|---|---|
| Bloom.ToBytes2 | task_1.py:17 | `i.to_bytes(2, "little")` succeeds exactly for `i < 65536`, gives two bytes, and those bytes decode back to `i` |
| Bloom.ToBytes2Injective | task_1.py:16-17 | distinct indices give distinct suffixes, so each index salts the digest differently |
| Bloom.Positions | task_1.py:14-18 | an item has exactly `num_hashes` positions, each in `[0, size)` |
| Bloom.AsWrittenHashes | task_1.py:14-18 | the generator run to the end either yields `n` positions, each below `size`, or raises OverflowError |
| Bloom.AsWrittenHashesMatch | task_1.py:14-18 | the generator as written yields `Positions` when `num_hashes <= 65536`, and raises OverflowError otherwise |
| Bloom.ConstructorAcceptsUnencodableCount | task_1.py:8-18 | the constructor accepts `size=1, num_hashes=65537`, yet `_hashes` raises OverflowError for every item |
| Bloom.ValidFilterNeverOverflows | task_1.py:8-18 | for parameters the corrected constructor accepts, `_hashes` never fails and yields `Positions` |
| Bloom.Member | task_1.py:24-25 | an item is present iff every one of its positions is a set cell; an item with no positions is present |
| Bloom.Insert | task_1.py:20-22 | the loop of `add` keeps the number of cells, never clears a cell, and sets the last position it visits |
| Bloom.InsertAt | task_1.py:20-22 | after `add`, a cell is set iff it was set before or is one of the item's positions: those positions are set, no other cell changes, no cell is cleared |
| Bloom.InsertIsMember | task_1.py:20-25 | after `add(x)`, `x in bloom` holds |
| Bloom.InsertKeepsMember | task_1.py:20-25 | `add` never makes a present item absent |
| Bloom.InsertIdempotent | task_1.py:20-22 | `add(x); add(x)` leaves the same cells as one `add(x)` |
| Bloom.NoFalseNegatives | task_1.py:20-25 | an added item, or one present beforehand, tests present after any further sequence of adds |
| Bloom.BloomFilter.constructor | task_1.py:10-12 | the filter keeps `size` and `num_hashes`, and has `size` fresh cells, all clear |
| Bloom.BloomFilter.Contains | task_1.py:24-25 | membership is true iff every cell at the item's positions is set; reads the cells only |
| Bloom.BloomFilter.Add | task_1.py:20-22 | the new cells are the old cells with exactly the item's positions set; afterwards the item is present |
| Bloom.NewBloomFilter | task_1.py:7-12 | ValueError iff `size <= 0` or `num_hashes <= 0` (or, corrected, `num_hashes > 65536`); otherwise a fresh all-clear filter of length `size` |
| Passwords.Step | task_1.py:32-41 | one iteration adds exactly the password to the keys and leaves the other entries; the status is invalid iff the password is empty, unique iff it is non-empty and was absent; a non-empty password is present afterwards; no cell is cleared |
| Passwords.Classify | task_1.py:30-42 | the whole loop keeps the filter's shape, and only the empty password is ever marked invalid |
| Passwords.ClassifyKeys | task_1.py:31-41 | the result's keys are exactly the passwords of the batch |
| Passwords.ClassifyGrows | task_1.py:37-41 | classifying a batch never clears a cell of the filter |
| Passwords.ClassifiedAreMembers | task_1.py:33-41 | every non-empty password of the batch is in the filter afterwards |
| Passwords.UniqueAreMembers | task_1.py:39-41 | every password marked unique is in the filter afterwards |
| Passwords.EmptyIsInvalid | task_1.py:33-35 | the empty password, when present, is marked invalid |
| Passwords.EmptyLeavesFilter | task_1.py:33-35 | empty passwords do not touch the filter: the final cells equal those of the batch without them |
| Passwords.RepeatedAreAlreadyUsed | task_1.py:37-41 | a non-empty password occurring twice in the batch ends up marked already used |
| Passwords.PresentBeforeIsAlreadyUsed | task_1.py:37-41 | a non-empty password already present in the filter before the batch ends up marked already used |
| Passwords.CheckPasswordUniqueness | task_1.py:30-42 | the new cells and the result are those of the left-to-right classification; the keys are the batch's passwords; every unique password tests present |
| Registers.LowMaskIsMod | task_2.py:41-42 | `x & (2^p - 1) == x % 2^p` and `x >> p == x / 2^p` for every natural `x` |
| Registers.RegisterIndex | task_2.py:41 | the register index is `x mod m`, hence below `m` |
| Registers.BitAnd | task_2.py:41 | `a & b` of naturals is at most each operand |
| Registers.ShiftRight | task_2.py:42 | `x >> p` never exceeds `x`, and is strictly below a positive `x` when `p > 0` |
| Registers.BitLength | task_2.py:37 | `bit_length` meets Python's definition: 0 for `w = 0`; `w < 2^n`, and `2^(n-1) <= w` for `w > 0` |
| Registers.BitLengthBound | task_2.py:37 | `bit_length(w) <= n` iff `w < 2^n` |
| Registers.Rho | task_2.py:36-37 | on a 64-bit value, `rho` lies in `[1, 64]`; it is 64 exactly for `w <= 1` |
| Registers.RemainderVanishes | task_2.py:42 | for `p >= n`, `x >> p` is 0 for every `x < 2^n` |
| Registers.RemainderBound | task_2.py:42 | for `p <= n`, `x >> p` is below `2^(n-p)` for every `x < 2^n` |
| Registers.RemainderBits | task_2.py:37-42 | a nonzero `x >> p` of an `x < 2^n` implies `p < n` and has at most `n - p` bits |
| Registers.RhoOfRemainder | task_2.py:37-42 | a nonzero remainder `x >> p` implies `p < 64` and `p + 1 <= rho <= 64` |
| Registers.Update | task_2.py:39-43 | an add keeps the number of registers, changes only register `x mod m`, never lowers a register, and leaves register `x mod m` at least `rho(x >> p)` |
| Registers.UpdateBounded | task_2.py:37-43 | an add keeps every register within `[0, 64]` |
| Registers.UpdateIdempotent | task_2.py:39-43 | adding the same item twice leaves the registers of one add |
| Registers.UpdateCommutes | task_2.py:39-43 | two adds give the same registers in either order |
| Registers.AddAllProperties | task_2.py:39-43 | across any sequence of adds, registers never decrease, stay within `[0, 64]`, and every added item's register is at least its `rho` |
| Registers.CountZeros | task_2.py:49 | the count `V` of zero registers is at most the number of registers |
| Registers.CountZerosBounds | task_2.py:49-50 | `V == m` iff all registers are zero; `V > 0` iff some register is zero |
| Counter.HyperLogLog.constructor | task_2.py:17-20 | `m == 2^p`, with `m` fresh registers, all zero, so `V == m` |
| Counter.HyperLogLog.Add | task_2.py:39-43 | the register `x mod m` becomes `max(old, rho(x >> p))`; every other register is unchanged; registers stay within `[0, 64]` |
| Counter.HyperLogLog.ZeroRegisters | task_2.py:49 | computes `V`, the number of zero registers, without modifying them |
| Counter.NewHyperLogLog | task_2.py:17-20 | ValueError iff `p < 0`; otherwise `m == 2^p` fresh registers, all zero |

## Findings

| source | as written | input that shows it | evidently intended | confidence | as-written member | corrected member |
|---|---|---|---|---|---|---|
| task_1.py:8-18 | the constructor accepts any positive `num_hashes`, but `i.to_bytes(2, "little")` raises OverflowError for `i >= 65536`; every `add` then fails, but only after setting the cells at the first 65536 positions; a membership test stops at the first clear cell, so it fails only when the cells at the first 65536 positions are all set | `BloomFilter(size=1, num_hashes=65537)`, then `add("x")` | the constructor should reject a hash count whose indices cannot all be encoded | high; not executed | Bloom.ConstructorAcceptsUnencodableCount | Bloom.ValidFilterNeverOverflows |

The rest of the model uses the corrected check. `Bloom.ParamsOk` adds
`num_hashes <= 65536` to the source's `Bloom.SourceParamsOk`.
`Bloom.NewBloomFilter` raises ValueError when that check fails.

## Left out

- SHA-256 and the UTF-8 encoding of the item (task_1.py:15-17) are foreign library calls. They are the `digest` parameter.
- mmh3 `hash64` and `str(item)` (task_2.py:33-34, 40) are foreign library calls. They are the `hash64` parameter.
- `_get_alpha`, `alpha` and `small_range_correction` are floating-point values (task_2.py:21-31). So are `Z`, `E`, `math.log` and the value `count` returns (task_2.py:45-52). Only `V`, the exact count of zero registers, is modelled.
- Statistical properties are not provable from the code: the false-positive rate of the filter and the accuracy of the estimate.
- `load_ips` (task_2.py:56-65) is file I/O and JSON parsing.
- Both `main` blocks (task_1.py:44-59, task_2.py:68-94) are printing and timing. So are `LOGFILE` and `PRECISION` (task_2.py:12-13). The precision is a constructor argument instead.
- The cells of the filter are booleans, not bytes. The source stores only 0 and 1 in its `bytearray`.
- A Python `Iterable` of passwords is modelled as a finite sequence.
- Running out of memory for a huge `size` or `p` is not modelled.
- `[0] * self.m` (task_2.py:20) raises OverflowError on a 64-bit CPython for `p >= 63`, since `m` does not fit an index. `Counter.NewHyperLogLog` does not model this platform limit and succeeds for every `p >= 0`.
- `bytearray(size)` (task_1.py:12) raises OverflowError for `size >= 2^63` on a 64-bit CPython. `Bloom.NewBloomFilter` does not model this platform limit.
- The result dictionary of `check_password_uniqueness` keeps first-insertion order, which a caller sees when iterating it (task_1.py:58). The model's `map` keeps keys and statuses but not that order.
- A password containing a lone surrogate makes `item.encode` (task_1.py:15) raise UnicodeEncodeError. A Dafny `string` holds only Unicode scalar values, so such a password cannot be expressed.
- Bloom.NewBloomFilter: rejects `num_hashes > 65536`, which the source accepts (see Findings). So the partial update of an `add` that overflows part-way is not modelled.
