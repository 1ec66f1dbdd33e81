/**
 * The Bloom filter of task_1.py: a byte array of `size` cells, all zero at
 * construction, in which every item sets `numHashes` digest-derived cells.
 *
 * The cells are modelled as booleans (the source only ever stores 0 and 1).
 * SHA-256 over the UTF-8 bytes of the item followed by the index bytes is a
 * parameter, `digest`, read as the big-endian number the source reduces.
 */
module Bloom {
  import opened Wrappers

  /** One byte of a digest input. */
  type Byte = b: nat | b < 256

  /** SHA-256 of (UTF-8 bytes of the item ++ suffix), as an unsigned big-endian number. */
  type Digest = (string, seq<Byte>) -> nat

  /** Indices are encoded on two bytes, so at most this many of them exist. */
  const MaxHashes: nat := 0x1_0000

  /** The parameters that determine an item's positions. */
  datatype HashFamily = HashFamily(size: nat, count: nat, digest: Digest)

  /** What the constructor of task_1.py checks: both parameters positive. */
  predicate SourceParamsOk(size: int, numHashes: int)
  {
    size > 0 && numHashes > 0
  }

  /**
   * What construction must check so that every index can be encoded: the
   * source's check plus `numHashes <= MaxHashes` (see AsWrittenHashes).
   */
  predicate ParamsOk(size: int, numHashes: int)
  {
    SourceParamsOk(size, numHashes) && numHashes <= MaxHashes
  }

  /** Little-endian decoding of a byte string. */
  function FromLittleEndian(bs: seq<Byte>): nat
  {
    if bs == [] then 0 else bs[0] + 256 * FromLittleEndian(bs[1..])
  }

  /** Python's `i.to_bytes(2, "little")`: OverflowError (None) when `i` needs more than two bytes. */
  function ToBytes2(i: nat): (r: Option<seq<Byte>>)
    ensures r.Some? <==> i < MaxHashes
    ensures r.Some? ==> |r.value| == 2 && FromLittleEndian(r.value) == i
  {
    if i < MaxHashes then
      var bs: seq<Byte> := [i % 256, i / 256];
      assert FromLittleEndian(bs[1..]) == i / 256 by {
        assert bs[1..][1..] == [];
      }
      assert i == i % 256 + 256 * (i / 256);
      Some(bs)
    else None
  }

  /** Two encodable indices with the same encoding are equal, so each index salts the digest differently. */
  lemma ToBytes2Injective(i: nat, j: nat)
    requires ToBytes2(i).Some? && ToBytes2(j).Some?
    ensures ToBytes2(i) == ToBytes2(j) ==> i == j
  {
  }

  /** The positions `_hashes` yields for an item, in order. */
  function Positions(f: HashFamily, item: string): (ps: seq<nat>)
    requires f.size > 0 && f.count <= MaxHashes
    ensures |ps| == f.count
    ensures forall i :: 0 <= i < |ps| ==> ps[i] < f.size
  {
    seq(f.count, i requires 0 <= i < f.count => f.digest(item, ToBytes2(i).value) % f.size)
  }

  /**
   * `_hashes` as written: the first `n` positions, or OverflowError as soon as
   * an index does not fit in two bytes.
   */
  function AsWrittenHashes(size: nat, digest: Digest, item: string, n: nat): (r: Result<seq<nat>>)
    requires size > 0
    ensures r.Ok? ==> |r.value| == n && forall i :: 0 <= i < n ==> r.value[i] < size
    ensures r.Err? ==> r.error == OverflowError
  {
    if n == 0 then Ok([])
    else
      match AsWrittenHashes(size, digest, item, n - 1)
      case Err(e) => Err(e)
      case Ok(ps) =>
        match ToBytes2(n - 1)
        case None => Err(OverflowError)
        case Some(bs) => Ok(ps + [digest(item, bs) % size])
  }

  /** The generator yields Positions exactly when every index is encodable, and fails otherwise. */
  lemma {:induction false} AsWrittenHashesMatch(size: nat, digest: Digest, item: string, n: nat)
    requires size > 0
    ensures n <= MaxHashes ==> AsWrittenHashes(size, digest, item, n) == Ok(Positions(HashFamily(size, n, digest), item))
    ensures n > MaxHashes ==> AsWrittenHashes(size, digest, item, n) == Err(OverflowError)
  {
    if n > 0 {
      AsWrittenHashesMatch(size, digest, item, n - 1);
      if n <= MaxHashes {
        var prev := Positions(HashFamily(size, n - 1, digest), item);
        var cur := Positions(HashFamily(size, n, digest), item);
        assert cur == prev + [digest(item, ToBytes2(n - 1).value) % size];
      }
    }
  }

  /** The source's constructor accepts a hash count for which every later `_hashes` call fails. */
  lemma ConstructorAcceptsUnencodableCount(digest: Digest, item: string)
    ensures SourceParamsOk(1, MaxHashes + 1) && !ParamsOk(1, MaxHashes + 1)
    ensures AsWrittenHashes(1, digest, item, MaxHashes + 1) == Err(OverflowError)
  {
    AsWrittenHashesMatch(1, digest, item, MaxHashes + 1);
  }

  /** Once construction rejects unencodable counts, `_hashes` of a constructed filter never fails. */
  lemma ValidFilterNeverOverflows(size: nat, numHashes: nat, digest: Digest, item: string)
    requires ParamsOk(size, numHashes)
    ensures AsWrittenHashes(size, digest, item, numHashes) == Ok(Positions(HashFamily(size, numHashes, digest), item))
  {
    AsWrittenHashesMatch(size, digest, item, numHashes);
  }

  /** All positions index into `b` and are set there (`all(self._bits[pos] for pos in ...)`). */
  predicate Member(b: seq<bool>, ps: seq<nat>): (r: bool)
    ensures ps == [] ==> r
    ensures r <==> forall k :: k in ps ==> k < |b| && b[k]
  {
    assert forall i :: 0 <= i < |ps| ==> ps[i] in ps;
    forall i :: 0 <= i < |ps| ==> ps[i] < |b| && b[ps[i]]
  }

  /** The cells after setting each of `ps` in turn, as the loop of `add` does. */
  function Insert(b: seq<bool>, ps: seq<nat>): (r: seq<bool>)
    requires forall i :: 0 <= i < |ps| ==> ps[i] < |b|
    ensures |r| == |b|
    ensures forall k :: 0 <= k < |b| && b[k] ==> r[k]
    ensures |ps| > 0 ==> r[ps[|ps| - 1]]
  {
    if ps == [] then b
    else Insert(b, ps[..|ps| - 1])[ps[|ps| - 1] := true]
  }

  /** A cell is set after Insert exactly when it was set before or is one of `ps`: nothing else changes, nothing is cleared. */
  lemma {:induction false} InsertAt(b: seq<bool>, ps: seq<nat>, k: nat)
    requires forall i :: 0 <= i < |ps| ==> ps[i] < |b|
    requires k < |b|
    ensures Insert(b, ps)[k] <==> b[k] || k in ps
  {
    if ps != [] {
      var init := ps[..|ps| - 1];
      InsertAt(b, init, k);
      assert ps == init + [ps[|ps| - 1]];
    }
  }

  /** After inserting `ps`, the item with those positions is a member. */
  lemma InsertIsMember(b: seq<bool>, ps: seq<nat>)
    requires forall i :: 0 <= i < |ps| ==> ps[i] < |b|
    ensures Member(Insert(b, ps), ps)
  {
    forall i | 0 <= i < |ps| ensures Insert(b, ps)[ps[i]] {
      InsertAt(b, ps, ps[i]);
    }
  }

  /** Insertion never removes a member. */
  lemma InsertKeepsMember(b: seq<bool>, ps: seq<nat>, qs: seq<nat>)
    requires forall i :: 0 <= i < |ps| ==> ps[i] < |b|
    requires Member(b, qs)
    ensures Member(Insert(b, ps), qs)
  {
    forall i | 0 <= i < |qs| ensures Insert(b, ps)[qs[i]] {
      InsertAt(b, ps, qs[i]);
    }
  }

  /** Inserting the same positions twice leaves the cells of a single insertion. */
  lemma InsertIdempotent(b: seq<bool>, ps: seq<nat>)
    requires forall i :: 0 <= i < |ps| ==> ps[i] < |b|
    ensures Insert(Insert(b, ps), ps) == Insert(b, ps)
  {
    var once := Insert(b, ps);
    forall k | 0 <= k < |b| ensures Insert(once, ps)[k] == once[k] {
      InsertAt(once, ps, k);
      InsertAt(b, ps, k);
    }
  }

  /** The cells after `add` of each item in turn. */
  function AddAll(f: HashFamily, b: seq<bool>, items: seq<string>): (r: seq<bool>)
    requires f.size > 0 && f.count <= MaxHashes && |b| == f.size
    ensures |r| == |b|
  {
    if items == [] then b
    else Insert(AddAll(f, b, items[..|items| - 1]), Positions(f, items[|items| - 1]))
  }

  /**
   * No false negatives: an added item tests as present after any sequence of
   * further adds, and so does an item that was present before.
   */
  lemma {:induction false} NoFalseNegatives(f: HashFamily, b: seq<bool>, items: seq<string>, x: string)
    requires f.size > 0 && f.count <= MaxHashes && |b| == f.size
    requires x in items || Member(b, Positions(f, x))
    ensures Member(AddAll(f, b, items), Positions(f, x))
  {
    var n := |items|;
    if n > 0 {
      var init, last := items[..n - 1], items[n - 1];
      var before := AddAll(f, b, init);
      if x == last {
        InsertIsMember(before, Positions(f, x));
      } else {
        assert x in items ==> x in init by {
          if x in items {
            var i :| 0 <= i < n && items[i] == x;
            assert init[i] == x;
          }
        }
        NoFalseNegatives(f, b, init, x);
        InsertKeepsMember(before, Positions(f, last), Positions(f, x));
      }
    }
  }

  class BloomFilter {
    const size: nat
    const numHashes: nat
    const digest: Digest
    const bits: array<bool>

    ghost predicate Valid()
    {
      ParamsOk(size, numHashes) && bits.Length == size
    }

    function Family(): HashFamily
    {
      HashFamily(size, numHashes, digest)
    }

    constructor (size: nat, numHashes: nat, digest: Digest)
      requires ParamsOk(size, numHashes)
      ensures Valid() && fresh(bits)
      ensures this.size == size && this.numHashes == numHashes && this.digest == digest
      ensures forall k :: 0 <= k < bits.Length ==> !bits[k]
    {
      this.size := size;
      this.numHashes := numHashes;
      this.digest := digest;
      bits := new bool[size](_ => false);
    }

    /** `item in bloom`: every hashed cell is set. Reads the cells only. */
    function Contains(item: string): (r: bool)
      requires Valid()
      reads bits
      ensures r <==> forall i :: 0 <= i < numHashes ==> bits[Positions(Family(), item)[i]]
    {
      Member(bits[..], Positions(Family(), item))
    }

    /** Sets every hashed cell of `item`. */
    method Add(item: string)
      requires Valid()
      modifies bits
      ensures bits[..] == Insert(old(bits[..]), Positions(Family(), item))
      ensures forall k :: 0 <= k < size ==> (bits[k] <==> old(bits[k]) || k in Positions(Family(), item))
      ensures Contains(item)
    {
      var ps := Positions(Family(), item);
      ghost var b0 := bits[..];
      for i := 0 to numHashes
        invariant bits[..] == Insert(b0, ps[..i])
      {
        assert ps[..i + 1][..i] == ps[..i];
        bits[ps[i]] := true;
      }
      assert ps[..numHashes] == ps;
      InsertIsMember(b0, ps);
      forall k | 0 <= k < size ensures bits[k] <==> b0[k] || k in ps {
        InsertAt(b0, ps, k);
      }
    }
  }

  /** `BloomFilter(size, num_hashes)`: ValueError unless both are positive and every index is encodable. */
  method NewBloomFilter(size: int, numHashes: int, digest: Digest) returns (r: Result<BloomFilter>)
    ensures r.Err? <==> !ParamsOk(size, numHashes)
    ensures r.Err? ==> r.error == ValueError
    ensures r.Ok? ==> fresh(r.value) && fresh(r.value.bits) && r.value.Valid()
    ensures r.Ok? ==> r.value.size == size && r.value.numHashes == numHashes && r.value.digest == digest
    ensures r.Ok? ==> forall k :: 0 <= k < r.value.bits.Length ==> !r.value.bits[k]
  {
    if !ParamsOk(size, numHashes) {
      return Err(ValueError);
    }
    var bloom := new BloomFilter(size, numHashes, digest);
    return Ok(bloom);
  }
}
