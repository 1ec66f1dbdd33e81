/**
 * `check_password_uniqueness` of task_1.py: classify a batch of passwords
 * against a Bloom filter, adding every password found unique.
 *
 * The result is a dictionary keyed by password, so a password that occurs
 * several times keeps only its last classification.
 */
module Passwords {
  import opened Bloom

  /** "некоректний пароль", "вже використаний", "унікальний". */
  datatype Status = Invalid | AlreadyUsed | Unique

  /** The filter's cells and the result dictionary part-way through a batch. */
  datatype Batch = Batch(bits: seq<bool>, results: map<string, Status>)

  predicate Fits(f: HashFamily, b: seq<bool>)
  {
    f.size > 0 && f.count <= MaxHashes && |b| == f.size
  }

  /** One iteration of the loop over the batch. */
  function Step(f: HashFamily, st: Batch, pwd: string): (r: Batch)
    requires Fits(f, st.bits)
    ensures Fits(f, r.bits)
    ensures r.results.Keys == st.results.Keys + {pwd}
    ensures forall q :: q in st.results && q != pwd ==> r.results[q] == st.results[q]
    ensures r.results[pwd] == Invalid <==> pwd == ""
    ensures r.results[pwd] == Unique <==> pwd != "" && !Member(st.bits, Positions(f, pwd))
    ensures pwd != "" ==> Member(r.bits, Positions(f, pwd))
    ensures forall k :: 0 <= k < |st.bits| && st.bits[k] ==> r.bits[k]
  {
    if pwd == "" then
      Batch(st.bits, st.results[pwd := Invalid])
    else if Member(st.bits, Positions(f, pwd)) then
      Batch(st.bits, st.results[pwd := AlreadyUsed])
    else
      InsertIsMember(st.bits, Positions(f, pwd));
      Batch(Insert(st.bits, Positions(f, pwd)), st.results[pwd := Unique])
  }

  /** The filter's cells and the results after the whole batch, starting from cells `b` and no results. */
  function Classify(f: HashFamily, b: seq<bool>, pwds: seq<string>): (r: Batch)
    requires Fits(f, b)
    ensures Fits(f, r.bits)
    ensures forall q :: q in r.results && r.results[q] == Invalid ==> q == ""
  {
    if pwds == [] then Batch(b, map[])
    else Step(f, Classify(f, b, pwds[..|pwds| - 1]), pwds[|pwds| - 1])
  }

  /** The batch with its empty passwords removed. */
  function NonEmpty(pwds: seq<string>): (r: seq<string>)
    ensures forall p :: p in r <==> p in pwds && p != ""
  {
    if pwds == [] then []
    else if pwds[|pwds| - 1] == "" then NonEmpty(pwds[..|pwds| - 1])
    else NonEmpty(pwds[..|pwds| - 1]) + [pwds[|pwds| - 1]]
  }

  /** The result's keys are exactly the passwords of the batch. */
  lemma {:induction false} ClassifyKeys(f: HashFamily, b: seq<bool>, pwds: seq<string>)
    requires Fits(f, b)
    ensures Classify(f, b, pwds).results.Keys == set p | p in pwds
  {
    if pwds != [] {
      var init := pwds[..|pwds| - 1];
      ClassifyKeys(f, b, init);
      assert pwds == init + [pwds[|pwds| - 1]];
    }
  }

  /** Classifying never clears a cell. */
  lemma {:induction false} ClassifyGrows(f: HashFamily, b: seq<bool>, pwds: seq<string>, k: nat)
    requires Fits(f, b) && k < |b| && b[k]
    ensures Classify(f, b, pwds).bits[k]
  {
    if pwds != [] {
      var init, last := pwds[..|pwds| - 1], pwds[|pwds| - 1];
      ClassifyGrows(f, b, init, k);
      var st := Classify(f, b, init);
      if last != "" && !Member(st.bits, Positions(f, last)) {
        InsertAt(st.bits, Positions(f, last), k);
      }
    }
  }

  /** Every non-empty password of the batch is in the filter afterwards. */
  lemma {:induction false} ClassifiedAreMembers(f: HashFamily, b: seq<bool>, pwds: seq<string>, p: string)
    requires Fits(f, b) && p != "" && p in pwds
    ensures Member(Classify(f, b, pwds).bits, Positions(f, p))
  {
    var init, last := pwds[..|pwds| - 1], pwds[|pwds| - 1];
    var st := Classify(f, b, init);
    if p == last {
      if !Member(st.bits, Positions(f, p)) {
        InsertIsMember(st.bits, Positions(f, p));
      }
    } else {
      assert p in init by {
        var i :| 0 <= i < |pwds| && pwds[i] == p;
        assert init[i] == p;
      }
      ClassifiedAreMembers(f, b, init, p);
      if last != "" && !Member(st.bits, Positions(f, last)) {
        InsertKeepsMember(st.bits, Positions(f, last), Positions(f, p));
      }
    }
  }

  /** A password marked unique is in the filter afterwards. */
  lemma UniqueAreMembers(f: HashFamily, b: seq<bool>, pwds: seq<string>, p: string)
    requires Fits(f, b)
    requires p in Classify(f, b, pwds).results && Classify(f, b, pwds).results[p] == Unique
    ensures Member(Classify(f, b, pwds).bits, Positions(f, p))
  {
    ClassifyKeys(f, b, pwds);
    assert p != "" by {
      if p == "" {
        EmptyIsInvalid(f, b, pwds);
      }
    }
    ClassifiedAreMembers(f, b, pwds, p);
  }

  /** The empty password, when present, is classified invalid. */
  lemma {:induction false} EmptyIsInvalid(f: HashFamily, b: seq<bool>, pwds: seq<string>)
    requires Fits(f, b) && "" in pwds
    ensures "" in Classify(f, b, pwds).results && Classify(f, b, pwds).results[""] == Invalid
  {
    var init, last := pwds[..|pwds| - 1], pwds[|pwds| - 1];
    if last != "" {
      assert "" in init by {
        var i :| 0 <= i < |pwds| && pwds[i] == "";
        assert init[i] == "";
      }
      EmptyIsInvalid(f, b, init);
    }
  }

  /** Empty passwords leave the filter unchanged: the cells are those of the batch without them. */
  lemma {:induction false} EmptyLeavesFilter(f: HashFamily, b: seq<bool>, pwds: seq<string>)
    requires Fits(f, b)
    ensures Classify(f, b, pwds).bits == Classify(f, b, NonEmpty(pwds)).bits
  {
    if pwds != [] {
      var init, last := pwds[..|pwds| - 1], pwds[|pwds| - 1];
      EmptyLeavesFilter(f, b, init);
      if last != "" {
        var ne := NonEmpty(pwds);
        assert ne[..|ne| - 1] == NonEmpty(init);
      }
    }
  }

  /** A non-empty password that occurs twice in the batch ends up marked already used. */
  lemma {:induction false} RepeatedAreAlreadyUsed(f: HashFamily, b: seq<bool>, pwds: seq<string>, i: nat, j: nat)
    requires Fits(f, b)
    requires i < j < |pwds| && pwds[i] == pwds[j] != ""
    ensures pwds[j] in Classify(f, b, pwds).results
    ensures Classify(f, b, pwds).results[pwds[j]] == AlreadyUsed
  {
    var n := |pwds|;
    var init, last := pwds[..n - 1], pwds[n - 1];
    var p := pwds[j];
    if last == p {
      assert init[i] == p;
      ClassifiedAreMembers(f, b, init, p);
    } else {
      assert init[i] == p && init[j] == p;
      RepeatedAreAlreadyUsed(f, b, init, i, j);
    }
  }

  /** A non-empty password already present in the starting filter ends up marked already used. */
  lemma {:induction false} PresentBeforeIsAlreadyUsed(f: HashFamily, b: seq<bool>, pwds: seq<string>, p: string)
    requires Fits(f, b) && p != "" && p in pwds && Member(b, Positions(f, p))
    ensures p in Classify(f, b, pwds).results
    ensures Classify(f, b, pwds).results[p] == AlreadyUsed
  {
    var init, last := pwds[..|pwds| - 1], pwds[|pwds| - 1];
    var ps := Positions(f, p);
    if p == last {
      forall i | 0 <= i < |ps| ensures Classify(f, b, init).bits[ps[i]] {
        ClassifyGrows(f, b, init, ps[i]);
      }
    } else {
      assert p in init by {
        var i :| 0 <= i < |pwds| && pwds[i] == p;
        assert init[i] == p;
      }
      PresentBeforeIsAlreadyUsed(f, b, init, p);
      ClassifyKeys(f, b, init);
    }
  }

  /** `check_password_uniqueness(bloom, passwords)`. */
  method CheckPasswordUniqueness(bloom: BloomFilter, passwords: seq<string>) returns (results: map<string, Status>)
    requires bloom.Valid()
    modifies bloom.bits
    ensures Batch(bloom.bits[..], results) == Classify(bloom.Family(), old(bloom.bits[..]), passwords)
    ensures results.Keys == set p | p in passwords
    ensures forall p :: p in results && results[p] == Unique ==> bloom.Contains(p)
  {
    ghost var b0 := bloom.bits[..];
    ghost var f := bloom.Family();
    results := map[];
    for i := 0 to |passwords|
      invariant Batch(bloom.bits[..], results) == Classify(f, b0, passwords[..i])
    {
      assert passwords[..i + 1][..i] == passwords[..i];
      var pwd := passwords[i];
      if pwd == "" {
        results := results[pwd := Invalid];
        continue;
      }
      if bloom.Contains(pwd) {
        results := results[pwd := AlreadyUsed];
      } else {
        results := results[pwd := Unique];
        bloom.Add(pwd);
      }
    }
    assert passwords[..|passwords|] == passwords;
    ClassifyKeys(f, b0, passwords);
    forall p | p in results && results[p] == Unique ensures bloom.Contains(p) {
      UniqueAreMembers(f, b0, passwords, p);
    }
  }
}
