/**
 * The integer part of the KS-PBS timing experiment of the cost model: the (base log, level)
 * filter, the bound handed to it, and the deduplication key of the parameter hypercube.
 */
module KsPbsTiming {
  import opened Common

  /** A decomposition base log paired with a decomposition level count. */
  datatype BaseLevel = BaseLevel(base: nat, level: nat)

  /**
   * What `filter_b_l_limited` keeps, stated as the intended meaning: the product fits the
   * bound, at most ten levels, and base log 1 only with a level count divisible by 5.
   */
  predicate Admissible(b: nat, l: nat, bound: nat)
  {
    b * l <= bound && l <= 10 && (b == 1 ==> l % 5 == 0)
  }

  /** The pairs of `iproduct!(bases, levels)`, bases outer and levels inner. */
  function Product(bases: seq<nat>, levels: seq<nat>): seq<BaseLevel>
  {
    if bases == [] then []
    else Row(bases[0], levels) + Product(bases[1..], levels)
  }

  lemma {:induction false} ProductLength(bases: seq<nat>, levels: seq<nat>)
    ensures |Product(bases, levels)| == |bases| * |levels|
  {
    if bases != [] {
      ProductLength(bases[1..], levels);
      assert |bases| * |levels| == |levels| + (|bases| - 1) * |levels|;
    }
  }

  /** One row of the product: a fixed base with every level in order. */
  function Row(b: nat, levels: seq<nat>): (r: seq<BaseLevel>)
    ensures |r| == |levels|
    ensures forall j :: 0 <= j < |levels| ==> r[j] == BaseLevel(b, levels[j])
  {
    if levels == [] then [] else [BaseLevel(b, levels[0])] + Row(b, levels[1..])
  }

  /** The admissible pairs of `s`, in the order of `s`. */
  function FilterAdmissible(s: seq<BaseLevel>, bound: nat): (r: seq<BaseLevel>)
  {
    if s == [] then []
    else if Admissible(s[0].base, s[0].level, bound) then [s[0]] + FilterAdmissible(s[1..], bound)
    else FilterAdmissible(s[1..], bound)
  }

  lemma {:induction false} FilterAppend(s: seq<BaseLevel>, t: seq<BaseLevel>, bound: nat)
    ensures FilterAdmissible(s + t, bound) == FilterAdmissible(s, bound) + FilterAdmissible(t, bound)
  {
    if s == [] {
      assert s + t == t;
    } else {
      assert (s + t)[0] == s[0];
      assert (s + t)[1..] == s[1..] + t;
      FilterAppend(s[1..], t, bound);
      if Admissible(s[0].base, s[0].level, bound) {
        calc {
          FilterAdmissible(s + t, bound);
          [s[0]] + FilterAdmissible(s[1..] + t, bound);
          [s[0]] + (FilterAdmissible(s[1..], bound) + FilterAdmissible(t, bound));
          ([s[0]] + FilterAdmissible(s[1..], bound)) + FilterAdmissible(t, bound);
        }
      }
    }
  }

  lemma {:induction false} ProductAppendBase(bases: seq<nat>, b: nat, levels: seq<nat>)
    ensures Product(bases + [b], levels) == Product(bases, levels) + Row(b, levels)
  {
    if bases == [] {
      assert Product([b], levels) == Row(b, levels) + Product([], levels);
    } else {
      assert (bases + [b])[1..] == bases[1..] + [b];
      ProductAppendBase(bases[1..], b, levels);
    }
  }

  lemma {:induction false} RowAppendLevel(b: nat, levels: seq<nat>, l: nat)
    ensures Row(b, levels + [l]) == Row(b, levels) + [BaseLevel(b, l)]
  {
    var r := Row(b, levels + [l]);
    assert r == Row(b, levels) + [BaseLevel(b, l)] by {
      assert |r| == |levels| + 1;
      forall j | 0 <= j < |r|
        ensures r[j] == (Row(b, levels) + [BaseLevel(b, l)])[j]
      {
      }
    }
  }

  /**
   * `filter_b_l_limited`: walks `iproduct!(bases, levels)` and pushes each pair the nested
   * conditions accept; the result is exactly the admissible pairs in product order.
   */
  method FilterBaseLevelLimited(bases: seq<nat>, levels: seq<nat>, preservedMantissa: nat)
    returns (basesLevels: seq<BaseLevel>)
    ensures basesLevels == FilterAdmissible(Product(bases, levels), preservedMantissa)
  {
    basesLevels := [];
    for i := 0 to |bases|
      invariant basesLevels == FilterAdmissible(Product(bases[..i], levels), preservedMantissa)
    {
      var b := bases[i];
      var row := FilterRow(b, levels, preservedMantissa);
      basesLevels := basesLevels + row;
      assert bases[..i + 1] == bases[..i] + [b];
      ProductAppendBase(bases[..i], b, levels);
      FilterAppend(Product(bases[..i], levels), Row(b, levels), preservedMantissa);
    }
    assert bases[..|bases|] == bases;
  }

  /** The inner loop of `filter_b_l_limited`: the admissible pairs of one base, levels in order. */
  method FilterRow(b: nat, levels: seq<nat>, preservedMantissa: nat) returns (row: seq<BaseLevel>)
    ensures row == FilterAdmissible(Row(b, levels), preservedMantissa)
  {
    row := [];
    for j := 0 to |levels|
      invariant row == FilterAdmissible(Row(b, levels[..j]), preservedMantissa)
    {
      var l := levels[j];
      RowAppendLevel(b, levels[..j], l);
      FilterAppend(Row(b, levels[..j]), [BaseLevel(b, l)], preservedMantissa);
      if b * l <= preservedMantissa {
        if b == 1 && l <= 10 {
          if (b * l) % 5 == 0 {
            row := row + [BaseLevel(b, l)];
          }
        } else if l <= 10 {
          row := row + [BaseLevel(b, l)];
        }
      }
      assert levels[..j + 1] == levels[..j] + [l];
    }
    assert levels[..|levels|] == levels;
  }

  /** Soundness and completeness of the filter: a pair is kept iff it is admissible. */
  lemma {:induction false} FilterAdmissibleMembers(s: seq<BaseLevel>, bound: nat, x: BaseLevel)
    ensures x in FilterAdmissible(s, bound) <==> x in s && Admissible(x.base, x.level, bound)
  {
    if s != [] {
      FilterAdmissibleMembers(s[1..], bound, x);
      assert s == [s[0]] + s[1..];
    }
  }

  /** Every pair of the product comes from the inputs, and every combination of inputs is in it. */
  lemma {:induction false} ProductMembers(bases: seq<nat>, levels: seq<nat>, x: BaseLevel)
    ensures x in Product(bases, levels) <==> x.base in bases && x.level in levels
  {
    if bases != [] {
      ProductMembers(bases[1..], levels, x);
      assert bases == [bases[0]] + bases[1..];
      if x.base == bases[0] && x.level in levels {
        var j :| 0 <= j < |levels| && levels[j] == x.level;
        assert Row(bases[0], levels)[j] == x;
      }
    }
  }

  /** Order of the product: element i * |levels| + j pairs bases[i] with levels[j]. */
  lemma {:induction false} ProductAt(bases: seq<nat>, levels: seq<nat>, i: nat, j: nat)
    requires i < |bases| && j < |levels|
    ensures i * |levels| + j < |Product(bases, levels)|
    ensures Product(bases, levels)[i * |levels| + j] == BaseLevel(bases[i], levels[j])
  {
    var before, from := bases[..i], bases[i..];
    assert bases == before + from;
    ProductConcat(before, from, levels);
    ProductLength(before, levels);
    var head, row, rest := Product(before, levels), Row(bases[i], levels), Product(from[1..], levels);
    assert Product(from, levels) == row + rest;
    assert Product(bases, levels) == head + (row + rest);
    assert (head + (row + rest))[|head| + j] == row[j];
  }

  lemma {:induction false} ProductConcat(a: seq<nat>, b: seq<nat>, levels: seq<nat>)
    ensures Product(a + b, levels) == Product(a, levels) + Product(b, levels)
  {
    if a == [] {
      assert a + b == b;
    } else {
      assert (a + b)[1..] == a[1..] + b;
      ProductConcat(a[1..], b, levels);
    }
  }

  /** The filter's promise: sound (every kept pair fits) and complete (every fitting pair is kept). */
  lemma FilterKeepsExactlyAdmissible(bases: seq<nat>, levels: seq<nat>, bound: nat, b: nat, l: nat)
    ensures BaseLevel(b, l) in FilterAdmissible(Product(bases, levels), bound)
        <==> b in bases && l in levels && b * l <= bound && l <= 10 && (b == 1 ==> l % 5 == 0)
  {
    FilterAdmissibleMembers(Product(bases, levels), bound, BaseLevel(b, l));
    ProductMembers(bases, levels, BaseLevel(b, l));
  }

  /** The modulus of the experiment: native (2^64) or a custom value. */
  datatype CiphertextModulus = Native | Custom(modulus: nat)

  /**
   * `modulus_log2` of `timing_experiment`: 64 for the native modulus, the logarithm of the
   * custom modulus otherwise (which the experiment asserts to be a power of two).
   */
  function ModulusLog2(m: CiphertextModulus): (r: nat)
    requires m.Custom? ==> IsPowerOfTwo(m.modulus)
    ensures m.Native? ==> r == 64
    ensures m.Custom? ==> Pow2(r) == m.modulus
  {
    match m
    case Native => 64
    case Custom(q) =>
      PowerOfTwoIsExact(q);
      ILog2(q)
  }

  /**
   * `max_base_log_level_prod`: the preserved mantissa (already capped by the modulus size)
   * capped again by the modulus size and by the fixed limit 40.
   */
  function MaxBaseLogLevelProd(preservedMantissa: nat, modulusLog2: nat): (r: nat)
    ensures r <= preservedMantissa && r <= modulusLog2 && r <= 40
    ensures r == preservedMantissa || r == modulusLog2 || r == 40
  {
    var preserved := if preservedMantissa <= modulusLog2 then preservedMantissa else modulusLog2;
    var capped := if preserved <= modulusLog2 then preserved else modulusLog2;
    if capped <= 40 then capped else 40
  }

  /** `1..=n` as a sequence. */
  function RangeInclusive(n: nat): (r: seq<nat>)
    ensures |r| == n
    ensures forall k :: 0 <= k < n ==> r[k] == k + 1
  {
    if n == 0 then [] else RangeInclusive(n - 1) + [n]
  }

  datatype SearchError = IncompatibleModulus

  /**
   * The (base log, level) search space of `timing_experiment`: the compatibility assert on the
   * modulus, then `filter_b_l_limited(1..=log2, 1..=log2, bound)`.
   */
  method BaseLevelSearchSpace(preservedMantissa: nat, modulus: CiphertextModulus)
    returns (r: Result<seq<BaseLevel>, SearchError>)
    ensures r.Err? <==> modulus.Custom? && !IsPowerOfTwo(modulus.modulus)
    ensures r.Ok? ==> forall x :: x in r.value ==>
      1 <= x.base <= ModulusLog2(modulus) && 1 <= x.level <= 10 &&
      x.base * x.level <= MaxBaseLogLevelProd(preservedMantissa, ModulusLog2(modulus)) &&
      x.base * x.level <= 40 && (x.base == 1 ==> x.level % 5 == 0)
    ensures r.Ok? ==> forall b: nat, l: nat ::
      1 <= b <= ModulusLog2(modulus) && 1 <= l <= ModulusLog2(modulus) &&
      Admissible(b, l, MaxBaseLogLevelProd(preservedMantissa, ModulusLog2(modulus)))
      ==> BaseLevel(b, l) in r.value
    ensures r.Ok? ==> r.value == FilterAdmissible(
      Product(RangeInclusive(ModulusLog2(modulus)), RangeInclusive(ModulusLog2(modulus))),
      MaxBaseLogLevelProd(preservedMantissa, ModulusLog2(modulus)))
  {
    if modulus.Custom? && !IsPowerOfTwo(modulus.modulus) {
      return Err(IncompatibleModulus);
    }
    var modulusLog2 := ModulusLog2(modulus);
    var bound := MaxBaseLogLevelProd(preservedMantissa, modulusLog2);
    var candidates := RangeInclusive(modulusLog2);
    var pairs := FilterBaseLevelLimited(candidates, candidates, bound);
    forall x | x in pairs
      ensures 1 <= x.base <= modulusLog2 && 1 <= x.level <= 10 && x.base * x.level <= bound
        && (x.base == 1 ==> x.level % 5 == 0)
    {
      FilterKeepsExactlyAdmissible(candidates, candidates, bound, x.base, x.level);
    }
    forall b: nat, l: nat | 1 <= b <= modulusLog2 && 1 <= l <= modulusLog2 && Admissible(b, l, bound)
      ensures BaseLevel(b, l) in pairs
    {
      assert candidates[b - 1] == b && candidates[l - 1] == l;
      FilterKeepsExactlyAdmissible(candidates, candidates, bound, b, l);
    }
    r := Ok(pairs);
  }

  /** One point of the parameter hypercube. */
  datatype Params = Params(
    lweDimension: nat,
    glweDimension: nat,
    polynomialSize: nat,
    groupingFactor: nat,
    pbsBaseLog: nat,
    pbsLevel: nat,
    ksBaseLog: nat,
    ksLevel: nat)

  /** The deduplication key; its derived equality and its `Hash` impl use the same six fields. */
  datatype ParamsHash = ParamsHash(
    lweDimension: nat,
    glweDimension: nat,
    polynomialSize: nat,
    pbsLevel: nat,
    ksLevel: nat,
    ksBaseLogSmallerThan5: bool)

  /** `ParamsHash::from`: five copied fields and an inclusive `ks_base_log <= 5` flag. */
  function HashKey(p: Params): (h: ParamsHash)
    ensures h.ksBaseLogSmallerThan5 <==> p.ksBaseLog <= 5
  {
    ParamsHash(p.lweDimension, p.glweDimension, p.polynomialSize, p.pbsLevel, p.ksLevel,
               p.ksBaseLog <= 5)
  }

  /** Two parameter sets collide exactly when they differ at most in the fields the key ignores. */
  lemma HashKeyCollision(p: Params, q: Params)
    ensures HashKey(p) == HashKey(q) <==>
      p.lweDimension == q.lweDimension && p.glweDimension == q.glweDimension &&
      p.polynomialSize == q.polynomialSize && p.pbsLevel == q.pbsLevel &&
      p.ksLevel == q.ksLevel && (p.ksBaseLog <= 5 <==> q.ksBaseLog <= 5)
  {
  }

  /** Itertools' `unique_by` with this key: the first element of each key, in input order. */
  function UniqueByKey(xs: seq<Params>): (r: seq<Params>)
    ensures |r| <= |xs|
    ensures xs != [] ==> r != [] && r[0] == xs[0]
  {
    UniqueByKeyFrom(xs, {})
  }

  /** `unique_by` after the keys in `seen` have already gone by. */
  function UniqueByKeyFrom(xs: seq<Params>, seen: set<ParamsHash>): (r: seq<Params>)
    ensures |r| <= |xs|
    ensures xs != [] && HashKey(xs[0]) !in seen ==> r != [] && r[0] == xs[0]
  {
    if xs == [] then []
    else if HashKey(xs[0]) in seen then UniqueByKeyFrom(xs[1..], seen)
    else [xs[0]] + UniqueByKeyFrom(xs[1..], seen + {HashKey(xs[0])})
  }

  /** `unique_by` keeps only elements of the input whose key was not seen before. */
  lemma {:induction false} UniqueByKeyFromKeepsUnseen(xs: seq<Params>, seen: set<ParamsHash>, y: Params)
    requires y in UniqueByKeyFrom(xs, seen)
    ensures y in xs && HashKey(y) !in seen
  {
    if xs != [] {
      if HashKey(xs[0]) in seen {
        UniqueByKeyFromKeepsUnseen(xs[1..], seen, y);
      } else if y != xs[0] {
        UniqueByKeyFromKeepsUnseen(xs[1..], seen + {HashKey(xs[0])}, y);
      }
    }
  }

  /** The elements `unique_by` keeps have pairwise distinct keys. */
  lemma {:induction false} UniqueByKeyFromDistinct(xs: seq<Params>, seen: set<ParamsHash>, i: nat, j: nat)
    requires i < j < |UniqueByKeyFrom(xs, seen)|
    ensures HashKey(UniqueByKeyFrom(xs, seen)[i]) != HashKey(UniqueByKeyFrom(xs, seen)[j])
  {
    var x0 := xs[0];
    if HashKey(x0) in seen {
      UniqueByKeyFromDistinct(xs[1..], seen, i, j);
    } else {
      var seen' := seen + {HashKey(x0)};
      var rest := UniqueByKeyFrom(xs[1..], seen');
      assert UniqueByKeyFrom(xs, seen) == [x0] + rest;
      if i == 0 {
        UniqueByKeyFromKeepsUnseen(xs[1..], seen', rest[j - 1]);
      } else {
        UniqueByKeyFromDistinct(xs[1..], seen', i - 1, j - 1);
      }
    }
  }

  /** Every key of the input that was not seen before has an element in the output. */
  lemma {:induction false} UniqueByKeyFromCovers(xs: seq<Params>, seen: set<ParamsHash>, x: Params)
    requires x in xs && HashKey(x) !in seen
    ensures exists y :: y in UniqueByKeyFrom(xs, seen) && HashKey(y) == HashKey(x)
  {
    var x0 := xs[0];
    assert xs == [x0] + xs[1..];
    if HashKey(x0) in seen {
      UniqueByKeyFromCovers(xs[1..], seen, x);
    } else {
      var seen' := seen + {HashKey(x0)};
      var r := UniqueByKeyFrom(xs, seen);
      assert r == [x0] + UniqueByKeyFrom(xs[1..], seen');
      if HashKey(x) == HashKey(x0) {
        assert x0 in r;
      } else {
        UniqueByKeyFromCovers(xs[1..], seen', x);
        var y :| y in UniqueByKeyFrom(xs[1..], seen') && HashKey(y) == HashKey(x);
        assert y in r;
      }
    }
  }

  /** Position i of `xs` holds the first element of its key, and that key was not seen before. */
  predicate FirstOfKey(xs: seq<Params>, seen: set<ParamsHash>, i: int)
  {
    0 <= i < |xs| && HashKey(xs[i]) !in seen &&
    forall k :: 0 <= k < i ==> HashKey(xs[k]) != HashKey(xs[i])
  }

  /**
   * `unique_by` from a set of seen keys keeps exactly the first occurrences of the unseen keys,
   * in input order: `idx` lists the input positions of the kept elements, increasing, and a
   * position is listed iff it is the first of its key.
   */
  lemma {:induction false} UniqueByKeyFromFirstOccurrences(xs: seq<Params>, seen: set<ParamsHash>)
    returns (idx: seq<nat>)
    ensures |idx| == |UniqueByKeyFrom(xs, seen)|
    ensures forall t :: 0 <= t < |idx| ==> idx[t] < |xs| && UniqueByKeyFrom(xs, seen)[t] == xs[idx[t]]
    ensures forall s, t :: 0 <= s < t < |idx| ==> idx[s] < idx[t]
    ensures forall i :: 0 <= i < |xs| ==> (i in idx <==> FirstOfKey(xs, seen, i))
  {
    if xs == [] {
      return [];
    }
    var x0, tail := xs[0], xs[1..];
    var seen' := if HashKey(x0) in seen then seen else seen + {HashKey(x0)};
    var idx' := UniqueByKeyFromFirstOccurrences(tail, seen');
    var shifted := ShiftIndices(idx');
    forall i | 1 <= i < |xs|
      ensures FirstOfKey(tail, seen', i - 1) <==> FirstOfKey(xs, seen, i)
    {
      FirstOfKeyInTail(xs, seen, i);
    }
    if HashKey(x0) in seen {
      assert UniqueByKeyFrom(xs, seen) == UniqueByKeyFrom(tail, seen);
      idx := shifted;
    } else {
      assert UniqueByKeyFrom(xs, seen) == [x0] + UniqueByKeyFrom(tail, seen');
      idx := [0] + shifted;
      assert FirstOfKey(xs, seen, 0);
    }
  }

  /** The positions of a tail, as positions of the whole sequence. */
  function ShiftIndices(idx: seq<nat>): (r: seq<nat>)
    ensures |r| == |idx|
    ensures forall t :: 0 <= t < |idx| ==> r[t] == idx[t] + 1
    ensures 0 !in r
    ensures forall i :: i in r <==> i >= 1 && i - 1 in idx
  {
    if idx == [] then [] else [idx[0] + 1] + ShiftIndices(idx[1..])
  }

  /** Position i > 0 is a first occurrence in `xs` iff i - 1 is one in the tail, after `xs[0]`. */
  lemma FirstOfKeyInTail(xs: seq<Params>, seen: set<ParamsHash>, i: int)
    requires 1 <= i < |xs|
    ensures FirstOfKey(xs[1..], if HashKey(xs[0]) in seen then seen else seen + {HashKey(xs[0])}, i - 1)
        <==> FirstOfKey(xs, seen, i)
  {
    var tail := xs[1..];
    assert xs[i] == tail[i - 1];
    assert forall k :: 0 <= k < i - 1 ==> tail[k] == xs[k + 1];
    if forall k :: 0 <= k < i - 1 ==> HashKey(tail[k]) != HashKey(tail[i - 1]) {
      forall k | 1 <= k < i
        ensures HashKey(xs[k]) != HashKey(xs[i])
      {
        assert xs[k] == tail[k - 1];
      }
    }
  }

  /**
   * The first-occurrence rule of `unique_by` on the whole hypercube: each kept parameter set is
   * the first one of its key, the kept ones appear in input order, and every key's first
   * parameter set is kept.
   */
  lemma UniqueByKeyKeepsFirstOccurrences(xs: seq<Params>) returns (idx: seq<nat>)
    ensures |idx| == |UniqueByKey(xs)|
    ensures forall t :: 0 <= t < |idx| ==> idx[t] < |xs| && UniqueByKey(xs)[t] == xs[idx[t]]
    ensures forall t :: 0 <= t < |idx| ==>
      forall k :: 0 <= k < idx[t] ==> HashKey(xs[k]) != HashKey(xs[idx[t]])
    ensures forall s, t :: 0 <= s < t < |idx| ==> idx[s] < idx[t]
    ensures forall i :: 0 <= i < |xs| ==>
      ((forall k :: 0 <= k < i ==> HashKey(xs[k]) != HashKey(xs[i])) ==> i in idx)
  {
    idx := UniqueByKeyFromFirstOccurrences(xs, {});
    forall t | 0 <= t < |idx|
      ensures FirstOfKey(xs, {}, idx[t])
    {
      assert idx[t] in idx;
    }
  }

  /** Two candidates that share a key (e.g. differing only in `pbs_base_log`): the later is dropped. */
  lemma {:induction false} UniqueByKeyDropsLaterDuplicate(p: Params, q: Params, rest: seq<Params>)
    requires HashKey(p) == HashKey(q)
    ensures UniqueByKey([p, q] + rest) == [p] + UniqueByKeyFrom(rest, {HashKey(p)})
  {
    var xs := [p, q] + rest;
    assert xs[0] == p && xs[1..] == [q] + rest;
    var none: set<ParamsHash> := {};
    assert none + {HashKey(p)} == {HashKey(p)};
    assert UniqueByKey(xs) == [p] + UniqueByKeyFrom([q] + rest, {HashKey(p)});
    assert ([q] + rest)[0] == q && ([q] + rest)[1..] == rest;
  }
}
