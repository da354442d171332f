/**
 * The tasks of the bootstrapping scheduler in `mpi_test/src/async_pbs_graph.rs`: the
 * weighted sum of a node's predecessors (`IndexedCtsAndLut::multisum`), the programmable
 * bootstrap with one of seven lookup tables (`IndexedCtAndLut::pbs`), and the tables
 * themselves (`Luts::new`, `Luts::get`).
 *
 * Ciphertexts and lookup tables are opaque; the server key's homomorphic operations and its
 * table generators enter as the functions of `ServerKeyOps`.
 */
module PbsTasks {
  import opened Common

  /** A shortint ciphertext. */
  type Ciphertext(==)

  /** A lookup table generated by the server key (`LookupTableOwned`). */
  type LookupTable(==)

  /** The seven tables a node can be bootstrapped with. */
  datatype Lut =
    | ExtractMessage
    | ExtractCarry
    | BivarMulLow
    | BivarMulHigh
    | PrefixSumCarryPropagation
    | DoesBlockGenerateCarry
    | DoesBlockGenerateOrPropagate

  datatype IndexedCt = IndexedCt(index: nat, ct: Ciphertext)

  /** One `(u64 weight, ciphertext)` pair of a task. */
  datatype WeightedCt = WeightedCt(weight: nat, ct: Ciphertext)

  datatype IndexedCtsAndLut = IndexedCtsAndLut(index: nat, ctsAndWeights: seq<WeightedCt>, lut: Lut)

  datatype IndexedCtAndLut = IndexedCtAndLut(index: nat, ct: Ciphertext, lut: Lut)

  /**
   * The server key as the scheduler uses it: `unchecked_scalar_mul`,
   * `unchecked_add_scalar_mul_assign` (accumulator plus ciphertext times scalar),
   * `apply_lookup_table`, and the two table generators.
   */
  datatype ServerKeyOps = ServerKeyOps(
    scalarMul: (Ciphertext, nat) -> Ciphertext,
    addScalarMul: (Ciphertext, Ciphertext, nat) -> Ciphertext,
    applyLookupTable: (Ciphertext, LookupTable) -> Ciphertext,
    generateLookupTable: (nat -> nat) -> LookupTable,
    generateLookupTableBivariate: ((nat, nat) -> nat) -> LookupTable)

  /** The `as u8` cast of a `u64` weight: the low eight bits. */
  function AsU8(w: nat): (r: nat)
    ensures r < 256
  {
    w % 256
  }

  // ----------------------------------------------------------------------------------------
  // multisum
  // ----------------------------------------------------------------------------------------

  datatype MultisumError = EmptyTask

  /** The accumulator after the first pair and every later pair of `cws`, taken from the end. */
  function MultisumOf(cws: seq<WeightedCt>, ops: ServerKeyOps): Ciphertext
    requires |cws| >= 1
  {
    if |cws| == 1 then ops.scalarMul(cws[0].ct, AsU8(cws[0].weight))
    else
      var last := cws[|cws| - 1];
      ops.addScalarMul(MultisumOf(cws[..|cws| - 1], ops), last.ct, AsU8(last.weight))
  }

  /** A left fold from the front: add every pair of `rest`, in order, to `acc`. */
  function AddAll(acc: Ciphertext, rest: seq<WeightedCt>, ops: ServerKeyOps): Ciphertext
    decreases |rest|
  {
    if rest == [] then acc
    else AddAll(ops.addScalarMul(acc, rest[0].ct, AsU8(rest[0].weight)), rest[1..], ops)
  }

  lemma {:induction false} AddAllAppend(acc: Ciphertext, rest: seq<WeightedCt>, last: WeightedCt, ops: ServerKeyOps)
    ensures AddAll(acc, rest + [last], ops) == ops.addScalarMul(AddAll(acc, rest, ops), last.ct, AsU8(last.weight))
    decreases |rest|
  {
    if rest == [] {
      assert ([] + [last])[1..] == [];
    } else {
      assert (rest + [last])[1..] == rest[1..] + [last];
      AddAllAppend(ops.addScalarMul(acc, rest[0].ct, AsU8(rest[0].weight)), rest[1..], last, ops);
    }
  }

  /**
   * The sum is the first ciphertext times its weight, followed by one multiply-accumulate per
   * remaining pair in list order.
   */
  lemma {:induction false} MultisumIsFirstThenRest(cws: seq<WeightedCt>, ops: ServerKeyOps)
    requires |cws| >= 1
    ensures MultisumOf(cws, ops) == AddAll(ops.scalarMul(cws[0].ct, AsU8(cws[0].weight)), cws[1..], ops)
    decreases |cws|
  {
    var first := ops.scalarMul(cws[0].ct, AsU8(cws[0].weight));
    if |cws| == 1 {
      assert cws[1..] == [];
    } else {
      var init := cws[..|cws| - 1];
      var last := cws[|cws| - 1];
      MultisumIsFirstThenRest(init, ops);
      assert init[0] == cws[0];
      assert cws[1..] == init[1..] + [last];
      AddAllAppend(first, init[1..], last, ops);
    }
  }

  /** Only the low eight bits of each weight matter. */
  lemma {:induction false} MultisumTruncatesWeights(cws: seq<WeightedCt>, cws': seq<WeightedCt>, ops: ServerKeyOps)
    requires |cws| == |cws'| >= 1
    requires forall i :: 0 <= i < |cws| ==> cws[i].ct == cws'[i].ct && cws[i].weight % 256 == cws'[i].weight % 256
    ensures MultisumOf(cws, ops) == MultisumOf(cws', ops)
    decreases |cws|
  {
    if |cws| > 1 {
      MultisumTruncatesWeights(cws[..|cws| - 1], cws'[..|cws'| - 1], ops);
    }
  }

  /**
   * `IndexedCtsAndLut::multisum`: panics on an empty list; otherwise accumulates the weighted
   * ciphertexts and keeps the index and the table.
   */
  method Multisum(task: IndexedCtsAndLut, ops: ServerKeyOps) returns (r: Result<IndexedCtAndLut, MultisumError>)
    ensures r.Err? <==> |task.ctsAndWeights| == 0
    ensures r.Ok? ==> r.value == IndexedCtAndLut(task.index, MultisumOf(task.ctsAndWeights, ops), task.lut)
  {
    var cws := task.ctsAndWeights;
    if |cws| == 0 {
      return Err(EmptyTask);
    }
    var multisumResult := ops.scalarMul(cws[0].ct, AsU8(cws[0].weight));
    for i := 1 to |cws|
      invariant multisumResult == MultisumOf(cws[..i], ops)
    {
      assert cws[..i + 1][..i] == cws[..i];
      multisumResult := ops.addScalarMul(multisumResult, cws[i].ct, AsU8(cws[i].weight));
    }
    assert cws[..|cws|] == cws;
    return Ok(IndexedCtAndLut(task.index, multisumResult, task.lut));
  }

  // ----------------------------------------------------------------------------------------
  // Lookup tables
  // ----------------------------------------------------------------------------------------

  /** The carry status of a block; the values it is encoded with are those of `OutputCarry`. */
  datatype OutputCarry = NoCarry | Generated | Propagated

  /**
   * What the tables are built from: the message modulus of the server key, the bivariate
   * `prefix_sum_carry_propagation` function and the integer encoding of `OutputCarry`.
   */
  datatype LutContext = LutContext(
    messageModulus: nat,
    prefixSumCarryPropagation: (nat, nat) -> nat,
    outputCarryCode: OutputCarry -> nat)

  function GenerateCarry(m: nat, x: nat): OutputCarry
  {
    if x >= m then Generated else NoCarry
  }

  function GenerateOrPropagate(m: nat, x: nat): OutputCarry
    requires m >= 1
  {
    if x >= m then Generated else if x == m - 1 then Propagated else NoCarry
  }

  /** The function behind a table: univariate, or bivariate on the packed pair. */
  datatype LutFunction = Univariate(f: nat -> nat) | Bivariate(g: (nat, nat) -> nat)

  /** The function `Luts::new` generates each table from. */
  function LookupFunction(lut: Lut, ctx: LutContext): (r: LutFunction)
    requires ctx.messageModulus >= 1
    ensures r.Bivariate? <==> lut in {BivarMulLow, BivarMulHigh, PrefixSumCarryPropagation}
    ensures lut == PrefixSumCarryPropagation ==> r == Bivariate(ctx.prefixSumCarryPropagation)
  {
    var m := ctx.messageModulus;
    match lut
    case ExtractMessage => Univariate(x => x % m)
    case ExtractCarry => Univariate(x => x / m)
    case BivarMulLow => Bivariate((x, y) => (x * y) % m)
    case BivarMulHigh => Bivariate((x, y) => (x * y) / m)
    case PrefixSumCarryPropagation => Bivariate(ctx.prefixSumCarryPropagation)
    case DoesBlockGenerateCarry => Univariate(x => ctx.outputCarryCode(GenerateCarry(m, x)))
    case DoesBlockGenerateOrPropagate => Univariate(x => ctx.outputCarryCode(GenerateOrPropagate(m, x)))
  }

  /**
   * The message and carry extractions split a value into its two digits base m, and the two
   * bivariate products split a product the same way.
   */
  lemma ExtractionsRecompose(ctx: LutContext, x: nat, y: nat)
    requires ctx.messageModulus >= 1
    ensures var m := ctx.messageModulus;
      LookupFunction(ExtractCarry, ctx).f(x) * m + LookupFunction(ExtractMessage, ctx).f(x) == x &&
      LookupFunction(ExtractMessage, ctx).f(x) < m
    ensures var m := ctx.messageModulus;
      LookupFunction(BivarMulHigh, ctx).g(x, y) * m + LookupFunction(BivarMulLow, ctx).g(x, y) == x * y &&
      LookupFunction(BivarMulLow, ctx).g(x, y) < m
  {
  }

  /**
   * The two carry tables of `Luts::new`: both give the code of `Generated` exactly when
   * x >= m; below m the first gives `None`, and the second gives `Propagated` exactly at
   * x == m - 1 and `None` below it.
   */
  lemma CarryTablesAgree(ctx: LutContext, x: nat)
    requires ctx.messageModulus >= 1
    ensures var m, carry, carryOrPropagate :=
        ctx.messageModulus, LookupFunction(DoesBlockGenerateCarry, ctx).f,
        LookupFunction(DoesBlockGenerateOrPropagate, ctx).f;
      (x >= m ==> carry(x) == carryOrPropagate(x) == ctx.outputCarryCode(Generated)) &&
      (x < m ==> carry(x) == ctx.outputCarryCode(NoCarry)) &&
      (x == m - 1 ==> carryOrPropagate(x) == ctx.outputCarryCode(Propagated)) &&
      (x < m - 1 ==> carryOrPropagate(x) == ctx.outputCarryCode(NoCarry))
    ensures GenerateOrPropagate(ctx.messageModulus, x) == Generated <==>
            GenerateCarry(ctx.messageModulus, x) == Generated
    ensures GenerateCarry(ctx.messageModulus, x) == Generated <==> x >= ctx.messageModulus
    ensures GenerateOrPropagate(ctx.messageModulus, x) == Propagated <==> x == ctx.messageModulus - 1
    ensures GenerateOrPropagate(ctx.messageModulus, x) == NoCarry <==> x < ctx.messageModulus - 1
  {
    var m := ctx.messageModulus;
    assert LookupFunction(DoesBlockGenerateCarry, ctx).f(x) == ctx.outputCarryCode(GenerateCarry(m, x));
    assert LookupFunction(DoesBlockGenerateOrPropagate, ctx).f(x) ==
      ctx.outputCarryCode(GenerateOrPropagate(m, x));
  }

  /** The table generated from a lookup function. */
  function Generate(ops: ServerKeyOps, f: LutFunction): LookupTable
  {
    match f
    case Univariate(u) => ops.generateLookupTable(u)
    case Bivariate(b) => ops.generateLookupTableBivariate(b)
  }

  datatype Luts = Luts(
    extractMessage: LookupTable,
    extractCarry: LookupTable,
    bivarMulLow: LookupTable,
    bivarMulHigh: LookupTable,
    prefixSumCarryPropagation: LookupTable,
    doesBlockGenerateCarry: LookupTable,
    doesBlockGenerateOrPropagate: LookupTable)

  /** `Luts::new`: one generated table per variant, which `get` hands back for that variant. */
  function NewLuts(ops: ServerKeyOps, ctx: LutContext): (r: Luts)
    requires ctx.messageModulus >= 1
    ensures forall lut :: Get(r, lut) == Generate(ops, LookupFunction(lut, ctx))
  {
    Luts(Generate(ops, LookupFunction(ExtractMessage, ctx)),
         Generate(ops, LookupFunction(ExtractCarry, ctx)),
         Generate(ops, LookupFunction(BivarMulLow, ctx)),
         Generate(ops, LookupFunction(BivarMulHigh, ctx)),
         Generate(ops, LookupFunction(PrefixSumCarryPropagation, ctx)),
         Generate(ops, LookupFunction(DoesBlockGenerateCarry, ctx)),
         Generate(ops, LookupFunction(DoesBlockGenerateOrPropagate, ctx)))
  }

  /** `Luts::get`: the table of a variant. */
  function Get(luts: Luts, lut: Lut): LookupTable
  {
    match lut
    case ExtractMessage => luts.extractMessage
    case ExtractCarry => luts.extractCarry
    case BivarMulLow => luts.bivarMulLow
    case BivarMulHigh => luts.bivarMulHigh
    case PrefixSumCarryPropagation => luts.prefixSumCarryPropagation
    case DoesBlockGenerateCarry => luts.doesBlockGenerateCarry
    case DoesBlockGenerateOrPropagate => luts.doesBlockGenerateOrPropagate
  }

  /** `IndexedCtAndLut::pbs`: bootstrap with the task's table, keeping the node index. */
  function Pbs(t: IndexedCtAndLut, ops: ServerKeyOps, luts: Luts): (r: IndexedCt)
    ensures r.index == t.index
  {
    IndexedCt(t.index, ops.applyLookupTable(t.ct, Get(luts, t.lut)))
  }

  /**
   * With the tables of `Luts::new`, `get` is total and selects for every variant the table
   * generated from that variant's function, so `pbs` applies the node's own function.
   */
  lemma PbsAppliesTheNodeFunction(t: IndexedCtAndLut, ops: ServerKeyOps, ctx: LutContext)
    requires ctx.messageModulus >= 1
    ensures Get(NewLuts(ops, ctx), t.lut) == Generate(ops, LookupFunction(t.lut, ctx))
    ensures Pbs(t, ops, NewLuts(ops, ctx)) ==
            IndexedCt(t.index, ops.applyLookupTable(t.ct, Generate(ops, LookupFunction(t.lut, ctx))))
  {
  }
}
