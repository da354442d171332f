/**
 * The GLWE tensor product and its relinearisation, from
 * `tfhe/src/core_crypto/algorithms/glwe_tensor_product.rs`.
 *
 * Polynomials are sequences of coefficients. The negacyclic multiply-accumulate on `u128`
 * polynomials, the wrapping sub-multiply on `Scalar` polynomial lists and the signed gadget
 * decomposition are library code and enter as the functions of `TensorOps` and `RelinOps`;
 * the wrapping add is written out. What the model checks is the slot layout of the output
 * mask, the floor division by `scale` and the order in which relinearisation consumes the
 * slots and the key entries.
 */
module GlweTensorProduct {
  import opened Common

  type Poly = seq<nat>

  /** A GLWE ciphertext: k mask polynomials and one body polynomial, all of `polySize` coefficients. */
  datatype Glwe = Glwe(mask: seq<Poly>, body: Poly, polySize: nat, modulus: nat)

  /** The container of a GLWE ciphertext is cut into polynomials of the stated size. */
  predicate WellFormedGlwe(c: Glwe)
  {
    |c.body| == c.polySize && forall p :: 0 <= p < |c.mask| ==> |c.mask[p]| == c.polySize
  }

  function Zero(n: nat): (r: Poly)
    ensures |r| == n && forall c :: 0 <= c < n ==> r[c] == 0
  {
    seq(n, _ => 0)
  }

  /** `polynomial_wrapping_add_assign` on `bits`-bit coefficients (q is as long as p in every use). */
  function WrappingAdd(p: Poly, q: Poly, bits: nat): (r: Poly)
    ensures |r| == |p|
  {
    seq(|p|, c requires 0 <= c < |p| => WrappingAddCoefficient(p[c], if c < |q| then q[c] else 0, bits))
  }

  function WrappingAddCoefficient(x: nat, y: nat, bits: nat): (r: nat)
    ensures r < Pow2(bits)
  {
    (x + y) % Pow2(bits)
  }

  /** Adding to the zero polynomial copies a polynomial whose coefficients fit in `bits` bits. */
  lemma WrappingAddToZero(q: Poly, bits: nat)
    requires forall c :: 0 <= c < |q| ==> q[c] < Pow2(bits)
    ensures WrappingAdd(Zero(|q|), q, bits) == q
  {
    var r := WrappingAdd(Zero(|q|), q, bits);
    forall c | 0 <= c < |q|
      ensures r[c] == q[c]
    {
      DivModUnique(q[c], Pow2(bits), 0, q[c]);
    }
  }

  // ----------------------------------------------------------------------------------------
  // Slot layout of the output mask
  // ----------------------------------------------------------------------------------------

  /**
   * The terms of the tensor product mask: the cross term of i and j (j < i), the square term
   * of i and the linear term of i.
   */
  datatype Slot = Cross(i: nat, j: nat) | Square(i: nat) | Linear(i: nat)

  predicate WellShaped(sl: Slot)
  {
    sl.Cross? ==> sl.j < sl.i
  }

  /** The slots of an input of GLWE dimension k. */
  predicate ValidSlot(k: nat, sl: Slot)
  {
    WellShaped(sl) && sl.i < k
  }

  /** The first output slot of row i: rows 0..i-1 hold t + 2 slots each. */
  function RowStart(i: nat): nat
  {
    if i == 0 then 0 else RowStart(i - 1) + i + 1
  }

  lemma {:induction false} RowStartClosedForm(i: nat)
    ensures RowStart(i) == i * (i + 3) / 2
  {
    DoubleRowStart(i);
    DivModUnique(i * (i + 3), 2, RowStart(i), 0);
  }

  lemma {:induction false} DoubleRowStart(i: nat)
    ensures 2 * RowStart(i) == i * (i + 3)
  {
    if i > 0 {
      DoubleRowStart(i - 1);
      assert (i - 1) * (i + 2) + 2 * (i + 1) == i * (i + 3);
    }
  }

  lemma {:induction false} RowStartMonotone(a: nat, b: nat)
    requires a < b
    ensures RowStart(a) + a + 2 <= RowStart(b)
  {
    if a + 1 < b {
      RowStartMonotone(a, b - 1);
    }
  }

  /** The position of a slot in the output mask. */
  function SlotIndex(sl: Slot): nat
  {
    match sl
    case Cross(i, j) => RowStart(i) + j
    case Square(i) => RowStart(i) + i
    case Linear(i) => RowStart(i) + i + 1
  }

  /** The slot written at position s of the output mask: the row that holds s, then its offset. */
  function SlotAt(s: nat): (sl: Slot)
    ensures WellShaped(sl) && SlotIndex(sl) == s
    ensures RowStart(sl.i) <= s < RowStart(sl.i + 1)
  {
    SlotAtFrom(0, s)
  }

  function SlotAtFrom(row: nat, s: nat): (sl: Slot)
    requires RowStart(row) <= s
    ensures WellShaped(sl) && SlotIndex(sl) == s && row <= sl.i
    ensures RowStart(sl.i) <= s < RowStart(sl.i + 1)
    decreases s - RowStart(row)
  {
    if s < RowStart(row + 1) then
      var offset := s - RowStart(row);
      if offset < row then Cross(row, offset)
      else if offset == row then Square(row)
      else Linear(row)
    else SlotAtFrom(row + 1, s)
  }

  /**
   * The layout is a bijection between the positions 0 .. k*(k+3)/2 - 1 and the slots of an
   * input of dimension k: k square, k linear and k*(k-1)/2 cross terms, none missing and none
   * written twice.
   */
  lemma SlotLayoutBijection(k: nat, s: nat, sl: Slot)
    ensures s < k * (k + 3) / 2 <==> ValidSlot(k, SlotAt(s))
    ensures ValidSlot(k, sl) ==> SlotIndex(sl) < k * (k + 3) / 2 && SlotAt(SlotIndex(sl)) == sl
  {
    RowStartClosedForm(k);
    var at := SlotAt(s);
    if at.i < k {
      RowStartMonotone(at.i, k);
    } else if at.i > k {
      RowStartMonotone(k, at.i);
    }
    if ValidSlot(k, sl) {
      if sl.i + 1 < k {
        RowStartMonotone(sl.i + 1, k);
      }
      SlotIndexIsUnique(sl, SlotAt(SlotIndex(sl)));
    }
  }

  /** Two well-shaped slots at the same position are the same slot. */
  lemma SlotIndexIsUnique(a: Slot, b: Slot)
    requires WellShaped(a) && WellShaped(b) && SlotIndex(a) == SlotIndex(b)
    ensures a == b
  {
    if a.i < b.i {
      RowStartMonotone(a.i, b.i);
    } else if b.i < a.i {
      RowStartMonotone(b.i, a.i);
    }
  }

  /** Row i of the layout: the cross terms j = 0 .. i-1, then the square term, then the linear term. */
  lemma RowLayout(i: nat, t: nat)
    requires t <= i + 1
    ensures SlotAt(RowStart(i) + t) == if t < i then Cross(i, t) else if t == i then Square(i) else Linear(i)
  {
    var expected := if t < i then Cross(i, t) else if t == i then Square(i) else Linear(i);
    SlotIndexIsUnique(expected, SlotAt(RowStart(i) + t));
  }

  // ----------------------------------------------------------------------------------------
  // The tensor product
  // ----------------------------------------------------------------------------------------

  /**
   * `polynomial_wrapping_add_mul_assign` on `u128` polynomials: the accumulator plus the
   * negacyclic product of the two other arguments, in that order.
   */
  datatype TensorOps = TensorOps(addMul: (Poly, Poly, Poly) -> Poly)

  /** The accumulator is updated in place, so its length does not change. */
  ghost predicate PreservesLength(ops: TensorOps)
  {
    forall acc: Poly, a: Poly, b: Poly :: |ops.addMul(acc, a, b)| == |acc|
  }

  datatype TensorError =
    | PolynomialSizeMismatch
    | GlweSizeMismatch
    | CiphertextModulusMismatch
    | DivisionByZero

  /** One coefficient: floor division in `u128` by `scale`, then the cast to a `bits`-bit Scalar. */
  function ScaleDownCoefficient(x: nat, scale: nat, bits: nat): (r: nat)
    requires scale >= 1
    ensures r < Pow2(bits)
  {
    (x / scale) % Pow2(bits)
  }

  /**
   * The division floors rather than rounds: when the quotient fits in the Scalar, the
   * coefficient times `scale` is at most x and less than one `scale` below it.
   */
  lemma ScaleDownIsFloor(x: nat, scale: nat, bits: nat)
    requires scale >= 1 && x / scale < Pow2(bits)
    ensures ScaleDownCoefficient(x, scale, bits) * scale <= x < (ScaleDownCoefficient(x, scale, bits) + 1) * scale
  {
    DivModUnique(x / scale, Pow2(bits), 0, x / scale);
  }

  function ScaleDown(p: Poly, scale: nat, bits: nat): (r: Poly)
    requires scale >= 1 || |p| == 0
    ensures |r| == |p|
  {
    seq(|p|, c requires 0 <= c < |p| => ScaleDownCoefficient(p[c], scale, bits))
  }

  /** The inputs `glwe_tensor_product` accepts without panicking. */
  predicate Compatible(lhs: Glwe, rhs: Glwe, scale: nat)
  {
    lhs.polySize == rhs.polySize && |lhs.mask| == |rhs.mask| && lhs.modulus == rhs.modulus &&
    (scale >= 1 || lhs.polySize == 0)
  }

  /** The `u128` product a slot holds before the division. */
  function SlotProduct(lhs: Glwe, rhs: Glwe, sl: Slot, ops: TensorOps): Poly
    requires ValidSlot(|lhs.mask|, sl) && |rhs.mask| == |lhs.mask|
  {
    var zero := Zero(lhs.polySize);
    match sl
    case Cross(i, j) => ops.addMul(ops.addMul(zero, lhs.mask[i], rhs.mask[j]), lhs.mask[j], rhs.mask[i])
    case Square(i) => ops.addMul(zero, lhs.mask[i], rhs.mask[i])
    case Linear(i) => WrappingAdd(ops.addMul(zero, lhs.mask[i], rhs.body), ops.addMul(zero, lhs.body, rhs.mask[i]), 128)
  }

  /** The number of mask polynomials in the tensor product of two dimension-k ciphertexts. */
  function MaskCount(k: nat): nat
  {
    k * (k + 3) / 2
  }

  /** The output mask polynomial at position s. */
  function MaskAt(lhs: Glwe, rhs: Glwe, scale: nat, bits: nat, ops: TensorOps, s: nat): (r: Poly)
    requires Compatible(lhs, rhs, scale) && PreservesLength(ops)
    requires s < MaskCount(|lhs.mask|)
    ensures |r| == lhs.polySize
  {
    SlotLayoutBijection(|lhs.mask|, s, SlotAt(s));
    ScaleDown(SlotProduct(lhs, rhs, SlotAt(s), ops), scale, bits)
  }

  /** What `glwe_tensor_product` returns, position by position. */
  function TensorProductOf(lhs: Glwe, rhs: Glwe, scale: nat, bits: nat, ops: TensorOps): Glwe
    requires Compatible(lhs, rhs, scale) && PreservesLength(ops)
  {
    var k := |lhs.mask|;
    Glwe(seq(MaskCount(k), s requires 0 <= s < MaskCount(k) => MaskAt(lhs, rhs, scale, bits, ops, s)),
         ScaleDown(ops.addMul(Zero(lhs.polySize), lhs.body, rhs.body), scale, bits),
         lhs.polySize, lhs.modulus)
  }

  /**
   * `glwe_tensor_product`: after the size and modulus checks, the nested loops over i and j
   * advance one output polynomial per term, and every coefficient is floor-divided by `scale`.
   */
  method TensorProduct(lhs: Glwe, rhs: Glwe, scale: nat, bits: nat, ops: TensorOps)
    returns (r: Result<Glwe, TensorError>)
    requires WellFormedGlwe(lhs) && WellFormedGlwe(rhs) && PreservesLength(ops)
    ensures r.Err? <==> !Compatible(lhs, rhs, scale)
    ensures r.Ok? ==> r.value == TensorProductOf(lhs, rhs, scale, bits, ops)
    ensures r.Ok? ==> |r.value.mask| == |lhs.mask| * (|lhs.mask| + 3) / 2 && WellFormedGlwe(r.value) &&
                      r.value.polySize == lhs.polySize && r.value.modulus == lhs.modulus
  {
    if lhs.polySize != rhs.polySize {
      return Err(PolynomialSizeMismatch);
    }
    if |lhs.mask| != |rhs.mask| {
      return Err(GlweSizeMismatch);
    }
    if lhs.modulus != rhs.modulus {
      return Err(CiphertextModulusMismatch);
    }
    if scale == 0 && lhs.polySize > 0 {
      return Err(DivisionByZero);
    }
    var k := |lhs.mask|;
    var n := lhs.polySize;
    var newK := MaskCount(k);
    RowStartClosedForm(k);
    var outputMask := new Poly[newK](_ => Zero(n));
    var zero := Zero(n);
    for i := 0 to k
      invariant RowStart(i) <= RowStart(k) == newK
      invariant forall s :: 0 <= s < RowStart(i) ==> outputMask[s] == MaskAt(lhs, rhs, scale, bits, ops, s)
    {
      if i + 1 < k {
        RowStartMonotone(i + 1, k);
      }
      FillRow(outputMask, lhs, rhs, i, scale, bits, ops);
    }

    var body := ops.addMul(zero, lhs.body, rhs.body);
    var outputBody := ScaleInto(body, scale, bits);
    r := Ok(Glwe(outputMask[..], outputBody, n, lhs.modulus));
  }

  /**
   * One pass of the outer loop of `glwe_tensor_product`: for row i, the inner loop over j writes
   * the cross terms j < i, then the square and linear terms at j == i, and skips j > i.
   */
  method FillRow(outputMask: array<Poly>, lhs: Glwe, rhs: Glwe, i: nat, scale: nat, bits: nat, ops: TensorOps)
    requires Compatible(lhs, rhs, scale) && PreservesLength(ops) && WellFormedGlwe(lhs) && WellFormedGlwe(rhs)
    requires i < |lhs.mask| && outputMask.Length == MaskCount(|lhs.mask|)
    requires RowStart(i) + i + 2 <= outputMask.Length
    requires forall s :: 0 <= s < RowStart(i) ==> outputMask[s] == MaskAt(lhs, rhs, scale, bits, ops, s)
    modifies outputMask
    ensures forall s :: 0 <= s < RowStart(i + 1) ==> outputMask[s] == MaskAt(lhs, rhs, scale, bits, ops, s)
  {
    var k := |lhs.mask|;
    var slot := RowStart(i);
    for j := 0 to k
      invariant slot == RowStart(i) + (if j <= i then j else i + 2)
      invariant forall s :: 0 <= s < slot ==> outputMask[s] == MaskAt(lhs, rhs, scale, bits, ops, s)
    {
      if i == j {
        var square, linear := SquareAndLinearTerms(lhs, rhs, i, scale, bits, ops);
        Store(outputMask, lhs, rhs, scale, bits, ops, slot, square);
        slot := slot + 1;
        Store(outputMask, lhs, rhs, scale, bits, ops, slot, linear);
        slot := slot + 1;
      } else if j < i {
        var cross := CrossTerm(lhs, rhs, i, j, scale, bits, ops);
        Store(outputMask, lhs, rhs, scale, bits, ops, slot, cross);
        slot := slot + 1;
      }
    }
  }

  /** Write the next output polynomial; the ones before it stay as they are. */
  method Store(outputMask: array<Poly>, lhs: Glwe, rhs: Glwe, scale: nat, bits: nat, ops: TensorOps, slot: nat, p: Poly)
    requires Compatible(lhs, rhs, scale) && PreservesLength(ops)
    requires slot < outputMask.Length == MaskCount(|lhs.mask|) && p == MaskAt(lhs, rhs, scale, bits, ops, slot)
    requires forall s :: 0 <= s < slot ==> outputMask[s] == MaskAt(lhs, rhs, scale, bits, ops, s)
    modifies outputMask
    ensures forall s :: 0 <= s <= slot ==> outputMask[s] == MaskAt(lhs, rhs, scale, bits, ops, s)
  {
    outputMask[slot] := p;
  }

  /** The two polynomials the i == j iteration writes: the square term, then the linear term. */
  method SquareAndLinearTerms(lhs: Glwe, rhs: Glwe, i: nat, scale: nat, bits: nat, ops: TensorOps)
    returns (square: Poly, linear: Poly)
    requires Compatible(lhs, rhs, scale) && PreservesLength(ops) && WellFormedGlwe(lhs) && WellFormedGlwe(rhs)
    requires RowStart(i) + i + 2 <= MaskCount(|lhs.mask|) && i < |lhs.mask|
    ensures square == MaskAt(lhs, rhs, scale, bits, ops, RowStart(i) + i)
    ensures linear == MaskAt(lhs, rhs, scale, bits, ops, RowStart(i) + i + 1)
  {
    var zero := Zero(lhs.polySize);
    var squareTerm := ops.addMul(zero, lhs.mask[i], rhs.mask[i]);
    RowLayout(i, i);
    square := ScaleInto(squareTerm, scale, bits);

    var linearTerm := ops.addMul(zero, lhs.mask[i], rhs.body);
    var bodyTerm := ops.addMul(zero, lhs.body, rhs.mask[i]);
    linearTerm := WrappingAdd(linearTerm, bodyTerm, 128);
    RowLayout(i, i + 1);
    linear := ScaleInto(linearTerm, scale, bits);
  }

  /** The polynomial a j < i iteration writes: the cross term of i and j. */
  method CrossTerm(lhs: Glwe, rhs: Glwe, i: nat, j: nat, scale: nat, bits: nat, ops: TensorOps)
    returns (cross: Poly)
    requires Compatible(lhs, rhs, scale) && PreservesLength(ops) && WellFormedGlwe(lhs) && WellFormedGlwe(rhs)
    requires RowStart(i) + i + 2 <= MaskCount(|lhs.mask|) && j < i < |lhs.mask|
    ensures cross == MaskAt(lhs, rhs, scale, bits, ops, RowStart(i) + j)
  {
    var zero := Zero(lhs.polySize);
    var crossTerm := ops.addMul(zero, lhs.mask[i], rhs.mask[j]);
    crossTerm := ops.addMul(crossTerm, lhs.mask[j], rhs.mask[i]);
    RowLayout(i, j);
    cross := ScaleInto(crossTerm, scale, bits);
  }

  /** The `for_each` that writes the floor quotients of a `u128` polynomial into an output polynomial. */
  method ScaleInto(temp: Poly, scale: nat, bits: nat) returns (output: Poly)
    requires scale >= 1 || |temp| == 0
    ensures output == ScaleDown(temp, scale, bits)
  {
    output := Zero(|temp|);
    for c := 0 to |temp|
      invariant |output| == |temp|
      invariant forall d :: 0 <= d < c ==> output[d] == ScaleDownCoefficient(temp[d], scale, bits)
    {
      output := output[c := ScaleDownCoefficient(temp[c], scale, bits)];
    }
  }

  // ----------------------------------------------------------------------------------------
  // Relinearisation
  // ----------------------------------------------------------------------------------------

  /** The first relinearisation key entry of row i: rows 0..i-1 hold t + 1 entries each. */
  function KeyRowStart(i: nat): nat
  {
    if i == 0 then 0 else KeyRowStart(i - 1) + i
  }

  lemma {:induction false} KeyRowStartMonotone(a: nat, b: nat)
    requires a < b
    ensures KeyRowStart(a) + a + 1 <= KeyRowStart(b)
  {
    if a + 1 < b {
      KeyRowStartMonotone(a, b - 1);
    }
  }

  /**
   * A relinearisation key of GLWE dimension d: one entry per quadratic term (d*(d+1)/2 of
   * them), each a list of levels, each level a GLWE ciphertext of d + 1 polynomials.
   */
  datatype RelinKey = RelinKey(glweDimension: nat, polySize: nat, entries: seq<seq<seq<Poly>>>)

  predicate WellFormedRelinKey(key: RelinKey)
  {
    |key.entries| == KeyRowStart(key.glweDimension) &&
    forall e, l :: 0 <= e < |key.entries| && 0 <= l < |key.entries[e]| ==>
      |key.entries[e][l]| == key.glweDimension + 1
  }

  /**
   * `polynomial_list_wrapping_sub_scalar_mul_assign` on one polynomial (the first minus the
   * product of the other two) and the t-th term that the signed decomposer yields for a
   * polynomial.
   */
  datatype RelinOps = RelinOps(subMul: (Poly, Poly, Poly) -> Poly, decompose: (Poly, nat) -> Poly)

  datatype RelinError =
    | DimensionMismatch
    | RelinGlweSizeMismatch
    | InputPolynomialSizeMismatch
    | OutputPolynomialSizeMismatch

  /** What relinearisation reads: a quadratic slot with its key entry, or the linear slot of a row. */
  datatype Consume = QuadraticRead(entry: nat, slot: nat) | LinearRead(row: nat, slot: nat)

  /** Row i: i + 1 quadratic slots with consecutive key entries, then the linear slot. */
  function RowConsumption(i: nat): seq<Consume>
  {
    seq(i + 1, t requires 0 <= t => QuadraticRead(KeyRowStart(i) + t, RowStart(i) + t)) + [LinearRead(i, RowStart(i) + i + 1)]
  }

  /** The order in which relinearisation with a key of dimension d reads its input. */
  function ConsumptionOrder(d: nat): seq<Consume>
  {
    if d == 0 then [] else ConsumptionOrder(d - 1) + RowConsumption(d - 1)
  }

  /** The key entry that multiplies a quadratic slot. */
  function KeyIndex(sl: Slot): nat
  {
    match sl
    case Cross(i, j) => KeyRowStart(i) + j
    case Square(i) => KeyRowStart(i) + i
    case Linear(i) => 0
  }

  /**
   * Relinearisation reads the input slots in the order the tensor product writes them: the
   * n-th read is slot n, every one of the d*(d+3)/2 slots once.
   */
  lemma {:induction false} ConsumptionReadsEverySlotOnce(d: nat)
    ensures |ConsumptionOrder(d)| == d * (d + 3) / 2
    ensures forall n :: 0 <= n < |ConsumptionOrder(d)| ==> ConsumptionOrder(d)[n].slot == n
  {
    RowStartClosedForm(d);
    ConsumptionLength(d);
  }

  lemma {:induction false} ConsumptionLength(d: nat)
    ensures |ConsumptionOrder(d)| == RowStart(d)
    ensures forall n :: 0 <= n < |ConsumptionOrder(d)| ==> ConsumptionOrder(d)[n].slot == n
  {
    if d > 0 {
      ConsumptionLength(d - 1);
      var prefix: seq<Consume>, row: seq<Consume> := ConsumptionOrder(d - 1), RowConsumption(d - 1);
      forall n | 0 <= n < |prefix + row|
        ensures (prefix + row)[n].slot == n
      {
        if n >= |prefix| {
          assert (prefix + row)[n] == row[n - |prefix|];
        }
      }
    }
  }

  /**
   * Each read treats its slot as the tensor product laid it out: a quadratic read meets a
   * cross or square term and multiplies it by that term's key entry, a linear read of row i
   * meets the linear term of i.
   */
  lemma {:induction false} ConsumptionMatchesLayout(d: nat, n: nat)
    requires n < |ConsumptionOrder(d)|
    ensures ConsumptionOrder(d)[n].QuadraticRead? <==> !SlotAt(n).Linear?
    ensures ConsumptionOrder(d)[n].QuadraticRead? ==> ConsumptionOrder(d)[n].entry == KeyIndex(SlotAt(n))
    ensures ConsumptionOrder(d)[n].LinearRead? ==> SlotAt(n) == Linear(ConsumptionOrder(d)[n].row)
  {
    ConsumptionLength(d);
    var prefix, row := ConsumptionOrder(d - 1), RowConsumption(d - 1);
    ConsumptionLength(d - 1);
    if n < |prefix| {
      ConsumptionMatchesLayout(d - 1, n);
      assert ConsumptionOrder(d)[n] == prefix[n];
    } else {
      var t := n - RowStart(d - 1);
      assert ConsumptionOrder(d)[n] == row[t];
      RowLayout(d - 1, t);
    }
  }

  /** The key entries a key of dimension d holds are exactly those the quadratic slots use. */
  lemma KeyIndexInRange(d: nat, sl: Slot)
    requires ValidSlot(d, sl) && !sl.Linear?
    ensures KeyIndex(sl) < KeyRowStart(d)
  {
    if sl.i + 1 < d {
      KeyRowStartMonotone(sl.i + 1, d);
    }
  }

  /** `polynomial_list_wrapping_sub_scalar_mul_assign`: every output polynomial minus its level polynomial times d. */
  function SubScalarMulList(state: seq<Poly>, level: seq<Poly>, d: Poly, ops: RelinOps): (r: seq<Poly>)
    ensures |r| == |state|
  {
    seq(|state|, p requires 0 <= p < |state| => if p < |level| then ops.subMul(state[p], level[p], d) else state[p])
  }

  /** The first n levels of a key entry, taken from the highest level down, against the decomposition terms of pol. */
  function ApplyLevels(state: seq<Poly>, entry: seq<seq<Poly>>, pol: Poly, n: nat, ops: RelinOps): (r: seq<Poly>)
    requires n <= |entry|
    ensures |r| == |state|
  {
    if n == 0 then state
    else SubScalarMulList(ApplyLevels(state, entry, pol, n - 1, ops), entry[|entry| - n], ops.decompose(pol, n - 1), ops)
  }

  function ApplyConsume(state: seq<Poly>, c: Consume, input: Glwe, key: RelinKey, bits: nat, ops: RelinOps): (r: seq<Poly>)
    ensures |r| == |state|
  {
    match c
    case QuadraticRead(e, s) =>
      if e < |key.entries| && s < |input.mask|
      then ApplyLevels(state, key.entries[e], input.mask[s], |key.entries[e]|, ops)
      else state
    case LinearRead(i, s) =>
      if i < |state| && s < |input.mask| then state[i := WrappingAdd(state[i], input.mask[s], bits)] else state
  }

  function ApplyConsumes(state: seq<Poly>, cs: seq<Consume>, input: Glwe, key: RelinKey, bits: nat, ops: RelinOps): (r: seq<Poly>)
    ensures |r| == |state|
    decreases |cs|
  {
    if cs == [] then state
    else ApplyConsume(ApplyConsumes(state, cs[..|cs| - 1], input, key, bits, ops), cs[|cs| - 1], input, key, bits, ops)
  }

  lemma {:induction false} ApplyConsumesAppend(state: seq<Poly>, cs: seq<Consume>, c: Consume, input: Glwe,
                                                 key: RelinKey, bits: nat, ops: RelinOps)
    ensures ApplyConsumes(state, cs + [c], input, key, bits, ops) ==
            ApplyConsume(ApplyConsumes(state, cs, input, key, bits, ops), c, input, key, bits, ops)
  {
    assert (cs + [c])[..|cs + [c]| - 1] == cs;
  }

  lemma {:induction false} ApplyConsumesConcat(state: seq<Poly>, a: seq<Consume>, b: seq<Consume>, input: Glwe,
                                                 key: RelinKey, bits: nat, ops: RelinOps)
    ensures ApplyConsumes(state, a + b, input, key, bits, ops) ==
            ApplyConsumes(ApplyConsumes(state, a, input, key, bits, ops), b, input, key, bits, ops)
    decreases |b|
  {
    if b == [] {
      assert a + b == a;
    } else {
      var last := b[|b| - 1];
      var init := b[..|b| - 1];
      assert a + b == (a + init) + [last];
      ApplyConsumesAppend(state, a + init, last, input, key, bits, ops);
      ApplyConsumesConcat(state, a, init, input, key, bits, ops);
      ApplyConsumesAppend(ApplyConsumes(state, a, input, key, bits, ops), init, last, input, key, bits, ops);
      assert init + [last] == b;
    }
  }

  /** The output once zeroed and given the input body. */
  function InitialOutput(body: Poly, d: nat, polySize: nat, bits: nat): seq<Poly>
  {
    seq(d + 1, p => if p == d then WrappingAdd(Zero(polySize), body, bits) else Zero(polySize))
  }

  /** Before any key entry is used, the mask is zero and the body is the input body. */
  lemma InitialOutputCopiesBody(input: Glwe, d: nat, bits: nat)
    requires WellFormedGlwe(input)
    requires forall c :: 0 <= c < |input.body| ==> input.body[c] < Pow2(bits)
    ensures InitialOutput(input.body, d, input.polySize, bits)[d] == input.body
    ensures forall p :: 0 <= p < d ==> InitialOutput(input.body, d, input.polySize, bits)[p] == Zero(input.polySize)
  {
    WrappingAddToZero(input.body, bits);
  }

  /** What `glwe_relinearisation` leaves in the output. */
  function Relinearised(input: Glwe, key: RelinKey, polySize: nat, bits: nat, ops: RelinOps): seq<Poly>
  {
    ApplyConsumes(InitialOutput(input.body, key.glweDimension, polySize, bits),
                  ConsumptionOrder(key.glweDimension), input, key, bits, ops)
  }

  /** The checks `glwe_relinearisation` makes before it writes. */
  predicate RelinCompatible(input: Glwe, key: RelinKey, outputGlweSize: nat, outputPolySize: nat)
  {
    key.glweDimension * (key.glweDimension + 3) / 2 == |input.mask| &&
    key.glweDimension + 1 == outputGlweSize &&
    key.polySize == input.polySize && key.polySize == outputPolySize
  }

  /**
   * `glwe_relinearisation`: zero the output, add the input body, then per row i subtract the
   * key levels (highest first) times the decomposition of each of the i + 1 quadratic
   * polynomials, and add the linear polynomial into mask i.
   */
  method Relinearise(input: Glwe, key: RelinKey, output: array<Poly>, outputPolySize: nat, bits: nat, ops: RelinOps)
    returns (r: Result<(), RelinError>)
    requires WellFormedRelinKey(key)
    modifies output
    ensures r.Err? <==> !RelinCompatible(input, key, output.Length, outputPolySize)
    ensures r.Err? ==> unchanged(output)
    ensures r.Ok? ==> output[..] == Relinearised(input, key, outputPolySize, bits, ops)
  {
    var d := key.glweDimension;
    if d * (d + 3) / 2 != |input.mask| {
      return Err(DimensionMismatch);
    }
    if d + 1 != output.Length {
      return Err(RelinGlweSizeMismatch);
    }
    if key.polySize != input.polySize {
      return Err(InputPolynomialSizeMismatch);
    }
    if key.polySize != outputPolySize {
      return Err(OutputPolynomialSizeMismatch);
    }
    RowStartClosedForm(d);
    ResetOutput(output, input.body, outputPolySize, bits);
    RelineariseRows(output, input, key, bits, ops);
    return Ok(());
  }

  /** The outer loop of `glwe_relinearisation`, over the rows of the key. */
  method RelineariseRows(output: array<Poly>, input: Glwe, key: RelinKey, bits: nat, ops: RelinOps)
    requires WellFormedRelinKey(key) && output.Length == key.glweDimension + 1
    requires RowStart(key.glweDimension) == |input.mask|
    modifies output
    ensures output[..] == ApplyConsumes(old(output[..]), ConsumptionOrder(key.glweDimension), input, key, bits, ops)
  {
    var d := key.glweDimension;
    ghost var initial := output[..];
    var entry := 0;
    var slot := 0;
    for i := 0 to d
      invariant entry == KeyRowStart(i) && slot == RowStart(i)
      invariant output[..] == ApplyConsumes(initial, ConsumptionOrder(i), input, key, bits, ops)
    {
      RowBounds(i, d);
      RelineariseRow(output, input, key, i, entry, slot, bits, ops);
      ApplyConsumesConcat(initial, ConsumptionOrder(i), RowConsumption(i), input, key, bits, ops);
      entry := entry + i + 1;
      slot := slot + i + 2;
    }
  }

  /** Row i of a key and of an input of dimension d lies within them. */
  lemma RowBounds(i: nat, d: nat)
    requires i < d
    ensures KeyRowStart(i) + i + 1 <= KeyRowStart(d) && RowStart(i) + i + 2 <= RowStart(d)
  {
    if i + 1 < d {
      RowStartMonotone(i + 1, d);
      KeyRowStartMonotone(i + 1, d);
    }
  }

  /**
   * Iteration i of the outer loop of `glwe_relinearisation`, with the key and input iterators
   * standing at `entry` and `slot`.
   */
  method RelineariseRow(output: array<Poly>, input: Glwe, key: RelinKey, i: nat, entry: nat, slot: nat,
                        bits: nat, ops: RelinOps)
    requires WellFormedRelinKey(key) && output.Length == key.glweDimension + 1 && i < key.glweDimension
    requires entry == KeyRowStart(i) && slot == RowStart(i)
    requires entry + i + 1 <= |key.entries| && slot + i + 2 <= |input.mask|
    modifies output
    ensures output[..] == ApplyConsumes(old(output[..]), RowConsumption(i), input, key, bits, ops)
  {
    ghost var start := output[..];
    ghost var row := RowConsumption(i);
    ConsumeQuadratics(output, input, key, i, entry, slot, bits, ops);
    AddLinear(output, input, key, i, slot + i + 1, bits, ops);
    assert row == row[..i + 1] + [LinearRead(i, slot + i + 1)];
    ApplyConsumesAppend(start, row[..i + 1], LinearRead(i, slot + i + 1), input, key, bits, ops);
  }

  /** The last step of row i: add its linear polynomial into mask polynomial i. */
  method AddLinear(output: array<Poly>, input: Glwe, key: RelinKey, i: nat, s: nat, bits: nat, ops: RelinOps)
    requires i < output.Length && s < |input.mask|
    modifies output
    ensures output[..] == ApplyConsume(old(output[..]), LinearRead(i, s), input, key, bits, ops)
  {
    output[i] := WrappingAdd(output[i], input.mask[s], bits);
  }

  /** The inner loop of row i of `glwe_relinearisation`: its i + 1 quadratic polynomials. */
  method ConsumeQuadratics(output: array<Poly>, input: Glwe, key: RelinKey, i: nat, entry: nat, slot: nat,
                           bits: nat, ops: RelinOps)
    requires WellFormedRelinKey(key) && output.Length == key.glweDimension + 1 && i < key.glweDimension
    requires entry == KeyRowStart(i) && slot == RowStart(i)
    requires entry + i + 1 <= |key.entries| && slot + i + 2 <= |input.mask|
    modifies output
    ensures output[..] == ApplyConsumes(old(output[..]), RowConsumption(i)[..i + 1], input, key, bits, ops)
  {
    ghost var start := output[..];
    ghost var row := RowConsumption(i);
    assert row[..0] == [];
    for t := 0 to i + 1
      invariant output[..] == ApplyConsumes(start, row[..t], input, key, bits, ops)
    {
      ghost var before := output[..];
      ConsumeQuadratic(output, key.entries[entry + t], input.mask[slot + t], ops);
      assert row[t] == QuadraticRead(entry + t, slot + t);
      assert output[..] == ApplyConsume(before, row[t], input, key, bits, ops);
      assert row[..t + 1] == row[..t] + [row[t]];
      ApplyConsumesAppend(start, row[..t], row[t], input, key, bits, ops);
    }
  }

  /** Clear the output, then add the input body into its body polynomial. */
  method ResetOutput(output: array<Poly>, body: Poly, polySize: nat, bits: nat)
    requires output.Length >= 1
    modifies output
    ensures output[..] == InitialOutput(body, output.Length - 1, polySize, bits)
  {
    for p := 0 to output.Length
      invariant forall q :: 0 <= q < p ==> output[q] == Zero(polySize)
    {
      output[p] := Zero(polySize);
    }
    var d := output.Length - 1;
    output[d] := WrappingAdd(output[d], body, bits);
  }

  /**
   * One quadratic polynomial against its key entry: the levels from the highest down, each
   * paired with the next term the decomposer yields.
   */
  method ConsumeQuadratic(output: array<Poly>, levels: seq<seq<Poly>>, pol: Poly, ops: RelinOps)
    requires forall l :: 0 <= l < |levels| ==> |levels[l]| == output.Length
    modifies output
    ensures output[..] == ApplyLevels(old(output[..]), levels, pol, |levels|, ops)
  {
    var term := 0;
    while term < |levels|
      invariant term <= |levels|
      invariant output[..] == ApplyLevels(old(output[..]), levels, pol, term, ops)
    {
      var decomposed := ops.decompose(pol, term);
      SubScalarMulAssign(output, levels[|levels| - 1 - term], decomposed, ops);
      term := term + 1;
    }
  }

  /** `polynomial_list_wrapping_sub_scalar_mul_assign` over the whole output list. */
  method SubScalarMulAssign(output: array<Poly>, level: seq<Poly>, d: Poly, ops: RelinOps)
    requires |level| == output.Length
    modifies output
    ensures output[..] == SubScalarMulList(old(output[..]), level, d, ops)
  {
    for p := 0 to output.Length
      invariant forall q :: 0 <= q < p ==> output[q] == ops.subMul(old(output[q]), level[q], d)
      invariant forall q :: p <= q < output.Length ==> output[q] == old(output[q])
    {
      output[p] := ops.subMul(output[p], level[p], d);
    }
  }
}
