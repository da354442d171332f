/**
 * The shortint casting key: construction and validation of a `KeySwitchingKey`, its view,
 * its raw parts, and the degree and noise-level bookkeeping of `cast`. Keys are records of
 * dimensions and moduli; key switching, lookup-table generation and bootstrapping are
 * primitives of the cryptographic library, passed in as the functions of `CryptoOps`.
 */
module KeySwitchingKey {
  import opened Common

  /** Rust's `i8`, the type of `cast_rshift`. */
  type I8 = x: int | -128 <= x < 128

  /** Which of the destination server key's two LWE keys the cast lands under. */
  datatype EncryptionKeyChoice = Big | Small

  datatype PBSOrder = KeyswitchBootstrap | BootstrapKeyswitch

  /** The library's `From<EncryptionKeyChoice> for PBSOrder`: big-key ciphertexts are keyswitched first. */
  function PbsOrderOf(k: EncryptionKeyChoice): PBSOrder
  {
    match k
    case Big => KeyswitchBootstrap
    case Small => BootstrapKeyswitch
  }

  /** The LWE body of a ciphertext: opaque. */
  type LweCiphertext(==)

  datatype LweKeyswitchKey = LweKeyswitchKey(
    inputLweDimension: nat,
    outputLweDimension: nat,
    ciphertextModulus: nat)

  datatype BootstrapKey = BootstrapKey(inputLweDimension: nat, outputLweDimension: nat)

  /** The parts of a shortint `ServerKey` that the casting key reads. */
  datatype ServerKey = ServerKey(
    keySwitchingKey: LweKeyswitchKey,
    bootstrappingKey: BootstrapKey,
    messageModulus: nat,
    carryModulus: nat,
    ciphertextModulus: nat,
    pbsOrder: PBSOrder,
    ciphertextLweDimension: nat)

  /** `KeySwitchingKey` and `KeySwitchingKeyView` carry the same five fields. */
  datatype KeySwitchingKey = KeySwitchingKey(
    keySwitchingKey: LweKeyswitchKey,
    destServerKey: ServerKey,
    srcServerKey: Option<ServerKey>,
    castRshift: I8,
    destinationKey: EncryptionKeyChoice)

  datatype KeySwitchingKeyView = KeySwitchingKeyView(
    keySwitchingKey: LweKeyswitchKey,
    destServerKey: ServerKey,
    srcServerKey: Option<ServerKey>,
    castRshift: I8,
    destinationKey: EncryptionKeyChoice)

  /** The tuple of `into_raw_parts` / `from_raw_parts`. */
  datatype RawParts = RawParts(
    keySwitchingKey: LweKeyswitchKey,
    destServerKey: ServerKey,
    srcServerKey: Option<ServerKey>,
    castRshift: I8,
    destinationKey: EncryptionKeyChoice)

  /** The message and carry moduli of a secret key (the input key or the output client key). */
  datatype ShortintModuli = ShortintModuli(messageModulus: nat, carryModulus: nat)

  datatype KeySwitchingError =
    | FullModulusNotPowerOfTwo
    | NarrowingWithoutSourceKey
    | Log2DoesNotFitI8
    | SourceLweDimensionMismatch
    | SourceCiphertextModulusMismatch
    | NegativeShiftWithoutSourceKey
    | DestinationLweDimensionMismatch
    | KeyswitchKeyModulusMismatch

  function FullModulus(m: ShortintModuli): nat
  {
    m.carryModulus * m.messageModulus
  }

  /**
   * `KeySwitchingKey::new`. `generated` is the key-switching key the engine generates
   * from the two secret keys; the checks then run on the two full moduli.
   */
  function New(input: ShortintModuli, srcServerKey: Option<ServerKey>,
               output: ShortintModuli, destServerKey: ServerKey,
               destinationKey: EncryptionKeyChoice, generated: LweKeyswitchKey)
    : (r: Result<KeySwitchingKey, KeySwitchingError>)
    ensures r.Ok? <==>
      IsPowerOfTwo(FullModulus(input)) && IsPowerOfTwo(FullModulus(output)) &&
      (FullModulus(input) > FullModulus(output) ==> srcServerKey.Some?) &&
      ILog2(FullModulus(input)) < 128 && ILog2(FullModulus(output)) < 128
    ensures r.Ok? ==>
      r.value.castRshift == ILog2(FullModulus(output)) - ILog2(FullModulus(input)) &&
      r.value.srcServerKey == srcServerKey && r.value.destServerKey == destServerKey &&
      r.value.keySwitchingKey == generated && r.value.destinationKey == destinationKey
  {
    var fullIn := FullModulus(input);
    var fullOut := FullModulus(output);
    if !(IsPowerOfTwo(fullIn) && IsPowerOfTwo(fullOut)) then Err(FullModulusNotPowerOfTwo)
    else if fullIn > fullOut && srcServerKey.None? then Err(NarrowingWithoutSourceKey)
    else if ILog2(fullIn) >= 128 || ILog2(fullOut) >= 128 then Err(Log2DoesNotFitI8)
    else
      Ok(KeySwitchingKey(generated, destServerKey, srcServerKey,
                         ILog2(fullOut) - ILog2(fullIn), destinationKey))
  }

  /**
   * What `cast_rshift` means for a key `new` built: shifting the input full modulus left by
   * it gives the output full modulus (right, when negative), and it is negative exactly when
   * the cast narrows, which `new` only allows with a source server key.
   */
  lemma NewCastRshiftMeaning(input: ShortintModuli, srcServerKey: Option<ServerKey>,
                             output: ShortintModuli, destServerKey: ServerKey,
                             destinationKey: EncryptionKeyChoice, generated: LweKeyswitchKey)
    requires New(input, srcServerKey, output, destServerKey, destinationKey, generated).Ok?
    ensures var k := New(input, srcServerKey, output, destServerKey, destinationKey, generated).value;
      (k.castRshift >= 0 ==> FullModulus(input) * Pow2(k.castRshift) == FullModulus(output)) &&
      (k.castRshift < 0 ==> FullModulus(output) * Pow2(-k.castRshift) == FullModulus(input)) &&
      (k.castRshift < 0 <==> FullModulus(input) > FullModulus(output)) &&
      (k.castRshift >= 0 || k.srcServerKey.Some?)
  {
    var fullIn, fullOut := FullModulus(input), FullModulus(output);
    var a, b := ILog2(fullIn), ILog2(fullOut);
    PowerOfTwoIsExact(fullIn);
    PowerOfTwoIsExact(fullOut);
    PowerOfTwoLogOrder(fullIn, fullOut);
    if a <= b {
      Pow2Add(a, b - a);
    } else {
      Pow2Add(b, a - b);
    }
  }

  /**
   * `as_view`: the same five fields, borrowed; for a key whose parts fit together it is the
   * view `try_new` builds from those parts.
   */
  function AsView(k: KeySwitchingKey): (r: KeySwitchingKeyView)
    ensures var p := RawParts(k.keySwitchingKey, k.destServerKey, k.srcServerKey, k.castRshift,
                              k.destinationKey);
      PartsCompatible(p) ==> TryNew(p) == Ok(r)
  {
    KeySwitchingKeyView(k.keySwitchingKey, k.destServerKey, k.srcServerKey, k.castRshift,
                        k.destinationKey)
  }

  /** `into_raw_parts`: parts that fit together are accepted by `try_new` as the key's view. */
  function IntoRawParts(k: KeySwitchingKey): (r: RawParts)
    ensures PartsCompatible(r) ==> TryNew(r) == Ok(AsView(k))
  {
    RawParts(k.keySwitchingKey, k.destServerKey, k.srcServerKey, k.castRshift, k.destinationKey)
  }

  /** The LWE dimension of ciphertexts under the chosen key of the destination server key. */
  function DestinationLweDimension(dest: ServerKey, choice: EncryptionKeyChoice): nat
  {
    match choice
    case Big => dest.bootstrappingKey.outputLweDimension
    case Small => dest.bootstrappingKey.inputLweDimension
  }

  /** When raw parts fit together, stated as one predicate. */
  predicate PartsCompatible(p: RawParts)
  {
    (p.srcServerKey.Some? ==>
      p.srcServerKey.value.ciphertextLweDimension == p.keySwitchingKey.inputLweDimension &&
      p.srcServerKey.value.ciphertextModulus == p.destServerKey.ciphertextModulus) &&
    (p.srcServerKey.None? ==> p.castRshift >= 0) &&
    DestinationLweDimension(p.destServerKey, p.destinationKey) == p.keySwitchingKey.outputLweDimension &&
    p.keySwitchingKey.ciphertextModulus == p.destServerKey.ciphertextModulus
  }

  /** `KeySwitchingKey::from_raw_parts`: the asserts in source order, then the five fields. */
  function FromRawParts(p: RawParts): (r: Result<KeySwitchingKey, KeySwitchingError>)
    ensures r.Ok? <==> PartsCompatible(p)
    ensures r.Ok? ==> IntoRawParts(r.value) == p
  {
    var ksk, dest := p.keySwitchingKey, p.destServerKey;
    if p.srcServerKey.Some? && p.srcServerKey.value.ciphertextLweDimension != ksk.inputLweDimension then
      Err(SourceLweDimensionMismatch)
    else if p.srcServerKey.Some? && p.srcServerKey.value.ciphertextModulus != dest.ciphertextModulus then
      Err(SourceCiphertextModulusMismatch)
    else if p.srcServerKey.None? && p.castRshift < 0 then
      Err(NegativeShiftWithoutSourceKey)
    else if DestinationLweDimension(dest, p.destinationKey) != ksk.outputLweDimension then
      Err(DestinationLweDimensionMismatch)
    else if ksk.ciphertextModulus != dest.ciphertextModulus then
      Err(KeyswitchKeyModulusMismatch)
    else
      Ok(KeySwitchingKey(ksk, dest, p.srcServerKey, p.castRshift, p.destinationKey))
  }

  /** `KeySwitchingKeyView::try_new`: its own copy of the same asserts, building a view. */
  function TryNew(p: RawParts): (r: Result<KeySwitchingKeyView, KeySwitchingError>)
    ensures r.Ok? <==> PartsCompatible(p)
  {
    var ksk, dest := p.keySwitchingKey, p.destServerKey;
    match p.srcServerKey
    case Some(src) =>
      if src.ciphertextLweDimension != ksk.inputLweDimension then Err(SourceLweDimensionMismatch)
      else if src.ciphertextModulus != dest.ciphertextModulus then Err(SourceCiphertextModulusMismatch)
      else TryNewDestinationChecks(p)
    case None =>
      if p.castRshift < 0 then Err(NegativeShiftWithoutSourceKey)
      else TryNewDestinationChecks(p)
  }

  function TryNewDestinationChecks(p: RawParts): (r: Result<KeySwitchingKeyView, KeySwitchingError>)
  {
    var ksk, dest := p.keySwitchingKey, p.destServerKey;
    var dstLweDimension :=
      match p.destinationKey
      case Big => dest.bootstrappingKey.outputLweDimension
      case Small => dest.bootstrappingKey.inputLweDimension;
    if dstLweDimension != ksk.outputLweDimension then Err(DestinationLweDimensionMismatch)
    else if ksk.ciphertextModulus != dest.ciphertextModulus then Err(KeyswitchKeyModulusMismatch)
    else Ok(KeySwitchingKeyView(ksk, dest, p.srcServerKey, p.castRshift, p.destinationKey))
  }

  /**
   * The two constructors agree: the same parts fail with the same error in both, and when
   * they succeed the view `try_new` builds is the view of the key `from_raw_parts` builds.
   */
  lemma ConstructorsAgree(p: RawParts)
    ensures FromRawParts(p).Err? <==> TryNew(p).Err?
    ensures FromRawParts(p).Err? ==> FromRawParts(p).error == TryNew(p).error
    ensures FromRawParts(p).Ok? ==> TryNew(p) == Ok(AsView(FromRawParts(p).value))
  {
  }

  /** Round trip: a key whose parts fit together is rebuilt unchanged from its raw parts. */
  lemma RawPartsRoundTrip(k: KeySwitchingKey)
    requires PartsCompatible(IntoRawParts(k))
    ensures FromRawParts(IntoRawParts(k)) == Ok(k)
  {
  }

  /** The noise level of a shortint ciphertext, as far as `cast` sets it. */
  datatype NoiseLevel = Zero | Nominal | Unknown | Level(n: nat)

  /** A shortint ciphertext: LWE body plus the metadata `cast` tracks. */
  datatype Ciphertext = Ciphertext(
    ct: LweCiphertext,
    degree: nat,
    noiseLevel: NoiseLevel,
    messageModulus: nat,
    carryModulus: nat,
    pbsOrder: PBSOrder)

  /**
   * The library primitives `cast` calls: keyswitching, the LWE part of a server key's
   * `apply_lookup_table` (which follows that key's PBS order), the bare
   * `apply_programmable_bootstrap` with the server key's bootstrapping key (no keyswitch), the
   * degree the library gives a generated lookup table, and a trivial LWE encryption of 0 of a
   * given size.
   */
  datatype CryptoOps = CryptoOps(
    keyswitch: (LweKeyswitchKey, LweCiphertext) -> LweCiphertext,
    applyLookupTable: (ServerKey, LweCiphertext, nat -> nat) -> LweCiphertext,
    bootstrap: (BootstrapKey, LweCiphertext, nat -> nat) -> LweCiphertext,
    lookupTableDegree: (ServerKey, nat -> nat) -> nat,
    trivialZero: (ServerKey, nat) -> LweCiphertext)

  /** The lookup function of a widening cast: `n >> r`. */
  function ShiftRightLut(r: nat): nat -> nat
  {
    n => ShiftRight(n, r)
  }

  /** The lookup function of a narrowing cast: `(n << s) % full` on `u64`. */
  function ShiftLeftModLut(s: nat, full: nat): nat -> nat
  {
    n => ShiftLeftMod(s, full, n)
  }

  /** The identity table of the small-to-big fix-up bootstrap: `|x| x`. */
  function IdentityLut(): nat -> nat
  {
    n => n
  }

  function ShiftLeftMod(s: nat, full: nat, n: nat): nat
  {
    if full == 0 then 0 else (n * Pow2(s)) % Pow2(64) % full
  }

  /** A trivial ciphertext of 0 under `sk`: degree 0, noise level zero. */
  function TrivialZero(sk: ServerKey, lweSize: nat, ops: CryptoOps): Ciphertext
  {
    Ciphertext(ops.trivialZero(sk, lweSize), 0, Zero, sk.messageModulus, sk.carryModulus, sk.pbsOrder)
  }

  /** `apply_lookup_table(_assign)`: the LWE part by the library, degree from the table, noise nominal. */
  function ApplyLookupTable(sk: ServerKey, c: Ciphertext, f: nat -> nat, ops: CryptoOps): Ciphertext
  {
    c.(ct := ops.applyLookupTable(sk, c.ct, f), degree := ops.lookupTableDegree(sk, f),
       noiseLevel := Nominal)
  }

  datatype CastError = MissingSourceServerKey

  /** The degree a cast produces, by the sign of `cast_rshift`. */
  function CastDegree(view: KeySwitchingKeyView, input: Ciphertext, ops: CryptoOps): nat
    requires view.castRshift < 0 ==> view.srcServerKey.Some?
  {
    var r: int := view.castRshift;
    if r == 0 then input.degree
    else if r > 0 then ops.lookupTableDegree(view.destServerKey, ShiftRightLut(r))
    else ShiftRight(ops.lookupTableDegree(view.srcServerKey.value, NarrowingLut(input, -r)), -r)
  }

  /** The narrowing lookup table of `cast`, reduced modulo the input ciphertext's full modulus. */
  function NarrowingLut(input: Ciphertext, shift: nat): nat -> nat
  {
    ShiftLeftModLut(shift, input.carryModulus * input.messageModulus)
  }

  /**
   * The noise level a cast produces: nominal after a small-to-big bootstrap fix-up, otherwise
   * nominal only when the widening branch bootstrapped, unknown for the other two branches.
   */
  function CastNoiseLevel(view: KeySwitchingKeyView): NoiseLevel
  {
    if PbsOrderOf(view.destinationKey) != view.destServerKey.pbsOrder && view.destinationKey == Small
    then Nominal
    else if view.castRshift > 0 then Nominal
    else Unknown
  }

  /**
   * The LWE body each branch of the shift produces: a keyswitch alone, a keyswitch then the
   * `n >> r` table under the destination key, or the narrowing table under the source key
   * then a keyswitch.
   */
  function BranchCt(view: KeySwitchingKeyView, input: Ciphertext, ops: CryptoOps): LweCiphertext
    requires view.castRshift < 0 ==> view.srcServerKey.Some?
  {
    var r: int := view.castRshift;
    if r == 0 then ops.keyswitch(view.keySwitchingKey, input.ct)
    else if r > 0 then
      ops.applyLookupTable(view.destServerKey, ops.keyswitch(view.keySwitchingKey, input.ct),
                           ShiftRightLut(r))
    else
      ops.keyswitch(view.keySwitchingKey,
                    ops.applyLookupTable(view.srcServerKey.value, input.ct, NarrowingLut(input, -r)))
  }

  /** The noise level each branch of the shift leaves before the order fix-up. */
  function BranchNoiseLevel(view: KeySwitchingKeyView): NoiseLevel
  {
    if view.castRshift > 0 then Nominal else Unknown
  }

  /**
   * `KeySwitchingKeyView::cast`: keyswitch (and shift by a lookup table when the bit sizes
   * differ) into a trivial ciphertext of the destination's size, then fix up a ciphertext
   * that arrived under the key the destination server key does not expect.
   */
  method Cast(view: KeySwitchingKeyView, input: Ciphertext, ops: CryptoOps)
    returns (r: Result<Ciphertext, CastError>)
    ensures r.Err? <==> view.castRshift < 0 && view.srcServerKey.None?
    ensures r.Ok? ==> r.value.degree == CastDegree(view, input, ops)
    ensures r.Ok? ==> r.value.noiseLevel == CastNoiseLevel(view)
    ensures r.Ok? ==> r.value.messageModulus == view.destServerKey.messageModulus &&
                      r.value.carryModulus == view.destServerKey.carryModulus &&
                      r.value.pbsOrder == view.destServerKey.pbsOrder
    ensures r.Ok? && PbsOrderOf(view.destinationKey) == view.destServerKey.pbsOrder ==>
      r.value.ct == BranchCt(view, input, ops)
    ensures r.Ok? && PbsOrderOf(view.destinationKey) != view.destServerKey.pbsOrder &&
            view.destinationKey == Big ==>
      r.value.ct == ops.keyswitch(view.destServerKey.keySwitchingKey, BranchCt(view, input, ops))
    ensures r.Ok? && PbsOrderOf(view.destinationKey) != view.destServerKey.pbsOrder &&
            view.destinationKey == Small ==>
      r.value.ct == ops.bootstrap(view.destServerKey.bootstrappingKey, BranchCt(view, input, ops),
                                  IdentityLut())
    ensures r.Ok? && PbsOrderOf(view.destinationKey) == view.destServerKey.pbsOrder && view.castRshift == 0 ==>
      r.value.ct == ops.keyswitch(view.keySwitchingKey, input.ct)
  {
    var keyswitched := KeyswitchAndShift(view, input, ops);
    if keyswitched.Err? {
      return Err(keyswitched.error);
    }
    var ret := FixPbsOrder(view, keyswitched.value, ops);
    return Ok(ret);
  }

  /** The `match cast_rshift.cmp(&0)` part of `cast`, which mutates `keyswitched` step by step. */
  method KeyswitchAndShift(view: KeySwitchingKeyView, input: Ciphertext, ops: CryptoOps)
    returns (r: Result<Ciphertext, CastError>)
    ensures r.Err? <==> view.castRshift < 0 && view.srcServerKey.None?
    ensures r.Ok? ==> r.value.degree == CastDegree(view, input, ops)
    ensures r.Ok? ==> r.value.noiseLevel == BranchNoiseLevel(view)
    ensures r.Ok? ==> r.value.messageModulus == view.destServerKey.messageModulus &&
                      r.value.carryModulus == view.destServerKey.carryModulus &&
                      r.value.pbsOrder == view.destServerKey.pbsOrder
    ensures r.Ok? && view.castRshift == 0 ==> r.value.ct == ops.keyswitch(view.keySwitchingKey, input.ct)
    ensures r.Ok? && view.castRshift > 0 ==>
      r.value.ct == ops.applyLookupTable(view.destServerKey,
                                         ops.keyswitch(view.keySwitchingKey, input.ct),
                                         ShiftRightLut(view.castRshift))
    ensures r.Ok? && view.castRshift < 0 ==>
      r.value.ct == ops.keyswitch(view.keySwitchingKey,
                                  ops.applyLookupTable(view.srcServerKey.value, input.ct,
                                                       NarrowingLut(input, -(view.castRshift as int))))
    ensures r.Ok? ==> r.value.ct == BranchCt(view, input, ops)
  {
    var dest := view.destServerKey;
    var outputLweSize := DestinationLweDimension(dest, view.destinationKey) + 1;
    var keyswitched := TrivialZero(dest, outputLweSize, ops);
    var castRshift: int := view.castRshift;

    if castRshift == 0 {
      keyswitched := keyswitched.(ct := ops.keyswitch(view.keySwitchingKey, input.ct));
      keyswitched := keyswitched.(degree := input.degree);
      keyswitched := keyswitched.(noiseLevel := Unknown);
    } else if castRshift > 0 {
      keyswitched := keyswitched.(ct := ops.keyswitch(view.keySwitchingKey, input.ct));
      keyswitched := ApplyLookupTable(dest, keyswitched, ShiftRightLut(castRshift), ops);
      keyswitched := keyswitched.(noiseLevel := Nominal);
    } else {
      if view.srcServerKey.None? {
        return Err(MissingSourceServerKey);
      }
      var src := view.srcServerKey.value;
      var shift: nat := -castRshift;
      var shiftedCipher := ApplyLookupTable(src, input, NarrowingLut(input, shift), ops);
      keyswitched := keyswitched.(ct := ops.keyswitch(view.keySwitchingKey, shiftedCipher.ct));
      keyswitched := keyswitched.(degree := ShiftRight(shiftedCipher.degree, shift));
      keyswitched := keyswitched.(noiseLevel := Unknown);
    }
    return Ok(keyswitched);
  }

  /**
   * The PBS-order fix-up at the end of `cast`: returned as is when the order of the chosen
   * key is the destination server key's; otherwise a trivial ciphertext takes over degree and
   * noise level and receives a keyswitch (big key) or an identity bootstrap (small key, after
   * which the noise level is nominal).
   */
  method FixPbsOrder(view: KeySwitchingKeyView, keyswitched: Ciphertext, ops: CryptoOps)
    returns (output: Ciphertext)
    requires keyswitched.messageModulus == view.destServerKey.messageModulus
    requires keyswitched.carryModulus == view.destServerKey.carryModulus
    requires keyswitched.pbsOrder == view.destServerKey.pbsOrder
    ensures PbsOrderOf(view.destinationKey) == view.destServerKey.pbsOrder ==> output == keyswitched
    ensures output.degree == keyswitched.degree
    ensures output.noiseLevel ==
      if PbsOrderOf(view.destinationKey) != view.destServerKey.pbsOrder && view.destinationKey == Small
      then Nominal else keyswitched.noiseLevel
    ensures output.messageModulus == view.destServerKey.messageModulus &&
            output.carryModulus == view.destServerKey.carryModulus &&
            output.pbsOrder == view.destServerKey.pbsOrder
    ensures PbsOrderOf(view.destinationKey) != view.destServerKey.pbsOrder && view.destinationKey == Big ==>
      output.ct == ops.keyswitch(view.destServerKey.keySwitchingKey, keyswitched.ct)
    ensures PbsOrderOf(view.destinationKey) != view.destServerKey.pbsOrder && view.destinationKey == Small ==>
      output.ct == ops.bootstrap(view.destServerKey.bootstrappingKey, keyswitched.ct, IdentityLut())
  {
    var dest := view.destServerKey;
    if PbsOrderOf(view.destinationKey) == dest.pbsOrder {
      return keyswitched;
    }
    var wrongKeyCt := keyswitched;
    output := TrivialZero(dest, dest.ciphertextLweDimension + 1, ops);
    output := output.(degree := wrongKeyCt.degree);
    output := output.(noiseLevel := wrongKeyCt.noiseLevel);
    match view.destinationKey {
      case Big =>
        output := output.(ct := ops.keyswitch(dest.keySwitchingKey, wrongKeyCt.ct));
      case Small =>
        output := output.(ct := ops.bootstrap(dest.bootstrappingKey, wrongKeyCt.ct, IdentityLut()));
        output := output.(noiseLevel := Nominal);
    }
  }

  /**
   * The widening lookup table undoes the re-encoding: a message x of the input space reads as
   * x * 2^r under the larger output space, and `n >> r` maps it back to x; every value of the
   * output space lands in the input space.
   */
  lemma WideningLutRecoversMessage(fullIn: nat, r: nat, x: nat, n: nat)
    requires x < fullIn && n < fullIn * Pow2(r)
    ensures ShiftRightLut(r)(x * Pow2(r)) == x
    ensures ShiftRightLut(r)(n) < fullIn
  {
    MulDiv(x, Pow2(r));
    DivBelow(n, Pow2(r), fullIn);
  }

  /**
   * The narrowing lookup table keeps the low bits: with an input full modulus of 2^(b+s) within
   * `u64`, shifting left by s modulo 2^64 and the full modulus, then right by s, yields n mod 2^b.
   */
  lemma NarrowingLutKeepsLowBits(b: nat, s: nat, n: nat)
    requires b + s <= 64
    ensures ShiftLeftMod(s, Pow2(b + s), n) / Pow2(s) == n % Pow2(b) < Pow2(b)
  {
    var full, p, x := Pow2(b + s), Pow2(s), n * Pow2(s);
    Pow2Add(b + s, 64 - (b + s));
    assert Pow2(64) == full * Pow2(64 - (b + s));
    ModOfMultipleModulus(x, full, Pow2(64 - (b + s)));
    assert ShiftLeftMod(s, full, n) == x % full;
    Pow2Add(b, s);
    assert full == Pow2(b) * p;
    ShiftedModulus(n, Pow2(b), p);
  }

  /**
   * For a key `new` built with a positive `cast_rshift`, the widening table maps the output
   * message space onto the input one and gives back every re-encoded input message.
   */
  lemma NewWideningCastDecodes(input: ShortintModuli, srcServerKey: Option<ServerKey>,
                               output: ShortintModuli, destServerKey: ServerKey,
                               destinationKey: EncryptionKeyChoice, generated: LweKeyswitchKey,
                               x: nat, n: nat)
    requires New(input, srcServerKey, output, destServerKey, destinationKey, generated).Ok?
    requires New(input, srcServerKey, output, destServerKey, destinationKey, generated).value.castRshift > 0
    requires x < FullModulus(input) && n < FullModulus(output)
    ensures var r := New(input, srcServerKey, output, destServerKey, destinationKey, generated).value.castRshift;
      ShiftRightLut(r)(x * Pow2(r)) == x && ShiftRightLut(r)(n) < FullModulus(input)
  {
    NewCastRshiftMeaning(input, srcServerKey, output, destServerKey, destinationKey, generated);
    var r := New(input, srcServerKey, output, destServerKey, destinationKey, generated).value.castRshift;
    WideningLutRecoversMessage(FullModulus(input), r, x, n);
  }

  /**
   * For a key `new` built with a negative `cast_rshift`, casting an input ciphertext whose
   * moduli are the input moduli (full modulus within `u64`) keeps the low bits: the narrowing
   * table followed by the degree shift maps every n to n mod the output full modulus.
   */
  lemma NewNarrowingCastKeepsLowBits(input: ShortintModuli, srcServerKey: Option<ServerKey>,
                                     output: ShortintModuli, destServerKey: ServerKey,
                                     destinationKey: EncryptionKeyChoice, generated: LweKeyswitchKey,
                                     ct: Ciphertext, n: nat)
    requires New(input, srcServerKey, output, destServerKey, destinationKey, generated).Ok?
    requires New(input, srcServerKey, output, destServerKey, destinationKey, generated).value.castRshift < 0
    requires ct.carryModulus * ct.messageModulus == FullModulus(input) <= Pow2(64)
    ensures var s := -New(input, srcServerKey, output, destServerKey, destinationKey, generated).value.castRshift;
      ShiftRight(NarrowingLut(ct, s)(n), s) == n % FullModulus(output) < FullModulus(output)
  {
    NewCastRshiftMeaning(input, srcServerKey, output, destServerKey, destinationKey, generated);
    var s: nat := -New(input, srcServerKey, output, destServerKey, destinationKey, generated).value.castRshift;
    var a, b := ILog2(FullModulus(input)), ILog2(FullModulus(output));
    PowerOfTwoIsExact(FullModulus(input));
    PowerOfTwoIsExact(FullModulus(output));
    assert a == b + s;
    if a > 64 {
      Pow2StrictlyMonotone(64, a);
    }
    NarrowingLutKeepsLowBits(b, s, n);
  }
}
