/** EIP-1559 fees of the EVM adapter: tip scaling, fee cap, total, and how long the cap keeps covering the base fee. */
module EvmFees {
  import opened Domain
  import opened DerivationPaths

  datatype FeeSpeed = Economy | Standard | Fast

  const GAS_LIMIT := 21_000

  function Multiplier(speed: FeeSpeed): nat {
    match speed
    case Economy => 8
    case Standard => 10
    case Fast => 15
  }

  function ScaleTip(tip: nat, speed: FeeSpeed): nat {
    tip * Multiplier(speed) / 10
  }

  /** Scaling is within one unit below the exact ratio, monotone in the tip, and ordered by speed. */
  lemma TipScaling(tip: nat, larger: nat, speed: FeeSpeed)
    requires tip <= larger
    ensures 10 * ScaleTip(tip, speed) <= Multiplier(speed) * tip < 10 * ScaleTip(tip, speed) + 10
    ensures ScaleTip(tip, speed) <= ScaleTip(larger, speed)
    ensures ScaleTip(tip, Economy) <= ScaleTip(tip, Standard) <= ScaleTip(tip, Fast)
    ensures ScaleTip(tip, Standard) == tip
  {
    assert tip * Multiplier(speed) <= larger * Multiplier(speed);
  }

  /** The fee parameters travel as decimal text. */
  datatype FeeEstimate = FeeEstimate(total: nat, gasLimit: string, maxFeePerGas: string, maxPriorityFeePerGas: string)

  function MaxFee(tip: nat, baseFee: Option<nat>, speed: FeeSpeed): nat {
    (if baseFee.Some? then baseFee.value else 0) * 2 + ScaleTip(tip, speed)
  }

  function EstimateFee(tip: nat, baseFee: Option<nat>, speed: FeeSpeed): FeeEstimate {
    var maxFee := MaxFee(tip, baseFee, speed);
    FeeEstimate(maxFee * GAS_LIMIT, Decimal(GAS_LIMIT), Decimal(maxFee), Decimal(ScaleTip(tip, speed)))
  }

  /** big.Int.SetString in base 10, on the texts an estimate holds. */
  function SetString(s: string): Option<nat> {
    if s != "" && AllDigits(s) then Some(Value(s)) else None
  }

  datatype FeeFields = FeeFields(tipCap: nat, feeCap: nat, gas: nat)

  /** The fee fields BuildTransfer puts into the transaction; a text that does not parse would leave zero. */
  function TransferFees(fee: FeeEstimate): FeeFields {
    var cap, tip := SetString(fee.maxFeePerGas), SetString(fee.maxPriorityFeePerGas);
    FeeFields(if tip.Some? then tip.value else 0, if cap.Some? then cap.value else 0, GAS_LIMIT)
  }

  /**
   * In numbers: fast is three halves of the suggested tip and economy four fifths, both rounded down; the total is
   * 21000 times twice the base fee plus the tip, with no base fee counting as zero.
   */
  lemma EstimateInNumbers(tip: nat, baseFee: Option<nat>, speed: FeeSpeed)
    ensures ScaleTip(tip, Fast) == 3 * tip / 2 && ScaleTip(tip, Economy) == 4 * tip / 5
    ensures ScaleTip(tip, Standard) == tip
    ensures var fee, base := EstimateFee(tip, baseFee, speed), if baseFee.Some? then baseFee.value else 0;
            && fee.total == 21000 * (2 * base + ScaleTip(tip, speed))
            && fee.gasLimit == "21000"
            && AllDigits(fee.maxFeePerGas) && Value(fee.maxFeePerGas) == 2 * base + ScaleTip(tip, speed)
            && AllDigits(fee.maxPriorityFeePerGas) && Value(fee.maxPriorityFeePerGas) == ScaleTip(tip, speed)
            && TransferFees(fee).gas == 21000
  {
    ValueOfDecimal(MaxFee(tip, baseFee, speed));
    ValueOfDecimal(ScaleTip(tip, speed));
    GasLimitText();
  }

  lemma GasLimitText()
    ensures Decimal(21000) == "21000"
  {
    assert Decimal(2) == "2" && Decimal(21) == "21";
    assert Decimal(210) == "210" && Decimal(2100) == "2100";
  }

  /** The price per gas a transaction pays in a block with the given base fee, if it can be included. */
  function EffectivePrice(f: FeeFields, blockBaseFee: nat): nat {
    if blockBaseFee + f.tipCap < f.feeCap then blockBaseFee + f.tipCap else f.feeCap
  }

  /**
   * The transfer carries the numbers that were estimated, through their text form; its cap is never below its
   * tip, and the estimated total is the most it can cost in any block, using any gas up to the limit.
   */
  lemma EstimateBoundsCost(tip: nat, baseFee: Option<nat>, speed: FeeSpeed, blockBaseFee: nat, gasUsed: nat)
    requires gasUsed <= GAS_LIMIT
    ensures var fee := EstimateFee(tip, baseFee, speed);
            var f := TransferFees(fee);
            && f == FeeFields(ScaleTip(tip, speed), MaxFee(tip, baseFee, speed), GAS_LIMIT)
            && f.tipCap <= f.feeCap
            && gasUsed * EffectivePrice(f, blockBaseFee) <= fee.total
  {
    var maxFee := MaxFee(tip, baseFee, speed);
    ValueOfDecimal(maxFee);
    ValueOfDecimal(ScaleTip(tip, speed));
    var price := EffectivePrice(FeeFields(ScaleTip(tip, speed), maxFee, GAS_LIMIT), blockBaseFee);
    ProductsGrow(gasUsed, GAS_LIMIT, price, maxFee);
  }

  lemma ProductsGrow(a: nat, b: nat, x: nat, y: nat)
    requires a <= b && x <= y
    ensures a * x <= b * y
  {
    assert a * x <= b * x;
    assert b * x <= b * y;
  }

  // ----- The base fee of later blocks --------------------------------------------------------

  /** A block's gas use against its gas limit; the target is half the limit, rounded down. */
  datatype Usage = Usage(used: nat, limit: nat) {
    function Target(): nat {
      limit / 2
    }
  }

  const MIN_GAS_LIMIT := 5000

  predicate Allowed(u: Usage) {
    MIN_GAS_LIMIT <= u.limit && u.used <= u.limit
  }

  function Max(a: int, b: int): int {
    if a >= b then a else b
  }

  /** The base-fee update of EIP-1559, with its denominator 8. */
  function NextBaseFee(base: nat, u: Usage): int
    requires Allowed(u)
  {
    var target := u.Target();
    if u.used == target then base
    else if u.used > target then base + Max(base * (u.used - target) / target / 8, 1)
    else base - base * (target - u.used) / target / 8
  }

  /** The block that raises the base fee most: full, and of the smallest limit that exceeds twice its target. */
  const FULL := Usage(5001, 5001)

  /** The largest rise one block allows. */
  function Risen(base: nat): nat {
    base + Max(base * 2501 / 2500 / 8, 1)
  }

  lemma ShareIsAtMostWhole(base: nat, part: nat, whole: nat)
    requires 0 < whole && part <= whole
    ensures 0 <= base * part / whole <= base
  {
    var product := base * part;
    var q := product / whole;
    ProductsGrow(base, base, part, whole);
    assert q * whole <= product;
    if q > base {
      ProductsGrow(base + 1, q, whole, whole);
    }
  }

  /** Of a share of at most one more than the whole, the excess is largest for the smallest whole. */
  lemma ShareIsAtMostFull(base: nat, part: nat, whole: nat)
    requires 2500 <= whole && part <= whole + 1
    ensures 0 <= base * part / whole <= base * 2501 / 2500
  {
    var product, q, excess := base * part, base * part / whole, base / 2500;
    ProductsGrow(base, base, part, whole + 1);
    assert q * whole <= product <= base * whole + base;
    if q > base + excess {
      ProductsGrow(base + excess + 1, q, whole, whole);
      ProductsGrow(excess + 1, excess + 1, 2500, whole);
    }
  }

  lemma OneBlock(base: nat, u: Usage)
    requires Allowed(u)
    ensures 0 <= NextBaseFee(base, u) <= Risen(base)
  {
    var target := u.Target();
    if u.used > target {
      ShareIsAtMostFull(base, u.used - target, target);
    } else if u.used < target {
      ShareIsAtMostWhole(base, target - u.used, target);
    }
  }

  function BaseFeeAfter(base: nat, blocks: seq<Usage>): nat
    requires forall u | u in blocks :: Allowed(u)
  {
    if blocks == [] then base
    else
      var before := BaseFeeAfter(base, blocks[..|blocks| - 1]);
      OneBlock(before, blocks[|blocks| - 1]);
      NextBaseFee(before, blocks[|blocks| - 1])
  }

  function RisenBy(base: nat, n: nat): nat {
    if n == 0 then base else Risen(RisenBy(base, n - 1))
  }

  lemma RisenIsMonotone(a: nat, b: nat)
    requires a <= b
    ensures Risen(a) <= Risen(b)
  {
  }

  lemma {:induction false} NoFasterThanRisen(base: nat, blocks: seq<Usage>)
    requires forall u | u in blocks :: Allowed(u)
    ensures BaseFeeAfter(base, blocks) <= RisenBy(base, |blocks|)
  {
    if blocks != [] {
      var n := |blocks| - 1;
      NoFasterThanRisen(base, blocks[..n]);
      OneBlock(BaseFeeAfter(base, blocks[..n]), blocks[n]);
      RisenIsMonotone(BaseFeeAfter(base, blocks[..n]), RisenBy(base, n));
    }
  }

  lemma {:induction false} RisenGrows(base: nat, m: nat, n: nat)
    requires m <= n
    ensures RisenBy(base, m) <= RisenBy(base, n)
    decreases n
  {
    if m < n {
      RisenGrows(base, m, n - 1);
    }
  }

  function FullBlocks(n: nat): (blocks: seq<Usage>)
    ensures |blocks| == n && forall u | u in blocks :: Allowed(u)
  {
    if n == 0 then [] else FullBlocks(n - 1) + [FULL]
  }

  lemma FullBlockRises(base: nat)
    ensures NextBaseFee(base, FULL) == Risen(base)
  {
    assert FULL.Target() == 2500;
  }

  lemma {:induction false} FullBlocksRise(base: nat, n: nat)
    ensures BaseFeeAfter(base, FullBlocks(n)) == RisenBy(base, n)
  {
    if n > 0 {
      FullBlocksRise(base, n - 1);
      BaseFeeAfterOneMore(base, FullBlocks(n - 1), FULL);
      FullBlockRises(RisenBy(base, n - 1));
    }
  }

  lemma BaseFeeAfterOneMore(base: nat, blocks: seq<Usage>, u: Usage)
    requires (forall v | v in blocks :: Allowed(v)) && Allowed(u)
    ensures BaseFeeAfter(base, blocks + [u]) == NextBaseFee(BaseFeeAfter(base, blocks), u)
  {
    assert (blocks + [u])[..|blocks|] == blocks;
  }

  // ----- How many blocks the cap lasts -------------------------------------------------------

  /** The fee fields of a transfer estimated at this tip, base fee and speed. */
  function FieldsFor(tip: nat, base: nat, speed: FeeSpeed): FeeFields {
    FeeFields(ScaleTip(tip, speed), MaxFee(tip, Some(base), speed), GAS_LIMIT)
  }

  /** The cap pays the base fee and the whole tip in a block with that base fee. */
  predicate Covers(f: FeeFields, blockBaseFee: nat) {
    blockBaseFee + f.tipCap <= f.feeCap
  }

  ghost predicate CoversNext(f: FeeFields, base: nat, count: nat) {
    forall blocks: seq<Usage> | |blocks| <= count && (forall u | u in blocks :: Allowed(u)) ::
      Covers(f, BaseFeeAfter(base, blocks))
  }

  /**
   * For every number of blocks, whatever they hold: the cap lasts exactly when as many full blocks in a row do not
   * more than double the base fee.
   */
  lemma CoveredExactlyWhileNotDoubled(tip: nat, base: nat, speed: FeeSpeed, count: nat)
    ensures CoversNext(FieldsFor(tip, base, speed), base, count) <==> RisenBy(base, count) <= 2 * base
  {
    var f := FieldsFor(tip, base, speed);
    if RisenBy(base, count) <= 2 * base {
      forall blocks: seq<Usage> | |blocks| <= count && (forall u | u in blocks :: Allowed(u))
        ensures Covers(f, BaseFeeAfter(base, blocks))
      {
        NoFasterThanRisen(base, blocks);
        RisenGrows(base, |blocks|, count);
      }
    } else {
      FullBlocksRise(base, count);
      assert !Covers(f, BaseFeeAfter(base, FullBlocks(count)));
    }
  }

  /** Five blocks are covered exactly when the base fee is at least 5 wei. */
  lemma FiveBlocksAreCoveredExactlyFromFive(tip: nat, base: nat, speed: FeeSpeed)
    ensures CoversNext(FieldsFor(tip, base, speed), base, 5) <==> base >= 5
  {
    CoveredExactlyWhileNotDoubled(tip, base, speed, 5);
    var a, b, c, d, e := FiveRises(base);
    if base >= 8 {
      assert 20000 * a <= 22501 * base && 20000 * b <= 22501 * a && 20000 * c <= 22501 * b;
      assert 20000 * d <= 22501 * c && 20000 * e <= 22501 * d;
    }
  }

  lemma FiveRises(base: nat) returns (a: nat, b: nat, c: nat, d: nat, e: nat)
    ensures a == Risen(base) && b == Risen(a) && c == Risen(b) && d == Risen(c) && e == Risen(d)
    ensures RisenBy(base, 5) == e && RisenBy(base, 6) == Risen(e)
  {
    a := Risen(base);
    b := Risen(a);
    c := Risen(b);
    d := Risen(c);
    e := Risen(d);
    assert RisenBy(base, 1) == a && RisenBy(base, 2) == b && RisenBy(base, 3) == c && RisenBy(base, 4) == d;
  }

  /**
   * Five is the limit: six blocks are covered for no base fee of 207 wei or more, and for none below 6. Between,
   * rounding decides, by the condition above; 206 is the largest that is covered.
   */
  lemma SixBlocksAreNeverCoveredFrom207(tip: nat, base: nat, speed: FeeSpeed)
    ensures base < 6 || base >= 207 ==> !CoversNext(FieldsFor(tip, base, speed), base, 6)
    ensures base == 206 ==> CoversNext(FieldsFor(tip, base, speed), base, 6)
  {
    CoveredExactlyWhileNotDoubled(tip, base, speed, 6);
    if base >= 264 {
      SixLargeRises(base);
    } else if base >= 207 {
      SixMiddleRises(base);
    } else if base == 206 {
      SixRisesOf206();
    } else if base < 6 {
      SixSmallRises(base);
    }
  }

  lemma SixLargeRises(base: nat)
    requires base >= 264
    ensures RisenBy(base, 6) > 2 * base
  {
    var a, b, c, d, e := FiveRises(base);
    assert 8 * a >= 9 * base - 7 && 8 * b >= 9 * a - 7 && 8 * c >= 9 * b - 7 && 8 * d >= 9 * c - 7;
    assert 8 * e >= 9 * d - 7 && 8 * Risen(e) >= 9 * e - 7;
  }

  lemma SixMiddleRises(base: nat)
    requires 207 <= base < 264
    ensures RisenBy(base, 6) > 2 * base
  {
    var a, b, c, d, e, f := SmallRises(base);
    if base < 216 {
      RisesTo215(base, a, b, c, d, e, f);
    } else if base < 224 {
      RisesTo223(base, a, b, c, d, e, f);
    } else if base < 232 {
      RisesTo231(base, a, b, c, d, e, f);
    } else if base < 240 {
      RisesTo239(base, a, b, c, d, e, f);
    } else if base < 248 {
      RisesTo247(base, a, b, c, d, e, f);
    } else if base < 256 {
      RisesTo255(base, a, b, c, d, e, f);
    } else {
      RisesTo263(base, a, b, c, d, e, f);
    }
  }

  lemma SixSmallRises(base: nat)
    requires base < 6
    ensures RisenBy(base, 6) > 2 * base
  {
    var a, b, c, d, e := FiveRises(base);
    assert b == base + 2 && d == base + 4;
  }

  lemma SixRisesOf206()
    ensures RisenBy(206, 6) == 412
  {
    assert RisenBy(206, 1) == 231;
    assert RisenBy(206, 2) == Risen(231) == 259;
    assert RisenBy(206, 3) == Risen(259) == 291;
    assert RisenBy(206, 4) == Risen(291) == 327;
    assert RisenBy(206, 5) == Risen(327) == 367;
  }

  predicate SixEighths(base: nat, a: nat, b: nat, c: nat, d: nat, e: nat, f: nat) {
    a == base + base / 8 && b == a + a / 8 && c == b + b / 8 && d == c + c / 8 && e == d + d / 8 && f == e + e / 8
  }

  lemma SmallRises(base: nat) returns (a: nat, b: nat, c: nat, d: nat, e: nat, f: nat)
    requires 8 <= base < 264
    ensures SixEighths(base, a, b, c, d, e, f) && f == RisenBy(base, 6)
  {
    a, b, c, d, e := FiveRises(base);
    f := Risen(e);
  }

  lemma RisesTo215(base: nat, a: nat, b: nat, c: nat, d: nat, e: nat, f: nat)
    requires 207 <= base < 216 && SixEighths(base, a, b, c, d, e, f)
    ensures f > 2 * base
  {
  }

  lemma RisesTo223(base: nat, a: nat, b: nat, c: nat, d: nat, e: nat, f: nat)
    requires 216 <= base < 224 && SixEighths(base, a, b, c, d, e, f)
    ensures f > 2 * base
  {
  }

  lemma RisesTo231(base: nat, a: nat, b: nat, c: nat, d: nat, e: nat, f: nat)
    requires 224 <= base < 232 && SixEighths(base, a, b, c, d, e, f)
    ensures f > 2 * base
  {
  }

  lemma RisesTo239(base: nat, a: nat, b: nat, c: nat, d: nat, e: nat, f: nat)
    requires 232 <= base < 240 && SixEighths(base, a, b, c, d, e, f)
    ensures f > 2 * base
  {
  }

  lemma RisesTo247(base: nat, a: nat, b: nat, c: nat, d: nat, e: nat, f: nat)
    requires 240 <= base < 248 && SixEighths(base, a, b, c, d, e, f)
    ensures f > 2 * base
  {
  }

  lemma RisesTo255(base: nat, a: nat, b: nat, c: nat, d: nat, e: nat, f: nat)
    requires 248 <= base < 256 && SixEighths(base, a, b, c, d, e, f)
    ensures f > 2 * base
  {
  }

  lemma RisesTo263(base: nat, a: nat, b: nat, c: nat, d: nat, e: nat, f: nat)
    requires 256 <= base < 264 && SixEighths(base, a, b, c, d, e, f)
    ensures f > 2 * base
  {
  }
}
