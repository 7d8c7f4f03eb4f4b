/** From device registers to alert conditions, in exact arithmetic. */
module Readings {
  import opened Prelude
  import opened AlertData
  import opened AlertSpec
  import opened AlertMeaning

  // ----- Register decoding (big-endian, section 4.2 of the MODBUS Application Protocol Specification V1.1b3) -----

  const WORD := 0x1_0000
  const DOUBLE_WORD := 0x1_0000_0000

  predicate IsRegister(r: int)
  {
    0 <= r < WORD
  }

  function DecodeInt16(r: int): int
  {
    if r > 32767 then r - 65536 else r
  }

  function DecodeUint32(hi: int, lo: int): int
  {
    hi * WORD + lo
  }

  function DecodeInt32(hi: int, lo: int): int
  {
    var raw := hi * WORD + lo;
    if raw > 2147483647 then raw - 4294967296 else raw
  }

  /** Each decoding is a bijection between register contents and its integer range. */
  lemma DecodingIsBijective(v: int, hi: int, lo: int)
    requires IsRegister(hi) && IsRegister(lo)
    ensures -0x8000 <= DecodeInt16(lo) < 0x8000
    ensures -0x8000 <= v < 0x8000 ==> IsRegister(v % WORD) && (DecodeInt16(lo) == v <==> lo == v % WORD)
    ensures 0 <= DecodeUint32(hi, lo) < DOUBLE_WORD
    ensures 0 <= v < DOUBLE_WORD ==>
      IsRegister(v / WORD) && IsRegister(v % WORD) && (DecodeUint32(hi, lo) == v <==> (hi, lo) == (v / WORD, v % WORD))
    ensures -0x8000_0000 <= DecodeInt32(hi, lo) < 0x8000_0000
    ensures -0x8000_0000 <= v < 0x8000_0000 ==>
      var u := if v < 0 then v + DOUBLE_WORD else v;
      IsRegister(u / WORD) && IsRegister(u % WORD) && (DecodeInt32(hi, lo) == v <==> (hi, lo) == (u / WORD, u % WORD))
  {
    assert (hi * WORD + lo) / WORD == hi && (hi * WORD + lo) % WORD == lo;
  }

  // ----- Scaling, rounding, storing -----

  function Scaled(raw: real, scale: real, offset: real): real
  {
    raw * scale + offset
  }

  /** Conversion to an integer drops the fraction. */
  function Truncate(x: real): int
  {
    if x >= 0.0 then x.Floor else -(-x).Floor
  }

  /** Quantizing rounds to nearest, halves away from zero. */
  function RoundHalfUp(x: real): int
  {
    if x >= 0.0 then (x + 0.5).Floor else -(0.5 - x).Floor
  }

  lemma FloorMonotone(x: real, y: real)
    requires x <= y
    ensures x.Floor <= y.Floor
  {
  }

  lemma TruncateError(x: real)
    ensures -1.0 < Truncate(x) as real - x < 1.0
  {
    if x >= 0.0 {
      assert x.Floor as real <= x < x.Floor as real + 1.0;
    } else {
      assert (-x).Floor as real <= -x < (-x).Floor as real + 1.0;
    }
  }

  lemma RoundError(x: real)
    ensures -0.5 <= RoundHalfUp(x) as real - x <= 0.5
  {
    if x >= 0.0 {
      assert (x + 0.5).Floor as real <= x + 0.5 < (x + 0.5).Floor as real + 1.0;
    } else {
      assert (0.5 - x).Floor as real <= 0.5 - x < (0.5 - x).Floor as real + 1.0;
    }
  }

  /** Integers pass through rounding unchanged. */
  lemma RoundInteger(n: int)
    ensures RoundHalfUp(n as real) == n
  {
    RoundError(n as real);
  }

  lemma RoundingMonotone(x: real, y: real)
    requires x <= y
    ensures Truncate(x) <= Truncate(y) && RoundHalfUp(x) <= RoundHalfUp(y)
  {
    if x >= 0.0 {
      FloorMonotone(x, y);
      FloorMonotone(x + 0.5, y + 0.5);
    } else if y < 0.0 {
      FloorMonotone(-y, -x);
      FloorMonotone(0.5 - y, 0.5 - x);
    }
  }

  datatype MetricType = FloatMetric | IntegerMetric | BooleanMetric

  /** A final numeric value goes to the one column of its metric's type. */
  function StoreByType(metric: MetricType, x: real): Columns
  {
    match metric
    case FloatMetric => Columns(Some(x), None, None, None)
    case IntegerMetric => Columns(None, Some(RoundHalfUp(x)), None, None)
    case BooleanMetric => Columns(None, None, Some(x != 0.0), None)
  }

  datatype Path = SnmpPath | ModbusFloat | ModbusInteger

  /** Integer-typed Modbus mappings truncate after scaling; the SNMP path keeps the exact value. */
  function FinalValue(path: Path, raw: real, scale: real, offset: real): real
  {
    var x := Scaled(raw, scale, offset);
    if path == ModbusInteger then Truncate(x) as real else x
  }

  function Reading(path: Path, metric: MetricType, raw: real, scale: real, offset: real): Columns
  {
    StoreByType(metric, FinalValue(path, raw, scale, offset))
  }

  /** The engine reads back the stored number, within the rounding error of the path. */
  lemma EngineReadsStoredValue(path: Path, metric: MetricType, raw: real, scale: real, offset: real)
    ensures
      var read := ValueOf(Reading(path, metric, raw, scale, offset));
      var exact := Scaled(raw, scale, offset);
      && read.Some?
      && (metric == FloatMetric && path != ModbusInteger ==> read == Some(Number(exact)))
      && (metric == IntegerMetric && path != ModbusInteger ==>
            read.value.Number? && -0.5 <= read.value.n - exact <= 0.5 && read.value.n == read.value.n.Floor as real)
      && (metric != BooleanMetric && path == ModbusInteger ==>
            read.value.Number? && -1.0 < read.value.n - exact < 1.0 && read.value.n == Truncate(exact) as real)
      && (metric == BooleanMetric ==> read.value.Truth?)
  {
    var exact := Scaled(raw, scale, offset);
    TruncateError(exact);
    RoundError(exact);
    RoundInteger(Truncate(exact));
  }

  lemma ReadingMonotone(path: Path, metric: MetricType, low: real, high: real, scale: real, offset: real)
    requires low <= high && scale >= 0.0 && metric != BooleanMetric
    ensures
      var a, b := ValueOf(Reading(path, metric, low, scale, offset)),
          ValueOf(Reading(path, metric, high, scale, offset));
      a.Some? && b.Some? && a.value.Number? && b.value.Number? && a.value.n <= b.value.n
  {
    var x, y := Scaled(low, scale, offset), Scaled(high, scale, offset);
    assert (high - low) * scale >= 0.0;
    assert x <= y;
    RoundingMonotone(x, y);
    RoundingMonotone(FinalValue(path, low, scale, offset), FinalValue(path, high, scale, offset));
  }

  /** End to end: an upper-threshold rule that holds for a raw reading holds for every larger one, and a
      lower-threshold rule for every smaller one, whatever rounding happens on the way. */
  lemma ThresholdsAreMonotone(rule: Rule, latest: Latest, path: Path, metric: MetricType, low: real, high: real,
      scale: real, offset: real)
    requires low <= high && scale >= 0.0 && metric != BooleanMetric
    ensures
      var atLow := latest.(values := Reading(path, metric, low, scale, offset));
      var atHigh := latest.(values := Reading(path, metric, high, scale, offset));
      && (rule.operator == GT || rule.operator == GTE ==> ConditionHolds(rule, atLow) ==> ConditionHolds(rule, atHigh))
      && (rule.operator == LT || rule.operator == LTE ==> ConditionHolds(rule, atHigh) ==> ConditionHolds(rule, atLow))
  {
    ReadingMonotone(path, metric, low, high, scale, offset);
  }

  // ----- The stored number, and the condition, exactly -----

  predicate Whole(x: real)
  {
    x.Floor as real == x
  }

  /** `x` is what is left of `exact` without its fraction. */
  predicate DropsFraction(exact: real, x: real)
  {
    Whole(x) && (if exact >= 0.0 then 0.0 <= x <= exact < x + 1.0 else x - 1.0 < exact <= x <= 0.0)
  }

  /** `x` is the whole number nearest to `exact`, the one further from zero of two equally near. */
  predicate RoundsHalfUp(exact: real, x: real)
  {
    Whole(x) && (if exact >= 0.0 then x - 0.5 <= exact < x + 0.5 else x - 0.5 < exact <= x + 0.5)
  }

  /** What a raw reading becomes: scaled and shifted; without its fraction on an integer Modbus mapping; then
      rounded for an integer metric, kept for a float metric, and 0 or 1 for a boolean one. */
  predicate Becomes(path: Path, metric: MetricType, exact: real, x: real)
  {
    match metric
    case FloatMetric => if path == ModbusInteger then DropsFraction(exact, x) else x == exact
    case IntegerMetric => if path == ModbusInteger then DropsFraction(exact, x) else RoundsHalfUp(exact, x)
    case BooleanMetric =>
      x == if exact == 0.0 || (path == ModbusInteger && -1.0 < exact < 1.0) then 0.0 else 1.0
  }

  lemma IntegersApart(m: int, n: int)
    requires -1.0 < m as real - n as real < 1.0
    ensures m == n
  {
    assert -1.0 < (m - n) as real < 1.0;
  }

  lemma WholeApart(m: int, y: real)
    requires Whole(y) && -1.0 < m as real - y < 1.0
    ensures m as real == y
  {
    IntegersApart(m, y.Floor);
  }

  lemma TruncateExactly(exact: real, x: real)
    ensures Truncate(exact) as real == x <==> DropsFraction(exact, x)
  {
    TruncateError(exact);
    if DropsFraction(exact, x) {
      WholeApart(Truncate(exact), x);
    }
  }

  lemma RoundExactly(exact: real, x: real)
    ensures RoundHalfUp(exact) as real == x <==> RoundsHalfUp(exact, x)
  {
    RoundError(exact);
    assert RoundsHalfUp(exact, RoundHalfUp(exact) as real);
    if RoundsHalfUp(exact, x) {
      WholeApart(RoundHalfUp(exact), x);
    }
  }

  /** The columns written for a raw reading read as one number, and it is exactly the one the rules above give. */
  lemma ReadingExactly(path: Path, metric: MetricType, raw: real, scale: real, offset: real, x: real)
    ensures ReadsNumber(Reading(path, metric, raw, scale, offset), x) <==>
      Becomes(path, metric, raw * scale + offset, x)
  {
    var exact := raw * scale + offset;
    TruncateExactly(exact, x);
    TruncateExactly(exact, Truncate(exact) as real);
    RoundExactly(exact, x);
    RoundInteger(Truncate(exact));
  }

  /** From the raw reading to the alert condition: each operator compares the number the reading becomes with the
      threshold. */
  lemma ReadingCondition(rule: Rule, latest: Latest, path: Path, metric: MetricType,
                         raw: real, scale: real, offset: real, x: real, t: real)
    requires latest.values == Reading(path, metric, raw, scale, offset)
    requires Becomes(path, metric, raw * scale + offset, x) && ReadsNumber(rule.threshold, t)
    ensures ConditionHolds(rule, latest) <==>
      match rule.operator
      case GT => x > t
      case GTE => x >= t
      case LT => x < t
      case LTE => x <= t
      case EQ => x == t
      case NEQ => x != t
  {
    ReadingExactly(path, metric, raw, scale, offset, x);
    NumericCondition(rule, latest, x, t);
  }
}
