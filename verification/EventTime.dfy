/** Event time: exact nanoseconds beside the stored microseconds, on 64-bit signed integers. */
module EventTime {
  import opened Numbers
  import opened Wrappers

  const I64_MIN: int := -0x8000_0000_0000_0000
  const I64_MAX: int := 0x7FFF_FFFF_FFFF_FFFF

  type i64 = x: int | -0x8000_0000_0000_0000 <= x <= 0x7FFF_FFFF_FFFF_FFFF

  /** `div_euclid(1000)`: the floor, also before the epoch. */
  function MicrosFromNanos(nanos: i64): (micros: i64) {
    nanos / 1000
  }

  function SaturatingMul(a: i64, b: int): (p: i64) {
    if a * b < I64_MIN then I64_MIN else if a * b > I64_MAX then I64_MAX else a * b
  }

  /** The units a timestamp column can have, and the plain nanosecond column. */
  datatype Unit = Second | Millisecond | Microsecond | Nanosecond | PlainNanos | OtherType {
    function Factor(): (f: Option<int>) {
      match this
      case Second => Some(1_000_000_000)
      case Millisecond => Some(1_000_000)
      case Microsecond => Some(1000)
      case Nanosecond => Some(1)
      case PlainNanos => Some(1)
      case OtherType => None
    }
  }

  /** `column_nanos`: values scaled to nanoseconds, nulls kept. */
  function ColumnNanos(unit: Unit, values: seq<Option<i64>>): (r: Option<seq<Option<i64>>>) {
    var f :- unit.Factor();
    Some(seq(|values|, i requires 0 <= i < |values| =>
      if values[i].None? then None else Some(SaturatingMul(values[i].value, f))))
  }

  /** Ordering by (micros, nanos) is ordering by nanos. */
  lemma StoredOrderIsTimeOrder(a: i64, b: i64)
    ensures a < b <==>
              MicrosFromNanos(a) < MicrosFromNanos(b) || (MicrosFromNanos(a) == MicrosFromNanos(b) && a < b)
  {
  }

  /** The least nanosecond of the microsecond an instant is in. */
  function StartOfMicro(nanos: int): (start: int)
    ensures start <= nanos < start + 1000 && start % 1000 == 0
  {
    nanos - nanos % 1000
  }

  /**
   * A column of stored microseconds reads back, null for null, as the start of the microsecond
   * each instant is in, or as the least i64 where that start is out of range.
   */
  lemma StoredColumnReadsBack(nanos: seq<Option<i64>>, micros: seq<Option<i64>>, i: nat)
    requires |micros| == |nanos| && i < |nanos|
    requires forall k :: 0 <= k < |nanos| ==>
               micros[k] == if nanos[k].None? then None else Some(MicrosFromNanos(nanos[k].value))
    ensures ColumnNanos(Microsecond, micros).Some? && |ColumnNanos(Microsecond, micros).value| == |nanos|
    ensures var v := ColumnNanos(Microsecond, micros).value[i];
            && (v.None? <==> nanos[i].None?)
            && (v.Some? ==> v.value == Max(I64_MIN, StartOfMicro(nanos[i].value)))
  {
  }

  /** Each unit scales by its own factor, clamped to the i64 range; other types are refused. */
  lemma ScaledByUnit(unit: Unit, values: seq<Option<i64>>, i: nat)
    requires i < |values|
    ensures ColumnNanos(unit, values).None? <==> unit == OtherType
    ensures ColumnNanos(unit, values).Some? ==> |ColumnNanos(unit, values).value| == |values|
    ensures ColumnNanos(unit, values).Some? && values[i].Some? ==>
              var n: int := values[i].value;
              var scaled := match unit case Second => n * 1_000_000_000 case Millisecond => n * 1_000_000
                                       case Microsecond => n * 1000 case _ => n;
              ColumnNanos(unit, values).value[i] == Some(
                if scaled < -9_223_372_036_854_775_808 then -9_223_372_036_854_775_808
                else if scaled > 9_223_372_036_854_775_807 then 9_223_372_036_854_775_807 else scaled)
    ensures ColumnNanos(unit, values).Some? && values[i].None? ==> ColumnNanos(unit, values).value[i].None?
  {
  }

  /**
   * Scaling keeps two distinct instants apart if and only if the earlier does not pass the top
   * of the range and the later does not pass the bottom.
   */
  lemma ScalingStrictIff(unit: Unit, a: i64, b: i64)
    requires unit.Factor().Some? && a < b
    ensures var f := unit.Factor().value;
            SaturatingMul(a, f) < SaturatingMul(b, f) <==> a * f < I64_MAX && b * f > I64_MIN
  {
  }
}
