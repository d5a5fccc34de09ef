/**
 * The class-adapter demo: VoltageAdapter turns the 220 V source into the
 * 5 V a Phone expects, and Phone.charging reports what it makes of it.
 * The value output220V returns is not part of this model, so it is a parameter.
 */
module ClassAdapter {
  import opened Wrappers

  /** Java's `int`. */
  newtype int32 = x: int | -0x8000_0000 <= x < 0x8000_0000

  /**
   * VoltageAdapter.output5V: the source voltage divided by 44 with Java's
   * `/`, which truncates toward zero (Dafny's `/` on int is Euclidean).
   */
  function Output5V(srcV: int32): (dst: int32)
    ensures 0 <= srcV ==> dst as int * 44 <= srcV as int < (dst as int + 1) * 44
    ensures srcV < 0 ==> (dst as int - 1) * 44 < srcV as int <= dst as int * 44
    ensures 0 <= srcV ==> 0 <= dst <= srcV
    ensures srcV < 0 ==> srcV < dst <= 0
  {
    var s := srcV as int;
    (if s >= 0 then s / 44 else -((-s) / 44)) as int32
  }

  /** On a non-negative source Java's and Dafny's divisions agree. */
  lemma Output5VIsEuclideanOnNonNegative(srcV: int32)
    requires 0 <= srcV
    ensures Output5V(srcV) as int == srcV as int / 44
  {
  }

  /** On a negative source they differ: -1 V gives 0 V, not -1 V. */
  lemma Output5VTruncatesNegative()
    ensures Output5V(-1) == 0 && (-1) / 44 == -1
    ensures Output5V(-44) == -1 && Output5V(-45) == -1
  {
  }

  /** A higher source voltage never gives a lower output. */
  lemma Output5VMonotone(a: int32, b: int32)
    requires a <= b
    ensures Output5V(a) <= Output5V(b)
  {
  }

  /** The sources for which the adapter delivers exactly 5 V. */
  lemma Output5VIsFive(srcV: int32)
    ensures Output5V(srcV) == 5 <==> 220 <= srcV < 264
    ensures Output5V(srcV) > 5 <==> 264 <= srcV
  {
  }

  /** The two messages Phone.charging can print. */
  datatype Message = CanCharge | CannotCharge

  /**
   * Phone.charging. It asks the adapter for its output twice: the first
   * reading is compared with 5, the second (only when the first is not 5)
   * with "greater than 5". Below 5 V nothing is printed.
   */
  function Charging(firstReading: int32, secondReading: int32): (m: Option<Message>)
    ensures m == Some(CanCharge) <==> firstReading == 5
    ensures m == Some(CannotCharge) <==> firstReading != 5 && secondReading > 5
    ensures m.None? <==> firstReading != 5 && secondReading <= 5
  {
    if firstReading == 5 then Some(CanCharge)
    else if secondReading > 5 then Some(CannotCharge)
    else None
  }

  /** With an adapter that answers the same both times, the outcome is a three-way split on that one value. */
  lemma ChargingSteadyAdapter(v: int32)
    ensures Charging(v, v) == Some(CanCharge) <==> v == 5
    ensures Charging(v, v) == Some(CannotCharge) <==> v > 5
    ensures Charging(v, v).None? <==> v < 5
  {
  }

  /** A phone on a VoltageAdapter, by source voltage. */
  lemma ChargingThroughAdapter(srcV: int32)
    ensures Charging(Output5V(srcV), Output5V(srcV)) == Some(CanCharge) <==> 220 <= srcV < 264
    ensures Charging(Output5V(srcV), Output5V(srcV)) == Some(CannotCharge) <==> 264 <= srcV
    ensures Charging(Output5V(srcV), Output5V(srcV)).None? <==> srcV < 220
  {
    Output5VIsFive(srcV);
    ChargingSteadyAdapter(Output5V(srcV));
  }
}
