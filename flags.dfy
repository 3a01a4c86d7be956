/**
 * What the two strict flag classes share: each has 17 members at bit
 * positions 0..16 of a non-negative integer word, and construction from a
 * word with any other bit set is an error.
 */
module Bitfield {
  import opened Errors

  /** Members per class, so bit positions 0 .. Width - 1 are declared. */
  const Width: nat := 17

  function Pow2(n: nat): (p: nat)
    ensures p >= 1
  {
    if n == 0 then 1 else 2 * Pow2(n - 1)
  }

  /** The lowest n bits of v, bit 0 first. */
  function BitsOf(v: nat, n: nat): (b: seq<bool>)
    ensures |b| == n
  {
    if n == 0 then [] else [v % 2 == 1] + BitsOf(v / 2, n - 1)
  }

  /** The number whose bits are b, bit 0 first. */
  function FromBits(b: seq<bool>): (v: nat)
    ensures v < Pow2(|b|)
  {
    if b == [] then 0 else (if b[0] then 1 else 0) + 2 * FromBits(b[1..])
  }

  /** A number below 2^n is the number of its n bits. */
  lemma {:induction false} FromBitsOf(v: nat, n: nat)
    requires v < Pow2(n)
    ensures FromBits(BitsOf(v, n)) == v
  {
    if n > 0 {
      FromBitsOf(v / 2, n - 1);
      assert BitsOf(v, n)[1..] == BitsOf(v / 2, n - 1);
    }
  }

  /** A bit sequence is the bits of its number. */
  lemma {:induction false} BitsOfFromBits(b: seq<bool>)
    ensures BitsOf(FromBits(b), |b|) == b
  {
    if b != [] {
      var v := FromBits(b);
      assert v % 2 == 1 <==> b[0];
      assert v / 2 == FromBits(b[1..]);
      BitsOfFromBits(b[1..]);
    }
  }

  /** For v below 2^n: v is below 2^k exactly when bits k .. n-1 of v are clear. */
  lemma {:induction false} BelowIffHighBitsClear(v: nat, n: nat, k: nat)
    requires v < Pow2(n) && k <= n
    ensures v < Pow2(k) <==> forall i | k <= i < n :: !BitsOf(v, n)[i]
  {
    if n > 0 {
      assert Pow2(n) == 2 * Pow2(n - 1);
      if k > 0 {
        BelowIffHighBitsClear(v / 2, n - 1, k - 1);
        assert Pow2(k) == 2 * Pow2(k - 1);
        ShiftedClear(v, n, k, v / 2, n - 1);
      } else {
        BelowIffHighBitsClear(v / 2, n - 1, 0);
        ShiftedClear(v, n, 1, v / 2, n - 1);
        assert v < 1 <==> !BitsOf(v, n)[0] && v / 2 < 1;
        assert (forall i | 0 <= i < n :: !BitsOf(v, n)[i])
           <==> !BitsOf(v, n)[0] && (forall i | 1 <= i < n :: !BitsOf(v, n)[i]);
      }
    }
  }

  /** Bits k.. of v are clear exactly when bits k-1.. of v / 2 are. */
  lemma ShiftedClear(v: nat, n: nat, k: nat, half: nat, m: nat)
    requires 1 <= k <= n && half == v / 2 && m == n - 1
    ensures (forall i | k <= i < n :: !BitsOf(v, n)[i])
        <==> (forall j | k - 1 <= j < m :: !BitsOf(half, m)[j])
  {
    assert BitsOf(v, n) == [v % 2 == 1] + BitsOf(half, m);
    assert forall i | 1 <= i < n :: BitsOf(v, n)[i] == BitsOf(half, m)[i - 1];
    assert forall j | 0 <= j < m :: BitsOf(half, m)[j] == BitsOf(v, n)[j + 1];
  }

  /** 2^Width is one above the mask 0x1FFFF of all declared members. */
  lemma WidthBound()
    ensures Pow2(Width) == 0x2_0000
  {
    assert Pow2(4) == 0x10;
    assert Pow2(8) == 0x100;
    assert Pow2(12) == 0x1000;
    assert Pow2(16) == 0x1_0000;
  }

  /** The word has no bit outside the declared members (mask 0x1FFFF). */
  predicate Strict(v: nat) {
    v < Pow2(Width)
  }

  /** Strictness of a 32-bit word means: none of its bits 17..31 is set. */
  lemma StrictIffNoHighBit(v: nat)
    requires v < Pow2(32)
    ensures Strict(v) <==> forall i | Width <= i < 32 :: !BitsOf(v, 32)[i]
  {
    BelowIffHighBitsClear(v, 32, Width);
  }

  // A strict flag class over the members of order: the member at index i
  // owns bit i.

  /** No member of order appears twice. */
  predicate NoRepeats<T(==)>(order: seq<T>) {
    forall i, j | 0 <= i < j < |order| :: order[i] != order[j]
  }

  /** The member bits of a flag set, bit 0 first. */
  function Flags<T(==)>(order: seq<T>, s: set<T>): (b: seq<bool>)
    ensures |b| == |order|
  {
    seq(|order|, i requires 0 <= i < |order| => order[i] in s)
  }

  /** The integer value of a flag set: the sum of its members' bits. */
  function Value<T(==)>(order: seq<T>, s: set<T>): (v: nat)
    ensures v < Pow2(|order|)
  {
    FromBits(Flags(order, s))
  }

  /** The members whose bit is set in v. */
  function Members<T(==)>(order: seq<T>, v: nat): set<T> {
    set i | 0 <= i < |order| && BitsOf(v, |order|)[i] :: order[i]
  }

  /** With no repeated member, the member at index i is in Members exactly when bit i is set. */
  lemma MembersIndex<T>(order: seq<T>, v: nat, i: nat)
    requires NoRepeats(order) && i < |order|
    ensures order[i] in Members(order, v) <==> BitsOf(v, |order|)[i]
  {
    if order[i] in Members(order, v) {
      var j :| 0 <= j < |order| && BitsOf(v, |order|)[j] && order[j] == order[i];
      assert j == i;
    }
  }

  /**
   * Strict construction from an integer: it fails with e exactly when a bit
   * above the declared members is set, and otherwise holds exactly the
   * integer's bits, so that its value is the integer itself.
   */
  function Decode<T(==)>(order: seq<T>, v: nat, e: Error): (r: Result<set<T>>)
    requires NoRepeats(order)
    ensures r.Ok? <==> v < Pow2(|order|)
    ensures !r.Ok? ==> r == Err(e)
    ensures r.Ok? ==> Value(order, r.value) == v
    ensures r.Ok? ==> forall i | 0 <= i < |order| :: order[i] in r.value <==> BitsOf(v, |order|)[i]
    ensures r.Ok? ==> forall m | m in r.value :: m in order
  {
    if v >= Pow2(|order|) then Err(e)
    else
      var s := Members(order, v);
      assert Flags(order, s) == BitsOf(v, |order|) by {
        forall i | 0 <= i < |order| ensures Flags(order, s)[i] == BitsOf(v, |order|)[i] {
          MembersIndex(order, v, i);
        }
      }
      FromBitsOf(v, |order|);
      Ok(s)
  }

  /** Every flag set of declared members survives the trip through its integer value. */
  lemma DecodeValue<T>(order: seq<T>, s: set<T>, e: Error)
    requires NoRepeats(order) && forall m | m in s :: m in order
    ensures Decode(order, Value(order, s), e) == Ok(s)
  {
    BitsOfFromBits(Flags(order, s));
    var t := Decode(order, Value(order, s), e).value;
    forall m ensures m in t <==> m in s {
      if m in s {
        var i :| 0 <= i < |order| && order[i] == m;
      }
      if m in t {
        var i :| 0 <= i < |order| && BitsOf(Value(order, s), |order|)[i] && order[i] == m;
      }
    }
    assert t == s;
  }
}

/** Fitness Machine Features field, section 4.3.1.1 of the Fitness Machine Service specification. */
module MachineFeatures {
  import opened Errors
  import opened Bitfield

  datatype Feature =
    | AverageSpeed | Cadence | Distance | Inclination | ElevationGain | Pace | StepCount | Resistance | StrideCount | ExpendedEnergy | HeartRate | MetabolicEquivalent | ElapsedTime | RemainingTime | PowerMeasurement | ForceOnBeltAndPowerOutput | UserDataRetention

  /** The members in declaration order: the member at index i owns bit i. */
  const Order: seq<Feature> := [
    AverageSpeed, Cadence, Distance, Inclination,
    ElevationGain, Pace, StepCount, Resistance,
    StrideCount, ExpendedEnergy, HeartRate, MetabolicEquivalent,
    ElapsedTime, RemainingTime, PowerMeasurement, ForceOnBeltAndPowerOutput,
    UserDataRetention]

  /** The explicit bit position of each member. */
  function Position(m: Feature): (i: nat)
    ensures i < |Order| && Order[i] == m
  {
    match m
    case AverageSpeed => 0
    case Cadence => 1
    case Distance => 2
    case Inclination => 3
    case ElevationGain => 4
    case Pace => 5
    case StepCount => 6
    case Resistance => 7
    case StrideCount => 8
    case ExpendedEnergy => 9
    case HeartRate => 10
    case MetabolicEquivalent => 11
    case ElapsedTime => 12
    case RemainingTime => 13
    case PowerMeasurement => 14
    case ForceOnBeltAndPowerOutput => 15
    case UserDataRetention => 16
  }

  /** Distinct members own distinct bits. */
  lemma PositionInjective(a: Feature, b: Feature)
    requires Position(a) == Position(b)
    ensures a == b
  {
  }

  /** The declared members are Width in number and none is repeated. */
  lemma OrderWellFormed()
    ensures |Order| == Width && NoRepeats(Order)
  {
    forall i, j | 0 <= i < j < |Order| ensures Order[i] != Order[j] {
      assert Position(Order[i]) == i && Position(Order[j]) == j;
    }
  }

  /**
   * Strict construction from an integer: it fails exactly when a bit above
   * position 16 is set, and otherwise a member is in the set exactly when
   * its bit is set, so that the set's value is the integer itself.
   */
  function FromWord(v: nat): (r: Result<set<Feature>>)
    ensures r.Ok? <==> Strict(v)
    ensures !r.Ok? ==> r == Err(UndefinedFeatureBits(v))
    ensures r.Ok? ==> Value(Order, r.value) == v
    ensures r.Ok? ==> forall m :: m in r.value <==> BitsOf(v, Width)[Position(m)]
  {
    OrderWellFormed();
    Decode(Order, v, UndefinedFeatureBits(v))
  }

  /** Every flag set survives the trip through its integer value. */
  lemma FromValue(s: set<Feature>)
    ensures FromWord(Value(Order, s)) == Ok(s)
  {
    OrderWellFormed();
    assert forall m | m in s :: Order[Position(m)] == m;
    DecodeValue(Order, s, UndefinedFeatureBits(Value(Order, s)));
  }
}

/** Target Setting Features field, section 4.3.1.2 of the Fitness Machine Service specification. */
module MachineSettings {
  import opened Errors
  import opened Bitfield

  datatype Setting =
    | Speed | Incline | Resistance | Power | HeartRate | Energy | Steps | Strides | Distance | Time | TimeTwoZones | TimeThreeZones | TimeFiveZones | BikeSimulation | Circumference | SpinDown | Cadence

  /** The members in declaration order: the member at index i owns bit i. */
  const Order: seq<Setting> := [
    Speed, Incline, Resistance, Power,
    HeartRate, Energy, Steps, Strides,
    Distance, Time, TimeTwoZones, TimeThreeZones,
    TimeFiveZones, BikeSimulation, Circumference, SpinDown,
    Cadence]

  /** The explicit bit position of each member. */
  function Position(m: Setting): (i: nat)
    ensures i < |Order| && Order[i] == m
  {
    match m
    case Speed => 0
    case Incline => 1
    case Resistance => 2
    case Power => 3
    case HeartRate => 4
    case Energy => 5
    case Steps => 6
    case Strides => 7
    case Distance => 8
    case Time => 9
    case TimeTwoZones => 10
    case TimeThreeZones => 11
    case TimeFiveZones => 12
    case BikeSimulation => 13
    case Circumference => 14
    case SpinDown => 15
    case Cadence => 16
  }

  /** Distinct members own distinct bits. */
  lemma PositionInjective(a: Setting, b: Setting)
    requires Position(a) == Position(b)
    ensures a == b
  {
  }

  /** The declared members are Width in number and none is repeated. */
  lemma OrderWellFormed()
    ensures |Order| == Width && NoRepeats(Order)
  {
    forall i, j | 0 <= i < j < |Order| ensures Order[i] != Order[j] {
      assert Position(Order[i]) == i && Position(Order[j]) == j;
    }
  }

  /**
   * Strict construction from an integer: it fails exactly when a bit above
   * position 16 is set, and otherwise a member is in the set exactly when
   * its bit is set, so that the set's value is the integer itself.
   */
  function FromWord(v: nat): (r: Result<set<Setting>>)
    ensures r.Ok? <==> Strict(v)
    ensures !r.Ok? ==> r == Err(UndefinedSettingBits(v))
    ensures r.Ok? ==> Value(Order, r.value) == v
    ensures r.Ok? ==> forall m :: m in r.value <==> BitsOf(v, Width)[Position(m)]
  {
    OrderWellFormed();
    Decode(Order, v, UndefinedSettingBits(v))
  }

  /** Every flag set survives the trip through its integer value. */
  lemma FromValue(s: set<Setting>)
    ensures FromWord(Value(Order, s)) == Ok(s)
  {
    OrderWellFormed();
    assert forall m | m in s :: Order[Position(m)] == m;
    DecodeValue(Order, s, UndefinedSettingBits(Value(Order, s)));
  }
}

/** Movement direction of a cross trainer: a strict enumeration of 0 and 1. */
module MovementDirection {
  import opened Errors

  datatype Direction = Forward | Backward

  function ToInt(d: Direction): (v: int)
    ensures 0 <= v <= 1
  {
    match d
    case Forward => 0
    case Backward => 1
  }

  /** Strict construction: only 0 and 1 name a direction. */
  function FromInt(v: int): (r: Result<Direction>)
    ensures r.Ok? <==> v == 0 || v == 1
    ensures r.Ok? ==> ToInt(r.value) == v
    ensures !r.Ok? ==> r == Err(UndefinedDirection(v))
  {
    if v == 0 then Ok(Forward)
    else if v == 1 then Ok(Backward)
    else Err(UndefinedDirection(v))
  }

  lemma FromToInt(d: Direction)
    ensures FromInt(ToInt(d)) == Ok(d)
  {
  }
}
