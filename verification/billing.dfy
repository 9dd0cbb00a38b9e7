/** The fee calculation of the parking lot (`BillingEngine`).

    Time is a whole number of seconds and money a whole number of hundredths
    of the currency unit. The Python code's floating-point amounts and multipliers
    become exact integers and rationals, so its "add a tiny epsilon, then
    round to two decimals" step becomes exact round-half-up. */
module Billing {
  import opened Results

  type Pos = n: int | n > 0 witness 1

  /** An exact rational `num / den`; stands in for a float multiplier. */
  datatype Ratio = Ratio(num: int, den: Pos)

  /** The multiplier for vehicle types the configuration does not mention. */
  const One := Ratio(1, 1)

  const SecondsPerHour := 3600

  /** Settings as passed to the engine's constructor; `None` is a missing key. */
  datatype Settings = Settings(
    firstHours: Option<int>,
    firstHoursFee: Option<int>,
    perHourFee: Option<int>,
    multipliers: Option<map<string, Ratio>>)

  /** A configured engine: the first `firstHours` hours cost `firstFee`
      together, every started hour after that costs `perHourFee`, and the
      result is scaled by the vehicle type's multiplier. Fees are in hundredths. */
  datatype Engine = Engine(firstHours: int, firstFee: int, perHourFee: int, mult: map<string, Ratio>)

  /** The breakdown returned for one stay. The fee is in hundredths. */
  datatype Breakdown = Breakdown(
    durationSeconds: nat,
    durationHours: Ratio,
    chargedHours: int,
    extraHours: nat,
    fee: int,
    multiplier: Ratio)

  /** The only way a fee calculation fails: the exit precedes the entry. */
  datatype FeeError = ExitBeforeEntry

  /** Builds an engine; each missing setting takes its documented default
      (2 hours, 20.00 for the first tier, 10.00 per extra hour, only cars
      configured, at multiplier 1). */
  function NewEngine(s: Settings): (e: Engine)
    ensures s.firstHours.None? ==> e.firstHours == 2
    ensures s.firstHoursFee.None? ==> e.firstFee == 2000
    ensures s.perHourFee.None? ==> e.perHourFee == 1000
    ensures s.multipliers.None? ==> e.mult == map["car" := One]
    ensures s.firstHours.Some? ==> e.firstHours == s.firstHours.value
    ensures s.firstHoursFee.Some? ==> e.firstFee == s.firstHoursFee.value
    ensures s.perHourFee.Some? ==> e.perHourFee == s.perHourFee.value
    ensures s.multipliers.Some? ==> e.mult == s.multipliers.value
  {
    Engine(
      if s.firstHours.Some? then s.firstHours.value else 2,
      if s.firstHoursFee.Some? then s.firstHoursFee.value else 2000,
      if s.perHourFee.Some? then s.perHourFee.value else 1000,
      if s.multipliers.Some? then s.multipliers.value else map["car" := One])
  }

  /** The whole hours billed beyond the first tier for a stay of `seconds`.
      The first tier is inclusive; a started extra hour counts in full. */
  function ExtraHours(firstHours: int, seconds: nat): (h: nat)
    ensures seconds <= firstHours * SecondsPerHour ==> h == 0
    ensures seconds > firstHours * SecondsPerHour ==>
      && h >= 1
      && (h - 1) * SecondsPerHour < seconds - firstHours * SecondsPerHour <= h * SecondsPerHour
  {
    if seconds <= firstHours * SecondsPerHour then 0
    else (seconds - firstHours * SecondsPerHour + SecondsPerHour - 1) / SecondsPerHour
  }

  /** The integer nearest to `num / den`, a tie going up (towards +infinity). */
  function RoundHalfUp(num: int, den: Pos): (r: int)
    ensures den * (2 * r - 1) <= 2 * num < den * (2 * r + 1)
  {
    var q := (2 * num + den) / (2 * den);
    var rem := (2 * num + den) % (2 * den);
    assert 2 * num + den == 2 * den * q + rem;
    q
  }

  /** The multiplier applied to a vehicle type. */
  function Multiplier(e: Engine, vtype: string): (m: Ratio)
    ensures vtype in e.mult ==> m == e.mult[vtype]
    ensures vtype !in e.mult ==> m == One
  {
    if vtype in e.mult then e.mult[vtype] else One
  }

  /** The fee, before the multiplier, for a stay with `extra` extra hours. */
  function BaseFee(e: Engine, extra: nat): int {
    e.firstFee + extra * e.perHourFee
  }

  /** `fee` is `base * m` rounded to the nearest hundredth, ties going up. */
  ghost predicate RoundedProduct(base: int, m: Ratio, fee: int) {
    m.den * (2 * fee - 1) <= 2 * (base * m.num) < m.den * (2 * fee + 1)
  }

  /** Prices the stay from `entry` to `exit` (seconds) for a vehicle type. */
  function CalculateFee(e: Engine, entry: int, exit: int, vtype: string): (r: Result<Breakdown, FeeError>)
    ensures r.Err? <==> exit < entry
    ensures r.Ok? ==>
      var b := r.value;
      var d := exit - entry;
      && b.durationSeconds == d
      && b.durationHours == Ratio(d, SecondsPerHour)
      && b.chargedHours >= e.firstHours
      && b.chargedHours - e.firstHours == b.extraHours
      && (d <= e.firstHours * SecondsPerHour <==> b.extraHours == 0)
      && (b.extraHours > 0 ==>
            (b.extraHours - 1) * SecondsPerHour < d - e.firstHours * SecondsPerHour <= b.extraHours * SecondsPerHour)
      && b.multiplier == (if vtype in e.mult then e.mult[vtype] else One)
      && RoundedProduct(e.firstFee + b.extraHours * e.perHourFee, b.multiplier, b.fee)
  {
    if exit < entry then Err(ExitBeforeEntry)
    else
      var seconds := exit - entry;
      var extra := ExtraHours(e.firstHours, seconds);
      var m := Multiplier(e, vtype);
      var fee := RoundHalfUp(BaseFee(e, extra) * m.num, m.den);
      Ok(Breakdown(seconds, Ratio(seconds, SecondsPerHour), e.firstHours + extra, extra, fee, m))
  }

  /** A stay within the first tier, including an empty one, pays the first-tier fee. */
  lemma FirstTierFlat(e: Engine, entry: int, exit: int, vtype: string)
    requires entry <= exit <= entry + e.firstHours * SecondsPerHour
    ensures CalculateFee(e, entry, exit, vtype).Ok?
    ensures CalculateFee(e, entry, exit, vtype).value.chargedHours == e.firstHours
    ensures CalculateFee(e, entry, exit, vtype).value.extraHours == 0
    ensures RoundedProduct(e.firstFee, Multiplier(e, vtype), CalculateFee(e, entry, exit, vtype).value.fee)
  {
  }

  /** The engine the application configures: 2 hours for 20.00, then 10.00
      per hour, with multipliers car 1, bike 0.5, ev 1.2 and heavy 1.5. */
  const AppEngine := Engine(2, 2000, 1000,
    map["car" := One, "bike" := Ratio(1, 2), "ev" := Ratio(6, 5), "heavy" := Ratio(3, 2)])

  /** Worked cases for the application's engine, entering at 10:00: leaving
      at 12:00 costs 20.00; at 12:01 one extra hour is billed, 30.00 for a
      car, 15.00 for a bike, 45.00 for a heavy vehicle; an unknown type pays
      the car price. */
  lemma AppEngineExamples()
    ensures CalculateFee(AppEngine, 36000, 43200, "car") == Ok(Breakdown(7200, Ratio(7200, 3600), 2, 0, 2000, One))
    ensures CalculateFee(AppEngine, 36000, 43260, "car").value.extraHours == 1
    ensures CalculateFee(AppEngine, 36000, 43260, "car").value.fee == 3000
    ensures CalculateFee(AppEngine, 36000, 43260, "bike").value.fee == 1500
    ensures CalculateFee(AppEngine, 36000, 43260, "heavy").value.fee == 4500
    ensures CalculateFee(AppEngine, 36000, 43260, "truck").value.fee == 3000
  {
  }

  /** Cancelling a positive factor from a strict inequality. */
  lemma CancelPositive(x: int, y: int, d: int)
    requires d > 0 && d * x < d * y
    ensures x < y
  {
  }

  /** Floor division by a positive divisor preserves order. */
  lemma DivMonotone(x: int, y: int, d: int)
    requires x <= y && d > 0
    ensures x / d <= y / d
  {
    assert d * (x / d) <= x;
    assert y < d * (y / d + 1);
    CancelPositive(x / d, y / d + 1, d);
  }

  /** Rounding to the nearest hundredth preserves order. */
  lemma RoundHalfUpMonotone(a: int, b: int, den: Pos)
    requires a <= b
    ensures RoundHalfUp(a, den) <= RoundHalfUp(b, den)
  {
    DivMonotone(2 * a + den, 2 * b + den, 2 * den);
  }

  /** A longer stay never has fewer extra hours. */
  lemma ExtraHoursMonotone(firstHours: int, s1: nat, s2: nat)
    requires s1 <= s2
    ensures ExtraHours(firstHours, s1) <= ExtraHours(firstHours, s2)
  {
    var tier := firstHours * SecondsPerHour;
    if s1 > tier {
      DivMonotone(s1 - tier + SecondsPerHour - 1, s2 - tier + SecondsPerHour - 1, SecondsPerHour);
    }
  }

  /** For a fixed vehicle type, a longer stay never costs less, provided the
      extra-hour fee and the type's multiplier are not negative. */
  lemma FeeMonotone(e: Engine, entry: int, exit1: int, exit2: int, vtype: string)
    requires entry <= exit1 <= exit2
    requires e.perHourFee >= 0
    requires Multiplier(e, vtype).num >= 0
    ensures CalculateFee(e, entry, exit1, vtype).Ok? && CalculateFee(e, entry, exit2, vtype).Ok?
    ensures CalculateFee(e, entry, exit1, vtype).value.fee <= CalculateFee(e, entry, exit2, vtype).value.fee
  {
    var m := Multiplier(e, vtype);
    var h1 := ExtraHours(e.firstHours, exit1 - entry);
    var h2 := ExtraHours(e.firstHours, exit2 - entry);
    ExtraHoursMonotone(e.firstHours, exit1 - entry, exit2 - entry);
    assert h1 * e.perHourFee <= h2 * e.perHourFee by {
      MulMonotone(h1, h2, e.perHourFee);
    }
    assert BaseFee(e, h1) * m.num <= BaseFee(e, h2) * m.num by {
      MulMonotone(BaseFee(e, h1), BaseFee(e, h2), m.num);
    }
    RoundHalfUpMonotone(BaseFee(e, h1) * m.num, BaseFee(e, h2) * m.num, m.den);
  }

  /** Multiplying by a non-negative factor preserves order. */
  lemma MulMonotone(a: int, b: int, k: int)
    requires a <= b && k >= 0
    ensures a * k <= b * k
  {
    assert b * k - a * k == (b - a) * k;
  }

  /** With non-negative fees and multiplier, the fee is never negative. */
  lemma FeeNonNegative(e: Engine, entry: int, exit: int, vtype: string)
    requires entry <= exit
    requires e.firstFee >= 0 && e.perHourFee >= 0
    requires Multiplier(e, vtype).num >= 0
    ensures CalculateFee(e, entry, exit, vtype).Ok?
    ensures CalculateFee(e, entry, exit, vtype).value.fee >= 0
  {
    var m := Multiplier(e, vtype);
    var h := ExtraHours(e.firstHours, exit - entry);
    MulMonotone(0, h, e.perHourFee);
    MulMonotone(0, BaseFee(e, h), m.num);
    RoundHalfUpMonotone(0, BaseFee(e, h) * m.num, m.den);
    assert RoundHalfUp(0, m.den) == 0;
  }
}
