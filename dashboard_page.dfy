/**
 * The dashboard's pure helpers: reading a device's latest CO2 value out
 * of a measurement of unknown casing, the CO2 badge, and the device
 * counter in the header.
 */
module DashboardPage {

  import opened Wrappers
  import opened Text
  import opened JsValues
  import opened Thresholds

  /**
   * `pickCo2`: `m?.co2 ?? m?.CO2 ?? m?.cO2`, read through `safeNum`. The
   * measurement may itself be missing.
   */
  function PickCo2(m: JsValue): (r: Option<real>)
    ensures r == SafeNum(FirstPresent([Get(m, "co2"), Get(m, "CO2"), Get(m, "cO2")]))
  {
    var present := FirstPresent([Get(m, "co2"), Get(m, "CO2"), Get(m, "cO2")]);
    CoalesceChain(Get(m, "co2"), Get(m, "CO2"), Get(m, "cO2"));
    assert present.IsNullish() ==> SafeNum(present) == None == SafeNum(Get(m, "cO2")) by {
      if present.IsNullish() {
        assert [Get(m, "co2"), Get(m, "CO2"), Get(m, "cO2")][2] == Get(m, "cO2");
      }
    }
    SafeNum(Coalesce(Coalesce(Get(m, "co2"), Get(m, "CO2")), Get(m, "cO2")))
  }

  /**
   * The first spelling that is present decides: a finite number under
   * `co2` is taken whatever the others hold, while a present but
   * non-numeric `co2` hides a good `CO2`.
   */
  lemma PickCo2FirstSpellingWins(m: JsValue, x: real, y: real)
    ensures Get(m, "co2") == Num(Finite(x)) ==> PickCo2(m) == Some(x)
    ensures Get(m, "co2").IsNullish() && Get(m, "CO2") == Num(Finite(y)) ==> PickCo2(m) == Some(y)
    ensures !Get(m, "co2").IsNullish() && !Get(m, "co2").Num? ==> PickCo2(m) == None
    ensures m.IsNullish() ==> PickCo2(m) == None
  {
  }

  datatype Badge = NoData | Good | OK | Bad {
    function Label(): string {
      match this
      case NoData => "No data"
      case Good => "Good"
      case OK => "OK"
      case Bad => "Bad"
    }

    /** The position of a numeric badge on the scale Good, OK, Bad. */
    function Rank(): nat
      requires !NoData?
    {
      match this
      case Good => 0
      case OK => 1
      case Bad => 2
    }
  }

  /** The CO2 values at which the badge steps from Good to OK and from OK to Bad. */
  const BadgeBounds: seq<real> := [800.0, 1200.0]

  /** `co2Badge`: "No data" without a reading, "Good" up to 800 ppm, "OK" up to 1200, "Bad" above. */
  function Co2Badge(co2: Option<real>): (r: Badge)
    ensures r == NoData <==> co2.None?
  {
    match co2
    case None => NoData
    case Some(c) =>
      if c <= 800.0 then Good
      else if c <= 1200.0 then OK
      else Bad
  }

  /** The badge's rank counts the bounds a reading exceeds, so it never improves as CO2 rises. */
  lemma BadgeBands(a: real, b: real)
    ensures Co2Badge(Some(a)).Rank() == CountExceeded(BadgeBounds, a)
    ensures a <= b ==> Co2Badge(Some(a)).Rank() <= Co2Badge(Some(b)).Rank()
  {
    BadgeCutOff(a);
    BadgeCutOff(b);
    if a <= b {
      CountExceededMonotone(BadgeBounds, a, b);
    }
  }

  lemma BadgeCutOff(c: real)
    ensures Co2Badge(Some(c)).Rank() == CountExceeded(BadgeBounds, c)
  {
    ExceededCutOff(BadgeBounds, c, Co2Badge(Some(c)).Rank());
  }

  // ---------- device counter ----------

  function DigitChar(d: nat): (c: char)
    requires d < 10
    ensures IsDigit(c)
  {
    (('0' as int) + d) as char
  }

  function DigitValue(c: char): nat
    requires IsDigit(c)
  {
    (c as int) - ('0' as int)
  }

  /** JavaScript's rendering of a non-negative integer: decimal digits, no leading zero. */
  function Decimal(n: nat): (s: string)
    ensures |s| >= 1
    ensures forall i :: 0 <= i < |s| ==> IsDigit(s[i])
    ensures s[0] == '0' ==> n == 0
    decreases n
  {
    if n < 10 then [DigitChar(n)] else Decimal(n / 10) + [DigitChar(n % 10)]
  }

  /** The value of a string of decimal digits. */
  function DigitsValue(s: string): nat
    requires forall i :: 0 <= i < |s| ==> IsDigit(s[i])
  {
    if s == [] then 0 else DigitsValue(s[..|s| - 1]) * 10 + DigitValue(s[|s| - 1])
  }

  /** Reading the digits back gives the number. */
  lemma {:induction false} DecimalRoundTrip(n: nat)
    ensures DigitsValue(Decimal(n)) == n
    decreases n
  {
    if n >= 10 {
      var s := Decimal(n);
      assert s[..|s| - 1] == Decimal(n / 10);
      DecimalRoundTrip(n / 10);
    }
  }

  /** The header's device counter: "1 device", otherwise the count and "devices". */
  function DeviceCountLabel(n: nat): (r: string)
    ensures r == "1 device" <==> n == 1
    ensures n != 1 ==> r == Decimal(n) + " devices"
  {
    if n == 1 then "1 device" else Decimal(n) + " devices"
  }

  /** Different counts are always labelled differently. */
  lemma DeviceCountLabelInjective(a: nat, b: nat)
    requires DeviceCountLabel(a) == DeviceCountLabel(b)
    ensures a == b
  {
    if a != 1 && b != 1 {
      var la, lb := Decimal(a), Decimal(b);
      assert la == (la + " devices")[..|la|];
      assert |la| == |lb|;
      assert la == lb by {
        assert la == DeviceCountLabel(a)[..|la|];
        assert lb == DeviceCountLabel(b)[..|lb|];
      }
      DecimalRoundTrip(a);
      DecimalRoundTrip(b);
    }
  }
}
