/**
 * The device detail page's pure helpers: the LED bar driven by the same
 * CO2 thresholds as the sensor firmware, the notice and quality bands,
 * the time-range presets, the from/to ordering of a custom range and the
 * "show more" table pagination.
 */
module DeviceDetailPage {

  import opened Wrappers
  import opened Thresholds

  // ---------- time range ----------

  datatype PresetKey = OneHour | OneDay | SevenDays | ThirtyDays | Custom | AllTime

  const HourMs: nat := 60 * 60 * 1000

  /**
   * `presetMs`: the window length in milliseconds of a sliding preset,
   * `null` for a custom range and for all time. Live refresh is offered
   * exactly when this is not `null`.
   */
  function PresetMs(p: PresetKey): (r: Option<nat>)
    ensures r.None? <==> p == Custom || p == AllTime
    ensures r.Some? ==> r.value > 0 && r.value % HourMs == 0
  {
    match p
    case OneHour => Some(1 * 60 * 60 * 1000)
    case OneDay => Some(24 * 60 * 60 * 1000)
    case SevenDays => Some(7 * 24 * 60 * 60 * 1000)
    case ThirtyDays => Some(30 * 24 * 60 * 60 * 1000)
    case Custom => None
    case AllTime => None
  }

  /** The sliding presets, shortest first, are an hour, a day, a week and thirty days. */
  lemma PresetWindows()
    ensures PresetMs(OneHour) == Some(3600000)
    ensures PresetMs(OneDay) == Some(86400000)
    ensures PresetMs(SevenDays) == Some(604800000)
    ensures PresetMs(ThirtyDays) == Some(2592000000)
    ensures PresetMs(OneHour).value < PresetMs(OneDay).value < PresetMs(SevenDays).value
              < PresetMs(ThirtyDays).value
  {
  }

  /**
   * The range sent to the server: the two picked instants (milliseconds),
   * swapped when the user picked them in the wrong order.
   */
  function OrderRange(f: int, t: int): (r: (int, int))
    ensures r.0 <= r.1
    ensures multiset{r.0, r.1} == multiset{f, t}
    ensures f <= t ==> r == (f, t)
  {
    var from := if f <= t then f else t;
    var to := if f <= t then t else f;
    (from, to)
  }

  // ---------- LED bar ----------

  /** The firmware's thresholds: LED `i` is lit once CO2 reaches `Co2Levels[i]` ppm. */
  const Co2Levels: seq<real> := [400.0, 600.0, 700.0, 800.0, 1000.0, 1200.0, 1400.0, 2000.0]

  lemma Co2LevelsAscending()
    ensures |Co2Levels| == 8 && Ascending(Co2Levels)
  {
  }

  /**
   * `ledCountForCo2`: one pass over the thresholds counting those the
   * reading has reached, clamped to `[0, 8]`.
   */
  method LedCountForCo2(co2: real) returns (count: int)
    ensures count == CountReached(Co2Levels, co2)
    ensures 0 <= count <= 8
  {
    count := 0;
    for i := 0 to |Co2Levels|
      invariant count == CountReached(Co2Levels[..i], co2)
    {
      if co2 >= Co2Levels[i] {
        count := count + 1;
      }
      assert Co2Levels[..i + 1][..i] == Co2Levels[..i];
    }
    assert Co2Levels[..|Co2Levels|] == Co2Levels;
    count := if 8 < count then 8 else count;
    count := if count < 0 then 0 else count;
  }

  /** The bar never shrinks as CO2 rises, is dark below 400 ppm and full from 2000 ppm. */
  lemma LedCountShape(a: real, b: real)
    ensures a <= b ==> CountReached(Co2Levels, a) <= CountReached(Co2Levels, b)
    ensures a < 400.0 ==> CountReached(Co2Levels, a) == 0
    ensures 2000.0 <= a ==> CountReached(Co2Levels, a) == 8
  {
    if a <= b {
      CountReachedMonotone(Co2Levels, a, b);
    }
    Co2LevelsAscending();
    CountReachedExtremes(Co2Levels, a);
  }

  /**
   * The page lights segment `i` when `i` is below the count; that is the
   * firmware's rule that LED `i` is on once CO2 reaches its threshold.
   */
  lemma LedLitIffThresholdReached(co2: real, i: int)
    requires 0 <= i < 8
    ensures i < CountReached(Co2Levels, co2) <==> Co2Levels[i] <= co2
  {
    Co2LevelsAscending();
    ReachedIsPrefix(Co2Levels, co2, i);
  }

  // ---------- colour bands ----------

  /** A notice level; its headline and advice are fixed per level. */
  datatype Level = Green | Orange | Red {
    function Severity(): nat {
      match this
      case Green => 0
      case Orange => 1
      case Red => 2
    }

    function Title(): string {
      match this
      case Green => "Air looks good ✅"
      case Orange => "Air needs freshening \U{1F7E7}"
      case Red => "High CO₂ — ventilate now \U{1F7E5}"
    }

    function Text(): string {
      match this
      case Green => "Great conditions. Keep normal ventilation habits. No action needed."
      case Orange => "Open a window for 5–10 minutes, or increase ventilation. You may feel drowsy soon."
      case Red => "Ventilate immediately (10–15 minutes). Avoid long stays, especially for kids or during sleep."
    }
  }

  /**
   * `segmentColorClass`: three green segments, then three orange, then red.
   * Each of the eight segments has the colour of the notice a reading
   * exactly at its LED threshold gets.
   */
  function SegmentColor(index: int): (r: Level)
    ensures 0 <= index < |Co2Levels| ==> Co2Notice(Some(Co2Levels[index])) == Some(r)
  {
    if index <= 2 then Green
    else if index <= 5 then Orange
    else Red
  }

  /** The eight segments read green, green, green, orange, orange, orange, red, red. */
  lemma SegmentLayout()
    ensures seq(8, i => SegmentColor(i)) == [Green, Green, Green, Orange, Orange, Orange, Red, Red]
  {
  }

  /** The CO2 values at which the notice steps up a level. */
  const NoticeBounds: seq<real> := [700.0, 1200.0]

  /**
   * `co2Notice`, by its level: no notice without a reading; otherwise
   * green up to 700 ppm, orange up to 1200, red above.
   */
  function Co2Notice(co2: Option<real>): (r: Option<Level>)
    ensures r.None? <==> co2.None?
  {
    match co2
    case None => None
    case Some(c) =>
      if c <= 700.0 then Some(Green)
      else if c <= 1200.0 then Some(Orange)
      else Some(Red)
  }

  /** The notice's severity counts the bounds the reading exceeds, so it never falls as CO2 rises. */
  lemma NoticeBands(a: real, b: real)
    ensures Co2Notice(Some(a)).value.Severity() == CountExceeded(NoticeBounds, a)
    ensures a <= b ==>
              Co2Notice(Some(a)).value.Severity() <= Co2Notice(Some(b)).value.Severity()
  {
    NoticeCutOff(a);
    NoticeCutOff(b);
    if a <= b {
      CountExceededMonotone(NoticeBounds, a, b);
    }
  }

  lemma NoticeCutOff(c: real)
    ensures Co2Notice(Some(c)).value.Severity() == CountExceeded(NoticeBounds, c)
  {
    ExceededCutOff(NoticeBounds, c, Co2Notice(Some(c)).value.Severity());
  }

  datatype Quality = Ideal | Excellent | Normal | NotGood | Bad | VeryBad | Terrible {
    function Rank(): nat {
      match this
      case Ideal => 0
      case Excellent => 1
      case Normal => 2
      case NotGood => 3
      case Bad => 4
      case VeryBad => 5
      case Terrible => 6
    }

    function Title(): string {
      match this
      case Ideal => "Ideal"
      case Excellent => "Excellent"
      case Normal => "Normal"
      case NotGood => "Not good"
      case Bad => "Bad"
      case VeryBad => "Very bad"
      case Terrible => "Terrible"
    }
  }

  /** The upper bounds, inclusive, of the first six quality bands. */
  const QualityBounds: seq<real> := [400.0, 600.0, 700.0, 1000.0, 1200.0, 1400.0]

  /**
   * `co2Quality`: seven bands from "Ideal" to "Terrible"; the band's rank is
   * the number of quality bounds the reading exceeds.
   */
  function Co2Quality(co2: real): (q: Quality)
    ensures q.Rank() == CountExceeded(QualityBounds, co2)
  {
    var q :=
      if co2 <= 400.0 then Ideal
      else if co2 <= 600.0 then Excellent
      else if co2 <= 700.0 then Normal
      else if co2 <= 1000.0 then NotGood
      else if co2 <= 1200.0 then Bad
      else if co2 <= 1400.0 then VeryBad
      else Terrible;
    ExceededCutOff(QualityBounds, co2, q.Rank());
    q
  }

  /** The band index counts the bounds the reading exceeds, so it never falls as CO2 rises. */
  lemma QualityBands(a: real, b: real)
    ensures Co2Quality(a).Rank() == CountExceeded(QualityBounds, a)
    ensures a <= b ==> Co2Quality(a).Rank() <= Co2Quality(b).Rank()
  {
    if a <= b {
      CountExceededMonotone(QualityBounds, a, b);
    }
  }

  /**
   * The notice and the quality badge agree: green covers Ideal to Normal,
   * orange Not good and Bad, red Very bad and Terrible.
   */
  lemma NoticeAgreesWithQuality(c: real)
    ensures Co2Notice(Some(c)).value == Green <==> Co2Quality(c).Rank() <= 2
    ensures Co2Notice(Some(c)).value == Orange <==> 3 <= Co2Quality(c).Rank() <= 4
    ensures Co2Notice(Some(c)).value == Red <==> 5 <= Co2Quality(c).Rank()
  {
  }

  // ---------- table pagination ----------

  const PageStep: nat := 10

  /** The rows the table shows: the first `visible` ones, or all when there are fewer. */
  function VisibleRows<T>(rows: seq<T>, visible: nat): (r: seq<T>)
    ensures |r| == if visible < |rows| then visible else |rows|
    ensures r == rows[..|r|]
  {
    if visible < |rows| then rows[..visible] else rows
  }

  /** "Show more": ten more rows, never more than there are. */
  function ShowMore(visible: nat, total: nat): (r: nat)
    ensures r <= total
    ensures visible < total ==> visible < r
    ensures r < total ==> r == visible + PageStep
    ensures r == total ==> total <= visible + PageStep
  {
    if visible + PageStep < total then visible + PageStep else total
  }

  /**
   * `canShowMore`: the button is enabled while some rows are hidden, which
   * is exactly when pressing it would show more rows.
   */
  predicate CanShowMore(visible: nat, total: nat): (b: bool)
    ensures b <==> ShowMore(visible, total) > visible
  {
    visible < total
  }

  /** The count after `clicks` presses of "Show more". */
  function ShowMoreTimes(visible: nat, total: nat, clicks: nat): nat
    decreases clicks
  {
    if clicks == 0 then visible else ShowMoreTimes(ShowMore(visible, total), total, clicks - 1)
  }

  /**
   * From any count up to the total, ceil((total - visible) / 10) presses
   * show every row and then disable the button.
   */
  lemma {:induction false} ShowMoreReachesAll(visible: nat, total: nat)
    requires visible <= total
    ensures ShowMoreTimes(visible, total, (total - visible + PageStep - 1) / PageStep) == total
    ensures !CanShowMore(ShowMoreTimes(visible, total, (total - visible + PageStep - 1) / PageStep), total)
    decreases total - visible
  {
    if visible < total {
      var next := ShowMore(visible, total);
      ShowMoreReachesAll(next, total);
      assert (total - visible + PageStep - 1) / PageStep == 1 + (total - next + PageStep - 1) / PageStep;
    }
  }
}
