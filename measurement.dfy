/**
 * `Measurement`: the object that owns the calibration and the median window,
 * and turns each frame into a reading (`append_measurement`). Reading the
 * serial port, the clock, the CSV file and the plot are its collaborators and
 * are not modelled; the frame arrives as bytes and `np.exp` as a parameter.
 */
module Acquisition {
  import opened Outcomes
  import opened Hex
  import opened FrameDecoder
  import opened Calibration
  import opened MedianFilter

  /**
   * What `append_measurement` returns for a data frame: the temperature, the
   * compensated glucose value and the smoothed value (the timestamp and the
   * reference concentration, always NaN, are left out).
   */
  datatype Reading = Reading(temperature: real, glucComp: real, glucSmooth: real)

  class Measurement {
    const calib: Calib
    /** `prevmeasurements`: the compensated values the median is taken over. */
    var prevmeasurements: seq<real>
    /** Every compensated value pushed so far, oldest first. */
    ghost var history: seq<real>

    /** The window always holds the last `medianfiltwin` values pushed. */
    ghost predicate Valid()
      reads this
    {
      prevmeasurements == Window(history)
    }

    constructor (calib: Calib)
      ensures Valid() && this.calib == calib
      ensures prevmeasurements == [] && history == []
    {
      this.calib := calib;
      prevmeasurements := [];
      history := [];
    }

    /**
     * Lines 309-313: append below capacity, otherwise drop the oldest value and
     * append; then the median of the window.
     */
    method Push(x: real) returns (smooth: real)
      requires Valid()
      modifies this
      ensures Valid() && history == old(history) + [x]
      ensures prevmeasurements ==
                if |old(prevmeasurements)| < MedianFiltWin then old(prevmeasurements) + [x]
                else old(prevmeasurements)[1..] + [x]
      ensures 0 < |prevmeasurements| <= MedianFiltWin
      ensures prevmeasurements[|prevmeasurements| - 1] == x
      ensures smooth == Median(prevmeasurements)
      ensures Min(prevmeasurements) <= smooth <= Max(prevmeasurements)
      ensures CountAtMost(prevmeasurements, smooth) >= (|prevmeasurements| + 1) / 2
      ensures CountAtLeast(prevmeasurements, smooth) >= (|prevmeasurements| + 1) / 2
      ensures old(history) == [] ==> smooth == x
    {
      WindowPush(history, x);
      if |prevmeasurements| < MedianFiltWin {
        prevmeasurements := prevmeasurements + [x];
      } else {
        prevmeasurements := prevmeasurements[1..] + [x];
      }
      history := history + [x];
      smooth := Median(prevmeasurements);
      MedianBounds(prevmeasurements);
      MedianSplitsWindow(prevmeasurements);
      if old(history) == [] {
        assert prevmeasurements == [x];
        MedianSingle(x);
      }
    }

    /**
     * One pass of `append_measurement` on the frame `data`. A frame that is
     * not a data message leaves `validData` unset, so the source raises
     * AttributeError; an IndexError from a short frame or from a channel index
     * the calibration puts out of range propagates. Only a data frame whose
     * glucose value can be computed changes the window.
     */
    method AppendMeasurement(data: seq<byte>, exp: real -> real) returns (r: Raises<Reading>)
      requires Valid()
      requires forall t :: exp(t) > 0.0
      requires exp(0.0) == 1.0
      modifies this
      ensures Valid()
      ensures Decode(data).Raised? ==>
                r == Raised(Decode(data).error) && history == old(history)
                && prevmeasurements == old(prevmeasurements)
      ensures Decode(data).Returns? && !Decode(data).value.Data? ==>
                r == Raised(AttributeError) && history == old(history)
                && prevmeasurements == old(prevmeasurements)
      ensures Decode(data).Returns? && Decode(data).value.Data? ==>
                var m := Decode(data).value;
                var g := CalcGlucose(calib, m.channels, exp(TemperatureExponent(calib, m.temperature)));
                && (g.Raised? ==>
                      && r == Raised(g.error) && history == old(history)
                      && prevmeasurements == old(prevmeasurements))
                && (g.Returns? ==>
                      && history == old(history) + [g.value.1]
                      && (calib.tempconstant == 0.0 ==> g.value.1 == g.value.0)
                      && r == Returns(Reading(m.temperature, g.value.1, Median(prevmeasurements))))
    {
      var decoded := Decode(data);
      if decoded.Raised? {
        return Raised(decoded.error);
      }
      var m := decoded.value;
      if !m.Data? {
        return Raised(AttributeError);
      }
      var g := CalcGlucose(calib, m.channels, exp(TemperatureExponent(calib, m.temperature)));
      if g.Raised? {
        return Raised(g.error);
      }
      if calib.tempconstant == 0.0 {
        ZeroCoefficientUncompensated(calib, m.channels, m.temperature, exp);
      }
      var glucComp := g.value.1;
      var smooth := Push(glucComp);
      r := Returns(Reading(m.temperature, glucComp, smooth));
    }
  }
}
