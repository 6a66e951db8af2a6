/**
  The wavelength estimate of get_wavelength_from_std_tth
  (profile_collection/startup/42-energy-calib.py, lines 36-83), up to the
  list of wavelength samples: peaks are found on the intensities, each peak
  window is fitted to refine its center, and the centers are paired with the
  reference reflections.

  The Voigt lineshape fit of lmfit is an iterative floating-point
  least-squares fit: it enters as the parameter `fit`, a function from the
  angle and intensity slices of one window to the fitted center. np.deg2rad
  and lamda_from_bragg enter as `deg2rad` and `lamda`.
*/
module Calibration {
  import PeakFinding
  import Pairing
  import Integers

  /** find_peaks is called with its defaults sides=3, intensity_threshold=0. */
  const Sides: nat := 3
  const IntensityThreshold: real := 0.0

  /** The index where a Python slice bound lands in a sequence of length n. */
  function SliceBound(i: int, n: nat): (b: nat)
    ensures b <= n
  {
    if i < 0 then Integers.Max(n + i, 0) else Integers.Min(i, n)
  }

  /** Python's `s[lo:hi]`. */
  function PySlice(s: seq<real>, lo: int, hi: int): seq<real> {
    var start := SliceBound(lo, |s|);
    var stop := SliceBound(hi, |s|);
    if stop <= start then [] else s[start..stop]
  }

  /** `out.values['center']` for each window, in window order. */
  function FittedCenters(x: seq<real>, y: seq<real>, left: seq<int>, right: seq<int>,
                         fit: (seq<real>, seq<real>) -> real): seq<real>
    requires |left| == |right|
  {
    seq(|left|, k requires 0 <= k < |left| =>
      fit(PySlice(x, left[k], right[k]), PySlice(y, left[k], right[k])))
  }

  /** The fitting loop of lines 60-67: one fitted center per window. */
  method FitCenters(x: seq<real>, y: seq<real>, left: seq<int>, right: seq<int>,
                    fit: (seq<real>, seq<real>) -> real)
    returns (centers: seq<real>)
    requires |left| == |right|
    ensures centers == FittedCenters(x, y, left, right, fit)
  {
    centers := [];
    for k := 0 to |left|
      invariant |centers| == k
      invariant forall i :: 0 <= i < k ==>
                  centers[i] == fit(PySlice(x, left[i], right[i]), PySlice(y, left[i], right[i]))
    {
      var xs := PySlice(x, left[k], right[k]);
      var ys := PySlice(y, left[k], right[k]);
      centers := centers + [fit(xs, ys)];
    }
  }

  /**
    get_wavelength_from_std_tth without the final mean and standard deviation:
    the wavelengths computed from the peaks of `y`, fitted on their windows, in
    the order of Pairing.Samples. There are at most as many as there are peaks,
    and at most twice as many as there are reference entries.
  */
  method WavelengthSamples(x: seq<real>, y: seq<real>, d: seq<real>, ns: seq<real>, order: int,
                           fit: (seq<real>, seq<real>) -> real,
                           deg2rad: real -> real, lamda: (real, real, real) -> real)
    returns (wavelengths: seq<real>)
    requires order >= 1
    ensures var peaks := PeakFinding.Peaks(y, Sides, IntensityThreshold, order);
            var left := PeakFinding.LeftEdges(peaks, Sides);
            var right := PeakFinding.RightEdges(peaks, Sides, |y|);
            Pairing.Matches(wavelengths, Pairing.Samples(FittedCenters(x, y, left, right, fit), d, ns),
                            deg2rad, lamda)
    ensures |wavelengths| <= |PeakFinding.Peaks(y, Sides, IntensityThreshold, order)|
    ensures |wavelengths| <= 2 * Integers.Min(|d|, |ns|)
  {
    var l, r, c := PeakFinding.FindPeaks(y, Sides, IntensityThreshold, order);
    var lmfitCenters := FitCenters(x, y, l, r, fit);
    wavelengths := Pairing.Wavelengths(lmfitCenters, d, ns, deg2rad, lamda);
    Pairing.SampleBounds(lmfitCenters, d, ns);
  }

  /**
    A flat scan, or an empty one, gives no wavelength samples: the mean of
    line 83 would then be taken over an empty list.
  */
  lemma FlatScanGivesNoSamples(x: seq<real>, y: seq<real>, d: seq<real>, ns: seq<real>, order: int,
                               fit: (seq<real>, seq<real>) -> real)
    requires order >= 1
    requires forall i, j :: 0 <= i < |y| && 0 <= j < |y| ==> y[i] == y[j]
    ensures var peaks := PeakFinding.Peaks(y, Sides, IntensityThreshold, order);
            var left := PeakFinding.LeftEdges(peaks, Sides);
            var right := PeakFinding.RightEdges(peaks, Sides, |y|);
            Pairing.Samples(FittedCenters(x, y, left, right, fit), d, ns) == []
  {
    PeakFinding.ConstantScanHasNoPeaks(y, Sides, IntensityThreshold, order);
    var peaks := PeakFinding.Peaks(y, Sides, IntensityThreshold, order);
    var cs := FittedCenters(x, y, PeakFinding.LeftEdges(peaks, Sides), PeakFinding.RightEdges(peaks, Sides, |y|), fit);
    assert cs == [];
    Pairing.SampleBounds(cs, d, ns);
  }
}
