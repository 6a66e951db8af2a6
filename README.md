# Energy calibration from a diffraction scan of a standard

This project models the calibration script
`profile_collection/startup/42-energy-calib.py`. The script estimates the
beam wavelength from a two-theta scan of a standard material with known
d-spacings. It works in three steps:

1. It finds peak windows in the intensity sequence (`find_peaks`).
2. It fits each window to refine the peak center.
3. It pairs the fitted centers with the reference reflections and applies Bragg's law.

The model covers the index arithmetic and filtering of `find_peaks` and the
pairing step of `get_wavelength_from_std_tth`. It proves what these steps
return. The numerics enter as function parameters: the Voigt fit, `np.deg2rad`
and `lamda_from_bragg`.

Files:

- `peak_finding.dfy`, module `PeakFinding`, models `find_peaks`.
  - scipy's `argrelmax` is specified as `ArgRelMax`: the ascending strict
    local maxima of the given order, with numpy's `clip` boundary mode.
  - `Mask` is the candidate filter `criteria`.
  - `Peaks` is line 26, which applies the mask back to the whole list of
    maxima, exactly as the code does.
  - `FindPeaks` builds the window arrays and clamps them in place.
- `pairing.dfy`, module `Pairing`, models lines 74-82.
  - The centers are split by sign with `Where`.
  - The left set is reversed with `Reverse`.
  - The two sides are zipped with the reference table with `PairSide`. `Samples` lists the resulting (|angle|, d, n) triples.
  - The imperative loops (`Wavelengths`, `AppendSide`) append one wavelength
    per triple.
- `calibration.dfy`, module `Calibration`, joins the steps up to the list of
  wavelength samples.
  - `FitCenters` is the fitting loop of lines 60-67.
  - `WavelengthSamples` is `get_wavelength_from_std_tth` without the mean and
    the standard deviation.

Three behaviours of the code are worth stating outright:

- **Left edge.** The comment at line 16 says a peak needs `sides` samples of
  data to work with, but line 18 filters only the right edge.
  - At the left, `chi[p - sides]` on line 23 is a Python negative index when
    `p < sides`, so it compares against the end of the scan.
  - `LeftEdgeNotFiltered` exhibits a peak at index 1 with `sides = 2` that is
    returned.
  - `WrapAroundDropsPeak` exhibits a maximum that is dropped because of the
    value at the far end of the scan.
- **Left peak order.** Line 77 walks the left peaks in reversed list order.
  For ascending centers that is nearest the beam first
  (`AscendingCentersNearestFirst`).
- **Negation.** Negating the centers without reversing them changes which
  reflection each peak is paired with (`NegationAloneChangesPairing`).
  Mirroring the scan exchanges the two sides exactly (`MirrorSwapsSides`).
  Mirroring means negating the centers and reversing their order.

## Model

| member | source | states |
|---|---|---|
| PeakFinding.ArgRelMax | profile_collection/startup/42-energy-calib.py:14 | the output is strictly ascending and in range, and an index is in it exactly when it is a strict local maximum of the order against its clipped neighbours |
| PeakFinding.RelMaxFrom | profile_collection/startup/42-energy-calib.py:14 | the maxima from index k on: each output lies in [k, len), passes the test, every passing index is present, ascending |
| PeakFinding.KeepBelow | profile_collection/startup/42-energy-calib.py:17-18 | `preliminary_peaks2` keeps exactly the maxima below `len(chi) - sides` and is no longer than its input |
| PeakFinding.KeepBelowIsPrefix | profile_collection/startup/42-energy-calib.py:17-18 | on an ascending list the right-edge filter keeps a prefix of it |
| PeakFinding.SelectWhere | profile_collection/startup/42-energy-calib.py:26 | boolean-mask selection yields no more elements than the mask has entries |
| PeakFinding.SelectWhereMember | profile_collection/startup/42-energy-calib.py:26 | a value is selected iff it sits in the indexed array at a position where the mask is true |
| PeakFinding.SelectWherePrefix | profile_collection/startup/42-energy-calib.py:26 | a mask reads only as many entries of the indexed array as it is long |
| PeakFinding.SelectWhereIncreasing | profile_collection/startup/42-energy-calib.py:26 | selecting from an ascending array gives an ascending result |
| PeakFinding.CandidatesInside | profile_collection/startup/42-energy-calib.py:17-23 | every candidate index `p` has `0 <= p` and `p + sides < len(chi)`, so the comparisons of lines 22-23 index inside the array |
| PeakFinding.Mask | profile_collection/startup/42-energy-calib.py:22-24 | the `criteria` array has one entry per candidate of `preliminary_peaks2` |
| PeakFinding.MaskAppliedToCandidates | profile_collection/startup/42-energy-calib.py:22-26 | applying the mask to all of `preliminary_peaks` selects the same peaks as applying it to the candidates it was built on |
| PeakFinding.MaskMisappliedWithoutOrder | profile_collection/startup/42-energy-calib.py:17-26 | illustration only, on a list argrelmax never returns: with unordered maxima [9, 1] and bound 5 the candidate is 1 but the mask picks 9, so the ascending order is what makes line 26 right |
| PeakFinding.PeaksAscendingMaxima | profile_collection/startup/42-energy-calib.py:14-26 | the returned centers are strictly ascending and are all among the argrelmax output |
| PeakFinding.PeaksSound | profile_collection/startup/42-energy-calib.py:17-26 | every center is a strict local maximum with `c + sides < len(chi)`, `chi[c] >= 2*chi[c+sides]`, `chi[c] >= 2*chi[(c-sides) mod len]` and `chi[c] >= intensity_threshold` |
| PeakFinding.PeaksComplete | profile_collection/startup/42-energy-calib.py:17-26 | every maximum meeting all those conditions is returned, so nothing else is dropped |
| PeakFinding.PeaksExactly | profile_collection/startup/42-energy-calib.py:14-26 | a center is returned if and only if it is a maximum inside the right edge that passes the three tests |
| PeakFinding.PeaksInside | profile_collection/startup/42-energy-calib.py:14-18 | every center satisfies `1 <= c` and `c + sides < len(chi)`; the first sample never qualifies and the left edge is not otherwise filtered |
| PeakFinding.PeakWindows | profile_collection/startup/42-energy-calib.py:17-18 | position by position, every returned center lies in [1, len(chi) - sides) |
| PeakFinding.NoMaximumNoOutput | profile_collection/startup/42-energy-calib.py:14 | with no index passing the local-maximum test, argrelmax returns nothing |
| PeakFinding.ConstantScanHasNoPeaks | profile_collection/startup/42-energy-calib.py:14-33 | a constant or empty scan has no maxima and yields no peaks, so all three outputs are empty |
| PeakFinding.OnlyMaximum | profile_collection/startup/42-energy-calib.py:14 | when exactly one index passes the test, argrelmax returns just that index |
| PeakFinding.LeftEdgeNotFiltered | profile_collection/startup/42-energy-calib.py:17-23 | on [0, 1, 0, 0, 0] with sides 2 and order 1 the peak at index 1, closer than `sides` to the left edge, is returned |
| PeakFinding.WrapAroundDropsPeak | profile_collection/startup/42-energy-calib.py:23 | on [0, 4, 0, 0, 3] the only maximum, index 1, is dropped because `chi[1 - 2]` reads the last sample |
| PeakFinding.ClampBelow | profile_collection/startup/42-energy-calib.py:31 | in place, each entry becomes the larger of its old value and the bound; no other entry changes |
| PeakFinding.ClampAbove | profile_collection/startup/42-energy-calib.py:32 | in place, each entry becomes the smaller of its old value and the bound |
| PeakFinding.Windows | profile_collection/startup/42-energy-calib.py:29-32 | for centers inside the scan, `left[k] = max(c - sides, 0)` and `right[k] = min(c + sides, len)`, which equals `c + sides`, and `0 <= left <= c <= right < len` |
| PeakFinding.FindPeaks | profile_collection/startup/42-energy-calib.py:12-33 | three parallel outputs of equal length: centers are Peaks, `left = max(c - sides, 0)`, `right = c + sides` (the clamp at line 32 never fires), and `0 <= left <= c <= right < len(chi)` |
| Pairing.Where | profile_collection/startup/42-energy-calib.py:75-76 | boolean-mask selection of the centers is no longer than its input |
| Pairing.WhereMember | profile_collection/startup/42-energy-calib.py:75-76 | a value is in `l_peaks` (`r_peaks`) exactly when it is a center below (above) zero |
| Pairing.WhereKeeps | profile_collection/startup/42-energy-calib.py:75-76 | every element of `l_peaks` is below zero and every element of `r_peaks` above, position by position |
| Pairing.WhereConcat | profile_collection/startup/42-energy-calib.py:75-76 | selection distributes over concatenation, so it keeps the original order |
| Pairing.Reverse | profile_collection/startup/42-energy-calib.py:77 | `l_peaks[::-1]` has the same length and holds element `len-1-k` at position `k` |
| Pairing.ZipAt | profile_collection/startup/42-energy-calib.py:78-80 | zip stops at the shortest of the three sequences and pairs entries position by position |
| Pairing.PairSideAt | profile_collection/startup/42-energy-calib.py:78-81 | one side yields `min(len(peak_set), len(d), len(ns))` samples, the k-th being (abs of k-th peak, d[k], ns[k]) |
| Pairing.PositiveSide | profile_collection/startup/42-energy-calib.py:78-81 | a set of positive peaks is paired as is: the k-th sample is (peak k, d[k], ns[k]) |
| Pairing.ReversedNegativeSide | profile_collection/startup/42-energy-calib.py:77-81 | a reversed set of negative peaks is paired from its last element: the j-th sample is (-l[len-1-j], d[j], ns[j]) |
| Pairing.SidesLayout | profile_collection/startup/42-energy-calib.py:75-81 | for a positive set r and a negative set l, the right samples in order are followed by the reversed left samples, with `min(len r, len d, len ns) + min(len l, len d, len ns)` in all |
| Pairing.SamplesLayout | profile_collection/startup/42-energy-calib.py:75-81 | with R the centers above zero and L those below: exactly `min(len R, len d, len ns) + min(len L, len d, len ns)` samples; the positive centers come first in order, paired with d[k], ns[k]; then the negative centers from the last backwards, paired from d[0] |
| Pairing.SignPartition | profile_collection/startup/42-energy-calib.py:75-76 | the positive, negative and zero centers together make up the centers as a multiset |
| Pairing.ZeroCenterIgnored | profile_collection/startup/42-energy-calib.py:75-76 | inserting a center exactly at 0 anywhere changes no sample |
| Pairing.SampleBounds | profile_collection/startup/42-energy-calib.py:75-80 | there are never more samples than centers, nor more than twice the shorter reference sequence |
| Pairing.SideDependsOnAbs | profile_collection/startup/42-energy-calib.py:81 | a side's samples depend only on the absolute values of its peaks |
| Pairing.ReverseReverse | profile_collection/startup/42-energy-calib.py:77 | reversing twice gives the original list |
| Pairing.WhereReverse | profile_collection/startup/42-energy-calib.py:75-77 | selecting from a reversed list equals reversing the selection |
| Pairing.WhereNegatePositive | profile_collection/startup/42-energy-calib.py:75-76 | the positive values of the negated centers are the negated negative centers |
| Pairing.WhereNegateNegative | profile_collection/startup/42-energy-calib.py:75-76 | the negative values of the negated centers are the negated positive centers |
| Pairing.MirroredPositives | profile_collection/startup/42-energy-calib.py:75-77 | the positive centers of the mirrored scan are the negative centers, negated and reversed |
| Pairing.MirroredNegatives | profile_collection/startup/42-energy-calib.py:75-77 | the negative centers of the mirrored scan are the positive centers, negated and reversed |
| Pairing.NegatedSide | profile_collection/startup/42-energy-calib.py:81 | negating every peak of a set leaves its samples unchanged |
| Pairing.ReversedNegationSide | profile_collection/startup/42-energy-calib.py:77-81 | a reversed, negated set gives the same samples as the reversed set |
| Pairing.MirrorRightSide | profile_collection/startup/42-energy-calib.py:75-81 | for a mirrored scan, the right side's samples are the original left side's |
| Pairing.MirrorLeftSide | profile_collection/startup/42-energy-calib.py:75-81 | for a mirrored scan, the left side's samples are the original right side's |
| Pairing.MirrorSwapsSides | profile_collection/startup/42-energy-calib.py:75-81 | mirroring the scan (negating and reversing the centers) gives the original left-side samples followed by the original right-side samples |
| Pairing.NegationAloneChangesPairing | profile_collection/startup/42-energy-calib.py:77-81 | centers [-5, -2] and their negation [5, 2] give different multisets of (angle, d, n) triples, because pairing is by position |
| Pairing.LeftOnlyExample | profile_collection/startup/42-energy-calib.py:75-81 | centers [-5, -2] give the samples (2, d0) then (5, d1): the left side starts nearest the beam |
| Pairing.NegatedExample | profile_collection/startup/42-energy-calib.py:75-81 | centers [5, 2] give the samples (5, d0) then (2, d1): the right side keeps list order |
| Pairing.WhereAscending | profile_collection/startup/42-energy-calib.py:75-76 | selection from ascending centers is ascending |
| Pairing.AscendingCentersNearestFirst | profile_collection/startup/42-energy-calib.py:75-81 | for ascending centers, the angles on each side strictly increase, so both sides are walked outwards from the direct beam |
| Pairing.AppendSide | profile_collection/startup/42-energy-calib.py:78-82 | the inner loop keeps the wavelengths already present and appends exactly one wavelength per pair of the side, in order |
| Pairing.Wavelengths | profile_collection/startup/42-energy-calib.py:74-82 | the list has one wavelength `lamda(deg2rad(angle), d, n)` per sample of Samples, in that order |
| Calibration.SliceBound | profile_collection/startup/42-energy-calib.py:63-66 | a Python slice bound lands inside [0, len] |
| Calibration.FitCenters | profile_collection/startup/42-energy-calib.py:60-67 | one fitted center per window, in window order, each the fit of the `x[l:r]`, `y[l:r]` slices |
| Calibration.WavelengthSamples | profile_collection/startup/42-energy-calib.py:59-82 | the wavelength list is the pairing of the fitted centers of the Peaks windows; there are at most as many wavelengths as peaks and at most twice as many as the reference entries |
| Calibration.FlatScanGivesNoSamples | profile_collection/startup/42-energy-calib.py:59-83 | a constant or empty scan yields no wavelength samples at all, the case where line 83 averages an empty list |

## Left out

- `lamda_from_bragg` (lines 8-9) is the formula `2*d*sin(th/2)/n`, which needs floating-point sine. It enters as the function parameter `lamda`. `np.deg2rad` enters as `deg2rad`.
- The Voigt fit of lines 62-66 (lmfit's guess and least-squares fit) enters as the function parameter `fit`. A fit that fails on a short or empty window raises an exception in the source; that failure is not modelled.
- `np.average` and `np.std` (line 83) are floating-point reductions. The model stops at the list they are applied to. Over an empty list numpy returns NaN; that case is not modelled either, beyond `FlatScanGivesNoSamples` showing when it happens.
- The plotting of lines 69-72 is display only.
- The `__main__` block (lines 86-107) lists a directory and loads text files.
- `profile_analysis/startup/999-load.py` is startup wiring. It sets an environment variable, stores handles from a library that is not part of this model and subscribes a callback. No logic to model.
- Intensities and angles are exact reals. NaN, infinities and rounding of numpy floats are not modelled. The reference table is a one-column sequence of d-spacings.
- ArgRelMax: imposes no condition on `order`; for `order <= 0` every index passes its test, where scipy raises ValueError. Every entry point that reaches it (FindPeaks, WavelengthSamples) requires `order >= 1`.
- FindPeaks: requires `order >= 1`, as scipy's argrelmax does; for a smaller order scipy raises ValueError, which is not modelled as an error result.
- WavelengthSamples: requires `order >= 1` for the same reason.
- FindPeaks: `sides` is a natural number. A negative half-width, which the source accepts, is not modelled.
- `find_peaks` returns numpy arrays. In the model, `left` and `right` are built in arrays and clamped in place, then returned as sequences.
