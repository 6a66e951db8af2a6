/**
  Peak detection on a diffraction scan (find_peaks in
  profile_collection/startup/42-energy-calib.py).

  The intensity sequence `chi` is a sequence of reals; indices are ints so that
  the Python negative-index arithmetic `p - sides` can be written as it is.
  scipy's argrelmax is a foreign call: it is specified here as the ascending
  list of the strict local maxima of the given order, with numpy's 'clip'
  boundary mode.
*/
module PeakFinding {
  import opened Integers

  predicate StrictlyIncreasing(s: seq<int>) {
    forall i, j :: 0 <= i < j < |s| ==> s[i] < s[j]
  }

  /** numpy's mode='clip' index: `i` clamped to [0, n - 1]. */
  function Clip(i: int, n: int): int
    requires n > 0
  {
    if i < 0 then 0 else if i >= n then n - 1 else i
  }

  /** Python's `s[i]` for -|s| <= i < |s|: a negative index counts from the end. */
  function PyIndex(s: seq<real>, i: int): real
    requires -|s| <= i < |s|
  {
    if i < 0 then s[|s| + i] else s[i]
  }

  /** chi[i] is strictly above both clipped neighbours at distance j. */
  predicate DominatesAt(chi: seq<real>, i: int, j: int)
    requires 0 <= i < |chi|
  {
    chi[i] > chi[Clip(i + j, |chi|)] && chi[i] > chi[Clip(i - j, |chi|)]
  }

  /** i is a strict local maximum of the given order (argrelmax's test). */
  predicate IsRelMax(chi: seq<real>, order: int, i: int)
    requires 0 <= i < |chi|
  {
    forall j :: 1 <= j <= order ==> DominatesAt(chi, i, j)
  }

  /** The strict local maxima at indices k, k+1, ..., |chi|-1, ascending. */
  function RelMaxFrom(chi: seq<real>, order: int, k: nat): (r: seq<int>)
    requires k <= |chi|
    ensures forall m :: 0 <= m < |r| ==> k <= r[m] < |chi| && IsRelMax(chi, order, r[m])
    ensures forall i :: k <= i < |chi| && IsRelMax(chi, order, i) ==> i in r
    ensures StrictlyIncreasing(r)
    decreases |chi| - k
  {
    if k == |chi| then []
    else if IsRelMax(chi, order, k) then [k] + RelMaxFrom(chi, order, k + 1)
    else RelMaxFrom(chi, order, k + 1)
  }

  /**
    argrelmax(chi, order=order)[0]: the ascending indices of the strict local
    maxima. An index is one exactly when it passes the test of IsRelMax.
  */
  function ArgRelMax(chi: seq<real>, order: int): (r: seq<int>)
    ensures StrictlyIncreasing(r)
    ensures forall m :: 0 <= m < |r| ==> 0 <= r[m] < |chi|
    ensures forall i :: 0 <= i < |chi| ==> (i in r <==> IsRelMax(chi, order, i))
  {
    RelMaxFrom(chi, order, 0)
  }

  /** `ps[np.where(ps < bound)]`: the elements below `bound`, in their order. */
  function KeepBelow(ps: seq<int>, bound: int): (r: seq<int>)
    ensures |r| <= |ps|
    ensures forall x :: x in r <==> x in ps && x < bound
  {
    if ps == [] then []
    else (if ps[0] < bound then [ps[0]] else []) + KeepBelow(ps[1..], bound)
  }

  /** `ps[np.where(mask)]`: the elements of `ps` at the positions where `mask` holds. */
  function SelectWhere(ps: seq<int>, mask: seq<bool>): (r: seq<int>)
    requires |mask| <= |ps|
    ensures |r| <= |mask|
  {
    if mask == [] then []
    else (if mask[0] then [ps[0]] else []) + SelectWhere(ps[1..], mask[1..])
  }

  /** x is selected exactly when it stands in `ps` at a position where `mask` holds. */
  lemma {:induction false} SelectWhereMember(ps: seq<int>, mask: seq<bool>, x: int)
    requires |mask| <= |ps|
    ensures x in SelectWhere(ps, mask) <==> exists k :: 0 <= k < |mask| && mask[k] && ps[k] == x
  {
    if mask != [] {
      SelectWhereMember(ps[1..], mask[1..], x);
      if x in SelectWhere(ps[1..], mask[1..]) {
        var k :| 0 <= k < |mask| - 1 && mask[1..][k] && ps[1..][k] == x;
        assert mask[k + 1] && ps[k + 1] == x;
      }
      if exists k :: 0 <= k < |mask| && mask[k] && ps[k] == x {
        var k :| 0 <= k < |mask| && mask[k] && ps[k] == x;
        if k > 0 {
          assert mask[1..][k - 1] && ps[1..][k - 1] == x;
        }
      }
    }
  }

  /**
    The three tests of lines 22-24 for candidate p: the peak is at least twice
    the intensity `sides` samples to the right, at least twice the intensity at
    Python index `p - sides` (which wraps to the end of the scan when p < sides),
    and at least the threshold.
  */
  predicate Meets(chi: seq<real>, p: int, sides: nat, threshold: real)
    requires 0 <= p && p + sides < |chi|
  {
    && chi[p] >= 2.0 * chi[p + sides]
    && chi[p] >= 2.0 * PyIndex(chi, p - sides)
    && chi[p] >= threshold
  }

  predicate InsideRightEdge(chi: seq<real>, ps: seq<int>, sides: nat) {
    forall k :: 0 <= k < |ps| ==> 0 <= ps[k] && ps[k] + sides < |chi|
  }

  /** The boolean array `criteria`, one entry per candidate. */
  function Criteria(chi: seq<real>, ps: seq<int>, sides: nat, threshold: real): seq<bool>
    requires InsideRightEdge(chi, ps, sides)
  {
    seq(|ps|, k requires 0 <= k < |ps| => Meets(chi, ps[k], sides, threshold))
  }

  /** preliminary_peaks2: the maxima with at least `sides` samples to their right. */
  function Candidates(chi: seq<real>, sides: nat, order: int): seq<int> {
    KeepBelow(ArgRelMax(chi, order), |chi| - sides)
  }

  lemma CandidatesInside(chi: seq<real>, sides: nat, order: int)
    ensures InsideRightEdge(chi, Candidates(chi, sides, order), sides)
    ensures |Candidates(chi, sides, order)| <= |ArgRelMax(chi, order)|
  {
    var prelim := ArgRelMax(chi, order);
    var c := Candidates(chi, sides, order);
    forall k | 0 <= k < |c| ensures 0 <= c[k] && c[k] + sides < |chi| {
      assert c[k] in c;
      assert c[k] in prelim;
    }
  }

  /** `criteria` of lines 22-24, computed on the candidates. */
  function Mask(chi: seq<real>, sides: nat, threshold: real, order: int): (mask: seq<bool>)
    ensures |mask| == |Candidates(chi, sides, order)| <= |ArgRelMax(chi, order)|
  {
    CandidatesInside(chi, sides, order);
    Criteria(chi, Candidates(chi, sides, order), sides, threshold)
  }

  /**
    `peaks` of line 26: the mask computed on the candidates is applied to the
    whole list of maxima, as the source writes it.
  */
  function Peaks(chi: seq<real>, sides: nat, threshold: real, order: int): seq<int> {
    SelectWhere(ArgRelMax(chi, order), Mask(chi, sides, threshold, order))
  }

  // ---------------------------------------------------------------------------
  // Why line 26 is sound: the candidates are a prefix of the maxima.

  lemma {:induction false} KeepBelowEmpty(ps: seq<int>, bound: int)
    requires forall i :: 0 <= i < |ps| ==> ps[i] >= bound
    ensures KeepBelow(ps, bound) == []
  {
    if ps != [] {
      KeepBelowEmpty(ps[1..], bound);
    }
  }

  /** Filtering an ascending list by an upper bound keeps a prefix of it. */
  lemma {:induction false} KeepBelowIsPrefix(ps: seq<int>, bound: int)
    requires StrictlyIncreasing(ps)
    ensures KeepBelow(ps, bound) == ps[..|KeepBelow(ps, bound)|]
  {
    if ps != [] {
      if ps[0] < bound {
        KeepBelowIsPrefix(ps[1..], bound);
        assert ps == [ps[0]] + ps[1..];
      } else {
        KeepBelowEmpty(ps, bound);
      }
    }
  }

  /** A mask reads only as many entries of `ps` as it is long. */
  lemma {:induction false} SelectWherePrefix(ps: seq<int>, mask: seq<bool>)
    requires |mask| <= |ps|
    ensures SelectWhere(ps, mask) == SelectWhere(ps[..|mask|], mask)
  {
    if mask != [] {
      SelectWherePrefix(ps[1..], mask[1..]);
      assert ps[..|mask|][1..] == ps[1..][..|mask| - 1];
    }
  }

  lemma {:induction false} SelectWhereIncreasing(ps: seq<int>, mask: seq<bool>)
    requires |mask| <= |ps| && StrictlyIncreasing(ps)
    ensures StrictlyIncreasing(SelectWhere(ps, mask))
  {
    if mask != [] {
      var rest := SelectWhere(ps[1..], mask[1..]);
      SelectWhereIncreasing(ps[1..], mask[1..]);
      forall x | x in rest ensures ps[0] < x {
        SelectWhereMember(ps[1..], mask[1..], x);
        var k :| 0 <= k < |mask| - 1 && mask[1..][k] && ps[1..][k] == x;
        assert ps[1..][k] == ps[k + 1];
      }
      var r := SelectWhere(ps, mask);
      if mask[0] {
        assert r == [ps[0]] + rest;
        forall i, j | 0 <= i < j < |r| ensures r[i] < r[j] {
          if i == 0 {
            assert r[j] == rest[j - 1] && rest[j - 1] in rest;
          } else {
            assert r[i] == rest[i - 1] && r[j] == rest[j - 1];
          }
        }
      }
    }
  }

  /**
    Applying the mask back to the whole list of maxima selects the same peaks
    as applying it to the candidates it was computed on.
  */
  lemma MaskAppliedToCandidates(chi: seq<real>, sides: nat, threshold: real, order: int)
    ensures Peaks(chi, sides, threshold, order)
            == SelectWhere(Candidates(chi, sides, order), Mask(chi, sides, threshold, order))
  {
    var prelim := ArgRelMax(chi, order);
    var mask := Mask(chi, sides, threshold, order);
    KeepBelowIsPrefix(prelim, |chi| - sides);
    SelectWherePrefix(prelim, mask);
  }

  /**
    Illustration only, on a list argrelmax never returns: were the maxima not
    ascending, the mask of line 26 would pick the wrong index (9 instead of 1).
  */
  lemma MaskMisappliedWithoutOrder()
    ensures KeepBelow([9, 1], 5) == [1]
    ensures SelectWhere([9, 1], [true]) == [9]
  {
  }

  // ---------------------------------------------------------------------------
  // What find_peaks returns as centers.

  /** The centers are strictly ascending and are among the maxima argrelmax found. */
  lemma PeaksAscendingMaxima(chi: seq<real>, sides: nat, threshold: real, order: int)
    ensures StrictlyIncreasing(Peaks(chi, sides, threshold, order))
    ensures forall c :: c in Peaks(chi, sides, threshold, order) ==> c in ArgRelMax(chi, order)
  {
    var prelim := ArgRelMax(chi, order);
    var mask := Mask(chi, sides, threshold, order);
    SelectWhereIncreasing(prelim, mask);
    forall c | c in Peaks(chi, sides, threshold, order) ensures c in prelim {
      SelectWhereMember(prelim, mask, c);
    }
  }

  /**
    Every returned center is a strict local maximum lying more than `sides`
    samples before the end of the scan and passing the three tests of Meets.
  */
  lemma PeaksSound(chi: seq<real>, sides: nat, threshold: real, order: int, c: int)
    requires c in Peaks(chi, sides, threshold, order)
    ensures 0 <= c && c + sides < |chi| && IsRelMax(chi, order, c) && Meets(chi, c, sides, threshold)
  {
    MaskAppliedToCandidates(chi, sides, threshold, order);
    CandidatesInside(chi, sides, order);
    var cand := Candidates(chi, sides, order);
    var mask := Mask(chi, sides, threshold, order);
    SelectWhereMember(cand, mask, c);
    var k :| 0 <= k < |mask| && mask[k] && cand[k] == c;
    assert cand[k] in cand;
    assert c in ArgRelMax(chi, order);
  }

  lemma PeaksComplete(chi: seq<real>, sides: nat, threshold: real, order: int, c: int)
    requires 0 <= c && c + sides < |chi| && IsRelMax(chi, order, c) && Meets(chi, c, sides, threshold)
    ensures c in Peaks(chi, sides, threshold, order)
  {
    MaskAppliedToCandidates(chi, sides, threshold, order);
    CandidatesInside(chi, sides, order);
    var cand := Candidates(chi, sides, order);
    var mask := Mask(chi, sides, threshold, order);
    assert c in ArgRelMax(chi, order);
    assert c in cand;
    var k :| 0 <= k < |cand| && cand[k] == c;
    assert mask[k];
    SelectWhereMember(cand, mask, c);
  }

  /**
    A center is returned exactly when it is a strict local maximum lying more
    than `sides` samples before the end of the scan and passing the three tests
    of Meets; nothing else is dropped.
  */
  lemma PeaksExactly(chi: seq<real>, sides: nat, threshold: real, order: int, c: int)
    ensures c in Peaks(chi, sides, threshold, order)
            <==> 0 <= c && c + sides < |chi| && IsRelMax(chi, order, c) && Meets(chi, c, sides, threshold)
  {
    if c in Peaks(chi, sides, threshold, order) {
      PeaksSound(chi, sides, threshold, order, c);
    } else if 0 <= c && c + sides < |chi| && IsRelMax(chi, order, c) && Meets(chi, c, sides, threshold) {
      PeaksComplete(chi, sides, threshold, order, c);
    }
  }

  /**
    Every center has `sides` samples on its right, so `c + sides < len(chi)`,
    and it is not the first sample (the clipped comparison chi[0] > chi[0] fails).
    The left edge is not filtered: a center may lie less than `sides` from it.
  */
  lemma PeaksInside(chi: seq<real>, sides: nat, threshold: real, order: int, c: int)
    requires order >= 1
    requires c in Peaks(chi, sides, threshold, order)
    ensures 1 <= c && c + sides < |chi|
  {
    PeaksExactly(chi, sides, threshold, order, c);
    assert DominatesAt(chi, c, 1);
  }

  /** Every returned center, by position, sits inside [1, len(chi) - sides). */
  lemma PeakWindows(chi: seq<real>, sides: nat, threshold: real, order: int, cs: seq<int>)
    requires order >= 1
    requires cs == Peaks(chi, sides, threshold, order)
    ensures forall k :: 0 <= k < |cs| ==> 1 <= cs[k] && cs[k] + sides < |chi|
  {
    forall k | 0 <= k < |cs| ensures 1 <= cs[k] && cs[k] + sides < |chi| {
      PeaksInside(chi, sides, threshold, order, cs[k]);
    }
  }

  /** A scan with no strict local maxima, constant or empty, yields no peaks. */
  lemma ConstantScanHasNoPeaks(chi: seq<real>, sides: nat, threshold: real, order: int)
    requires order >= 1
    requires forall i, j :: 0 <= i < |chi| && 0 <= j < |chi| ==> chi[i] == chi[j]
    ensures ArgRelMax(chi, order) == []
    ensures Peaks(chi, sides, threshold, order) == []
  {
    forall i | 0 <= i < |chi| ensures !IsRelMax(chi, order, i) {
      assert !DominatesAt(chi, i, 1);
    }
    NoMaximumNoOutput(chi, order);
  }

  lemma {:induction false} NoMaximumFrom(chi: seq<real>, order: int, k: nat)
    requires k <= |chi|
    requires forall i :: k <= i < |chi| ==> !IsRelMax(chi, order, i)
    ensures RelMaxFrom(chi, order, k) == []
    decreases |chi| - k
  {
    if k < |chi| {
      NoMaximumFrom(chi, order, k + 1);
    }
  }

  lemma NoMaximumNoOutput(chi: seq<real>, order: int)
    requires forall i :: 0 <= i < |chi| ==> !IsRelMax(chi, order, i)
    ensures ArgRelMax(chi, order) == []
  {
    NoMaximumFrom(chi, order, 0);
  }

  lemma {:induction false} OnlyMaximumFrom(chi: seq<real>, order: int, i: int, k: nat)
    requires k <= i < |chi| && IsRelMax(chi, order, i)
    requires forall c :: 0 <= c < |chi| && c != i ==> !IsRelMax(chi, order, c)
    ensures RelMaxFrom(chi, order, k) == [i]
    decreases |chi| - k
  {
    if k < i {
      OnlyMaximumFrom(chi, order, i, k + 1);
    } else {
      NoMaximumFrom(chi, order, k + 1);
    }
  }

  /** When exactly one index passes argrelmax's test, it is the whole output. */
  lemma OnlyMaximum(chi: seq<real>, order: int, i: int)
    requires 0 <= i < |chi| && IsRelMax(chi, order, i)
    requires forall c :: 0 <= c < |chi| && c != i ==> !IsRelMax(chi, order, c)
    ensures ArgRelMax(chi, order) == [i]
  {
    OnlyMaximumFrom(chi, order, i, 0);
  }

  /**
    Concrete case of the unfiltered left edge: with sides = 2 the maximum at
    index 1 is returned; its left comparison reads chi[-1], the last sample.
  */
  lemma LeftEdgeNotFiltered()
    ensures Peaks([0.0, 1.0, 0.0, 0.0, 0.0], 2, 0.0, 1) == [1]
  {
    var chi := [0.0, 1.0, 0.0, 0.0, 0.0];
    assert !DominatesAt(chi, 0, 1) && !DominatesAt(chi, 2, 1);
    assert !DominatesAt(chi, 3, 1) && !DominatesAt(chi, 4, 1);
    assert IsRelMax(chi, 1, 1);
    OnlyMaximum(chi, 1, 1);
    assert Candidates(chi, 2, 1) == [1] by {
      assert KeepBelow([1], 3) == [1] + KeepBelow([], 3);
    }
    assert Meets(chi, 1, 2, 0.0) && PyIndex(chi, -1) == chi[4];
    assert Mask(chi, 2, 0.0, 1) == [true];
  }

  /**
    Concrete case of the wrap-around: the maximum 4.0 at index 1 is dropped
    because Python reads chi[1 - 2] as the last sample, 3.0, and 4 < 2 * 3.
  */
  lemma WrapAroundDropsPeak()
    ensures ArgRelMax([0.0, 4.0, 0.0, 0.0, 3.0], 1) == [1]
    ensures Peaks([0.0, 4.0, 0.0, 0.0, 3.0], 2, 0.0, 1) == []
  {
    var chi := [0.0, 4.0, 0.0, 0.0, 3.0];
    assert !DominatesAt(chi, 0, 1) && !DominatesAt(chi, 2, 1);
    assert !DominatesAt(chi, 3, 1) && !DominatesAt(chi, 4, 1);
    assert IsRelMax(chi, 1, 1);
    OnlyMaximum(chi, 1, 1);
    assert Candidates(chi, 2, 1) == [1] by {
      assert KeepBelow([1], 3) == [1] + KeepBelow([], 3);
    }
    assert !Meets(chi, 1, 2, 0.0) && PyIndex(chi, -1) == chi[4];
    assert Mask(chi, 2, 0.0, 1) == [false];
  }

  // ---------------------------------------------------------------------------
  // The windows: lines 28-33, with the clamps done in place on the new arrays.

  /** `a[a < lo] = lo` */
  method ClampBelow(a: array<int>, lo: int)
    modifies a
    ensures forall k :: 0 <= k < a.Length ==> a[k] == Max(old(a[k]), lo)
  {
    for k := 0 to a.Length
      invariant forall m :: 0 <= m < k ==> a[m] == Max(old(a[m]), lo)
      invariant forall m :: k <= m < a.Length ==> a[m] == old(a[m])
    {
      if a[k] < lo {
        a[k] := lo;
      }
    }
  }

  /** `a[a > hi] = hi` */
  method ClampAbove(a: array<int>, hi: int)
    modifies a
    ensures forall k :: 0 <= k < a.Length ==> a[k] == Min(old(a[k]), hi)
  {
    for k := 0 to a.Length
      invariant forall m :: 0 <= m < k ==> a[m] == Min(old(a[m]), hi)
      invariant forall m :: k <= m < a.Length ==> a[m] == old(a[m])
    {
      if a[k] > hi {
        a[k] := hi;
      }
    }
  }

  /** left_idxs after line 31: each center minus `sides`, raised to 0. */
  function LeftEdges(centers: seq<int>, sides: nat): seq<int> {
    seq(|centers|, k requires 0 <= k < |centers| => Max(centers[k] - sides, 0))
  }

  /** right_idxs after line 32: each center plus `sides`, lowered to `n`. */
  function RightEdges(centers: seq<int>, sides: nat, n: int): seq<int> {
    seq(|centers|, k requires 0 <= k < |centers| => Min(centers[k] + sides, n))
  }

  /**
    Lines 29-32 for centers that lie in [1, n - sides): left_idxs is clamped to
    0, right_idxs to n, in place.
  */
  method Windows(centers: seq<int>, sides: nat, n: int) returns (left: seq<int>, right: seq<int>)
    requires forall k :: 0 <= k < |centers| ==> 1 <= centers[k] && centers[k] + sides < n
    ensures left == LeftEdges(centers, sides) && right == RightEdges(centers, sides, n)
    ensures forall k :: 0 <= k < |centers| ==>
              && right[k] == centers[k] + sides
              && 0 <= left[k] <= centers[k] <= right[k] < n
  {
    var leftIdxs := new int[|centers|];
    var rightIdxs := new int[|centers|];
    forall k | 0 <= k < |centers| {
      leftIdxs[k] := centers[k] - sides;
    }
    forall k | 0 <= k < |centers| {
      rightIdxs[k] := centers[k] + sides;
    }
    ClampBelow(leftIdxs, 0);
    ClampAbove(rightIdxs, n);
    left, right := leftIdxs[..], rightIdxs[..];
  }

  /**
    find_peaks: three parallel sequences. The centers are Peaks; each window is
    `[max(c - sides, 0), c + sides]` and lies inside the scan, so the clamp of
    line 32 never changes anything.
  */
  method FindPeaks(chi: seq<real>, sides: nat, threshold: real, order: int)
    returns (left: seq<int>, right: seq<int>, centers: seq<int>)
    requires order >= 1
    ensures centers == Peaks(chi, sides, threshold, order)
    ensures left == LeftEdges(centers, sides) && right == RightEdges(centers, sides, |chi|)
    ensures |left| == |centers| && |right| == |centers|
    ensures forall k :: 0 <= k < |centers| ==>
              && right[k] == centers[k] + sides
              && 0 <= left[k] <= centers[k] <= right[k] < |chi|
  {
    centers := Peaks(chi, sides, threshold, order);
    PeakWindows(chi, sides, threshold, order, centers);
    left, right := Windows(centers, sides, |chi|);
  }
}
