/**
  Pairing fitted peak centers with the reference reflections
  (get_wavelength_from_std_tth, lines 74-82 of
  profile_collection/startup/42-energy-calib.py).

  The fitted centers are angles in degrees on both sides of the direct beam.
  They are split by sign; the positive ones are walked in their order and the
  negative ones in reverse order, and the k-th peak of each side is paired
  with the k-th d-spacing and multiplicity. lamda_from_bragg and np.deg2rad
  are floating-point transcendental code, so they enter as function
  parameters: the model says which (angle, d, n) triples are turned into
  wavelengths and in which order.
*/
module Pairing {
  import opened Integers

  /** One pairing: |center| in degrees, its d-spacing and its multiplicity. */
  datatype Sample = Sample(angle: real, d: real, n: real)

  function Abs(x: real): real { if x < 0.0 then -x else x }

  predicate IsPositive(x: real) { x > 0.0 }

  predicate IsNegative(x: real) { x < 0.0 }

  predicate IsZero(x: real) { x == 0.0 }

  predicate Ascending(s: seq<real>) {
    forall i, j :: 0 <= i < j < |s| ==> s[i] < s[j]
  }

  /** `s[keep(s)]`: numpy boolean-mask selection, which keeps the order. */
  function Where(s: seq<real>, keep: real -> bool): (r: seq<real>)
    ensures |r| <= |s|
  {
    if s == [] then []
    else (if keep(s[0]) then [s[0]] else []) + Where(s[1..], keep)
  }

  /** Exactly the elements that pass the test are kept. */
  lemma {:induction false} WhereMember(s: seq<real>, keep: real -> bool, x: real)
    ensures x in Where(s, keep) <==> x in s && keep(x)
  {
    if s != [] {
      WhereMember(s[1..], keep, x);
      assert s == [s[0]] + s[1..];
    }
  }

  /** Every kept element passes the test, position by position. */
  lemma {:induction false} WhereKeeps(s: seq<real>, keep: real -> bool)
    ensures forall k :: 0 <= k < |Where(s, keep)| ==> keep(Where(s, keep)[k])
  {
    if s != [] {
      WhereKeeps(s[1..], keep);
      var rest := Where(s[1..], keep);
      var r := Where(s, keep);
      if keep(s[0]) {
        assert r == [s[0]] + rest;
        forall k | 0 < k < |r| ensures r[k] == rest[k - 1] { }
      } else {
        assert r == rest;
      }
    }
  }

  /** `s[::-1]` */
  function Reverse(s: seq<real>): (r: seq<real>)
    ensures |r| == |s|
    ensures forall k :: 0 <= k < |s| ==> r[k] == s[|s| - 1 - k]
  {
    if s == [] then [] else Reverse(s[1..]) + [s[0]]
  }

  function Negate(s: seq<real>): seq<real> {
    seq(|s|, k requires 0 <= k < |s| => -s[k])
  }

  /** `s[:n]` for n >= 0: Python slicing stops at the end of the sequence. */
  function PyPrefix(s: seq<real>, n: nat): seq<real> {
    s[..Min(n, |s|)]
  }

  /** zip(peaks, d, ns), each peak replaced by its absolute angle. */
  function Zip(peaks: seq<real>, d: seq<real>, ns: seq<real>): seq<Sample>
    decreases |peaks|
  {
    if peaks == [] || d == [] || ns == [] then []
    else [Sample(Abs(peaks[0]), d[0], ns[0])] + Zip(peaks[1..], d[1..], ns[1..])
  }

  /** zip stops at the shortest argument and pairs entries by position. */
  lemma {:induction false} ZipAt(peaks: seq<real>, d: seq<real>, ns: seq<real>)
    ensures |Zip(peaks, d, ns)| == Min(|peaks|, Min(|d|, |ns|))
    ensures forall k :: 0 <= k < |Zip(peaks, d, ns)| ==>
              Zip(peaks, d, ns)[k] == Sample(Abs(peaks[k]), d[k], ns[k])
    decreases |peaks|
  {
    if peaks != [] && d != [] && ns != [] {
      ZipAt(peaks[1..], d[1..], ns[1..]);
    }
  }

  /** The inner loop for one peak set: zip(peak_set, d[:len], ns[:len]). */
  function PairSide(peakSet: seq<real>, d: seq<real>, ns: seq<real>): seq<Sample> {
    Zip(peakSet, PyPrefix(d, |peakSet|), PyPrefix(ns, |peakSet|))
  }

  /** r_peaks, then l_peaks[::-1], each paired from the start of the reference table. */
  function Samples(centers: seq<real>, d: seq<real>, ns: seq<real>): seq<Sample> {
    PairSide(Where(centers, IsPositive), d, ns)
      + PairSide(Reverse(Where(centers, IsNegative)), d, ns)
  }

  /** `lamda_from_bragg(np.deg2rad(np.abs(c)), d, n)` for one sample. */
  function Wavelength(s: Sample, deg2rad: real -> real, lamda: (real, real, real) -> real): real {
    lamda(deg2rad(s.angle), s.d, s.n)
  }

  predicate Matches(w: seq<real>, ss: seq<Sample>, deg2rad: real -> real,
                    lamda: (real, real, real) -> real)
  {
    |w| == |ss| && forall i :: 0 <= i < |w| ==> w[i] == Wavelength(ss[i], deg2rad, lamda)
  }

  /**
    The inner loop of lines 78-82 for one peak set: appends one wavelength per
    pair of PairSide to `wavelengths`.
  */
  method AppendSide(wavelengths: seq<real>, peakSet: seq<real>, d: seq<real>, ns: seq<real>,
                    deg2rad: real -> real, lamda: (real, real, real) -> real)
    returns (w: seq<real>)
    ensures |wavelengths| <= |w| && w[..|wavelengths|] == wavelengths
    ensures Matches(w[|wavelengths|..], PairSide(peakSet, d, ns), deg2rad, lamda)
  {
    w := wavelengths;
    var ds := PyPrefix(d, |peakSet|);
    var nss := PyPrefix(ns, |peakSet|);
    ghost var side := PairSide(peakSet, d, ns);
    ZipAt(peakSet, ds, nss);
    for k := 0 to Min(|peakSet|, Min(|ds|, |nss|))
      invariant |w| == |wavelengths| + k
      invariant w[..|wavelengths|] == wavelengths
      invariant forall i :: 0 <= i < k ==> w[|wavelengths| + i] == Wavelength(side[i], deg2rad, lamda)
    {
      var tth := deg2rad(Abs(peakSet[k]));
      w := w + [lamda(tth, ds[k], nss[k])];
    }
  }

  /**
    The loops of lines 74-82: the right peaks, then the left peaks reversed,
    one wavelength per sample in the order of Samples.
  */
  method Wavelengths(centers: seq<real>, d: seq<real>, ns: seq<real>,
                     deg2rad: real -> real, lamda: (real, real, real) -> real)
    returns (wavelengths: seq<real>)
    ensures Matches(wavelengths, Samples(centers, d, ns), deg2rad, lamda)
  {
    wavelengths := [];
    var lPeaks := Where(centers, IsNegative);
    var rPeaks := Where(centers, IsPositive);
    var peakSets := [rPeaks, Reverse(lPeaks)];
    ghost var done: seq<Sample> := [];
    for s := 0 to |peakSets|
      invariant done == if s == 0 then [] else if s == 1 then PairSide(rPeaks, d, ns) else Samples(centers, d, ns)
      invariant Matches(wavelengths, done, deg2rad, lamda)
    {
      ghost var before := wavelengths;
      wavelengths := AppendSide(wavelengths, peakSets[s], d, ns, deg2rad, lamda);
      done := done + PairSide(peakSets[s], d, ns);
      forall i | 0 <= i < |wavelengths| ensures wavelengths[i] == Wavelength(done[i], deg2rad, lamda) {
        if i < |before| {
          assert wavelengths[i] == wavelengths[..|before|][i];
        } else {
          assert wavelengths[i] == wavelengths[|before|..][i - |before|];
        }
      }
    }
  }

  // ---------------------------------------------------------------------------
  // How many samples there are and which peak is paired with which reflection.

  /** The k-th peak of a set takes the k-th reference entry, up to the shortest. */
  lemma PairSideAt(peakSet: seq<real>, d: seq<real>, ns: seq<real>)
    ensures |PairSide(peakSet, d, ns)| == Min(|peakSet|, Min(|d|, |ns|))
    ensures forall k :: 0 <= k < |PairSide(peakSet, d, ns)| ==>
              PairSide(peakSet, d, ns)[k] == Sample(Abs(peakSet[k]), d[k], ns[k])
  {
    ZipAt(peakSet, PyPrefix(d, |peakSet|), PyPrefix(ns, |peakSet|));
  }

  /** A set of positive peaks keeps its angles as they are. */
  lemma PositiveSide(r: seq<real>, d: seq<real>, ns: seq<real>)
    requires forall k :: 0 <= k < |r| ==> r[k] > 0.0
    ensures |PairSide(r, d, ns)| == Min(|r|, Min(|d|, |ns|))
    ensures forall k :: 0 <= k < |PairSide(r, d, ns)| ==>
              PairSide(r, d, ns)[k] == Sample(r[k], d[k], ns[k])
  {
    PairSideAt(r, d, ns);
  }

  /** A reversed set of negative peaks is paired from its last element, negated. */
  lemma ReversedNegativeSide(l: seq<real>, d: seq<real>, ns: seq<real>)
    requires forall k :: 0 <= k < |l| ==> l[k] < 0.0
    ensures |PairSide(Reverse(l), d, ns)| == Min(|l|, Min(|d|, |ns|))
    ensures forall j :: 0 <= j < |PairSide(Reverse(l), d, ns)| ==>
              PairSide(Reverse(l), d, ns)[j] == Sample(-l[|l| - 1 - j], d[j], ns[j])
  {
    var rl := Reverse(l);
    PairSideAt(rl, d, ns);
    forall j | 0 <= j < |PairSide(rl, d, ns)|
      ensures PairSide(rl, d, ns)[j] == Sample(-l[|l| - 1 - j], d[j], ns[j])
    {
      assert rl[j] == l[|l| - 1 - j];
    }
  }

  /** The two sides laid out one after the other, for any sets of the right signs. */
  lemma SidesLayout(r: seq<real>, l: seq<real>, d: seq<real>, ns: seq<real>)
    requires forall k :: 0 <= k < |r| ==> r[k] > 0.0
    requires forall k :: 0 <= k < |l| ==> l[k] < 0.0
    ensures |PairSide(r, d, ns) + PairSide(Reverse(l), d, ns)|
            == Min(|r|, Min(|d|, |ns|)) + Min(|l|, Min(|d|, |ns|))
    ensures forall k :: 0 <= k < Min(|r|, Min(|d|, |ns|)) ==>
              (PairSide(r, d, ns) + PairSide(Reverse(l), d, ns))[k] == Sample(r[k], d[k], ns[k])
    ensures forall j :: 0 <= j < Min(|l|, Min(|d|, |ns|)) ==>
              (PairSide(r, d, ns) + PairSide(Reverse(l), d, ns))[Min(|r|, Min(|d|, |ns|)) + j]
              == Sample(-l[|l| - 1 - j], d[j], ns[j])
  {
    PositiveSide(r, d, ns);
    ReversedNegativeSide(l, d, ns);
  }

  /**
    Exactly min(|R|, |d|, |ns|) + min(|L|, |d|, |ns|) samples: R are the centers
    above zero, in order, and they come first; L are the centers below zero,
    taken from the last one backwards.
  */
  lemma SamplesLayout(centers: seq<real>, d: seq<real>, ns: seq<real>, r: seq<real>, l: seq<real>)
    requires r == Where(centers, IsPositive) && l == Where(centers, IsNegative)
    ensures var mr := Min(|r|, Min(|d|, |ns|));
            var ml := Min(|l|, Min(|d|, |ns|));
            var ss := Samples(centers, d, ns);
            && |ss| == mr + ml
            && (forall k :: 0 <= k < mr ==> ss[k] == Sample(r[k], d[k], ns[k]))
            && (forall j :: 0 <= j < ml ==> ss[mr + j] == Sample(-l[|l| - 1 - j], d[j], ns[j]))
  {
    WhereKeeps(centers, IsPositive);
    WhereKeeps(centers, IsNegative);
    SidesLayout(r, l, d, ns);
  }


  lemma {:induction false} WhereConcat(a: seq<real>, b: seq<real>, keep: real -> bool)
    ensures Where(a + b, keep) == Where(a, keep) + Where(b, keep)
  {
    if a != [] {
      WhereConcat(a[1..], b, keep);
      assert (a + b)[1..] == a[1..] + b;
    } else {
      assert a + b == b;
    }
  }

  /**
    Every center is either positive, negative or zero: the two peak sets and
    the zero centers together are the centers, as a multiset.
  */
  lemma {:induction false} SignPartition(centers: seq<real>)
    ensures multiset(Where(centers, IsPositive)) + multiset(Where(centers, IsNegative))
            + multiset(Where(centers, IsZero)) == multiset(centers)
    ensures |Where(centers, IsPositive)| + |Where(centers, IsNegative)| + |Where(centers, IsZero)| == |centers|
  {
    if centers != [] {
      SignPartition(centers[1..]);
      assert centers == [centers[0]] + centers[1..];
    }
  }

  /** A center exactly at zero contributes no sample. */
  lemma ZeroCenterIgnored(a: seq<real>, b: seq<real>, d: seq<real>, ns: seq<real>)
    ensures Samples(a + [0.0] + b, d, ns) == Samples(a + b, d, ns)
  {
    assert [0.0][1..] == [];
    assert Where([0.0], IsPositive) == [] && Where([0.0], IsNegative) == [];
    WhereConcat(a + [0.0], b, IsPositive);
    WhereConcat(a, [0.0], IsPositive);
    WhereConcat(a, b, IsPositive);
    assert Where(a + [0.0], IsPositive) == Where(a, IsPositive);
    assert Where(a + [0.0] + b, IsPositive) == Where(a + b, IsPositive);
    WhereConcat(a + [0.0], b, IsNegative);
    WhereConcat(a, [0.0], IsNegative);
    WhereConcat(a, b, IsNegative);
    assert Where(a + [0.0], IsNegative) == Where(a, IsNegative);
    assert Where(a + [0.0] + b, IsNegative) == Where(a + b, IsNegative);
  }

  /**
    There are never more samples than centers, nor more than twice the
    number of reference entries.
  */
  lemma SampleBounds(centers: seq<real>, d: seq<real>, ns: seq<real>)
    ensures |Samples(centers, d, ns)| <= |centers|
    ensures |Samples(centers, d, ns)| <= 2 * Min(|d|, |ns|)
  {
    SamplesLayout(centers, d, ns, Where(centers, IsPositive), Where(centers, IsNegative));
    SignPartition(centers);
  }

  // ---------------------------------------------------------------------------
  // A sample depends on |center| only; mirroring the scan swaps the two sides.

  lemma SideDependsOnAbs(s: seq<real>, t: seq<real>, d: seq<real>, ns: seq<real>)
    requires |s| == |t| && forall k :: 0 <= k < |s| ==> Abs(s[k]) == Abs(t[k])
    ensures PairSide(s, d, ns) == PairSide(t, d, ns)
  {
    PairSideAt(s, d, ns);
    PairSideAt(t, d, ns);
  }

  lemma {:induction false} ReverseConcat(a: seq<real>, b: seq<real>)
    ensures Reverse(a + b) == Reverse(b) + Reverse(a)
  {
  }

  lemma ReverseReverse(s: seq<real>)
    ensures Reverse(Reverse(s)) == s
  {
  }

  lemma {:induction false} WhereReverse(s: seq<real>, keep: real -> bool)
    ensures Where(Reverse(s), keep) == Reverse(Where(s, keep))
  {
    if s != [] {
      WhereReverse(s[1..], keep);
      assert Reverse(s) == Reverse(s[1..]) + [s[0]];
      WhereConcat(Reverse(s[1..]), [s[0]], keep);
      var head := if keep(s[0]) then [s[0]] else [];
      assert Where([s[0]], keep) == head;
      assert Where(s, keep) == head + Where(s[1..], keep);
      ReverseConcat(head, Where(s[1..], keep));
      assert Reverse(head) == head;
    }
  }

  lemma NegateConcat(a: seq<real>, b: seq<real>)
    ensures Negate(a + b) == Negate(a) + Negate(b)
  {
  }

  lemma {:induction false} WhereNegatePositive(s: seq<real>)
    ensures Where(Negate(s), IsPositive) == Negate(Where(s, IsNegative))
  {
    if s != [] {
      WhereNegatePositive(s[1..]);
      assert Negate(s) == [-s[0]] + Negate(s[1..]);
      var neg := if IsNegative(s[0]) then [s[0]] else [];
      NegateConcat(neg, Where(s[1..], IsNegative));
    }
  }

  lemma {:induction false} WhereNegateNegative(s: seq<real>)
    ensures Where(Negate(s), IsNegative) == Negate(Where(s, IsPositive))
  {
    if s != [] {
      WhereNegateNegative(s[1..]);
      assert Negate(s) == [-s[0]] + Negate(s[1..]);
      var pos := if IsPositive(s[0]) then [s[0]] else [];
      NegateConcat(pos, Where(s[1..], IsPositive));
    }
  }

  /**
    Mirroring the scan about the direct beam (negating every center and
    reversing their order) exchanges the two sides: the samples of the right
    side become those of the left side and the other way round.
  */
  lemma MirrorSwapsSides(centers: seq<real>, d: seq<real>, ns: seq<real>)
    ensures var r := Where(centers, IsPositive);
            var l := Where(centers, IsNegative);
            Samples(Reverse(Negate(centers)), d, ns)
              == PairSide(Reverse(l), d, ns) + PairSide(r, d, ns)
  {
    var mirrored := Reverse(Negate(centers));
    MirrorRightSide(centers, d, ns, Where(centers, IsNegative), Where(mirrored, IsPositive));
    MirrorLeftSide(centers, d, ns, Where(centers, IsPositive), Where(mirrored, IsNegative));
  }

  /** For a mirrored scan, the right side's samples are those of the original left side. */
  lemma MirrorRightSide(centers: seq<real>, d: seq<real>, ns: seq<real>, l: seq<real>, m: seq<real>)
    requires l == Where(centers, IsNegative)
    requires m == Where(Reverse(Negate(centers)), IsPositive)
    ensures PairSide(m, d, ns) == PairSide(Reverse(l), d, ns)
  {
    MirroredPositives(centers, l);
    ReversedNegationSide(l, d, ns);
  }

  /** For a mirrored scan, the left side's samples are those of the original right side. */
  lemma MirrorLeftSide(centers: seq<real>, d: seq<real>, ns: seq<real>, r: seq<real>, m: seq<real>)
    requires r == Where(centers, IsPositive)
    requires m == Where(Reverse(Negate(centers)), IsNegative)
    ensures PairSide(Reverse(m), d, ns) == PairSide(r, d, ns)
  {
    MirroredNegatives(centers, r);
    ReverseReverse(Negate(r));
    NegatedSide(r, Negate(r), d, ns);
  }

  /** The positive centers of the mirrored scan are the negative ones, negated and reversed. */
  lemma MirroredPositives(centers: seq<real>, l: seq<real>)
    requires l == Where(centers, IsNegative)
    ensures Where(Reverse(Negate(centers)), IsPositive) == Reverse(Negate(l))
  {
    WhereReverse(Negate(centers), IsPositive);
    WhereNegatePositive(centers);
  }

  /** The negative centers of the mirrored scan are the positive ones, negated and reversed. */
  lemma MirroredNegatives(centers: seq<real>, r: seq<real>)
    requires r == Where(centers, IsPositive)
    ensures Where(Reverse(Negate(centers)), IsNegative) == Reverse(Negate(r))
  {
    WhereReverse(Negate(centers), IsNegative);
    WhereNegateNegative(centers);
  }

  /** Negating a peak set in place leaves its samples alone. */
  lemma NegatedSide(s: seq<real>, t: seq<real>, d: seq<real>, ns: seq<real>)
    requires |s| == |t| && forall k :: 0 <= k < |s| ==> t[k] == -s[k]
    ensures PairSide(t, d, ns) == PairSide(s, d, ns)
  {
    SideDependsOnAbs(t, s, d, ns);
  }

  /** Negating and then reversing a peak set gives the samples of the reversed set. */
  lemma ReversedNegationSide(l: seq<real>, d: seq<real>, ns: seq<real>)
    ensures PairSide(Reverse(Negate(l)), d, ns) == PairSide(Reverse(l), d, ns)
  {
    NegatedSide(Reverse(l), Reverse(Negate(l)), d, ns);
  }

  /**
    Negating the centers without reversing them does not give the same pairs:
    with centers -5 and -2 the peak at 2 degrees takes the first reflection,
    after negation the peak at 5 degrees does.
  */
  lemma NegationAloneChangesPairing()
    ensures Samples([-5.0, -2.0], [1.0, 2.0], [1.0, 1.0])
            == [Sample(2.0, 1.0, 1.0), Sample(5.0, 2.0, 1.0)]
    ensures Samples(Negate([-5.0, -2.0]), [1.0, 2.0], [1.0, 1.0])
            == [Sample(5.0, 1.0, 1.0), Sample(2.0, 2.0, 1.0)]
    ensures multiset(Samples([-5.0, -2.0], [1.0, 2.0], [1.0, 1.0]))
            != multiset(Samples(Negate([-5.0, -2.0]), [1.0, 2.0], [1.0, 1.0]))
  {
    LeftOnlyExample();
    NegatedExample();
    var s2 := [Sample(5.0, 1.0, 1.0), Sample(2.0, 2.0, 1.0)];
    assert Sample(2.0, 1.0, 1.0) !in s2;
    assert Sample(2.0, 1.0, 1.0) !in multiset(s2);
  }

  lemma LeftOnlyExample()
    ensures Samples([-5.0, -2.0], [1.0, 2.0], [1.0, 1.0])
            == [Sample(2.0, 1.0, 1.0), Sample(5.0, 2.0, 1.0)]
  {
    var cs := [-5.0, -2.0];
    assert cs[1..] == [-2.0] && [-2.0][1..] == [];
    assert Where([-2.0], IsPositive) == [];
    assert Where([-2.0], IsNegative) == [-2.0];
    assert Where(cs, IsPositive) == [];
    assert Where(cs, IsNegative) == cs;
    assert Reverse(cs) == [-2.0, -5.0];
    SamplesLayout(cs, [1.0, 2.0], [1.0, 1.0], [], cs);
    var ss := Samples(cs, [1.0, 2.0], [1.0, 1.0]);
    assert ss[0 + 1] == Sample(-cs[|cs| - 1 - 1], [1.0, 2.0][1], [1.0, 1.0][1]);
    assert |ss| == 2 && ss[0] == Sample(2.0, 1.0, 1.0) && ss[1] == Sample(5.0, 2.0, 1.0);
  }

  lemma NegatedExample()
    ensures Samples(Negate([-5.0, -2.0]), [1.0, 2.0], [1.0, 1.0])
            == [Sample(5.0, 1.0, 1.0), Sample(2.0, 2.0, 1.0)]
  {
    var ng := Negate([-5.0, -2.0]);
    assert ng == [5.0, 2.0];
    assert ng[1..] == [2.0] && [2.0][1..] == [];
    assert Where([2.0], IsPositive) == [2.0];
    assert Where([2.0], IsNegative) == [];
    assert Where(ng, IsPositive) == ng;
    assert Where(ng, IsNegative) == [];
    SamplesLayout(ng, [1.0, 2.0], [1.0, 1.0], ng, []);
    var ss := Samples(ng, [1.0, 2.0], [1.0, 1.0]);
    assert |ss| == 2 && ss[0] == Sample(5.0, 1.0, 1.0) && ss[1] == Sample(2.0, 2.0, 1.0);
  }

  lemma {:induction false} WhereAscending(s: seq<real>, keep: real -> bool)
    requires Ascending(s)
    ensures Ascending(Where(s, keep))
  {
    if s != [] {
      WhereAscending(s[1..], keep);
      var rest := Where(s[1..], keep);
      forall x | x in rest ensures s[0] < x {
        WhereMember(s[1..], keep, x);
        var k :| 0 <= k < |s| - 1 && s[1..][k] == x;
        assert s[k + 1] == x;
      }
      var r := Where(s, keep);
      if keep(s[0]) {
        assert r == [s[0]] + rest;
        forall i, j | 0 <= i < j < |r| ensures r[i] < r[j] {
          if i == 0 {
            assert r[j] == rest[j - 1] && rest[j - 1] in rest;
          } else {
            assert r[i] == rest[i - 1] && r[j] == rest[j - 1];
          }
        }
      } else {
        assert r == rest;
      }
    }
  }

  /** Ascending centers: the right side's angles increase. */
  lemma RightNearestFirst(centers: seq<real>, d: seq<real>, ns: seq<real>)
    requires Ascending(centers)
    ensures var right := PairSide(Where(centers, IsPositive), d, ns);
            forall i, j :: 0 <= i < j < |right| ==> right[i].angle < right[j].angle
  {
    WhereAscending(centers, IsPositive);
    WhereKeeps(centers, IsPositive);
    PositiveSide(Where(centers, IsPositive), d, ns);
  }

  /** Ascending centers: the reversed left side's angles increase. */
  lemma LeftNearestFirst(centers: seq<real>, d: seq<real>, ns: seq<real>)
    requires Ascending(centers)
    ensures var left := PairSide(Reverse(Where(centers, IsNegative)), d, ns);
            forall i, j :: 0 <= i < j < |left| ==> left[i].angle < left[j].angle
  {
    var l := Where(centers, IsNegative);
    WhereAscending(centers, IsNegative);
    WhereKeeps(centers, IsNegative);
    ReversedNegativeSide(l, d, ns);
    var left := PairSide(Reverse(l), d, ns);
    forall i, j | 0 <= i < j < |left| ensures left[i].angle < left[j].angle {
      assert l[|l| - 1 - j] < l[|l| - 1 - i];
    }
  }

  /**
    For centers in scan order (ascending), each side is walked from the direct
    beam outwards: the angles of both sides' samples increase.
  */
  lemma AscendingCentersNearestFirst(centers: seq<real>, d: seq<real>, ns: seq<real>)
    requires Ascending(centers)
    ensures var right := PairSide(Where(centers, IsPositive), d, ns);
            forall i, j :: 0 <= i < j < |right| ==> right[i].angle < right[j].angle
    ensures var left := PairSide(Reverse(Where(centers, IsNegative)), d, ns);
            forall i, j :: 0 <= i < j < |left| ==> left[i].angle < left[j].angle
  {
    RightNearestFirst(centers, d, ns);
    LeftNearestFirst(centers, d, ns);
  }
}
