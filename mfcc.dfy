/** The mel filterbank of src/boards/main/mfcc.hpp: the rounding helpers,
  * the filter shapes, the bin ranges of the filters, and the lookup table
  * that packs the non-zero part of every filter into one flat array.
  *
  * Doubles and floats are modelled as exact reals.  The mel warping
  * (`hzToMel`/`melToHz`, built on gcem::log and gcem::exp) is a parameter:
  * a pair of real functions.
  */
module Mfcc {

  // ---------------------------------------------------------------------
  // Rounding
  // ---------------------------------------------------------------------

  /** `static_cast<int>` of a floating-point value: rounds toward zero. */
  function Trunc(x: real): (t: int)
    ensures 0.0 <= x ==> 0 <= t && t as real <= x < t as real + 1.0
    ensures x < 0.0 ==> t <= 0 && t as real - 1.0 < x <= t as real
  {
    if x >= 0.0 then x.Floor else -((-x).Floor)
  }

  /** `ceil<int>`: the truncation when it is exact, and one more than the
    * truncation for a positive value with a fraction; the result is the
    * least integer not below `num`, for either sign. */
  function Ceil(num: real): (c: int)
    ensures num <= c as real && (c - 1) as real < num
  {
    if Trunc(num) as real == num then Trunc(num)
    else Trunc(num) + (if num > 0.0 then 1 else 0)
  }

  lemma CeilIsLeast(num: real, n: int)
    requires num <= n as real
    ensures Ceil(num) <= n
  {
  }

  // ---------------------------------------------------------------------
  // Filter shapes
  // ---------------------------------------------------------------------

  /** The mel warping: Hz to mel and back. */
  datatype MelScale = MelScale(toMel: real -> real, toHz: real -> real)

  /** Corner frequency `idx` of an N-filter bank spanning [minFreq, maxFreq]:
    * the endpoints are returned as given, and the corners in between are
    * equally spaced on the mel scale. */
  function MelFilterbankFreq(idx: int, n: int, minFreq: real, maxFreq: real, scale: MelScale): real
    requires n + 1 != 0
  {
    if idx == 0 then minFreq
    else if idx == n + 1 then maxFreq
    else WarpedFreq(idx, n, minFreq, maxFreq, scale)
  }

  /** The mel-spaced frequency at `idx`, without the endpoint special cases. */
  function WarpedFreq(idx: int, n: int, minFreq: real, maxFreq: real, scale: MelScale): real
    requires n + 1 != 0
  {
    var minMel := scale.toMel(minFreq);
    var maxMel := scale.toMel(maxFreq);
    scale.toHz(minMel + (maxMel - minMel) * (idx as real / (n + 1) as real))
  }

  /** A warping that maps the two endpoints back to themselves. */
  predicate RoundTripsAt(scale: MelScale, minFreq: real, maxFreq: real) {
    scale.toHz(scale.toMel(minFreq)) == minFreq && scale.toHz(scale.toMel(maxFreq)) == maxFreq
  }

  /** The endpoint special cases agree with the mel spacing whenever the
    * warping round-trips there: they only spare the rounding. */
  lemma EndpointsFollowTheMelSpacing(n: nat, minFreq: real, maxFreq: real, scale: MelScale)
    requires RoundTripsAt(scale, minFreq, maxFreq)
    ensures MelFilterbankFreq(0, n, minFreq, maxFreq, scale) == minFreq == WarpedFreq(0, n, minFreq, maxFreq, scale)
    ensures MelFilterbankFreq(n + 1, n, minFreq, maxFreq, scale) == maxFreq == WarpedFreq(n + 1, n, minFreq, maxFreq, scale)
  {
    var minMel := scale.toMel(minFreq);
    var maxMel := scale.toMel(maxFreq);
    assert (n + 1) as real / (n + 1) as real == 1.0;
    assert minMel + (maxMel - minMel) * 1.0 == maxMel;
  }

  ghost predicate Increasing(f: real -> real) {
    forall x, y :: x < y ==> f(x) < f(y)
  }

  /** With an increasing warping that round-trips at the endpoints, the
    * corner frequencies increase strictly from minFreq to maxFreq. */
  lemma CornersIncrease(n: nat, minFreq: real, maxFreq: real, scale: MelScale, i: int, j: int)
    requires RoundTripsAt(scale, minFreq, maxFreq) && minFreq < maxFreq
    requires Increasing(scale.toMel) && Increasing(scale.toHz)
    requires 0 <= i < j <= n + 1
    ensures MelFilterbankFreq(i, n, minFreq, maxFreq, scale) < MelFilterbankFreq(j, n, minFreq, maxFreq, scale)
  {
    EndpointsFollowTheMelSpacing(n, minFreq, maxFreq, scale);
    var minMel := scale.toMel(minFreq);
    var maxMel := scale.toMel(maxFreq);
    var ti := i as real / (n + 1) as real;
    var tj := j as real / (n + 1) as real;
    assert tj - ti == (j - i) as real / (n + 1) as real;
    assert ti < tj;
    assert minMel < maxMel;
    assert (maxMel - minMel) * ti < (maxMel - minMel) * tj;
  }

  function FreqToFftBin(freq: real, fftSize: int, sampleFreq: real): real
    requires sampleFreq != 0.0
  {
    fftSize as real * freq / sampleFreq
  }

  function FftBinToFreq(n: real, sampleHz: real, fftSize: int): real
    requires fftSize != 0
  {
    (n * sampleHz) / fftSize as real
  }

  lemma FftBinRoundTrip(freq: real, bin: real, fftSize: int, sampleFreq: real)
    requires fftSize != 0 && sampleFreq != 0.0
    ensures FftBinToFreq(FreqToFftBin(freq, fftSize, sampleFreq), sampleFreq, fftSize) == freq
    ensures FreqToFftBin(FftBinToFreq(bin, sampleFreq, fftSize), fftSize, sampleFreq) == bin
  {
  }

  /** For a positive size and sample rate, the bin of a frequency grows with
    * it: comparing frequencies is comparing bins. */
  lemma FftBinOrder(f: real, g: real, fftSize: int, sampleFreq: real)
    requires fftSize > 0 && sampleFreq > 0.0
    ensures f < g <==> FreqToFftBin(f, fftSize, sampleFreq) < FreqToFftBin(g, fftSize, sampleFreq)
  {
    var k := fftSize as real / sampleFreq;
    assert FreqToFftBin(f, fftSize, sampleFreq) == k * f;
    assert FreqToFftBin(g, fftSize, sampleFreq) == k * g;
    assert k > 0.0;
    if f < g {
      assert k * g - k * f == k * (g - f);
    } else {
      assert k * f - k * g == k * (f - g);
    }
  }

  /** A triangle rising from 0 at `left` to 1 at `center` and falling back
    * to 0 at `right`.  Whatever the corners, it lies in [0, 1] and is 0 up
    * to `left`; with ordered corners it is positive exactly strictly
    * between `left` and `right`. */
  function TriangularFunction(x: real, left: real, center: real, right: real): (y: real)
    ensures 0.0 <= y <= 1.0
    ensures y > 0.0 ==> left < x
    ensures left < center < right ==> (y > 0.0 <==> left < x < right)
  {
    if x <= left then 0.0
    else if x < center then
      RatioInUnitInterval(x - left, center - left);
      (x - left) / (center - left)
    else if x < right then
      RatioInUnitInterval(right - x, right - center);
      assert (x - right) / (center - right) == (right - x) / (right - center);
      (x - right) / (center - right)
    else 0.0
  }

  lemma RatioInUnitInterval(a: real, b: real)
    requires 0.0 < a <= b
    ensures 0.0 < a / b <= 1.0
  {
    assert a / b * b == a;
  }

  lemma TriangleReachesOneAtCenter(left: real, center: real, right: real)
    requires left < center < right
    ensures TriangularFunction(center, left, center, right) == 1.0
  {
  }

  /** The triangle rises on [left, center] and falls on [center, right]. */
  lemma TriangleSlopes(x: real, x': real, left: real, center: real, right: real)
    requires left < center < right && x < x'
    ensures x' <= center ==> TriangularFunction(x, left, center, right) <= TriangularFunction(x', left, center, right)
    ensures center <= x ==> TriangularFunction(x, left, center, right) >= TriangularFunction(x', left, center, right)
  {
    if x' <= center && left < x {
      DivideMonotone(x - left, x' - left, center - left);
    }
    if center <= x && x' < right {
      assert (x - right) / (center - right) == (right - x) / (right - center);
      assert (x' - right) / (center - right) == (right - x') / (right - center);
      DivideMonotone(right - x', right - x, right - center);
    }
  }

  lemma DivideMonotone(a: real, b: real, d: real)
    requires a <= b && 0.0 < d
    ensures a / d <= b / d
  {
    assert b / d - a / d == (b - a) / d;
  }

  // ---------------------------------------------------------------------
  // The filterbank and its active bins
  // ---------------------------------------------------------------------

  /** The template arguments of MelFilterLut and the mel warping. */
  datatype Filterbank = Filterbank(numFilters: nat, minFreq: int, maxFreq: int, fftSize: int, sampleFreq: int, scale: MelScale)

  predicate WellFormed(fb: Filterbank) {
    fb.fftSize > 0 && fb.sampleFreq > 0
  }

  function Corner(fb: Filterbank, idx: int): real {
    MelFilterbankFreq(idx, fb.numFilters, fb.minFreq as real, fb.maxFreq as real, fb.scale)
  }

  /** The corner `idx` as a fractional FFT bin. */
  function CornerBin(fb: Filterbank, idx: int): real
    requires WellFormed(fb)
  {
    FreqToFftBin(Corner(fb, idx), fb.fftSize, fb.sampleFreq as real)
  }

  /** Weight of filter `filterIdx` at (fractional) bin `x`. */
  function MelFilter(fb: Filterbank, x: real, filterIdx: int): real
    requires WellFormed(fb)
  {
    TriangularFunction(FftBinToFreq(x, fb.sampleFreq as real, fb.fftSize),
      Corner(fb, filterIdx - 1), Corner(fb, filterIdx), Corner(fb, filterIdx + 1))
  }

  function LowestActiveBin(fb: Filterbank, filterIdx: int): int
    requires WellFormed(fb)
  {
    Trunc(CornerBin(fb, filterIdx - 1)) + 1
  }

  function NumActiveBins(fb: Filterbank, filterIdx: int): int
    requires WellFormed(fb)
  {
    Ceil(CornerBin(fb, filterIdx + 1)) - LowestActiveBin(fb, filterIdx)
  }

  /** Bins above a non-negative corner start one past its truncation. */
  lemma AboveTrunc(x: real, b: int)
    requires 0.0 <= x
    ensures x < b as real <==> Trunc(x) + 1 <= b
  {
  }

  /** Bins below a corner stop short of its ceiling. */
  lemma BelowCeil(x: real, b: int)
    ensures b as real < x <==> b < Ceil(x)
  {
  }

  /** When the filter's corners are in order and the left one is not below
    * 0 Hz, the active bins are exactly the whole bins where the filter is
    * positive: nothing the table leaves out has weight. */
  lemma ActiveBinsAreTheSupport(fb: Filterbank, filterIdx: int, b: int)
    requires WellFormed(fb) && 0.0 <= Corner(fb, filterIdx - 1)
    requires Corner(fb, filterIdx - 1) < Corner(fb, filterIdx) < Corner(fb, filterIdx + 1)
    ensures LowestActiveBin(fb, filterIdx) <= b < LowestActiveBin(fb, filterIdx) + NumActiveBins(fb, filterIdx)
      <==> MelFilter(fb, b as real, filterIdx) > 0.0
  {
    var n, s := fb.fftSize, fb.sampleFreq as real;
    var f := FftBinToFreq(b as real, s, n);
    FftBinRoundTrip(0.0, b as real, n, s);
    assert FreqToFftBin(f, n, s) == b as real;
    FftBinOrder(0.0, Corner(fb, filterIdx - 1), n, s);
    assert FreqToFftBin(0.0, n, s) == 0.0;
    FftBinOrder(Corner(fb, filterIdx - 1), f, n, s);
    FftBinOrder(f, Corner(fb, filterIdx + 1), n, s);
    var binL, binR := CornerBin(fb, filterIdx - 1), CornerBin(fb, filterIdx + 1);
    AboveTrunc(binL, b);
    BelowCeil(binR, b);
    assert MelFilter(fb, b as real, filterIdx) > 0.0 <==> binL < b as real < binR;
  }

  /** A filter whose right corner lies above its left corner has a
    * non-negative number of active bins. */
  lemma NumActiveBinsNonNegative(fb: Filterbank, filterIdx: int)
    requires WellFormed(fb) && 0.0 <= Corner(fb, filterIdx - 1) < Corner(fb, filterIdx + 1)
    ensures NumActiveBins(fb, filterIdx) >= 0
  {
    FftBinOrder(0.0, Corner(fb, filterIdx - 1), fb.fftSize, fb.sampleFreq as real);
    FftBinOrder(Corner(fb, filterIdx - 1), Corner(fb, filterIdx + 1), fb.fftSize, fb.sampleFreq as real);
    assert FreqToFftBin(0.0, fb.fftSize, fb.sampleFreq as real) == 0.0;
  }

  /** A mel-spaced bank over 0 <= minFreq < maxFreq, with an increasing
    * warping that round-trips at the endpoints, has a non-negative number
    * of active bins in every filter. */
  lemma MelSpacingGivesActiveCounts(fb: Filterbank)
    requires WellFormed(fb) && 0 <= fb.minFreq < fb.maxFreq
    requires RoundTripsAt(fb.scale, fb.minFreq as real, fb.maxFreq as real)
    requires Increasing(fb.scale.toMel) && Increasing(fb.scale.toHz)
    ensures ActiveCountsNonNegative(fb)
  {
    var n, lo, hi := fb.numFilters, fb.minFreq as real, fb.maxFreq as real;
    forall k | 1 <= k <= n ensures NumActiveBins(fb, k) >= 0 {
      if k - 1 > 0 {
        CornersIncrease(n, lo, hi, fb.scale, 0, k - 1);
      }
      CornersIncrease(n, lo, hi, fb.scale, k - 1, k + 1);
      NumActiveBinsNonNegative(fb, k);
    }
  }

  /** Active bins of filters 1..k together. */
  function TotalActiveBins(fb: Filterbank, k: nat): int
    requires WellFormed(fb)
  {
    if k == 0 then 0 else TotalActiveBins(fb, k - 1) + NumActiveBins(fb, k)
  }

  /** Every filter has a non-negative number of active bins. */
  predicate ActiveCountsNonNegative(fb: Filterbank)
    requires WellFormed(fb)
  {
    forall k :: 1 <= k <= fb.numFilters ==> NumActiveBins(fb, k) >= 0
  }

  /** `melFilterLutSize`: the number of entries of the packed table. */
  method MelFilterLutSize(fb: Filterbank) returns (sum: int)
    requires WellFormed(fb)
    ensures sum == TotalActiveBins(fb, fb.numFilters)
    ensures ActiveCountsNonNegative(fb) ==> sum >= 0
  {
    sum := 0;
    for filterIdx := 1 to fb.numFilters + 1
      invariant sum == TotalActiveBins(fb, filterIdx - 1)
      invariant ActiveCountsNonNegative(fb) ==> sum >= 0
    {
      sum := sum + NumActiveBins(fb, filterIdx);
    }
  }

  // ---------------------------------------------------------------------
  // Packing rows of different lengths into one array
  // ---------------------------------------------------------------------

  /** The rows laid end to end. */
  function Concat(rows: seq<seq<real>>): seq<real> {
    if rows == [] then [] else Concat(rows[..|rows| - 1]) + rows[|rows| - 1]
  }

  /** Entry i of row k sits at the summed length of the rows before it. */
  lemma {:induction false} ConcatIndex(rows: seq<seq<real>>, k: nat, i: nat)
    requires k < |rows| && i < |rows[k]|
    ensures |Concat(rows[..k])| + i < |Concat(rows)|
    ensures Concat(rows)[|Concat(rows[..k])| + i] == rows[k][i]
  {
    var n := |rows|;
    var init := rows[..n - 1];
    if k < n - 1 {
      assert init[..k] == rows[..k];
      ConcatIndex(init, k, i);
    } else {
      assert init == rows[..k];
    }
  }

  /** Adding the next row to a prefix. */
  lemma ConcatStep(rows: seq<seq<real>>, k: nat)
    requires k < |rows|
    ensures Concat(rows[..k + 1]) == Concat(rows[..k]) + rows[k]
  {
    assert rows[..k + 1][..k] == rows[..k];
  }

  /** A prefix of the rows is no longer than all of them. */
  lemma {:induction false} ConcatPrefixLength(rows: seq<seq<real>>, k: nat)
    requires k <= |rows|
    ensures |Concat(rows[..k])| <= |Concat(rows)|
  {
    var n := |rows|;
    if k < n {
      ConcatPrefixLength(rows[..n - 1], k);
      assert rows[..n - 1][..k] == rows[..k];
      assert rows[..n] == rows;
      ConcatStep(rows, n - 1);
    } else {
      assert rows[..k] == rows;
    }
  }

  /** The non-zero weights of filter k, bin by bin from its lowest active bin. */
  function Row(fb: Filterbank, k: int): (r: seq<real>)
    requires WellFormed(fb) && NumActiveBins(fb, k) >= 0
    ensures |r| == NumActiveBins(fb, k)
  {
    seq(NumActiveBins(fb, k), i => MelFilter(fb, (i + LowestActiveBin(fb, k)) as real, k))
  }

  /** The rows of filters 1..numFilters. */
  function FilterRows(fb: Filterbank): (rows: seq<seq<real>>)
    requires WellFormed(fb) && ActiveCountsNonNegative(fb)
    ensures |rows| == fb.numFilters
    ensures forall k :: 0 <= k < fb.numFilters ==> rows[k] == Row(fb, k + 1)
  {
    seq(fb.numFilters, k requires 0 <= k < fb.numFilters => Row(fb, k + 1))
  }

  /** The rows before filter k + 1 hold the active bins of filters 1..k. */
  lemma {:induction false} RowsBeforeFilter(fb: Filterbank, k: nat)
    requires WellFormed(fb) && ActiveCountsNonNegative(fb) && k <= fb.numFilters
    ensures |Concat(FilterRows(fb)[..k])| == TotalActiveBins(fb, k)
  {
    if k > 0 {
      RowsBeforeFilter(fb, k - 1);
      ConcatStep(FilterRows(fb), k - 1);
    }
  }

  /** One entry of `filterInfo`. */
  datatype FilterEntry = FilterEntry(startIdx: int, lowestActiveBin: int, numActiveBins: int)

  /** The entry of filter k as the constructor records it. */
  function Entry(fb: Filterbank, k: nat): FilterEntry
    requires WellFormed(fb) && 1 <= k
  {
    FilterEntry(TotalActiveBins(fb, k - 1), LowestActiveBin(fb, k), NumActiveBins(fb, k))
  }

  /** The entries of filters 1..numFilters. */
  function Entries(fb: Filterbank): (entries: seq<FilterEntry>)
    requires WellFormed(fb)
    ensures |entries| == fb.numFilters
    ensures forall k :: 0 <= k < fb.numFilters ==> entries[k] == Entry(fb, k + 1)
  {
    seq(fb.numFilters, k requires 0 <= k < fb.numFilters => Entry(fb, k + 1))
  }

  /** The rows are laid end to end in `lut`, and each entry records where
    * its row starts and how long it is. */
  predicate Packed(lut: seq<real>, entries: seq<FilterEntry>, rows: seq<seq<real>>) {
    |entries| == |rows| && lut == Concat(rows) &&
    forall k :: 0 <= k < |rows| ==>
      entries[k].numActiveBins == |rows[k]| && entries[k].startIdx == |Concat(rows[..k])|
  }

  /** The entries and rows are those of the filterbank's filters.  The
    * quantifier fires only on terms about the filterbank, so the packing
    * proofs never unfold the rounding of the bin ranges. */
  ghost predicate Describes(fb: Filterbank, entries: seq<FilterEntry>, rows: seq<seq<real>>) {
    WellFormed(fb) && ActiveCountsNonNegative(fb) &&
    |entries| == fb.numFilters && |rows| == fb.numFilters &&
    forall k {:trigger Entry(fb, k)} :: 1 <= k <= fb.numFilters ==>
      entries[k - 1] == Entry(fb, k) && rows[k - 1] == Row(fb, k)
  }

  /** Whether bin b lies in the active range an entry records. */
  predicate Active(e: FilterEntry, b: int) {
    e.lowestActiveBin <= b < e.lowestActiveBin + e.numActiveBins
  }

  /** A row of weights applied to the spectrum from bin `lowest` on. */
  function Energy(spectrum: seq<real>, lowest: int, row: seq<real>): real
    requires 0 <= lowest && lowest + |row| <= |spectrum|
  {
    if row == [] then 0.0
    else Energy(spectrum, lowest, row[..|row| - 1]) + spectrum[lowest + |row| - 1] * row[|row| - 1]
  }

  class MelFilterLut {
    const fb: Filterbank
    var lut: array<real>
    var filterInfo: array<FilterEntry>
    /** The weights of each filter's active bins, filter by filter. */
    ghost var rows: seq<seq<real>>

    ghost predicate Valid()
      reads this, lut, filterInfo
    {
      Packed(lut[..], filterInfo[..], rows) && Describes(fb, filterInfo[..], rows)
    }

    /** Builds the table for a filterbank. */
    constructor (fb: Filterbank)
      requires WellFormed(fb) && ActiveCountsNonNegative(fb)
      ensures Valid() && this.fb == fb
    {
      this.fb := fb;
      ghost var r, e := FilterRows(fb), Entries(fb);
      EntriesArePacked(fb);
      RowsBeforeFilter(fb, fb.numFilters);
      assert r[..fb.numFilters] == r;
      var table, entries := Pack(fb, r, e);
      lut, filterInfo, rows := table, entries, r;
    }

    /** Weight of filter `filterIdx` at bin `binIdx`: the filter's stored
      * weight for a bin in its active range, and 0 for any other bin or
      * filter. */
    function Get(binIdx: int, filterIdx: int): (w: real)
      reads this, lut, filterInfo
      requires Valid()
      ensures w == if 1 <= filterIdx <= |rows| && Active(filterInfo[filterIdx - 1], binIdx)
                   then rows[filterIdx - 1][binIdx - filterInfo[filterIdx - 1].lowestActiveBin] else 0.0
    {
      if filterIdx < 1 || filterIdx > fb.numFilters then 0.0
      else
        var entry := filterInfo[filterIdx - 1];
        var offset := entry.startIdx - entry.lowestActiveBin;
        if binIdx < entry.lowestActiveBin then 0.0
        else if binIdx >= entry.lowestActiveBin + entry.numActiveBins then 0.0
        else
          ConcatIndex(rows, filterIdx - 1, binIdx - entry.lowestActiveBin);
          lut[offset + binIdx]
    }

    /** Filter `filterIdx` applied to a power spectrum of fftSize / 2 bins:
      * its weights times the spectrum over its active bins, and 0 for an
      * invalid filter. */
    method Evaluate(fftData: seq<real>, filterIdx: int) returns (total: real)
      requires Valid() && |fftData| == fb.fftSize / 2
      requires 1 <= filterIdx <= |rows| ==>
        0 <= filterInfo[filterIdx - 1].lowestActiveBin &&
        filterInfo[filterIdx - 1].lowestActiveBin + filterInfo[filterIdx - 1].numActiveBins <= |fftData|
      ensures total == if 1 <= filterIdx <= |rows|
                       then Energy(fftData, filterInfo[filterIdx - 1].lowestActiveBin, rows[filterIdx - 1]) else 0.0
    {
      if filterIdx < 1 || filterIdx > fb.numFilters {
        return 0.0;
      }
      var entry := filterInfo[filterIdx - 1];
      var lowestBin := entry.lowestActiveBin;
      var offset := entry.startIdx;
      var numBins := entry.numActiveBins;
      ghost var row := rows[filterIdx - 1];
      total := 0.0;
      for i := 0 to numBins
        invariant total == Energy(fftData, lowestBin, row[..i])
      {
        ConcatIndex(rows, filterIdx - 1, i);
        assert row[..i + 1][..i] == row[..i];
        total := total + fftData[i + lowestBin] * lut[i + offset];
      }
      assert row[..numBins] == row;
    }
  }

  /** The constructor's loops: fills the table filter by filter, with a
    * running index into `lut`, and records where each filter starts. */
  method Pack(fb: Filterbank, ghost rows: seq<seq<real>>, ghost entries: seq<FilterEntry>)
    returns (lut: array<real>, filterInfo: array<FilterEntry>)
    requires Packed(Concat(rows), entries, rows) && Describes(fb, entries, rows)
    requires |Concat(rows)| == TotalActiveBins(fb, fb.numFilters)
    ensures fresh(lut) && fresh(filterInfo)
    ensures lut[..] == Concat(rows) && filterInfo[..] == entries
  {
    var lutSize := MelFilterLutSize(fb);
    lut := new real[lutSize](_ => 0.0);
    filterInfo := new FilterEntry[fb.numFilters](_ => FilterEntry(0, 0, 0));
    var lutIdx := 0;
    for filterIdx := 1 to fb.numFilters + 1
      invariant lutIdx == |Concat(rows[..filterIdx - 1])| <= lut.Length
      invariant lut[..lutIdx] == Concat(rows[..filterIdx - 1])
      invariant filterInfo[..filterIdx - 1] == entries[..filterIdx - 1]
    {
      lutIdx := PackFilter(fb, lut, filterInfo, filterIdx, lutIdx, rows, entries);
    }
    assert rows[..fb.numFilters] == rows;
    assert lut[..lutIdx] == lut[..];
    assert filterInfo[..fb.numFilters] == filterInfo[..];
  }

  /** One pass of the constructor's outer loop: records where filter
    * `filterIdx` starts and stores its row there. */
  method PackFilter(fb: Filterbank, lut: array<real>, filterInfo: array<FilterEntry>, filterIdx: int, lutIdx: int,
                    ghost rows: seq<seq<real>>, ghost entries: seq<FilterEntry>)
    returns (next: int)
    requires Packed(Concat(rows), entries, rows) && Describes(fb, entries, rows)
    requires 1 <= filterIdx <= fb.numFilters
    requires lut.Length == |Concat(rows)| && filterInfo.Length == fb.numFilters
    requires lutIdx == |Concat(rows[..filterIdx - 1])| <= lut.Length
    requires lut[..lutIdx] == Concat(rows[..filterIdx - 1])
    requires filterInfo[..filterIdx - 1] == entries[..filterIdx - 1]
    modifies lut, filterInfo
    ensures next == |Concat(rows[..filterIdx])| <= lut.Length
    ensures lut[..next] == Concat(rows[..filterIdx])
    ensures filterInfo[..filterIdx] == entries[..filterIdx]
  {
    assert entries[filterIdx - 1] == Entry(fb, filterIdx) && rows[filterIdx - 1] == Row(fb, filterIdx);
    ConcatPrefixLength(rows, filterIdx);
    ConcatStep(rows, filterIdx - 1);
    filterInfo[filterIdx - 1] := FilterEntry(lutIdx, LowestActiveBin(fb, filterIdx), NumActiveBins(fb, filterIdx));
    assert filterInfo[..filterIdx] == entries[..filterIdx] by {
      assert filterInfo[..filterIdx] == filterInfo[..filterIdx - 1] + [filterInfo[filterIdx - 1]];
      assert entries[..filterIdx] == entries[..filterIdx - 1] + [entries[filterIdx - 1]];
    }
    next := FillRow(fb, lut, lutIdx, filterIdx);
    assert lut[..next] == lut[..lutIdx] + lut[lutIdx..next];
  }

  /** The filterbank's rows and entries, packed. */
  lemma EntriesArePacked(fb: Filterbank)
    requires WellFormed(fb) && ActiveCountsNonNegative(fb)
    ensures Packed(Concat(FilterRows(fb)), Entries(fb), FilterRows(fb))
    ensures Describes(fb, Entries(fb), FilterRows(fb))
  {
    var rows, entries := FilterRows(fb), Entries(fb);
    forall k | 0 <= k < fb.numFilters
      ensures entries[k].numActiveBins == |rows[k]| && entries[k].startIdx == |Concat(rows[..k])|
    {
      RowsBeforeFilter(fb, k);
    }
  }

  /** The inner loop of the constructor: the weights of filter `filterIdx`
    * over its active bins, stored from `lutIdx` on. */
  method FillRow(fb: Filterbank, lut: array<real>, lutIdx: int, filterIdx: int) returns (next: int)
    requires WellFormed(fb) && NumActiveBins(fb, filterIdx) >= 0
    requires 0 <= lutIdx && lutIdx + NumActiveBins(fb, filterIdx) <= lut.Length
    modifies lut
    ensures next == lutIdx + NumActiveBins(fb, filterIdx)
    ensures lut[..lutIdx] == old(lut[..lutIdx]) && lut[lutIdx..next] == Row(fb, filterIdx)
  {
    var lowestActiveBin := LowestActiveBin(fb, filterIdx);
    ghost var row := Row(fb, filterIdx);
    next := lutIdx;
    for i := 0 to NumActiveBins(fb, filterIdx)
      invariant next == lutIdx + i
      invariant lut[..lutIdx] == old(lut[..lutIdx]) && lut[lutIdx..next] == row[..i]
    {
      lut[next] := MelFilter(fb, (i + lowestActiveBin) as real, filterIdx);
      next := next + 1;
    }
  }

  /** With the left corner of the filter at or above 0 Hz, the table gives
    * the filter's weight at every whole bin: inside the active range it is
    * stored, and outside it the weight is 0. */
  lemma GetIsTheFilter(l: MelFilterLut, binIdx: int, filterIdx: int)
    requires l.Valid() && 1 <= filterIdx <= l.fb.numFilters && 0.0 <= Corner(l.fb, filterIdx - 1)
    requires Corner(l.fb, filterIdx - 1) < Corner(l.fb, filterIdx) < Corner(l.fb, filterIdx + 1)
    ensures l.Get(binIdx, filterIdx) == MelFilter(l.fb, binIdx as real, filterIdx)
  {
    var e := Entry(l.fb, filterIdx);
    assert l.filterInfo[filterIdx - 1] == e;
    ActiveBinsAreTheSupport(l.fb, filterIdx, binIdx);
  }
}
