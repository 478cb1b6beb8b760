/** The index bookkeeping of three series utilities: `apply_filter` filters
    only the non-NaN values and puts the NaN back where they were,
    `subset_region` picks the coordinate names and shifts longitudes into
    0..360, and `calculate_trend` refuses short series and forms the pairwise
    slopes of Sen's method. A NaN is `None`; values are exact reals. */
module Series {
  import opened Wrappers

  // ---- NaN positions ----

  /** `values[~np.isnan(values)]`, also `ts.dropna()`: the present values in
      order. */
  function Compact(values: seq<Option<real>>): seq<real>
  {
    if values == [] then []
    else (if values[0].Some? then [values[0].value] else []) + Compact(values[1..])
  }

  /** `filtered = np.full_like(values, np.nan); filtered[~nan_mask] = clean`:
      the positions of the present values, in order, receive `clean`. */
  function Restore(values: seq<Option<real>>, clean: seq<real>): seq<Option<real>>
    requires |clean| == |Compact(values)|
  {
    if values == [] then []
    else if values[0].None? then [None] + Restore(values[1..], clean)
    else [Some(clean[0])] + Restore(values[1..], clean[1..])
  }

  /** The restored series has the shape of the input: NaN exactly where the
      input is NaN. */
  lemma {:induction false} RestoreShape(values: seq<Option<real>>, clean: seq<real>)
    requires |clean| == |Compact(values)|
    ensures |Restore(values, clean)| == |values|
    ensures forall i :: 0 <= i < |values| ==> (Restore(values, clean)[i].None? <==> values[i].None?)
    decreases |values|
  {
    if values != [] {
      if values[0].None? {
        RestoreShape(values[1..], clean);
      } else {
        RestoreShape(values[1..], clean[1..]);
      }
    }
  }

  /** The present values of the restored series are `clean`, in order. */
  lemma {:induction false} CompactRestore(values: seq<Option<real>>, clean: seq<real>)
    requires |clean| == |Compact(values)|
    ensures Compact(Restore(values, clean)) == clean
    decreases |values|
  {
    if values != [] {
      if values[0].None? {
        CompactRestore(values[1..], clean);
        assert ([None] + Restore(values[1..], clean))[1..] == Restore(values[1..], clean);
      } else {
        CompactRestore(values[1..], clean[1..]);
        assert ([Some(clean[0])] + Restore(values[1..], clean[1..]))[1..] == Restore(values[1..], clean[1..]);
      }
    }
  }

  /** Putting the present values back where they came from gives the input. */
  lemma {:induction false} RestoreCompact(values: seq<Option<real>>)
    ensures Restore(values, Compact(values)) == values
    decreases |values|
  {
    if values != [] {
      RestoreCompact(values[1..]);
      var c := Compact(values);
      if values[0].Some? {
        assert c == [values[0].value] + Compact(values[1..]);
        assert c[1..] == Compact(values[1..]);
        assert Restore(values, c) == [Some(c[0])] + Restore(values[1..], c[1..]);
      } else {
        assert c == Compact(values[1..]);
        assert Restore(values, c) == [None] + Restore(values[1..], c);
      }
      assert values == [values[0]] + values[1..];
    }
  }

  // ---- apply_filter ----

  /** A scalar cutoff frequency or a list of them. */
  datatype Cutoff = Scalar(freq: real) | Several(freqs: seq<real>)

  /** The ways `apply_filter` raises `ValueError`: its own three checks,
      and `butter` or `filtfilt` refusing the coefficients or the data. */
  datatype FilterError = TooShort(needed: int) | NeedsTwoCutoffs | UnknownFilter(name: string) | FilterFails

  predicate KnownFilter(filterType: string)
  {
    filterType == "lowpass" || filterType == "highpass" || filterType == "bandpass"
  }

  /** `apply_filter`: `filt` stands for `butter` followed by `filtfilt`,
      with the coefficients designed from `filter_type`, `cutoff_freq` and
      `order`; it gives `None` where either raises (a cutoff outside the
      open interval (0, 1), data no longer than `filtfilt`'s padding) and
      otherwise as many values as it is given. The length guard comes
      before the filter type is looked at. */
  function ApplyFilter(values: seq<Option<real>>, filterType: string, cutoff: Cutoff, order: int,
                       filt: seq<real> -> Option<seq<real>>): (r: Result<seq<Option<real>>, FilterError>)
    requires forall x :: filt(x).Some? ==> |filt(x).value| == |x|
    ensures r == Err(TooShort(order * 2)) <==> |Compact(values)| < order * 2
    ensures r.Ok? <==> |Compact(values)| >= order * 2 && KnownFilter(filterType) &&
                       (filterType == "bandpass" ==> cutoff.Several? && |cutoff.freqs| == 2) &&
                       filt(Compact(values)).Some?
    ensures r == Err(FilterFails) <==>
              (|Compact(values)| >= order * 2 && KnownFilter(filterType) &&
               (filterType == "bandpass" ==> cutoff.Several? && |cutoff.freqs| == 2) &&
               filt(Compact(values)).None?)
    ensures r.Err? && r.error.UnknownFilter? ==> r.error.name == filterType && !KnownFilter(filterType)
    ensures r.Ok? ==> |r.value| == |values| &&
                      (forall i :: 0 <= i < |values| ==> (r.value[i].None? <==> values[i].None?)) &&
                      Compact(r.value) == filt(Compact(values)).value
  {
    var clean := Compact(values);
    if |clean| < order * 2 then Err(TooShort(order * 2))
    else if filterType == "bandpass" && !(cutoff.Several? && |cutoff.freqs| == 2) then Err(NeedsTwoCutoffs)
    else if !KnownFilter(filterType) then Err(UnknownFilter(filterType))
    else if filt(clean).None? then Err(FilterFails)
    else
      var filtered := filt(clean).value;
      RestoreShape(values, filtered);
      CompactRestore(values, filtered);
      Ok(Restore(values, filtered))
  }

  // ---- subset_region ----

  /** The first of `candidates` that is a dimension, or `fallback` when none
      is. */
  function FirstPresent(candidates: seq<string>, dims: set<string>, fallback: string): string
  {
    if candidates == [] then fallback
    else if candidates[0] in dims then candidates[0]
    else FirstPresent(candidates[1..], dims, fallback)
  }

  /** `candidates[k]` is a dimension and no candidate before it is. */
  predicate FirstIn(candidates: seq<string>, dims: set<string>, k: int)
  {
    0 <= k < |candidates| && candidates[k] in dims && forall j :: 0 <= j < k ==> candidates[j] !in dims
  }

  /** The pick is the first candidate that is a dimension, and the fallback
      exactly when there is none. */
  lemma {:induction false} FirstPresentIsFirst(candidates: seq<string>, dims: set<string>, fallback: string)
    ensures (exists k :: 0 <= k < |candidates| && candidates[k] in dims) ==>
              exists k :: FirstIn(candidates, dims, k) && FirstPresent(candidates, dims, fallback) == candidates[k]
    ensures (forall k :: 0 <= k < |candidates| ==> candidates[k] !in dims) ==>
              FirstPresent(candidates, dims, fallback) == fallback
    decreases |candidates|
  {
    if candidates != [] {
      if candidates[0] in dims {
        assert FirstIn(candidates, dims, 0);
      } else {
        var tail := candidates[1..];
        FirstPresentIsFirst(tail, dims, fallback);
        if exists k :: 0 <= k < |candidates| && candidates[k] in dims {
          var k :| 0 <= k < |candidates| && candidates[k] in dims;
          assert tail[k - 1] == candidates[k];
          var k' :| FirstIn(tail, dims, k') && FirstPresent(tail, dims, fallback) == tail[k'];
          forall j | 0 <= j < k' + 1
            ensures candidates[j] !in dims
          {
            if j > 0 {
              assert candidates[j] == tail[j - 1];
            }
          }
          assert FirstIn(candidates, dims, k' + 1);
        } else {
          forall k | 0 <= k < |tail|
            ensures tail[k] !in dims
          {
            assert tail[k] == candidates[k + 1];
          }
        }
      }
    }
  }

  /** `for dim in candidates: if dim in ds.dims: name = dim; break` */
  method PickDim(candidates: seq<string>, dims: set<string>, requested: string) returns (name: string)
    ensures name == FirstPresent(candidates, dims, requested)
  {
    name := requested;
    for i := 0 to |candidates|
      invariant name == requested
      invariant FirstPresent(candidates[i..], dims, requested) == FirstPresent(candidates, dims, requested)
    {
      assert candidates[i..][1..] == candidates[i + 1..];
      if candidates[i] in dims {
        name := candidates[i];
        return;
      }
    }
  }

  /** One bound of `lon_range` after the 0..360 check: when the longitudes of
      the dataset go past 180, a negative bound gets 360 added. */
  function ShiftLongitude(lonMax: real, lon: real): (r: real)
  {
    if lonMax > 180.0 && lon < 0.0 then lon + 360.0 else lon
  }

  /** On a 0..360 dataset every bound from -360 on lands in 0..360 and names
      the same meridian; shifting twice is shifting once; otherwise the
      bounds are left alone. */
  lemma ShiftLongitudeRange(lonMax: real, lon: real)
    ensures lonMax > 180.0 && -360.0 <= lon <= 360.0 ==> 0.0 <= ShiftLongitude(lonMax, lon) <= 360.0
    ensures ShiftLongitude(lonMax, lon) == lon || ShiftLongitude(lonMax, lon) == lon + 360.0
    ensures lon >= -360.0 ==> ShiftLongitude(lonMax, ShiftLongitude(lonMax, lon)) == ShiftLongitude(lonMax, lon)
    ensures lonMax <= 180.0 || lon >= 0.0 ==> ShiftLongitude(lonMax, lon) == lon
  {
  }

  /** What `subset_region` hands to `ds.sel`. */
  datatype Selection = Selection(lonDim: string, latDim: string, lonRange: (real, real), latRange: (real, real))

  const LonNames: seq<string> := ["longitude", "lon", "x"]
  const LatNames: seq<string> := ["latitude", "lat", "y"]

  /** `subset_region` up to the selection: `lonMax` is the largest value of
      the chosen longitude coordinate. */
  method SubsetRegion(dims: set<string>, lonMax: real, lonRange: (real, real), latRange: (real, real),
                      lonDim: string, latDim: string)
    returns (sel: Selection)
    ensures sel.lonDim == FirstPresent(LonNames, dims, lonDim)
    ensures sel.latDim == FirstPresent(LatNames, dims, latDim)
    ensures sel.lonRange == (ShiftLongitude(lonMax, lonRange.0), ShiftLongitude(lonMax, lonRange.1))
    ensures sel.latRange == latRange
  {
    var lon := PickDim(LonNames, dims, lonDim);
    var lat := PickDim(LatNames, dims, latDim);
    var range := lonRange;
    if lonMax > 180.0 {
      range := (if lonRange.0 >= 0.0 then lonRange.0 else lonRange.0 + 360.0,
                if lonRange.1 >= 0.0 then lonRange.1 else lonRange.1 + 360.0);
    }
    sel := Selection(lon, lat, range, latRange);
  }

  // ---- calculate_trend ----

  /** The pairs `(i, j)` for `j` from `j` to `n - 1`: the rest of the inner
      loop of Sen's method for row `i`. */
  function Row(i: nat, j: nat, n: nat): seq<(nat, nat)>
    decreases n - j
  {
    if j >= n then [] else [(i, j)] + Row(i, j + 1, n)
  }

  /** The pairs of rows `i` to `n - 1`. */
  function Rows(i: nat, n: nat): seq<(nat, nat)>
    decreases n - i
  {
    if i >= n then [] else Row(i, i + 1, n) + Rows(i + 1, n)
  }

  /** `for i in range(n): for j in range(i+1, n)`, as a list of pairs. */
  function Pairs(n: nat): seq<(nat, nat)>
  {
    Rows(0, n)
  }

  lemma {:induction false} RowLength(i: nat, j: nat, n: nat)
    ensures |Row(i, j, n)| == if j <= n then n - j else 0
    decreases n - j
  {
    if j < n {
      RowLength(i, j + 1, n);
    }
  }

  lemma {:induction false} RowMembers(i: nat, j: nat, n: nat)
    ensures forall p :: p in Row(i, j, n) <==> p.0 == i && j <= p.1 < n
    decreases n - j
  {
    if j < n {
      RowMembers(i, j + 1, n);
    }
  }

  lemma {:induction false} RowsLength(i: nat, n: nat)
    ensures 2 * |Rows(i, n)| == if i <= n then (n - i) * (n - i - 1) else 0
    decreases n - i
  {
    if i < n {
      RowLength(i, i + 1, n);
      RowsLength(i + 1, n);
      var m := n - i;
      assert 2 * |Rows(i, n)| == 2 * (m - 1) + (m - 1) * (m - 2);
      assert (m - 1) * (m - 2) == (m - 1) * m - 2 * (m - 1);
    }
  }

  lemma {:induction false} RowsMembers(i: nat, n: nat)
    ensures forall p :: p in Rows(i, n) <==> i <= p.0 < p.1 < n
    decreases n - i
  {
    if i < n {
      RowMembers(i, i + 1, n);
      RowsMembers(i + 1, n);
    }
  }

  /** Sen's method looks at exactly the `n(n-1)/2` pairs `i < j` of `n`
      points. */
  lemma PairsExactly(n: nat)
    ensures 2 * |Pairs(n)| == n * (n - 1)
    ensures forall p :: p in Pairs(n) <==> p.0 < p.1 < n
  {
    RowsLength(0, n);
    RowsMembers(0, n);
  }

  /** Both positions of every pair lie below `n`, the first before the
      second. */
  predicate Ordered(pairs: seq<(nat, nat)>, n: nat)
  {
    forall k :: 0 <= k < |pairs| ==> pairs[k].0 < pairs[k].1 < n
  }

  /** `(y[j] - y[i]) / (j - i)` */
  function Slope(y: seq<real>, i: nat, j: nat): real
    requires i < j < |y|
  {
    (y[j] - y[i]) / ((j - i) as real)
  }

  /** The slopes of `pairs`, in order. */
  function SlopesOf(y: seq<real>, pairs: seq<(nat, nat)>): seq<real>
    requires Ordered(pairs, |y|)
  {
    if pairs == [] then [] else [Slope(y, pairs[0].0, pairs[0].1)] + SlopesOf(y, pairs[1..])
  }

  /** The slopes of `pairs`, one per pair, each between the values the pair
      names. */
  lemma {:induction false} SlopesOfEach(y: seq<real>, pairs: seq<(nat, nat)>)
    requires Ordered(pairs, |y|)
    ensures |SlopesOf(y, pairs)| == |pairs|
    ensures forall k :: 0 <= k < |pairs| ==> SlopesOf(y, pairs)[k] == Slope(y, pairs[k].0, pairs[k].1)
    decreases |pairs|
  {
    if pairs != [] {
      SlopesOfEach(y, pairs[1..]);
    }
  }

  lemma OrderedAppend(a: seq<(nat, nat)>, b: seq<(nat, nat)>, n: nat)
    requires Ordered(a, n) && Ordered(b, n)
    ensures Ordered(a + b, n)
  {
    forall k | 0 <= k < |a + b|
      ensures (a + b)[k] == if k < |a| then a[k] else b[k - |a|]
    {
    }
  }

  lemma {:induction false} SlopesOfAppend(y: seq<real>, a: seq<(nat, nat)>, b: seq<(nat, nat)>)
    requires Ordered(a, |y|) && Ordered(b, |y|)
    ensures Ordered(a + b, |y|) && SlopesOf(y, a + b) == SlopesOf(y, a) + SlopesOf(y, b)
    decreases |a|
  {
    OrderedAppend(a, b, |y|);
    if a == [] {
      assert a + b == b;
    } else {
      SlopesOfAppend(y, a[1..], b);
      assert (a + b)[1..] == a[1..] + b;
      assert (a + b)[0] == a[0];
      assert SlopesOf(y, a + b) == [Slope(y, a[0].0, a[0].1)] + SlopesOf(y, a[1..] + b);
    }
  }

  /** The slopes of row `i` from `j` on, computed directly. */
  function SenRow(y: seq<real>, i: nat, j: nat): seq<real>
    requires i < j
    decreases |y| - j
  {
    if j >= |y| then [] else [Slope(y, i, j)] + SenRow(y, i, j + 1)
  }

  /** The slopes of rows `i` on, computed directly. */
  function SenRows(y: seq<real>, i: nat): seq<real>
    decreases |y| - i
  {
    if i >= |y| then [] else SenRow(y, i, i + 1) + SenRows(y, i + 1)
  }

  lemma {:induction false} SenRowIsSlopes(y: seq<real>, i: nat, j: nat)
    requires i < j
    ensures Ordered(Row(i, j, |y|), |y|) && SenRow(y, i, j) == SlopesOf(y, Row(i, j, |y|))
    decreases |y| - j
  {
    if j < |y| {
      SenRowIsSlopes(y, i, j + 1);
      assert ([(i, j)] + Row(i, j + 1, |y|))[1..] == Row(i, j + 1, |y|);
    }
  }

  lemma {:induction false} SenRowsIsSlopes(y: seq<real>, i: nat)
    ensures Ordered(Rows(i, |y|), |y|) && SenRows(y, i) == SlopesOf(y, Rows(i, |y|))
    decreases |y| - i
  {
    if i < |y| {
      SenRowIsSlopes(y, i, i + 1);
      SenRowsIsSlopes(y, i + 1);
      SlopesOfAppend(y, Row(i, i + 1, |y|), Rows(i + 1, |y|));
    }
  }

  /** The nested loop of the `'sen'` branch of `calculate_trend`. */
  method SenSlopes(y: seq<real>) returns (slopes: seq<real>)
    ensures slopes == SenRows(y, 0)
  {
    var n := |y|;
    ghost var total := SenRows(y, 0);
    slopes := [];
    for i := 0 to n
      invariant slopes + SenRows(y, i) == total
    {
      assert SenRows(y, i) == SenRow(y, i, i + 1) + SenRows(y, i + 1);
      assert slopes + SenRows(y, i) == slopes + SenRow(y, i, i + 1) + SenRows(y, i + 1);
      for j := i + 1 to n
        invariant slopes + SenRow(y, i, j) + SenRows(y, i + 1) == total
      {
        ghost var rest := SenRow(y, i, j + 1);
        assert SenRow(y, i, j) == [Slope(y, i, j)] + rest;
        assert slopes + SenRow(y, i, j) == slopes + [Slope(y, i, j)] + rest;
        slopes := slopes + [Slope(y, i, j)];
      }
      assert SenRow(y, i, n) == [];
    }
  }

  /** The ways `calculate_trend` raises: `ValueError` for too few values
      or an unknown method, and `ZeroDivisionError` when the linear fit of a
      dated series spans less than one whole day. */
  datatype TrendError = TooFewPoints | UnknownMethod(name: string) | ZeroSpan

  /** What the model keeps of a trend: the cleaned values the fit is made
      on, and for Sen's method the pairwise slopes whose median is the
      trend. */
  datatype Trend = LinearFit(y: seq<real>) | PolynomialFit(y: seq<real>) | SenFit(y: seq<real>, slopes: seq<real>)

  /** `calculate_trend` up to the statistics: NaN are dropped, fewer than 3
      remaining values are refused before the method is looked at.
      `spanDays` is `None` for a series without a date index, and otherwise
      the whole days between its first and last present value, by which the
      linear branch divides. */
  method CalculateTrend(ts: seq<Option<real>>, trendMethod: string, spanDays: Option<int>)
    returns (r: Result<Trend, TrendError>)
    ensures r == Err(TooFewPoints) <==> |Compact(ts)| < 3
    ensures r == Err(ZeroSpan) <==> |Compact(ts)| >= 3 && trendMethod == "linear" && spanDays == Some(0)
    ensures r.Err? && r.error.UnknownMethod? <==>
              |Compact(ts)| >= 3 && trendMethod != "linear" && trendMethod != "polynomial" && trendMethod != "sen"
    ensures r.Ok? ==> r.value.y == Compact(ts)
    ensures r.Ok? && trendMethod == "sen" ==>
              r.value.SenFit? && 2 * |r.value.slopes| == |r.value.y| * (|r.value.y| - 1) &&
              Ordered(Pairs(|r.value.y|), |r.value.y|) && r.value.slopes == SlopesOf(r.value.y, Pairs(|r.value.y|))
  {
    var y := Compact(ts);
    if |y| < 3 {
      return Err(TooFewPoints);
    }
    if trendMethod == "linear" {
      if spanDays == Some(0) {
        return Err(ZeroSpan);
      }
      r := Ok(LinearFit(y));
    } else if trendMethod == "polynomial" {
      r := Ok(PolynomialFit(y));
    } else if trendMethod == "sen" {
      var slopes := SenSlopes(y);
      PairsExactly(|y|);
      SenRowsIsSlopes(y, 0);
      SlopesOfEach(y, Pairs(|y|));
      r := Ok(SenFit(y, slopes));
    } else {
      r := Err(UnknownMethod(trendMethod));
    }
  }
}
