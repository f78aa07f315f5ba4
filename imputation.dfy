/**
 * The per-column fill rule of the consumption imputation routine: cells
 * before the first observation become 0, the rest of the column is filled
 * by positional linear interpolation (holding the last observation at the
 * end), and a column with no observation at all becomes all zeros.
 */
module Imputation {
  import opened Wrappers
  import opened Series

  /**
   * One requested column as the routine rewrites it: zero the slice up to
   * and including the first observation, then interpolate the slice from
   * that observation on; a column with no observation is filled with 0.
   * The column keeps its length.
   */
  function ImputeColumn(col: Column): (r: Column)
    ensures |r| == |col|
  {
    match FirstValidIndex(col)
    case None => FillNa(col, 0.0)
    case Some(first) =>
      var zeroed := FillNa(col[..first + 1], 0.0) + col[first + 1..];
      zeroed[..first] + Interpolate(zeroed[first..])
  }

  /**
   * The documented fill policy, cell by cell and without reference to the
   * two slice updates: an observed cell keeps its value; a missing cell with
   * no observation before it becomes 0; one between two observations lies on
   * the line through them; one after the last observation takes that value.
   */
  function PolicyAt(col: Column, p: nat): (r: real)
    requires p < |col|
    ensures col[p].Some? ==> r == col[p].value
    ensures col[p].None? && LastValidBefore(col, p).None? ==> r == 0.0
  {
    match col[p]
    case Some(v) => v
    case None =>
      match LastValidBefore(col, p)
      case None => 0.0
      case Some(lo) =>
        match NextValidFrom(col, p + 1)
        case Some(hi) => Lerp(col[lo].value, col[hi].value, lo, hi, p)
        case None => col[lo].value
  }

  /** Searching backwards in a suffix that starts with an observation is searching the whole column. */
  lemma {:induction false} LastValidBeforeInSuffix(col: Column, k: nat, q: nat)
    requires 0 < q && k + q <= |col| && col[k].Some?
    ensures LastValidBefore(col, k + q).Some?
    ensures LastValidBefore(col, k + q).value >= k
    ensures LastValidBefore(col[k..], q) == Some(LastValidBefore(col, k + q).value - k)
    decreases q
  {
    assert col[k..][q - 1] == col[k + q - 1];
    if col[k + q - 1].None? {
      LastValidBeforeInSuffix(col, k, q - 1);
    }
  }

  /** Searching forwards in a suffix is searching the whole column, shifted. */
  lemma {:induction false} NextValidFromInSuffix(col: Column, k: nat, q: nat)
    requires k + q <= |col|
    ensures NextValidFrom(col[k..], q) ==
      match NextValidFrom(col, k + q)
      case None => None
      case Some(h) => Some(h - k)
    decreases |col| - (k + q)
  {
    if k + q < |col| {
      assert col[k..][q] == col[k + q];
      if col[k + q].None? {
        NextValidFromInSuffix(col, k, q + 1);
      }
    }
  }

  /** Before the first observation there is none. */
  lemma NothingBeforeFirst(col: Column, p: nat)
    requires p < |col|
    requires FirstValidIndex(col).None? || p < FirstValidIndex(col).value
    ensures col[p].None? && LastValidBefore(col, p).None?
  {
    NextValidFromSpec(col, 0);
    LastValidBeforeSpec(col, p);
  }

  /**
   * What the two slice updates leave in a column whose first observation is
   * at position first: zeros before it, and from it on the interpolation of
   * the column's suffix.
   */
  lemma ImputeColumnSlices(col: Column, first: nat)
    requires FirstValidIndex(col) == Some(first)
    ensures ImputeColumn(col)[..first] == seq(first, _ => Some(0.0))
    ensures ImputeColumn(col)[first..] == Interpolate(col[first..])
  {
    var zeroed := FillNa(col[..first + 1], 0.0) + col[first + 1..];
    assert zeroed[first..] == col[first..];
    forall j | 0 <= j < first ensures zeroed[j] == Some(0.0) {
      NothingBeforeFirst(col, j);
    }
    assert zeroed[..first] == seq(first, _ => Some(0.0));
  }

  /** Interpolating the suffix that starts at the first observation follows the policy. */
  lemma SuffixFollowsPolicy(col: Column, first: nat, p: nat)
    requires FirstValidIndex(col) == Some(first) && first <= p < |col|
    ensures InterpolateAt(col[first..], p - first) == Some(PolicyAt(col, p))
  {
    assert col[first..][p - first] == col[p];
    if col[p].None? {
      LastValidBeforeInSuffix(col, first, p - first);
      NextValidFromInSuffix(col, first, p - first + 1);
      var lo := LastValidBefore(col, p).value;
      match NextValidFrom(col, p + 1)
      case Some(hi) =>
        SuffixGapFollowsPolicy(col, first, p, lo, hi);
      case None =>
        SuffixTailFollowsPolicy(col, first, p, lo);
    }
  }

  /** A missing cell of the suffix between two observations. */
  lemma SuffixGapFollowsPolicy(col: Column, first: nat, p: nat, lo: nat, hi: nat)
    requires first <= lo < p < hi < |col| && col[p].None?
    requires LastValidBefore(col, p) == Some(lo) && NextValidFrom(col, p + 1) == Some(hi)
    requires LastValidBefore(col[first..], p - first) == Some(lo - first)
    requires NextValidFrom(col[first..], p - first + 1) == Some(hi - first)
    ensures InterpolateAt(col[first..], p - first) == Some(PolicyAt(col, p))
  {
    var tail := col[first..];
    assert tail[p - first] == col[p];
    assert tail[lo - first] == col[lo] && tail[hi - first] == col[hi];
    LerpShift(col[lo].value, col[hi].value, lo, hi, p, first);
  }

  /** A missing cell of the suffix after its last observation. */
  lemma SuffixTailFollowsPolicy(col: Column, first: nat, p: nat, lo: nat)
    requires first <= lo < p < |col| && col[p].None?
    requires LastValidBefore(col, p) == Some(lo) && NextValidFrom(col, p + 1).None?
    requires LastValidBefore(col[first..], p - first) == Some(lo - first)
    requires NextValidFrom(col[first..], p - first + 1).None?
    ensures InterpolateAt(col[first..], p - first) == Some(PolicyAt(col, p))
  {
    var tail := col[first..];
    assert tail[p - first] == col[p];
    assert tail[lo - first] == col[lo];
  }

  /** The interpolated value depends on positions only through their distances. */
  lemma LerpShift(vlo: real, vhi: real, lo: int, hi: int, p: int, k: int)
    requires lo < hi
    ensures Lerp(vlo, vhi, lo - k, hi - k, p - k) == Lerp(vlo, vhi, lo, hi, p)
  {
    assert (p - k) - (lo - k) == p - lo && (hi - k) - (lo - k) == hi - lo;
  }

  /** The routine follows the documented policy at every cell. */
  lemma ImputeColumnFollowsPolicy(col: Column, p: nat)
    requires p < |col|
    ensures ImputeColumn(col)[p] == Some(PolicyAt(col, p))
  {
    match FirstValidIndex(col)
    case None =>
      NothingBeforeFirst(col, p);
    case Some(first) =>
      ObservedColumnFollowsPolicy(col, first, p);
  }

  /** A column with an observation: zeros before it, the suffix's interpolation from it on. */
  lemma ObservedColumnFollowsPolicy(col: Column, first: nat, p: nat)
    requires FirstValidIndex(col) == Some(first) && p < |col|
    ensures ImputeColumn(col)[p] == Some(PolicyAt(col, p))
  {
    var imputed := ImputeColumn(col);
    ImputeColumnSlices(col, first);
    if p < first {
      assert imputed[p] == imputed[..first][p];
      NothingBeforeFirst(col, p);
    } else {
      assert imputed[p] == imputed[first..][p - first];
      SuffixFollowsPolicy(col, first, p);
    }
  }

  /** The imputed column has no missing cell. */
  lemma ImputeColumnComplete(col: Column)
    ensures forall p :: 0 <= p < |col| ==> ImputeColumn(col)[p].Some?
  {
    forall p | 0 <= p < |col| ensures ImputeColumn(col)[p].Some? {
      ImputeColumnFollowsPolicy(col, p);
    }
  }

  /** A point on the segment between two observations lies between them. */
  lemma LerpBetween(vlo: real, vhi: real, lo: int, hi: int, p: int)
    requires lo < p < hi
    ensures vlo <= vhi ==> vlo <= Lerp(vlo, vhi, lo, hi, p) <= vhi
    ensures vhi <= vlo ==> vhi <= Lerp(vlo, vhi, lo, hi, p) <= vlo
  {
    var t := (p - lo) as real / (hi - lo) as real;
    assert t * (hi - lo) as real == (p - lo) as real;
    assert 0.0 < t < 1.0;
    var d := vhi - vlo;
    var u := 1.0 - t;
    assert u > 0.0;
    assert d * t + d * u == d;
    if vlo <= vhi {
      assert 0.0 <= d * t && 0.0 <= d * u;
    } else {
      assert d * t <= 0.0 && d * u <= 0.0;
    }
  }

  /** A column with no observation becomes all zeros. */
  lemma AllMissingBecomesZeros(col: Column)
    requires forall j :: 0 <= j < |col| ==> col[j].None?
    ensures forall p :: 0 <= p < |col| ==> ImputeColumn(col)[p] == Some(0.0)
  {
    forall p | 0 <= p < |col| ensures ImputeColumn(col)[p] == Some(0.0) {
      ImputeColumnFollowsPolicy(col, p);
      LastValidBeforeSpec(col, p);
    }
  }

  /** Every cell before the first observation becomes 0. */
  lemma LeadingCellsBecomeZero(col: Column, p: nat)
    requires p < |col|
    requires forall j :: 0 <= j <= p ==> col[j].None?
    ensures ImputeColumn(col)[p] == Some(0.0)
  {
    ImputeColumnFollowsPolicy(col, p);
    LastValidBeforeSpec(col, p);
  }

  /** An observed cell keeps its value. */
  lemma KeepsObserved(col: Column, p: nat)
    requires p < |col| && col[p].Some?
    ensures ImputeColumn(col)[p] == col[p]
  {
    ImputeColumnFollowsPolicy(col, p);
  }

  /**
   * A missing cell between two observations, with only missing cells between
   * them, lies on the line through them, hence between their values.
   */
  lemma InteriorGapIsInterpolated(col: Column, lo: nat, p: nat, hi: nat)
    requires lo < p < hi < |col|
    requires col[lo].Some? && col[hi].Some?
    requires forall j :: lo < j < hi ==> col[j].None?
    ensures ImputeColumn(col)[p] == Some(Lerp(col[lo].value, col[hi].value, lo, hi, p))
    ensures col[lo].value <= col[hi].value ==>
      col[lo].value <= ImputeColumn(col)[p].value <= col[hi].value
    ensures col[hi].value <= col[lo].value ==>
      col[hi].value <= ImputeColumn(col)[p].value <= col[lo].value
  {
    LastValidBeforeSpec(col, p);
    NextValidFromSpec(col, p + 1);
    assert LastValidBefore(col, p) == Some(lo);
    assert NextValidFrom(col, p + 1) == Some(hi);
    assert PolicyAt(col, p) == Lerp(col[lo].value, col[hi].value, lo, hi, p);
    ImputeColumnFollowsPolicy(col, p);
    LerpBetween(col[lo].value, col[hi].value, lo, hi, p);
  }

  /** Every missing cell after the last observation takes that observation's value. */
  lemma TrailingCellsHoldLast(col: Column, last: nat, p: nat)
    requires last < p < |col| && col[last].Some?
    requires forall j :: last < j < |col| ==> col[j].None?
    ensures ImputeColumn(col)[p] == col[last]
  {
    LastValidBeforeSpec(col, p);
    assert LastValidBefore(col, p) == Some(last);
    assert NextValidFrom(col, p + 1).None?;
    assert PolicyAt(col, p) == col[last].value;
    ImputeColumnFollowsPolicy(col, p);
  }

  /**
   * A column with a single observation: zeros before it, and that value from
   * it to the end.
   */
  lemma SingleObservation(col: Column, i: nat)
    requires i < |col| && col[i].Some?
    requires forall j :: 0 <= j < |col| && j != i ==> col[j].None?
    ensures forall p :: 0 <= p < i ==> ImputeColumn(col)[p] == Some(0.0)
    ensures forall p :: i <= p < |col| ==> ImputeColumn(col)[p] == col[i]
  {
    forall p | 0 <= p < |col| ensures ImputeColumn(col)[p] == if p < i then Some(0.0) else col[i] {
      if p < i {
        LeadingCellsBecomeZero(col, p);
      } else if p == i {
        KeepsObserved(col, p);
      } else {
        TrailingCellsHoldLast(col, i, p);
      }
    }
  }

  /** Imputing an imputed column changes nothing. */
  lemma ImputeColumnIdempotent(col: Column)
    ensures ImputeColumn(ImputeColumn(col)) == ImputeColumn(col)
  {
    var once := ImputeColumn(col);
    ImputeColumnComplete(col);
    forall p | 0 <= p < |once| ensures ImputeColumn(once)[p] == once[p] {
      KeepsObserved(once, p);
    }
  }
}

/** Worked columns: each cell follows from the lemmas of the Imputation module. */
module ImputationExamples {
  import opened Wrappers
  import opened Series
  import opened Imputation

  /** Leading gap zeroed, interior gap interpolated: [NaN, NaN, 5, NaN, 10] becomes [0, 0, 5, 7.5, 10]. */
  lemma LeadingAndInteriorGap()
    ensures ImputeColumn([None, None, Some(5.0), None, Some(10.0)])
         == [Some(0.0), Some(0.0), Some(5.0), Some(7.5), Some(10.0)]
  {
    var col: Column := [None, None, Some(5.0), None, Some(10.0)];
    LeadingCellsBecomeZero(col, 0);
    LeadingCellsBecomeZero(col, 1);
    KeepsObserved(col, 2);
    InteriorGapIsInterpolated(col, 2, 3, 4);
    KeepsObserved(col, 4);
  }

  /** Trailing gap holds the last observation: [NaN, 3, NaN, NaN] becomes [0, 3, 3, 3]. */
  lemma TrailingGap()
    ensures ImputeColumn([None, Some(3.0), None, None]) == [Some(0.0), Some(3.0), Some(3.0), Some(3.0)]
  {
    var col: Column := [None, Some(3.0), None, None];
    SingleObservation(col, 1);
  }

  /** A single observation: [NaN, NaN, 7, NaN] becomes [0, 0, 7, 7]. */
  lemma SingleValue()
    ensures ImputeColumn([None, None, Some(7.0), None]) == [Some(0.0), Some(0.0), Some(7.0), Some(7.0)]
  {
    var col: Column := [None, None, Some(7.0), None];
    SingleObservation(col, 2);
  }

  /** An all-missing column: [NaN, NaN, NaN] becomes [0, 0, 0]. */
  lemma AllMissing()
    ensures ImputeColumn([None, None, None]) == [Some(0.0), Some(0.0), Some(0.0)]
  {
    var col: Column := [None, None, None];
    AllMissingBecomesZeros(col);
  }
}
