/**
 * The operations of a one-dimensional column (a pandas Series) that the
 * imputation routine relies on, stated over positions: first_valid_index,
 * fillna and interpolate(method='linear', limit_direction='both').
 * Floating point is replaced by exact real arithmetic.
 */
module Series {
  import opened Wrappers

  /** One column of a table, in row order; None stands for a missing value. */
  type Column = seq<Option<real>>

  /** The position of the last observed cell strictly before position p, if any. */
  function LastValidBefore(s: Column, p: nat): (r: Option<nat>)
    requires p <= |s|
    ensures r.Some? ==> r.value < p && s[r.value].Some?
    decreases p
  {
    if p == 0 then None
    else if s[p - 1].Some? then Some(p - 1)
    else LastValidBefore(s, p - 1)
  }

  /** LastValidBefore finds the nearest observation before p, and misses one only when there is none. */
  lemma {:induction false} LastValidBeforeSpec(s: Column, p: nat)
    requires p <= |s|
    ensures LastValidBefore(s, p).Some? ==>
              forall j :: LastValidBefore(s, p).value < j < p ==> s[j].None?
    ensures LastValidBefore(s, p).None? ==> forall j :: 0 <= j < p ==> s[j].None?
    decreases p
  {
    if p > 0 && s[p - 1].None? {
      LastValidBeforeSpec(s, p - 1);
    }
  }

  /** The position of the first observed cell at or after position p, if any. */
  function NextValidFrom(s: Column, p: nat): (r: Option<nat>)
    requires p <= |s|
    ensures r.Some? ==> p <= r.value < |s| && s[r.value].Some?
    decreases |s| - p
  {
    if p == |s| then None
    else if s[p].Some? then Some(p)
    else NextValidFrom(s, p + 1)
  }

  /** NextValidFrom finds the nearest observation from p on, and misses one only when there is none. */
  lemma {:induction false} NextValidFromSpec(s: Column, p: nat)
    requires p <= |s|
    ensures NextValidFrom(s, p).Some? ==>
              forall j :: p <= j < NextValidFrom(s, p).value ==> s[j].None?
    ensures NextValidFrom(s, p).None? ==> forall j :: p <= j < |s| ==> s[j].None?
    decreases |s| - p
  {
    if p < |s| && s[p].None? {
      NextValidFromSpec(s, p + 1);
    }
  }

  /** first_valid_index, as a position: None when every cell is missing. */
  function FirstValidIndex(s: Column): (r: Option<nat>)
    ensures r.Some? ==> r.value < |s| && s[r.value].Some?
  {
    NextValidFrom(s, 0)
  }

  /**
   * The position first_valid_index finds is the first observed one; it finds
   * none exactly when every cell is missing.
   */
  lemma FirstValidIndexSpec(s: Column)
    ensures FirstValidIndex(s).Some? ==> forall j :: 0 <= j < FirstValidIndex(s).value ==> s[j].None?
    ensures FirstValidIndex(s).None? <==> forall j :: 0 <= j < |s| ==> s[j].None?
  {
    NextValidFromSpec(s, 0);
  }

  /** fillna(v): every missing cell becomes v, observed cells are kept. */
  function FillNa(s: Column, v: real): (r: Column)
    ensures |r| == |s|
    ensures forall i :: 0 <= i < |s| && s[i].Some? ==> r[i] == s[i]
    ensures forall i :: 0 <= i < |s| && s[i].None? ==> r[i] == Some(v)
  {
    seq(|s|, i requires 0 <= i < |s| => if s[i].Some? then s[i] else Some(v))
  }

  /** fillna leaves no missing cell, so a second fillna, with any value, changes nothing. */
  lemma FillNaIdempotent(s: Column, v: real, w: real)
    ensures forall i :: 0 <= i < |s| ==> FillNa(s, v)[i].Some?
    ensures FillNa(FillNa(s, v), w) == FillNa(s, v)
  {
  }

  /**
   * The straight line through (lo, vlo) and (hi, vhi), evaluated at p: the
   * value linear interpolation gives the cell at position p.
   */
  function Lerp(vlo: real, vhi: real, lo: int, hi: int, p: int): (r: real)
    requires lo < hi
    ensures p == lo ==> r == vlo
    ensures p == hi ==> r == vhi
  {
    vlo + (vhi - vlo) * ((p - lo) as real / (hi - lo) as real)
  }

  /**
   * The value interpolate(method='linear', limit_direction='both') gives the
   * cell at position p. The method ignores the index and treats rows as
   * equally spaced; a gap between two observations is filled on the line
   * through them, and a gap at either end takes the nearest observation.
   * A column with no observation is left as it is.
   */
  function InterpolateAt(s: Column, p: nat): (r: Option<real>)
    requires p < |s|
    ensures s[p].Some? ==> r == s[p]
    ensures LastValidBefore(s, p).Some? || NextValidFrom(s, p + 1).Some? ==> r.Some?
  {
    if s[p].Some? then s[p]
    else
      match (LastValidBefore(s, p), NextValidFrom(s, p + 1))
      case (Some(lo), Some(hi)) => Some(Lerp(s[lo].value, s[hi].value, lo, hi, p))
      case (Some(lo), None) => s[lo]
      case (None, Some(hi)) => s[hi]
      case (None, None) => None
  }

  /** interpolate(method='linear', limit_direction='both') over a whole column. */
  function Interpolate(s: Column): (r: Column)
    ensures |r| == |s|
  {
    seq(|s|, p requires 0 <= p < |s| => InterpolateAt(s, p))
  }

  /**
   * Interpolation keeps every observed cell; it fills every cell of a column
   * that has an observation, and leaves a column without one as it is.
   */
  lemma InterpolateSpec(s: Column)
    ensures forall p :: 0 <= p < |s| && s[p].Some? ==> Interpolate(s)[p] == s[p]
    ensures FirstValidIndex(s).Some? ==> forall p :: 0 <= p < |s| ==> Interpolate(s)[p].Some?
    ensures FirstValidIndex(s).None? ==> Interpolate(s) == s
  {
    NextValidFromSpec(s, 0);
    if FirstValidIndex(s).Some? {
      var first := FirstValidIndex(s).value;
      forall p | 0 <= p < |s| ensures Interpolate(s)[p].Some? {
        if p < first {
          NextValidFromSpec(s, p + 1);
          assert NextValidFrom(s, p + 1).Some?;
        } else if p > first {
          LastValidBeforeSpec(s, p);
          assert LastValidBefore(s, p).Some?;
        }
      }
    } else {
      forall p | 0 <= p < |s| ensures Interpolate(s)[p] == s[p] {
        LastValidBeforeSpec(s, p);
        NextValidFromSpec(s, p + 1);
      }
    }
  }
}
