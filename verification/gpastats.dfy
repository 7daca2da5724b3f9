/** Sum, maximum and minimum over a list of GPAs, and the mean's place between the
    extremes. */
module GpaStats {
  import opened Records

  /** The GPAs of the records, in order. */
  function Gpas(db: seq<Student>): (r: seq<real>)
    ensures |r| == |db|
    ensures forall i :: 0 <= i < |db| ==> r[i] == db[i].gpa
  {
    if |db| == 0 then [] else [db[0].gpa] + Gpas(db[1..])
  }

  function Sum(gs: seq<real>): real
  {
    if |gs| == 0 then 0.0 else gs[0] + Sum(gs[1..])
  }

  function Max(gs: seq<real>): (m: real)
    requires |gs| > 0
    ensures m in gs
    ensures forall i :: 0 <= i < |gs| ==> gs[i] <= m
  {
    if |gs| == 1 then gs[0]
    else
      var rest := Max(gs[1..]);
      if gs[0] >= rest then gs[0] else rest
  }

  function Min(gs: seq<real>): (m: real)
    requires |gs| > 0
    ensures m in gs
    ensures forall i :: 0 <= i < |gs| ==> m <= gs[i]
  {
    if |gs| == 1 then gs[0]
    else
      var rest := Min(gs[1..]);
      if gs[0] <= rest then gs[0] else rest
  }

  function Mean(gs: seq<real>): real
    requires |gs| > 0
  {
    Sum(gs) / |gs| as real
  }

  lemma {:induction false} SumBounds(gs: seq<real>, lo: real, hi: real)
    requires forall i :: 0 <= i < |gs| ==> lo <= gs[i] <= hi
    ensures |gs| as real * lo <= Sum(gs) <= |gs| as real * hi
    decreases |gs|
  {
    if |gs| > 0 {
      SumBounds(gs[1..], lo, hi);
    }
  }

  /** The mean of a non-empty list lies between its minimum and its maximum. */
  lemma MeanBetweenExtremes(gs: seq<real>)
    requires |gs| > 0
    ensures Min(gs) <= Mean(gs) <= Max(gs)
  {
    MeanWithin(gs, Min(gs), Max(gs));
  }

  /** The mean of a non-empty list respects every bound all its elements respect. */
  lemma MeanWithin(gs: seq<real>, lo: real, hi: real)
    requires |gs| > 0
    requires forall i :: 0 <= i < |gs| ==> lo <= gs[i] <= hi
    ensures lo <= Mean(gs) <= hi
  {
    SumBounds(gs, lo, hi);
    QuotientBetween(Sum(gs), |gs| as real, lo, hi);
  }

  lemma QuotientBetween(s: real, n: real, lo: real, hi: real)
    requires n > 0.0 && n * lo <= s <= n * hi
    ensures lo <= s / n <= hi
  {
  }
}
