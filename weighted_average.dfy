/**
 * The credit-weighted average of one teaching unit: the sum of
 * credit * note over the paired credits and notes, divided by the sum of
 * the credits, and 0 when the credits add up to 0.
 *
 * Notes are exact reals; the floating-point rounding of the original is
 * not modelled.
 */
module WeightedAverages {

  /** `sum(credits)`. */
  function Total(credits: seq<int>): int {
    if credits == [] then 0 else credits[0] + Total(credits[1..])
  }

  /**
   * `sum(credit * note for credit, note in zip(credits, notes))`: the pairs
   * stop at the end of the shorter list, as `zip` does.
   */
  function WeightedSum(credits: seq<int>, notes: seq<real>): real {
    if credits == [] || notes == [] then 0.0
    else credits[0] as real * notes[0] + WeightedSum(credits[1..], notes[1..])
  }

  /**
   * The weighted average of `notes` with weights `credits`. A zero total
   * yields 0 instead of a division by zero; otherwise the average is the
   * number that, multiplied by the total, gives the weighted sum.
   */
  function WeightedAverage(credits: seq<int>, notes: seq<real>): (r: real)
    ensures Total(credits) == 0 ==> r == 0.0
    ensures Total(credits) != 0 ==> r * Total(credits) as real == WeightedSum(credits, notes)
  {
    var total := Total(credits);
    if total == 0 then 0.0 else WeightedSum(credits, notes) / total as real
  }

  /** The smallest note. */
  function Min(notes: seq<real>): (m: real)
    requires notes != []
    ensures m in notes
    ensures forall i :: 0 <= i < |notes| ==> m <= notes[i]
  {
    if |notes| == 1 then notes[0]
    else
      var rest := Min(notes[1..]);
      assert forall i :: 1 <= i < |notes| ==> notes[i] == notes[1..][i - 1];
      if notes[0] <= rest then notes[0] else rest
  }

  /** The largest note. */
  function Max(notes: seq<real>): (m: real)
    requires notes != []
    ensures m in notes
    ensures forall i :: 0 <= i < |notes| ==> notes[i] <= m
  {
    if |notes| == 1 then notes[0]
    else
      var rest := Max(notes[1..]);
      assert forall i :: 1 <= i < |notes| ==> notes[i] == notes[1..][i - 1];
      if rest <= notes[0] then notes[0] else rest
  }

  /** Non-negative credits with notes in [lo, hi] give a weighted sum in [lo * total, hi * total]. */
  lemma {:induction false} WeightedSumBounds(credits: seq<int>, notes: seq<real>, lo: real, hi: real)
    requires |credits| == |notes|
    requires forall i :: 0 <= i < |credits| ==> credits[i] >= 0
    requires forall i :: 0 <= i < |notes| ==> lo <= notes[i] <= hi
    ensures lo * (Total(credits) as real) <= WeightedSum(credits, notes) <= hi * (Total(credits) as real)
  {
    if credits != [] {
      WeightedSumBounds(credits[1..], notes[1..], lo, hi);
      StepBounds(credits[0] as real, notes[0], WeightedSum(credits[1..], notes[1..]), Total(credits[1..]) as real, lo, hi);
    }
  }

  /** Credits that are all positive add up to a positive total, unless there are none. */
  lemma {:induction false} PositiveCreditsTotal(credits: seq<int>)
    requires forall i :: 0 <= i < |credits| ==> credits[i] > 0
    ensures credits == [] <==> Total(credits) == 0
    ensures credits != [] ==> Total(credits) > 0
  {
    if credits != [] {
      PositiveCreditsTotal(credits[1..]);
    }
  }

  /**
   * With non-negative credits of positive total, one per note, the
   * weighted average lies within any bounds of the notes.
   */
  lemma WeightedAverageBetween(credits: seq<int>, notes: seq<real>, lo: real, hi: real)
    requires |credits| == |notes|
    requires forall i :: 0 <= i < |credits| ==> credits[i] >= 0
    requires forall i :: 0 <= i < |notes| ==> lo <= notes[i] <= hi
    requires Total(credits) > 0
    ensures lo <= WeightedAverage(credits, notes) <= hi
  {
    WeightedSumBounds(credits, notes, lo, hi);
    QuotientBounds(WeightedSum(credits, notes), Total(credits) as real, WeightedAverage(credits, notes), lo, hi);
  }

  /** In particular the average lies between the smallest and the largest note. */
  lemma WeightedAverageWithinNotes(credits: seq<int>, notes: seq<real>)
    requires |credits| == |notes| > 0
    requires forall i :: 0 <= i < |credits| ==> credits[i] >= 0
    requires Total(credits) > 0
    ensures Min(notes) <= WeightedAverage(credits, notes) <= Max(notes)
  {
    WeightedAverageBetween(credits, notes, Min(notes), Max(notes));
  }

  /** One more term of weight c >= 0 and note in [lo, hi] keeps the weighted sum within bounds. */
  lemma StepBounds(c: real, n: real, rest: real, restTotal: real, lo: real, hi: real)
    requires c >= 0.0 && lo <= n <= hi
    requires lo * restTotal <= rest <= hi * restTotal
    ensures lo * (c + restTotal) <= c * n + rest <= hi * (c + restTotal)
  {
    ScaleMonotone(c, lo, n);
    ScaleMonotone(c, n, hi);
    assert lo * (c + restTotal) == lo * c + lo * restTotal;
    assert hi * (c + restTotal) == hi * c + hi * restTotal;
  }

  /** Multiplying by a non-negative factor keeps an inequality. */
  lemma ScaleMonotone(c: real, a: real, b: real)
    requires c >= 0.0 && a <= b
    ensures c * a <= c * b
  {
    assert c * b - c * a == c * (b - a);
  }

  /** A quotient of a value bounded by lo * t and hi * t, with t > 0, lies in [lo, hi]. */
  lemma QuotientBounds(w: real, t: real, r: real, lo: real, hi: real)
    requires t > 0.0 && r * t == w
    requires lo * t <= w <= hi * t
    ensures lo <= r <= hi
  {
    assert (r - lo) * t >= 0.0;
    assert (hi - r) * t >= 0.0;
  }

  /** The all-positive case: a non-empty unit's average lies between its extreme notes. */
  lemma PositiveCreditsWithinNotes(credits: seq<int>, notes: seq<real>)
    requires |credits| == |notes| > 0
    requires forall i :: 0 <= i < |credits| ==> credits[i] > 0
    ensures Min(notes) <= WeightedAverage(credits, notes) <= Max(notes)
  {
    PositiveCreditsTotal(credits);
    WeightedAverageWithinNotes(credits, notes);
  }
}
