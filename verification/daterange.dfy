/**
 The inclusive daily range from a start day to an end day, as the generator
 enumerates it: start, the day after, and so on while the day is not after
 the end. Every property is proved against the ordinal day count.
 */
module DateRange {
  import opened Calendar

  /** Days from `s` to `e` inclusive, one per day, ascending; empty when `s` is after `e`. */
  function Range(s: Date, e: Date): (r: seq<Date>)
    requires Valid(s) && Valid(e)
    ensures |r| == if Ordinal(s) <= Ordinal(e) then Ordinal(e) - Ordinal(s) + 1 else 0
    ensures forall i :: 0 <= i < |r| ==> Valid(r[i]) && Ordinal(r[i]) == Ordinal(s) + i
    decreases Ordinal(e) - Ordinal(s)
  {
    OrdinalOrder(s, e);
    if NotAfter(s, e) then
      NextOrdinal(s);
      [s] + Range(Next(s), e)
    else
      []
  }

  /** When the start is after the end there are no days at all. */
  lemma RangeEmpty(s: Date, e: Date)
    requires Valid(s) && Valid(e)
    ensures Range(s, e) == [] <==> Before(e, s)
  {
    OrdinalOrder(e, s);
  }

  /** A non-empty range begins with the start day and finishes with the end day. */
  lemma RangeEndpoints(s: Date, e: Date)
    requires Valid(s) && Valid(e) && NotAfter(s, e)
    ensures var r := Range(s, e);
      |r| >= 1 && r[0] == s && r[|r| - 1] == e
  {
    OrdinalOrder(s, e);
    var r := Range(s, e);
    var n := Ordinal(e) - Ordinal(s);
    assert |r| == n + 1;
    assert Valid(r[0]) && Ordinal(r[0]) == Ordinal(s);
    assert Valid(r[n]) && Ordinal(r[n]) == Ordinal(e);
    OrdinalInjective(r[0], s);
    OrdinalInjective(r[n], e);
  }

  /** No gaps: each day in the range is followed by its calendar successor. */
  lemma RangeConsecutive(s: Date, e: Date, i: nat)
    requires Valid(s) && Valid(e) && i + 1 < |Range(s, e)|
    ensures Range(s, e)[i + 1] == Next(Range(s, e)[i])
  {
    var r := Range(s, e);
    NextOrdinal(r[i]);
    OrdinalInjective(r[i + 1], Next(r[i]));
  }

  /** Strictly ascending, so no day appears twice. */
  lemma RangeAscending(s: Date, e: Date, i: nat, j: nat)
    requires Valid(s) && Valid(e) && i < j < |Range(s, e)|
    ensures Before(Range(s, e)[i], Range(s, e)[j])
  {
    var r := Range(s, e);
    OrdinalOrder(r[i], r[j]);
  }

  /** Exactly the existing days between start and end, both included, are in the range. */
  lemma RangeMembers(s: Date, e: Date, d: Date)
    requires Valid(s) && Valid(e) && Valid(d)
    ensures d in Range(s, e) <==> NotAfter(s, d) && NotAfter(d, e)
  {
    var r := Range(s, e);
    OrdinalOrder(s, d);
    OrdinalOrder(d, e);
    if NotAfter(s, d) && NotAfter(d, e) {
      var k := Ordinal(d) - Ordinal(s);
      OrdinalInjective(r[k], d);
    }
  }
}
