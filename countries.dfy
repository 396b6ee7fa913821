/**
 * `question_1`: `df['countryname'].value_counts().nlargest(10)`, the ten
 * countries with the most projects.
 */
module Countries {
  import opened Counting

  /**
   * The country counts, largest first, cut to ten. pandas fixes no order
   * among equal counts; the model lists them in the order the countries are
   * first met, and the contract promises no tie order.
   */
  function QuestionOne(countryname: seq<string>): (r: seq<(string, nat)>)
    ensures |r| == Min(10, |CounterOf(countryname)|)
    ensures NonIncreasing(r) && DistinctKeys(r)
    ensures forall i :: 0 <= i < |r| ==> r[i].0 in countryname && r[i].1 == Count(countryname, r[i].0)
    ensures forall k :: 0 <= k < |countryname| && !HasKey(r, countryname[k]) ==>
      |r| == 10 && Count(countryname, countryname[k]) <= r[9].1
  {
    MostCommonCounts(countryname, 10);
    MostCommonKeepsLargest(countryname, 10);
    MostCommon(countryname, 10)
  }
}
