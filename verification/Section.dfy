/**
  The derived views that only the embeddable section computes its own way:
  its pie breakdown and its stats summary, whose averages stay in the fixed
  country order.
 */
module Section {

  import opened Optional
  import opened Sports
  import opened Views

  /**
    pieChartData: with no sport selected (null or the empty string) the first
    filtered record, otherwise the first filtered record carrying the
    selected label; no such record gives no slices.
   */
  function PieChartData(filtered: seq<Sport>, selectedSport: Option<string>): (r: seq<PieSlice>)
    ensures r == [] || |r| == 6
  {
    if selectedSport.None? || selectedSport.value == "" then
      if filtered == [] then [] else PieSlices(filtered[0])
    else
      match FindBySport(filtered, selectedSport.value)
      case None => []
      case Some(s) => PieSlices(s)
  }

  /** A sport is selected: a non-empty label. */
  predicate Selected(selectedSport: Option<string>) {
    selectedSport.Some? && selectedSport.value != ""
  }

  /**
    The pie breakdown is empty exactly when there is no record to show, and
    otherwise the six slices of the first record that matches the selection.
   */
  lemma PieBreakdown(filtered: seq<Sport>, selectedSport: Option<string>)
    ensures !Selected(selectedSport) ==>
              (PieChartData(filtered, selectedSport) == [] <==> filtered == [])
    ensures !Selected(selectedSport) && filtered != [] ==>
              PieChartData(filtered, selectedSport) == PieSlices(filtered[0])
    ensures Selected(selectedSport) ==>
              (PieChartData(filtered, selectedSport) == [] <==>
               forall i :: 0 <= i < |filtered| ==> filtered[i].sport != selectedSport.value)
    ensures forall k :: Selected(selectedSport) && IsFirstLabelled(filtered, selectedSport.value, k) ==>
              PieChartData(filtered, selectedSport) == PieSlices(filtered[k])
  {
    forall k | Selected(selectedSport) && IsFirstLabelled(filtered, selectedSport.value, k)
      ensures PieChartData(filtered, selectedSport) == PieSlices(filtered[k])
    {
      FindIsFirst(filtered, selectedSport.value, k);
    }
  }

  /** stats: null for an empty view, otherwise the averages in country order, the best performers and the count. */
  function StatsSummary(filtered: seq<Sport>): (r: Option<Stats>)
    ensures r.None? <==> filtered == []
    ensures r.Some? ==> |r.value.countryAverages| == 6 && |r.value.performers| == 6
    ensures r.Some? ==> forall i :: 0 <= i < |r.value.performers| ==> r.value.performers[i].best.Leader?
  {
    if filtered == [] then None
    else Some(Stats(CountryAverages(filtered), Performers(filtered), |filtered|))
  }

  /**
    The summary exists exactly for a non-empty view; it counts the view,
    lists each country's rounded average in the fixed country order, and
    names for each country the first record holding its minimum rank.
   */
  lemma StatsSummaryContents(filtered: seq<Sport>)
    ensures StatsSummary(filtered).None? <==> filtered == []
    ensures filtered != [] ==>
              var st := StatsSummary(filtered).value;
              && st.totalSports == |filtered|
              && |st.countryAverages| == |Countries|
              && (forall i :: 0 <= i < |Countries| ==>
                    st.countryAverages[i].country == Countries[i] &&
                    -|filtered| <= 200 * RankSum(filtered, Countries[i]) - 2 * |filtered| * st.countryAverages[i].hundredths <= |filtered|)
              && |st.performers| == |Countries|
              && (forall c, k :: IsFirstMinimum(filtered, c, k) ==>
                    st.performers[Ordinal(c)] == Performer(c, Leader(filtered[k].sport, filtered[k].ranks.At(c))))
  {
    forall c, k | IsFirstMinimum(filtered, c, k)
      ensures Performers(filtered)[Ordinal(c)] == Performer(c, Leader(filtered[k].sport, filtered[k].ranks.At(c)))
    {
      BestIsFirstMinimum(filtered, c, k);
    }
  }
}
