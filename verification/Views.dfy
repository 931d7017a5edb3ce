/**
  The derived views both components compute from the table: the search
  filter, the bar-chart projection, the single-sport pie breakdown, the
  per-country averages and best performers of the stats summary, and the
  Wikipedia page title of a sport name.
 */
module Views {

  import opened Optional
  import opened JsString
  import opened JsArray
  import opened Sports

  // ---------------------------------------------------------------------
  // filteredData
  // ---------------------------------------------------------------------

  /** The lower-cased label contains the lower-cased search term. */
  predicate Matches(s: Sport, term: string) {
    Includes(Lower(s.sport), Lower(term))
  }

  /** filteredData: the records whose label matches the search term. */
  function FilteredData(data: seq<Sport>, term: string): (r: seq<Sport>)
    ensures |r| <= |data|
    ensures forall s :: s in r <==> s in data && Matches(s, term)
  {
    Filter(data, (s: Sport) => Matches(s, term))
  }

  /**
    The filtered view keeps exactly the matching records, in their original
    order: `idx` lists the positions of the matching records in increasing
    order, and the k-th record of the view is the one at position idx[k].
   */
  lemma FilterSelectsMatches(data: seq<Sport>, term: string)
    ensures var idx := Kept(data, (s: Sport) => Matches(s, term));
            && |FilteredData(data, term)| == |idx|
            && (forall k :: 0 <= k < |idx| ==> 0 <= idx[k] < |data| && FilteredData(data, term)[k] == data[idx[k]])
            && (forall k, l :: 0 <= k < l < |idx| ==> idx[k] < idx[l])
            && (forall i :: 0 <= i < |data| ==> (Matches(data[i], term) <==> i in idx))
  {
    var keep := (s: Sport) => Matches(s, term);
    FilterIsSelection(data, keep);
    KeptSelects(data, keep);
  }

  /** The empty search term occurs in every label, so it keeps every record. */
  lemma FilterEmptyTerm(data: seq<Sport>)
    ensures FilteredData(data, "") == data
  {
    forall i | 0 <= i < |data| ensures Matches(data[i], "") {
      assert Lower(data[i].sport)[..0] == Lower("");
    }
    FilterKeepsAll(data, (s: Sport) => Matches(s, ""));
  }

  /** The search ignores the case of the term. */
  lemma FilterIgnoresCase(data: seq<Sport>, term: string)
    ensures FilteredData(data, Upper(term)) == FilteredData(data, term)
    ensures FilteredData(data, Lower(term)) == FilteredData(data, term)
  {
    CaseFolding(term);
    FilterAgrees(data, (s: Sport) => Matches(s, Upper(term)), (s: Sport) => Matches(s, term));
    FilterAgrees(data, (s: Sport) => Matches(s, Lower(term)), (s: Sport) => Matches(s, term));
  }

  // ---------------------------------------------------------------------
  // barChartData
  // ---------------------------------------------------------------------

  /** The country selector: "all", or one country code. */
  datatype CountrySelection = AllCountries | OneCountry(country: Country)

  /** One bar-chart entry: a label with all six ranks, or with the selected country's rank only. */
  datatype BarEntry = RanksEntry(sport: string, ranks: PerCountry<int>) | ValueEntry(sport: string, value: int)

  /** barChartData: one entry per filtered record, in order. */
  function BarChartData(filtered: seq<Sport>, selection: CountrySelection): (r: seq<BarEntry>)
    ensures |r| == |filtered|
    ensures forall i :: 0 <= i < |r| ==> r[i].sport == filtered[i].sport
    ensures selection == AllCountries ==> forall i :: 0 <= i < |r| ==> r[i] == RanksEntry(filtered[i].sport, filtered[i].ranks)
    ensures selection.OneCountry? ==> forall i :: 0 <= i < |r| ==> r[i] == ValueEntry(filtered[i].sport, filtered[i].ranks.At(selection.country))
  {
    match selection
    case AllCountries =>
      seq(|filtered|, i requires 0 <= i < |filtered| => RanksEntry(filtered[i].sport, filtered[i].ranks))
    case OneCountry(c) =>
      seq(|filtered|, i requires 0 <= i < |filtered| => ValueEntry(filtered[i].sport, filtered[i].ranks.At(c)))
  }

  /** A single-country bar is the selected column of the all-countries bar at the same position. */
  lemma BarProjectsColumn(filtered: seq<Sport>, c: Country)
    ensures var all := BarChartData(filtered, AllCountries);
            var one := BarChartData(filtered, OneCountry(c));
            |one| == |all| && forall i :: 0 <= i < |one| ==> one[i].sport == all[i].sport && one[i].value == all[i].ranks.At(c)
  {
  }

  // ---------------------------------------------------------------------
  // pieChartData
  // ---------------------------------------------------------------------

  /** One pie slice: a country's display name, its rank and its code. */
  datatype PieSlice = PieSlice(name: string, value: int, code: Country)

  /** The six slices of one record, in the fixed country order. */
  function PieSlices(s: Sport): (r: seq<PieSlice>)
    ensures |r| == |Countries|
    ensures forall i :: 0 <= i < |r| ==> r[i] == PieSlice(CountryName(Countries[i]), s.ranks.At(Countries[i]), Countries[i])
  {
    seq(|Countries|, i requires 0 <= i < |Countries| =>
      PieSlice(CountryName(Countries[i]), s.ranks.At(Countries[i]), Countries[i]))
  }

  /** `k` is the first position whose record carries the label. */
  predicate IsFirstLabelled(items: seq<Sport>, target: string, k: int) {
    && 0 <= k < |items|
    && items[k].sport == target
    && forall j :: 0 <= j < k ==> items[j].sport != target
  }

  /** Array.prototype.find by label. */
  function FindBySport(items: seq<Sport>, target: string): (r: Option<Sport>)
    ensures r.None? <==> forall i :: 0 <= i < |items| ==> items[i].sport != target
  {
    if items == [] then None
    else if items[0].sport == target then Some(items[0])
    else
      assert forall i :: 1 <= i < |items| ==> items[i] == items[1..][i - 1];
      FindBySport(items[1..], target)
  }

  /** find returns the first record carrying the label. */
  lemma {:induction false} FindIsFirst(items: seq<Sport>, target: string, k: int)
    requires IsFirstLabelled(items, target, k)
    ensures FindBySport(items, target) == Some(items[k])
  {
    if k > 0 {
      assert IsFirstLabelled(items[1..], target, k - 1);
      FindIsFirst(items[1..], target, k - 1);
    }
  }

  // ---------------------------------------------------------------------
  // stats: averages
  // ---------------------------------------------------------------------

  /** `reduce((sum, item) => sum + item[country], 0)`, folding from the left. */
  function RankSum(items: seq<Sport>, c: Country): int {
    if items == [] then 0 else RankSum(items[..|items| - 1], c) + items[|items| - 1].ranks.At(c)
  }

  /**
    `(total / count).toFixed(2)` as a whole number of hundredths: the nearest
    hundredth to the exact quotient, a tie rounding away from zero (toFixed
    rounds the magnitude half up).
   */
  function Hundredths(total: int, count: int): (h: int)
    requires count > 0
    ensures -count <= 200 * total - 2 * count * h <= count
    ensures total >= 0 ==> 200 * total - count < 2 * count * h <= 200 * total + count
    ensures total < 0 ==> 200 * total - count <= 2 * count * h < 200 * total + count
  {
    if total >= 0 then (200 * total + count) / (2 * count)
    else -((200 * -total + count) / (2 * count))
  }

  /** One entry of countryAverages: the country and its average in hundredths. */
  datatype CountryAverage = CountryAverage(country: Country, hundredths: int)

  /** The average of the filtered records' ranks for one country, rounded to hundredths. */
  function AverageOf(items: seq<Sport>, c: Country): (a: CountryAverage)
    requires items != []
    ensures a.country == c
    ensures -|items| <= 200 * RankSum(items, c) - 2 * |items| * a.hundredths <= |items|
  {
    CountryAverage(c, Hundredths(RankSum(items, c), |items|))
  }

  /** countryAverages before any sorting: one entry per country, in the fixed country order. */
  function CountryAverages(items: seq<Sport>): (r: seq<CountryAverage>)
    requires items != []
    ensures |r| == |Countries|
    ensures forall i :: 0 <= i < |r| ==> r[i] == AverageOf(items, Countries[i])
  {
    seq(|Countries|, i requires 0 <= i < |Countries| => AverageOf(items, Countries[i]))
  }

  // ---------------------------------------------------------------------
  // stats: best performers
  // ---------------------------------------------------------------------

  /**
    The accumulator of the best-performer fold: the initial
    `{ sport: "", value: Infinity }`, or the record that is best so far.
   */
  datatype Best = Unbeaten | Leader(sport: string, value: int)

  /** One step of the fold: a strictly smaller rank takes the lead. */
  function BestStep(best: Best, item: Sport, c: Country): (r: Best)
    ensures r.Leader? && r.value <= item.ranks.At(c)
    ensures best.Leader? ==> r.value <= best.value
  {
    if best.Unbeaten? || item.ranks.At(c) < best.value then Leader(item.sport, item.ranks.At(c)) else best
  }

  /** The best-performer fold over the records, from the left. */
  function BestSoFar(items: seq<Sport>, c: Country): (r: Best)
    ensures r.Unbeaten? <==> items == []
  {
    if items == [] then Unbeaten else BestStep(BestSoFar(items[..|items| - 1], c), items[|items| - 1], c)
  }

  /** `k` holds the country's minimum rank, and no earlier record holds it. */
  predicate IsFirstMinimum(items: seq<Sport>, c: Country, k: int) {
    && 0 <= k < |items|
    && (forall j :: 0 <= j < |items| ==> items[k].ranks.At(c) <= items[j].ranks.At(c))
    && (forall j :: 0 <= j < k ==> items[k].ranks.At(c) < items[j].ranks.At(c))
  }

  /** Every non-empty list of records has a first minimum. */
  lemma {:induction false} FirstMinimumExists(items: seq<Sport>, c: Country)
    requires items != []
    ensures exists k :: IsFirstMinimum(items, c, k)
  {
    var n := |items| - 1;
    if n == 0 {
      assert IsFirstMinimum(items, c, 0);
    } else {
      var init := items[..n];
      FirstMinimumExists(init, c);
      var k :| IsFirstMinimum(init, c, k);
      if items[n].ranks.At(c) < items[k].ranks.At(c) {
        assert IsFirstMinimum(items, c, n);
      } else {
        assert IsFirstMinimum(items, c, k);
      }
    }
  }

  /** The fold ends on the first record holding the country's minimum rank. */
  lemma {:induction false} BestIsFirstMinimum(items: seq<Sport>, c: Country, k: int)
    requires IsFirstMinimum(items, c, k)
    ensures BestSoFar(items, c) == Leader(items[k].sport, items[k].ranks.At(c))
  {
    var n := |items| - 1;
    var init := items[..n];
    if n > 0 {
      if k == n {
        FirstMinimumExists(init, c);
        var k0 :| IsFirstMinimum(init, c, k0);
        BestIsFirstMinimum(init, c, k0);
      } else {
        assert IsFirstMinimum(init, c, k);
        BestIsFirstMinimum(init, c, k);
      }
    }
  }

  /** One entry of the performers list: a country and the record that ranks it best. */
  datatype Performer = Performer(country: Country, best: Best)

  /** topPerformers / bestPerformers: one entry per country, in the fixed country order. */
  function Performers(items: seq<Sport>): (r: seq<Performer>)
    ensures |r| == |Countries|
    ensures forall i :: 0 <= i < |r| ==> r[i] == Performer(Countries[i], BestSoFar(items, Countries[i]))
  {
    seq(|Countries|, i requires 0 <= i < |Countries| => Performer(Countries[i], BestSoFar(items, Countries[i])))
  }

  /** The summary card: country averages, best performers and the number of records. */
  datatype Stats = Stats(countryAverages: seq<CountryAverage>, performers: seq<Performer>, totalSports: nat)

  // ---------------------------------------------------------------------
  // Wikipedia page titles
  // ---------------------------------------------------------------------

  /** `s.charAt(0).toUpperCase() + s.slice(1).toLowerCase()` */
  function Capitalize(s: string): (r: string)
    ensures |r| == |s|
  {
    if s == [] then [] else [UpperChar(s[0])] + Lower(s[1..])
  }

  /** `WIKI_PAGE_MAPPING[name.toUpperCase()] || Capitalize(name)`; every table entry is non-empty. */
  function WikiTitle(name: string): string {
    var key := Upper(name);
    if key in WikiPageMapping then WikiPageMapping[key] else Capitalize(name)
  }

  /**
    A name the table does not know keeps its length, its first character is
    upper-cased and every later character lower-cased.
   */
  lemma WikiTitleFallback(name: string)
    requires Upper(name) !in WikiPageMapping
    ensures |WikiTitle(name)| == |name|
    ensures name != [] ==> WikiTitle(name)[0] == UpperChar(name[0])
    ensures forall k :: 1 <= k < |name| ==> WikiTitle(name)[k] == LowerChar(name[k])
  {
  }

  /** The title depends on the name only up to letter case. */
  lemma WikiTitleIgnoresCase(name: string)
    ensures WikiTitle(Upper(name)) == WikiTitle(name)
    ensures WikiTitle(Lower(name)) == WikiTitle(name)
  {
    CaseFolding(name);
    if name != [] {
      var t := name[1..];
      CaseFolding(t);
      assert Upper(name)[1..] == Upper(t);
      assert Lower(name)[1..] == Lower(t);
      assert UpperChar(UpperChar(name[0])) == UpperChar(name[0]);
      assert UpperChar(LowerChar(name[0])) == UpperChar(name[0]);
    }
  }

  /** A known name maps through the table whatever its case. */
  lemma WikiTitleKnown(name: string)
    requires name == "soccer"
    ensures WikiTitle(name) == "Association_football"
  {
    assert Upper(name) == "SOCCER";
  }

  /** An unknown name is capitalised. */
  lemma WikiTitleUnknown(name: string)
    requires name == "cURLING"
    ensures WikiTitle(name) == "Curling"
  {
    assert Upper(name) == "CURLING";
    assert Lower(name[1..]) == "urling";
  }
}
