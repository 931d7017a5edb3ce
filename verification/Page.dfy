/**
  The derived views that only the full page computes its own way: its pie
  breakdown, its stats summary with the averages sorted, and the trimmed
  search term it looks a Wikipedia title up for.
 */
module Page {

  import opened Optional
  import opened JsString
  import opened Sports
  import opened Views
  import Section

  // ---------------------------------------------------------------------
  // pieChartData
  // ---------------------------------------------------------------------

  /**
    pieChartData: the selected label, or else the first filtered record's
    label, is looked up with find; with neither, find looks for `undefined`
    and finds nothing.
   */
  function PieChartData(filtered: seq<Sport>, selectedSport: Option<string>): (r: seq<PieSlice>)
    ensures r == [] || |r| == 6
  {
    var sportToUse :=
      if selectedSport.Some? && selectedSport.value != "" then selectedSport
      else if filtered == [] then None
      else Some(filtered[0].sport);
    match sportToUse
    case None => []
    case Some(target) =>
      match FindBySport(filtered, target)
      case None => []
      case Some(s) => PieSlices(s)
  }

  /** The page's pie breakdown is the section's, though computed by a different path. */
  lemma PieAgreesWithSection(filtered: seq<Sport>, selectedSport: Option<string>)
    ensures PieChartData(filtered, selectedSport) == Section.PieChartData(filtered, selectedSport)
  {
    if !(selectedSport.Some? && selectedSport.value != "") && filtered != [] {
      FindIsFirst(filtered, filtered[0].sport, 0);
    }
  }

  // ---------------------------------------------------------------------
  // stats: countryAverages sorted by average
  // ---------------------------------------------------------------------

  /**
    The order a stable sort by average leaves entries in when they start in
    country order: by average, and equal averages in country order.
   */
  predicate AverageBefore(a: CountryAverage, b: CountryAverage) {
    a.hundredths < b.hundredths || (a.hundredths == b.hundredths && Ordinal(a.country) < Ordinal(b.country))
  }

  predicate SortedByAverage(s: seq<CountryAverage>) {
    forall i, j :: 0 <= i < j < |s| ==> AverageBefore(s[i], s[j])
  }

  /** Every entry of `s` comes after `x` in country order. */
  predicate CountryPrecedes(x: CountryAverage, s: seq<CountryAverage>) {
    forall y :: y in s ==> Ordinal(x.country) < Ordinal(y.country)
  }

  /** The entries of `s` are in strictly increasing country order. */
  predicate InCountryOrder(s: seq<CountryAverage>) {
    forall i, j :: 0 <= i < j < |s| ==> Ordinal(s[i].country) < Ordinal(s[j].country)
  }

  /** One insertion step: `x` goes before the first entry whose average is not below its own. */
  function InsertByAverage(x: CountryAverage, s: seq<CountryAverage>): (r: seq<CountryAverage>)
    ensures multiset(r) == multiset(s) + multiset{x}
  {
    if s == [] || x.hundredths <= s[0].hundredths then [x] + s
    else
      assert s == [s[0]] + s[1..];
      [s[0]] + InsertByAverage(x, s[1..])
  }

  /** Inserting an entry that precedes the rest in country order keeps the order of a stable sort. */
  lemma {:induction false} InsertKeepsOrder(x: CountryAverage, s: seq<CountryAverage>)
    requires SortedByAverage(s) && CountryPrecedes(x, s)
    ensures SortedByAverage(InsertByAverage(x, s))
  {
    if s != [] && x.hundredths > s[0].hundredths {
      var rest := InsertByAverage(x, s[1..]);
      InsertKeepsOrder(x, s[1..]);
      forall y | y in rest ensures AverageBefore(s[0], y) {
        assert y in multiset(rest);
        if y != x {
          var j :| 0 <= j < |s[1..]| && s[1..][j] == y;
          assert s[j + 1] == y;
        }
      }
      var r := [s[0]] + rest;
      forall i, j | 0 <= i < j < |r| ensures AverageBefore(r[i], r[j]) {
        if i == 0 {
          assert r[j] in rest;
        } else {
          assert r[i] == rest[i - 1] && r[j] == rest[j - 1];
        }
      }
    } else if s != [] {
      var r := [x] + s;
      forall i, j | 0 <= i < j < |r| ensures AverageBefore(r[i], r[j]) {
        if i == 0 {
          assert r[j] in s;
          assert j == 1 || AverageBefore(s[0], r[j]);
        } else {
          assert r[i] == s[i - 1] && r[j] == s[j - 1];
        }
      }
    }
  }

  /**
    `.sort((a, b) => parseFloat(a.avg) - parseFloat(b.avg))` on the
    hundredths, which is stable: the result is a permutation of the input.
   */
  function SortByAverage(s: seq<CountryAverage>): (r: seq<CountryAverage>)
    ensures multiset(r) == multiset(s)
  {
    if s == [] then []
    else
      assert s == [s[0]] + s[1..];
      InsertByAverage(s[0], SortByAverage(s[1..]))
  }

  /** An input in country order comes out sorted by average, with ties in country order. */
  lemma {:induction false} SortOrdersByAverage(s: seq<CountryAverage>)
    requires InCountryOrder(s)
    ensures SortedByAverage(SortByAverage(s))
  {
    if s != [] {
      var rest := SortByAverage(s[1..]);
      SortOrdersByAverage(s[1..]);
      forall y | y in rest ensures Ordinal(s[0].country) < Ordinal(y.country) {
        assert y in multiset(rest);
        var j :| 0 <= j < |s[1..]| && s[1..][j] == y;
        assert s[j + 1] == y;
      }
      InsertKeepsOrder(s[0], rest);
    }
  }

  /** stats: null for an empty view, otherwise the sorted averages, the top performers and the count. */
  function StatsSummary(filtered: seq<Sport>): (r: Option<Stats>)
    ensures r.None? <==> filtered == []
    ensures r.Some? ==> |r.value.countryAverages| == 6 && |r.value.performers| == 6
    ensures r.Some? ==> forall i :: 0 <= i < |r.value.performers| ==> r.value.performers[i].best.Leader?
  {
    if filtered == [] then None
    else
      var averages := CountryAverages(filtered);
      assert |multiset(SortByAverage(averages))| == |multiset(averages)|;
      Some(Stats(SortByAverage(averages), Performers(filtered), |filtered|))
  }

  /** The country averages start out in country order. */
  lemma AveragesInCountryOrder(filtered: seq<Sport>)
    requires filtered != []
    ensures InCountryOrder(CountryAverages(filtered))
  {
    var s := CountryAverages(filtered);
    forall i, j | 0 <= i < j < |s| ensures Ordinal(s[i].country) < Ordinal(s[j].country) {
      assert Ordinal(Countries[i]) == i && Ordinal(Countries[j]) == j;
    }
  }

  /**
    The page's summary is the section's except that its averages are sorted:
    it lists every country's average once, ordered by nondecreasing average
    with ties in country order.
   */
  lemma StatsSortsSectionStats(filtered: seq<Sport>)
    ensures StatsSummary(filtered).None? <==> filtered == []
    ensures filtered != [] ==>
              var page := StatsSummary(filtered).value;
              var section := Section.StatsSummary(filtered).value;
              && page.performers == section.performers
              && page.totalSports == section.totalSports
              && multiset(page.countryAverages) == multiset(section.countryAverages)
              && SortedByAverage(page.countryAverages)
  {
    if filtered != [] {
      AveragesInCountryOrder(filtered);
      SortOrdersByAverage(CountryAverages(filtered));
    }
  }

  /** The sorted averages hold each of the six countries exactly once, with that country's average. */
  lemma SortedAveragesListEachCountryOnce(filtered: seq<Sport>)
    requires filtered != []
    ensures var avgs := StatsSummary(filtered).value.countryAverages;
            && |avgs| == |Countries|
            && (forall c :: AverageOf(filtered, c) in avgs)
            && (forall i :: 0 <= i < |avgs| ==> avgs[i] == AverageOf(filtered, avgs[i].country))
            && (forall i, j :: 0 <= i < j < |avgs| ==> avgs[i].country != avgs[j].country)
  {
    var s := CountryAverages(filtered);
    var avgs := SortByAverage(s);
    AveragesInCountryOrder(filtered);
    SortOrdersByAverage(s);
    assert |avgs| == |multiset(avgs)|;
    forall c ensures AverageOf(filtered, c) in avgs {
      assert s[Ordinal(c)] == AverageOf(filtered, c);
      assert AverageOf(filtered, c) in multiset(s);
    }
    forall i | 0 <= i < |avgs| ensures avgs[i] == AverageOf(filtered, avgs[i].country) {
      assert avgs[i] in multiset(s);
    }
  }

  // ---------------------------------------------------------------------
  // searchWikipedia: the title looked up
  // ---------------------------------------------------------------------

  /** `termOverride || wikiSearchTerm`: the override unless it is absent or empty. */
  function SearchTerm(termOverride: Option<string>, wikiSearchTerm: string): (r: string)
    ensures r == wikiSearchTerm || termOverride == Some(r)
    ensures r == [] ==> wikiSearchTerm == []
  {
    if termOverride.Some? && termOverride.value != "" then termOverride.value else wikiSearchTerm
  }

  /**
    The Wikipedia page title searchWikipedia requests for a term: a blank
    term returns early and requests nothing; otherwise the trimmed term is
    canonicalised.
   */
  function TitleFor(term: string): Option<string> {
    var cleanTerm := Trim(term);
    if cleanTerm == [] then None else Some(WikiTitle(cleanTerm))
  }

  /** searchWikipedia's request for an optional override term and the search box's term. */
  function SearchTitle(termOverride: Option<string>, wikiSearchTerm: string): Option<string> {
    TitleFor(SearchTerm(termOverride, wikiSearchTerm))
  }

  /**
    Nothing is requested exactly when the term is whitespace only; otherwise
    the title is the section's canonical title of the trimmed term.
   */
  lemma TitleForTrimmedTerm(term: string)
    ensures TitleFor(term).None? <==> forall k :: 0 <= k < |term| ==> IsWhitespace(term[k])
    ensures TitleFor(term).Some? ==> TitleFor(term).value == WikiTitle(Trim(term))
  {
    TrimBlank(term);
  }

  /** An override term and the same term typed in the search box request the same title. */
  lemma OverrideActsAsSearchTerm(term: string)
    ensures SearchTitle(Some(term), "") == SearchTitle(None, term)
  {
    assert SearchTerm(Some(term), "") == term;
  }

  /** Whitespace around the term does not change the title requested. */
  lemma TitleIgnoresPadding(before: string, term: string, after: string)
    requires forall k :: 0 <= k < |before| ==> IsWhitespace(before[k])
    requires forall k :: 0 <= k < |after| ==> IsWhitespace(after[k])
    requires term != [] && !IsWhitespace(term[0]) && !IsWhitespace(term[|term| - 1])
    ensures TitleFor(before + term + after) == Some(WikiTitle(term))
  {
    TrimPadded(before, term, after);
  }
}
