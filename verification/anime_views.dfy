/**
 The views computed from the anime record set: the ten most popular titles,
 the highlight flag of the popularity/score scatter, the episode cleaning
 step, the total-duration figures and the ten longest series.
 */
module AnimeViews {
  import opened Wrappers
  import opened Seqs
  import opened Sorting
  import opened Grouping
  import opened Numeric
  import opened Records

  /**
   The ten most popular titles: the ten smallest `Popularity` ranks, then
   shown by `Popularity` descending (the rank-10 title first).
   */
  function TopPopular(rows: seq<Anime>): (r: seq<Anime>)
    ensures |r| == Min(TopN, |rows|)
    ensures multiset(r) <= multiset(rows)
    ensures forall x, y :: x in r && y in multiset(rows) - multiset(r) ==> x.popularity <= y.popularity
    ensures SortedDescBy(r, Popularity)
  {
    var sel := SmallestK(rows, TopN, Popularity);
    var r := SortDesc(sel, Popularity);
    assert forall x :: x in r ==> x in sel by {
      forall x | x in r ensures x in sel {
        assert x in multiset(r);
      }
    }
    r
  }

  /** The selection sentinel meaning "highlight nothing". */
  const NoSelection := "Ninguno"

  /** One flag per row: does its title equal the selected one? */
  function Highlight(rows: seq<Anime>, selected: string): (r: seq<bool>)
    ensures |r| == |rows|
    ensures forall i :: 0 <= i < |rows| ==> (r[i] <==> rows[i].title == selected)
  {
    MapSeq((a: Anime) => a.title == selected, rows)
  }

  function CountTrue(flags: seq<bool>): nat
    decreases |flags|
  {
    if |flags| == 0 then 0
    else CountTrue(flags[..|flags| - 1]) + (if flags[|flags| - 1] then 1 else 0)
  }

  /**
   On rows with distinct titles (the loaded record set) the highlight marks
   exactly one row when the selection is one of the titles and none
   otherwise; in particular the sentinel marks none unless a title equals it.
   */
  lemma {:induction false} HighlightMarksAtMostOne(rows: seq<Anime>, selected: string)
    requires DistinctBy(rows, TitleOf)
    ensures CountTrue(Highlight(rows, selected)) == if selected in KeySet(rows, TitleOf) then 1 else 0
    decreases |rows|
  {
    if |rows| > 0 {
      var init, x := rows[..|rows| - 1], rows[|rows| - 1];
      assert rows == init + [x];
      var flags := Highlight(rows, selected);
      assert flags[..|flags| - 1] == Highlight(init, selected);
      assert DistinctBy(init, TitleOf) by {
        forall i, j | 0 <= i < j < |init| ensures init[i].title != init[j].title {
          assert rows[i] == init[i] && rows[j] == init[j];
        }
      }
      HighlightMarksAtMostOne(init, selected);
      KeySetSnoc(init, x, TitleOf);
      if x.title == selected {
        forall i | 0 <= i < |init| ensures init[i].title != selected {
          assert rows[i] == init[i];
        }
      }
    }
  }

  /** Every row the loader returns is highlighted at most once. */
  lemma HighlightLoaded(rows: seq<Anime>, selected: string)
    ensures CountTrue(Highlight(LoadAnime(rows), selected)) <= 1
    ensures CountTrue(Highlight(LoadAnime(rows), selected)) == 1 <==> selected in KeySet(rows, TitleOf)
  {
    HighlightMarksAtMostOne(LoadAnime(rows), selected);
  }

  /** A cell `to_numeric(errors='coerce')` turns into a number. */
  predicate IsNumericCell(c: EpisodeCell) {
    match c
    case NoEpisodes => false
    case Number(_) => true
    case Raw(t) => IsIntegerText(t)
  }

  /** `to_numeric(errors='coerce')` on one cell: numbers stay, text is parsed or becomes missing. */
  function ToNumeric(c: EpisodeCell): (r: EpisodeCell)
    ensures !r.Raw?
    ensures r.Number? <==> IsNumericCell(c)
    ensures c.Number? ==> r == c
    ensures c.Raw? && r.Number? ==> ParseInt(c.text) == Some(r.n)
  {
    match c
    case Raw(t) =>
      (match ParseInt(t)
       case Some(n) => Number(n)
       case None => NoEpisodes)
    case _ => c
  }

  function CoerceEpisodes(a: Anime): Anime {
    a.(episodes := ToNumeric(a.episodes))
  }

  predicate HasEpisodes(a: Anime) {
    !a.episodes.NoEpisodes?
  }

  predicate HasNumericEpisodes(a: Anime) {
    IsNumericCell(a.episodes)
  }

  lemma {:induction false} CleanCommutes(rows: seq<Anime>)
    ensures Filter(MapSeq(CoerceEpisodes, rows), HasEpisodes)
            == MapSeq(CoerceEpisodes, Filter(rows, HasNumericEpisodes))
    decreases |rows|
  {
    if |rows| > 0 {
      var init := rows[..|rows| - 1];
      assert rows == init + [rows[|rows| - 1]];
      var m := MapSeq(CoerceEpisodes, rows);
      assert m[..|m| - 1] == MapSeq(CoerceEpisodes, init);
      CleanCommutes(init);
    }
  }

  /**
   `to_numeric(errors='coerce')` followed by `dropna(subset=['Episodes'])`:
   exactly the rows whose cell is numeric survive, in order, with the cell
   replaced by its number and every other column unchanged.
   */
  function CleanEpisodes(rows: seq<Anime>): (r: seq<Anime>)
    ensures forall i :: 0 <= i < |r| ==> r[i].episodes.Number?
    ensures r == MapSeq(CoerceEpisodes, Filter(rows, HasNumericEpisodes))
  {
    CleanCommutes(rows);
    Filter(MapSeq(CoerceEpisodes, rows), HasEpisodes)
  }

  /** Cleaning an already cleaned frame (done a second time in the source) changes nothing. */
  lemma CleanEpisodesIdempotent(rows: seq<Anime>)
    ensures CleanEpisodes(CleanEpisodes(rows)) == CleanEpisodes(rows)
  {
    var c := CleanEpisodes(rows);
    FilterAll(c, HasNumericEpisodes);
    assert MapSeq(CoerceEpisodes, c) == c;
  }

  /** The number of episodes of a cleaned row (0 is never used: cleaned rows are numeric). */
  function EpisodeCount(a: Anime): int {
    match a.episodes
    case Number(n) => n
    case _ => 0
  }

  const MinutesPerEpisode := 24

  /** `Total_duration_minutes` of one cleaned row. */
  function TotalMinutes(a: Anime): int {
    EpisodeCount(a) * MinutesPerEpisode
  }

  /**
   The column total behind the average duration: the minutes of all rows
   are 24 times their episodes.
   */
  lemma {:induction false} TotalMinutesSum(rows: seq<Anime>)
    ensures SumW(rows, TotalMinutes) == MinutesPerEpisode * SumW(rows, EpisodeCount)
    decreases |rows|
  {
    if |rows| > 0 {
      TotalMinutesSum(rows[..|rows| - 1]);
    }
  }

  /** The ten series with the most episodes, most episodes first. */
  function LongestSeries(cleaned: seq<Anime>): (r: seq<Anime>)
    ensures |r| == Min(TopN, |cleaned|)
    ensures multiset(r) <= multiset(cleaned)
    ensures forall x, y :: x in r && y in multiset(cleaned) - multiset(r) ==> EpisodeCount(x) >= EpisodeCount(y)
    ensures SortedDescBy(r, EpisodeCount)
  {
    LargestK(cleaned, TopN, EpisodeCount)
  }

  /** Cleaning never adds rows. */
  lemma CleanEpisodesShrinks(rows: seq<Anime>)
    ensures |CleanEpisodes(rows)| <= |rows|
  {
    FilterLength(rows, HasNumericEpisodes);
  }

  /** The longest series of a cleaned frame all have a numeric episode count. */
  lemma LongestSeriesNumeric(rows: seq<Anime>)
    ensures forall i :: 0 <= i < |LongestSeries(CleanEpisodes(rows))| ==>
              LongestSeries(CleanEpisodes(rows))[i].episodes.Number?
  {
    var c := CleanEpisodes(rows);
    var r := LongestSeries(c);
    forall i | 0 <= i < |r| ensures r[i].episodes.Number? {
      assert r[i] in multiset(c);
    }
  }

  /** `isin(selected)` on the title column: keep the selected rows, in order. */
  function SelectTitles(rows: seq<Anime>, selected: set<string>): (r: seq<Anime>)
    ensures IsSubsequence(r, rows)
    ensures forall i :: 0 <= i < |r| ==> r[i].title in selected
    ensures forall i :: 0 <= i < |rows| && rows[i].title in selected ==> rows[i] in r
    ensures forall a :: multiset(r)[a] == if a.title in selected then multiset(rows)[a] else 0
  {
    var p := (a: Anime) => a.title in selected;
    forall a ensures multiset(Filter(rows, p))[a] == if a.title in selected then multiset(rows)[a] else 0 {
      FilterCount(rows, p, a);
    }
    Filter(rows, p)
  }

  /** The multiselect's default, every title of the table, shows the whole table. */
  lemma SelectAllTitles(rows: seq<Anime>)
    ensures SelectTitles(rows, KeySet(rows, TitleOf)) == rows
  {
    FilterAll(rows, (a: Anime) => a.title in KeySet(rows, TitleOf));
  }
}
