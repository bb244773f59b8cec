/**
 The whole dashboard as one function of the two record sets and the widget
 selections, in the order the script computes its views: the top-10,
 genre, top-title-genre and highlight views read the loaded anime rows,
 while the duration, longest-series, season and studio views read the rows
 left after the episode cleaning. The season view is carried twice: as
 the script computes it (the row with the largest `Popularity` rank, that
 is the least popular title of each season) and as corrected (the most
 popular title of each season); both have the same seasons.
 */
module Dashboard {
  import opened Wrappers
  import opened Seqs
  import opened Sorting
  import opened Grouping
  import opened Records
  import opened AnimeViews
  import opened Genres
  import opened TopGenres
  import opened Seasons
  import opened Studios

  /** What the widgets hold: the genre and title multiselects and the two select boxes. */
  datatype Selections = Selections(
    genres: set<string>,
    highlighted: string,
    titles: set<string>,
    studio: string)

  /** The data behind every chart and table of the page. */
  datatype Views = Views(
    topPopular: seq<Anime>,
    genreTable: seq<GenreStat>,
    defaultGenres: set<string>,
    shownGenres: seq<GenreStat>,
    topTitleGenres: map<string, GenreTitles>,
    highlight: seq<bool>,
    cleanedRows: nat,
    totalMinutes: int,
    longest: seq<Anime>,
    shownLongest: seq<Anime>,
    seasonLeaders: map<string, Anime>,
    seasonMostPopular: map<string, Anime>,
    studioTable: seq<StudioStat>,
    shownStudio: seq<StudioStat>)

  /**
   The page for the raw CSV rows and the selections. The cleaned rows feed
   the later views; the loaded rows feed the earlier ones.
   */
  function Page(animeRows: seq<Anime>, mangaRows: seq<Manga>, sel: Selections): (v: Views)
    ensures multiset(v.topPopular) <= multiset(LoadAnime(animeRows))
    ensures |v.highlight| == |LoadAnime(animeRows)| && CountTrue(v.highlight) <= 1
    ensures v.cleanedRows <= |LoadAnime(animeRows)|
    ensures forall i :: 0 <= i < |v.longest| ==> v.longest[i].episodes.Number?
    ensures |v.longest| == Min(TopN, v.cleanedRows)
    ensures SumW(v.studioTable, SeriesCount) == v.cleanedRows
    ensures forall i :: 0 <= i < |v.shownGenres| ==> v.shownGenres[i].genre in sel.genres
    ensures |v.shownStudio| <= 1
    ensures v.seasonLeaders.Keys == v.seasonMostPopular.Keys
  {
    var anime := LoadAnime(animeRows);
    var manga := LoadManga(mangaRows);
    var top := TopPopular(anime);
    var expanded := Expand(manga);
    var table := GenreTable(expanded);
    var flags := Highlight(anime, sel.highlighted);
    HighlightMarksAtMostOne(anime, sel.highlighted);
    var cleaned := CleanEpisodes(anime);
    var recleaned := CleanEpisodes(cleaned);
    CleanEpisodesIdempotent(anime);
    CleanEpisodesShrinks(anime);
    LongestSeriesNumeric(cleaned);
    var longest := LongestSeries(recleaned);
    var studios := StudioTable(recleaned);
    SelectStudioOne(studios, sel.studio);
    Views(
      top,
      table,
      DefaultGenres(table),
      SelectGenres(table, sel.genres),
      TopTitleGenres(top, expanded),
      flags,
      |recleaned|,
      SumW(cleaned, TotalMinutes),
      longest,
      SelectTitles(longest, sel.titles),
      SeasonLeaders(recleaned),
      SeasonMostPopular(recleaned),
      studios,
      SelectStudio(studios, sel.studio))
  }

  /** The selections a fresh page starts with: top-10 genres, no highlight, every longest title. */
  function DefaultSelections(animeRows: seq<Anime>, mangaRows: seq<Manga>, studio: string): Selections {
    var table := GenreTable(Expand(LoadManga(mangaRows)));
    var longest := LongestSeries(CleanEpisodes(CleanEpisodes(LoadAnime(animeRows))));
    Selections(DefaultGenres(table), NoSelection, KeySet(longest, TitleOf), studio)
  }

  /** With the default selections the genre chart shows the first ten rows of the genre table. */
  lemma DefaultPageGenres(animeRows: seq<Anime>, mangaRows: seq<Manga>, studio: string)
    ensures var v := Page(animeRows, mangaRows, DefaultSelections(animeRows, mangaRows, studio));
            v.shownGenres == v.genreTable[..Min(TopN, |v.genreTable|)]
  {
    var v := Page(animeRows, mangaRows, DefaultSelections(animeRows, mangaRows, studio));
    SelectDefaultGenres(v.genreTable);
  }

  /** With the default selections the episode chart shows every one of the longest series. */
  lemma DefaultPageTitles(animeRows: seq<Anime>, mangaRows: seq<Manga>, studio: string)
    ensures var v := Page(animeRows, mangaRows, DefaultSelections(animeRows, mangaRows, studio));
            v.shownLongest == v.longest
  {
    var v := Page(animeRows, mangaRows, DefaultSelections(animeRows, mangaRows, studio));
    SelectAllTitles(v.longest);
  }

  /** The highlight marks no row unless some loaded title is literally "Ninguno". */
  lemma NoSelectionMarksNothing(animeRows: seq<Anime>, mangaRows: seq<Manga>, sel: Selections)
    requires sel.highlighted == NoSelection
    requires NoSelection !in KeySet(animeRows, TitleOf)
    ensures CountTrue(Page(animeRows, mangaRows, sel).highlight) == 0
  {
    HighlightMarksAtMostOne(LoadAnime(animeRows), sel.highlighted);
  }

  /** The duration total is 24 minutes per episode of every cleaned row. */
  lemma PageMinutes(animeRows: seq<Anime>, mangaRows: seq<Manga>, sel: Selections)
    ensures Page(animeRows, mangaRows, sel).totalMinutes
            == MinutesPerEpisode * SumW(CleanEpisodes(LoadAnime(animeRows)), EpisodeCount)
  {
    TotalMinutesSum(CleanEpisodes(LoadAnime(animeRows)));
  }
}
