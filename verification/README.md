# Anime and manga popularity dashboard, modelled in Dafny

`app.py` is a Streamlit page that reads an anime file and a manga file and
draws six views:

- the ten most popular series;
- votes per manga genre, with a genre filter;
- the genres of the ten most popular series;
- a popularity/score scatter plot with one highlighted title;
- episode counts and durations after the `Episodes` column is cleaned;
- the season "leaders" and the per-studio series counts.

This project models the record transformations behind those views as pure
Dafny functions over sequences of immutable records, and proves what each
transformation promises:

- deduplication keeps the first row per title;
- top-k selection picks the k best keys and no left-out row beats them;
- genre explosion splits a bracketed list back into its pieces;
- grouping partitions the rows, and group sums add up to the column total;
- the `to_numeric`/`dropna` cleaning keeps exactly the numeric rows;
- the season regex extraction is leftmost and round-trips a rendered "Season YYYY";
- a selection widget with one choice shows exactly one table row.

Modules, in pipeline order:

- `Wrappers`, `Seqs`, `Sorting`, `Grouping`, `Text`: sequence tools. This covers:
  - masks (`Filter`) and sums;
  - sorting and top-k;
  - `idxmax`;
  - `drop_duplicates`, `groupby` as a `map`;
  - `str.split` / `str.join`, the bracket-stripping regex and digit text.
- `Records`: the two record types and the loader (`app.py:10-11`).
- `Numeric`: `to_numeric(errors='coerce')` on an integer cell.
- `AnimeViews`: the top-10 table, the highlight flags, the episode cleaning, the duration total and the longest-series table.
- `Genres`: genre explosion, votes per genre, the genre filter.
- `TopGenres`: the left join of the top 10 with the exploded manga rows, `drop_duplicates`, and the per-genre count and title list.
- `Seasons`: the season/year extraction, the pool of recent seasons, and the per-season pick.
- `Studios`: the primary studio, the studio table and the studio selection.
- `Dashboard`: the whole page as one function of the two files and the widget selections.

To verify, run `dafny verify *.dfy` in this directory; all files are checked together.

In two places the code of `app.py` does something other than its comments or captions say. The model follows the code:

- The season pool keeps years above 2020 (`app.py:266`), while the comments at `app.py:257` and `app.py:263` and the caption at `app.py:297` say 2000.
- The season view of `app.py:269` keeps the row with the LARGEST `Popularity` value of each season, which is the least popular title, while the comment at `app.py:268` and the chart title at `app.py:277` promise the most popular one; see Findings.

Two more facts of the code shape the model:

- The top-10 table is ordered by `Popularity` descending (`app.py:20`), so the most popular series comes last; the bars show `Score` (`app.py:25`).
- The studio counts include the rows whose missing `Studios` cell reads "nan" after `astype(str)` (`app.py:299-306`), so `Studios.StudioTable` sums to all cleaned rows.

## Model

| member | source | states |
|---|---|---|
| Records.LoadAnime | app.py:10 | the loaded anime rows are a subsequence of the file rows, one per title, each the first file row with that title, in file order |
| Records.LoadManga | app.py:11 | the same first-row-per-title promise for the manga file |
| Records.LoadAnimeIdempotent | app.py:10 | deduplicating an already deduplicated record set changes nothing |
| Grouping.Dedup | app.py:10-11 | `drop_duplicates(subset=key)`: distinct keys, the same key set as the input, each kept row the first of its key, first-occurrence order |
| Grouping.DedupOfDistinct | app.py:10-11 | rows whose keys are already distinct come back unchanged |
| Grouping.DedupIdempotent | app.py:10-11 | deduplication is idempotent |
| Grouping.DedupAbsorbed | app.py:112 | appending rows whose keys all occur earlier leaves the deduplication unchanged |
| Grouping.DedupDisjoint | app.py:112 | when two frames share no key, deduplicating them back to back is deduplicating each and concatenating |
| Grouping.DistinctKeys | app.py:63 | the group keys of a frame: each key once, exactly the keys present |
| Grouping.GroupBy | app.py:63 | `groupby` as a map: exactly the present keys, each mapped to its non-empty group, which is the key's rows in order |
| Grouping.GroupsPartition | app.py:63 | summing a column per group over the distinct keys gives the column total, so no row is lost or counted twice |
| Sorting.Sort | app.py:17 | the rows in non-decreasing key order, as a permutation of the input |
| Sorting.SmallestK | app.py:17 | `sort_values(ascending=True).head(k)`: min(k, n) rows, a sub-multiset, sorted, and no left-out row has a smaller key |
| Sorting.LargestK | app.py:217 | `sort_values(ascending=False).head(k)`: min(k, n) rows, a sub-multiset, sorted descending, and no left-out row has a larger key |
| Sorting.ArgMax | app.py:269 | `idxmax`: a position whose key no row exceeds, and no earlier row reaches |
| AnimeViews.TopPopular | app.py:16-20 | ten rows, or all if fewer, taken from the loaded rows, with no left-out row having a smaller rank, shown in descending rank value |
| AnimeViews.Highlight | app.py:153 | one flag per row, set exactly on the rows whose title equals the selection |
| AnimeViews.HighlightMarksAtMostOne | app.py:149-153 | on rows with distinct titles the highlight marks exactly one row when the selection is a title and none otherwise |
| AnimeViews.HighlightLoaded | app.py:149-153 | on the loaded rows at most one row is highlighted, and exactly one iff the selection is a file title |
| AnimeViews.ToNumeric | app.py:195 | `to_numeric(errors='coerce')` on one cell: numbers stay, integer text becomes its value, anything else becomes missing |
| Numeric.ParseIntText | app.py:195 | the integer reader reads the canonical spelling of every integer back to that integer |
| AnimeViews.CleanEpisodes | app.py:195-198 | the cleaned frame is the numeric rows of the input, in order, each with its cell replaced by its number |
| AnimeViews.CleanEpisodesIdempotent | app.py:210-214 | the second cleaning the script performs changes nothing |
| AnimeViews.CleanEpisodesShrinks | app.py:195-198 | cleaning never adds rows |
| AnimeViews.TotalMinutesSum | app.py:201-204 | the total of `Total_duration_minutes` is 24 times the total of the episode counts |
| AnimeViews.LongestSeries | app.py:216-217 | ten cleaned rows, or all if fewer, with the most episodes, sorted by episodes descending, and no left-out row has more |
| AnimeViews.LongestSeriesNumeric | app.py:214-217 | every row of the longest-series table has a numeric episode count |
| AnimeViews.SelectTitles | app.py:229 | `isin(selected)`: exactly the rows whose title is selected, in table order, each as many times as in the table |
| AnimeViews.SelectAllTitles | app.py:221-229 | the multiselect default of every listed title shows the whole table |
| Text.StripBrackets | app.py:56 | `str.replace("[\[\]]", "")`: no bracket is left, every other character keeps its count, and the kept characters keep their order |
| Text.Split | app.py:56 | `str.split(sep)`: at least one piece, no piece containing the separator, and the pieces joined with the separator give the text back |
| Genres.Tokens | app.py:56 | the genre pieces: at least one, none containing a bracket or ", ", and joined with ", " they give the bracket-free cell text |
| Genres.TokensOfList | app.py:56 | a non-empty list of pieces free of brackets and of ", ", written bracketed and ", "-joined, splits back into exactly that list |
| Genres.Expand | app.py:54-58 | every exploded row comes from a manga row with a genre cell, carries its title and votes, and has a bracket-free genre |
| Genres.ExpandRowCount | app.py:54-58 | a row without genres contributes nothing; a row with genres contributes one row per token, in token order |
| Genres.ExpandConcat | app.py:54-58 | explosion works row by row: exploding two frames back to back is exploding each |
| Genres.ExpandOfList | app.py:54-58 | a manga row listing genres gs explodes into one row per genre, in list order, with its title and full votes |
| Genres.GenreVotes | app.py:63 | the vote map has exactly the genres present, each mapped to the sum of its rows' votes |
| Genres.VoteEntries | app.py:63 | one entry per genre with its vote sum, and the entries add up to the total of the exploded votes |
| Genres.GenreTable | app.py:63-66 | the genre table is sorted by votes descending, has each genre once, each with its summed votes, and adds up to the total votes |
| Genres.SelectGenres | app.py:78 | `isin(selected)`: exactly the table rows whose genre is selected, in table order |
| Genres.DefaultGenres | app.py:70-76 | the default selection holds genres of the table: the genre of each of the first ten rows and no other, which is every genre of the table when it has at most ten rows |
| Genres.SelectDefaultGenres | app.py:69-78 | with the default selection (the first ten genres) the view is exactly the first min(10, n) rows of the table |
| TopGenres.MatchRows | app.py:111 | a top title with k > 0 exploded rows joins to exactly k pairs, the i-th carrying the genre of the i-th of those rows in exploded order; with no match it joins to the single pair without a genre |
| TopGenres.LeftJoin | app.py:111-112 | every joined pair has a top title; a pair (g, t) appears iff t is a top title with an exploded row of genre g; a pair without genre appears for t iff t is a top title with no exploded row |
| TopGenres.LeftJoinConcat | app.py:111 | the join works title by title: joining two stacked top tables is joining each and concatenating, so each top title contributes its own block of pairs, in top-table order |
| TopGenres.LeftJoinLength | app.py:111 | the joined table has, per top title, one row per exploded row of that title, or one row when there is none |
| TopGenres.LeftJoinUnmatched | app.py:111 | a top title without any manga row appears never with a genre and once with no genre per top row carrying it, so exactly once when the top titles are distinct |
| TopGenres.UniquePairs | app.py:112 | `drop_duplicates()`: each distinct joined pair exactly once, each kept pair being the first occurrence of that pair, in order of first occurrence |
| TopGenres.MatchingTitles | app.py:111-117 | the reference listing of a genre: the distinct top titles matching it, exactly those, in top-table order |
| TopGenres.GroupTitlesOrder | app.py:111-117 | after `drop_duplicates`, the pairs of a genre list their titles in top-table order, each title at its first occurrence, which is exactly the reference listing |
| TopGenres.SingleTitleGroup | app.py:111-117 | the joined pairs of one top title list that title under a genre once if one of its exploded rows carries the genre, and not at all otherwise |
| TopGenres.GroupTitles | app.py:115-117 | the titles of a genre group are distinct, are exactly the top titles matching that genre, and come in the reference (top-table) order |
| TopGenres.Summarize | app.py:115-118 | `Count` is the number of rows of the group, and splitting `Titles` at ", " gives back the group's titles in order whenever no title contains ", " |
| TopGenres.TopTitleGenres | app.py:115-118 | one entry per matched genre (the no-genre group is dropped), counting its matching top titles (at least one), with those titles joined by ", " in top-table order |
| TopGenres.TopTitleGenresGroups | app.py:115-118 | the genre table is the `groupby("Genre")` of the deduplicated pairs, summarised per group |
| TopGenres.PairGenreKeys | app.py:115 | a genre is a group key of the deduplicated pairs iff some top title matches it |
| TopGenres.UnmatchedTitleAbsent | app.py:111-117 | a top title with no manga row is listed under no genre |
| Seasons.SeasonAt | app.py:261 | the alternatives Summer, Winter, Fall, Spring tried at one position: a returned season matches there, and None means none does |
| Seasons.YearOf | app.py:261-266 | the `Year` value is the value of the extracted four digits, so below 10000, and it is 0 when no season matches (`fillna(0)`) |
| Seasons.InPool | app.py:261-266 | a row enters the pool exactly when the leftmost season match of its `Premiered` text exists and its year value exceeds 2020 |
| Seasons.Extract | app.py:261 | the year group of an extracted match is four ASCII digits |
| Seasons.ExtractLeftmost | app.py:261 | `str.extract`: a result is the leftmost match with the four digits after it, and None comes back exactly when no position matches |
| Seasons.ExtractSeasonText | app.py:261 | extracting from a rendered "Season YYYY" gives that season and year back |
| Seasons.LeftmostAtStart | app.py:261 | a text that matches at its start yields that match |
| Seasons.MissingNeverInPool | app.py:258-266 | a missing `Premiered` (the text "nan") never enters the pool |
| Seasons.RenderedSeasonInPool | app.py:258-266 | a row premiered in a rendered season of a year above 2020 is in the pool |
| Seasons.SeasonPool | app.py:266 | the pool is exactly the rows whose year exceeds 2020, in order |
| Seasons.PickMax | app.py:269 | one row per group, the first with the largest key of its group |
| Seasons.Leaders | app.py:269 | as written, on the filtered rows: one row per distinct `Premiered` text, the first with the largest `Popularity` value of its group |
| Seasons.LeadersDominate | app.py:269 | the kept row is a row of its season and no row of that season has a larger `Popularity` value |
| Seasons.SeasonLeaders | app.py:266-269 | the season view over the file rows: one row per distinct text of the year-filtered rows, the first with the largest `Popularity` value of its group |
| Seasons.LeaderIsLeastPopular | app.py:269-277 | two titles of one season with ranks 1 and 50: the view as written keeps the rank-50 title |
| Seasons.PairPool | app.py:258-266 | two rows of one season whose year exceeds 2020 form the whole pool, so the pair is exactly what line 269 groups |
| Seasons.MostPopular | app.py:268-277 | corrected, on the filtered rows: per season the first row with the smallest `Popularity` rank |
| Seasons.MostPopularMinimal | app.py:268-277 | the corrected pick is a row of its season and has the smallest rank of that season |
| Seasons.SeasonMostPopular | app.py:266-277 | the corrected season view over the file rows: the smallest-rank row of each season of the year-filtered rows |
| Seasons.MostPopularOfPair | app.py:268-277 | on the same two titles the corrected view keeps the rank-1 title |
| Studios.PrimaryStudio | app.py:299-302 | the primary studio is the longest comma-free prefix of the `Studios` text ("nan" when missing) |
| Studios.StudioCounts | app.py:305-306 | the count map has exactly the primary studios present, each mapped to its row count, which is at least one |
| Studios.StudioTable | app.py:305-308 | one row per primary studio with its row count (at least one), and the counts add up to the number of cleaned rows |
| Text.BeforeFirst | app.py:302 | `split(',').str[0]`: the longest prefix without a comma, followed in the text by a comma whenever it is shorter than the text |
| Studios.SelectStudio | app.py:318 | the selection is exactly the table rows of the selected studio, in table order |
| Studios.SelectStudioOne | app.py:312-318 | on the studio table the selection has exactly one row when the studio is in the table and none otherwise |
| Studios.SelectListedStudio | app.py:312-318 | any studio the select box offers shows exactly one row |
| Dashboard.Page | app.py:10-318 | the whole page: the top-10 rows come from the loaded rows; one highlight flag per loaded row, at most one set; the cleaned rows are no more than the loaded ones; the longest series are numeric and number min(10, cleaned); the studio counts add up to the cleaned rows; only selected genres are shown; at most one studio row is shown; the season view of line 269 as written (`seasonLeaders`) and the corrected one (`seasonMostPopular`) cover the same seasons |
| Dashboard.DefaultPageGenres | app.py:69-78 | on a fresh page the genre chart shows the first ten genre rows |
| Dashboard.DefaultPageTitles | app.py:221-229 | on a fresh page the episode chart shows every one of the longest series |
| Dashboard.NoSelectionMarksNothing | app.py:150-153 | the "Ninguno" sentinel highlights nothing unless some title is literally "Ninguno" |
| Dashboard.PageMinutes | app.py:201-205 | the page's duration total is 24 minutes per episode of every cleaned row |

## Left out

- Streamlit and plotly are not modelled: page layout, chart styling, markdown text and widget rendering. The widget values are a parameter (`Dashboard.Selections`).
- CSV reading is not modelled. The two files enter as sequences of already typed records.
- Means are not modelled, because they need floating point:
  - the per-genre `Score` mean (`app.py:63`);
  - the average duration in hours (`app.py:205`);
  - the scatter-plot mean lines (`app.py:168-179`);
  - the per-studio `Average_Score` (`app.py:307`).
- The sums behind those means are left out too, except for the duration. The model keeps the `Total_duration_minutes` total (`AnimeViews.TotalMinutesSum`) and the row count it is divided by. It keeps no `Score` sum: `Genres.GenreRow` and `Genres.GenreStat` carry no rating, and `Studios.StudioStat` carries only the series count. Nothing sums `Popularity` or `Score` for the scatter-plot mean lines (`app.py:168-169`).
- The scatter plot itself (`app.py:154-165`) is not modelled beyond its highlight column.
- Tie order is not modelled. `Sorting.Sort`, `Sorting.SmallestK`, `Sorting.LargestK` and `AnimeViews.TopPopular` promise no particular order among rows with equal keys. pandas' default quicksort is not stable either.
- Group output order is not modelled. `Grouping.GroupBy`, `Genres.GenreVotes`, `TopGenres.TopTitleGenres`, `Seasons.Leaders`, `Seasons.MostPopular` and `Studios.StudioCounts` return maps, and `Studios.StudioTable` lists the studios in key-discovery order rather than pandas' sorted group order. So the row order of the grouped tables is not modelled.
- AnimeViews.ToNumeric: only integer text is read. Here that means an optional sign followed by ASCII digits. Float, exponent and surrounding-whitespace forms that `to_numeric` also accepts read as missing.
- Seasons.MatchAt: `\d` is ASCII digits only. Python's `\d` also matches other Unicode decimal digits, which are not modelled. `\s` is Python's whitespace set, the characters `str.isspace` accepts.
- Seasons.InPool: `astype(int, errors='ignore')` on the filled `Year` column is modelled as the four digits' value, with 0 when there is no match. The column's mixed float/text typing is not modelled.
- The `Score` and `rating` fields are carried as `real` but never computed with.
- Integer widths are not modelled. The int64 `Popularity` and `Vote` columns of the anime file and `Votes` column of the manga file, and the float64 `Episodes` column after `to_numeric` (`app.py:195`), are unbounded `int` in the model. Realistic inputs stay far from any overflow or float rounding.

## Findings

| source | as written | input that shows it | evidently intended | confidence | as-written member | corrected member |
|---|---|---|---|---|---|---|
| app.py:269 | `idxmax` on `Popularity` keeps the row with the largest rank value in each season, i.e. the least popular title, while the chart title (`app.py:277`) and the comment (`app.py:268`) promise the most popular one; a smaller rank means more popular (`app.py:16`) | two rows premiered "Fall 2021" with `Popularity` 1 and 50 | `idxmin`: the title with the smallest rank in each season | not executed | Seasons.LeaderIsLeastPopular | Seasons.MostPopularMinimal |

`Seasons.Leaders` models line 269 as written, and `Seasons.SeasonLeaders` applies it to the year-filtered rows. `Seasons.MostPopular` is the corrected pick, and `Seasons.SeasonMostPopular` applies it to the year-filtered rows; `Dashboard.Page` carries both, the as-written view in `seasonLeaders` and the corrected one in `seasonMostPopular`:

- `Seasons.MostPopularMinimal` proves that the corrected pick keeps the smallest rank of each season.
- `Seasons.MostPopularOfPair` shows that it keeps the rank-1 title on the same input.
- `Seasons.PairPool` and `Seasons.RenderedSeasonInPool` show that two rows premiered "Fall 2021" pass the year filter together, so the pair is the group line 269 sees.
