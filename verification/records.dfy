/**
 The two record sets the dashboard loads, as read from their CSV files, and
 the loader step that keeps the first row for each title.
 */
module Records {
  import opened Wrappers
  import opened Grouping

  /**
   A cell of the `Episodes` column. The column mixes numbers with text such
   as "Unknown", so a cell is missing, a number, or raw text.
   */
  datatype EpisodeCell = NoEpisodes | Number(n: int) | Raw(text: string)

  /**
   One row of the anime file. `score` is carried but never computed with;
   `popularity` is a rank (1 = most popular).
   */
  datatype Anime = Anime(
    title: string,
    score: real,
    popularity: int,
    vote: int,
    episodes: EpisodeCell,
    premiered: Option<string>,
    studios: Option<string>)

  /** One row of the manga file; `genres` is a bracketed list such as "[Action, Drama]". */
  datatype Manga = Manga(title: string, genres: Option<string>, votes: int, rating: real)

  /** How many rows the top-N tables and the default genre selection keep (`head(10)`). */
  const TopN := 10

  function TitleOf(a: Anime): string {
    a.title
  }

  function Popularity(a: Anime): int {
    a.popularity
  }

  function MangaTitleOf(m: Manga): string {
    m.title
  }

  /** pandas `astype(str)` on a text column: a missing cell becomes the text "nan". */
  function AsStr(cell: Option<string>): string {
    match cell
    case None => "nan"
    case Some(s) => s
  }

  /** `pd.read_csv(...).drop_duplicates(subset='Title')` once the file is read. */
  function LoadAnime(rows: seq<Anime>): (r: seq<Anime>)
    ensures FirstRowsPerKey(r, rows, TitleOf)
  {
    Dedup(rows, TitleOf)
  }

  function LoadManga(rows: seq<Manga>): (r: seq<Manga>)
    ensures FirstRowsPerKey(r, rows, MangaTitleOf)
  {
    Dedup(rows, MangaTitleOf)
  }

  /** Loading an already loaded record set changes nothing. */
  lemma LoadAnimeIdempotent(rows: seq<Anime>)
    ensures LoadAnime(LoadAnime(rows)) == LoadAnime(rows)
  {
    DedupIdempotent(rows, TitleOf);
  }
}
