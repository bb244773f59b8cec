/**
 The season-leader view: the `Premiered` text of each cleaned anime row is
 searched for `(Summer|Winter|Fall|Spring)\s(\d{4})`, rows whose year is
 above the floor form the pool, and the pool is grouped by the whole
 `Premiered` text with one row kept per group by `idxmax` on `Popularity`.
 */
module Seasons {
  import opened Wrappers
  import opened Seqs
  import opened Sorting
  import opened Grouping
  import opened Text
  import opened Records

  datatype Season = Summer | Winter | Fall | Spring

  function SeasonName(s: Season): string {
    match s
    case Summer => "Summer"
    case Winter => "Winter"
    case Fall => "Fall"
    case Spring => "Spring"
  }

  /** Length of the season name plus the whitespace and the four digits. */
  function MatchLength(s: Season): nat {
    |SeasonName(s)| + 5
  }

  /** `Season\s\d{4}` matches `t` at position `i`. */
  predicate MatchAt(t: string, i: nat, s: Season) {
    var n := |SeasonName(s)|;
    && i + n + 5 <= |t|
    && t[i..i + n] == SeasonName(s)
    && IsSpace(t[i + n])
    && AllDigits(t[i + n + 1..i + n + 5])
  }

  /** The alternatives tried at one position, in pattern order. */
  function SeasonAt(t: string, i: nat): (r: Option<Season>)
    ensures r.Some? ==> MatchAt(t, i, r.value)
    ensures r.None? ==> forall s :: !MatchAt(t, i, s)
  {
    if MatchAt(t, i, Summer) then Some(Summer)
    else if MatchAt(t, i, Winter) then Some(Winter)
    else if MatchAt(t, i, Fall) then Some(Fall)
    else if MatchAt(t, i, Spring) then Some(Spring)
    else NoSeasonAt(t, i); None
  }

  lemma NoSeasonAt(t: string, i: nat)
    requires !MatchAt(t, i, Summer) && !MatchAt(t, i, Winter)
    requires !MatchAt(t, i, Fall) && !MatchAt(t, i, Spring)
    ensures forall s :: !MatchAt(t, i, s)
  {
    forall s ensures !MatchAt(t, i, s) {
      match s
      case Summer =>
      case Winter =>
      case Fall =>
      case Spring =>
    }
  }

  /** The two capture groups of a match: the season and the four year digits. */
  datatype SeasonMatch = SeasonMatch(season: Season, year: string)

  /**
   `str.extract`: the match at the leftmost position where some alternative
   is tried successfully, as its season and the four digits after the
   whitespace. `ExtractLeftmost` states that this is the leftmost match.
   */
  function Extract(t: string): (r: Option<SeasonMatch>)
    ensures r.Some? ==> |r.value.year| == 4 && AllDigits(r.value.year)
  {
    match FirstMatchFrom(t, 0)
    case None => None
    case Some(i) =>
      var s := SeasonAt(t, i).value;
      var n := |SeasonName(s)|;
      Some(SeasonMatch(s, t[i + n + 1..i + n + 5]))
  }

  /** The leftmost position from `from` on where some alternative is tried successfully. */
  function FirstMatchFrom(t: string, from: nat): (r: Option<nat>)
    ensures r.Some? ==> from <= r.value <= |t| && SeasonAt(t, r.value).Some?
    ensures r.Some? ==> forall j: nat :: from <= j < r.value ==> SeasonAt(t, j).None?
    ensures r.None? ==> forall j: nat :: from <= j <= |t| ==> SeasonAt(t, j).None?
    decreases |t| - from
  {
    if from > |t| then None
    else if SeasonAt(t, from).Some? then Some(from)
    else FirstMatchFrom(t, from + 1)
  }

  /**
   `m` is the leftmost match of the pattern in `t`: it matches at some
   position `i`, its year is the four digits there, and nothing matches
   before `i`.
   */
  ghost predicate LeftmostMatch(t: string, m: SeasonMatch) {
    exists i: nat ::
      && i <= |t|
      && MatchAt(t, i, m.season)
      && m.year == t[i + |SeasonName(m.season)| + 1..i + MatchLength(m.season)]
      && forall j: nat, s :: j < i ==> !MatchAt(t, j, s)
  }

  /** What `str.extract` promises: the leftmost match when there is one, and None exactly when no position matches. */
  lemma ExtractLeftmost(t: string)
    ensures Extract(t).Some? ==> LeftmostMatch(t, Extract(t).value)
    ensures Extract(t).None? <==> forall i: nat, s :: !MatchAt(t, i, s)
  {
    match FirstMatchFrom(t, 0)
    case None =>
      NoMatchBefore(t, |t| + 1);
      NoMatchPast(t);
    case Some(i) =>
      var m := Extract(t).value;
      NoMatchBefore(t, i);
      assert m.year == t[i + |SeasonName(m.season)| + 1..i + MatchLength(m.season)];
  }

  /** Where no alternative is tried successfully before `i`, nothing matches before `i`. */
  lemma NoMatchBefore(t: string, i: nat)
    requires forall j: nat :: j < i && j <= |t| ==> SeasonAt(t, j).None?
    ensures forall j: nat, s :: j < i ==> !MatchAt(t, j, s)
  {
    forall j: nat, s | j < i ensures !MatchAt(t, j, s) {
      if j <= |t| {
        assert SeasonAt(t, j).None?;
      }
    }
  }

  /** No match starts past the end of the text. */
  lemma NoMatchPast(t: string)
    ensures forall j: nat, s :: j > |t| ==> !MatchAt(t, j, s)
  {
  }

  /** Years must exceed this to enter the pool. */
  const YearFloor := 2020

  /** The `Year` column after `fillna(0)` and `astype(int)`: the digits' value, or 0. */
  function YearOf(a: Anime): (y: nat)
    ensures y < 10000
    ensures Extract(PremieredText(a)).None? ==> y == 0
    ensures Extract(PremieredText(a)).Some? ==> y == DigitsValue(Extract(PremieredText(a)).value.year)
  {
    match Extract(AsStr(a.premiered))
    case Some(m) =>
      DigitsValueBound(m.year);
      DigitsValue(m.year)
    case None => 0
  }

  /** The `Premiered` column after `astype(str)`: the group key. */
  function PremieredText(a: Anime): string {
    AsStr(a.premiered)
  }

  /** `Year > 2020`: only rows whose `Premiered` text names a season of a later year. */
  predicate InPool(a: Anime): (b: bool)
    ensures b ==> Extract(PremieredText(a)).Some?
    ensures b <==> Extract(PremieredText(a)).Some? && DigitsValue(Extract(PremieredText(a)).value.year) > YearFloor
  {
    YearOf(a) > YearFloor
  }

  /** A missing `Premiered` is the text "nan", which has no match. */
  lemma MissingNeverInPool(a: Anime)
    requires a.premiered.None?
    ensures !InPool(a)
  {
    assert forall i: nat, s :: !MatchAt("nan", i, s) by {
      forall i: nat, s ensures !MatchAt("nan", i, s) {
        assert |SeasonName(s)| >= 4;
      }
    }
    ExtractLeftmost("nan");
  }

  /** `anime_data[Year > 2020]`: the pool rows, in order. */
  function SeasonPool(rows: seq<Anime>): (r: seq<Anime>)
    ensures IsSubsequence(r, rows)
    ensures forall i :: 0 <= i < |r| ==> InPool(r[i])
    ensures forall i :: 0 <= i < |rows| && InPool(rows[i]) ==> rows[i] in r
  {
    Filter(rows, InPool)
  }

  /**
   `x` is the first row of `g` with the largest `key`: no row of `g` has a
   larger key, and every row before `x` has a smaller one.
   */
  ghost predicate FirstMaxIn(x: Anime, g: seq<Anime>, key: Anime -> int) {
    exists i :: 0 <= i < |g| && g[i] == x
                && (forall j :: 0 <= j < |g| ==> key(g[j]) <= key(x))
                && (forall j :: 0 <= j < i ==> key(g[j]) < key(x))
  }

  /** The row kept for each group by `idxmax` on `key`. */
  function PickMax(groups: map<string, seq<Anime>>, key: Anime -> int): (r: map<string, Anime>)
    requires forall k :: k in groups ==> |groups[k]| > 0
    ensures r.Keys == groups.Keys
    ensures forall k :: k in r ==> FirstMaxIn(r[k], groups[k], key)
  {
    var r := map k | k in groups :: groups[k][ArgMax(groups[k], key)];
    assert forall k :: k in r ==> FirstMaxIn(r[k], groups[k], key) by {
      forall k | k in r ensures FirstMaxIn(r[k], groups[k], key) {
        var i := ArgMax(groups[k], key);
        assert groups[k][i] == r[k];
      }
    }
    r
  }

  /** The row kept for the group of `k` dominates every row of `pool` with text `k`. */
  lemma FirstMaxDominates(x: Anime, pool: seq<Anime>, k: string, key: Anime -> int)
    requires FirstMaxIn(x, Where(pool, PremieredText, k), key)
    ensures x in pool && PremieredText(x) == k
    ensures forall i :: 0 <= i < |pool| && PremieredText(pool[i]) == k ==> key(pool[i]) <= key(x)
  {
    var g := Where(pool, PremieredText, k);
    var i :| 0 <= i < |g| && g[i] == x && (forall j :: 0 <= j < |g| ==> key(g[j]) <= key(x));
    WhereMember(pool, PremieredText, k, x);
    forall j | 0 <= j < |pool| && PremieredText(pool[j]) == k ensures key(pool[j]) <= key(x) {
      WhereMember(pool, PremieredText, k, pool[j]);
      var m :| 0 <= m < |g| && g[m] == pool[j];
    }
  }

  /**
   `pool.loc[pool.groupby('Premiered')['Popularity'].idxmax()]` on the
   filtered rows, as written: one row per distinct `Premiered` text, the
   first with the largest `Popularity` value of its group. A larger value is
   a worse rank, so this is the least popular title of each season.
   */
  function Leaders(pool: seq<Anime>): (r: map<string, Anime>)
    ensures r.Keys == KeySet(pool, PremieredText)
    ensures forall k :: k in r ==> FirstMaxIn(r[k], Where(pool, PremieredText, k), Popularity)
  {
    PickMax(GroupBy(pool, PremieredText), Popularity)
  }

  /** Every kept row is a row of its group's text, and no row of its group has a larger value. */
  lemma LeadersDominate(pool: seq<Anime>, k: string)
    requires k in Leaders(pool)
    ensures Leaders(pool)[k] in pool && PremieredText(Leaders(pool)[k]) == k
    ensures forall i :: 0 <= i < |pool| && PremieredText(pool[i]) == k ==>
              pool[i].popularity <= Leaders(pool)[k].popularity
  {
    FirstMaxDominates(Leaders(pool)[k], pool, k, Popularity);
  }

  /** The key of the corrected pick: the smaller the rank, the larger the key. */
  function Prominence(a: Anime): int {
    -a.popularity
  }

  /**
   The view the chart title describes, on the filtered rows: per season the
   most popular title, the first with the smallest `Popularity` rank
   (`idxmin`).
   */
  function MostPopular(pool: seq<Anime>): (r: map<string, Anime>)
    ensures r.Keys == KeySet(pool, PremieredText)
    ensures forall k :: k in r ==> FirstMaxIn(r[k], Where(pool, PremieredText, k), Prominence)
  {
    PickMax(GroupBy(pool, PremieredText), Prominence)
  }

  /** The chosen row of the corrected view has the smallest rank of its group. */
  lemma MostPopularMinimal(pool: seq<Anime>, k: string)
    requires k in MostPopular(pool)
    ensures MostPopular(pool)[k] in pool && PremieredText(MostPopular(pool)[k]) == k
    ensures forall i :: 0 <= i < |pool| && PremieredText(pool[i]) == k ==>
              MostPopular(pool)[k].popularity <= pool[i].popularity
  {
    FirstMinDominates(MostPopular(pool)[k], pool, k);
  }

  /** A first row with the largest negated rank has the smallest rank of its group. */
  lemma FirstMinDominates(x: Anime, pool: seq<Anime>, k: string)
    requires FirstMaxIn(x, Where(pool, PremieredText, k), Prominence)
    ensures x in pool && PremieredText(x) == k
    ensures forall i :: 0 <= i < |pool| && PremieredText(pool[i]) == k ==> x.popularity <= pool[i].popularity
  {
    FirstMaxDominates(x, pool, k, Prominence);
    forall i | 0 <= i < |pool| && PremieredText(pool[i]) == k ensures x.popularity <= pool[i].popularity {
      assert Prominence(pool[i]) <= Prominence(x);
    }
  }

  /** The season view as the script computes it: the leaders of the year-filtered rows. */
  function SeasonLeaders(rows: seq<Anime>): (r: map<string, Anime>)
    ensures r.Keys == KeySet(SeasonPool(rows), PremieredText)
    ensures forall k :: k in r ==> FirstMaxIn(r[k], Where(SeasonPool(rows), PremieredText, k), Popularity)
  {
    Leaders(SeasonPool(rows))
  }

  /** The corrected season view: the most popular title of each season of the year-filtered rows. */
  function SeasonMostPopular(rows: seq<Anime>): (r: map<string, Anime>)
    ensures r.Keys == KeySet(SeasonPool(rows), PremieredText)
    ensures forall k :: k in r ==> FirstMaxIn(r[k], Where(SeasonPool(rows), PremieredText, k), Prominence)
  {
    MostPopular(SeasonPool(rows))
  }

  /**
   Two titles of the same season with ranks 1 and 50: the view as written
   keeps the rank-50 title.
   */
  lemma LeaderIsLeastPopular(a: Anime, b: Anime)
    requires b.premiered == a.premiered
    requires a.popularity == 1 && b.popularity == 50
    ensures PremieredText(a) in Leaders([a, b])
    ensures Leaders([a, b])[PremieredText(a)] == b
  {
    var rows, k := [a, b], PremieredText(a);
    PairKeys(a, b);
    PairFirstMax(Leaders(rows)[k], rows, k, Popularity, 1);
  }

  /** On the same two titles the corrected view keeps the rank-1 title. */
  lemma MostPopularOfPair(a: Anime, b: Anime)
    requires b.premiered == a.premiered
    requires a.popularity == 1 && b.popularity == 50
    ensures PremieredText(a) in MostPopular([a, b])
    ensures MostPopular([a, b])[PremieredText(a)] == a
  {
    var rows, k := [a, b], PremieredText(a);
    PairKeys(a, b);
    PairFirstMax(MostPopular(rows)[k], rows, k, Prominence, 0);
  }

  /** Two rows of one qualifying season form the whole pool. */
  lemma PairPool(a: Anime, b: Anime)
    requires InPool(a) && b.premiered == a.premiered
    ensures SeasonPool([a, b]) == [a, b]
  {
    assert InPool(b) by {
      assert PremieredText(a) == PremieredText(b);
    }
    FilterAll([a, b], InPool);
  }

  /** Two rows of one `Premiered` cell share its text, which is then a key of the pair. */
  lemma PairKeys(a: Anime, b: Anime)
    requires b.premiered == a.premiered
    ensures SameSeasonPair([a, b], PremieredText(a))
    ensures PremieredText(a) in KeySet([a, b], PremieredText)
  {
    assert [a, b][0] == a;
  }

  /** Two rows whose `Premiered` text is `k`. */
  ghost predicate SameSeasonPair(rows: seq<Anime>, k: string) {
    |rows| == 2 && PremieredText(rows[0]) == k && PremieredText(rows[1]) == k
  }

  /** Of two rows with the same text, the kept one is the row with the strictly larger key. */
  lemma PairFirstMax(x: Anime, rows: seq<Anime>, k: string, key: Anime -> int, hi: nat)
    requires SameSeasonPair(rows, k) && hi < 2
    requires key(rows[1 - hi]) < key(rows[hi])
    requires FirstMaxIn(x, Where(rows, PremieredText, k), key)
    ensures x == rows[hi]
  {
    FirstMaxDominates(x, rows, k, key);
    assert key(rows[hi]) <= key(x);
  }

  /** A "Season YYYY" text for a four-digit year. */
  function SeasonText(s: Season, year: nat): string
    requires 1000 <= year <= 9999
  {
    SeasonName(s) + " " + NatText(year)
  }

  lemma {:induction false} NatTextLength(n: nat)
    requires 1000 <= n <= 9999
    ensures |NatText(n)| == 4
  {
    assert NatText(n) == NatText(n / 10) + [DigitChar(n % 10)];
    assert NatText(n / 10) == NatText(n / 100) + [DigitChar(n / 10 % 10)];
    assert NatText(n / 100) == NatText(n / 1000) + [DigitChar(n / 100 % 10)];
  }

  /** A rendered "Season YYYY" text is matched at its start and gives the season and the year back. */
  lemma ExtractSeasonText(s: Season, year: nat)
    requires 1000 <= year <= 9999
    ensures Extract(SeasonText(s, year)).Some?
    ensures Extract(SeasonText(s, year)).value.season == s
    ensures DigitsValue(Extract(SeasonText(s, year)).value.year) == year
  {
    var t := SeasonText(s, year);
    SeasonTextMatches(s, year);
    LeftmostAtStart(t, s);
    NatTextValue(year);
  }

  /** A rendered text matches at position 0, with the year's digits as the four digits. */
  lemma SeasonTextMatches(s: Season, year: nat)
    requires 1000 <= year <= 9999
    ensures MatchAt(SeasonText(s, year), 0, s)
    ensures SeasonText(s, year)[|SeasonName(s)| + 1..MatchLength(s)] == NatText(year)
  {
    var t := SeasonText(s, year);
    var n := |SeasonName(s)|;
    NatTextLength(year);
    assert t[..n] == SeasonName(s);
    assert t[n] == ' ';
    assert t[n + 1..n + 5] == NatText(year);
  }

  /** A text that matches at its start yields that match: its season and the digits after it. */
  lemma LeftmostAtStart(t: string, s: Season)
    requires MatchAt(t, 0, s)
    ensures Extract(t).Some?
    ensures Extract(t).value.season == s
    ensures Extract(t).value.year == t[|SeasonName(s)| + 1..MatchLength(s)]
  {
    ExtractLeftmost(t);
    var m := Extract(t).value;
    var i: nat :| i <= |t| && MatchAt(t, i, m.season)
                && m.year == t[i + |SeasonName(m.season)| + 1..i + MatchLength(m.season)]
                && forall j: nat, s' :: j < i ==> !MatchAt(t, j, s');
    assert i == 0;
    assert m.season == s by {
      assert t[..|SeasonName(m.season)|] == SeasonName(m.season);
      SeasonNamesDiffer(s, m.season, t);
    }
  }

  /** A row premiered in a rendered season of a year above the floor is in the pool ("Fall 2021", say). */
  lemma RenderedSeasonInPool(a: Anime, s: Season, year: nat)
    requires YearFloor < year <= 9999 && a.premiered == Some(SeasonText(s, year))
    ensures InPool(a)
  {
    ExtractSeasonText(s, year);
  }

  /** No season name starts with another one's, so at most one alternative matches at a position. */
  lemma SeasonNamesDiffer(s: Season, s': Season, t: string)
    requires |SeasonName(s)| <= |t| && t[..|SeasonName(s)|] == SeasonName(s)
    requires |SeasonName(s')| <= |t| && t[..|SeasonName(s')|] == SeasonName(s')
    ensures s == s'
  {
    assert t[0] == SeasonName(s)[0] && t[1] == SeasonName(s)[1];
    assert t[0] == SeasonName(s')[0] && t[1] == SeasonName(s')[1];
  }
}
