/**
 The genres of the ten most popular titles: the top titles are left-joined
 with the exploded manga rows on the title, duplicate (genre, title) pairs
 are dropped, and the pairs are grouped by genre into a count and a
 comma-separated list of titles. A top title with no manga row gets a
 missing genre, and grouping leaves missing keys out.
 */
module TopGenres {
  import opened Wrappers
  import opened Seqs
  import opened Grouping
  import opened Text
  import opened Records
  import opened Genres

  /** One row of the joined table, reduced to its `Genre` and `Title` columns. */
  datatype Pair = Pair(genre: Option<string>, title: string)

  function PairId(p: Pair): Pair {
    p
  }

  function PairGenre(p: Pair): Option<string> {
    p.genre
  }

  function PairTitle(p: Pair): string {
    p.title
  }

  /** Some exploded row of title `t` carries genre `g`. */
  predicate Matches(expanded: seq<GenreRow>, t: string, g: string) {
    exists i :: 0 <= i < |expanded| && expanded[i].title == t && expanded[i].genre == g
  }

  /** The joined rows of one top title: one per matching exploded row, or one with no genre. */
  function MatchRows(a: Anime, expanded: seq<GenreRow>): (r: seq<Pair>)
    ensures |r| >= 1
    ensures forall i :: 0 <= i < |r| ==> r[i].title == a.title
    ensures forall g :: Pair(Some(g), a.title) in r <==> Matches(expanded, a.title, g)
    ensures Pair(None, a.title) in r <==> a.title !in KeySet(expanded, RowTitle)
    ensures var ms := Where(expanded, RowTitle, a.title);
            |ms| == 0 ==> r == [Pair(None, a.title)]
    ensures var ms := Where(expanded, RowTitle, a.title);
            |ms| > 0 ==> |r| == |ms| && forall i :: 0 <= i < |r| ==> r[i] == Pair(Some(ms[i].genre), a.title)
  {
    var ms := Where(expanded, RowTitle, a.title);
    WhereEmpty(expanded, RowTitle, a.title);
    var r := if |ms| == 0 then [Pair(None, a.title)]
             else MapSeq((e: GenreRow) => Pair(Some(e.genre), a.title), ms);
    forall g ensures Pair(Some(g), a.title) in r <==> Matches(expanded, a.title, g) {
      MatchRowsSome(a, expanded, ms, r, g);
    }
    r
  }

  lemma MatchRowsSome(a: Anime, expanded: seq<GenreRow>, ms: seq<GenreRow>, r: seq<Pair>, g: string)
    requires ms == Where(expanded, RowTitle, a.title)
    requires r == if |ms| == 0 then [Pair(None, a.title)]
                  else MapSeq((e: GenreRow) => Pair(Some(e.genre), a.title), ms)
    ensures Pair(Some(g), a.title) in r <==> Matches(expanded, a.title, g)
  {
    if Pair(Some(g), a.title) in r {
      var j :| 0 <= j < |r| && r[j] == Pair(Some(g), a.title);
      WhereMember(expanded, RowTitle, a.title, ms[j]);
      var i :| 0 <= i < |expanded| && expanded[i] == ms[j];
    }
    if Matches(expanded, a.title, g) {
      var i :| 0 <= i < |expanded| && expanded[i].title == a.title && expanded[i].genre == g;
      WhereMember(expanded, RowTitle, a.title, expanded[i]);
      var j :| 0 <= j < |ms| && ms[j] == expanded[i];
      assert r[j] == Pair(Some(g), a.title);
    }
  }

  /**
   `r` holds joined rows of titles of `top` only, a pair of genre `g` for
   title `t` exactly when `t` is a top title with an exploded row of genre
   `g`, and a pair without genre for `t` exactly when `t` is a top title
   with no exploded row at all.
   */
  ghost predicate JoinedFrom(r: seq<Pair>, top: seq<Anime>, expanded: seq<GenreRow>) {
    && (forall p :: p in r ==> p.title in KeySet(top, TitleOf))
    && (forall t, g :: Pair(Some(g), t) in r <==> t in KeySet(top, TitleOf) && Matches(expanded, t, g))
    && (forall t :: Pair(None, t) in r <==> t in KeySet(top, TitleOf) && t !in KeySet(expanded, RowTitle))
  }

  /**
   `top.merge(expanded, left_on="Title", right_on="Manga_Title", how="left")`
   reduced to `[["Genre", "Title"]]`: the joined rows of each top title, in
   top-table order.
   */
  function LeftJoin(top: seq<Anime>, expanded: seq<GenreRow>): (r: seq<Pair>)
    ensures JoinedFrom(r, top, expanded)
    decreases |top|
  {
    if |top| == 0 then []
    else
      var init, a := top[..|top| - 1], top[|top| - 1];
      var rest, mine := LeftJoin(init, expanded), MatchRows(a, expanded);
      JoinedSnoc(rest, mine, top, expanded);
      rest + mine
  }

  lemma JoinedSnoc(rest: seq<Pair>, mine: seq<Pair>, top: seq<Anime>, expanded: seq<GenreRow>)
    requires |top| > 0
    requires JoinedFrom(rest, top[..|top| - 1], expanded) && mine == MatchRows(top[|top| - 1], expanded)
    ensures JoinedFrom(rest + mine, top, expanded)
  {
    var init, a, r := top[..|top| - 1], top[|top| - 1], rest + mine;
    assert top == init + [a];
    KeySetSnoc(init, a, TitleOf);
    forall p | p in r ensures p.title in KeySet(top, TitleOf) {
      if p in rest {
        assert p.title in KeySet(init, TitleOf);
      } else {
        var i :| 0 <= i < |mine| && mine[i] == p;
      }
    }
    forall t, g ensures Pair(Some(g), t) in r <==> t in KeySet(top, TitleOf) && Matches(expanded, t, g) {
      assert Pair(Some(g), t) in r <==> Pair(Some(g), t) in rest || Pair(Some(g), t) in mine;
      if Pair(Some(g), t) in mine {
        var i :| 0 <= i < |mine| && mine[i] == Pair(Some(g), t);
        assert t == a.title;
      }
    }
    forall t ensures Pair(None, t) in r <==> t in KeySet(top, TitleOf) && t !in KeySet(expanded, RowTitle) {
      assert Pair(None, t) in r <==> Pair(None, t) in rest || Pair(None, t) in mine;
      if Pair(None, t) in mine {
        var i :| 0 <= i < |mine| && mine[i] == Pair(None, t);
        assert t == a.title;
      }
    }
  }

  /** The join of two stacked tables is the join of the first followed by the join of the second. */
  lemma {:induction false} LeftJoinConcat(t1: seq<Anime>, t2: seq<Anime>, expanded: seq<GenreRow>)
    ensures LeftJoin(t1 + t2, expanded) == LeftJoin(t1, expanded) + LeftJoin(t2, expanded)
    decreases |t2|
  {
    if |t2| == 0 {
      assert t1 + t2 == t1;
    } else {
      var init, a := t2[..|t2| - 1], t2[|t2| - 1];
      assert t2 == init + [a];
      ConcatAssoc(t1, init, [a]);
      LeftJoinSnoc(t1 + init, a, expanded);
      LeftJoinSnoc(init, a, expanded);
      LeftJoinConcat(t1, init, expanded);
      ConcatAssoc(LeftJoin(t1, expanded), LeftJoin(init, expanded), MatchRows(a, expanded));
    }
  }

  /** One more top title appends its own joined rows. */
  lemma LeftJoinSnoc(top: seq<Anime>, a: Anime, expanded: seq<GenreRow>)
    ensures LeftJoin(top + [a], expanded) == LeftJoin(top, expanded) + MatchRows(a, expanded)
  {
    assert (top + [a])[..|top|] == top;
  }

  /** How many joined rows one top title yields: one per exploded row of it, and one if there is none. */
  function JoinWidth(a: Anime, expanded: seq<GenreRow>): nat {
    var n := |Where(expanded, RowTitle, a.title)|;
    if n == 0 then 1 else n
  }

  /** The joined table has, for every top title, one row per match or a single unmatched row. */
  lemma {:induction false} LeftJoinLength(top: seq<Anime>, expanded: seq<GenreRow>)
    ensures |LeftJoin(top, expanded)| == SumW(top, (a: Anime) => JoinWidth(a, expanded))
    decreases |top|
  {
    if |top| > 0 {
      LeftJoinLength(top[..|top| - 1], expanded);
    }
  }

  /**
   Without a match a top title joins to rows without a genre only: one per top
   row carrying it, so exactly one when the top titles are distinct.
   */
  lemma LeftJoinUnmatched(top: seq<Anime>, expanded: seq<GenreRow>, t: string)
    requires t in KeySet(top, TitleOf) && t !in KeySet(expanded, RowTitle)
    ensures Pair(None, t) in LeftJoin(top, expanded)
    ensures forall g :: Pair(Some(g), t) !in LeftJoin(top, expanded)
    ensures multiset(LeftJoin(top, expanded))[Pair(None, t)] == |Where(top, TitleOf, t)|
    ensures DistinctBy(top, TitleOf) ==> multiset(LeftJoin(top, expanded))[Pair(None, t)] == 1
  {
    UnmatchedPresent(top, expanded, t);
    UnmatchedCount(top, expanded, t);
    if DistinctBy(top, TitleOf) {
      WhereDistinct(top, TitleOf, t);
    }
  }

  /** An unmatched top title has its genre-less row and no other. */
  lemma {:induction false} UnmatchedPresent(top: seq<Anime>, expanded: seq<GenreRow>, t: string)
    requires t in KeySet(top, TitleOf) && t !in KeySet(expanded, RowTitle)
    ensures Pair(None, t) in LeftJoin(top, expanded)
    ensures forall g :: Pair(Some(g), t) !in LeftJoin(top, expanded)
    decreases |top|
  {
    var init, a := top[..|top| - 1], top[|top| - 1];
    KeySetSnoc(init, a, TitleOf);
    assert top == init + [a];
    if a.title != t {
      UnmatchedPresent(init, expanded, t);
    }
    forall g ensures !Matches(expanded, t, g) {
    }
  }

  /** An unmatched title has one genre-less joined row per top row carrying it. */
  lemma {:induction false} UnmatchedCount(top: seq<Anime>, expanded: seq<GenreRow>, t: string)
    requires t !in KeySet(expanded, RowTitle)
    ensures multiset(LeftJoin(top, expanded))[Pair(None, t)] == |Where(top, TitleOf, t)|
    decreases |top|
  {
    if |top| > 0 {
      var init, a := top[..|top| - 1], top[|top| - 1];
      assert top == init + [a];
      UnmatchedCount(init, expanded, t);
      WhereSnoc(init, a, TitleOf, t);
      LeftJoinSnoc(init, a, expanded);
      var mine := MatchRows(a, expanded);
      if a.title == t {
        assert mine == [Pair(None, t)];
      } else {
        assert Pair(None, t) !in mine;
      }
    }
  }

  /** The identity key names a row itself, so its key set is the set of rows. */
  lemma KeySetId(s: seq<Pair>)
    ensures KeySet(s, PairId) == Elements(s)
  {
    forall p | p in Elements(s) ensures p in KeySet(s, PairId) {
      var i :| 0 <= i < |s| && s[i] == p;
      assert PairId(s[i]) == p;
    }
  }

  /** `drop_duplicates()` on the joined table: each distinct pair once, first occurrence order. */
  function UniquePairs(top: seq<Anime>, expanded: seq<GenreRow>): (r: seq<Pair>)
    ensures Distinct(r)
    ensures Elements(r) == Elements(LeftJoin(top, expanded))
    ensures FirstRowsPerKey(r, LeftJoin(top, expanded), PairId)
  {
    var pairs := LeftJoin(top, expanded);
    var d := Dedup(pairs, PairId);
    DistinctByDistinct(d, PairId);
    KeySetId(d);
    KeySetId(pairs);
    d
  }

  /** The distinct top titles whose matched manga rows carry genre `g`. */
  function TitlesWithGenre(top: seq<Anime>, expanded: seq<GenreRow>, g: string): set<string> {
    set t | t in KeySet(top, TitleOf) && Matches(expanded, t, g)
  }

  /** The genres carried by some exploded row of a top title. */
  function MatchedGenres(top: seq<Anime>, expanded: seq<GenreRow>): set<string> {
    set i | 0 <= i < |expanded| && expanded[i].title in KeySet(top, TitleOf) :: expanded[i].genre
  }

  /** One row of the grouped table: `Count` and the joined `Titles`. */
  datatype GenreTitles = GenreTitles(count: nat, titles: string)

  /** The titles of the pairs of genre `g`, in pair order. */
  function GroupTitles(top: seq<Anime>, expanded: seq<GenreRow>, g: string): (ts: seq<string>)
    ensures Distinct(ts)
    ensures Elements(ts) == TitlesWithGenre(top, expanded, g)
    ensures |ts| == |Where(UniquePairs(top, expanded), PairGenre, Some(g))|
    ensures ts == MatchingTitles(top, expanded, g)
  {
    var d := UniquePairs(top, expanded);
    var group := Where(d, PairGenre, Some(g));
    var ts := MapSeq(PairTitle, group);
    GroupTitlesDistinct(d, group, g);
    GroupTitlesElements(top, expanded, d, group, g);
    GroupTitlesOrder(top, expanded, g);
    ts
  }

  lemma GroupTitlesDistinct(d: seq<Pair>, group: seq<Pair>, g: string)
    requires Distinct(d) && group == Where(d, PairGenre, Some(g))
    ensures Distinct(MapSeq(PairTitle, group))
  {
    WhereKeys(d, PairGenre, Some(g));
    DistinctSubsequence(group, d);
    var ts := MapSeq(PairTitle, group);
    forall i, j | 0 <= i < j < |ts| ensures ts[i] != ts[j] {
      assert PairGenre(group[i]) == Some(g) && PairGenre(group[j]) == Some(g);
      assert group[i] != group[j];
    }
  }

  /** A pair of genre `g` is in the group of `g` exactly when it is among the pairs. */
  lemma InGroup(d: seq<Pair>, g: string, t: string)
    ensures Pair(Some(g), t) in Where(d, PairGenre, Some(g)) <==> Pair(Some(g), t) in d
  {
    WhereMember(d, PairGenre, Some(g), Pair(Some(g), t));
  }

  /** A title is listed for genre `g` exactly when its pair is in the group of `g`. */
  lemma InGroupTitles(d: seq<Pair>, g: string, t: string)
    ensures t in MapSeq(PairTitle, Where(d, PairGenre, Some(g))) <==> Pair(Some(g), t) in Where(d, PairGenre, Some(g))
  {
    var group := Where(d, PairGenre, Some(g));
    var ts := MapSeq(PairTitle, group);
    WhereKeys(d, PairGenre, Some(g));
    if t in ts {
      var i :| 0 <= i < |ts| && ts[i] == t;
      assert PairGenre(group[i]) == Some(g);
      assert group[i] == Pair(Some(g), t);
    }
    if Pair(Some(g), t) in group {
      var i :| 0 <= i < |group| && group[i] == Pair(Some(g), t);
      assert ts[i] == t;
    }
  }

  lemma GroupTitlesElements(top: seq<Anime>, expanded: seq<GenreRow>, d: seq<Pair>, group: seq<Pair>, g: string)
    requires d == UniquePairs(top, expanded) && group == Where(d, PairGenre, Some(g))
    ensures Elements(MapSeq(PairTitle, group)) == TitlesWithGenre(top, expanded, g)
  {
    var pairs := LeftJoin(top, expanded);
    forall t ensures t in Elements(MapSeq(PairTitle, group)) <==> t in TitlesWithGenre(top, expanded, g) {
      InGroupTitles(d, g, t);
      InGroup(d, g, t);
      assert Pair(Some(g), t) in d <==> Pair(Some(g), t) in Elements(pairs);
    }
  }

  /**
   The titles listed for genre `g`, in the order the grouping meets them:
   the top titles in top-table order, each at its first occurrence, kept
   when one of its exploded rows carries `g`.
   */
  function MatchingTitles(top: seq<Anime>, expanded: seq<GenreRow>, g: string): (ts: seq<string>)
    ensures Distinct(ts)
    ensures Elements(ts) == TitlesWithGenre(top, expanded, g)
    ensures IsSubsequence(ts, MapSeq(TitleOf, top))
    decreases |top|
  {
    if |top| == 0 then []
    else
      var init, a := top[..|top| - 1], top[|top| - 1];
      var rest := MatchingTitles(init, expanded, g);
      assert top == init + [a];
      if Matches(expanded, a.title, g) && a.title !in KeySet(init, TitleOf) then
        MatchingTitlesKeep(init, a, expanded, g, rest);
        rest + [a.title]
      else
        MatchingTitlesSkip(init, a, expanded, g, rest);
        rest
  }

  lemma MatchingTitlesKeep(init: seq<Anime>, a: Anime, expanded: seq<GenreRow>, g: string, rest: seq<string>)
    requires Distinct(rest) && Elements(rest) == TitlesWithGenre(init, expanded, g)
    requires IsSubsequence(rest, MapSeq(TitleOf, init))
    requires Matches(expanded, a.title, g) && a.title !in KeySet(init, TitleOf)
    ensures Distinct(rest + [a.title]) && Elements(rest + [a.title]) == TitlesWithGenre(init + [a], expanded, g)
    ensures IsSubsequence(rest + [a.title], MapSeq(TitleOf, init + [a]))
  {
    TitlesWithGenreSnoc(init, a, expanded, g);
    TitlesMapSnoc(init, a);
    SubsequenceSnoc(rest, MapSeq(TitleOf, init), a.title);
    assert a.title !in Elements(rest);
    assert Elements(rest + [a.title]) == Elements(rest) + {a.title};
  }

  lemma MatchingTitlesSkip(init: seq<Anime>, a: Anime, expanded: seq<GenreRow>, g: string, rest: seq<string>)
    requires Elements(rest) == TitlesWithGenre(init, expanded, g)
    requires IsSubsequence(rest, MapSeq(TitleOf, init))
    requires !(Matches(expanded, a.title, g) && a.title !in KeySet(init, TitleOf))
    ensures Elements(rest) == TitlesWithGenre(init + [a], expanded, g)
    ensures IsSubsequence(rest, MapSeq(TitleOf, init + [a]))
  {
    TitlesWithGenreSnoc(init, a, expanded, g);
    TitlesMapSnoc(init, a);
    SubsequenceExtend(rest, MapSeq(TitleOf, init), a.title);
  }

  lemma TitlesMapSnoc(init: seq<Anime>, a: Anime)
    ensures MapSeq(TitleOf, init + [a]) == MapSeq(TitleOf, init) + [a.title]
  {
    MapConcat(TitleOf, init, [a]);
    assert MapSeq(TitleOf, [a]) == [a.title];
  }

  lemma TitlesWithGenreSnoc(init: seq<Anime>, a: Anime, expanded: seq<GenreRow>, g: string)
    ensures TitlesWithGenre(init + [a], expanded, g)
            == TitlesWithGenre(init, expanded, g) + if Matches(expanded, a.title, g) then {a.title} else {}
  {
    KeySetSnoc(init, a, TitleOf);
  }

  /** The titles listed for genre `g` after dropping duplicate pairs of `pairs`. */
  function Listed(pairs: seq<Pair>, g: string): seq<string> {
    MapSeq(PairTitle, Where(Dedup(pairs, PairId), PairGenre, Some(g)))
  }

  /** One title's joined rows list that title for `g` once if it matches `g`, and not at all otherwise. */
  lemma SingleTitleGroup(a: Anime, expanded: seq<GenreRow>, g: string)
    ensures Listed(MatchRows(a, expanded), g) == if Matches(expanded, a.title, g) then [a.title] else []
  {
    var d := Dedup(MatchRows(a, expanded), PairId);
    var w := Where(d, PairGenre, Some(g));
    var p := Pair(Some(g), a.title);
    DedupMatchRows(a, expanded, g);
    OneTitleGroup(d, a.title, g);
    WhereMember(d, PairGenre, Some(g), p);
    if w == [p] {
      assert MapSeq(PairTitle, w) == [a.title];
    }
  }

  /** The distinct joined pairs of one title: all of that title, with a pair of genre `g` iff it matches `g`. */
  lemma DedupMatchRows(a: Anime, expanded: seq<GenreRow>, g: string)
    ensures var d := Dedup(MatchRows(a, expanded), PairId);
            && Distinct(d) && (forall i :: 0 <= i < |d| ==> d[i].title == a.title)
            && (Pair(Some(g), a.title) in d <==> Matches(expanded, a.title, g))
  {
    var m := MatchRows(a, expanded);
    var d := Dedup(m, PairId);
    KeySetId(d);
    KeySetId(m);
    DistinctByDistinct(d, PairId);
    forall i | 0 <= i < |d| ensures d[i].title == a.title {
      assert d[i] in Elements(m);
    }
    assert Pair(Some(g), a.title) in d <==> Pair(Some(g), a.title) in Elements(m);
  }

  /** Distinct pairs of one title hold at most one pair of genre `g`. */
  lemma OneTitleGroup(d: seq<Pair>, t: string, g: string)
    requires Distinct(d) && forall i :: 0 <= i < |d| ==> d[i].title == t
    ensures Where(d, PairGenre, Some(g)) == [] || Where(d, PairGenre, Some(g)) == [Pair(Some(g), t)]
  {
    var w := Where(d, PairGenre, Some(g));
    WhereKeys(d, PairGenre, Some(g));
    DistinctSubsequence(w, d);
    forall i | 0 <= i < |w| ensures w[i] == Pair(Some(g), t) {
      WhereMember(d, PairGenre, Some(g), w[i]);
      assert PairGenre(w[i]) == Some(g);
    }
    DistinctCardinality(w);
    if Pair(Some(g), t) in Elements(w) {
      assert Elements(w) == {Pair(Some(g), t)};
    } else {
      assert Elements(w) == {};
    }
    if |w| == 1 {
      assert w == [Pair(Some(g), t)];
    }
  }

  /** Every joined row of an already seen title is already among the joined rows. */
  lemma JoinAbsorbs(init: seq<Anime>, a: Anime, expanded: seq<GenreRow>)
    requires a.title in KeySet(init, TitleOf)
    ensures KeySet(MatchRows(a, expanded), PairId) <= KeySet(LeftJoin(init, expanded), PairId)
  {
    var m, l := MatchRows(a, expanded), LeftJoin(init, expanded);
    KeySetId(m);
    KeySetId(l);
    forall p | p in m ensures p in l {
      assert p.title == a.title;
      if p.genre.Some? {
        assert Pair(Some(p.genre.value), a.title) in m;
      } else {
        assert Pair(None, a.title) in m;
      }
    }
  }

  /** The joined rows of a new title share no pair with the joined rows before it. */
  lemma JoinDisjoint(init: seq<Anime>, a: Anime, expanded: seq<GenreRow>)
    requires a.title !in KeySet(init, TitleOf)
    ensures KeySet(LeftJoin(init, expanded), PairId) !! KeySet(MatchRows(a, expanded), PairId)
  {
    var m, l := MatchRows(a, expanded), LeftJoin(init, expanded);
    KeySetId(m);
    KeySetId(l);
    forall p | p in m ensures p !in l {
      assert p.title == a.title;
    }
  }

  /**
   After dropping duplicates, the pairs of genre `g` list their titles in
   top-table order, first occurrence of each title: exactly `MatchingTitles`.
   */
  lemma {:induction false} GroupTitlesOrder(top: seq<Anime>, expanded: seq<GenreRow>, g: string)
    ensures Listed(LeftJoin(top, expanded), g) == MatchingTitles(top, expanded, g)
    decreases |top|
  {
    if |top| > 0 {
      var init, a := top[..|top| - 1], top[|top| - 1];
      assert top == init + [a];
      GroupTitlesOrder(init, expanded, g);
      if a.title in KeySet(init, TitleOf) {
        ListedSeenTitle(init, a, expanded, g);
      } else {
        ListedNewTitle(init, a, expanded, g);
        assert MatchingTitles(init, expanded, g) + [] == MatchingTitles(init, expanded, g);
      }
    }
  }

  /** A title seen before lists nothing new. */
  lemma ListedSeenTitle(init: seq<Anime>, a: Anime, expanded: seq<GenreRow>, g: string)
    requires a.title in KeySet(init, TitleOf)
    ensures Listed(LeftJoin(init + [a], expanded), g) == Listed(LeftJoin(init, expanded), g)
  {
    LeftJoinSnoc(init, a, expanded);
    JoinAbsorbs(init, a, expanded);
    ListedAbsorbed(LeftJoin(init, expanded), MatchRows(a, expanded), g);
  }

  /** A new title is listed after the earlier ones exactly when it matches `g`. */
  lemma ListedNewTitle(init: seq<Anime>, a: Anime, expanded: seq<GenreRow>, g: string)
    requires a.title !in KeySet(init, TitleOf)
    ensures Listed(LeftJoin(init + [a], expanded), g)
            == Listed(LeftJoin(init, expanded), g) + if Matches(expanded, a.title, g) then [a.title] else []
  {
    LeftJoinSnoc(init, a, expanded);
    JoinDisjoint(init, a, expanded);
    ListedConcat(LeftJoin(init, expanded), MatchRows(a, expanded), g);
    SingleTitleGroup(a, expanded, g);
  }

  lemma ListedAbsorbed(l: seq<Pair>, m: seq<Pair>, g: string)
    requires KeySet(m, PairId) <= KeySet(l, PairId)
    ensures Listed(l + m, g) == Listed(l, g)
  {
    DedupAbsorbed(l, m, PairId);
  }

  lemma ListedConcat(l: seq<Pair>, m: seq<Pair>, g: string)
    requires KeySet(l, PairId) !! KeySet(m, PairId)
    ensures Listed(l + m, g) == Listed(l, g) + Listed(m, g)
  {
    var dl, dm := Dedup(l, PairId), Dedup(m, PairId);
    DedupDisjoint(l, m, PairId);
    WhereConcat(dl, dm, PairGenre, Some(g));
    MapConcat(PairTitle, Where(dl, PairGenre, Some(g)), Where(dm, PairGenre, Some(g)));
  }

  /**
   `Count=("Title", "size")` and `Titles=", ".join` of one group: the count
   is the number of rows, and splitting the listing at the separator gives
   back the titles in group order whenever no title contains the separator.
   */
  function Summarize(group: seq<Pair>): (e: GenreTitles)
    ensures e.count == |group|
    ensures |group| > 0 && (forall i :: 0 <= i < |group| ==> !Contains(group[i].title, ListSep))
            ==> Split(e.titles, ListSep) == MapSeq(PairTitle, group)
  {
    var ts := MapSeq(PairTitle, group);
    ListingSplits(ts);
    GenreTitles(|group|, Join(ts, ListSep))
  }

  lemma ListingSplits(ts: seq<string>)
    ensures |ts| > 0 && (forall i :: 0 <= i < |ts| ==> !Contains(ts[i], ListSep))
            ==> Split(Join(ts, ListSep), ListSep) == ts
  {
    if |ts| > 0 && (forall i :: 0 <= i < |ts| ==> !Contains(ts[i], ListSep)) {
      ListSepNoBorder();
      SplitJoin(ts, ListSep);
    }
  }

  /** The summary of the group of a matched genre counts and lists its top titles. */
  lemma SummarizeGroup(top: seq<Anime>, expanded: seq<GenreRow>, g: string)
    requires g in MatchedGenres(top, expanded)
    ensures var e := Summarize(Where(UniquePairs(top, expanded), PairGenre, Some(g)));
            && e.count == |TitlesWithGenre(top, expanded, g)| && e.count >= 1
            && e.titles == Join(MatchingTitles(top, expanded, g), ListSep)
  {
    var ts := GroupTitles(top, expanded, g);
    DistinctCardinality(ts);
    var j :| 0 <= j < |expanded| && expanded[j].title in KeySet(top, TitleOf) && expanded[j].genre == g;
    assert Matches(expanded, expanded[j].title, g);
    assert expanded[j].title in TitlesWithGenre(top, expanded, g);
  }

  /**
   `groupby("Genre").agg(Count=size, Titles=", ".join)`: one entry per genre
   carried by a matched top title, counting the distinct top titles with
   that genre and listing exactly those titles; top titles without a match
   (missing genre) appear under no genre.
   */
  function TopTitleGenres(top: seq<Anime>, expanded: seq<GenreRow>): (r: map<string, GenreTitles>)
    ensures r.Keys == MatchedGenres(top, expanded)
    ensures forall g :: g in r ==> r[g].count == |TitlesWithGenre(top, expanded, g)| && r[g].count >= 1
    ensures forall g :: g in r ==> r[g].titles == Join(MatchingTitles(top, expanded, g), ListSep)
  {
    var d := UniquePairs(top, expanded);
    var r := map g | g in MatchedGenres(top, expanded) :: Summarize(Where(d, PairGenre, Some(g)));
    GenreEntries(top, expanded, r);
    r
  }

  lemma GenreEntries(top: seq<Anime>, expanded: seq<GenreRow>, r: map<string, GenreTitles>)
    requires r == map g | g in MatchedGenres(top, expanded) :: Summarize(Where(UniquePairs(top, expanded), PairGenre, Some(g)))
    ensures forall g :: g in r ==> r[g].count == |TitlesWithGenre(top, expanded, g)| && r[g].count >= 1
    ensures forall g :: g in r ==> r[g].titles == Join(MatchingTitles(top, expanded, g), ListSep)
  {
    forall g | g in r
      ensures r[g].count == |TitlesWithGenre(top, expanded, g)| && r[g].count >= 1
      ensures r[g].titles == Join(MatchingTitles(top, expanded, g), ListSep)
    {
      SummarizeGroup(top, expanded, g);
    }
  }

  /**
   The entries are exactly the summaries of the non-missing groups of
   `groupby("Genre")` over the distinct pairs: the missing-genre group is
   the only one left out.
   */
  lemma TopTitleGenresGroups(top: seq<Anime>, expanded: seq<GenreRow>, g: string)
    ensures var groups := GroupBy(UniquePairs(top, expanded), PairGenre);
            && (Some(g) in groups <==> g in TopTitleGenres(top, expanded))
            && (g in TopTitleGenres(top, expanded) ==> TopTitleGenres(top, expanded)[g] == Summarize(groups[Some(g)]))
  {
    PairGenreKeys(top, expanded, g);
  }

  /** The genres of the pairs are exactly the matched genres. */
  lemma PairGenreKeys(top: seq<Anime>, expanded: seq<GenreRow>, g: string)
    ensures Some(g) in KeySet(UniquePairs(top, expanded), PairGenre) <==> g in MatchedGenres(top, expanded)
  {
    if Some(g) in KeySet(UniquePairs(top, expanded), PairGenre) {
      PairGenreMatched(top, expanded, g);
    }
    if g in MatchedGenres(top, expanded) {
      MatchedPairGenre(top, expanded, g);
    }
  }

  lemma PairGenreMatched(top: seq<Anime>, expanded: seq<GenreRow>, g: string)
    requires Some(g) in KeySet(UniquePairs(top, expanded), PairGenre)
    ensures g in MatchedGenres(top, expanded)
  {
    GenreOfPairs(UniquePairs(top, expanded), LeftJoin(top, expanded), top, expanded, g);
  }

  lemma GenreOfPairs(d: seq<Pair>, l: seq<Pair>, top: seq<Anime>, expanded: seq<GenreRow>, g: string)
    requires Elements(d) == Elements(l) && JoinedFrom(l, top, expanded)
    requires Some(g) in KeySet(d, PairGenre)
    ensures g in MatchedGenres(top, expanded)
  {
    var i :| 0 <= i < |d| && PairGenre(d[i]) == Some(g);
    var t := d[i].title;
    assert d[i] == Pair(Some(g), t);
    assert d[i] in Elements(d);
    JoinedMatch(l, top, expanded, t, g);
  }

  lemma JoinedMatch(r: seq<Pair>, top: seq<Anime>, expanded: seq<GenreRow>, t: string, g: string)
    requires JoinedFrom(r, top, expanded) && Pair(Some(g), t) in r
    ensures g in MatchedGenres(top, expanded)
  {
    assert t in KeySet(top, TitleOf) && Matches(expanded, t, g);
    var j :| 0 <= j < |expanded| && expanded[j].title == t && expanded[j].genre == g;
    assert expanded[j].genre in MatchedGenres(top, expanded);
  }

  lemma MatchedPairGenre(top: seq<Anime>, expanded: seq<GenreRow>, g: string)
    requires g in MatchedGenres(top, expanded)
    ensures Some(g) in KeySet(UniquePairs(top, expanded), PairGenre)
  {
    var d := UniquePairs(top, expanded);
    var j :| 0 <= j < |expanded| && expanded[j].title in KeySet(top, TitleOf) && expanded[j].genre == g;
    var p := Pair(Some(g), expanded[j].title);
    assert Matches(expanded, expanded[j].title, g);
    assert p in LeftJoin(top, expanded);
    assert p in Elements(d);
    var i :| 0 <= i < |d| && d[i] == p;
    assert PairGenre(d[i]) == Some(g);
  }

  /** A top title without any manga row is listed under no genre. */
  lemma UnmatchedTitleAbsent(top: seq<Anime>, expanded: seq<GenreRow>, t: string)
    requires t !in KeySet(expanded, RowTitle)
    ensures forall g :: g in TopTitleGenres(top, expanded) ==> t !in TitlesWithGenre(top, expanded, g)
  {
    forall g ensures !Matches(expanded, t, g) {
    }
  }
}
