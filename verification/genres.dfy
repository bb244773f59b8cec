/**
 The genre views of the manga record set: every bracketed genre list is
 split into independent genres (one row per title and genre, each carrying
 the title's full vote count), the votes are summed per genre, and the
 table is ordered by that sum with the ten largest as the default selection.
 */
module Genres {
  import opened Wrappers
  import opened Seqs
  import opened Sorting
  import opened Grouping
  import opened Text
  import opened Records

  /** One row of the exploded manga table (`Votes` renamed to `Vote` in the source). */
  datatype GenreRow = GenreRow(title: string, genre: string, votes: int)

  function GenreOf(e: GenreRow): string {
    e.genre
  }

  function RowTitle(e: GenreRow): string {
    e.title
  }

  function RowVotes(e: GenreRow): int {
    e.votes
  }

  /** A character appears in a joined text only if it is in a piece or the separator. */
  lemma {:induction false} JoinChars(parts: seq<string>, sep: string, i: int, c: char)
    requires 0 <= i < |parts| && c in parts[i]
    ensures c in Join(parts, sep)
    decreases |parts|
  {
    if |parts| > 1 {
      if i > 0 {
        JoinChars(parts[1..], sep, i - 1, c);
      }
    }
  }

  /**
   The genres of one `Genres` cell: `str.replace("[\[\]]", "")` then
   `str.split(", ")`. There is at least one; none holds a bracket or the
   separator, and joining them back gives the bracket-free text.
   */
  function Tokens(genres: string): (ts: seq<string>)
    ensures |ts| >= 1
    ensures forall i :: 0 <= i < |ts| ==> '[' !in ts[i] && ']' !in ts[i]
    ensures forall i :: 0 <= i < |ts| ==> !Contains(ts[i], ListSep)
    ensures Join(ts, ListSep) == StripBrackets(genres)
  {
    var stripped := StripBrackets(genres);
    var ts := Split(stripped, ListSep);
    PiecesWithout(ts, ListSep, '[');
    PiecesWithout(ts, ListSep, ']');
    ts
  }

  /** A character missing from a joined text is missing from every piece. */
  lemma PiecesWithout(parts: seq<string>, sep: string, c: char)
    requires c !in Join(parts, sep)
    ensures forall i :: 0 <= i < |parts| ==> c !in parts[i]
  {
    forall i | 0 <= i < |parts| && c in parts[i] ensures false {
      JoinChars(parts, sep, i, c);
    }
  }

  /** The exploded rows of one manga row (none when its `Genres` cell is missing). */
  function ExpandRow(m: Manga): seq<GenreRow> {
    match m.genres
    case None => []
    case Some(g) => MapSeq((t: string) => GenreRow(m.title, t, m.votes), Tokens(g))
  }

  /** `e` is one of the exploded rows of manga row `m`. */
  ghost predicate ExplodedFrom(e: GenreRow, m: Manga) {
    && m.genres.Some?
    && m.title == e.title
    && m.votes == e.votes
    && e.genre in Tokens(m.genres.value)
  }

  /** `e` is an exploded row of some row of `manga`. */
  ghost predicate FromSome(e: GenreRow, manga: seq<Manga>) {
    exists m :: m in manga && ExplodedFrom(e, m)
  }

  /**
   `dropna(subset=["Genres"])`, then the genre list per row, then `explode`:
   the rows of each manga row in order, one per genre token.
   */
  function Expand(manga: seq<Manga>): (r: seq<GenreRow>)
    ensures forall i :: 0 <= i < |r| ==> '[' !in r[i].genre && ']' !in r[i].genre
    ensures forall i :: 0 <= i < |r| ==> FromSome(r[i], manga)
    decreases |manga|
  {
    if |manga| == 0 then []
    else
      var init, m := manga[..|manga| - 1], manga[|manga| - 1];
      var rest, mine := Expand(init), ExpandRow(m);
      var r := rest + mine;
      assert forall i :: 0 <= i < |r| ==> FromSome(r[i], manga) by {
        forall i | 0 <= i < |r| ensures FromSome(r[i], manga) {
          if i < |rest| {
            FromSomeGrows(rest[i], init, manga);
          } else {
            ExpandRowFrom(m, i - |rest|);
          }
        }
      }
      r
  }

  lemma FromSomeGrows(e: GenreRow, init: seq<Manga>, manga: seq<Manga>)
    requires |manga| > 0 && init == manga[..|manga| - 1] && FromSome(e, init)
    ensures FromSome(e, manga)
  {
    var m :| m in init && ExplodedFrom(e, m);
    assert m in manga;
  }

  lemma ExpandRowFrom(m: Manga, i: int)
    requires 0 <= i < |ExpandRow(m)|
    ensures ExplodedFrom(ExpandRow(m)[i], m)
  {
  }

  /** A row whose `Genres` is missing contributes nothing; any other one row per token. */
  lemma ExpandRowCount(m: Manga)
    ensures m.genres.None? ==> Expand([m]) == []
    ensures m.genres.Some? ==> |Expand([m])| == |Tokens(m.genres.value)|
    ensures m.genres.Some? ==> forall i :: 0 <= i < |Expand([m])| ==>
              Expand([m])[i] == GenreRow(m.title, Tokens(m.genres.value)[i], m.votes)
  {
    assert [m][..0] == [];
  }

  /** Exploding distributes over the rows: each manga row adds its own rows, in order. */
  lemma {:induction false} ExpandConcat(a: seq<Manga>, b: seq<Manga>)
    ensures Expand(a + b) == Expand(a) + Expand(b)
    decreases |b|
  {
    if |b| == 0 {
      assert a + b == a;
    } else {
      var b', x := b[..|b| - 1], b[|b| - 1];
      assert (a + b)[..|a + b| - 1] == a + b';
      assert (a + b)[|a + b| - 1] == x;
      ExpandSnoc(a + b);
      ExpandSnoc(b);
      ExpandConcat(a, b');
    }
  }

  lemma ExpandSnoc(s: seq<Manga>)
    requires |s| > 0
    ensures Expand(s) == Expand(s[..|s| - 1]) + ExpandRow(s[|s| - 1])
  {
  }

  /** A character of a joined text comes from a piece or from the separator. */
  lemma {:induction false} JoinCharsFrom(parts: seq<string>, sep: string, c: char)
    requires c in Join(parts, sep)
    ensures c in sep || exists i :: 0 <= i < |parts| && c in parts[i]
    decreases |parts|
  {
    if |parts| > 1 {
      var tail := Join(parts[1..], sep);
      if c !in parts[0] && c !in sep {
        assert c in tail;
        JoinCharsFrom(parts[1..], sep, c);
        var i :| 0 <= i < |parts[1..]| && c in parts[1..][i];
        assert c in parts[i + 1];
      }
    }
  }

  /** A bracket-free text survives bracket deletion unchanged. */
  lemma StripBracketFree(t: string)
    requires '[' !in t && ']' !in t
    ensures StripBrackets("[" + t + "]") == t
  {
    FilterConcat(['['] + t, [']'], NotBracket);
    FilterConcat(['['], t, NotBracket);
    FilterAll(t, NotBracket);
    FilterNone(['['], NotBracket);
    FilterNone([']'], NotBracket);
    assert "[" + t + "]" == ['['] + t + [']'];
  }

  /**
   The genre cell of a list of genres, `"[" + ", ".join(gs) + "]"`, gives back
   exactly that list, provided no genre holds a bracket or the separator.
   */
  lemma TokensOfList(gs: seq<string>)
    requires |gs| >= 1
    requires forall i :: 0 <= i < |gs| ==> '[' !in gs[i] && ']' !in gs[i] && !Contains(gs[i], ListSep)
    ensures Tokens("[" + Join(gs, ListSep) + "]") == gs
  {
    var t := Join(gs, ListSep);
    JoinBracketFree(gs);
    StripBracketFree(t);
    TokensOfStripped("[" + t + "]", gs);
  }

  /** Joining bracket-free pieces with the list separator gives a bracket-free text. */
  lemma JoinBracketFree(gs: seq<string>)
    requires forall i :: 0 <= i < |gs| ==> '[' !in gs[i] && ']' !in gs[i]
    ensures '[' !in Join(gs, ListSep) && ']' !in Join(gs, ListSep)
  {
    JoinWithout(gs, ListSep, '[');
    JoinWithout(gs, ListSep, ']');
  }

  /** A cell whose bracket-free text is the joined list splits back into that list. */
  lemma TokensOfStripped(cell: string, gs: seq<string>)
    requires |gs| >= 1
    requires forall i :: 0 <= i < |gs| ==> !Contains(gs[i], ListSep)
    requires StripBrackets(cell) == Join(gs, ListSep)
    ensures Tokens(cell) == gs
  {
    ListSepNoBorder();
    SplitJoin(gs, ListSep);
  }

  /** A character in neither the pieces nor the separator is not in the joined text. */
  lemma JoinWithout(parts: seq<string>, sep: string, c: char)
    requires c !in sep
    requires forall i :: 0 <= i < |parts| ==> c !in parts[i]
    ensures c !in Join(parts, sep)
  {
    if c in Join(parts, sep) {
      JoinCharsFrom(parts, sep, c);
    }
  }

  /**
   One manga row whose cell lists the genres `gs` explodes into one row per
   genre, in list order, each with the row's title and full vote count.
   */
  lemma ExpandOfList(title: string, gs: seq<string>, votes: int, rating: real)
    requires |gs| >= 1
    requires forall i :: 0 <= i < |gs| ==> '[' !in gs[i] && ']' !in gs[i] && !Contains(gs[i], ListSep)
    ensures var r := Expand([Manga(title, Some("[" + Join(gs, ListSep) + "]"), votes, rating)]);
            |r| == |gs| && forall i :: 0 <= i < |r| ==> r[i] == GenreRow(title, gs[i], votes)
  {
    TokensOfList(gs);
    ExpandRowCount(Manga(title, Some("[" + Join(gs, ListSep) + "]"), votes, rating));
  }

  /** Summed votes per genre (`groupby("Genre").agg({"Vote": "sum"})`). */
  function GenreVotes(expanded: seq<GenreRow>): (m: map<string, int>)
    ensures IsVoteMap(m, expanded)
  {
    var groups := GroupBy(expanded, GenreOf);
    map g | g in groups :: SumW(groups[g], RowVotes)
  }

  /** One row of the genre table. */
  datatype GenreStat = GenreStat(genre: string, vote: int)

  function StatGenre(s: GenreStat): string {
    s.genre
  }

  function StatVote(s: GenreStat): int {
    s.vote
  }

  /** The table entries for the genres `ks`, in that order, read from the vote map. */
  function StatsOf(m: map<string, int>, ks: seq<string>): (r: seq<GenreStat>)
    requires forall i :: 0 <= i < |ks| ==> ks[i] in m
    ensures |r| == |ks|
    ensures forall i :: 0 <= i < |r| ==> r[i].genre == ks[i] && r[i].vote == m[ks[i]]
  {
    seq(|ks|, i requires 0 <= i < |ks| => GenreStat(ks[i], m[ks[i]]))
  }

  /** `m` holds the vote sum of every genre of `expanded` and nothing else. */
  ghost predicate IsVoteMap(m: map<string, int>, expanded: seq<GenreRow>) {
    && m.Keys == KeySet(expanded, GenreOf)
    && forall g :: g in m ==> m[g] == SumW(Where(expanded, GenreOf, g), RowVotes)
  }

  lemma {:induction false} StatsOfSum(m: map<string, int>, expanded: seq<GenreRow>, ks: seq<string>)
    requires IsVoteMap(m, expanded)
    requires forall i :: 0 <= i < |ks| ==> ks[i] in m
    ensures SumW(StatsOf(m, ks), StatVote) == SumGroups(expanded, GenreOf, ks, RowVotes)
    decreases |ks|
  {
    if |ks| > 0 {
      var s := StatsOf(m, ks);
      assert s[..|s| - 1] == StatsOf(m, ks[..|ks| - 1]);
      StatsOfSum(m, expanded, ks[..|ks| - 1]);
    }
  }

  lemma StatsOfKeys(m: map<string, int>, ks: seq<string>)
    requires forall i :: 0 <= i < |ks| ==> ks[i] in m
    ensures KeySet(StatsOf(m, ks), StatGenre) == Elements(ks)
  {
    var entries := StatsOf(m, ks);
    forall g | g in Elements(ks) ensures g in KeySet(entries, StatGenre) {
      var i :| 0 <= i < |ks| && ks[i] == g;
      assert StatGenre(entries[i]) == g;
    }
  }

  lemma StatsOfDistinct(m: map<string, int>, ks: seq<string>)
    requires forall i :: 0 <= i < |ks| ==> ks[i] in m
    requires Distinct(ks)
    ensures DistinctBy(StatsOf(m, ks), StatGenre)
  {
  }

  /** `groupby("Genre").sum()`: one entry per genre with its vote sum, unordered. */
  function VoteEntries(expanded: seq<GenreRow>): (r: seq<GenreStat>)
    ensures DistinctBy(r, StatGenre)
    ensures KeySet(r, StatGenre) == KeySet(expanded, GenreOf)
    ensures forall i :: 0 <= i < |r| ==> r[i].vote == SumW(Where(expanded, GenreOf, r[i].genre), RowVotes)
    ensures SumW(r, StatVote) == SumW(expanded, RowVotes)
  {
    var m := GenreVotes(expanded);
    var ks := DistinctKeys(expanded, GenreOf);
    KeysInVoteMap(m, expanded, ks);
    StatsOfKeys(m, ks);
    StatsOfDistinct(m, ks);
    StatsOfWhere(m, expanded, ks);
    StatsOfSum(m, expanded, ks);
    GroupsPartition(expanded, GenreOf, ks, RowVotes);
    StatsOf(m, ks)
  }

  lemma KeysInVoteMap(m: map<string, int>, expanded: seq<GenreRow>, ks: seq<string>)
    requires IsVoteMap(m, expanded) && Elements(ks) == KeySet(expanded, GenreOf)
    ensures forall i :: 0 <= i < |ks| ==> ks[i] in m
  {
    assert forall i :: 0 <= i < |ks| ==> ks[i] in Elements(ks);
  }

  lemma StatsOfWhere(m: map<string, int>, expanded: seq<GenreRow>, ks: seq<string>)
    requires IsVoteMap(m, expanded)
    requires forall i :: 0 <= i < |ks| ==> ks[i] in m
    ensures forall i :: 0 <= i < |ks| ==>
              StatsOf(m, ks)[i].vote == SumW(Where(expanded, GenreOf, StatsOf(m, ks)[i].genre), RowVotes)
  {
  }

  /** A reordering of the entries keeps every entry's vote sum. */
  lemma VotesPermutation(expanded: seq<GenreRow>, a: seq<GenreStat>, b: seq<GenreStat>)
    requires multiset(a) == multiset(b)
    requires forall i :: 0 <= i < |a| ==> a[i].vote == SumW(Where(expanded, GenreOf, a[i].genre), RowVotes)
    ensures forall i :: 0 <= i < |b| ==> b[i].vote == SumW(Where(expanded, GenreOf, b[i].genre), RowVotes)
  {
    forall i | 0 <= i < |b|
      ensures b[i].vote == SumW(Where(expanded, GenreOf, b[i].genre), RowVotes)
    {
      assert b[i] in multiset(a);
      var j :| 0 <= j < |a| && a[j] == b[i];
    }
  }

  /**
   The genre table, `sort_values(by="Vote", ascending=False)`: one row per
   distinct genre holding that genre's vote sum, in non-increasing vote order;
   its votes add up to the votes of all exploded rows (a title with three
   genres counts three times).
   */
  function GenreTable(expanded: seq<GenreRow>): (r: seq<GenreStat>)
    ensures SortedDescBy(r, StatVote)
    ensures DistinctBy(r, StatGenre)
    ensures KeySet(r, StatGenre) == KeySet(expanded, GenreOf)
    ensures forall i :: 0 <= i < |r| ==> r[i].vote == SumW(Where(expanded, GenreOf, r[i].genre), RowVotes)
    ensures SumW(r, StatVote) == SumW(expanded, RowVotes)
  {
    var entries := VoteEntries(expanded);
    var r := SortDesc(entries, StatVote);
    VotesPermutation(expanded, entries, r);
    DistinctByPermutation(entries, r, StatGenre);
    KeySetPermutation(entries, r, StatGenre);
    SumPermutation(entries, r, StatVote);
    r
  }

  /** The default selection: the genres of the first ten rows of the table. */
  function DefaultGenres(table: seq<GenreStat>): (r: set<string>)
    ensures r <= KeySet(table, StatGenre)
    ensures forall i :: 0 <= i < |table| && i < TopN ==> table[i].genre in r
    ensures forall k :: k in r ==> exists i :: 0 <= i < |table| && i < TopN && table[i].genre == k
    ensures |table| <= TopN ==> r == KeySet(table, StatGenre)
  {
    var head := table[..Min(TopN, |table|)];
    assert forall i :: 0 <= i < |head| ==> head[i] == table[i];
    assert |table| <= TopN ==> head == table;
    KeySet(head, StatGenre)
  }

  /** `genre_stats[genre_stats["Genre"].isin(selected)]`: the selected rows, in table order. */
  function SelectGenres(table: seq<GenreStat>, selected: set<string>): (r: seq<GenreStat>)
    ensures IsSubsequence(r, table)
    ensures forall i :: 0 <= i < |r| ==> r[i].genre in selected
    ensures forall i :: 0 <= i < |table| && table[i].genre in selected ==> table[i] in r
  {
    Filter(table, (s: GenreStat) => s.genre in selected)
  }

  /** With the default selection the view is exactly the first min(TopN, #genres) rows. */
  lemma SelectDefaultGenres(table: seq<GenreStat>)
    requires DistinctBy(table, StatGenre)
    ensures SelectGenres(table, DefaultGenres(table)) == table[..Min(TopN, |table|)]
  {
    var n := Min(TopN, |table|);
    var pre, post := table[..n], table[n..];
    var sel := DefaultGenres(table);
    var p := (s: GenreStat) => s.genre in sel;
    assert table == pre + post;
    FilterConcat(pre, post, p);
    FilterAll(pre, p);
    TailUnselected(table, n);
    FilterNone(post, p);
  }

  /** With distinct genres no row after the first `n` carries a genre of the first `n`. */
  lemma TailUnselected(table: seq<GenreStat>, n: nat)
    requires DistinctBy(table, StatGenre) && n <= |table|
    ensures forall i :: 0 <= i < |table[n..]| ==> table[n..][i].genre !in KeySet(table[..n], StatGenre)
  {
    forall i | 0 <= i < |table[n..]| ensures table[n..][i].genre !in KeySet(table[..n], StatGenre) {
      assert table[n..][i] == table[n + i];
      forall j | 0 <= j < n ensures StatGenre(table[..n][j]) != table[n + i].genre {
        assert table[..n][j] == table[j];
      }
    }
  }
}
