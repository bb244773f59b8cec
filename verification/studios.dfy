/**
 The studio view over the cleaned anime rows: the primary studio is the
 `Studios` text before its first comma (a missing cell reads "nan"), rows
 are counted per primary studio, and one studio's row is selected.
 */
module Studios {
  import opened Wrappers
  import opened Seqs
  import opened Grouping
  import opened Text
  import opened Records

  /**
   `Studios.astype(str).str.split(',').str[0]`: no comma, a prefix of the
   cell text, and either all of it or followed by a comma there. No
   whitespace is trimmed.
   */
  function PrimaryStudio(a: Anime): (r: string)
    ensures ',' !in r
    ensures |r| <= |AsStr(a.studios)| && AsStr(a.studios)[..|r|] == r
    ensures |r| < |AsStr(a.studios)| ==> AsStr(a.studios)[|r|] == ','
  {
    BeforeFirst(AsStr(a.studios), ',')
  }

  /** `groupby('Primary_Studio').agg(Series_Count=('Title', 'size'))` as a map. */
  function StudioCounts(cleaned: seq<Anime>): (m: map<string, nat>)
    ensures IsCountMap(m, cleaned)
    ensures forall k :: k in m ==> m[k] >= 1
  {
    var groups := GroupBy(cleaned, PrimaryStudio);
    map k | k in groups :: |groups[k]|
  }

  /** `m` holds the row count of every primary studio of `cleaned` and nothing else. */
  ghost predicate IsCountMap(m: map<string, nat>, cleaned: seq<Anime>) {
    && m.Keys == KeySet(cleaned, PrimaryStudio)
    && forall k :: k in m ==> m[k] == |Where(cleaned, PrimaryStudio, k)|
  }

  /** One row of the studio table. */
  datatype StudioStat = StudioStat(studio: string, seriesCount: nat)

  function StatStudio(s: StudioStat): string {
    s.studio
  }

  function SeriesCount(s: StudioStat): int {
    s.seriesCount
  }

  /** The table rows for the studios `ks`, read from the count map. */
  function StudioRows(m: map<string, nat>, ks: seq<string>): (r: seq<StudioStat>)
    requires forall i :: 0 <= i < |ks| ==> ks[i] in m
    ensures |r| == |ks|
    ensures forall i :: 0 <= i < |r| ==> r[i].studio == ks[i] && r[i].seriesCount == m[ks[i]]
  {
    seq(|ks|, i requires 0 <= i < |ks| => StudioStat(ks[i], m[ks[i]]))
  }

  /** Rows whose counts are the group sizes of `ks` add up to the grouped total. */
  lemma {:induction false} StudioRowsSum(r: seq<StudioStat>, cleaned: seq<Anime>, ks: seq<string>)
    requires |r| == |ks|
    requires forall i :: 0 <= i < |r| ==> r[i].seriesCount == |Where(cleaned, PrimaryStudio, ks[i])|
    ensures SumW(r, SeriesCount) == SumGroups(cleaned, PrimaryStudio, ks, One)
    decreases |ks|
  {
    if |ks| > 0 {
      var n := |ks| - 1;
      StudioRowsSum(r[..n], cleaned, ks[..n]);
      SumOneIsLength(Where(cleaned, PrimaryStudio, ks[n]));
    }
  }

  lemma StudioRowsKeys(m: map<string, nat>, ks: seq<string>)
    requires forall i :: 0 <= i < |ks| ==> ks[i] in m
    ensures KeySet(StudioRows(m, ks), StatStudio) == Elements(ks)
  {
    var rows := StudioRows(m, ks);
    forall k | k in Elements(ks) ensures k in KeySet(rows, StatStudio) {
      var i :| 0 <= i < |ks| && ks[i] == k;
      assert StatStudio(rows[i]) == k;
    }
  }

  lemma KeysInCounts(m: map<string, nat>, cleaned: seq<Anime>, ks: seq<string>)
    requires IsCountMap(m, cleaned) && Elements(ks) == KeySet(cleaned, PrimaryStudio)
    ensures forall i :: 0 <= i < |ks| ==> ks[i] in m
  {
    assert forall i :: 0 <= i < |ks| ==> ks[i] in Elements(ks);
  }

  /**
   `studio_stats`: one row per distinct primary studio, each counting that
   studio's rows (so at least one), and the counts add up to the number of
   cleaned rows. The row order of the source (sorted by studio) is not
   modelled.
   */
  function StudioTable(cleaned: seq<Anime>): (r: seq<StudioStat>)
    ensures DistinctBy(r, StatStudio)
    ensures KeySet(r, StatStudio) == KeySet(cleaned, PrimaryStudio)
    ensures forall i :: 0 <= i < |r| ==>
              r[i].seriesCount == |Where(cleaned, PrimaryStudio, r[i].studio)| && r[i].seriesCount >= 1
    ensures SumW(r, SeriesCount) == |cleaned|
  {
    var m := StudioCounts(cleaned);
    var ks := DistinctKeys(cleaned, PrimaryStudio);
    KeysInCounts(m, cleaned, ks);
    StudioRowsFacts(m, cleaned, ks);
    StudioRows(m, ks)
  }

  /** The rows built from the count map over the distinct studios have every property of the table. */
  lemma StudioRowsFacts(m: map<string, nat>, cleaned: seq<Anime>, ks: seq<string>)
    requires IsCountMap(m, cleaned) && forall k :: k in m ==> m[k] >= 1
    requires Distinct(ks) && Elements(ks) == KeySet(cleaned, PrimaryStudio)
    requires forall i :: 0 <= i < |ks| ==> ks[i] in m
    ensures var r := StudioRows(m, ks);
            && DistinctBy(r, StatStudio)
            && KeySet(r, StatStudio) == KeySet(cleaned, PrimaryStudio)
            && (forall i :: 0 <= i < |r| ==>
                  r[i].seriesCount == |Where(cleaned, PrimaryStudio, r[i].studio)| && r[i].seriesCount >= 1)
            && SumW(r, SeriesCount) == |cleaned|
  {
    var r := StudioRows(m, ks);
    StudioRowsKeys(m, ks);
    StudioRowsSum(r, cleaned, ks);
    GroupsPartition(cleaned, PrimaryStudio, ks, One);
    SumOneIsLength(cleaned);
  }

  /** `studio_stats[studio_stats['Primary_Studio'] == selected]`. */
  function SelectStudio(table: seq<StudioStat>, selected: string): (r: seq<StudioStat>)
    ensures IsSubsequence(r, table)
    ensures forall i :: 0 <= i < |r| ==> r[i].studio == selected
    ensures forall i :: 0 <= i < |table| && table[i].studio == selected ==> table[i] in r
  {
    WhereKeys(table, StatStudio, selected);
    forall i | 0 <= i < |table| && table[i].studio == selected ensures table[i] in Where(table, StatStudio, selected) {
      WhereMember(table, StatStudio, selected, table[i]);
    }
    Where(table, StatStudio, selected)
  }

  /**
   On the studio table the selection holds exactly one row when the selected
   studio is one of the table's studios, and none otherwise.
   */
  lemma SelectStudioOne(table: seq<StudioStat>, selected: string)
    requires DistinctBy(table, StatStudio)
    ensures |SelectStudio(table, selected)| == if selected in KeySet(table, StatStudio) then 1 else 0
  {
    var r := SelectStudio(table, selected);
    WhereEmpty(table, StatStudio, selected);
    if |r| >= 2 {
      DistinctByDistinct(table, StatStudio);
      DistinctSubsequence(r, table);
      WhereMember(table, StatStudio, selected, r[0]);
      WhereMember(table, StatStudio, selected, r[1]);
      assert false;
    }
  }

  /** The selection box lists the table's studios, so any choice from it shows one row. */
  lemma SelectListedStudio(cleaned: seq<Anime>, selected: string)
    requires selected in KeySet(cleaned, PrimaryStudio)
    ensures |SelectStudio(StudioTable(cleaned), selected)| == 1
  {
    SelectStudioOne(StudioTable(cleaned), selected);
  }
}
