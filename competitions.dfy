/** The two "top ten" tables over the competitions table: the most frequent
    competition names and the countries hosting the most competitions, each
    the ten most frequent values of one column. */
module Competitions {
  import opened Tables
  import opened Ordering

  /** One row of a value count: a distinct value and how often it occurs. */
  datatype CountRow = CountRow(value: string, count: nat)

  function CompetitionName(c: Competition): string { c.name }
  function CompetitionCountry(c: Competition): string { c.countryId }
  function ValueOf(r: CountRow): string { r.value }

  function CountKeyDesc(r: CountRow): Key { [IntDesc(r.count)] }

  function CountRowOf(comps: seq<Competition>, key: Competition -> string, v: string): CountRow {
    CountRow(v, CountKey(comps, key, v))
  }

  function CountMaker(comps: seq<Competition>, key: Competition -> string): string -> CountRow {
    v => CountRowOf(comps, key, v)
  }

  /** Every distinct value with its frequency, most frequent first. */
  function AllCounts(comps: seq<Competition>, key: Competition -> string): (all: seq<CountRow>)
    ensures Sorted(all, CountKeyDesc)
  {
    SortBy(MapSeq(Distinct(MapSeq(comps, key)), CountMaker(comps, key)), CountKeyDesc)
  }

  /** The ten most frequent values of a column: the first ten rows of `AllCounts`. */
  function ValueCounts(comps: seq<Competition>, key: Competition -> string): (t: seq<CountRow>)
    ensures |t| <= 10
    ensures Sorted(t, CountKeyDesc)
  {
    var all := AllCounts(comps, key);
    if |all| <= 10 then all else all[..10]
  }

  /** `most_competitions`: the ten most frequent competition names. */
  function MostCompetitions(comps: seq<Competition>): (t: seq<CountRow>)
    ensures |t| <= 10
    ensures Sorted(t, CountKeyDesc)
  {
    ValueCounts(comps, CompetitionName)
  }

  /** `most_countries`: the ten countries with the most competitions. */
  function MostCountries(comps: seq<Competition>): (t: seq<CountRow>)
    ensures |t| <= 10
    ensures Sorted(t, CountKeyDesc)
  {
    ValueCounts(comps, CompetitionCountry)
  }

  /** Along a table sorted by count, the counts never increase. */
  lemma {:induction false} CountsNonIncreasing(s: seq<CountRow>, i: int, j: int)
    requires Sorted(s, CountKeyDesc)
    requires 0 <= i <= j < |s|
    ensures s[i].count >= s[j].count
    decreases j - i
  {
    if i < j {
      CountsNonIncreasing(s, i, j - 1);
      IntDescLe(s[j - 1].count, s[j].count);
    }
  }

  /** The rows of `AllCounts` are exactly the distinct values with their frequencies. */
  lemma AllCountsMember(comps: seq<Competition>, key: Competition -> string, x: CountRow)
    ensures x in AllCounts(comps, key) <==>
      (exists c :: c in comps && key(c) == x.value) && x.count == CountKey(comps, key, x.value)
  {
    PerKeyMember(comps, key, CountMaker(comps, key), CountKeyDesc, x);
    if exists c :: c in comps && key(c) == x.value {
      var c :| c in comps && key(c) == x.value;
      if x.count == CountKey(comps, key, x.value) {
        assert x == CountMaker(comps, key)(key(c));
      }
    }
  }

  lemma AllCountsDistinct(comps: seq<Competition>, key: Competition -> string)
    ensures NoDuplicates(MapSeq(AllCounts(comps, key), ValueOf))
  {
    var ds := Distinct(MapSeq(comps, key));
    var rows := MapSeq(ds, CountMaker(comps, key));
    var all := AllCounts(comps, key);
    assert NoDuplicates(rows) by {
      forall i, j | 0 <= i < j < |rows| ensures rows[i] != rows[j] {
        assert rows[i].value == ds[i] && rows[j].value == ds[j];
      }
    }
    NoDuplicatesSub(rows, all);
    var vs := MapSeq(all, ValueOf);
    forall i, j | 0 <= i < j < |vs| ensures vs[i] != vs[j] {
      AllCountsMember(comps, key, all[i]);
      AllCountsMember(comps, key, all[j]);
    }
  }

  /** Each listed row is a value of the column with its frequency (so at least one),
      no value is listed twice, and the counts never increase down the table. */
  lemma ValueCountsRows(comps: seq<Competition>, key: Competition -> string)
    ensures var t := ValueCounts(comps, key);
      && (forall x :: x in t ==>
            (exists c :: c in comps && key(c) == x.value)
            && x.count == CountKey(comps, key, x.value) && x.count >= 1)
      && NoDuplicates(MapSeq(t, ValueOf))
      && (forall i, j :: 0 <= i <= j < |t| ==> t[i].count >= t[j].count)
  {
    var all := AllCounts(comps, key);
    var t := ValueCounts(comps, key);
    assert forall x :: x in t ==> x in all;
    forall x | x in t
      ensures (exists c :: c in comps && key(c) == x.value)
        && x.count == CountKey(comps, key, x.value) && x.count >= 1
    {
      AllCountsMember(comps, key, x);
      var c :| c in comps && key(c) == x.value;
      assert KeyIs(key, x.value)(c);
    }
    AllCountsDistinct(comps, key);
    var va := MapSeq(all, ValueOf);
    var vt := MapSeq(t, ValueOf);
    forall i, j | 0 <= i < j < |vt| ensures vt[i] != vt[j] {
      assert vt[i] == va[i] && vt[j] == va[j];
    }
    forall i, j | 0 <= i <= j < |t| ensures t[i].count >= t[j].count {
      CountsNonIncreasing(t, i, j);
    }
  }

  /** The head is a true top ten: a value of the column that is not listed
      only happens when ten rows are shown, and it occurs no more often than
      any of them. */
  lemma ValueCountsTop(comps: seq<Competition>, key: Competition -> string, v: string)
    requires exists c :: c in comps && key(c) == v
    requires v !in MapSeq(ValueCounts(comps, key), ValueOf)
    ensures |ValueCounts(comps, key)| == 10
    ensures forall x :: x in ValueCounts(comps, key) ==> x.count >= CountKey(comps, key, v)
  {
    var all := AllCounts(comps, key);
    var t := ValueCounts(comps, key);
    var row := CountRowOf(comps, key, v);
    AllCountsMember(comps, key, row);
    var k :| 0 <= k < |all| && all[k] == row;
    if k < 10 {
      assert false;
    }
    forall x | x in t ensures x.count >= CountKey(comps, key, v) {
      var i :| 0 <= i < |t| && t[i] == x;
      assert all[i] == x;
      CountsNonIncreasing(all, i, k);
    }
  }
}
