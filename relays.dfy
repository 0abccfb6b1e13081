/** Relay leaderboards over national single ranks (`_compute_relay_base` and
    its five wrappers): per listed event the person's single, a missing single
    counted as one more than that event's slowest, the total of the times,
    and the best and median of the filled national ranks. */
module Relays {
  import opened Tables
  import opened Ordering
  import opened UtilsWca
  import opened Pivot

  // ---------------------------------------------------------------------
  // Row statistics
  // ---------------------------------------------------------------------

  /** The smallest value of a row; 0 for a row with no columns. */
  function MinOf(xs: seq<int>): (m: int)
    ensures xs != [] ==> m in xs && forall x :: x in xs ==> m <= x
  {
    if xs == [] then 0
    else if |xs| == 1 then xs[0]
    else
      var r := MinOf(xs[1..]);
      assert forall x :: x in xs ==> x == xs[0] || x in xs[1..];
      if xs[0] <= r then xs[0] else r
  }

  function MaxOf(xs: seq<int>): (m: int)
    ensures xs != [] ==> m in xs && forall x :: x in xs ==> x <= m
  {
    if xs == [] then 0
    else if |xs| == 1 then xs[0]
    else
      var r := MaxOf(xs[1..]);
      assert forall x :: x in xs ==> x == xs[0] || x in xs[1..];
      if xs[0] >= r then xs[0] else r
  }

  /** The median of a row: the middle value of the sorted row, or the mean of the
      two middle values when the row has an even number of columns. */
  function Median(xs: seq<int>): real {
    var t := SortBy(xs, IntKey);
    var n := |t|;
    if n == 0 then 0.0
    else if n % 2 == 1 then t[n / 2] as real
    else (t[n / 2 - 1] + t[n / 2]) as real / 2.0
  }

  /** The median lies between the minimum and the maximum of the row. */
  lemma MedianBounds(xs: seq<int>)
    requires xs != []
    ensures MinOf(xs) as real <= Median(xs) <= MaxOf(xs) as real
  {
    var t := SortBy(xs, IntKey);
    var n := |t|;
    var lo, hi := MinOf(xs), MaxOf(xs);
    InBounds(xs, t, n / 2);
    if n % 2 == 0 {
      InBounds(xs, t, n / 2 - 1);
      var a, b := t[n / 2 - 1], t[n / 2];
      assert Median(xs) == (a + b) as real / 2.0;
      assert 2 * lo <= a + b <= 2 * hi;
    } else {
      assert Median(xs) == t[n / 2] as real;
    }
  }

  /** An element of a permutation of `xs` lies between its minimum and maximum. */
  lemma InBounds(xs: seq<int>, t: seq<int>, i: int)
    requires xs != [] && multiset(t) == multiset(xs) && 0 <= i < |t|
    ensures MinOf(xs) <= t[i] <= MaxOf(xs)
  {
    assert t[i] in t;
    assert t[i] in multiset(t);
    assert t[i] in xs;
  }

  // ---------------------------------------------------------------------
  // Ranks filled with the global maximum
  // ---------------------------------------------------------------------

  /** The largest national rank in the table. */
  function GlobalRankMax(rows: seq<RankRow>): Option<int> {
    if rows == [] then None
    else
      var rest := GlobalRankMax(rows[1..]);
      if rest.Some? && rest.value >= rows[0].countryRank then rest else Some(rows[0].countryRank)
  }

  lemma {:induction false} GlobalRankMaxIs(rows: seq<RankRow>)
    ensures GlobalRankMax(rows).Some? <==> rows != []
    ensures GlobalRankMax(rows).Some? ==>
      (forall r :: r in rows ==> r.countryRank <= GlobalRankMax(rows).value)
      && exists r :: r in rows && r.countryRank == GlobalRankMax(rows).value
  {
    if rows != [] {
      GlobalRankMaxIs(rows[1..]);
      assert forall r :: r in rows ==> r == rows[0] || r in rows[1..];
    }
  }

  /** A person's rank in an event, or one more than the largest rank of any event. */
  function FilledRank(rows: seq<RankRow>, pid: string, e: string): int {
    match Lookup(rows, pid, e)
    case Some(r) => r.countryRank
    case None =>
      match GlobalRankMax(rows)
      case Some(m) => m + 1
      case None => 0
  }

  function RankFillMaker(rows: seq<RankRow>, pid: string): string -> int {
    e => FilledRank(rows, pid, e)
  }

  /** A person's filled ranks, one per listed event. */
  function RelayRanks(rows: seq<RankRow>, pid: string, events: seq<string>): (rs: seq<int>)
    ensures |rs| == |events|
    ensures forall k :: 0 <= k < |events| ==> rs[k] == FilledRank(rows, pid, events[k])
  {
    MapSeq(events, RankFillMaker(rows, pid))
  }

  /** A missing rank is one more than the largest rank over all listed events,
      not over its own event: strictly worse than every ranked cell. */
  lemma RankFillGlobal(rows: seq<RankRow>, pid: string, e: string)
    requires rows != []
    requires forall r :: r in rows ==> !(r.personId == pid && r.eventId == e)
    ensures forall r :: r in rows ==> r.countryRank < FilledRank(rows, pid, e)
    ensures exists r :: r in rows && FilledRank(rows, pid, e) == r.countryRank + 1
  {
    GlobalRankMaxIs(rows);
  }

  // ---------------------------------------------------------------------
  // The numeric table
  // ---------------------------------------------------------------------

  /** One row of a relay table. `cells` holds the time of each listed event, in
      the order of the list, followed by the total; numbers before rendering,
      text after. */
  datatype RelayRow = RelayRow(wcaId: string, name: string, cells: seq<Cell>, bestRank: int, medianRank: real)

  /** The total, the last cell. */
  function TotalOf(r: RelayRow): int {
    if |r.cells| > 0 && r.cells[|r.cells| - 1].Num? then r.cells[|r.cells| - 1].n else 0
  }

  function RelayKey(r: RelayRow): Key { [IntAsc(TotalOf(r)), RealAsc(r.medianRank)] }

  /** The rank rows whose event is one of the listed events. */
  function Listed(ranks: seq<RankRow>, events: seq<string>): seq<RankRow> {
    Filter(ranks, InList(events))
  }

  function RelayScoreOf(df: seq<RankRow>, persons: Persons, events: seq<string>, pid: string): RelayRow {
    var times := PivotRow(df, pid, events, BestValue);
    var rs := RelayRanks(df, pid, events);
    RelayRow(pid, NameIn(persons, pid), times + [Num(CellSum(times))], MinOf(rs), Median(rs))
  }

  function RelayMaker(df: seq<RankRow>, persons: Persons, events: seq<string>): string -> RelayRow {
    pid => RelayScoreOf(df, persons, events, pid)
  }

  /** The numeric leaderboard: one row per person ranked in a listed event and
      present in the persons table, sorted by total, then median rank. */
  function RelayScores(ranks: seq<RankRow>, persons: Persons, events: seq<string>): (t: seq<RelayRow>)
    ensures Sorted(t, RelayKey)
  {
    var df := Listed(ranks, events);
    SortBy(MapSeq(Filter(Distinct(MapSeq(df, RankPersonOf)), InPersons(persons)), RelayMaker(df, persons, events)), RelayKey)
  }

  lemma RelayScoresMember(ranks: seq<RankRow>, persons: Persons, events: seq<string>, x: RelayRow)
    ensures x in RelayScores(ranks, persons, events) <==>
      (exists r :: r in ranks && r.eventId in events && r.personId == x.wcaId)
      && x.wcaId in persons && x == RelayScoreOf(Listed(ranks, events), persons, events, x.wcaId)
  {
    var df := Listed(ranks, events);
    var ids := Filter(Distinct(MapSeq(df, RankPersonOf)), InPersons(persons));
    SortByMembers(MapSeq(ids, RelayMaker(df, persons, events)), RelayKey);
    MapSeqMember(ids, RelayMaker(df, persons, events), x);
    RelayIdsMember(ranks, persons, events, x.wcaId);
  }

  function RelayIdOf(r: RelayRow): string { r.wcaId }

  /** The leaderboard, numeric or rendered, has one row per person. */
  lemma RelayOnePerPerson(ranks: seq<RankRow>, persons: Persons, events: seq<string>)
    ensures NoDuplicates(MapSeq(RelayScores(ranks, persons, events), RelayIdOf))
    ensures NoDuplicates(MapSeq(RelayTable(ranks, persons, events), RelayIdOf))
  {
    var df := Listed(ranks, events);
    var ds := Distinct(MapSeq(df, RankPersonOf));
    var ids := Filter(ds, InPersons(persons));
    FilterSubMultiset(ds, InPersons(persons));
    NoDuplicatesSub(ds, ids);
    MadeColumnDistinct(ids, RelayMaker(df, persons, events), RelayKey, RelayIdOf);
    var t := RelayScores(ranks, persons, events);
    assert MapSeq(MapSeq(t, RenderRow), RelayIdOf) == MapSeq(t, RelayIdOf);
  }

  /** The people listed: ranked in a listed event and in the persons table. */
  lemma RelayIdsMember(ranks: seq<RankRow>, persons: Persons, events: seq<string>, pid: string)
    ensures pid in Filter(Distinct(MapSeq(Listed(ranks, events), RankPersonOf)), InPersons(persons)) <==>
      (exists r :: r in ranks && r.eventId in events && r.personId == pid) && pid in persons
  {
    var df := Listed(ranks, events);
    MapSeqMember(df, RankPersonOf, pid);
    if exists r :: r in ranks && r.eventId in events && r.personId == pid {
      var r :| r in ranks && r.eventId in events && r.personId == pid;
      assert InList(events)(r);
      assert r in df && pid == RankPersonOf(r);
    }
    assert InPersons(persons)(pid) == (pid in persons);
  }

  lemma RelayScoresWidth(ranks: seq<RankRow>, persons: Persons, events: seq<string>)
    ensures forall x :: x in RelayScores(ranks, persons, events) ==> |x.cells| == |events| + 1
  {
    forall x | x in RelayScores(ranks, persons, events) ensures |x.cells| == |events| + 1 {
      RelayScoresMember(ranks, persons, events, x);
    }
  }

  /** The row made for a person: the filled singles of the whole table in the
      order of the list, then their total. */
  lemma RelayScoreCells(ranks: seq<RankRow>, persons: Persons, events: seq<string>, pid: string)
    ensures var x := RelayScoreOf(Listed(ranks, events), persons, events, pid);
      && |x.cells| == |events| + 1
      && (forall k :: 0 <= k < |events| ==> x.cells[k] == Filled(ranks, pid, events[k], BestValue))
      && x.cells[|events|] == Num(CellSum(x.cells[..|events|]))
  {
    var times := PivotRow(Listed(ranks, events), pid, events, BestValue);
    PivotIgnoresOtherEvents(ranks, pid, events, BestValue);
    var cells := times + [Num(CellSum(times))];
    assert cells[..|events|] == times;
  }

  /** A listed row's times are its filled singles of the listed events, in
      the order of the list (other events take no part), and the last cell is
      their total; its name comes from the persons table. */
  lemma RelayTimes(ranks: seq<RankRow>, persons: Persons, events: seq<string>, x: RelayRow)
    requires x in RelayScores(ranks, persons, events)
    ensures x.wcaId in persons && x.name == persons[x.wcaId].name
    ensures |x.cells| == |events| + 1
    ensures forall k :: 0 <= k < |events| ==> x.cells[k] == Filled(ranks, x.wcaId, events[k], BestValue)
    ensures x.cells[|events|] == Num(CellSum(x.cells[..|events|]))
  {
    RelayScoresMember(ranks, persons, events, x);
    RelayScoreCells(ranks, persons, events, x.wcaId);
  }

  /** Best Rank is the minimum and Median Rank the median of the filled ranks,
      and the best is never behind the median. */
  lemma RelayRankStats(ranks: seq<RankRow>, persons: Persons, events: seq<string>, x: RelayRow)
    requires x in RelayScores(ranks, persons, events)
    ensures var rs := RelayRanks(Listed(ranks, events), x.wcaId, events);
      && rs != []
      && x.bestRank == MinOf(rs) && x.medianRank == Median(rs)
      && (forall k :: 0 <= k < |events| ==> x.bestRank <= rs[k])
      && x.bestRank as real <= x.medianRank <= MaxOf(rs) as real
  {
    RelayScoresMember(ranks, persons, events, x);
    var rs := RelayRanks(Listed(ranks, events), x.wcaId, events);
    var r :| r in ranks && r.eventId in events && r.personId == x.wcaId;
    assert events != [];
    MedianBounds(rs);
    forall k | 0 <= k < |events| ensures x.bestRank <= rs[k] {
      assert rs[k] in rs;
    }
  }

  // ---------------------------------------------------------------------
  // Rendering
  // ---------------------------------------------------------------------

  /** The rendered text of a cell; None where it raises (on NaN). */
  function Render(c: Cell): Option<string> {
    match c
    case Num(n) => Some(Timeconvert(n))
    case NaN => None
    case Text(_) => None
  }

  function RenderCell(c: Cell): Cell {
    match Render(c)
    case Some(s) => Text(s)
    case None => c
  }

  function RenderRow(r: RelayRow): RelayRow {
    r.(cells := MapSeq(r.cells, RenderCell))
  }

  /** Every cell of the table can be rendered. */
  predicate Renders(t: seq<RelayRow>) {
    forall i, c :: 0 <= i < |t| && 0 <= c < |t[i].cells| ==> Render(t[i].cells[c]).Some?
  }

  /** `_compute_relay_base`: the rendered leaderboard, or the empty table when
      rendering fails on a missing cell. */
  function RelayTable(ranks: seq<RankRow>, persons: Persons, events: seq<string>): seq<RelayRow> {
    var s := RelayScores(ranks, persons, events);
    if Renders(s) then MapSeq(s, RenderRow) else []
  }

  /** Column `j` of every row replaced by its rendered text. */
  function RenderColumn(t: seq<RelayRow>, j: nat): (u: seq<RelayRow>)
    requires forall i :: 0 <= i < |t| ==> j < |t[i].cells|
    ensures |u| == |t|
    ensures forall i :: 0 <= i < |t| ==> u[i] == t[i].(cells := t[i].cells[j := RenderCell(t[i].cells[j])])
  {
    seq(|t|, i requires 0 <= i < |t| => t[i].(cells := t[i].cells[j := RenderCell(t[i].cells[j])]))
  }

  /** After rendering columns `0..j` of `s` in place: those cells are rendered,
      the others untouched, and nothing else has changed. */
  ghost predicate RenderedUpTo(s: seq<RelayRow>, t: seq<RelayRow>, j: int, width: int) {
    && 0 <= j <= width
    && |t| == |s|
    && (forall i :: 0 <= i < |s| ==>
          t[i].wcaId == s[i].wcaId && t[i].name == s[i].name && t[i].bestRank == s[i].bestRank
          && t[i].medianRank == s[i].medianRank && |t[i].cells| == width && |s[i].cells| == width)
    && (forall i, c :: 0 <= i < |s| && 0 <= c < j ==>
          Render(s[i].cells[c]).Some? && t[i].cells[c] == RenderCell(s[i].cells[c]))
    && (forall i, c :: 0 <= i < |s| && j <= c < width ==> t[i].cells[c] == s[i].cells[c])
  }

  lemma RenderedStep(s: seq<RelayRow>, t: seq<RelayRow>, j: int, width: int)
    requires 0 <= j < width && RenderedUpTo(s, t, j, width)
    requires forall i :: 0 <= i < |t| ==> Render(t[i].cells[j]).Some?
    ensures RenderedUpTo(s, RenderColumn(t, j), j + 1, width)
  {
    var u := RenderColumn(t, j);
    forall i, c | 0 <= i < |s| && 0 <= c <= j
      ensures Render(s[i].cells[c]).Some? && u[i].cells[c] == RenderCell(s[i].cells[c])
    {
      if c == j {
        assert t[i].cells[j] == s[i].cells[j];
      } else {
        assert u[i].cells[c] == t[i].cells[c];
      }
    }
    forall i, c | 0 <= i < |s| && j + 1 <= c < width ensures u[i].cells[c] == s[i].cells[c] {
      assert u[i].cells[c] == t[i].cells[c];
    }
  }

  lemma RenderedDone(s: seq<RelayRow>, t: seq<RelayRow>, width: int)
    requires RenderedUpTo(s, t, width, width)
    ensures Renders(s) && t == MapSeq(s, RenderRow)
  {
    forall i | 0 <= i < |s| ensures t[i] == RenderRow(s[i]) {
      assert t[i].cells == MapSeq(s[i].cells, RenderCell);
    }
  }

  /** The rendering loop: the time columns and the total rendered one column
      at a time, in place; the first column that cannot be rendered ends it
      with the empty table. */
  method RenderColumns(s: seq<RelayRow>, width: nat) returns (t: seq<RelayRow>)
    requires forall i :: 0 <= i < |s| ==> |s[i].cells| == width
    ensures t == (if Renders(s) then MapSeq(s, RenderRow) else [])
  {
    t := s;
    for j := 0 to width
      invariant RenderedUpTo(s, t, j, width)
    {
      if exists i :: 0 <= i < |t| && Render(t[i].cells[j]).None? {
        var i :| 0 <= i < |t| && Render(t[i].cells[j]).None?;
        assert s[i].cells[j] == t[i].cells[j];
        return [];
      }
      RenderedStep(s, t, j, width);
      t := RenderColumn(t, j);
    }
    RenderedDone(s, t, width);
  }

  /** `_compute_relay_base`: the numeric table, then the rendering loop. */
  method ComputeRelayBase(ranks: seq<RankRow>, persons: Persons, eventList: seq<string>) returns (t: seq<RelayRow>)
    ensures t == RelayTable(ranks, persons, eventList)
  {
    var s := RelayScores(ranks, persons, eventList);
    RelayScoresWidth(ranks, persons, eventList);
    assert forall i :: 0 <= i < |s| ==> s[i] in s;
    t := RenderColumns(s, |eventList| + 1);
  }

  /** When some listed event has no ranked person, its whole time column is
      NaN, rendering raises, and the result is the empty table. */
  lemma RelayMissingEvent(ranks: seq<RankRow>, persons: Persons, events: seq<string>, k: int)
    requires 0 <= k < |events|
    requires forall r :: r in ranks ==> r.eventId != events[k]
    ensures RelayTable(ranks, persons, events) == []
  {
    var s := RelayScores(ranks, persons, events);
    if s != [] {
      RelayTimes(ranks, persons, events, s[0]);
      FilledEmpty(ranks, s[0].wcaId, events[k], BestValue);
      UnrenderedCell(s, 0, k);
    }
  }

  /** One cell that is not a number keeps the whole table from rendering. */
  lemma UnrenderedCell(t: seq<RelayRow>, i: int, c: int)
    requires 0 <= i < |t| && 0 <= c < |t[i].cells|
    requires t[i].cells[c] == NaN
    ensures !Renders(t)
  {
    assert Render(t[i].cells[c]).None?;
  }

  /** When every listed event has a ranked person, every time and every total
      is a number and the result is the numeric table with each of those cells
      rendered by `timeconvert`, in the same order. */
  lemma RelayRendered(ranks: seq<RankRow>, persons: Persons, events: seq<string>)
    requires forall e :: e in events ==> exists r :: r in ranks && r.eventId == e
    ensures var s := RelayScores(ranks, persons, events);
      && |RelayTable(ranks, persons, events)| == |s|
      && forall i, c :: 0 <= i < |s| && 0 <= c < |s[i].cells| ==>
        s[i].cells[c].Num?
        && RelayTable(ranks, persons, events)[i].cells[c] == Text(Timeconvert(s[i].cells[c].n))
  {
    var s := RelayScores(ranks, persons, events);
    forall i | 0 <= i < |s| ensures forall c :: 0 <= c < |s[i].cells| ==> s[i].cells[c].Num? {
      RelayCellsNumeric(ranks, persons, events, s[i]);
    }
    assert Renders(s);
  }

  lemma RelayCellsNumeric(ranks: seq<RankRow>, persons: Persons, events: seq<string>, x: RelayRow)
    requires forall e :: e in events ==> exists r :: r in ranks && r.eventId == e
    requires x in RelayScores(ranks, persons, events)
    ensures forall c :: 0 <= c < |x.cells| ==> x.cells[c].Num?
  {
    RelayTimes(ranks, persons, events, x);
    CellsNumeric(ranks, events, x.wcaId, x.cells);
  }

  lemma CellsNumeric(ranks: seq<RankRow>, events: seq<string>, pid: string, cells: seq<Cell>)
    requires forall e :: e in events ==> exists r :: r in ranks && r.eventId == e
    requires |cells| == |events| + 1 && cells[|events|].Num?
    requires forall k :: 0 <= k < |events| ==> cells[k] == Filled(ranks, pid, events[k], BestValue)
    ensures forall c :: 0 <= c < |cells| ==> cells[c].Num?
  {
    forall c | 0 <= c < |events| ensures cells[c].Num? {
      assert events[c] in events;
      FilledNum(ranks, pid, events[c], BestValue);
    }
  }

  // ---------------------------------------------------------------------
  // The five relays
  // ---------------------------------------------------------------------

  const GuilfordEvents: seq<string> :=
    ["222", "333", "444", "555", "666", "777", "clock", "minx", "pyram", "skewb", "333oh", "sq1"]
  const MiniGuilfordEvents: seq<string> :=
    ["222", "333", "444", "555", "clock", "minx", "pyram", "skewb", "333oh", "sq1"]
  const LuckyEvents: seq<string> := ["222", "pyram", "skewb"]
  const BlindEvents: seq<string> := ["333bf", "444bf", "555bf"]
  const MasterEvents: seq<string> := ["333", "333oh", "333bf"]

  /** Guilford has twelve events, the mini Guilford ten of them, the three
      small relays three each; no list repeats an event. */
  lemma RelayEventLists()
    ensures |GuilfordEvents| == 12 && NoDuplicates(GuilfordEvents)
    ensures |MiniGuilfordEvents| == 10 && NoDuplicates(MiniGuilfordEvents)
    ensures forall e :: e in MiniGuilfordEvents ==> e in GuilfordEvents
    ensures |LuckyEvents| == 3 && NoDuplicates(LuckyEvents)
    ensures |BlindEvents| == 3 && NoDuplicates(BlindEvents)
    ensures |MasterEvents| == 3 && NoDuplicates(MasterEvents)
  {
  }

  method OfficialGuilford(ranks: seq<RankRow>, persons: Persons) returns (t: seq<RelayRow>)
    ensures t == RelayTable(ranks, persons, GuilfordEvents)
  {
    t := ComputeRelayBase(ranks, persons, GuilfordEvents);
  }

  method OfficialMiniGuilford(ranks: seq<RankRow>, persons: Persons) returns (t: seq<RelayRow>)
    ensures t == RelayTable(ranks, persons, MiniGuilfordEvents)
  {
    t := ComputeRelayBase(ranks, persons, MiniGuilfordEvents);
  }

  method OfficialLuckyRelay(ranks: seq<RankRow>, persons: Persons) returns (t: seq<RelayRow>)
    ensures t == RelayTable(ranks, persons, LuckyEvents)
  {
    t := ComputeRelayBase(ranks, persons, LuckyEvents);
  }

  method OfficialBlindRelay(ranks: seq<RankRow>, persons: Persons) returns (t: seq<RelayRow>)
    ensures t == RelayTable(ranks, persons, BlindEvents)
  {
    t := ComputeRelayBase(ranks, persons, BlindEvents);
  }

  method MasterRelay(ranks: seq<RankRow>, persons: Persons) returns (t: seq<RelayRow>)
    ensures t == RelayTable(ranks, persons, MasterEvents)
  {
    t := ComputeRelayBase(ranks, persons, MasterEvents);
  }
}
