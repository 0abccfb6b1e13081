/** The pivot of a national ranks table that the relay and sum-of-ranks
    statistics share: one row per person and one column per event, restricted
    and ordered to a list of events, with the missing cells of a
    column filled with that column's maximum plus one. */
module Pivot {
  import opened Tables

  /** A cell of a pivoted or rendered table: a number, a missing value (NaN) or text. */
  datatype Cell = Num(n: int) | NaN | Text(s: string)

  function RankPersonOf(r: RankRow): string { r.personId }
  function BestValue(r: RankRow): int { r.best }
  function RankValue(r: RankRow): int { r.countryRank }

  /** The row predicate "a rank row of one of the listed events". */
  function InList(events: seq<string>): RankRow -> bool {
    (r: RankRow) => r.eventId in events
  }

  /** At most one rank row per person and event, as a national ranks table has. */
  predicate UniqueCells(rows: seq<RankRow>) {
    forall i, j :: 0 <= i < j < |rows| ==>
      !(rows[i].personId == rows[j].personId && rows[i].eventId == rows[j].eventId)
  }

  /** The rank row of a person in an event: the pivot's cell source. */
  function Lookup(rows: seq<RankRow>, pid: string, e: string): (o: Option<RankRow>)
    ensures o.Some? ==> o.value in rows && o.value.personId == pid && o.value.eventId == e
    ensures o.None? ==> forall r :: r in rows ==> !(r.personId == pid && r.eventId == e)
  {
    if rows == [] then None
    else if rows[0].personId == pid && rows[0].eventId == e then Some(rows[0])
    else Lookup(rows[1..], pid, e)
  }

  /** With one row per person and event, the cell is that row. */
  lemma {:induction false} LookupUnique(rows: seq<RankRow>, i: int)
    requires UniqueCells(rows) && 0 <= i < |rows|
    ensures Lookup(rows, rows[i].personId, rows[i].eventId) == Some(rows[i])
  {
    if i > 0 {
      assert UniqueCells(rows[1..]) by {
        forall a, b | 0 <= a < b < |rows[1..]|
          ensures !(rows[1..][a].personId == rows[1..][b].personId && rows[1..][a].eventId == rows[1..][b].eventId)
        {
          assert rows[1..][a] == rows[a + 1] && rows[1..][b] == rows[b + 1];
        }
      }
      LookupUnique(rows[1..], i - 1);
      assert rows[1..][i - 1] == rows[i];
    }
  }

  /** The largest value of event `e`'s column; None when the column is all NaN. */
  function ColumnMax(rows: seq<RankRow>, e: string, value: RankRow -> int): Option<int> {
    if rows == [] then None
    else
      var rest := ColumnMax(rows[1..], e, value);
      if rows[0].eventId != e then rest
      else if rest.Some? && rest.value >= value(rows[0]) then rest
      else Some(value(rows[0]))
  }

  lemma {:induction false} ColumnMaxIs(rows: seq<RankRow>, e: string, value: RankRow -> int)
    ensures ColumnMax(rows, e, value).None? <==> forall r :: r in rows ==> r.eventId != e
    ensures ColumnMax(rows, e, value).Some? ==>
      (forall r :: r in rows && r.eventId == e ==> value(r) <= ColumnMax(rows, e, value).value)
      && exists r :: r in rows && r.eventId == e && value(r) == ColumnMax(rows, e, value).value
  {
    if rows != [] {
      ColumnMaxIs(rows[1..], e, value);
      assert forall r :: r in rows ==> r == rows[0] || r in rows[1..];
    }
  }

  /** The filled cell of person `pid` in event `e`: their own value, else the
      column maximum plus one, else (an empty column) NaN. */
  function Filled(rows: seq<RankRow>, pid: string, e: string, value: RankRow -> int): Cell {
    match Lookup(rows, pid, e)
    case Some(r) => Num(value(r))
    case None =>
      match ColumnMax(rows, e, value)
      case Some(m) => Num(m + 1)
      case None => NaN
  }

  function FillMaker(rows: seq<RankRow>, pid: string, value: RankRow -> int): string -> Cell {
    e => Filled(rows, pid, e, value)
  }

  /** One pivoted and filled row, with the columns in the order of `events`. */
  function PivotRow(rows: seq<RankRow>, pid: string, events: seq<string>, value: RankRow -> int): (cs: seq<Cell>)
    ensures |cs| == |events|
    ensures forall k :: 0 <= k < |events| ==> cs[k] == Filled(rows, pid, events[k], value)
  {
    MapSeq(events, FillMaker(rows, pid, value))
  }

  /** A person's own cell is their own value. */
  lemma FilledOwn(rows: seq<RankRow>, i: int, value: RankRow -> int)
    requires UniqueCells(rows) && 0 <= i < |rows|
    ensures Filled(rows, rows[i].personId, rows[i].eventId, value) == Num(value(rows[i]))
  {
    LookupUnique(rows, i);
  }

  /** A missing cell is strictly worse than every recorded value of its column. */
  lemma FilledMissing(rows: seq<RankRow>, pid: string, e: string, value: RankRow -> int)
    requires forall r :: r in rows ==> !(r.personId == pid && r.eventId == e)
    requires exists r :: r in rows && r.eventId == e
    ensures Filled(rows, pid, e, value).Num?
    ensures forall r :: r in rows && r.eventId == e ==> value(r) < Filled(rows, pid, e, value).n
  {
    ColumnMaxIs(rows, e, value);
  }

  /** A column that someone has is a number for everybody. */
  lemma FilledNum(rows: seq<RankRow>, pid: string, e: string, value: RankRow -> int)
    requires exists r :: r in rows && r.eventId == e
    ensures Filled(rows, pid, e, value).Num?
  {
    ColumnMaxIs(rows, e, value);
  }

  /** A column that no one has stays NaN. */
  lemma FilledEmpty(rows: seq<RankRow>, pid: string, e: string, value: RankRow -> int)
    requires forall r :: r in rows ==> r.eventId != e
    ensures Filled(rows, pid, e, value) == NaN
  {
    ColumnMaxIs(rows, e, value);
  }

  /** Two tables that agree on every row of event `e` have the same column `e`. */
  lemma {:induction false} SameColumn(a: seq<RankRow>, b: seq<RankRow>, pid: string, e: string, value: RankRow -> int)
    requires |a| == |b|
    requires forall i :: 0 <= i < |a| && (a[i].eventId == e || b[i].eventId == e) ==> a[i] == b[i]
    ensures Lookup(a, pid, e) == Lookup(b, pid, e)
    ensures ColumnMax(a, e, value) == ColumnMax(b, e, value)
    ensures Filled(a, pid, e, value) == Filled(b, pid, e, value)
  {
    if a != [] {
      SameColumn(a[1..], b[1..], pid, e, value);
    }
  }

  /** Filtering the table to the listed events does not change a listed column. */
  lemma FilterKeepsColumn(rows: seq<RankRow>, events: seq<string>, pid: string, e: string, value: RankRow -> int)
    requires e in events
    ensures Lookup(Filter(rows, InList(events)), pid, e) == Lookup(rows, pid, e)
    ensures ColumnMax(Filter(rows, InList(events)), e, value) == ColumnMax(rows, e, value)
    ensures Filled(Filter(rows, InList(events)), pid, e, value) == Filled(rows, pid, e, value)
  {
    FilterKeepsLookup(rows, events, pid, e);
    FilterKeepsMax(rows, events, e, value);
  }

  lemma {:induction false} FilterKeepsLookup(rows: seq<RankRow>, events: seq<string>, pid: string, e: string)
    requires e in events
    ensures Lookup(Filter(rows, InList(events)), pid, e) == Lookup(rows, pid, e)
  {
    if rows != [] {
      FilterKeepsLookup(rows[1..], events, pid, e);
      if rows[0].eventId == e {
        assert InList(events)(rows[0]);
      }
    }
  }

  lemma {:induction false} FilterKeepsMax(rows: seq<RankRow>, events: seq<string>, e: string, value: RankRow -> int)
    requires e in events
    ensures ColumnMax(Filter(rows, InList(events)), e, value) == ColumnMax(rows, e, value)
  {
    if rows != [] {
      FilterKeepsMax(rows[1..], events, e, value);
      if rows[0].eventId == e {
        assert InList(events)(rows[0]);
      }
    }
  }

  /** The pivoted row of a person does not depend on other events' rows. */
  lemma PivotIgnoresOtherEvents(rows: seq<RankRow>, pid: string, events: seq<string>, value: RankRow -> int)
    ensures PivotRow(Filter(rows, InList(events)), pid, events, value) == PivotRow(rows, pid, events, value)
  {
    var a := PivotRow(Filter(rows, InList(events)), pid, events, value);
    var b := PivotRow(rows, pid, events, value);
    forall k | 0 <= k < |events| ensures a[k] == b[k] {
      FilterKeepsColumn(rows, events, pid, events[k], value);
    }
  }

  /** The row total: the sum of the numeric cells, missing cells skipped. */
  function CellSum(cs: seq<Cell>): int {
    if cs == [] then 0
    else (if cs[0].Num? then cs[0].n else 0) + CellSum(cs[1..])
  }

  /** Changing one numeric cell changes the total by the same amount. */
  lemma {:induction false} CellSumUpdate(a: seq<Cell>, b: seq<Cell>, k: int)
    requires |a| == |b| && 0 <= k < |a|
    requires a[k].Num? && b[k].Num?
    requires forall i :: 0 <= i < |a| && i != k ==> a[i] == b[i]
    ensures CellSum(b) == CellSum(a) - a[k].n + b[k].n
  {
    if k == 0 {
      assert a[1..] == b[1..];
    } else {
      CellSumUpdate(a[1..], b[1..], k - 1);
    }
  }
}
