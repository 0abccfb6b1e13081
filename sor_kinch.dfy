/** Sum of ranks over single results (`compute_sor_single`): each person's
    national ranks in the current events, a missing event counted as one
    place behind that event's last ranked person, summed. */
module SorKinch {
  import opened Tables
  import opened Ordering
  import opened Pivot

  /** One row of the table: the person, their filled rank per current event
      (in the order of the events), the sum, and the left-joined name. */
  datatype SorRow = SorRow(personId: string, ranks: seq<Cell>, sorSingle: int, name: Option<string>)

  function SorKey(s: SorRow): Key { [IntAsc(s.sorSingle)] }
  function SorPersonOf(s: SorRow): string { s.personId }

  function SorRowOf(df: seq<RankRow>, persons: Persons, events: seq<string>, pid: string): SorRow {
    var cs := PivotRow(df, pid, events, RankValue);
    SorRow(pid, cs, CellSum(cs), NameOf(persons, pid))
  }

  function SorMaker(df: seq<RankRow>, persons: Persons, events: seq<string>): string -> SorRow {
    pid => SorRowOf(df, persons, events, pid)
  }

  /** `compute_sor_single`: one row per person ranked in a current event,
      sorted by the sum of ranks, ascending. */
  function SorSingle(ranks: seq<RankRow>, persons: Persons, currentEvents: seq<string>): (t: seq<SorRow>)
    ensures Sorted(t, SorKey)
  {
    var df := Filter(ranks, InList(currentEvents));
    SortBy(MapSeq(Distinct(MapSeq(df, RankPersonOf)), SorMaker(df, persons, currentEvents)), SorKey)
  }

  /** The sum of ranks of one person: their filled ranks in `events`, summed. */
  function SorOf(ranks: seq<RankRow>, events: seq<string>, pid: string): int {
    CellSum(PivotRow(ranks, pid, events, RankValue))
  }

  /** A row is listed iff its person has a rank in some current event; its
      cells are that person's filled ranks of the whole table in the order of
      the events (ranks of other events play no part), its sum is their total
      and its name is the left-joined one. */
  lemma SorRows(ranks: seq<RankRow>, persons: Persons, currentEvents: seq<string>, s: SorRow)
    ensures s in SorSingle(ranks, persons, currentEvents) <==>
      (exists r :: r in ranks && r.eventId in currentEvents && r.personId == s.personId)
      && s.ranks == PivotRow(ranks, s.personId, currentEvents, RankValue)
      && s.sorSingle == CellSum(s.ranks) && s.sorSingle == SorOf(ranks, currentEvents, s.personId)
      && s.name == NameOf(persons, s.personId)
  {
    var df := Filter(ranks, InList(currentEvents));
    var pid := s.personId;
    PerKeyMember(df, RankPersonOf, SorMaker(df, persons, currentEvents), SorKey, s);
    PivotIgnoresOtherEvents(ranks, pid, currentEvents, RankValue);
    if exists r :: r in ranks && r.eventId in currentEvents && r.personId == pid {
      var r :| r in ranks && r.eventId in currentEvents && r.personId == pid;
      assert InList(currentEvents)(r);
      assert SorRowOf(df, persons, currentEvents, pid) == SorMaker(df, persons, currentEvents)(RankPersonOf(r));
    }
  }

  lemma SorRowCells(ranks: seq<RankRow>, persons: Persons, currentEvents: seq<string>, s: SorRow)
    requires s in SorSingle(ranks, persons, currentEvents)
    ensures s.ranks == PivotRow(ranks, s.personId, currentEvents, RankValue)
  {
    SorRows(ranks, persons, currentEvents, s);
  }

  /** No person is listed twice. */
  lemma SorOnePerPerson(ranks: seq<RankRow>, persons: Persons, currentEvents: seq<string>)
    ensures NoDuplicates(MapSeq(SorSingle(ranks, persons, currentEvents), SorPersonOf))
  {
    var df := Filter(ranks, InList(currentEvents));
    var ids := Distinct(MapSeq(df, RankPersonOf));
    var rows := MapSeq(ids, SorMaker(df, persons, currentEvents));
    var ps := MapSeq(rows, SorPersonOf);
    assert NoDuplicates(ps) by {
      forall i, j | 0 <= i < j < |ps| ensures ps[i] != ps[j] {
        assert ps[i] == ids[i] && ps[j] == ids[j];
      }
    }
    SortKeepsColumnDistinct(rows, SorKey, SorPersonOf);
  }

  /** A current event in which a listed person has no rank counts one more
      than the worst rank recorded there, so strictly behind every ranked
      person; an event in which nobody is ranked adds nothing. */
  lemma SorFillWorse(ranks: seq<RankRow>, persons: Persons, currentEvents: seq<string>, s: SorRow, k: int)
    requires s in SorSingle(ranks, persons, currentEvents)
    requires 0 <= k < |currentEvents|
    requires forall r :: r in ranks ==> !(r.personId == s.personId && r.eventId == currentEvents[k])
    ensures |s.ranks| == |currentEvents|
    ensures (exists r :: r in ranks && r.eventId == currentEvents[k]) ==>
      s.ranks[k].Num? && forall r :: r in ranks && r.eventId == currentEvents[k] ==> r.countryRank < s.ranks[k].n
    ensures (forall r :: r in ranks ==> r.eventId != currentEvents[k]) ==> s.ranks[k] == NaN
  {
    SorRowCells(ranks, persons, currentEvents, s);
    var e := currentEvents[k];
    if exists r :: r in ranks && r.eventId == e {
      FilledMissing(ranks, s.personId, e, RankValue);
    } else {
      FilledEmpty(ranks, s.personId, e, RankValue);
    }
  }

  /** Improving one of a person's own ranks in a current event by `d` places
      lowers exactly that person's sum of ranks by `d`: the cell changed is
      their own, and no other column of theirs moves. */
  lemma SorMonotone(ranks: seq<RankRow>, events: seq<string>, i: int, d: int)
    requires UniqueCells(ranks) && NoDuplicates(events)
    requires 0 <= i < |ranks| && ranks[i].eventId in events
    ensures var lowered := ranks[i := ranks[i].(countryRank := ranks[i].countryRank - d)];
      SorOf(lowered, events, ranks[i].personId) == SorOf(ranks, events, ranks[i].personId) - d
  {
    var lowered := ranks[i := ranks[i].(countryRank := ranks[i].countryRank - d)];
    var pid, e := ranks[i].personId, ranks[i].eventId;
    var a := PivotRow(ranks, pid, events, RankValue);
    var b := PivotRow(lowered, pid, events, RankValue);
    var k :| 0 <= k < |events| && events[k] == e;
    forall j | 0 <= j < |events| && j != k ensures a[j] == b[j] {
      assert events[j] != e;
      SameColumn(ranks, lowered, pid, events[j], RankValue);
    }
    assert UniqueCells(lowered) by {
      forall p | 0 <= p < |ranks| ensures lowered[p].personId == ranks[p].personId && lowered[p].eventId == ranks[p].eventId {
      }
    }
    FilledOwn(ranks, i, RankValue);
    FilledOwn(lowered, i, RankValue);
    CellSumUpdate(a, b, k);
  }
}
