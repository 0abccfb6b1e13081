/** Current national single records (`compute_national_records_single`): the
    rank rows at national rank one in a current event, left-joined with the
    nationality's results on (person, event, best) to find where and when
    each record was set. */
module Records {
  import opened Tables

  /** One row of the records table; `result` is the record itself (the
      renamed `best`), and competition and date are empty when no result
      matches. */
  datatype RecordRow = RecordRow(
    personId: string,
    name: string,
    eventId: string,
    recordType: string,
    result: int,
    competitionId: Option<string>,
    date: Option<int>)

  /** A national record (country rank one) in one of the current events. */
  function IsCandidate(events: seq<string>): RankRow -> bool {
    (c: RankRow) => c.countryRank == 1 && c.eventId in events
  }

  /** The results in one of the current events. */
  function ResultIn(events: seq<string>): Result -> bool {
    (r: Result) => r.eventId in events
  }

  /** The join key: the same person, event and best. */
  function Matches(c: RankRow): Result -> bool {
    (r: Result) => r.personId == c.personId && r.eventId == c.eventId && r.best == c.best
  }

  function JoinedRow(c: RankRow, r: Result): RecordRow {
    RecordRow(c.personId, c.name, c.eventId, "single", c.best, Some(r.competitionId), Some(r.date))
  }

  function JoinMaker(c: RankRow): Result -> RecordRow {
    (r: Result) => JoinedRow(c, r)
  }

  function UnmatchedRow(c: RankRow): RecordRow {
    RecordRow(c.personId, c.name, c.eventId, "single", c.best, None, None)
  }

  /** The rows a left join makes of one candidate: one per matching result,
      in the order of the results, or a single row with empty competition
      and date. */
  function RowsOf(results: seq<Result>, c: RankRow): (rows: seq<RecordRow>)
    ensures forall x :: x in rows ==> x.recordType == "single" && x.personId == c.personId && x.result == c.best
  {
    var m := Filter(results, Matches(c));
    if m == [] then [UnmatchedRow(c)] else MapSeq(m, JoinMaker(c))
  }

  /** Left join on the candidates: the rows of every candidate, in candidate order. */
  function LeftJoin(cands: seq<RankRow>, results: seq<Result>): (t: seq<RecordRow>)
    ensures |t| >= |cands|
    ensures forall x :: x in t ==> x.recordType == "single"
  {
    if cands == [] then [] else RowsOf(results, cands[0]) + LeftJoin(cands[1..], results)
  }

  /** The joined table, before formatting: every row is of type "single". */
  function RecordRows(ranksSingle: seq<RankRow>, resultsNationality: seq<Result>, currentEvents: seq<string>): (t: seq<RecordRow>)
    ensures forall x :: x in t ==> x.recordType == "single"
    ensures |t| >= Count(ranksSingle, IsCandidate(currentEvents))
  {
    LeftJoin(Filter(ranksSingle, IsCandidate(currentEvents)), Filter(resultsNationality, ResultIn(currentEvents)))
  }

  /** The rows of one candidate are its joined rows with the matching
      results, or its single unmatched row when nothing matches. */
  lemma RowsOfMember(results: seq<Result>, c: RankRow, x: RecordRow)
    ensures x in RowsOf(results, c) <==>
      (exists r :: r in results && Matches(c)(r) && x == JoinedRow(c, r))
      || ((forall r :: r in results ==> !Matches(c)(r)) && x == UnmatchedRow(c))
  {
    var m := Filter(results, Matches(c));
    MapSeqMember(m, JoinMaker(c), x);
    if m == [] {
      assert forall r :: r in results ==> !Matches(c)(r);
    } else {
      assert m[0] in results && Matches(c)(m[0]);
    }
  }

  lemma {:induction false} LeftJoinMember(cands: seq<RankRow>, results: seq<Result>, x: RecordRow)
    ensures x in LeftJoin(cands, results) <==> exists c :: c in cands && x in RowsOf(results, c)
  {
    if cands != [] {
      LeftJoinMember(cands[1..], results, x);
      assert forall c :: c in cands <==> c == cands[0] || c in cands[1..];
    }
  }

  /** How many rows the left join makes of one candidate. */
  function RowCount(results: seq<Result>): RankRow -> int {
    (c: RankRow) => Max(1, Count(results, Matches(c)))
  }

  lemma {:induction false} LeftJoinLength(cands: seq<RankRow>, results: seq<Result>)
    ensures |LeftJoin(cands, results)| == SumOf(cands, RowCount(results))
  {
    if cands != [] {
      LeftJoinLength(cands[1..], results);
    }
  }

  /** Nothing is lost: the table has, per candidate, one row per result with
      its person, event and best, and one row when there is none. */
  lemma RecordRowsLength(ranksSingle: seq<RankRow>, resultsNationality: seq<Result>, currentEvents: seq<string>)
    ensures |RecordRows(ranksSingle, resultsNationality, currentEvents)| ==
      SumOf(Filter(ranksSingle, IsCandidate(currentEvents)), RowCount(Filter(resultsNationality, ResultIn(currentEvents))))
  {
    LeftJoinLength(Filter(ranksSingle, IsCandidate(currentEvents)), Filter(resultsNationality, ResultIn(currentEvents)));
  }

  /** With no candidate the table is empty, and only then. */
  lemma RecordRowsEmpty(ranksSingle: seq<RankRow>, resultsNationality: seq<Result>, currentEvents: seq<string>)
    ensures RecordRows(ranksSingle, resultsNationality, currentEvents) == [] <==>
      forall c :: c in ranksSingle ==> !(c.countryRank == 1 && c.eventId in currentEvents)
  {
    var cands := Filter(ranksSingle, IsCandidate(currentEvents));
    if cands != [] {
      assert cands[0] in ranksSingle && IsCandidate(currentEvents)(cands[0]);
    }
  }

  /** Every row comes from a candidate: its person, name, event and result are
      the candidate's; a row with a competition comes from a current-event
      result of that person with that best at that competition and date, and a
      row without one has no date and belongs to a candidate no result matches. */
  lemma RecordRowSource(ranksSingle: seq<RankRow>, resultsNationality: seq<Result>, currentEvents: seq<string>, x: RecordRow)
    requires x in RecordRows(ranksSingle, resultsNationality, currentEvents)
    ensures exists c :: (c in ranksSingle && c.countryRank == 1 && c.eventId in currentEvents
      && x.personId == c.personId && x.name == c.name && x.eventId == c.eventId
      && x.result == c.best && x.recordType == "single")
    ensures x.competitionId.Some? ==> (x.date.Some? &&
      exists r :: (r in resultsNationality && r.personId == x.personId && r.eventId == x.eventId
        && r.best == x.result && x.competitionId == Some(r.competitionId) && x.date == Some(r.date)))
    ensures x.competitionId.None? ==> (x.date.None? &&
      forall r :: r in resultsNationality ==> !(r.personId == x.personId && r.eventId == x.eventId && r.best == x.result))
  {
    var res := Filter(resultsNationality, ResultIn(currentEvents));
    LeftJoinMember(Filter(ranksSingle, IsCandidate(currentEvents)), res, x);
    var c :| c in Filter(ranksSingle, IsCandidate(currentEvents)) && x in RowsOf(res, c);
    RowsOfMember(res, c, x);
  }

  /** Every candidate is kept: each matching result gives a row with its
      competition and date, and a candidate no result matches gives one row
      with both empty. */
  lemma CandidateKept(ranksSingle: seq<RankRow>, resultsNationality: seq<Result>, currentEvents: seq<string>, c: RankRow)
    requires c in ranksSingle && c.countryRank == 1 && c.eventId in currentEvents
    ensures forall r :: r in resultsNationality && Matches(c)(r) ==>
      JoinedRow(c, r) in RecordRows(ranksSingle, resultsNationality, currentEvents)
    ensures (forall r :: r in resultsNationality ==> !Matches(c)(r)) ==>
      UnmatchedRow(c) in RecordRows(ranksSingle, resultsNationality, currentEvents)
  {
    var cands := Filter(ranksSingle, IsCandidate(currentEvents));
    var res := Filter(resultsNationality, ResultIn(currentEvents));
    assert IsCandidate(currentEvents)(c);
    forall r | r in resultsNationality && Matches(c)(r)
      ensures JoinedRow(c, r) in RecordRows(ranksSingle, resultsNationality, currentEvents)
    {
      assert ResultIn(currentEvents)(r);
      RowsOfMember(res, c, JoinedRow(c, r));
      LeftJoinMember(cands, res, JoinedRow(c, r));
    }
    if forall r :: r in resultsNationality ==> !Matches(c)(r) {
      RowsOfMember(res, c, UnmatchedRow(c));
      LeftJoinMember(cands, res, UnmatchedRow(c));
    }
  }

  // ---------------------------------------------------------------------
  // The function as written, and as intended
  // ---------------------------------------------------------------------

  /** The function as written: an empty join returns the empty table; any
      other table reaches the formatting step, whose `uw.multiresult` does not
      exist in the utilities module, and the exception handler returns nothing
      (None) without storing the table. */
  function NationalRecordsAsWritten(ranksSingle: seq<RankRow>, resultsNationality: seq<Result>, currentEvents: seq<string>): (o: Option<seq<RecordRow>>)
    ensures o.Some? ==> o.value == []
  {
    if RecordRows(ranksSingle, resultsNationality, currentEvents) == [] then Some([]) else None
  }

  /** As written, the function never produces a record: as soon as there is
      one national record holder in a current event it returns nothing. */
  lemma AsWrittenLosesRecords(ranksSingle: seq<RankRow>, resultsNationality: seq<Result>, currentEvents: seq<string>, c: RankRow)
    requires c in ranksSingle && c.countryRank == 1 && c.eventId in currentEvents
    ensures NationalRecordsAsWritten(ranksSingle, resultsNationality, currentEvents) == None
  {
    RecordRowsEmpty(ranksSingle, resultsNationality, currentEvents);
  }

  /** A concrete input: one 3x3x3 record holder, and no result. */
  lemma AsWrittenCounterexample()
    ensures NationalRecordsAsWritten([RankRow("2010ROSS01", "Ross", "333", 900, 1)], [], ["333"]) == None
    ensures NationalRecordsSingle([RankRow("2010ROSS01", "Ross", "333", 900, 1)], [], ["333"]) ==
      [RecordRow("2010ROSS01", "Ross", "333", "single", 900, None, None)]
  {
    var c := RankRow("2010ROSS01", "Ross", "333", 900, 1);
    AsWrittenLosesRecords([c], [], ["333"], c);
    assert Filter([c], IsCandidate(["333"])) == [c];
  }

  /** The function as intended: the joined table with its type column, the
      result kept as the raw integer. */
  function NationalRecordsSingle(ranksSingle: seq<RankRow>, resultsNationality: seq<Result>, currentEvents: seq<string>): (t: seq<RecordRow>)
    ensures (t == []) == (NationalRecordsAsWritten(ranksSingle, resultsNationality, currentEvents) == Some([]))
    ensures forall x :: x in t ==> x.recordType == "single"
  {
    RecordRows(ranksSingle, resultsNationality, currentEvents)
  }
}
