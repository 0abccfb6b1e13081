/** The national-championship statistics: winners, medal table, streaks, albo
    d'oro, international podiums, final appearances, championships competed,
    title retention and sweeps. Each is a query over a results view; the
    configured national championships are the competition ids `nats`. */
module Championships {
  import opened Tables
  import opened Ordering
  import UtilsWca

  // ---------------------------------------------------------------------
  // Shared filters and keys
  // ---------------------------------------------------------------------

  /** A final or combined final at a national championship with a valid single. */
  predicate IsNatsFinal(r: Result, nats: seq<string>) {
    r.competitionId in nats && IsFinal(r) && r.best > 0
  }

  /** The same, by a competitor of the configured nationality. */
  predicate IsNationalFinalist(r: Result, nats: seq<string>, nationality: string) {
    IsNatsFinal(r, nats) && r.personCountryId == nationality
  }

  /** `if event:` — an event filter applies only when an event is given and non-empty. */
  predicate EventGiven(event: Option<string>) {
    event.Some? && event.value != ""
  }

  function CompEvent(r: Result): (string, string) { (r.competitionId, r.eventId) }
  function YearOf(r: Result): int { r.year }
  function YearKey(r: Result): Key { [IntAsc(r.year)] }

  /** National finalists, restricted to `event` when one is given: the filter
      shared by the medal table and the streaks. */
  function FinalistSlice(results: seq<Result>, nats: seq<string>, nationality: string, event: Option<string>): (s: seq<Result>)
    ensures forall r :: r in s <==>
      r in results && IsNationalFinalist(r, nats, nationality) && (EventGiven(event) ==> r.eventId == event.value)
  {
    var finals := Filter(results, (r: Result) => IsNationalFinalist(r, nats, nationality));
    if EventGiven(event) then Filter(finals, (r: Result) => r.eventId == event.value) else finals
  }

  // ---------------------------------------------------------------------
  // National winners
  // ---------------------------------------------------------------------

  datatype WinnerRow = WinnerRow(year: int, competitionId: string, event: string, wcaId: string, winner: string)

  function WinnerRowOf(r: Result): WinnerRow {
    WinnerRow(r.year, r.competitionId, r.eventId, r.personId, r.personName)
  }

  function WinnerKey(w: WinnerRow): Key { [IntAsc(w.year), StrAsc(w.event)] }

  /** `x` has the smallest pos of its (competition, event) among `rows`. */
  predicate IsBestOfGroup(x: Result, rows: seq<Result>) {
    forall y :: y in rows && CompEvent(y) == CompEvent(x) ==> x.pos <= y.pos
  }

  /** The rows at the minimum pos of their (competition, event): the group
      minimum merged back on (competition, event, pos), so ties all stay. */
  function TiedWinners(rows: seq<Result>): seq<Result> {
    Filter(rows, (x: Result) => MinRank(x, rows, CompEvent) == 1)
  }

  lemma TiedWinnersIff(rows: seq<Result>, x: Result)
    ensures x in TiedWinners(rows) <==> x in rows && IsBestOfGroup(x, rows)
  {
    if x in rows {
      MinRankOne(x, rows, CompEvent);
    }
  }

  /** The national winners table, before the optional event filter. */
  function ChampionshipWinners(resultsCountry: seq<Result>, nats: seq<string>, nationality: string): (t: seq<WinnerRow>)
    ensures Sorted(t, WinnerKey)
  {
    SortBy(MapSeq(TiedWinners(FinalistSlice(resultsCountry, nats, nationality, None)), WinnerRowOf), WinnerKey)
  }

  /** A national finalist is listed iff no national finalist of the same
      (competition, event) has a smaller pos; every tied row is listed. */
  lemma {:induction false} WinnersIff(resultsCountry: seq<Result>, nats: seq<string>, nationality: string, w: WinnerRow)
    ensures w in ChampionshipWinners(resultsCountry, nats, nationality) <==>
      exists x :: x in resultsCountry && IsNationalFinalist(x, nats, nationality) && WinnerRowOf(x) == w &&
        forall y :: y in resultsCountry && IsNationalFinalist(y, nats, nationality) && CompEvent(y) == CompEvent(x) ==> x.pos <= y.pos
  {
    var slice := FinalistSlice(resultsCountry, nats, nationality, None);
    var tied := TiedWinners(slice);
    SortByMembers(MapSeq(tied, WinnerRowOf), WinnerKey);
    MapSeqMember(tied, WinnerRowOf, w);
    if w in ChampionshipWinners(resultsCountry, nats, nationality) {
      var x :| x in tied && w == WinnerRowOf(x);
      TiedWinnersIff(slice, x);
    }
    if exists x :: x in resultsCountry && IsNationalFinalist(x, nats, nationality) && WinnerRowOf(x) == w &&
        forall y :: y in resultsCountry && IsNationalFinalist(y, nats, nationality) && CompEvent(y) == CompEvent(x) ==> x.pos <= y.pos {
      var x :| x in resultsCountry && IsNationalFinalist(x, nats, nationality) && WinnerRowOf(x) == w &&
        forall y :: y in resultsCountry && IsNationalFinalist(y, nats, nationality) && CompEvent(y) == CompEvent(x) ==> x.pos <= y.pos;
      TiedWinnersIff(slice, x);
    }
  }

  /** The optional event filter applied to the winners table. */
  function WinnersOfEvent(t: seq<WinnerRow>, event: Option<string>): (r: seq<WinnerRow>)
    ensures forall w :: w in r <==> w in t && (EventGiven(event) ==> w.event == event.value)
    ensures !EventGiven(event) ==> r == t
  {
    if EventGiven(event) then Filter(t, (w: WinnerRow) => w.event == event.value) else t
  }

  // ---------------------------------------------------------------------
  // Medal table
  // ---------------------------------------------------------------------

  datatype MedalRow = MedalRow(wcaId: string, name: Option<string>, gold: nat, silver: nat, bronze: nat, podiums: nat)

  function MedalKey(m: MedalRow): Key { [IntDesc(m.gold), IntDesc(m.silver), IntDesc(m.bronze)] }

  /** `nr_rank`: the "min" rank of `x.pos` within its (competition, event) in `solve`. */
  function NrRank(x: Result, solve: seq<Result>): nat {
    MinRank(x, solve, CompEvent)
  }

  /** The row predicate "a row of `pid` ranked `place`". */
  function AtPlace(solve: seq<Result>, pid: string, place: nat): Result -> bool {
    (r: Result) => r.personId == pid && NrRank(r, solve) == place
  }

  /** The row predicate "a row of `pid` ranked within `lo..3`". */
  function PlacesFrom(solve: seq<Result>, pid: string, lo: nat): Result -> bool {
    (r: Result) => r.personId == pid && lo <= NrRank(r, solve) <= 3
  }

  function MedalRowOf(solve: seq<Result>, persons: Persons, pid: string): MedalRow {
    MedalRow(pid, NameOf(persons, pid),
      Count(solve, AtPlace(solve, pid, 1)), Count(solve, AtPlace(solve, pid, 2)),
      Count(solve, AtPlace(solve, pid, 3)), Count(solve, PlacesFrom(solve, pid, 1)))
  }

  /** Medal table of national championship finals among nationals, optionally
      for one event; empty when no row passes the filter. */
  function MedalTable(resultsNationality: seq<Result>, persons: Persons, nats: seq<string>, nationality: string, event: Option<string>): (t: seq<MedalRow>)
    ensures Sorted(t, MedalKey)
    ensures FinalistSlice(resultsNationality, nats, nationality, event) == [] ==> t == []
  {
    var solve := FinalistSlice(resultsNationality, nats, nationality, event);
    SortBy(MapSeq(Distinct(MapSeq(solve, PersonIdOf)), (pid: string) => MedalRowOf(solve, persons, pid)), MedalKey)
  }

  function MedalIdOf(m: MedalRow): string { m.wcaId }

  /** A row is in the medal table exactly when its person has a row in the
      slice and it holds that person's medal counts. */
  lemma MedalTableRows(resultsNationality: seq<Result>, persons: Persons, nats: seq<string>, nationality: string, event: Option<string>, m: MedalRow)
    ensures var solve := FinalistSlice(resultsNationality, nats, nationality, event);
      m in MedalTable(resultsNationality, persons, nats, nationality, event) <==>
        (exists r :: r in solve && r.personId == m.wcaId) && m == MedalRowOf(solve, persons, m.wcaId)
  {
    var solve := FinalistSlice(resultsNationality, nats, nationality, event);
    PerKeyRows(solve, PersonIdOf, (pid: string) => MedalRowOf(solve, persons, pid), MedalKey, MedalIdOf, m);
  }

  /** The medal table has one row per person. */
  lemma MedalOnePerPerson(resultsNationality: seq<Result>, persons: Persons, nats: seq<string>, nationality: string, event: Option<string>)
    ensures NoDuplicates(MapSeq(MedalTable(resultsNationality, persons, nats, nationality, event), MedalIdOf))
  {
    var solve := FinalistSlice(resultsNationality, nats, nationality, event);
    MadeColumnDistinct(Distinct(MapSeq(solve, PersonIdOf)), (pid: string) => MedalRowOf(solve, persons, pid), MedalKey, MedalIdOf);
  }

  /** Each medal is one rank, so a person's podiums are gold + silver + bronze. */
  lemma {:induction false} PodiumsAreMedals(solve: seq<Result>, persons: Persons, pid: string)
    ensures var m := MedalRowOf(solve, persons, pid); m.podiums == m.gold + m.silver + m.bronze
  {
    CountDisjointUnion(solve, PlacesFrom(solve, pid, 1), AtPlace(solve, pid, 1), PlacesFrom(solve, pid, 2));
    CountDisjointUnion(solve, PlacesFrom(solve, pid, 2), AtPlace(solve, pid, 2), AtPlace(solve, pid, 3));
  }

  /** The podiums of the medal table add up, and never exceed the person's rows. */
  lemma MedalTablePodiums(resultsNationality: seq<Result>, persons: Persons, nats: seq<string>, nationality: string, event: Option<string>, m: MedalRow)
    requires m in MedalTable(resultsNationality, persons, nats, nationality, event)
    ensures m.podiums == m.gold + m.silver + m.bronze
    ensures m.podiums <= CountKey(FinalistSlice(resultsNationality, nats, nationality, event), PersonIdOf, m.wcaId)
  {
    var solve := FinalistSlice(resultsNationality, nats, nationality, event);
    MedalTableRows(resultsNationality, persons, nats, nationality, event, m);
    PodiumsAreMedals(solve, persons, m.wcaId);
    CountMono(solve, PlacesFrom(solve, m.wcaId, 1), KeyIs(PersonIdOf, m.wcaId));
  }

  /** A gold medal is a row at the minimum pos among the nationals of its
      (competition, event) in the slice. */
  lemma GoldIsGroupBest(solve: seq<Result>, pid: string, x: Result)
    requires x in solve
    ensures AtPlace(solve, pid, 1)(x) <==> x.personId == pid && IsBestOfGroup(x, solve)
  {
    MinRankOne(x, solve, CompEvent);
  }

  // ---------------------------------------------------------------------
  // Streaks
  // ---------------------------------------------------------------------

  datatype StreakRow = StreakRow(eventId: string, personId: string, personName: string, consecutiveWins: nat)

  function StreakKey(s: StreakRow): Key { [IntDesc(s.consecutiveWins), StrAsc(s.eventId)] }

  /** `streak_id` along the winners `w` of one event in year order: the running
      count of rows whose winner differs from the previous row's winner. */
  function StreakIds(w: seq<Result>): (ids: seq<nat>)
    ensures |ids| == |w|
    ensures |w| > 0 ==> ids[0] == 1
    ensures forall i :: 0 < i < |w| ==> ids[i] == ids[i - 1] + (if w[i].personId != w[i - 1].personId then 1 else 0)
    decreases |w|
  {
    if w == [] then []
    else if |w| == 1 then [1]
    else
      var p := StreakIds(w[..|w| - 1]);
      p + [p[|w| - 2] + (if w[|w| - 1].personId != w[|w| - 2].personId then 1 else 0)]
  }

  lemma {:induction false} StreakIdsMono(w: seq<Result>, i: int, j: int)
    requires 0 <= i <= j < |w|
    ensures StreakIds(w)[i] <= StreakIds(w)[j]
    decreases j - i
  {
    if i < j {
      StreakIdsMono(w, i, j - 1);
    }
  }

  /** A streak restarts whenever the winner changes: two winners share a streak
      id iff every winner from the first to the second is the same person. */
  lemma {:induction false} SameStreakIff(w: seq<Result>, i: int, j: int)
    requires 0 <= i <= j < |w|
    ensures StreakIds(w)[i] == StreakIds(w)[j] <==> forall k :: i <= k <= j ==> w[k].personId == w[i].personId
    decreases j - i
  {
    if i < j {
      SameStreakIff(w, i, j - 1);
      StreakIdsMono(w, i, j - 1);
      var ids := StreakIds(w);
      if ids[i] == ids[j] {
        forall k | i <= k <= j ensures w[k].personId == w[i].personId {
          if k == j {
            assert w[j - 1].personId == w[i].personId;
          }
        }
      }
    }
  }

  /** The index predicate "row `k` of `w` is won by (pid, name)". */
  function WonBy(w: seq<Result>, pid: string, name: string): int -> bool {
    (k: int) => 0 <= k < |w| && w[k].personId == pid && w[k].personName == name
  }

  /** The index predicate "row `k` of `w` is won by (pid, name) in streak `sid`". */
  function InStreak(w: seq<Result>, ids: seq<nat>, pid: string, name: string, sid: nat): int -> bool {
    (k: int) => 0 <= k < |w| && k < |ids| && w[k].personId == pid && w[k].personName == name && ids[k] == sid
  }

  /** Size of the group (pid, name, streak `sid`). */
  function RunLength(w: seq<Result>, ids: seq<nat>, pid: string, name: string, sid: nat): nat {
    Count(Indices(|w|), InStreak(w, ids, pid, name, sid))
  }

  /** The largest run of (pid, name) over the streaks of the indices `ks`. */
  function LongestFrom(w: seq<Result>, ids: seq<nat>, pid: string, name: string, ks: seq<int>): nat
    requires |ids| == |w|
  {
    if ks == [] then 0
    else
      var here := if WonBy(w, pid, name)(ks[0]) then RunLength(w, ids, pid, name, ids[ks[0]]) else 0;
      Max(here, LongestFrom(w, ids, pid, name, ks[1..]))
  }

  lemma {:induction false} LongestFromBounds(w: seq<Result>, ids: seq<nat>, pid: string, name: string, ks: seq<int>)
    requires |ids| == |w|
    ensures forall k :: k in ks && WonBy(w, pid, name)(k) ==> RunLength(w, ids, pid, name, ids[k]) <= LongestFrom(w, ids, pid, name, ks)
    ensures LongestFrom(w, ids, pid, name, ks) == 0 ||
      exists k :: k in ks && WonBy(w, pid, name)(k) && LongestFrom(w, ids, pid, name, ks) == RunLength(w, ids, pid, name, ids[k])
  {
    if ks != [] {
      LongestFromBounds(w, ids, pid, name, ks[1..]);
    }
  }

  /** Every winning row lies in a run of at least one row. */
  lemma RunLengthPositive(w: seq<Result>, ids: seq<nat>, pid: string, name: string, k: int)
    requires |ids| == |w|
    requires WonBy(w, pid, name)(k)
    ensures RunLength(w, ids, pid, name, ids[k]) >= 1
  {
    assert Indices(|w|)[k] == k;
    assert k in Filter(Indices(|w|), InStreak(w, ids, pid, name, ids[k]));
  }

  /** Winners of event `e` among `champs`, in year order. */
  function EventWinners(champs: seq<Result>, e: string): (w: seq<Result>)
    ensures Sorted(w, YearKey)
    ensures forall r :: r in w <==> r in champs && r.eventId == e
  {
    SortByMembers(Filter(champs, (r: Result) => r.eventId == e), YearKey);
    SortBy(Filter(champs, (r: Result) => r.eventId == e), YearKey)
  }

  function PersonAndName(r: Result): (string, string) { (r.personId, r.personName) }

  function StreakRowOf(w: seq<Result>, e: string, who: (string, string)): StreakRow {
    StreakRow(e, who.0, who.1, LongestFrom(w, StreakIds(w), who.0, who.1, Indices(|w|)))
  }

  function EventStreaks(champs: seq<Result>, e: string): seq<StreakRow> {
    var w := EventWinners(champs, e);
    MapSeq(Distinct(MapSeq(w, PersonAndName)), (who: (string, string)) => StreakRowOf(w, e, who))
  }

  /** Longest winning streak per (event, person) at the national championships,
      one winner per (competition, event). */
  function Streaks(resultsNationality: seq<Result>, nats: seq<string>, nationality: string, event: Option<string>): (t: seq<StreakRow>)
    ensures Sorted(t, StreakKey)
    ensures FinalistSlice(resultsNationality, nats, nationality, event) == [] ==> t == []
  {
    var champs := PickWinners(FinalistSlice(resultsNationality, nats, nationality, event), CompEvent);
    SortBy(Flatten(MapSeq(Distinct(MapSeq(champs, EventIdOf)), (e: string) => EventStreaks(champs, e))), StreakKey)
  }

  /** The streak property of a table row, in terms of the winners `w` of its event. */
  ghost predicate IsLongestRun(w: seq<Result>, s: StreakRow) {
    var ids := StreakIds(w);
    && s.consecutiveWins >= 1
    && (exists k :: WonBy(w, s.personId, s.personName)(k) && s.consecutiveWins == RunLength(w, ids, s.personId, s.personName, ids[k]))
    && (forall k :: WonBy(w, s.personId, s.personName)(k) ==> RunLength(w, ids, s.personId, s.personName, ids[k]) <= s.consecutiveWins)
  }

  /** The row made for a winner of `w` holds their longest run. */
  lemma StreakRowIsLongestRun(w: seq<Result>, e: string, k: int)
    requires 0 <= k < |w|
    ensures IsLongestRun(w, StreakRowOf(w, e, PersonAndName(w[k])))
  {
    var ids := StreakIds(w);
    var who := PersonAndName(w[k]);
    assert Indices(|w|)[k] == k;
    LongestFromBounds(w, ids, who.0, who.1, Indices(|w|));
    RunLengthPositive(w, ids, who.0, who.1, k);
    forall j | WonBy(w, who.0, who.1)(j) ensures j in Indices(|w|) {
      assert Indices(|w|)[j] == j;
    }
  }

  lemma EventStreakIsLongestRun(champs: seq<Result>, e: string, s: StreakRow)
    requires s in EventStreaks(champs, e)
    ensures s.eventId == e && IsLongestRun(EventWinners(champs, e), s)
  {
    var w := EventWinners(champs, e);
    var f := (who: (string, string)) => StreakRowOf(w, e, who);
    MapSeqMember(Distinct(MapSeq(w, PersonAndName)), f, s);
    var who :| who in Distinct(MapSeq(w, PersonAndName)) && s == f(who);
    var k :| 0 <= k < |w| && MapSeq(w, PersonAndName)[k] == who;
    StreakRowIsLongestRun(w, e, k);
  }

  function StreakIdOf(s: StreakRow): (string, string, string) { (s.eventId, s.personId, s.personName) }

  /** The streak rows of event `e` are the rows made for its winners. */
  lemma EventStreakRows(champs: seq<Result>, e: string, s: StreakRow)
    ensures s in EventStreaks(champs, e) <==>
      exists r :: r in champs && r.eventId == e && s == StreakRowOf(EventWinners(champs, e), e, PersonAndName(r))
  {
    var w := EventWinners(champs, e);
    var whos := Distinct(MapSeq(w, PersonAndName));
    var f := (who: (string, string)) => StreakRowOf(w, e, who);
    MapSeqMember(whos, f, s);
    if s in EventStreaks(champs, e) {
      var who :| who in whos && s == f(who);
      MapSeqMember(w, PersonAndName, who);
    }
    if exists r :: r in champs && r.eventId == e && s == StreakRowOf(w, e, PersonAndName(r)) {
      var r :| r in champs && r.eventId == e && s == StreakRowOf(w, e, PersonAndName(r));
      MapSeqMember(w, PersonAndName, PersonAndName(r));
    }
  }

  /** The streak rows of one event carry distinct (person, name) pairs. */
  lemma EventStreaksDistinct(champs: seq<Result>, e: string)
    ensures NoDuplicates(MapSeq(EventStreaks(champs, e), StreakIdOf))
  {
  }

  /** The made row of winner `r`, for `r`'s event. */
  function WinnerStreak(champs: seq<Result>, r: Result): StreakRow {
    StreakRowOf(EventWinners(champs, r.eventId), r.eventId, PersonAndName(r))
  }

  /** The per-event streak rows of `champs`, flattened, are the made rows of its winners. */
  lemma WinnerStreakRows(champs: seq<Result>, s: StreakRow)
    ensures s in Flatten(MapSeq(Distinct(MapSeq(champs, EventIdOf)), (e: string) => EventStreaks(champs, e))) <==>
      exists r :: r in champs && s == WinnerStreak(champs, r)
  {
    var tableOf := (e: string) => EventStreaks(champs, e);
    FlattenPerKey(champs, EventIdOf, tableOf, s);
    if exists r :: r in champs && s in tableOf(EventIdOf(r)) {
      var r :| r in champs && s in tableOf(EventIdOf(r));
      EventStreakRows(champs, r.eventId, s);
      var x :| x in champs && x.eventId == r.eventId && s == StreakRowOf(EventWinners(champs, r.eventId), r.eventId, PersonAndName(x));
      assert s == WinnerStreak(champs, x);
    }
    if exists r :: r in champs && s == WinnerStreak(champs, r) {
      var r :| r in champs && s == WinnerStreak(champs, r);
      EventStreakRows(champs, r.eventId, s);
      assert s in tableOf(EventIdOf(r));
    }
  }

  /** A row is in the streak table exactly when it is the row made for a
      winner of some (competition, event) group, for that winner's event. */
  lemma StreakRows(resultsNationality: seq<Result>, nats: seq<string>, nationality: string, event: Option<string>, s: StreakRow)
    ensures var champs := PickWinners(FinalistSlice(resultsNationality, nats, nationality, event), CompEvent);
      s in Streaks(resultsNationality, nats, nationality, event) <==>
        exists r :: r in champs && s == WinnerStreak(champs, r)
  {
    var champs := PickWinners(FinalistSlice(resultsNationality, nats, nationality, event), CompEvent);
    SortByMembers(Flatten(MapSeq(Distinct(MapSeq(champs, EventIdOf)), (e: string) => EventStreaks(champs, e))), StreakKey);
    WinnerStreakRows(champs, s);
  }

  /** The streak table has one row per (event, person, name). */
  lemma StreaksOnePerWinner(resultsNationality: seq<Result>, nats: seq<string>, nationality: string, event: Option<string>)
    ensures NoDuplicates(MapSeq(Streaks(resultsNationality, nats, nationality, event), StreakIdOf))
  {
    var champs := PickWinners(FinalistSlice(resultsNationality, nats, nationality, event), CompEvent);
    var events := Distinct(MapSeq(champs, EventIdOf));
    var tables := MapSeq(events, (e: string) => EventStreaks(champs, e));
    forall i | 0 <= i < |tables| ensures NoDuplicates(MapSeq(tables[i], StreakIdOf)) {
      EventStreaksDistinct(champs, events[i]);
    }
    forall i, j, x, y | 0 <= i < j < |tables| && x in tables[i] && y in tables[j] ensures StreakIdOf(x) != StreakIdOf(y) {
      EventStreakRows(champs, events[i], x);
      EventStreakRows(champs, events[j], y);
    }
    FlattenColumnDistinct(tables, StreakIdOf);
    SortKeepsColumnDistinct(Flatten(tables), StreakKey, StreakIdOf);
  }

  /** A reported streak is the longest run of its person among the event's
      winners in year order: some run has that length, no run is longer, and
      it is at least one. */
  lemma StreakIsLongestRun(resultsNationality: seq<Result>, nats: seq<string>, nationality: string, event: Option<string>, s: StreakRow)
    requires s in Streaks(resultsNationality, nats, nationality, event)
    ensures var champs := PickWinners(FinalistSlice(resultsNationality, nats, nationality, event), CompEvent);
      IsLongestRun(EventWinners(champs, s.eventId), s)
  {
    var champs := PickWinners(FinalistSlice(resultsNationality, nats, nationality, event), CompEvent);
    var events := Distinct(MapSeq(champs, EventIdOf));
    var tables := MapSeq(events, (e: string) => EventStreaks(champs, e));
    SortByMembers(Flatten(tables), StreakKey);
    FlattenMember(tables, s);
    var i :| 0 <= i < |tables| && s in tables[i];
    EventStreakIsLongestRun(champs, events[i], s);
  }

  // ---------------------------------------------------------------------
  // Albo d'oro
  // ---------------------------------------------------------------------

  datatype AlboRow = AlboRow(wcaId: string, name: Option<string>, wins: nat, years: string)

  function AlboKey(a: AlboRow): Key { [IntDesc(a.wins)] }
  function WinsOf(a: AlboRow): int { a.wins }

  /** Finals of `event` at the national championships with a valid single, of
      any nationality. */
  function AlboSlice(results: seq<Result>, nats: seq<string>, event: string): (s: seq<Result>)
    ensures forall r :: r in s <==> r in results && IsNatsFinal(r, nats) && r.eventId == event
  {
    Filter(results, (r: Result) => IsNatsFinal(r, nats) && r.eventId == event)
  }

  /** The distinct years of `pid`'s wins among `champs`, ascending. */
  function WinYears(champs: seq<Result>, pid: string): seq<int> {
    SortBy(Distinct(MapSeq(Filter(champs, KeyIs(PersonIdOf, pid)), YearOf)), IntKey)
  }

  lemma WinYearsAscending(champs: seq<Result>, pid: string)
    ensures var ys := WinYears(champs, pid); forall i :: 0 < i < |ys| ==> ys[i - 1] < ys[i]
  {
    var ds := Distinct(MapSeq(Filter(champs, KeyIs(PersonIdOf, pid)), YearOf));
    SortDistinctAscending(ds);
    assert WinYears(champs, pid) == SortBy(ds, IntKey);
  }

  lemma WinYearsMembers(champs: seq<Result>, pid: string, y: int)
    ensures y in WinYears(champs, pid) <==> exists r :: r in champs && r.personId == pid && r.year == y
  {
    var wins := Filter(champs, KeyIs(PersonIdOf, pid));
    var ds := Distinct(MapSeq(wins, YearOf));
    SortByMembers(ds, IntKey);
    assert y in WinYears(champs, pid) <==> y in MapSeq(wins, YearOf);
    MapSeqMember(wins, YearOf, y);
    if y in MapSeq(wins, YearOf) {
      var r :| r in wins && y == YearOf(r);
      assert r in champs && r.personId == pid;
    }
    if exists r :: r in champs && r.personId == pid && r.year == y {
      var r :| r in champs && r.personId == pid && r.year == y;
      assert PersonIdOf(r) == pid;
      assert KeyIs(PersonIdOf, pid)(r);
      assert r in wins;
    }
  }

  function AlboRowOf(champs: seq<Result>, persons: Persons, pid: string): AlboRow {
    AlboRow(pid, NameOf(persons, pid), CountKey(champs, PersonIdOf, pid),
      JoinWith(MapSeq(WinYears(champs, pid), UtilsWca.IntToString), ", "))
  }

  /** Roll of honour for `event`: the winner of each (competition, event) and
      how often and in which years each person won. */
  function AlboDOro(results: seq<Result>, persons: Persons, nats: seq<string>, event: string): (t: seq<AlboRow>)
    ensures Sorted(t, AlboKey)
    ensures AlboSlice(results, nats, event) == [] ==> t == []
  {
    var champs := PickWinners(AlboSlice(results, nats, event), CompEvent);
    SortBy(MapSeq(Distinct(MapSeq(champs, PersonIdOf)), (pid: string) => AlboRowOf(champs, persons, pid)), AlboKey)
  }

  /** Every (competition, event) group has exactly one winner, so the wins of
      the table add up to the number of groups. */
  lemma AlboWinsSum(results: seq<Result>, persons: Persons, nats: seq<string>, event: string)
    ensures SumOf(AlboDOro(results, persons, nats, event), WinsOf) == |Distinct(MapSeq(AlboSlice(results, nats, event), CompEvent))|
  {
    var champs := PickWinners(AlboSlice(results, nats, event), CompEvent);
    var pids := Distinct(MapSeq(champs, PersonIdOf));
    var g := (pid: string) => AlboRowOf(champs, persons, pid);
    SumOfSortBy(MapSeq(pids, g), AlboKey, WinsOf);
    SumOfCounts(pids, g, WinsOf, champs, PersonIdOf);
    forall x | x in champs ensures PersonIdOf(x) in pids {
      MapSeqMember(champs, PersonIdOf, PersonIdOf(x));
    }
    SumCountsAll(champs, PersonIdOf, pids);
  }

  function AlboIdOf(a: AlboRow): string { a.wcaId }

  /** A row is in the roll of honour exactly when its person won some
      (competition, event) group and it holds that person's wins and years;
      every listed person has at least one win. */
  lemma AlboRowWins(results: seq<Result>, persons: Persons, nats: seq<string>, event: string, a: AlboRow)
    ensures var champs := PickWinners(AlboSlice(results, nats, event), CompEvent);
      a in AlboDOro(results, persons, nats, event) <==>
        (exists r :: r in champs && r.personId == a.wcaId) && a == AlboRowOf(champs, persons, a.wcaId)
    ensures a in AlboDOro(results, persons, nats, event) ==> a.wins >= 1
  {
    var champs := PickWinners(AlboSlice(results, nats, event), CompEvent);
    PerKeyRows(champs, PersonIdOf, (pid: string) => AlboRowOf(champs, persons, pid), AlboKey, AlboIdOf, a);
    if a in AlboDOro(results, persons, nats, event) {
      var r :| r in champs && r.personId == a.wcaId;
      assert r in Filter(champs, KeyIs(PersonIdOf, a.wcaId));
    }
  }

  /** The roll of honour has one row per person. */
  lemma AlboOnePerPerson(results: seq<Result>, persons: Persons, nats: seq<string>, event: string)
    ensures NoDuplicates(MapSeq(AlboDOro(results, persons, nats, event), AlboIdOf))
  {
    var champs := PickWinners(AlboSlice(results, nats, event), CompEvent);
    MadeColumnDistinct(Distinct(MapSeq(champs, PersonIdOf)), (pid: string) => AlboRowOf(champs, persons, pid), AlboKey, AlboIdOf);
  }

  // ---------------------------------------------------------------------
  // International podiums
  // ---------------------------------------------------------------------

  datatype PodiumRow = PodiumRow(
    year: string, championshipType: string, competitionId: string,
    eventId: string, pos: int, personId: string, personName: string)

  function PodiumKey(p: PodiumRow): Key {
    [StrAsc(p.year), StrAsc(p.championshipType), StrAsc(p.eventId), IntAsc(p.pos)]
  }

  /** The championship types processed, in order. */
  const ChampionshipTypes: seq<string> := ["world", "_Europe"]

  function CountryIdOf(c: Country): string { c.id }

  /** Competition ids of the championships of type `ctype`. */
  function TypeCompIds(championships: seq<Championship>, ctype: string): seq<string> {
    MapSeq(Filter(championships, (c: Championship) => c.championshipType == ctype), CompetitionIdOf)
  }

  /** Finals with a valid single at one of the competitions `compIds`. */
  function IntlFinals(results: seq<Result>, compIds: seq<string>): (s: seq<Result>)
    ensures forall r :: r in s <==> r in results && r.competitionId in compIds && IsFinal(r) && r.best > 0
  {
    Filter(results, (r: Result) => r.competitionId in compIds && IsFinal(r) && r.best > 0)
  }

  function EuropeanIds(countries: seq<Country>): seq<string> {
    MapSeq(Filter(countries, (c: Country) => c.continentId == "_Europe"), CountryIdOf)
  }

  /** `str[-4:]`: the last four characters, or the whole id when shorter. */
  function PodiumYear(competitionId: string): (y: string)
    ensures |y| == if |competitionId| >= 4 then 4 else |competitionId|
    ensures competitionId == competitionId[..|competitionId| - |y|] + y
  {
    if |competitionId| >= 4 then competitionId[|competitionId| - 4..] else competitionId
  }

  function PodiumRowOf(r: Result, ctype: string, pos: int): PodiumRow {
    PodiumRow(PodiumYear(r.competitionId), ctype, r.competitionId, r.eventId, pos, r.personId, r.personName)
  }

  /** World podium: a national among the top three overall. */
  function WorldPodiums(subset: seq<Result>, nationality: string): seq<PodiumRow> {
    MapSeq(Filter(subset, (r: Result) => r.personCountryId == nationality && r.pos <= 3),
      (r: Result) => PodiumRowOf(r, "world", r.pos))
  }

  /** The row predicate "a competitor of one of `countries`". */
  function FromCountries(countries: seq<string>): Result -> bool {
    (r: Result) => r.personCountryId in countries
  }

  /** European podium: the competitors of European countries re-ranked per
      (competition, event) by "min" rank; a national in the top three, reported
      at that rank. */
  function EuropeanPodiums(subset: seq<Result>, european: seq<string>, nationality: string): seq<PodiumRow> {
    var eu := Filter(subset, FromCountries(european));
    MapSeq(Filter(eu, EuropeanTopThree(eu, nationality)), EuropeanRowMaker(eu))
  }

  /** A national at "min" rank three or better among the European rows `eu`. */
  function EuropeanTopThree(eu: seq<Result>, nationality: string): Result -> bool {
    (r: Result) => MinRank(r, eu, CompEvent) <= 3 && r.personCountryId == nationality
  }

  function EuropeanRowMaker(eu: seq<Result>): Result -> PodiumRow {
    (r: Result) => PodiumRowOf(r, "_Europe", MinRank(r, eu, CompEvent))
  }

  /** The European competitors placed before `x` in its competition and event. */
  function BetterEuropean(european: seq<string>, x: Result): Result -> bool {
    (y: Result) => y.personCountryId in european && CompEvent(y) == CompEvent(x) && y.pos < x.pos
  }

  /** The podiums of one championship type. */
  function TypePodiums(results: seq<Result>, championships: seq<Championship>, countries: seq<Country>, nationality: string, ctype: string): seq<PodiumRow> {
    var subset := IntlFinals(results, TypeCompIds(championships, ctype));
    if ctype == "world" then WorldPodiums(subset, nationality)
    else EuropeanPodiums(subset, EuropeanIds(countries), nationality)
  }

  /** The podiums of the first `k` championship types, in order. */
  function PodiumsUpTo(results: seq<Result>, championships: seq<Championship>, countries: seq<Country>, nationality: string, k: nat): seq<PodiumRow>
    requires k <= |ChampionshipTypes|
  {
    if k == 0 then []
    else
      PodiumsUpTo(results, championships, countries, nationality, k - 1) +
      TypePodiums(results, championships, countries, nationality, ChampionshipTypes[k - 1])
  }

  /** World and European championship podiums of nationals, by year, type,
      event and position. */
  method InternationalPodiums(results: seq<Result>, championships: seq<Championship>, countries: seq<Country>, nationality: string)
    returns (podiums: seq<PodiumRow>)
    ensures Sorted(podiums, PodiumKey)
    ensures multiset(podiums) == multiset(PodiumsUpTo(results, championships, countries, nationality, |ChampionshipTypes|))
  {
    var intl := Filter(championships, (c: Championship) => c.championshipType in ChampionshipTypes);
    if intl == [] {
      NoChampionshipsNoPodiums(results, championships, countries, nationality, intl);
      return [];
    }
    var european := EuropeanIds(countries);
    var found: seq<PodiumRow> := [];
    for k := 0 to |ChampionshipTypes|
      invariant found == PodiumsUpTo(results, championships, countries, nationality, k)
    {
      var ctype := ChampionshipTypes[k];
      var subset := IntlFinals(results, TypeCompIds(championships, ctype));
      if subset != [] {
        var typePodiums := if ctype == "world" then WorldPodiums(subset, nationality)
          else EuropeanPodiums(subset, european, nationality);
        if typePodiums != [] {
          found := found + typePodiums;
        }
      }
    }
    if found == [] {
      return [];
    }
    podiums := SortBy(found, PodiumKey);
  }

  lemma NoChampionshipsNoPodiums(results: seq<Result>, championships: seq<Championship>, countries: seq<Country>, nationality: string, intl: seq<Championship>)
    requires intl == Filter(championships, (c: Championship) => c.championshipType in ChampionshipTypes)
    requires intl == []
    ensures PodiumsUpTo(results, championships, countries, nationality, |ChampionshipTypes|) == []
  {
    assert forall ctype :: ctype in ChampionshipTypes ==>
      TypePodiums(results, championships, countries, nationality, ctype) == [];
    assert ChampionshipTypes[0] in ChampionshipTypes && ChampionshipTypes[1] in ChampionshipTypes;
    assert PodiumsUpTo(results, championships, countries, nationality, 1) == [];
  }

  /** A world podium is a final with a valid single at a world championship, by
      a national placed at most third; its reported pos is the pos. */
  lemma WorldPodiumIff(results: seq<Result>, championships: seq<Championship>, countries: seq<Country>, nationality: string, p: PodiumRow)
    ensures p in TypePodiums(results, championships, countries, nationality, "world") <==>
      exists r :: r in IntlFinals(results, TypeCompIds(championships, "world")) &&
        r.personCountryId == nationality && r.pos <= 3 && p == PodiumRowOf(r, "world", r.pos)
  {
    var subset := IntlFinals(results, TypeCompIds(championships, "world"));
    MapSeqMember(Filter(subset, (r: Result) => r.personCountryId == nationality && r.pos <= 3),
      (r: Result) => PodiumRowOf(r, "world", r.pos), p);
  }

  /** The European rank counts only European competitors of the same
      (competition, event) who placed better. */
  lemma EuropeanRank(subset: seq<Result>, european: seq<string>, x: Result)
    ensures var eu := Filter(subset, FromCountries(european));
      MinRank(x, eu, CompEvent) == 1 + Count(subset, BetterEuropean(european, x))
  {
    var eu := Filter(subset, FromCountries(european));
    var sameGroup := (y: Result) => y.personCountryId in european && CompEvent(y) == CompEvent(x);
    CountFilter(subset, FromCountries(european), KeyIs(CompEvent, CompEvent(x)), sameGroup);
    CountFilter(eu, KeyIs(CompEvent, CompEvent(x)), PosBelow(x),
      (y: Result) => CompEvent(y) == CompEvent(x) && y.pos < x.pos);
    CountFilter(subset, FromCountries(european), (y: Result) => CompEvent(y) == CompEvent(x) && y.pos < x.pos,
      BetterEuropean(european, x));
  }

  /** A European podium is a national of a European country with fewer than
      three better-placed European competitors; its reported pos is that
      European rank. */
  lemma EuropeanPodiumIff(subset: seq<Result>, european: seq<string>, nationality: string, p: PodiumRow)
    ensures p in EuropeanPodiums(subset, european, nationality) <==>
      exists r :: r in subset && IsEuropeanPodium(subset, european, nationality, r, p)
  {
    if p in EuropeanPodiums(subset, european, nationality) {
      EuropeanPodiumSound(subset, european, nationality, p);
    }
    if exists r :: r in subset && IsEuropeanPodium(subset, european, nationality, r, p) {
      var r :| r in subset && IsEuropeanPodium(subset, european, nationality, r, p);
      EuropeanPodiumComplete(subset, european, nationality, r, p);
    }
  }

  /** `p` is the European podium of row `r`: `r` is a national of a European
      country with fewer than three better-placed European competitors, and
      `p` reports that rank. */
  predicate IsEuropeanPodium(subset: seq<Result>, european: seq<string>, nationality: string, r: Result, p: PodiumRow) {
    && r.personCountryId == nationality && nationality in european
    && 1 + Count(subset, BetterEuropean(european, r)) <= 3
    && p == PodiumRowOf(r, "_Europe", 1 + Count(subset, BetterEuropean(european, r)))
  }

  lemma EuropeanPodiumSound(subset: seq<Result>, european: seq<string>, nationality: string, p: PodiumRow)
    requires p in EuropeanPodiums(subset, european, nationality)
    ensures exists r :: r in subset && IsEuropeanPodium(subset, european, nationality, r, p)
  {
    var eu := Filter(subset, FromCountries(european));
    var kept := Filter(eu, EuropeanTopThree(eu, nationality));
    MapSeqMember(kept, EuropeanRowMaker(eu), p);
    var r :| r in kept && p == EuropeanRowMaker(eu)(r);
    EuropeanRank(subset, european, r);
    assert IsEuropeanPodium(subset, european, nationality, r, p);
  }

  lemma EuropeanPodiumComplete(subset: seq<Result>, european: seq<string>, nationality: string, r: Result, p: PodiumRow)
    requires r in subset && IsEuropeanPodium(subset, european, nationality, r, p)
    ensures p in EuropeanPodiums(subset, european, nationality)
  {
    var eu := Filter(subset, FromCountries(european));
    var kept := Filter(eu, EuropeanTopThree(eu, nationality));
    EuropeanRank(subset, european, r);
    assert FromCountries(european)(r);
    assert r in kept;
    MapSeqMember(kept, EuropeanRowMaker(eu), p);
  }

  // ---------------------------------------------------------------------
  // Final appearances, championships competed, major final appearances
  // ---------------------------------------------------------------------

  datatype AppearanceRow = AppearanceRow(wcaId: string, name: Option<string>, count: nat)

  function AppearanceKey(a: AppearanceRow): Key { [IntDesc(a.count)] }
  function CountOf(a: AppearanceRow): int { a.count }

  /** One row per person of `rows`, with the number of that person's rows. */
  function RowsPerPerson(rows: seq<Result>, persons: Persons): (t: seq<AppearanceRow>)
    ensures Sorted(t, AppearanceKey)
    ensures rows == [] ==> t == []
  {
    SortBy(MapSeq(Distinct(MapSeq(rows, PersonIdOf)),
      (pid: string) => AppearanceRow(pid, NameOf(persons, pid), CountKey(rows, PersonIdOf, pid))), AppearanceKey)
  }

  /** A person is listed iff they have a row, and then with the number of their rows. */
  lemma RowsPerPersonMembers(rows: seq<Result>, persons: Persons, a: AppearanceRow)
    ensures a in RowsPerPerson(rows, persons) <==>
      (exists r :: r in rows && r.personId == a.wcaId) &&
      a == AppearanceRow(a.wcaId, NameOf(persons, a.wcaId), CountKey(rows, PersonIdOf, a.wcaId))
  {
    var pids := Distinct(MapSeq(rows, PersonIdOf));
    var g := (pid: string) => AppearanceRow(pid, NameOf(persons, pid), CountKey(rows, PersonIdOf, pid));
    SortByMembers(MapSeq(pids, g), AppearanceKey);
    MapSeqMember(pids, g, a);
    MapSeqMember(rows, PersonIdOf, a.wcaId);
  }

  function AppearanceIdOf(a: AppearanceRow): string { a.wcaId }

  /** One row per person. */
  lemma RowsPerPersonDistinct(rows: seq<Result>, persons: Persons)
    ensures NoDuplicates(MapSeq(RowsPerPerson(rows, persons), AppearanceIdOf))
  {
    MadeColumnDistinct(Distinct(MapSeq(rows, PersonIdOf)),
      (pid: string) => AppearanceRow(pid, NameOf(persons, pid), CountKey(rows, PersonIdOf, pid)), AppearanceKey, AppearanceIdOf);
  }

  /** The counts add up to the number of rows. */
  lemma RowsPerPersonTotal(rows: seq<Result>, persons: Persons)
    ensures SumOf(RowsPerPerson(rows, persons), CountOf) == |rows|
  {
    var pids := Distinct(MapSeq(rows, PersonIdOf));
    var g := (pid: string) => AppearanceRow(pid, NameOf(persons, pid), CountKey(rows, PersonIdOf, pid));
    SumOfSortBy(MapSeq(pids, g), AppearanceKey, CountOf);
    SumOfCounts(pids, g, CountOf, rows, PersonIdOf);
    forall x | x in rows ensures PersonIdOf(x) in pids {
      MapSeqMember(rows, PersonIdOf, PersonIdOf(x));
    }
    SumCountsAll(rows, PersonIdOf, pids);
  }

  /** Finals at the national championships, valid or not. */
  function NationalFinalRows(results: seq<Result>, nats: seq<string>): (s: seq<Result>)
    ensures forall r :: r in s <==> r in results && r.competitionId in nats && IsFinal(r)
  {
    Filter(results, (r: Result) => r.competitionId in nats && IsFinal(r))
  }

  /** Number of national championship finals per person. */
  function NationalFinalAppearances(results: seq<Result>, persons: Persons, nats: seq<string>): seq<AppearanceRow> {
    RowsPerPerson(NationalFinalRows(results, nats), persons)
  }

  /** A person is listed iff they reached a national championship final, and
      then with the number of their national championship finals. */
  lemma NationalFinalAppearancesMembers(results: seq<Result>, persons: Persons, nats: seq<string>, a: AppearanceRow)
    ensures a in NationalFinalAppearances(results, persons, nats) <==>
      (exists r :: r in results && r.competitionId in nats && IsFinal(r) && r.personId == a.wcaId) &&
      a == AppearanceRow(a.wcaId, NameOf(persons, a.wcaId), CountKey(NationalFinalRows(results, nats), PersonIdOf, a.wcaId))
  {
    RowsPerPersonMembers(NationalFinalRows(results, nats), persons, a);
  }

  /** Competition ids of the world and European championships. */
  function MajorCompIds(championships: seq<Championship>): seq<string> {
    MapSeq(Filter(championships, (c: Championship) => c.championshipType in ChampionshipTypes), CompetitionIdOf)
  }

  /** The ids picked are exactly those of the world and European championships. */
  lemma MajorCompIdsMember(championships: seq<Championship>, id: string)
    ensures id in MajorCompIds(championships) <==>
      exists c :: c in championships && c.championshipType in ChampionshipTypes && c.competitionId == id
  {
  }

  /** Number of world and European championship finals with a valid single per person. */
  function MajorFinalAppearances(results: seq<Result>, championships: seq<Championship>, persons: Persons): seq<AppearanceRow> {
    RowsPerPerson(IntlFinals(results, MajorCompIds(championships)), persons)
  }

  /** A person is listed iff they have a world or European championship final
      with a valid single, and then with the number of such finals. */
  lemma MajorFinalAppearancesMembers(results: seq<Result>, championships: seq<Championship>, persons: Persons, a: AppearanceRow)
    ensures var finals := IntlFinals(results, MajorCompIds(championships));
      a in MajorFinalAppearances(results, championships, persons) <==>
        (exists r :: r in results && r.competitionId in MajorCompIds(championships) && IsFinal(r) && r.best > 0 && r.personId == a.wcaId) &&
        a == AppearanceRow(a.wcaId, NameOf(persons, a.wcaId), CountKey(finals, PersonIdOf, a.wcaId))
  {
    RowsPerPersonMembers(IntlFinals(results, MajorCompIds(championships)), persons, a);
  }

  /** Results with a valid single at the national championships, any round. */
  function NationalValidRows(results: seq<Result>, nats: seq<string>): (s: seq<Result>)
    ensures forall r :: r in s <==> r in results && r.competitionId in nats && r.best > 0
  {
    Filter(results, (r: Result) => r.competitionId in nats && r.best > 0)
  }

  /** The distinct competitions of `pid`'s rows. */
  function CompetitionsOf(rows: seq<Result>, pid: string): seq<string> {
    Distinct(MapSeq(Filter(rows, KeyIs(PersonIdOf, pid)), CompetitionOf))
  }

  /** One row per person, with the number of distinct national championships
      they have a valid result at. */
  function NationalChampionshipsCompeted(results: seq<Result>, persons: Persons, nats: seq<string>): (t: seq<AppearanceRow>)
    ensures Sorted(t, AppearanceKey)
    ensures NationalValidRows(results, nats) == [] ==> t == []
  {
    var rows := NationalValidRows(results, nats);
    SortBy(MapSeq(Distinct(MapSeq(rows, PersonIdOf)),
      (pid: string) => AppearanceRow(pid, NameOf(persons, pid), |CompetitionsOf(rows, pid)|)), AppearanceKey)
  }

  /** The count is the number of distinct championships, between one and the
      number of that person's rows. */
  lemma ChampionshipsCompetedCount(results: seq<Result>, persons: Persons, nats: seq<string>, a: AppearanceRow)
    requires a in NationalChampionshipsCompeted(results, persons, nats)
    ensures var rows := NationalValidRows(results, nats);
      && a.count == |set r | r in rows && r.personId == a.wcaId :: r.competitionId|
      && 1 <= a.count <= CountKey(rows, PersonIdOf, a.wcaId)
  {
    var rows := NationalValidRows(results, nats);
    var pids := Distinct(MapSeq(rows, PersonIdOf));
    var g := (pid: string) => AppearanceRow(pid, NameOf(persons, pid), |CompetitionsOf(rows, pid)|);
    SortByMembers(MapSeq(pids, g), AppearanceKey);
    MapSeqMember(pids, g, a);
    MapSeqMember(rows, PersonIdOf, a.wcaId);
    var r :| r in rows && a.wcaId == PersonIdOf(r);
    CompetitionsCount(rows, a.wcaId, r);
  }

  /** A person is listed iff they have a valid result at a national
      championship, and then with the number of distinct championships among
      those results. */
  lemma ChampionshipsCompetedRows(results: seq<Result>, persons: Persons, nats: seq<string>, a: AppearanceRow)
    ensures var rows := NationalValidRows(results, nats);
      a in NationalChampionshipsCompeted(results, persons, nats) <==>
        && (exists r :: r in rows && r.personId == a.wcaId)
        && a.name == NameOf(persons, a.wcaId)
        && a.count == |set r | r in rows && r.personId == a.wcaId :: r.competitionId|
  {
    var rows := NationalValidRows(results, nats);
    PerKeyRows(rows, PersonIdOf, (pid: string) => AppearanceRow(pid, NameOf(persons, pid), |CompetitionsOf(rows, pid)|),
      AppearanceKey, AppearanceIdOf, a);
    if exists r :: r in rows && r.personId == a.wcaId {
      var r :| r in rows && r.personId == a.wcaId;
      CompetitionsCount(rows, a.wcaId, r);
    }
  }

  /** The championships-competed table has one row per person. */
  lemma ChampionshipsCompetedDistinct(results: seq<Result>, persons: Persons, nats: seq<string>)
    ensures NoDuplicates(MapSeq(NationalChampionshipsCompeted(results, persons, nats), AppearanceIdOf))
  {
    var rows := NationalValidRows(results, nats);
    MadeColumnDistinct(Distinct(MapSeq(rows, PersonIdOf)),
      (pid: string) => AppearanceRow(pid, NameOf(persons, pid), |CompetitionsOf(rows, pid)|), AppearanceKey, AppearanceIdOf);
  }

  /** A person with a row has between one and their row count of distinct
      competitions, as many as the set of their rows' competitions. */
  lemma CompetitionsCount(rows: seq<Result>, pid: string, r: Result)
    requires r in rows && r.personId == pid
    ensures |CompetitionsOf(rows, pid)| == |set x | x in rows && x.personId == pid :: x.competitionId|
    ensures 1 <= |CompetitionsOf(rows, pid)| <= CountKey(rows, PersonIdOf, pid)
  {
    var mine := Filter(rows, KeyIs(PersonIdOf, pid));
    var cs := CompetitionsOf(rows, pid);
    DistinctCard(cs);
    forall c ensures c in cs <==> c in (set x | x in rows && x.personId == pid :: x.competitionId) {
      MapSeqMember(mine, CompetitionOf, c);
      if c in (set x | x in rows && x.personId == pid :: x.competitionId) {
        var x :| x in rows && x.personId == pid && x.competitionId == c;
        assert PersonIdOf(x) == pid;
        assert x in mine;
      }
    }
    assert (set c | c in cs) == (set x | x in rows && x.personId == pid :: x.competitionId);
    assert r in mine;
    assert CompetitionOf(r) in MapSeq(mine, CompetitionOf) by {
      MapSeqMember(mine, CompetitionOf, CompetitionOf(r));
    }
  }

  // ---------------------------------------------------------------------
  // Title retention
  // ---------------------------------------------------------------------

  datatype RetentionRow = RetentionRow(eventId: string, retentionRate: real, retained: nat, failed: nat, totalTransitions: nat)

  function RetentionKey(r: RetentionRow): Key {
    [RealDesc(r.retentionRate), IntDesc(r.totalTransitions), StrAsc(r.eventId)]
  }

  function YearEvent(r: Result): (int, string) { (r.year, r.eventId) }

  /** National championship finals with a valid single. */
  function NatsFinals(results: seq<Result>, nats: seq<string>): (s: seq<Result>)
    ensures forall r :: r in s <==> r in results && IsNatsFinal(r, nats)
  {
    Filter(results, (r: Result) => IsNatsFinal(r, nats))
  }

  /** Number of consecutive pairs of `w` with the same winner. */
  function Retained(w: seq<Result>): (n: nat)
    ensures |w| >= 1 ==> n <= |w| - 1
    decreases |w|
  {
    if |w| < 2 then 0
    else Retained(w[..|w| - 1]) + (if w[|w| - 1].personId == w[|w| - 2].personId then 1 else 0)
  }

  function RetentionOf(winners: seq<Result>, e: string): RetentionRow {
    var w := EventWinners(winners, e);
    var total := if |w| >= 1 then |w| - 1 else 0;
    var kept := Retained(w);
    RetentionRow(e, if total > 0 then kept as real / total as real else 0.0, kept, total - kept, total)
  }

  /** How often the national title of an event was kept from one year with a
      champion to the next year with a champion. */
  function TitleRetention(results: seq<Result>, nats: seq<string>): (t: seq<RetentionRow>)
    ensures Sorted(t, RetentionKey)
    ensures NatsFinals(results, nats) == [] ==> t == []
  {
    var winners := PickWinners(NatsFinals(results, nats), YearEvent);
    var events := Filter(Distinct(MapSeq(winners, EventIdOf)), (e: string) => |EventWinners(winners, e)| >= 2);
    SortBy(MapSeq(events, (e: string) => RetentionOf(winners, e)), RetentionKey)
  }

  /** The years in which event `e` has a national champion. */
  ghost function ChampionYears(slice: seq<Result>, e: string): set<int> {
    set r | r in slice && r.eventId == e :: r.year
  }

  /** `winners` holds one row of `slice` per (year, event) of `slice`. */
  ghost predicate OnePerYearEvent(winners: seq<Result>, slice: seq<Result>) {
    && NoDuplicates(winners)
    && (forall x :: x in winners ==> x in slice)
    && (forall x, y :: x in winners && y in winners && YearEvent(x) == YearEvent(y) ==> x == y)
    && (forall r :: r in slice ==> exists x :: x in winners && YearEvent(x) == YearEvent(r))
  }

  lemma YearWinners(slice: seq<Result>)
    ensures OnePerYearEvent(PickWinners(slice, YearEvent), slice)
  {
    var winners := PickWinners(slice, YearEvent);
    forall r | r in slice ensures exists x :: x in winners && YearEvent(x) == YearEvent(r) {
      var i :| 0 <= i < |winners| && YearEvent(winners[i]) == YearEvent(r);
      assert winners[i] in winners;
    }
  }

  lemma EventWinnersDistinct(winners: seq<Result>, slice: seq<Result>, e: string)
    requires OnePerYearEvent(winners, slice)
    ensures NoDuplicates(EventWinners(winners, e))
  {
    FilterSubMultiset(winners, (r: Result) => r.eventId == e);
    NoDuplicatesSub(winners, EventWinners(winners, e));
  }

  lemma EventWinnersStep(winners: seq<Result>, slice: seq<Result>, e: string, j: int)
    requires OnePerYearEvent(winners, slice)
    requires 0 < j < |EventWinners(winners, e)|
    ensures var w := EventWinners(winners, e); w[j - 1].year < w[j].year
  {
    var w := EventWinners(winners, e);
    EventWinnersDistinct(winners, slice, e);
    assert w[j - 1] != w[j];
    assert w[j - 1] in winners && w[j] in winners;
    IntAscLe(w[j - 1].year, w[j].year);
  }

  /** One champion per (year, event): the winners of an event are in strictly
      increasing year order. */
  lemma {:induction false} EventWinnersIncreasing(winners: seq<Result>, slice: seq<Result>, e: string, i: int, j: int)
    requires OnePerYearEvent(winners, slice)
    requires 0 <= i < j < |EventWinners(winners, e)|
    ensures var w := EventWinners(winners, e); w[i].year < w[j].year
    decreases j - i
  {
    EventWinnersStep(winners, slice, e, j);
    if i < j - 1 {
      EventWinnersIncreasing(winners, slice, e, i, j - 1);
    }
  }

  lemma ChampionYearCovered(winners: seq<Result>, slice: seq<Result>, e: string, y: int)
    requires OnePerYearEvent(winners, slice)
    requires y in ChampionYears(slice, e)
    ensures var w := EventWinners(winners, e); exists k :: 0 <= k < |w| && w[k].year == y
  {
    var r :| r in slice && r.eventId == e && r.year == y;
    WinnerOfYear(winners, slice, r);
  }

  /** Each final of `slice` has the winner of its (year, event) among the
      winners of its event. */
  lemma WinnerOfYear(winners: seq<Result>, slice: seq<Result>, r: Result)
    requires OnePerYearEvent(winners, slice)
    requires r in slice
    ensures var w := EventWinners(winners, r.eventId); exists k :: 0 <= k < |w| && w[k].year == r.year
  {
    var w := EventWinners(winners, r.eventId);
    var x :| x in winners && YearEvent(x) == YearEvent(r);
    assert x in w;
    var k :| 0 <= k < |w| && w[k] == x;
  }

  /** The winners of an event cover exactly the years in which it has a champion. */
  lemma EventWinnersYears(winners: seq<Result>, slice: seq<Result>, e: string, y: int)
    requires OnePerYearEvent(winners, slice)
    ensures var w := EventWinners(winners, e);
      y in ChampionYears(slice, e) <==> exists k :: 0 <= k < |w| && w[k].year == y
  {
    var w := EventWinners(winners, e);
    if y in ChampionYears(slice, e) {
      ChampionYearCovered(winners, slice, e, y);
    }
    if exists k :: 0 <= k < |w| && w[k].year == y {
      var k :| 0 <= k < |w| && w[k].year == y;
      assert w[k] in winners;
      assert w[k] in slice && w[k].eventId == e;
    }
  }

  /** The years of the winners of an event. */
  function WinnerYears(winners: seq<Result>, e: string): seq<int> {
    MapSeq(EventWinners(winners, e), YearOf)
  }

  predicate StrictlyIncreasing(ys: seq<int>) {
    forall a, b :: 0 <= a < b < |ys| ==> ys[a] < ys[b]
  }

  /** One champion per (year, event): the winners of an event are in strictly
      increasing year order, and their years are the years with a champion. */
  lemma WinnerYearsFacts(winners: seq<Result>, slice: seq<Result>, e: string)
    requires OnePerYearEvent(winners, slice)
    ensures StrictlyIncreasing(WinnerYears(winners, e))
    ensures ChampionYears(slice, e) == set y | y in WinnerYears(winners, e)
  {
    var ys := WinnerYears(winners, e);
    forall a, b | 0 <= a < b < |ys| ensures ys[a] < ys[b] {
      EventWinnersIncreasing(winners, slice, e, a, b);
    }
    forall y ensures y in ys <==> y in ChampionYears(slice, e) {
      WinnerYearIn(winners, slice, e, y);
    }
  }

  lemma WinnerYearIn(winners: seq<Result>, slice: seq<Result>, e: string, y: int)
    requires OnePerYearEvent(winners, slice)
    ensures y in WinnerYears(winners, e) <==> y in ChampionYears(slice, e)
  {
    EventWinnersYears(winners, slice, e, y);
    YearsMember(EventWinners(winners, e), y);
  }

  lemma YearsMember(w: seq<Result>, y: int)
    ensures y in MapSeq(w, YearOf) <==> exists k :: 0 <= k < |w| && w[k].year == y
  {
    var ys := MapSeq(w, YearOf);
    if y in ys {
      var k :| 0 <= k < |ys| && ys[k] == y;
      assert w[k].year == y;
    }
    if exists k :: 0 <= k < |w| && w[k].year == y {
      var k :| 0 <= k < |w| && w[k].year == y;
      assert ys[k] == y;
    }
  }

  lemma NoYearBetween(ys: seq<int>, i: int, y: int)
    requires StrictlyIncreasing(ys)
    requires 0 < i < |ys| && y in ys
    ensures ys[i - 1] < ys[i] && !(ys[i - 1] < y < ys[i])
  {
    var k :| 0 <= k < |ys| && ys[k] == y;
    if k < i - 1 {
      assert ys[k] < ys[i - 1];
    } else if k > i {
      assert ys[i] < ys[k];
    }
  }

  /** Gap years are skipped: consecutive winners of an event are in increasing
      years, and no year with a champion lies strictly between them. */
  lemma TransitionsSkipGaps(winners: seq<Result>, slice: seq<Result>, e: string, i: int, y: int)
    requires OnePerYearEvent(winners, slice)
    requires 0 < i < |WinnerYears(winners, e)|
    requires y in ChampionYears(slice, e)
    ensures var ys := WinnerYears(winners, e); ys[i - 1] < ys[i] && !(ys[i - 1] < y < ys[i])
  {
    WinnerYearsFacts(winners, slice, e);
    NoYearBetween(WinnerYears(winners, e), i, y);
  }

  /** There are as many winners of an event as years with a champion. */
  lemma EventWinnersCount(winners: seq<Result>, slice: seq<Result>, e: string)
    requires OnePerYearEvent(winners, slice)
    ensures |EventWinners(winners, e)| == |ChampionYears(slice, e)|
  {
    WinnerYearsFacts(winners, slice, e);
    DistinctCard(WinnerYears(winners, e));
  }

  lemma RatioBounds(a: nat, b: nat)
    requires 0 < b && a <= b
    ensures 0.0 <= a as real / b as real <= 1.0
  {
  }

  /** The retention row of an event with at least two champion years. */
  lemma RetentionOfFacts(winners: seq<Result>, slice: seq<Result>, e: string)
    requires OnePerYearEvent(winners, slice)
    requires |EventWinners(winners, e)| >= 2
    ensures var row := RetentionOf(winners, e);
      && row.eventId == e
      && row.totalTransitions == |ChampionYears(slice, e)| - 1 >= 1
      && row.retained == Retained(EventWinners(winners, e))
      && row.retained + row.failed == row.totalTransitions
      && row.retentionRate == row.retained as real / row.totalTransitions as real
      && 0.0 <= row.retentionRate <= 1.0
  {
    EventWinnersCount(winners, slice, e);
    var w := EventWinners(winners, e);
    RatioBounds(Retained(w), |w| - 1);
  }

  /** Each listed event has (years with a champion - 1) transitions, split into
      retained and failed, and a rate of retained over total. */
  lemma RetentionRowFacts(results: seq<Result>, nats: seq<string>, row: RetentionRow)
    requires row in TitleRetention(results, nats)
    ensures var slice := NatsFinals(results, nats);
      && row.totalTransitions == |ChampionYears(slice, row.eventId)| - 1 >= 1
      && row.retained == Retained(EventWinners(PickWinners(slice, YearEvent), row.eventId))
      && row.retained + row.failed == row.totalTransitions
      && row.retentionRate == row.retained as real / row.totalTransitions as real
      && 0.0 <= row.retentionRate <= 1.0
  {
    var slice := NatsFinals(results, nats);
    RetentionRowEvent(results, nats, row);
    YearWinners(slice);
    RetentionFactsOf(PickWinners(slice, YearEvent), slice, row);
  }

  lemma RetentionFactsOf(winners: seq<Result>, slice: seq<Result>, row: RetentionRow)
    requires OnePerYearEvent(winners, slice)
    requires exists e :: |EventWinners(winners, e)| >= 2 && row == RetentionOf(winners, e)
    ensures && row.totalTransitions == |ChampionYears(slice, row.eventId)| - 1 >= 1
      && row.retained == Retained(EventWinners(winners, row.eventId))
      && row.retained + row.failed == row.totalTransitions
      && row.retentionRate == row.retained as real / row.totalTransitions as real
      && 0.0 <= row.retentionRate <= 1.0
  {
    var e :| |EventWinners(winners, e)| >= 2 && row == RetentionOf(winners, e);
    RetentionOfFacts(winners, slice, e);
  }

  /** Each listed row is the retention row of an event with two winners. */
  lemma RetentionRowEvent(results: seq<Result>, nats: seq<string>, row: RetentionRow)
    requires row in TitleRetention(results, nats)
    ensures var winners := PickWinners(NatsFinals(results, nats), YearEvent);
      exists e :: |EventWinners(winners, e)| >= 2 && row == RetentionOf(winners, e)
  {
    var winners := PickWinners(NatsFinals(results, nats), YearEvent);
    var events := Filter(Distinct(MapSeq(winners, EventIdOf)), (e: string) => |EventWinners(winners, e)| >= 2);
    var g := (e: string) => RetentionOf(winners, e);
    SortByMembers(MapSeq(events, g), RetentionKey);
    MapSeqMember(events, g, row);
    var e :| e in events && row == g(e);
  }

  function RetentionEventOf(row: RetentionRow): string { row.eventId }

  /** An event is listed exactly when it has national champions in at least
      two years, and then with its retention row. */
  lemma RetentionRows(results: seq<Result>, nats: seq<string>, row: RetentionRow)
    ensures var slice := NatsFinals(results, nats);
      row in TitleRetention(results, nats) <==>
        |ChampionYears(slice, row.eventId)| >= 2 && row == RetentionOf(PickWinners(slice, YearEvent), row.eventId)
  {
    var slice := NatsFinals(results, nats);
    var winners := PickWinners(slice, YearEvent);
    var events := Filter(Distinct(MapSeq(winners, EventIdOf)), (e: string) => |EventWinners(winners, e)| >= 2);
    var g := (e: string) => RetentionOf(winners, e);
    SortByMembers(MapSeq(events, g), RetentionKey);
    MapSeqMember(events, g, row);
    YearWinners(slice);
    EventWinnersCount(winners, slice, row.eventId);
    if |EventWinners(winners, row.eventId)| >= 2 && row == g(row.eventId) {
      var w := EventWinners(winners, row.eventId);
      assert w[0] in w;
      MapSeqMember(winners, EventIdOf, row.eventId);
      assert row.eventId in events;
    }
  }

  /** Each event is listed at most once. */
  lemma RetentionOnePerEvent(results: seq<Result>, nats: seq<string>)
    ensures NoDuplicates(MapSeq(TitleRetention(results, nats), RetentionEventOf))
  {
    var winners := PickWinners(NatsFinals(results, nats), YearEvent);
    var ds := Distinct(MapSeq(winners, EventIdOf));
    var events := Filter(ds, (e: string) => |EventWinners(winners, e)| >= 2);
    FilterSubMultiset(ds, (e: string) => |EventWinners(winners, e)| >= 2);
    NoDuplicatesSub(ds, events);
    MadeColumnDistinct(events, (e: string) => RetentionOf(winners, e), RetentionKey, RetentionEventOf);
  }

  // ---------------------------------------------------------------------
  // Sweeps
  // ---------------------------------------------------------------------

  /** A (competition, year, person, name) where the person owns every required event. */
  datatype SweepRow = SweepRow(year: int, competitionId: string, personId: string, personName: string)

  function SweepKey(s: SweepRow): Key { [IntAsc(s.year), StrAsc(s.competitionId)] }

  function SweepRowOf(r: Result): SweepRow { SweepRow(r.year, r.competitionId, r.personId, r.personName) }

  /** National championship finals with a valid single in a required event. */
  function SweepSlice(results: seq<Result>, nats: seq<string>, reqEvents: seq<string>): (s: seq<Result>)
    ensures forall r :: r in s <==> r in results && IsNatsFinal(r, nats) && r.eventId in reqEvents
  {
    Filter(results, (r: Result) => IsNatsFinal(r, nats) && r.eventId in reqEvents)
  }

  /** Number of distinct events owned by `k` among the best rows `best`. */
  function EventsOwned(best: seq<Result>, k: SweepRow): nat {
    |Distinct(MapSeq(Filter(best, KeyIs(SweepRowOf, k)), EventIdOf))|
  }

  /** The key predicate "owns `n` distinct events among `best`". */
  function OwnsAll(best: seq<Result>, n: nat): SweepRow -> bool {
    (k: SweepRow) => EventsOwned(best, k) == n
  }

  function Sweeps(results: seq<Result>, nats: seq<string>, reqEvents: seq<string>): (t: seq<SweepRow>)
    ensures Sorted(t, SweepKey)
    ensures SweepSlice(results, nats, reqEvents) == [] ==> t == []
  {
    var best := PickWinners(SweepSlice(results, nats, reqEvents), CompEvent);
    SortBy(Filter(Distinct(MapSeq(best, SweepRowOf)), OwnsAll(best, |reqEvents|)), SweepKey)
  }

  /** The events owned by `k`, as a set. */
  ghost function OwnedSet(best: seq<Result>, k: SweepRow): set<string> {
    set r | r in best && SweepRowOf(r) == k :: r.eventId
  }

  lemma EventsOwnedSet(best: seq<Result>, k: SweepRow)
    ensures EventsOwned(best, k) == |OwnedSet(best, k)|
  {
    var mine := Filter(best, KeyIs(SweepRowOf, k));
    var es := Distinct(MapSeq(mine, EventIdOf));
    DistinctCard(es);
    forall e ensures e in es <==> e in OwnedSet(best, k) {
      MapSeqMember(mine, EventIdOf, e);
      if e in OwnedSet(best, k) {
        var r :| r in best && SweepRowOf(r) == k && r.eventId == e;
        assert KeyIs(SweepRowOf, k)(r);
        assert r in mine;
      }
    }
    assert (set e | e in es) == OwnedSet(best, k);
  }

  /** The sweep rule on the best rows: with distinct required events, which
      `best` only ever uses, a key is owned in all of them iff it has a best
      row in each. */
  lemma SweepCore(best: seq<Result>, reqEvents: seq<string>, k: SweepRow)
    requires reqEvents != [] && NoDuplicates(reqEvents)
    requires forall r :: r in best ==> r.eventId in reqEvents
    ensures (k in MapSeq(best, SweepRowOf) && EventsOwned(best, k) == |reqEvents|) <==>
      forall e :: e in reqEvents ==> exists r :: r in best && SweepRowOf(r) == k && r.eventId == e
  {
    var owned := OwnedSet(best, k);
    var req := set e | e in reqEvents;
    EventsOwnedSet(best, k);
    DistinctCard(reqEvents);
    assert owned <= req;
    if EventsOwned(best, k) == |reqEvents| {
      SubsetEqualCard(owned, req);
    }
    if forall e :: e in reqEvents ==> exists r :: r in best && SweepRowOf(r) == k && r.eventId == e {
      forall e | e in req ensures e in owned {
        var r :| r in best && SweepRowOf(r) == k && r.eventId == e;
      }
    }
    if owned == req {
      forall e | e in reqEvents ensures exists r :: r in best && SweepRowOf(r) == k && r.eventId == e {
        assert e in owned;
      }
    }
    MapSeqMember(best, SweepRowOf, k);
    if owned == req {
      assert reqEvents[0] in owned;
    }
  }

  /** With distinct required events, a (competition, person) is a sweep iff the
      person is the best-ranked row of every required event there. */
  lemma SweepIff(results: seq<Result>, nats: seq<string>, reqEvents: seq<string>, k: SweepRow)
    requires reqEvents != [] && NoDuplicates(reqEvents)
    ensures var best := PickWinners(SweepSlice(results, nats, reqEvents), CompEvent);
      k in Sweeps(results, nats, reqEvents) <==>
        forall e :: e in reqEvents ==> exists r :: r in best && SweepRowOf(r) == k && r.eventId == e
  {
    var best := PickWinners(SweepSlice(results, nats, reqEvents), CompEvent);
    SweepListed(best, |reqEvents|, k);
    SweepCore(best, reqEvents, k);
  }

  /** A key is listed iff it is the key of a best row and owns `n` events. */
  lemma SweepListed(best: seq<Result>, n: nat, k: SweepRow)
    ensures k in SortBy(Filter(Distinct(MapSeq(best, SweepRowOf)), OwnsAll(best, n)), SweepKey) <==>
      k in MapSeq(best, SweepRowOf) && EventsOwned(best, k) == n
  {
    SortByMembers(Filter(Distinct(MapSeq(best, SweepRowOf)), OwnsAll(best, n)), SweepKey);
  }
}
