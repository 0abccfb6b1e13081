/** The events statistics: most events won and podiumed, event participation,
    event combinations, average events per competition, most participated
    competitions, and the bronze, silver, gold and platinum memberships. */
module Events {
  import opened Tables
  import opened Ordering

  // ---------------------------------------------------------------------
  // Shared helpers
  // ---------------------------------------------------------------------

  /** The distinct events of `pid`'s rows. */
  function EventsOf(rows: seq<Result>, pid: string): seq<string> {
    Distinct(MapSeq(Filter(rows, KeyIs(PersonIdOf, pid)), EventIdOf))
  }

  /** The events of `pid`'s rows, as a set. */
  ghost function EventSet(rows: seq<Result>, pid: string): set<string> {
    GroupValues(rows, PersonIdOf, pid, EventIdOf)
  }

  lemma EventsOfSet(rows: seq<Result>, pid: string)
    ensures |EventsOf(rows, pid)| == |EventSet(rows, pid)|
    ensures forall e :: e in EventsOf(rows, pid) <==> e in EventSet(rows, pid)
  {
    GroupImage(rows, PersonIdOf, pid, EventIdOf);
  }

  // ---------------------------------------------------------------------
  // Most events won, most events podiumed
  // ---------------------------------------------------------------------

  /** A row is kept when its best single is a time, not an empty attempt (0),
      a DNF (-1) or a DNS (-2). */
  predicate HasResult(r: Result) {
    r.best != 0 && r.best != -1 && r.best != -2
  }

  predicate IsFinalWin(r: Result) {
    IsFinal(r) && r.pos == 1 && HasResult(r)
  }

  predicate IsFinalPodium(r: Result) {
    IsFinal(r) && r.pos <= 3 && HasResult(r)
  }

  /** A person, the number of distinct events they won (or podiumed) and the
      number of distinct events they competed in. */
  datatype EventsRow = EventsRow(wcaId: string, name: string, events: nat, competed: nat)

  function EventsKey(e: EventsRow): Key { [IntDesc(e.events), IntAsc(e.competed)] }

  function EventsRowOf(results: seq<Result>, q: Result -> bool, persons: Persons, pid: string): EventsRow {
    EventsRow(pid, NameIn(persons, pid), |EventsOf(Filter(results, q), pid)|, |EventsOf(results, pid)|)
  }

  function EventsRowMaker(results: seq<Result>, q: Result -> bool, persons: Persons): string -> EventsRow {
    (pid: string) => EventsRowOf(results, q, persons, pid)
  }

  /** One row per person of the persons table with a row satisfying `q`. */
  function MostEventsBy(results: seq<Result>, persons: Persons, q: Result -> bool): (t: seq<EventsRow>)
    ensures Sorted(t, EventsKey)
  {
    var hits := Filter(results, q);
    SortBy(MapSeq(Filter(Distinct(MapSeq(hits, PersonIdOf)), InPersons(persons)), EventsRowMaker(results, q, persons)), EventsKey)
  }

  function MostEventsWon(results: seq<Result>, persons: Persons): (t: seq<EventsRow>)
    ensures Sorted(t, EventsKey)
  {
    MostEventsBy(results, persons, IsFinalWin)
  }

  function MostEventsPodiumed(results: seq<Result>, persons: Persons): (t: seq<EventsRow>)
    ensures Sorted(t, EventsKey)
  {
    MostEventsBy(results, persons, IsFinalPodium)
  }

  /** A person is listed iff they are in the persons table and have a row
      satisfying `q`, and then with their counts. */
  lemma MostEventsMembers(results: seq<Result>, persons: Persons, q: Result -> bool, row: EventsRow)
    ensures row in MostEventsBy(results, persons, q) <==>
      && row.wcaId in persons
      && (exists r :: r in results && q(r) && r.personId == row.wcaId)
      && row == EventsRowOf(results, q, persons, row.wcaId)
  {
    var hits := Filter(results, q);
    var sel := Filter(Distinct(MapSeq(hits, PersonIdOf)), InPersons(persons));
    SortByMembers(MapSeq(sel, EventsRowMaker(results, q, persons)), EventsKey);
    MapSeqMember(sel, EventsRowMaker(results, q, persons), row);
    MapSeqMember(hits, PersonIdOf, row.wcaId);
  }

  function EventsIdOf(row: EventsRow): string { row.wcaId }

  /** Each person is listed once. */
  lemma MostEventsOnePerPerson(results: seq<Result>, persons: Persons, q: Result -> bool)
    ensures NoDuplicates(MapSeq(MostEventsBy(results, persons, q), EventsIdOf))
  {
    var ds := Distinct(MapSeq(Filter(results, q), PersonIdOf));
    var ids := Filter(ds, InPersons(persons));
    FilterSubMultiset(ds, InPersons(persons));
    NoDuplicatesSub(ds, ids);
    MadeColumnDistinct(ids, EventsRowMaker(results, q, persons), EventsKey, EventsIdOf);
  }

  /** The counts are the sizes of the event sets, and a listed person won (or
      podiumed) at least one event and never more events than they competed in. */
  lemma MostEventsRowFacts(results: seq<Result>, persons: Persons, q: Result -> bool, row: EventsRow)
    requires row in MostEventsBy(results, persons, q)
    ensures row.wcaId in persons && row.name == persons[row.wcaId].name
    ensures row.events == |EventSet(Filter(results, q), row.wcaId)|
    ensures row.competed == |EventSet(results, row.wcaId)|
    ensures 1 <= row.events <= row.competed
  {
    MostEventsMembers(results, persons, q, row);
    var pid := row.wcaId;
    var hits := Filter(results, q);
    EventsOfSet(hits, pid);
    EventsOfSet(results, pid);
    forall e | e in EventSet(hits, pid) ensures e in EventSet(results, pid) {
      var r :| r in hits && PersonIdOf(r) == pid && EventIdOf(r) == e;
    }
    SubsetCardLe(EventSet(hits, pid), EventSet(results, pid));
    var r :| r in results && q(r) && r.personId == pid;
    assert PersonIdOf(r) == pid && r in hits;
    assert EventIdOf(r) in EventSet(hits, pid);
  }

  /** A win in a final is a podium in that final: every listed winner is
      listed among the podium finishers, with at least as many events. */
  lemma WonWithinPodiumed(results: seq<Result>, persons: Persons, row: EventsRow)
    requires row in MostEventsWon(results, persons)
    ensures EventsRowOf(results, IsFinalPodium, persons, row.wcaId) in MostEventsPodiumed(results, persons)
    ensures EventSet(Filter(results, IsFinalWin), row.wcaId) <= EventSet(Filter(results, IsFinalPodium), row.wcaId)
    ensures row.events <= EventsRowOf(results, IsFinalPodium, persons, row.wcaId).events
    ensures row.competed == EventsRowOf(results, IsFinalPodium, persons, row.wcaId).competed
  {
    var pid := row.wcaId;
    MostEventsMembers(results, persons, IsFinalWin, row);
    var p := EventsRowOf(results, IsFinalPodium, persons, pid);
    var r :| r in results && IsFinalWin(r) && r.personId == pid;
    MostEventsMembers(results, persons, IsFinalPodium, p);
    var won := Filter(results, IsFinalWin);
    var podium := Filter(results, IsFinalPodium);
    EventsOfSet(won, pid);
    EventsOfSet(podium, pid);
    forall e | e in EventSet(won, pid) ensures e in EventSet(podium, pid) {
      var x :| x in won && PersonIdOf(x) == pid && EventIdOf(x) == e;
      assert x in podium;
    }
    SubsetCardLe(EventSet(won, pid), EventSet(podium, pid));
  }

  // ---------------------------------------------------------------------
  // Event participation
  // ---------------------------------------------------------------------

  /** An event, its number of distinct competitors and their percentage of
      the competitors of the nationality. */
  datatype ParticipationRow = ParticipationRow(event: string, competitors: nat, percentage: real)

  function ParticipationKey(p: ParticipationRow): Key { [RealDesc(p.percentage)] }

  /** The ids of the persons of the nationality. */
  function NationalIds(persons: Persons, nationality: string): set<string> {
    set id | id in persons.Keys && persons[id].countryId == nationality
  }

  function CompetitorsIn(results: seq<Result>, e: string): seq<string> {
    Distinct(MapSeq(Filter(results, KeyIs(EventIdOf, e)), PersonIdOf))
  }

  function ParticipationRowOf(results: seq<Result>, total: nat, e: string): ParticipationRow
    requires total > 0
  {
    var c := |CompetitorsIn(results, e)|;
    ParticipationRow(e, c, c as real / total as real * 100.0)
  }

  function ParticipationMaker(results: seq<Result>, total: nat): string -> ParticipationRow
    requires total > 0
  {
    (e: string) => ParticipationRowOf(results, total, e)
  }

  /** One row per event of the nationality's results; empty when the persons
      table has nobody of the nationality. */
  function EventParticipation(resultsNationality: seq<Result>, persons: Persons, nationality: string): (t: seq<ParticipationRow>)
    ensures Sorted(t, ParticipationKey)
    ensures NationalIds(persons, nationality) == {} ==> t == []
  {
    var total := |NationalIds(persons, nationality)|;
    if total == 0 then []
    else SortBy(MapSeq(Distinct(MapSeq(resultsNationality, EventIdOf)), ParticipationMaker(resultsNationality, total)), ParticipationKey)
  }

  function ParticipationEventOf(p: ParticipationRow): string { p.event }

  /** Each event is listed once. */
  lemma ParticipationOnePerEvent(resultsNationality: seq<Result>, persons: Persons, nationality: string)
    ensures NoDuplicates(MapSeq(EventParticipation(resultsNationality, persons, nationality), ParticipationEventOf))
  {
    var total := |NationalIds(persons, nationality)|;
    if total > 0 {
      MadeColumnDistinct(Distinct(MapSeq(resultsNationality, EventIdOf)), ParticipationMaker(resultsNationality, total),
        ParticipationKey, ParticipationEventOf);
    }
  }

  lemma PercentBounds(c: nat, n: nat)
    requires 0 < c && 0 < n
    ensures 0.0 < c as real / n as real * 100.0
    ensures c <= n ==> c as real / n as real * 100.0 <= 100.0
  {
    if c <= n {
      assert c as real / n as real <= 1.0;
    }
  }

  /** An event is listed iff the nationality has a result in it, with the
      number of its distinct competitors and their share of the nationality's
      persons; the share is positive, and at most 100 when every result is by
      a person of the nationality. */
  lemma ParticipationMembers(resultsNationality: seq<Result>, persons: Persons, nationality: string, p: ParticipationRow)
    requires NationalIds(persons, nationality) != {}
    ensures p in EventParticipation(resultsNationality, persons, nationality) <==>
      && (exists r :: r in resultsNationality && r.eventId == p.event)
      && p.competitors == |GroupValues(resultsNationality, EventIdOf, p.event, PersonIdOf)|
      && p.percentage == p.competitors as real / |NationalIds(persons, nationality)| as real * 100.0
    ensures p in EventParticipation(resultsNationality, persons, nationality) ==>
      && 0.0 < p.percentage
      && ((forall r :: r in resultsNationality ==> r.personId in NationalIds(persons, nationality)) ==> p.percentage <= 100.0)
  {
    var total := |NationalIds(persons, nationality)|;
    var make := ParticipationMaker(resultsNationality, total);
    PerKeyMember(resultsNationality, EventIdOf, make, ParticipationKey, p);
    GroupImage(resultsNationality, EventIdOf, p.event, PersonIdOf);
    if p in EventParticipation(resultsNationality, persons, nationality) {
      var r :| r in resultsNationality && p == make(EventIdOf(r));
      var ids := GroupValues(resultsNationality, EventIdOf, p.event, PersonIdOf);
      assert EventIdOf(r) == p.event;
      assert PersonIdOf(r) in ids;
      if forall r :: r in resultsNationality ==> r.personId in NationalIds(persons, nationality) {
        assert ids <= NationalIds(persons, nationality);
        SubsetCardLe(ids, NationalIds(persons, nationality));
      }
      PercentBounds(p.competitors, total);
    }
  }

  // ---------------------------------------------------------------------
  // Event combinations
  // ---------------------------------------------------------------------

  /** An event specification string and the number of competitions using it. */
  datatype CombinationRow = CombinationRow(eventCombination: string, competitions: nat)

  function CombinationKey(c: CombinationRow): Key { [IntDesc(c.competitions), StrAsc(c.eventCombination)] }

  function SpecOf(c: Competition): string {
    if c.eventSpecs.Some? then c.eventSpecs.value else ""
  }

  function IdOf(c: Competition): string { c.id }

  /** Hosted in `country`, with its event specification present. */
  function HostedIn(country: string): Competition -> bool {
    (c: Competition) => c.countryId == country && c.eventSpecs.Some?
  }

  function CombinationRowOf(hosted: seq<Competition>, spec: string): CombinationRow {
    CombinationRow(spec, |Distinct(MapSeq(Filter(hosted, KeyIs(SpecOf, spec)), IdOf))|)
  }

  function CombinationMaker(hosted: seq<Competition>): string -> CombinationRow {
    (spec: string) => CombinationRowOf(hosted, spec)
  }

  function EventCombinations(competitions: seq<Competition>, country: string): (t: seq<CombinationRow>)
    ensures Sorted(t, CombinationKey)
    ensures (forall c :: c in competitions ==> c.countryId != country) ==> t == []
  {
    var hosted := Filter(competitions, HostedIn(country));
    assert (forall c :: c in competitions ==> c.countryId != country) ==> hosted == [] by {
      if hosted != [] {
        assert hosted[0] in hosted;
      }
    }
    SortBy(MapSeq(Distinct(MapSeq(hosted, SpecOf)), CombinationMaker(hosted)), CombinationKey)
  }

  function CombinationSpecOf(c: CombinationRow): string { c.eventCombination }

  /** Each event combination is listed once. */
  lemma CombinationsOnePerSpec(competitions: seq<Competition>, country: string)
    ensures NoDuplicates(MapSeq(EventCombinations(competitions, country), CombinationSpecOf))
  {
    var hosted := Filter(competitions, HostedIn(country));
    MadeColumnDistinct(Distinct(MapSeq(hosted, SpecOf)), CombinationMaker(hosted), CombinationKey, CombinationSpecOf);
  }

  /** The ids of the competitions of `country` whose specification is `spec`. */
  ghost function CompetitionsWithSpec(competitions: seq<Competition>, country: string, spec: string): set<string> {
    set c | c in competitions && c.countryId == country && c.eventSpecs == Some(spec) :: c.id
  }

  lemma CompetitionsWithSpecIs(competitions: seq<Competition>, country: string, spec: string)
    ensures GroupValues(Filter(competitions, HostedIn(country)), SpecOf, spec, IdOf) == CompetitionsWithSpec(competitions, country, spec)
  {
    var hosted := Filter(competitions, HostedIn(country));
    var a := GroupValues(hosted, SpecOf, spec, IdOf);
    var b := CompetitionsWithSpec(competitions, country, spec);
    forall i | i in b ensures i in a {
      var c :| c in competitions && c.countryId == country && c.eventSpecs == Some(spec) && c.id == i;
      assert HostedIn(country)(c);
      assert c in hosted && SpecOf(c) == spec && IdOf(c) == i;
    }
    forall i | i in a ensures i in b {
      var c :| c in hosted && SpecOf(c) == spec && IdOf(c) == i;
      assert HostedIn(country)(c);
    }
  }

  /** A specification is listed iff a competition of the country uses it, with
      the number of distinct such competitions. */
  lemma CombinationMembers(competitions: seq<Competition>, country: string, row: CombinationRow)
    ensures row in EventCombinations(competitions, country) <==>
      && (exists c :: c in competitions && c.countryId == country && c.eventSpecs == Some(row.eventCombination))
      && row.competitions == |CompetitionsWithSpec(competitions, country, row.eventCombination)|
  {
    var hosted := Filter(competitions, HostedIn(country));
    var spec := row.eventCombination;
    PerKeyMember(hosted, SpecOf, CombinationMaker(hosted), CombinationKey, row);
    GroupImage(hosted, SpecOf, spec, IdOf);
    CompetitionsWithSpecIs(competitions, country, spec);
    if exists c :: c in competitions && c.countryId == country && c.eventSpecs == Some(spec) {
      var c :| c in competitions && c.countryId == country && c.eventSpecs == Some(spec);
      assert HostedIn(country)(c);
      assert c in hosted;
    }
  }

  // ---------------------------------------------------------------------
  // Average events per competition, most participated competitions
  // ---------------------------------------------------------------------

  /** A competition, its number of distinct events and the mean number of
      distinct events of its competitors. */
  datatype AvgEventsRow = AvgEventsRow(competition: string, events: nat, avgEvents: real)

  function AvgEventsKey(a: AvgEventsRow): Key { [RealDesc(a.avgEvents)] }

  function CompPerson(r: Result): (string, string) { (r.competitionId, r.personId) }

  function EventsAt(rows: seq<Result>, c: string): seq<string> {
    Distinct(MapSeq(Filter(rows, KeyIs(CompetitionOf, c)), EventIdOf))
  }

  function CompetitorsAt(rows: seq<Result>, c: string): seq<string> {
    Distinct(MapSeq(Filter(rows, KeyIs(CompetitionOf, c)), PersonIdOf))
  }

  function PersonEventsAt(rows: seq<Result>, c: string, pid: string): seq<string> {
    Distinct(MapSeq(Filter(rows, KeyIs(CompPerson, (c, pid))), EventIdOf))
  }

  function PersonEventCount(rows: seq<Result>, c: string): string -> int {
    (pid: string) => |PersonEventsAt(rows, c, pid)|
  }

  /** The mean of `xs`; a competition always has a competitor, so the empty
      case is not reached. */
  function Mean(xs: seq<int>): real {
    if xs == [] then 0.0 else Sum(xs) as real / |xs| as real
  }

  function AvgEventsRowOf(rows: seq<Result>, c: string): AvgEventsRow {
    AvgEventsRow(c, |EventsAt(rows, c)|, Mean(MapSeq(CompetitorsAt(rows, c), PersonEventCount(rows, c))))
  }

  function AvgEventsMaker(rows: seq<Result>): string -> AvgEventsRow {
    (c: string) => AvgEventsRowOf(rows, c)
  }

  /** One row per competition of the country's results. */
  function AverageEventsPerCompetition(resultsCountry: seq<Result>): (t: seq<AvgEventsRow>)
    ensures Sorted(t, AvgEventsKey)
    ensures |t| == |Values(resultsCountry, CompetitionOf)|
  {
    DistinctImage(resultsCountry, CompetitionOf);
    SortBy(MapSeq(Distinct(MapSeq(resultsCountry, CompetitionOf)), AvgEventsMaker(resultsCountry)), AvgEventsKey)
  }

  lemma {:induction false} SumBounds(xs: seq<int>, lo: int, hi: int)
    requires forall i :: 0 <= i < |xs| ==> lo <= xs[i] <= hi
    ensures |xs| * lo <= Sum(xs) <= |xs| * hi
  {
    if xs != [] {
      SumBounds(xs[1..], lo, hi);
      assert |xs| * lo == lo + |xs[1..]| * lo;
      assert |xs| * hi == hi + |xs[1..]| * hi;
    }
  }

  lemma MeanBounds(s: int, n: nat, e: nat)
    requires 0 < n && n <= s <= n * e
    ensures 1.0 <= s as real / n as real <= e as real
  {
    var q := s as real / n as real;
    var m := n as real;
    assert q * m == s as real;
    assert (n * e) as real == m * e as real;
    assert (q - 1.0) * m == s as real - m;
    NonNegativeFactor(q - 1.0, m);
    assert (e as real - q) * m == (n * e) as real - s as real;
    NonNegativeFactor(e as real - q, m);
  }

  lemma NonNegativeFactor(a: real, b: real)
    requires b > 0.0 && a * b >= 0.0
    ensures a >= 0.0
  {
  }

  /** Each competitor of `c` is in between one and all of its events. */
  lemma PersonEventsWithin(rows: seq<Result>, c: string, pid: string)
    requires pid in CompetitorsAt(rows, c)
    ensures 1 <= |PersonEventsAt(rows, c, pid)| <= |EventsAt(rows, c)|
  {
    GroupImage(rows, CompPerson, (c, pid), EventIdOf);
    GroupImage(rows, CompetitionOf, c, EventIdOf);
    GroupImage(rows, CompetitionOf, c, PersonIdOf);
    var mine := GroupValues(rows, CompPerson, (c, pid), EventIdOf);
    var atC := GroupValues(rows, CompetitionOf, c, EventIdOf);
    forall e | e in mine ensures e in atC {
      var x :| x in rows && CompPerson(x) == (c, pid) && EventIdOf(x) == e;
      assert CompetitionOf(x) == c;
    }
    SubsetCardLe(mine, atC);
    var r :| r in rows && CompetitionOf(r) == c && PersonIdOf(r) == pid;
    assert EventIdOf(r) in mine;
  }

  /** The mean over the competitors of a competition that has a result. */
  lemma MeanWithin(rows: seq<Result>, c: string, r: Result)
    requires r in rows && r.competitionId == c
    ensures 1.0 <= AvgEventsRowOf(rows, c).avgEvents <= |EventsAt(rows, c)| as real
  {
    var cs := CompetitorsAt(rows, c);
    var xs := MapSeq(cs, PersonEventCount(rows, c));
    forall i | 0 <= i < |xs| ensures 1 <= xs[i] <= |EventsAt(rows, c)| {
      assert xs[i] == |PersonEventsAt(rows, c, cs[i])|;
      PersonEventsWithin(rows, c, cs[i]);
    }
    SumBounds(xs, 1, |EventsAt(rows, c)|);
    GroupImage(rows, CompetitionOf, c, PersonIdOf);
    assert CompetitionOf(r) == c && PersonIdOf(r) == r.personId;
    assert r.personId in cs;
    MeanBounds(Sum(xs), |xs|, |EventsAt(rows, c)|);
  }

  /** The number of distinct events competitor `p` entered at `c`. */
  ghost function EventsOfCompetitor(rows: seq<Result>, c: string): string -> int {
    (p: string) => |GroupValues(rows, CompPerson, (c, p), EventIdOf)|
  }

  /** Each competitor's count of distinct events is the size of their events set. */
  lemma CompetitorCounts(rows: seq<Result>, c: string)
    ensures Sum(MapSeq(CompetitorsAt(rows, c), PersonEventCount(rows, c))) == SumOf(CompetitorsAt(rows, c), EventsOfCompetitor(rows, c))
  {
    var cs := CompetitorsAt(rows, c);
    forall p | p in cs ensures PersonEventCount(rows, c)(p) == EventsOfCompetitor(rows, c)(p) {
      GroupImage(rows, CompPerson, (c, p), EventIdOf);
    }
    SumOfPointwise(cs, PersonEventCount(rows, c), EventsOfCompetitor(rows, c));
  }

  /** For a competition with a result, the competitors listed are its distinct
      competitors, and the average is the sum of their distinct-event counts
      over their number. */
  lemma AvgEventsValue(rows: seq<Result>, c: string, r: Result)
    requires r in rows && r.competitionId == c
    ensures forall p :: p in CompetitorsAt(rows, c) <==> p in GroupValues(rows, CompetitionOf, c, PersonIdOf)
    ensures |GroupValues(rows, CompetitionOf, c, PersonIdOf)| >= 1
    ensures AvgEventsRowOf(rows, c).avgEvents ==
      SumOf(CompetitorsAt(rows, c), EventsOfCompetitor(rows, c)) as real / |GroupValues(rows, CompetitionOf, c, PersonIdOf)| as real
  {
    var cs := CompetitorsAt(rows, c);
    var xs := MapSeq(cs, PersonEventCount(rows, c));
    GroupImage(rows, CompetitionOf, c, PersonIdOf);
    CompetitorCounts(rows, c);
    assert r.personId in cs by {
      assert CompetitionOf(r) == c && PersonIdOf(r) == r.personId;
    }
    var n := |GroupValues(rows, CompetitionOf, c, PersonIdOf)|;
    assert |xs| == n;
    assert xs != [];
    assert Mean(xs) == Sum(xs) as real / n as real;
    assert AvgEventsRowOf(rows, c).avgEvents == Mean(xs);
  }

  /** Events counts the distinct events of a competition that has a result,
      the average is the mean over its distinct competitors of their distinct
      events, and it is at least one and at most the events count. */
  lemma AvgEventsBounds(resultsCountry: seq<Result>, a: AvgEventsRow)
    requires a in AverageEventsPerCompetition(resultsCountry)
    ensures exists r :: r in resultsCountry && r.competitionId == a.competition
    ensures a.events == |GroupValues(resultsCountry, CompetitionOf, a.competition, EventIdOf)|
    ensures |GroupValues(resultsCountry, CompetitionOf, a.competition, PersonIdOf)| >= 1
    ensures a.avgEvents == SumOf(CompetitorsAt(resultsCountry, a.competition), EventsOfCompetitor(resultsCountry, a.competition)) as real
      / |GroupValues(resultsCountry, CompetitionOf, a.competition, PersonIdOf)| as real
    ensures 1.0 <= a.avgEvents <= a.events as real
  {
    var rows := resultsCountry;
    PerKeyMember(rows, CompetitionOf, AvgEventsMaker(rows), AvgEventsKey, a);
    var r :| r in rows && a == AvgEventsMaker(rows)(CompetitionOf(r));
    var c := a.competition;
    assert a == AvgEventsRowOf(rows, c);
    GroupImage(rows, CompetitionOf, c, EventIdOf);
    MeanWithin(rows, c, r);
    AvgEventsValue(rows, c, r);
  }

  function AvgCompetitionOf(a: AvgEventsRow): string { a.competition }

  /** A row is in the table exactly when its competition has a result and it
      is that competition's row. */
  lemma AvgEventsRows(resultsCountry: seq<Result>, a: AvgEventsRow)
    ensures a in AverageEventsPerCompetition(resultsCountry) <==>
      (exists r :: r in resultsCountry && r.competitionId == a.competition) && a == AvgEventsRowOf(resultsCountry, a.competition)
  {
    PerKeyRows(resultsCountry, CompetitionOf, AvgEventsMaker(resultsCountry), AvgEventsKey, AvgCompetitionOf, a);
  }

  /** The table has one row per competition. */
  lemma AvgEventsOnePerCompetition(resultsCountry: seq<Result>)
    ensures NoDuplicates(MapSeq(AverageEventsPerCompetition(resultsCountry), AvgCompetitionOf))
  {
    MadeColumnDistinct(Distinct(MapSeq(resultsCountry, CompetitionOf)), AvgEventsMaker(resultsCountry), AvgEventsKey, AvgCompetitionOf);
  }

  /** A competition with its ratio of average events to events. */
  datatype ParticipatedRow = ParticipatedRow(competition: string, events: nat, avgEvents: real, ratio: real)

  function RatioKey(p: ParticipatedRow): Key { [RealDesc(p.ratio)] }

  predicate ManyEvents(a: AvgEventsRow) { a.events > 1 }

  /** Avg / Events; rows with no event are filtered out before it is read. */
  function RatioOf(a: AvgEventsRow): ParticipatedRow {
    ParticipatedRow(a.competition, a.events, a.avgEvents, if a.events == 0 then 0.0 else a.avgEvents / a.events as real)
  }

  /** The average-events table restricted to competitions with more than one
      event, by ratio. */
  function MostParticipated(avgevents: seq<AvgEventsRow>): (t: seq<ParticipatedRow>)
    ensures Sorted(t, RatioKey)
    ensures |t| == Count(avgevents, ManyEvents)
  {
    SortBy(MapSeq(Filter(avgevents, ManyEvents), RatioOf), RatioKey)
  }

  lemma RatioBounds(a: AvgEventsRow)
    requires 1 < a.events && 1.0 <= a.avgEvents <= a.events as real
    ensures var p := RatioOf(a);
      p.events > 1 && 0.0 < p.ratio <= 1.0 && p.ratio == p.avgEvents / p.events as real
  {
  }

  /** A row is listed iff it comes from a competition with more than one event. */
  lemma MostParticipatedMembers(avgevents: seq<AvgEventsRow>, p: ParticipatedRow)
    ensures p in MostParticipated(avgevents) <==> exists a :: a in avgevents && a.events > 1 && p == RatioOf(a)
  {
    var many := Filter(avgevents, ManyEvents);
    SortByMembers(MapSeq(many, RatioOf), RatioKey);
    MapSeqMember(many, RatioOf, p);
  }

  /** When every average lies between one and the event count, as
      `AvgEventsBounds` proves of the average-events table, every ratio lies
      in (0, 1] and is the average over the event count. */
  lemma MostParticipatedRatio(avgevents: seq<AvgEventsRow>, p: ParticipatedRow)
    requires forall a :: a in avgevents ==> 1.0 <= a.avgEvents <= a.events as real
    requires p in MostParticipated(avgevents)
    ensures p.events > 1 && 0.0 < p.ratio <= 1.0 && p.ratio == p.avgEvents / p.events as real
  {
    MostParticipatedMembers(avgevents, p);
    var a :| a in avgevents && a.events > 1 && p == RatioOf(a);
    RatioBounds(a);
  }

  // ---------------------------------------------------------------------
  // Bronze and silver membership
  // ---------------------------------------------------------------------

  /** A member, the event they completed last and the date they completed it. */
  datatype MemberRow = MemberRow(wcaId: string, name: string, lastEvent: string, completionDate: int)

  function MemberKey(m: MemberRow): Key { [IntAsc(m.completionDate)] }

  function MemberIdOf(m: MemberRow): string { m.wcaId }

  function BestOf(r: Result): int { r.best }

  function AverageOf(r: Result): int { r.average }

  /** A valid single (or average, as `metric` says) in one of `events`. */
  function ValidIn(events: seq<string>, metric: Result -> int): Result -> bool {
    (r: Result) => metric(r) > 0 && r.eventId in events
  }

  function PersonEvent(r: Result): (string, string) { (r.personId, r.eventId) }

  function MinDate(rows: seq<Result>): (d: int)
    requires rows != []
    ensures exists r :: r in rows && r.date == d
    ensures forall r :: r in rows ==> d <= r.date
  {
    if |rows| == 1 then rows[0].date
    else
      var rest := MinDate(rows[1..]);
      if rows[0].date <= rest then rows[0].date else rest
  }

  /** The date of `pid`'s earliest row in `e` among `valid` (0 when there is none). */
  function FirstDate(valid: seq<Result>, pid: string, e: string): int {
    var g := Filter(valid, KeyIs(PersonEvent, (pid, e)));
    if g == [] then 0 else MinDate(g)
  }

  /** `FirstDate` is the earliest date of `pid`'s rows in `e`. */
  lemma FirstDateIs(valid: seq<Result>, pid: string, e: string)
    ensures forall r :: r in valid && PersonEvent(r) == (pid, e) ==> FirstDate(valid, pid, e) <= r.date
    ensures (exists r :: r in valid && PersonEvent(r) == (pid, e)) ==>
      exists r :: r in valid && PersonEvent(r) == (pid, e) && r.date == FirstDate(valid, pid, e)
  {
    var g := Filter(valid, KeyIs(PersonEvent, (pid, e)));
    forall r | r in valid && PersonEvent(r) == (pid, e) ensures r in g {
      assert KeyIs(PersonEvent, (pid, e))(r);
    }
    if g != [] {
      var d := MinDate(g);
      var r :| r in g && r.date == d;
      assert KeyIs(PersonEvent, (pid, e))(r);
    }
  }

  /** An event of `es` whose first date is latest, with that date. */
  function LastCompletion(valid: seq<Result>, pid: string, es: seq<string>): (string, int) {
    if es == [] then ("", 0)
    else if |es| == 1 then (es[0], FirstDate(valid, pid, es[0]))
    else
      var rest := LastCompletion(valid, pid, es[1..]);
      if FirstDate(valid, pid, es[0]) >= rest.1 then (es[0], FirstDate(valid, pid, es[0])) else rest
  }

  /** The event found is one of `es`, and no event of `es` has a later first date. */
  lemma {:induction false} LastCompletionIs(valid: seq<Result>, pid: string, es: seq<string>)
    ensures var c := LastCompletion(valid, pid, es);
      && (es != [] ==> c.0 in es && c.1 == FirstDate(valid, pid, c.0))
      && forall e :: e in es ==> FirstDate(valid, pid, e) <= c.1
  {
    if |es| > 1 {
      LastCompletionIs(valid, pid, es[1..]);
      assert forall e :: e in es ==> e == es[0] || e in es[1..];
    }
  }

  function MemberRowOf(valid: seq<Result>, persons: Persons, pid: string): MemberRow {
    var last := LastCompletion(valid, pid, EventsOf(valid, pid));
    MemberRow(pid, NameIn(persons, pid), last.0, last.1)
  }

  function MemberMaker(valid: seq<Result>, persons: Persons): string -> MemberRow {
    (pid: string) => MemberRowOf(valid, persons, pid)
  }

  /** In the persons table and with `n` distinct events among `valid`. */
  function CompletesAll(valid: seq<Result>, persons: Persons, n: nat): string -> bool {
    (pid: string) => pid in persons && |EventsOf(valid, pid)| == n
  }

  function ValidRows(results: seq<Result>, events: seq<string>, metric: Result -> int): (valid: seq<Result>)
    ensures forall r :: r in valid <==> r in results && metric(r) > 0 && r.eventId in events
  {
    Filter(results, ValidIn(events, metric))
  }

  /** The persons with a valid result in as many distinct events of `events`
      as `events` has entries, by completion date. */
  function Membership(results: seq<Result>, persons: Persons, events: seq<string>, metric: Result -> int): (t: seq<MemberRow>)
    ensures Sorted(t, MemberKey)
  {
    var valid := ValidRows(results, events, metric);
    SortBy(MapSeq(Filter(Distinct(MapSeq(valid, PersonIdOf)), CompletesAll(valid, persons, |events|)), MemberMaker(valid, persons)), MemberKey)
  }

  /** An official single in every current event. */
  function BronzeMembership(resultsFixed: seq<Result>, persons: Persons, currentEvents: seq<string>): (t: seq<MemberRow>)
    ensures Sorted(t, MemberKey)
  {
    Membership(resultsFixed, persons, currentEvents, BestOf)
  }

  /** The current events except 3x3 multi-blind, which has no average. */
  function SilverEvents(currentEvents: seq<string>): (es: seq<string>)
    ensures forall e :: e in es <==> e in currentEvents && e != "333mbf"
    ensures |es| <= |currentEvents|
  {
    Filter(currentEvents, (e: string) => e != "333mbf")
  }

  /** An official average in every current event that has averages. */
  function SilverMembership(resultsFixed: seq<Result>, persons: Persons, currentEvents: seq<string>): (t: seq<MemberRow>)
    ensures Sorted(t, MemberKey)
  {
    Membership(resultsFixed, persons, SilverEvents(currentEvents), AverageOf)
  }

  lemma MembershipRows(results: seq<Result>, persons: Persons, events: seq<string>, metric: Result -> int, m: MemberRow)
    ensures var valid := ValidRows(results, events, metric);
      m in Membership(results, persons, events, metric) <==>
        && m.wcaId in persons
        && (exists r :: r in valid && r.personId == m.wcaId)
        && |EventsOf(valid, m.wcaId)| == |events|
        && m == MemberRowOf(valid, persons, m.wcaId)
  {
    var valid := ValidRows(results, events, metric);
    var sel := Filter(Distinct(MapSeq(valid, PersonIdOf)), CompletesAll(valid, persons, |events|));
    SortByMembers(MapSeq(sel, MemberMaker(valid, persons)), MemberKey);
    MapSeqMember(sel, MemberMaker(valid, persons), m);
    MapSeqMember(valid, PersonIdOf, m.wcaId);
  }

  /** "As many distinct valid events as `events` has entries" is "every event
      of `events` completed" when `events` has no duplicates; with duplicates
      nobody qualifies. */
  lemma CompletesAllIff(valid: seq<Result>, events: seq<string>, pid: string)
    requires forall r :: r in valid ==> r.eventId in events
    ensures |EventsOf(valid, pid)| == |events| ==> Elems(events) == EventSet(valid, pid) && NoDuplicates(events)
    ensures NoDuplicates(events) && Elems(events) <= EventSet(valid, pid) ==> |EventsOf(valid, pid)| == |events|
  {
    var done := EventSet(valid, pid);
    var req := Elems(events);
    EventsOfSet(valid, pid);
    forall e | e in done ensures e in req {
      var r :| r in valid && PersonIdOf(r) == pid && EventIdOf(r) == e;
    }
    SubsetCardLe(done, req);
    ElemsCard(events);
    if |EventsOf(valid, pid)| == |events| {
      SubsetEqualCard(done, req);
    }
    if NoDuplicates(events) && req <= done {
      assert done == req;
    }
  }

  /** Listed iff in the persons table, with a valid row and with as many
      distinct valid events as `events` has entries. */
  lemma MemberListed(results: seq<Result>, persons: Persons, events: seq<string>, metric: Result -> int, pid: string)
    ensures var valid := ValidRows(results, events, metric);
      (exists m :: m in Membership(results, persons, events, metric) && m.wcaId == pid) <==>
        pid in persons && (exists r :: r in valid && r.personId == pid) && |EventsOf(valid, pid)| == |events|
  {
    var valid := ValidRows(results, events, metric);
    MembershipRows(results, persons, events, metric, MemberRowOf(valid, persons, pid));
    if exists m :: m in Membership(results, persons, events, metric) && m.wcaId == pid {
      var m :| m in Membership(results, persons, events, metric) && m.wcaId == pid;
      MembershipRows(results, persons, events, metric, m);
    }
  }

  /** Every event of `events` is among `pid`'s valid events iff `pid` has a
      valid result in each of them. */
  lemma CoveredIn(results: seq<Result>, events: seq<string>, metric: Result -> int, pid: string)
    ensures Elems(events) <= EventSet(ValidRows(results, events, metric), pid) <==>
      forall e :: e in events ==> exists r :: r in results && r.personId == pid && r.eventId == e && metric(r) > 0
  {
    var valid := ValidRows(results, events, metric);
    if Elems(events) <= EventSet(valid, pid) {
      forall e | e in events ensures exists r :: r in results && r.personId == pid && r.eventId == e && metric(r) > 0 {
        assert e in Elems(events);
        var r :| r in valid && PersonIdOf(r) == pid && EventIdOf(r) == e;
      }
    }
    if forall e :: e in events ==> exists r :: r in results && r.personId == pid && r.eventId == e && metric(r) > 0 {
      forall e | e in Elems(events) ensures e in EventSet(valid, pid) {
        var r :| r in results && r.personId == pid && r.eventId == e && metric(r) > 0;
        assert r in valid && PersonIdOf(r) == pid && EventIdOf(r) == e;
      }
    }
  }

  /** With distinct, non-empty `events`, a person is listed iff they are in
      the persons table and have a valid result in every one of the events. */
  lemma MembershipIff(results: seq<Result>, persons: Persons, events: seq<string>, metric: Result -> int, pid: string)
    requires events != [] && NoDuplicates(events)
    ensures (exists m :: m in Membership(results, persons, events, metric) && m.wcaId == pid) <==>
      && pid in persons
      && forall e :: e in events ==> exists r :: r in results && r.personId == pid && r.eventId == e && metric(r) > 0
  {
    var valid := ValidRows(results, events, metric);
    MemberListed(results, persons, events, metric, pid);
    CoveredIn(results, events, metric, pid);
    CompletesAllIff(valid, events, pid);
    if Elems(events) <= EventSet(valid, pid) {
      assert events[0] in Elems(events);
      var r :| r in valid && PersonIdOf(r) == pid && EventIdOf(r) == events[0];
      assert r.personId == pid;
    }
  }

  /** The row of a qualifying person, on the valid rows. */
  lemma MemberCore(valid: seq<Result>, persons: Persons, events: seq<string>, pid: string)
    requires exists r :: r in valid && r.personId == pid
    requires |EventsOf(valid, pid)| == |events|
    requires forall r :: r in valid ==> r.eventId in events
    ensures var m := MemberRowOf(valid, persons, pid);
      && m.lastEvent in events
      && m.completionDate == FirstDate(valid, pid, m.lastEvent)
      && (forall e :: e in events ==> FirstDate(valid, pid, e) <= m.completionDate)
      && (forall e :: e in events ==> exists r :: r in valid && PersonEvent(r) == (pid, e))
  {
    var m := MemberRowOf(valid, persons, pid);
    CompletesAllIff(valid, events, pid);
    EventsOfSet(valid, pid);
    var es := EventsOf(valid, pid);
    var rv :| rv in valid && rv.personId == pid;
    assert PersonIdOf(rv) == pid;
    assert EventIdOf(rv) in EventSet(valid, pid);
    LastCompletionIs(valid, pid, es);
    assert m.lastEvent in Elems(events);
    forall e | e in events ensures exists r :: r in valid && PersonEvent(r) == (pid, e) {
      assert e in Elems(events);
      var r :| r in valid && PersonIdOf(r) == pid && EventIdOf(r) == e;
      assert PersonEvent(r) == (pid, e);
    }
    forall e | e in events ensures FirstDate(valid, pid, e) <= m.completionDate {
      assert e in Elems(events);
    }
  }

  /** A member's row: the completion date is the first valid date of the last
      event, no event's first valid date is later, and every event has a
      valid result. */
  lemma MemberRowFacts(results: seq<Result>, persons: Persons, events: seq<string>, metric: Result -> int, m: MemberRow)
    requires m in Membership(results, persons, events, metric)
    ensures m.wcaId in persons && m.name == persons[m.wcaId].name
    ensures var valid := ValidRows(results, events, metric);
      && m.lastEvent in events
      && m.completionDate == FirstDate(valid, m.wcaId, m.lastEvent)
      && (forall e :: e in events ==> FirstDate(valid, m.wcaId, e) <= m.completionDate)
      && (forall e :: e in events ==> exists r :: r in valid && PersonEvent(r) == (m.wcaId, e))
  {
    MembershipRows(results, persons, events, metric, m);
    MemberCore(ValidRows(results, events, metric), persons, events, m.wcaId);
  }

  // ---------------------------------------------------------------------
  // Gold and platinum membership
  // ---------------------------------------------------------------------

  /** `t` occurs in `s` as a contiguous substring. */
  predicate HasInfix(s: string, t: string)
    decreases |s|
  {
    if |s| < |t| then false else s[..|t|] == t || HasInfix(s[1..], t)
  }

  predicate EndsWith(s: string, t: string) {
    |t| <= |s| && s[|s| - |t|..] == t
  }

  predicate IsWorldType(c: Championship) {
    EndsWith(c.championshipType, "world")
  }

  function WorldIds(championships: seq<Championship>): seq<string> {
    MapSeq(Filter(championships, IsWorldType), CompetitionIdOf)
  }

  /** Any round with pos at most 3 at a world championship. */
  predicate WcPodium(results: seq<Result>, wcIds: seq<string>, pid: string) {
    exists r :: r in results && r.personId == pid && r.competitionId in wcIds && r.pos <= 3
  }

  predicate WrTag(t: Option<string>) {
    t.Some? && HasInfix(t.value, "WR")
  }

  /** A continental record: a tag that is neither a world nor a national record. */
  predicate CrTag(t: Option<string>) {
    t.Some? && !HasInfix(t.value, "WR") && !HasInfix(t.value, "NR")
  }

  predicate HasWr(results: seq<Result>, pid: string) {
    exists r :: r in results && r.personId == pid && (WrTag(r.regionalSingleRecord) || WrTag(r.regionalAverageRecord))
  }

  predicate HasCr(results: seq<Result>, pid: string) {
    exists r :: r in results && r.personId == pid && (CrTag(r.regionalSingleRecord) || CrTag(r.regionalAverageRecord))
  }

  datatype GoldRow = GoldRow(wcaId: string, name: string, goldCondition: string)

  datatype PlatinumRow = PlatinumRow(wcaId: string, name: string)

  /** The conditions met, in the order the gold table lists them. */
  function GoldConditions(results: seq<Result>, wcIds: seq<string>, pid: string): seq<string> {
    (if WcPodium(results, wcIds, pid) then ["World Championship Podium"] else []) +
    (if HasWr(results, pid) then ["World Record"] else []) +
    (if HasCr(results, pid) then ["Continental Record"] else [])
  }

  function IsGold(results: seq<Result>, wcIds: seq<string>, persons: Persons): string -> bool {
    (pid: string) => pid in persons && (WcPodium(results, wcIds, pid) || HasWr(results, pid) || HasCr(results, pid))
  }

  function IsPlatinum(results: seq<Result>, wcIds: seq<string>, persons: Persons): string -> bool {
    (pid: string) => pid in persons && WcPodium(results, wcIds, pid) && HasWr(results, pid) && HasCr(results, pid)
  }

  function GoldMaker(results: seq<Result>, wcIds: seq<string>, persons: Persons): string -> GoldRow {
    (pid: string) => GoldRow(pid, NameIn(persons, pid), JoinWith(GoldConditions(results, wcIds, pid), ", "))
  }

  function PlatinumMaker(persons: Persons): string -> PlatinumRow {
    (pid: string) => PlatinumRow(pid, NameIn(persons, pid))
  }

  function SilverIds(silver: seq<MemberRow>): seq<string> {
    Distinct(MapSeq(silver, MemberIdOf))
  }

  /** Silver members with a world championship podium, a world record or a
      continental record. An empty silver table gives an empty result, as the
      early return of the source does. */
  function GoldMembership(resultsFixed: seq<Result>, persons: Persons, silver: seq<MemberRow>, championships: seq<Championship>): (t: seq<GoldRow>)
    ensures silver == [] ==> t == []
  {
    var wc := WorldIds(championships);
    MapSeq(Filter(SilverIds(silver), IsGold(resultsFixed, wc, persons)), GoldMaker(resultsFixed, wc, persons))
  }

  /** Silver members with all three. */
  function PlatinumMembership(resultsFixed: seq<Result>, persons: Persons, silver: seq<MemberRow>, championships: seq<Championship>): (t: seq<PlatinumRow>)
    ensures silver == [] ==> t == []
  {
    var wc := WorldIds(championships);
    MapSeq(Filter(SilverIds(silver), IsPlatinum(resultsFixed, wc, persons)), PlatinumMaker(persons))
  }

  lemma SilverIdsMember(silver: seq<MemberRow>, pid: string)
    ensures pid in SilverIds(silver) <==> exists m :: m in silver && m.wcaId == pid
  {
    MapSeqMember(silver, MemberIdOf, pid);
  }

  lemma WorldIdsMember(championships: seq<Championship>, id: string)
    ensures id in WorldIds(championships) <==> exists c :: c in championships && IsWorldType(c) && c.competitionId == id
  {
    MapSeqMember(Filter(championships, IsWorldType), CompetitionIdOf, id);
  }

  /** A silver member of the persons table is gold iff they have a world
      championship podium, a world record or a continental record. */
  lemma GoldIff(resultsFixed: seq<Result>, persons: Persons, silver: seq<MemberRow>, championships: seq<Championship>, pid: string)
    ensures var wc := WorldIds(championships);
      (exists g :: g in GoldMembership(resultsFixed, persons, silver, championships) && g.wcaId == pid) <==>
        && (exists m :: m in silver && m.wcaId == pid)
        && pid in persons
        && (WcPodium(resultsFixed, wc, pid) || HasWr(resultsFixed, pid) || HasCr(resultsFixed, pid))
  {
    var wc := WorldIds(championships);
    var sel := Filter(SilverIds(silver), IsGold(resultsFixed, wc, persons));
    var make := GoldMaker(resultsFixed, wc, persons);
    SilverIdsMember(silver, pid);
    MapSeqMember(sel, make, make(pid));
    if exists g :: g in GoldMembership(resultsFixed, persons, silver, championships) && g.wcaId == pid {
      var g: GoldRow :| g in MapSeq(sel, make) && g.wcaId == pid;
      MapSeqMember(sel, make, g);
    }
  }

  /** A silver member of the persons table is platinum iff they have all of a
      world championship podium, a world record and a continental record. */
  lemma PlatinumIff(resultsFixed: seq<Result>, persons: Persons, silver: seq<MemberRow>, championships: seq<Championship>, pid: string)
    ensures var wc := WorldIds(championships);
      (exists p :: p in PlatinumMembership(resultsFixed, persons, silver, championships) && p.wcaId == pid) <==>
        && (exists m :: m in silver && m.wcaId == pid)
        && pid in persons
        && WcPodium(resultsFixed, wc, pid) && HasWr(resultsFixed, pid) && HasCr(resultsFixed, pid)
  {
    var wc := WorldIds(championships);
    var sel := Filter(SilverIds(silver), IsPlatinum(resultsFixed, wc, persons));
    var make := PlatinumMaker(persons);
    SilverIdsMember(silver, pid);
    MapSeqMember(sel, make, make(pid));
    if exists p :: p in PlatinumMembership(resultsFixed, persons, silver, championships) && p.wcaId == pid {
      var p: PlatinumRow :| p in MapSeq(sel, make) && p.wcaId == pid;
      MapSeqMember(sel, make, p);
    }
  }

  /** The tiers nest: platinum members are gold members, who are silver members. */
  lemma TiersNest(resultsFixed: seq<Result>, persons: Persons, silver: seq<MemberRow>, championships: seq<Championship>, pid: string)
    ensures (exists p :: p in PlatinumMembership(resultsFixed, persons, silver, championships) && p.wcaId == pid) ==>
      exists g :: g in GoldMembership(resultsFixed, persons, silver, championships) && g.wcaId == pid
    ensures (exists g :: g in GoldMembership(resultsFixed, persons, silver, championships) && g.wcaId == pid) ==>
      exists m :: m in silver && m.wcaId == pid
  {
    PlatinumIff(resultsFixed, persons, silver, championships, pid);
    GoldIff(resultsFixed, persons, silver, championships, pid);
  }

  /** A gold row names its person and lists at least one condition. */
  lemma GoldRowFacts(resultsFixed: seq<Result>, persons: Persons, silver: seq<MemberRow>, championships: seq<Championship>, g: GoldRow)
    requires g in GoldMembership(resultsFixed, persons, silver, championships)
    ensures g.wcaId in persons && g.name == persons[g.wcaId].name
    ensures GoldConditions(resultsFixed, WorldIds(championships), g.wcaId) != []
    ensures g.goldCondition != ""
  {
    var wc := WorldIds(championships);
    var sel := Filter(SilverIds(silver), IsGold(resultsFixed, wc, persons));
    MapSeqMember(sel, GoldMaker(resultsFixed, wc, persons), g);
    var pid :| pid in sel && g == GoldMaker(resultsFixed, wc, persons)(pid);
    GoldMadeFacts(resultsFixed, wc, persons, pid);
  }

  /** The row made for a gold person names them and lists a condition. */
  lemma GoldMadeFacts(results: seq<Result>, wcIds: seq<string>, persons: Persons, pid: string)
    requires IsGold(results, wcIds, persons)(pid)
    ensures var g := GoldMaker(results, wcIds, persons)(pid);
      && g.wcaId in persons && g.name == persons[g.wcaId].name
      && GoldConditions(results, wcIds, g.wcaId) != []
      && g.goldCondition != ""
  {
    var conds := GoldConditions(results, wcIds, pid);
    assert forall i :: 0 <= i < |conds| ==> conds[i] != "";
    JoinWithNonEmpty(conds, ", ");
  }

  lemma {:induction false} JoinWithNonEmpty(parts: seq<string>, sep: string)
    requires parts != [] && forall i :: 0 <= i < |parts| ==> parts[i] != ""
    ensures JoinWith(parts, sep) != ""
  {
    if |parts| > 1 {
      assert |JoinWith(parts, sep)| >= |parts[0]|;
    }
  }
}
