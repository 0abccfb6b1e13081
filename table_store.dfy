/** The shared `db_tables` dictionary, reduced to the derived tables that
    statistics write back for later ones to read: the national winners, the
    average events per competition, the silver members and the national
    single records. */
module TableStore {
  import opened Tables
  import opened Championships
  import opened Events
  import opened Records

  /** A derived table, tagged with the statistic that wrote it. */
  datatype Table =
    | NatsChampions(winners: seq<WinnerRow>)
    | AvgEvents(avg: seq<AvgEventsRow>)
    | Silver(members: seq<MemberRow>)
    | NationalRecords(records: seq<RecordRow>)

  /** Every average lies between one and the competition's event count. */
  predicate AveragesWithin(avg: seq<AvgEventsRow>) {
    forall a :: a in avg ==> 1.0 <= a.avgEvents <= a.events as real
  }

  /** Some person has an official average in every silver event: the
      `silver_ids` list is non-empty, so the silver table is stored. */
  predicate SilverQualified(resultsFixed: seq<Result>, currentEvents: seq<string>) {
    var events := SilverEvents(currentEvents);
    var valid := ValidRows(resultsFixed, events, AverageOf);
    exists r :: r in valid && |EventsOf(valid, r.personId)| == |events|
  }

  /** A table fits a key when the key is the one its writer stores it under;
      stored averages are within their bounds. */
  predicate Fits(k: string, v: Table) {
    match v
    case NatsChampions(_) => k == "nats_champions"
    case AvgEvents(avg) => k == "avgevents" && AveragesWithin(avg)
    case Silver(_) => k == "silver"
    case NationalRecords(_) => k == "national_records_single"
  }

  /** Each key holds a table of its writer. */
  predicate TablesFit(m: map<string, Table>) {
    forall k :: k in m ==> Fits(k, m[k])
  }

  /** Storing a fitting table keeps every key fitting. */
  lemma StoreFits(m: map<string, Table>, k: string, v: Table)
    requires TablesFit(m) && Fits(k, v)
    ensures TablesFit(m[k := v])
  {
  }

  class DbTables {
    var tables: map<string, Table>

    ghost predicate Valid()
      reads this
    {
      TablesFit(tables)
    }

    constructor()
      ensures tables == map[] && Valid()
    {
      tables := map[];
    }

    /** The stored silver table, or no rows when none is stored. */
    function StoredSilver(): seq<MemberRow>
      reads this
    {
      if "silver" in tables && tables["silver"].Silver? then tables["silver"].members else []
    }

    /** `compute_italian_championship_winners_event`: the whole winners table
        is stored before the optional event filter is applied to the result. */
    method ComputeChampionshipWinners(resultsCountry: seq<Result>, nats: seq<string>, nationality: string, event: Option<string>)
      returns (t: seq<WinnerRow>)
      requires Valid()
      modifies this
      ensures tables == old(tables)["nats_champions" := NatsChampions(ChampionshipWinners(resultsCountry, nats, nationality))]
      ensures Valid()
      ensures t == WinnersOfEvent(ChampionshipWinners(resultsCountry, nats, nationality), event)
      ensures forall w :: w in t ==> w in tables["nats_champions"].winners
    {
      var champs := ChampionshipWinners(resultsCountry, nats, nationality);
      t := WinnersOfEvent(champs, event);
      assert forall w :: w in t ==> w in champs;
      StoreFits(tables, "nats_champions", NatsChampions(champs));
      tables := tables["nats_champions" := NatsChampions(champs)];
    }

    /** `compute_average_events_per_competition`: computed and stored. */
    method ComputeAverageEventsPerCompetition(resultsCountry: seq<Result>) returns (t: seq<AvgEventsRow>)
      requires Valid()
      modifies this
      ensures t == AverageEventsPerCompetition(resultsCountry)
      ensures tables == old(tables)["avgevents" := AvgEvents(t)]
      ensures Valid()
    {
      t := AverageEventsPerCompetition(resultsCountry);
      forall a | a in t ensures 1.0 <= a.avgEvents <= a.events as real {
        AvgEventsBounds(resultsCountry, a);
      }
      StoreFits(tables, "avgevents", AvgEvents(t));
      tables := tables["avgevents" := AvgEvents(t)];
    }

    /** `compute_most_participated_competition`: reads the stored averages;
        without them the lookup fails and nothing is returned. Every ratio
        it lists lies in (0, 1]. */
    method ComputeMostParticipatedCompetition() returns (o: Option<seq<ParticipatedRow>>)
      requires Valid()
      ensures "avgevents" !in tables <==> o.None?
      ensures o.Some? ==> o.value == MostParticipated(tables["avgevents"].avg)
      ensures o.Some? ==> forall p :: p in o.value ==> p.events > 1 && 0.0 < p.ratio <= 1.0
    {
      if "avgevents" !in tables {
        return None;
      }
      var avg := tables["avgevents"].avg;
      var t := MostParticipated(avg);
      forall p | p in t ensures p.events > 1 && 0.0 < p.ratio <= 1.0 {
        MostParticipatedRatio(avg, p);
      }
      o := Some(t);
    }

    /** `compute_silver_membership`: stored only when somebody qualifies;
        otherwise the empty table is returned and nothing is stored. */
    method ComputeSilverMembership(resultsFixed: seq<Result>, persons: Persons, currentEvents: seq<string>) returns (t: seq<MemberRow>)
      requires Valid()
      modifies this
      ensures t == SilverMembership(resultsFixed, persons, currentEvents)
      ensures tables == if SilverQualified(resultsFixed, currentEvents) then old(tables)["silver" := Silver(t)] else old(tables)
      ensures Valid()
    {
      if !SilverQualified(resultsFixed, currentEvents) {
        t := [];
        FailedSilverIsEmpty(resultsFixed, persons, currentEvents);
        return;
      }
      t := SilverMembership(resultsFixed, persons, currentEvents);
      StoreFits(tables, "silver", Silver(t));
      tables := tables["silver" := Silver(t)];
    }

    /** `compute_gold_membership`, on the stored silver table (empty when none
        is stored): every gold member is a stored silver member. */
    method ComputeGoldMembership(resultsFixed: seq<Result>, persons: Persons, championships: seq<Championship>) returns (t: seq<GoldRow>)
      ensures t == GoldMembership(resultsFixed, persons, StoredSilver(), championships)
      ensures StoredSilver() == [] ==> t == []
      ensures forall g :: g in t ==> exists m :: m in StoredSilver() && m.wcaId == g.wcaId
    {
      var silver := StoredSilver();
      t := GoldMembership(resultsFixed, persons, silver, championships);
      forall g | g in t ensures exists m :: m in silver && m.wcaId == g.wcaId {
        TiersNest(resultsFixed, persons, silver, championships, g.wcaId);
      }
    }

    /** `compute_platinum_membership`, on the stored silver table: every
        platinum member is a gold member. */
    method ComputePlatinumMembership(resultsFixed: seq<Result>, persons: Persons, championships: seq<Championship>) returns (t: seq<PlatinumRow>)
      ensures t == PlatinumMembership(resultsFixed, persons, StoredSilver(), championships)
      ensures StoredSilver() == [] ==> t == []
      ensures forall p :: p in t ==> exists g :: g in GoldMembership(resultsFixed, persons, StoredSilver(), championships) && g.wcaId == p.wcaId
    {
      var silver := StoredSilver();
      t := PlatinumMembership(resultsFixed, persons, silver, championships);
      forall p | p in t ensures exists g :: g in GoldMembership(resultsFixed, persons, silver, championships) && g.wcaId == p.wcaId {
        TiersNest(resultsFixed, persons, silver, championships, p.wcaId);
      }
    }

    /** `compute_national_records_single`, as intended: the record rows,
        stored unless there are none. */
    method ComputeNationalRecordsSingle(ranksSingle: seq<RankRow>, resultsNationality: seq<Result>, currentEvents: seq<string>)
      returns (t: seq<RecordRow>)
      requires Valid()
      modifies this
      ensures t == NationalRecordsSingle(ranksSingle, resultsNationality, currentEvents)
      ensures tables == if t == [] then old(tables) else old(tables)["national_records_single" := NationalRecords(t)]
      ensures Valid()
    {
      t := NationalRecordsSingle(ranksSingle, resultsNationality, currentEvents);
      if t == [] {
        return;
      }
      StoreFits(tables, "national_records_single", NationalRecords(t));
      tables := tables["national_records_single" := NationalRecords(t)];
    }
  }

  /** When nobody completes every silver event the silver table is empty. */
  lemma FailedSilverIsEmpty(resultsFixed: seq<Result>, persons: Persons, currentEvents: seq<string>)
    requires !SilverQualified(resultsFixed, currentEvents)
    ensures SilverMembership(resultsFixed, persons, currentEvents) == []
  {
    var events := SilverEvents(currentEvents);
    var t := SilverMembership(resultsFixed, persons, currentEvents);
    if t != [] {
      MembershipRows(resultsFixed, persons, events, AverageOf, t[0]);
      assert false;
    }
  }
}
