/** Number of distinct Italian regions each competitor has competed in
    (`compute_most_regions`), and the ISTAT code table of the regions. */
module Regions {
  import opened Tables
  import opened Ordering

  /** `REGIONS_DICT`: the ISTAT code of each region. */
  const RegionCodes: map<string, int> := map[
    "Piemonte" := 1, "Valle d'Aosta" := 2, "Lombardia" := 3, "Trentino-Alto Adige" := 4,
    "Veneto" := 5, "Friuli-Venezia Giulia" := 6, "Liguria" := 7, "Emilia-Romagna" := 8,
    "Toscana" := 9, "Umbria" := 10, "Marche" := 11, "Lazio" := 12,
    "Abruzzo" := 13, "Molise" := 14, "Campania" := 15, "Puglia" := 16,
    "Basilicata" := 17, "Calabria" := 18, "Sicilia" := 19, "Sardegna" := 20]

  /** The regions in code order: `RegionNames[i]` has code `i + 1`. */
  const RegionNames: seq<string> := [
    "Piemonte", "Valle d'Aosta", "Lombardia", "Trentino-Alto Adige",
    "Veneto", "Friuli-Venezia Giulia", "Liguria", "Emilia-Romagna",
    "Toscana", "Umbria", "Marche", "Lazio",
    "Abruzzo", "Molise", "Campania", "Puglia",
    "Basilicata", "Calabria", "Sicilia", "Sardegna"]

  lemma RegionCodesInverse()
    ensures |RegionNames| == 20
    ensures forall i :: 0 <= i < 20 ==> RegionNames[i] in RegionCodes && RegionCodes[RegionNames[i]] == i + 1
    ensures forall a :: a in RegionCodes ==> a in RegionNames
  {
    RegionNamesCoded();
    RegionCodesNamed();
  }

  lemma RegionNamesCoded()
    ensures |RegionNames| == 20
    ensures forall i :: 0 <= i < 20 ==> RegionNames[i] in RegionCodes && RegionCodes[RegionNames[i]] == i + 1
  {
    forall i | 0 <= i < 20 ensures RegionNames[i] in RegionCodes && RegionCodes[RegionNames[i]] == i + 1 {
      if i < 10 {
        RegionNamesCodedLow(i);
      } else {
        RegionNamesCodedHigh(i);
      }
    }
  }

  lemma RegionNamesCodedLow(i: int)
    requires 0 <= i < 10
    ensures RegionNames[i] in RegionCodes && RegionCodes[RegionNames[i]] == i + 1
  {
  }

  lemma RegionNamesCodedHigh(i: int)
    requires 10 <= i < 20
    ensures RegionNames[i] in RegionCodes && RegionCodes[RegionNames[i]] == i + 1
  {
  }

  lemma RegionCodesNamed()
    ensures forall a :: a in RegionCodes ==> a in RegionNames
  {
  }

  /** The twenty regions carry the twenty distinct codes 1..20. */
  lemma RegionCodesDistinct()
    ensures |RegionCodes| == 20
    ensures forall v :: v in RegionCodes.Values <==> 1 <= v <= 20
    ensures forall a, b :: a in RegionCodes && b in RegionCodes && a != b ==> RegionCodes[a] != RegionCodes[b]
  {
    RegionCodesCount();
    RegionCodesRange();
    RegionCodesInjective();
  }

  lemma RegionCodesCount()
    ensures |RegionCodes| == 20
  {
    RegionCodesInverse();
    assert NoDuplicates(RegionNames) by {
      forall i, j | 0 <= i < j < 20 ensures RegionNames[i] != RegionNames[j] {
        assert RegionCodes[RegionNames[i]] != RegionCodes[RegionNames[j]];
      }
    }
    assert RegionCodes.Keys == Elems(RegionNames);
    ElemsCard(RegionNames);
  }

  lemma RegionCodesRange()
    ensures forall v :: v in RegionCodes.Values <==> 1 <= v <= 20
  {
    RegionCodesInverse();
    forall v ensures v in RegionCodes.Values <==> 1 <= v <= 20 {
      if 1 <= v <= 20 {
        assert RegionCodes[RegionNames[v - 1]] == v;
      }
      if v in RegionCodes.Values {
        var a :| a in RegionCodes && RegionCodes[a] == v;
        var i :| 0 <= i < 20 && RegionNames[i] == a;
      }
    }
  }

  lemma RegionCodesInjective()
    ensures forall a, b :: a in RegionCodes && b in RegionCodes && a != b ==> RegionCodes[a] != RegionCodes[b]
  {
    RegionCodesInverse();
    forall a, b | a in RegionCodes && b in RegionCodes && a != b ensures RegionCodes[a] != RegionCodes[b] {
      var i :| 0 <= i < 20 && RegionNames[i] == a;
      var j :| 0 <= j < 20 && RegionNames[j] == b;
    }
  }

  /** One row of the `regions` table: the region a city belongs to. */
  datatype RegionRow = RegionRow(cityName: string, regionName: string)

  /** One row of the results-regions join, reduced to the columns used. */
  datatype Visit = Visit(personId: string, regionName: string)

  function VisitPerson(v: Visit): string { v.personId }
  function VisitRegion(v: Visit): string { v.regionName }

  function CityIs(city: string): RegionRow -> bool {
    (g: RegionRow) => g.cityName == city
  }

  function VisitOf(pid: string): RegionRow -> Visit {
    (g: RegionRow) => Visit(pid, g.regionName)
  }

  /** The joined rows of one result: one per region row of its city. */
  function VisitsOf(regions: seq<RegionRow>): Result -> seq<Visit> {
    (r: Result) => MapSeq(Filter(regions, CityIs(r.cityName)), VisitOf(r.personId))
  }

  /** Inner join of the results with the region rows on the city name. */
  function Visits(results: seq<Result>, regions: seq<RegionRow>): seq<Visit> {
    Flatten(MapSeq(results, VisitsOf(regions)))
  }

  lemma VisitsMember(results: seq<Result>, regions: seq<RegionRow>, v: Visit)
    ensures v in Visits(results, regions) <==>
      exists r, g :: r in results && g in regions && g.cityName == r.cityName && v == Visit(r.personId, g.regionName)
  {
    var parts := MapSeq(results, VisitsOf(regions));
    FlattenMember(parts, v);
    if v in Visits(results, regions) {
      var p :| p in parts && v in p;
      MapSeqMember(results, VisitsOf(regions), p);
      var r :| r in results && p == VisitsOf(regions)(r);
      var hits := Filter(regions, CityIs(r.cityName));
      MapSeqMember(hits, VisitOf(r.personId), v);
      var g :| g in hits && v == VisitOf(r.personId)(g);
      assert g.cityName == r.cityName && v == Visit(r.personId, g.regionName);
    }
    if exists r, g :: r in results && g in regions && g.cityName == r.cityName && v == Visit(r.personId, g.regionName) {
      var r, g :| r in results && g in regions && g.cityName == r.cityName && v == Visit(r.personId, g.regionName);
      var hits := Filter(regions, CityIs(r.cityName));
      assert CityIs(r.cityName)(g);
      assert v == VisitOf(r.personId)(g);
      MapSeqMember(hits, VisitOf(r.personId), v);
      MapSeqMember(results, VisitsOf(regions), VisitsOf(regions)(r));
    }
  }

  /** The regions a person has competed in: those of the cities of their results. */
  ghost function RegionsVisited(results: seq<Result>, regions: seq<RegionRow>, pid: string): set<string> {
    set r, g | r in results && g in regions && r.personId == pid && g.cityName == r.cityName :: g.regionName
  }

  datatype RegionsCountRow = RegionsCountRow(wcaId: string, name: Option<string>, regions: nat)

  function RegionsKey(row: RegionsCountRow): Key { [IntDesc(row.regions)] }

  /** The number of distinct region names over one person's joined rows. */
  function RegionsRowOf(visits: seq<Visit>, persons: Persons, pid: string): RegionsCountRow {
    RegionsCountRow(pid, NameOf(persons, pid),
      |Distinct(MapSeq(Filter(visits, KeyIs(VisitPerson, pid)), VisitRegion))|)
  }

  function RegionsMaker(visits: seq<Visit>, persons: Persons): string -> RegionsCountRow {
    pid => RegionsRowOf(visits, persons, pid)
  }

  /** `compute_most_regions`: one row per person of the join, with the names
      attached by a left join, sorted by the number of regions, descending. */
  function MostRegions(resultsFixed: seq<Result>, persons: Persons, regions: seq<RegionRow>): (t: seq<RegionsCountRow>)
    ensures Sorted(t, RegionsKey)
  {
    var visits := Visits(resultsFixed, regions);
    SortBy(MapSeq(Distinct(MapSeq(visits, VisitPerson)), RegionsMaker(visits, persons)), RegionsKey)
  }

  function RegionsIdOf(row: RegionsCountRow): string { row.wcaId }

  /** The table lists each person once. */
  lemma RegionsOnePerPerson(resultsFixed: seq<Result>, persons: Persons, regions: seq<RegionRow>)
    ensures NoDuplicates(MapSeq(MostRegions(resultsFixed, persons, regions), RegionsIdOf))
  {
    var visits := Visits(resultsFixed, regions);
    MadeColumnDistinct(Distinct(MapSeq(visits, VisitPerson)), RegionsMaker(visits, persons), RegionsKey, RegionsIdOf);
  }

  /** One person's distinct regions, read off the joined rows. */
  lemma RegionsOfVisits(results: seq<Result>, regions: seq<RegionRow>, pid: string)
    ensures GroupValues(Visits(results, regions), VisitPerson, pid, VisitRegion) == RegionsVisited(results, regions, pid)
  {
    var visits := Visits(results, regions);
    var a := GroupValues(visits, VisitPerson, pid, VisitRegion);
    var b := RegionsVisited(results, regions, pid);
    forall n | n in a ensures n in b {
      var v :| v in visits && VisitPerson(v) == pid && n == VisitRegion(v);
      VisitsMember(results, regions, v);
      var r, g :| r in results && g in regions && g.cityName == r.cityName && v == Visit(r.personId, g.regionName);
      assert r.personId == pid && n == g.regionName;
    }
    forall n | n in b ensures n in a {
      var r, g :| r in results && g in regions && r.personId == pid && g.cityName == r.cityName && n == g.regionName;
      var v := Visit(r.personId, g.regionName);
      VisitsMember(results, regions, v);
      assert VisitPerson(v) == pid && n == VisitRegion(v);
    }
  }

  /** The row made for a person counts the regions they have competed in. */
  lemma RegionsRowCount(resultsFixed: seq<Result>, persons: Persons, regions: seq<RegionRow>, pid: string)
    ensures RegionsRowOf(Visits(resultsFixed, regions), persons, pid).regions == |RegionsVisited(resultsFixed, regions, pid)|
  {
    GroupImage(Visits(resultsFixed, regions), VisitPerson, pid, VisitRegion);
    RegionsOfVisits(resultsFixed, regions, pid);
  }

  /** A listed row is the row made for a person of the join: their name and
      the count of their regions, at least one. */
  lemma MostRegionsListed(resultsFixed: seq<Result>, persons: Persons, regions: seq<RegionRow>, row: RegionsCountRow)
    requires row in MostRegions(resultsFixed, persons, regions)
    ensures exists r, g :: r in resultsFixed && g in regions && g.cityName == r.cityName && r.personId == row.wcaId
    ensures row.name == NameOf(persons, row.wcaId)
    ensures row.regions == |RegionsVisited(resultsFixed, regions, row.wcaId)| >= 1
  {
    var visits := Visits(resultsFixed, regions);
    PerKeyMember(visits, VisitPerson, RegionsMaker(visits, persons), RegionsKey, row);
    var v :| v in visits && row == RegionsMaker(visits, persons)(VisitPerson(v));
    VisitsMember(resultsFixed, regions, v);
    var r, g :| r in resultsFixed && g in regions && g.cityName == r.cityName && v == Visit(r.personId, g.regionName);
    var visited := RegionsVisited(resultsFixed, regions, row.wcaId);
    assert g.regionName in visited;
    RegionsRowCount(resultsFixed, persons, regions, row.wcaId);
  }

  /** The row of a person of the join, with their name and region count, is listed. */
  lemma MostRegionsComplete(resultsFixed: seq<Result>, persons: Persons, regions: seq<RegionRow>, r: Result, g: RegionRow, row: RegionsCountRow)
    requires r in resultsFixed && g in regions && g.cityName == r.cityName && r.personId == row.wcaId
    requires row.name == NameOf(persons, row.wcaId)
    requires row.regions == |RegionsVisited(resultsFixed, regions, row.wcaId)|
    ensures row in MostRegions(resultsFixed, persons, regions)
  {
    var visits := Visits(resultsFixed, regions);
    var v := Visit(r.personId, g.regionName);
    VisitsMember(resultsFixed, regions, v);
    RegionsRowCount(resultsFixed, persons, regions, row.wcaId);
    assert row == RegionsMaker(visits, persons)(VisitPerson(v));
    PerKeyMember(visits, VisitPerson, RegionsMaker(visits, persons), RegionsKey, row);
  }

  /** A person is listed iff one of their results is in a city of the regions
      table (the join is inner), once, with their left-joined name and the
      number of distinct regions of those cities, at least one. */
  lemma MostRegionsRows(resultsFixed: seq<Result>, persons: Persons, regions: seq<RegionRow>, row: RegionsCountRow)
    ensures row in MostRegions(resultsFixed, persons, regions) <==>
      (exists r, g :: r in resultsFixed && g in regions && g.cityName == r.cityName && r.personId == row.wcaId)
      && row.name == NameOf(persons, row.wcaId)
      && row.regions == |RegionsVisited(resultsFixed, regions, row.wcaId)|
    ensures row in MostRegions(resultsFixed, persons, regions) ==> row.regions >= 1
  {
    var pid := row.wcaId;
    if row in MostRegions(resultsFixed, persons, regions) {
      MostRegionsListed(resultsFixed, persons, regions, row);
    }
    if (exists r, g :: r in resultsFixed && g in regions && g.cityName == r.cityName && r.personId == pid)
      && row.name == NameOf(persons, pid) && row.regions == |RegionsVisited(resultsFixed, regions, pid)|
    {
      var r, g :| r in resultsFixed && g in regions && g.cityName == r.cityName && r.personId == pid;
      MostRegionsComplete(resultsFixed, persons, regions, r, g, row);
    }
  }
}
