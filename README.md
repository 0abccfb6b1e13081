# wca-statistics in Dafny

This project models the statistics that wca-statistics computes from the
World Cube Association (WCA) results export for one nationality and one
country. The statistics are:

- **national championships**: the winners, the medal table, win streaks, the
  albo d'oro (roll of honour), the world and European podiums, final
  appearances, championships competed, title retention and sweeps;
- **event statistics**: most events won or podiumed, participation per event,
  event combinations, average events per competition, the most participated
  competitions, and the bronze, silver, gold and platinum memberships;
- **relays**: the official relays, each summing national-ranking singles over
  a fixed list of events;
- **sum of ranks** over single results;
- **current national single records**;
- **regions visited**, and the region codes;
- **most frequent competition names and countries**;
- **two helpers**: the centisecond formatter `timeconvert`, and the
  comma-separated lists of the configuration.

Each table is a sequence of rows. Each statistic is a function over the input
tables, or a method where the source loops or changes state. Lemmas say what
every row of a table means in terms of the input rows.

Modules, in the order they build on each other:

- `Tables`: the input rows, plus filtering, counting, distinct values and "the
  first minimum-`pos` row per group". These stand in for pandas `query`,
  `groupby`, `nunique`, `nth(0)` and `drop_duplicates`.
- `Ordering`: lexicographic sort keys and a stable sort. The sort's contract
  says the output is sorted and is a permutation of its input. This stands in
  for `sort_values`.
- `UtilsWca`: `timeconvert`, and the list parsing of `load_config`.
- `Championships`, `Events`, `Relays`, `SorKinch`, `Records`, `Regions`,
  `Competitions`: one module per statistics file.
- `Pivot`: the person × event pivot with the "one behind the worst" fill. It is
  shared by `Relays` and `SorKinch`.
- `TableStore`: the shared `db_tables` dictionary. It is a class holding a map
  from table name to stored table, with the statistics that write a table
  into it or read one from it.

Sorting: pandas `sort_values` does not promise an order among equal keys, so
every contract about a sorted table states only two things. The table is
sorted by its key, and its rows are exactly the rows described.

Records: the source and its description disagree about
`compute_national_records_single`. The description says the function stores
the formatted records. The code as written can only ever return an empty
table or nothing (see Findings). The model follows the code for the
as-written member, and models the intended table separately.

## Model

| member | source | states |
|---|---|---|
| Championships.FinalistSlice | modules/championships.py:97-103 | a row is kept iff it is a final or combined final at a national championship, with a valid single, by a national, and of the given event when one is given |
| Championships.ChampionshipWinners | modules/championships.py:13-71 | the winners table is sorted by (year, event) |
| Championships.WinnersIff | modules/championships.py:32-57 | a row is a winner iff it comes from a national finalist whose `pos` is the smallest among the nationals of that (competition, event); ties all win |
| Championships.WinnersOfEvent | modules/championships.py:65-68 | with an event, exactly the winners of that event are kept; without one, the table is unchanged |
| Championships.MedalTable | modules/championships.py:77-137 | the table is sorted by gold, silver, bronze (descending), and is empty when no row passes the filter |
| Championships.MedalTableRows | modules/championships.py:110-125 | a row is in the table iff its person has a row in the filtered results and it holds that person's medal counts, so every such person is listed |
| Championships.MedalOnePerPerson | modules/championships.py:118-125 | no person is listed twice |
| Championships.PodiumsAreMedals | modules/championships.py:113-116 | a person's podiums are their golds plus silvers plus bronzes |
| Championships.MedalTablePodiums | modules/championships.py:113-121 | in the table, podiums = gold + silver + bronze, and podiums never exceed the person's filtered rows |
| Championships.GoldIsGroupBest | modules/championships.py:110-113 | a row earns gold iff its `pos` is the minimum among the nationals of its (competition, event) |
| Championships.StreakIds | modules/championships.py:187 | the streak id starts at 1 and grows by one exactly where the winner differs from the previous row's |
| Championships.StreakIdsMono | modules/championships.py:187 | streak ids never decrease along the winners |
| Championships.SameStreakIff | modules/championships.py:187 | two rows share a streak id iff every winner between them is the same person |
| Championships.EventWinners | modules/championships.py:176-184 | an event's winners are exactly the winners of that event, in year order |
| Championships.Streaks | modules/championships.py:143-209 | the streaks table is sorted by consecutive wins (descending) then event, and is empty when no row passes the filter |
| Championships.StreakRowIsLongestRun | modules/championships.py:189-198 | the row made for a winner has as its count that winner's longest run of consecutive titles |
| Championships.EventStreakIsLongestRun | modules/championships.py:189-198 | every streak row of one event is a longest run of its winner in that event |
| Championships.StreakIsLongestRun | modules/championships.py:143-209 | every row of the streaks table is, for its event, a longest run of consecutive titles of its person |
| Championships.EventStreakRows | modules/championships.py:189-198 | the streak rows of one event are exactly the rows made for that event's winners |
| Championships.EventStreaksDistinct | modules/championships.py:189-198 | within one event, no (person, name) is listed twice |
| Championships.WinnerStreakRows | modules/championships.py:189-198 | the per-event streak rows, concatenated, are exactly the rows made for the winners, each for their own event |
| Championships.StreakRows | modules/championships.py:143-209 | a row is in the table iff it is the row of some (competition, event) winner for their event, so every (event, winner) pair is listed |
| Championships.StreaksOnePerWinner | modules/championships.py:189-198 | no (event, person, name) is listed twice |
| Championships.AlboSlice | modules/championships.py:235-238 | a row is kept iff it is a national-championship final of the event with a valid single, of any nationality |
| Championships.AlboDOro | modules/championships.py:215-278 | the albo d'oro is sorted by wins (descending), and is empty when the event has no national final |
| Championships.AlboWinsSum | modules/championships.py:245-265 | the wins add up to the number of distinct (competition, event) finals: each final has exactly one winner |
| Championships.AlboRowWins | modules/championships.py:256-266 | a row is in the table iff its person won some (competition, event) group and it holds that person's wins and years; every row has at least one win |
| Championships.AlboOnePerPerson | modules/championships.py:256-266 | no person is listed twice |
| Championships.WinYearsAscending | modules/championships.py:269-272 | a person's win years are strictly increasing, so sorted and without repeats |
| Championships.WinYearsMembers | modules/championships.py:269-272 | a year is listed iff the person won a final that year |
| Championships.IntlFinals | modules/championships.py:325-330 | a row is kept iff it is a final with a valid single at one of the given competitions |
| Championships.PodiumYear | modules/championships.py:368 | the year is the last four characters of the competition id (all of it when shorter) |
| Championships.InternationalPodiums | modules/championships.py:284-384 | the loop over the two championship types collects exactly the per-type podiums; the result is sorted by (year, type, event, pos) and is a permutation of them |
| Championships.NoChampionshipsNoPodiums | modules/championships.py:306-315 | when there is no world or European championship, there are no podiums |
| Championships.WorldPodiumIff | modules/championships.py:335-337 | a world podium row comes exactly from a world-championship final with a valid single, by a national placed at most third, at that place |
| Championships.EuropeanRank | modules/championships.py:341-344 | the European rank of a row is one plus the number of Europeans placed strictly better in the same (competition, event) |
| Championships.EuropeanPodiumSound | modules/championships.py:339-349 | every European podium row comes from a national whose European rank is at most three, reported at that rank |
| Championships.EuropeanPodiumComplete | modules/championships.py:339-349 | every national with European rank at most three gives a European podium row |
| Championships.EuropeanPodiumIff | modules/championships.py:339-349 | a row is a European podium iff it comes from a national with European rank at most three, at that rank |
| Championships.RowsPerPerson | modules/championships.py:416-428 | the per-person counts are sorted by count (descending), and are empty when there are no rows |
| Championships.RowsPerPersonMembers | modules/championships.py:416-428 | a person appears iff they have a row, with their number of rows and their left-joined name |
| Championships.RowsPerPersonTotal | modules/championships.py:416-420 | the counts add up to the number of rows; final appearances are counted per row |
| Championships.RowsPerPersonDistinct | modules/championships.py:416-428 | no person is listed twice |
| Championships.NationalFinalAppearancesMembers | modules/championships.py:390-434 | a person is listed iff they have a final or combined final at a national championship, with their number of such finals |
| Championships.MajorCompIdsMember | modules/championships.py:506 | the ids picked are exactly those of the world and European championships |
| Championships.MajorFinalAppearancesMembers | modules/championships.py:488-534 | a person is listed iff they have a final with a valid single at a world or European championship, with their number of such finals |
| Championships.NationalFinalRows | modules/championships.py:407-409 | final appearances count every final or combined final at a national championship, valid or not |
| Championships.NationalValidRows | modules/championships.py:455 | championships competed considers every valid result at a national championship, in any round |
| Championships.NationalChampionshipsCompeted | modules/championships.py:440-482 | the table is sorted by count (descending), and is empty without valid national-championship results |
| Championships.ChampionshipsCompetedCount | modules/championships.py:462-466 | a person's count is the number of distinct national championships they have a valid result at: at least one, at most their rows |
| Championships.ChampionshipsCompetedRows | modules/championships.py:440-482 | a person is listed iff they have a valid result at a national championship, with their left-joined name and their number of distinct national championships |
| Championships.ChampionshipsCompetedDistinct | modules/championships.py:460-465 | no person is listed twice |
| Championships.CompetitionsCount | modules/championships.py:462-466 | the distinct competitions of a person are as many as their competition set, at least one and at most their rows |
| Championships.NatsFinals | modules/championships.py:558-560 | a row is kept iff it is a national-championship final with a valid single |
| Championships.Retained | modules/championships.py:576-584 | no more retentions than transitions (rows after the first) |
| Championships.TitleRetention | modules/championships.py:540-597 | the table is sorted by (rate, transitions) descending then event, and is empty without national finals |
| Championships.YearWinners | modules/championships.py:567-571 | the first minimum-`pos` row per (year, event) leaves one winner for every year and event with a final, and no other row |
| Championships.EventWinnersIncreasing | modules/championships.py:567-573 | the winners of one event are in strictly increasing years |
| Championships.EventWinnersYears | modules/championships.py:567-573 | a year appears among an event's winners iff the event had a national final that year |
| Championships.EventWinnersCount | modules/championships.py:567-573 | an event has exactly one winner per year in which it had a national final |
| Championships.WinnerYearsFacts | modules/championships.py:576-581 | an event's winner years are strictly increasing and are exactly its championship years |
| Championships.TransitionsSkipGaps | modules/championships.py:576-581 | consecutive transitions compare consecutive championship years: no championship year lies between them, so a year without a final is skipped |
| Championships.RetentionOfFacts | modules/championships.py:583-591 | for an event with at least two winners: transitions = championship years - 1, retained + failed = transitions, rate = retained / transitions, within [0, 1] |
| Championships.RetentionRowFacts | modules/championships.py:583-593 | every row of the table has these properties for its event |
| Championships.RetentionRows | modules/championships.py:540-597 | an event is listed iff it has national champions in at least two years, with its retention row |
| Championships.RetentionOnePerEvent | modules/championships.py:583-589 | no event is listed twice |
| Championships.SweepSlice | modules/championships.py:618-620 | a row is kept iff it is a national-championship final with a valid single in a required event |
| Championships.Sweeps | modules/championships.py:603-646 | the sweeps are sorted by (year, competition), and are empty without such finals |
| Championships.EventsOwnedSet | modules/championships.py:633-637 | the events a (competition, year, person) owns are counted once each |
| Championships.SweepCore | modules/championships.py:633-641 | owning as many events as are required means winning every required event |
| Championships.SweepIff | modules/championships.py:603-646 | a (year, competition, person) is a sweep iff that person is the best-placed row in every required event of that competition |
| Events.EventsOfSet | modules/events.py:37-42 | a person's distinct events are their event set, counted once each |
| Events.MostEventsBy | modules/events.py:8-58 | the table is sorted by events (descending), then events competed in (ascending) |
| Events.MostEventsMembers | modules/events.py:26-53 | a person appears iff they are among the persons and have a qualifying final |
| Events.MostEventsOnePerPerson | modules/events.py:29-49 | no person is listed twice, for wins and for podiums alike |
| Events.MostEventsRowFacts | modules/events.py:26-53 | a row holds the person's name, their distinct qualifying events and their distinct events overall; the first is at least one and at most the second |
| Events.MostEventsWon | modules/events.py:8-58 | winners of finals with a result, one row per person, sorted |
| Events.MostEventsPodiumed | modules/events.py:64-114 | podium finishers of finals with a result, one row per person, sorted |
| Events.WonWithinPodiumed | modules/events.py:26-35 | every winner is also listed as a podium finisher, and an event won is an event podiumed, so won ≤ podiumed |
| Events.EventParticipation | modules/events.py:120-162 | the table is sorted by percentage (descending), and is empty when the nationality has no competitors |
| Events.ParticipationMembers | modules/events.py:139-157 | an event appears iff it has a result; then it holds its number of distinct competitors and the percentage of all the nationality's competitors, which is positive |
| Events.ParticipationOnePerEvent | modules/events.py:146-150 | no event is listed twice |
| Events.PercentBounds | modules/events.py:152 | the percentage of a non-zero count is positive, and at most 100 when the count does not exceed the total |
| Events.EventCombinations | modules/events.py:168-205 | the table is sorted by (competitions descending, combination ascending), and is empty when the country hosts no competition |
| Events.CombinationMembers | modules/events.py:184-200 | a combination appears iff a competition in the country has it, with the number of distinct such competitions |
| Events.CombinationsOnePerSpec | modules/events.py:192-197 | no event combination is listed twice |
| Events.AverageEventsPerCompetition | modules/events.py:211-260 | one row per competition, sorted by average (descending) |
| Events.PersonEventsWithin | modules/events.py:238-240 | a competitor takes part in at least one and at most all of the competition's events |
| Events.MeanWithin | modules/events.py:238-244 | the average events per competitor lies in [1, events of the competition] |
| Events.CompetitorCounts | modules/events.py:238-242 | each competitor's count is the size of the set of events they entered at the competition |
| Events.AvgEventsValue | modules/events.py:238-244 | the competitors averaged over are the distinct competitors of the competition, and the average is the sum of their distinct-event counts divided by their number |
| Events.AvgEventsBounds | modules/events.py:231-252 | every row is a competition with results, holds its distinct events, has as average the mean over its distinct competitors of their distinct events, and that average is in [1, events] |
| Events.AvgEventsRows | modules/events.py:231-252 | a row is in the table iff its competition has a result and it is that competition's row, so every competition with results is listed |
| Events.AvgEventsOnePerCompetition | modules/events.py:231-252 | no competition is listed twice |
| Events.MostParticipated | modules/events.py:266-293 | keeps exactly the competitions with more than one event, sorted by ratio (descending) |
| Events.MostParticipatedMembers | modules/events.py:283-287 | a row appears iff it is the ratio row of a competition with more than one event |
| Events.MostParticipatedRatio | modules/events.py:283-287 | with averages within their bounds, every ratio lies in (0, 1] |
| Events.ValidRows | modules/events.py:321-323 | a row is kept iff it has a valid result in one of the events |
| Events.FirstDateIs | modules/events.py:321-327 | the first date of a (person, event) is the earliest of its valid results, and is attained |
| Events.LastCompletionIs | modules/events.py:348-355 | the completing event is the one with the latest first date, and the completion date is that date |
| Events.Membership | modules/events.py:299-371 | members are sorted by completion date |
| Events.BronzeMembership | modules/events.py:299-371 | bronze: a valid single in every current event |
| Events.SilverEvents | modules/events.py:395 | the silver events are the current events except 333mbf |
| Events.SilverMembership | modules/events.py:377-451 | silver: a valid average in every current event except 333mbf |
| Events.MembershipRows | modules/events.py:330-366 | a row appears iff its person is among the persons, has valid results, and has as many distinct events as are required; the row is made from them |
| Events.CompletesAllIff | modules/events.py:339-340 | having as many distinct events as required is having every required event, when the list has no repeats |
| Events.MembershipIff | modules/events.py:299-371 | a person is a member iff they are a known person with a valid result in every required event |
| Events.MemberCore | modules/events.py:348-355 | a member's last event is one of the required events, its date is that event's first date, and it is no earlier than any other required event's first date |
| Events.MemberRowFacts | modules/events.py:348-366 | every member row holds the person's name; its last event and completion date are the latest first completion |
| Events.GoldMembership | modules/events.py:457-540 | without silver members there are no gold members |
| Events.PlatinumMembership | modules/events.py:546-621 | without silver members there are no platinum members |
| Events.WorldIdsMember | modules/events.py:486-490 | a competition counts as a world championship iff its championship type ends in "world" |
| Events.GoldIff | modules/events.py:483-515 | a person is gold iff they are a silver member and a known person, with a world-championship podium, a world record or a continental record |
| Events.PlatinumIff | modules/events.py:572-604 | a person is platinum iff they are a silver member and a known person, with all three achievements |
| Events.TiersNest | modules/events.py:512-515 | every platinum member is gold, and every gold member is silver |
| Events.GoldRowFacts | modules/events.py:522-535 | every gold row holds the person's name and a non-empty list of the conditions met |
| Relays.MinOf | modules/relays.py:49 | the minimum of a non-empty list is in it and below every element |
| Relays.MaxOf | modules/relays.py:48-51 | the maximum of a non-empty list is in it and above every element; it bounds the median rank from above |
| Relays.MedianBounds | modules/relays.py:50 | the median lies between the minimum and the maximum |
| Relays.GlobalRankMaxIs | modules/relays.py:45 | the highest national rank over the table exists iff the table is non-empty, and it is attained |
| Relays.RelayRanks | modules/relays.py:38-45 | a person's ranks are, per event, their filled rank |
| Relays.RankFillGlobal | modules/relays.py:45 | a missing rank is one more than the worst rank of the whole table, so behind everyone |
| Relays.RelayScores | modules/relays.py:31-63 | the unformatted table is sorted by (total, median rank) |
| Relays.RelayScoresMember | modules/relays.py:31-60 | a row appears iff its person has a rank in one of the events and is a known person; the row is that person's score row |
| Relays.RelayOnePerPerson | modules/relays.py:31-63 | no person is listed twice, before or after rendering |
| Relays.RelayTimes | modules/relays.py:34-59 | every row holds the person's name, one filled best per event (a missing event is one behind that event's worst), and as total their sum |
| Relays.RelayRankStats | modules/relays.py:38-51 | every row's best rank is the minimum and its median rank the median of the person's filled ranks, with best ≤ median ≤ worst |
| Relays.RenderColumns | modules/relays.py:66-67 | formatting every column gives every row with each cell formatted, or the empty table when a cell cannot be formatted |
| Relays.ComputeRelayBase | modules/relays.py:8-77 | the relay computation returns the formatted relay table of the events |
| Relays.RelayMissingEvent | modules/relays.py:44-77 | when nobody has a rank in one of the events, formatting fails and the empty table is returned |
| Relays.RelayRendered | modules/relays.py:44-70 | when every event has a ranked person, every cell is a number and the table is formatted row by row |
| Relays.RelayEventLists | modules/relays.py:78-109 | the relay event lists have 12, 10, 3, 3 and 3 distinct events, and the mini Guilford events are among the Guilford ones |
| Relays.OfficialGuilford | modules/relays.py:78-83 | the Guilford relay over its 12 events |
| Relays.OfficialMiniGuilford | modules/relays.py:86-91 | the mini Guilford relay over its 10 events |
| Relays.OfficialLuckyRelay | modules/relays.py:94-96 | the lucky relay over 222, pyram, skewb |
| Relays.OfficialBlindRelay | modules/relays.py:99-101 | the blindfolded relay over 333bf, 444bf, 555bf |
| Relays.MasterRelay | modules/relays.py:104-106 | the 3x3 master relay over 333, 333oh, 333bf |
| Pivot.Lookup | modules/sor_kinch.py:27-33 | the pivot cell of (person, event) is a row of that person and event, or is missing only when there is none |
| Pivot.LookupUnique | modules/sor_kinch.py:27-33 | with one row per (person, event), a row's cell is that row |
| Pivot.ColumnMaxIs | modules/sor_kinch.py:37 | an event column's maximum exists iff the event has a row, bounds the column and is attained |
| Pivot.PivotRow | modules/sor_kinch.py:27-37 | a person's pivot row has one filled cell per event, in the order of the events |
| Pivot.FilledOwn | modules/sor_kinch.py:27-37 | a person's own value is kept unfilled |
| Pivot.FilledMissing | modules/sor_kinch.py:37 | a missing value in a column with rows is filled strictly behind every value of that column |
| Pivot.FilledEmpty | modules/sor_kinch.py:37 | a column without rows stays NaN |
| Pivot.PivotIgnoresOtherEvents | modules/sor_kinch.py:23 | filtering the ranks to the events first does not change any pivot row |
| Pivot.CellSumUpdate | modules/sor_kinch.py:40 | changing one numeric cell changes the row sum by the difference |
| SorKinch.SorSingle | modules/sor_kinch.py:8-55 | the sum-of-ranks table is sorted by the sum (ascending) |
| SorKinch.SorRows | modules/sor_kinch.py:23-50 | a row appears iff its person has a rank in a current event; it holds their filled ranks in event order, their sum and their left-joined name |
| SorKinch.SorOnePerPerson | modules/sor_kinch.py:27-32 | no person is listed twice |
| SorKinch.SorFillWorse | modules/sor_kinch.py:37 | an event where the person has no rank counts strictly behind everyone ranked there; an event without ranks stays NaN |
| SorKinch.SorMonotone | modules/sor_kinch.py:27-40 | improving one of a person's ranks by d lowers exactly their sum by d |
| Records.RowsOf | modules/records.py:26-30 | the rows a candidate contributes all carry its person, its best and the type "single" |
| Records.LeftJoin | modules/records.py:23-32 | the left join keeps at least one row per candidate |
| Records.RecordRows | modules/records.py:23-38 | the joined table has at least as many rows as candidates, all of type "single" |
| Records.RowsOfMember | modules/records.py:26-30 | a candidate's rows are its joins with the matching results, or one unmatched row when nothing matches |
| Records.LeftJoinMember | modules/records.py:26-30 | a row is in the join iff it is a row of some candidate |
| Records.LeftJoinLength | modules/records.py:26-30 | the join has, per candidate, max(1, matching results) rows |
| Records.RecordRowsLength | modules/records.py:21-32 | the table's length is that sum over the current-event candidates and current-event results |
| Records.RecordRowsEmpty | modules/records.py:34-36 | the table is empty iff no rank row is a national record (rank 1) in a current event |
| Records.RecordRowSource | modules/records.py:23-38 | every row comes from a rank-1 candidate in a current event; a row with a competition matches a result of that person, event and best, and a row without one matches none |
| Records.CandidateKept | modules/records.py:23-32 | every candidate is kept, once per matching result or once unmatched |
| Records.NationalRecordsAsWritten | modules/records.py:8-57 | as written, the function returns nothing (None) or an empty table |
| Records.AsWrittenLosesRecords | modules/records.py:41-57 | as written, any national record holder in a current event makes the function return nothing |
| Records.AsWrittenCounterexample | modules/records.py:41-57 | one 3x3x3 record holder: as written nothing is returned, as intended one record row |
| Records.NationalRecordsSingle | modules/records.py:23-54 | as intended: the joined table, empty exactly when the code as written returns the empty table |
| Regions.RegionCodesInverse | modules/regions.py:14-35 | the twenty region names have codes 1..20 in order, and every coded name is one of them |
| Regions.RegionCodesDistinct | modules/regions.py:14-35 | twenty regions with distinct codes, the codes being exactly 1..20 |
| Regions.VisitsMember | modules/regions.py:61 | a (person, region) visit arises iff a result of the person is in a city of that region |
| Regions.RegionsOfVisits | modules/regions.py:64-67 | a person's distinct regions are those of their visits |
| Regions.MostRegions | modules/regions.py:38-91 | sorted by the number of regions (descending) |
| Regions.MostRegionsRows | modules/regions.py:61-85 | a row appears iff its person has a result in a city with a region; it holds their left-joined name and their number of distinct regions (at least one) |
| Regions.RegionsOnePerPerson | modules/regions.py:64-70 | no person is listed twice |
| Competitions.AllCounts | modules/competitions.py:8 | the value counts are sorted by count (descending) |
| Competitions.AllCountsMember | modules/competitions.py:8 | a value is counted iff it occurs, with its number of occurrences |
| Competitions.AllCountsDistinct | modules/competitions.py:8 | no value is counted twice |
| Competitions.ValueCounts | modules/competitions.py:8 | at most ten rows, sorted by count |
| Competitions.ValueCountsRows | modules/competitions.py:8 | every row is an occurring value with its count (at least one), no value twice, counts non-increasing |
| Competitions.ValueCountsTop | modules/competitions.py:8 | a value left out of the top ten is no more frequent than any listed one, and ten are listed |
| Competitions.MostCompetitions | modules/competitions.py:7-10 | the ten most frequent competition names, sorted |
| Competitions.MostCountries | modules/competitions.py:12-15 | the ten most frequent countries, sorted |
| UtilsWca.TimeconvertUnderMinute | utils_wca.py:315-316 | below a minute: seconds and exactly two decimals, no minutes field |
| UtilsWca.TimeconvertMinutes | utils_wca.py:317-320 | from a minute on: M:SS.CC with a two-digit seconds field, the leading zero included |
| UtilsWca.TimeconvertRoundTrip | utils_wca.py:296-320 | reading a formatted time back gives the centiseconds it was made from |
| UtilsWca.Split | utils_wca.py:91-96 | splitting on a separator gives one part more than separators, none containing it |
| UtilsWca.JoinSplit | utils_wca.py:91-96 | joining the parts back with the separator gives the input |
| UtilsWca.Strip | utils_wca.py:92 | the stripped string is a slice of the input with only whitespace cut off, and neither starts nor ends with whitespace |
| UtilsWca.ParseList | utils_wca.py:91-96 | one item per comma-separated field, none containing a comma or starting or ending with whitespace |
| Tables.PickWinners | modules/championships.py:176-184 | the first minimum-`pos` row per group: each is a row, the best of its group, one per group and every group covered |
| Ordering.SortBy | modules/championships.py:62 | the output is sorted by the key and is a permutation of the input |
| TableStore.StoreFits | modules/championships.py:65 | storing a table under its writer's key keeps every stored table under its writer's key |
| TableStore.DbTables.ComputeChampionshipWinners | modules/championships.py:65-68 | stores the whole winners table, then returns it filtered to the event |
| TableStore.DbTables.ComputeAverageEventsPerCompetition | modules/events.py:257 | stores the averages table, whose averages are within their bounds |
| TableStore.DbTables.ComputeMostParticipatedCompetition | modules/events.py:281-293 | nothing without stored averages; otherwise the ratio table, every ratio in (0, 1] |
| TableStore.DbTables.ComputeSilverMembership | modules/events.py:417-448 | stores the silver table only when somebody qualifies, otherwise returns the empty table |
| TableStore.DbTables.ComputeGoldMembership | modules/events.py:474-480 | reads the stored silver table; every gold member is a stored silver member |
| TableStore.DbTables.ComputePlatinumMembership | modules/events.py:563-569 | reads the stored silver table; every platinum member is a gold member |
| TableStore.DbTables.ComputeNationalRecordsSingle | modules/records.py:34-52 | the intended records table, stored unless empty |
| TableStore.FailedSilverIsEmpty | modules/events.py:421-423 | when nobody completes every silver event, the silver table is empty |

## Left out

- **Not modelled:** reading the export, logging, plotting (`plot_italy_competition_distribution`, the figures), `run`, `main.py`, and exporting the tables. These are I/O.
- **Parameters:** the derived input tables are given as parameters:
  - `results_nationality`, `results_country`, `results_fixed`;
  - `ranks_single_nationality`, `regions`;
  - the national championship list `nats`.
- **Configuration:** `load_config` is modelled only through its comma-separated list parsing. Its other attributes (`year`, paths) are not modelled.
- **Exceptions:** exceptions turned into `None` by the `except` blocks are modelled only where the code raises on data: the relay formatting and the records formatting. A missing table key is not a case of the model, except for the `avgevents` lookup.
- **Tie order:** the order of tied rows after `sort_values`; the gold and platinum tables list their members in silver-table order, where the source keeps persons-table order; and which of several tied minimum-`pos` rows wins under `nth(0)` or `drop_duplicates`. Contracts say "a minimum-`pos` row" and "sorted by the key".
- **Labels:** column labels, renames and the 1-based index.
- **Rounding:** `round` in the participation percentage and the retention rate. Rates are exact reals.
- **Truncation:** `truncate` is not used by the modelled statistics.
- **Formatting:**
  - the albo d'oro years are joined with ", " in ascending order, each written in decimal;
  - the podium year and the records `result` are kept unformatted;
  - `timeconvert` is modelled on integer centiseconds, not floats.
- **Input data:**
  - `persons` is a map from WCA id to person, so the `drop_duplicates` on persons is built in;
  - the pivots take the one row per (person, event) that a rankings table has.
- **Regions:** a region row with a missing region name is not a case of the model; the source's distinct count would skip it, the model counts every name given.
- UtilsWca.Strip: only ASCII whitespace is stripped; the other characters Python treats as whitespace (such as `\x85` and `\xa0`) are kept.
- **Relays:** the `median` is over the filled ranks as reals; its floating-point value is not modelled.
- SweepIff: stated for a non-empty list of required events without repeats. With a repeated event the source's count `len(req_events)` can never be met, and the model inherits this.
- MembershipIff: stated for a non-empty list of required events without repeats, like SweepIff. MembershipRows states the membership condition as the source writes it, for any list.
- TableStore.DbTables.ComputeGoldMembership: the gold and platinum methods read the stored silver table directly, not the silver table a fresh computation would give.

## Findings

| source | as written | input that shows it | evidently intended | confidence | as-written member | corrected member |
|---|---|---|---|---|---|---|
| modules/records.py:41-49 | the result column is formatted with `uw.multiresult`, which the utilities module does not define, and `np.where` evaluates every branch, so any non-empty table raises; the handler returns nothing, and the table is never stored in `db_tables` | one rank row ("2010ROSS01", "Ross", "333", best 900, national rank 1), no results, current events ["333"] | the national record rows, stored in `db_tables["national_records_single"]` | not executed | Records.NationalRecordsAsWritten, Records.AsWrittenCounterexample | Records.NationalRecordsSingle |
