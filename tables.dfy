/** Row types of the export and the small relational helpers (filter, distinct,
    count, group minimum) that every statistic is built from. */
module Tables {

  datatype Option<T> = None | Some(value: T)

  /** One row of a results view: a result joined with its competition
      (year, date and city come from the competition). Dates are ordinals
      (for instance yyyymmdd), so comparing two dates compares the integers. */
  datatype Result = Result(
    competitionId: string,
    eventId: string,
    roundTypeId: string,
    personId: string,
    personName: string,
    personCountryId: string,
    pos: int,
    best: int,
    average: int,
    regionalSingleRecord: Option<string>,
    regionalAverageRecord: Option<string>,
    year: int,
    date: int,
    cityName: string)

  /** A person, keyed by WCA id in the `Persons` map. */
  datatype Person = Person(name: string, countryId: string)
  type Persons = map<string, Person>

  /** One row of a national ranks table (one per person and event). */
  datatype RankRow = RankRow(personId: string, name: string, eventId: string, best: int, countryRank: int)

  /** A competition; `eventSpecs` is absent when the export leaves it empty. */
  datatype Competition = Competition(id: string, name: string, countryId: string, eventSpecs: Option<string>)

  /** The championships table: which competition is which championship type. */
  datatype Championship = Championship(competitionId: string, championshipType: string)

  datatype Country = Country(id: string, continentId: string)

  /** Column selectors, as functions so that the same key is used everywhere. */
  function PersonIdOf(r: Result): string { r.personId }
  function EventIdOf(r: Result): string { r.eventId }
  function CompetitionOf(r: Result): string { r.competitionId }
  function CompetitionIdOf(c: Championship): string { c.competitionId }

  /** Final or combined-final round. */
  predicate IsFinal(r: Result) {
    r.roundTypeId == "f" || r.roundTypeId == "c"
  }

  /** The name of a person of the persons table (the inner join on id). */
  function NameIn(persons: Persons, pid: string): string {
    if pid in persons then persons[pid].name else ""
  }

  function InPersons(persons: Persons): string -> bool {
    (pid: string) => pid in persons
  }

  /** Left join of a person id with the persons table: the name, if any. */
  function NameOf(persons: Persons, id: string): Option<string> {
    if id in persons then Some(persons[id].name) else None
  }

  /** The rows of `s` that satisfy `p`, in their original order. */
  function Filter<T(!new)>(s: seq<T>, p: T -> bool): (r: seq<T>)
    ensures |r| <= |s|
    ensures forall x :: x in r <==> x in s && p(x)
    ensures forall i :: 0 <= i < |r| ==> p(r[i])
  {
    if s == [] then []
    else if p(s[0]) then [s[0]] + Filter(s[1..], p)
    else Filter(s[1..], p)
  }

  /** Number of rows of `s` that satisfy `p`. */
  function Count<T(!new)>(s: seq<T>, p: T -> bool): nat {
    |Filter(s, p)|
  }

  /** Counting is pointwise: predicates that agree on `s` count the same. */
  lemma {:induction false} CountEquiv<T(!new)>(s: seq<T>, p: T -> bool, q: T -> bool)
    requires forall x :: x in s ==> (p(x) <==> q(x))
    ensures Count(s, p) == Count(s, q)
  {
    if s != [] {
      CountEquiv(s[1..], p, q);
    }
  }

  lemma {:induction false} CountMono<T(!new)>(s: seq<T>, p: T -> bool, q: T -> bool)
    requires forall x :: x in s && p(x) ==> q(x)
    ensures Count(s, p) <= Count(s, q)
  {
    if s != [] {
      CountMono(s[1..], p, q);
    }
  }

  /** A count splits over two disjoint cases. */
  lemma {:induction false} CountDisjointUnion<T(!new)>(s: seq<T>, p: T -> bool, q: T -> bool, r: T -> bool)
    requires forall x :: x in s ==> (p(x) <==> q(x) || r(x)) && !(q(x) && r(x))
    ensures Count(s, p) == Count(s, q) + Count(s, r)
  {
    if s != [] {
      CountDisjointUnion(s[1..], p, q, r);
    }
  }

  /** Counting inside a filtered sequence is counting the conjunction. */
  lemma {:induction false} CountFilter<T(!new)>(s: seq<T>, p: T -> bool, q: T -> bool, r: T -> bool)
    requires forall x :: x in s ==> (r(x) <==> p(x) && q(x))
    ensures Count(Filter(s, p), q) == Count(s, r)
  {
    if s != [] {
      CountFilter(s[1..], p, q, r);
    }
  }

  /** The row predicate "the key of the row under `f` is `k`". */
  function KeyIs<T, K(==)>(f: T -> K, k: K): T -> bool {
    (x: T) => f(x) == k
  }

  /** Number of rows of `s` whose key under `f` is `k`. */
  function CountKey<T(!new), K(==)>(s: seq<T>, f: T -> K, k: K): nat {
    Count(s, KeyIs(f, k))
  }

  /** Sum of `CountKey` over the keys `ks`. */
  function SumCounts<T(!new), K(==)>(s: seq<T>, f: T -> K, ks: seq<K>): nat {
    if ks == [] then 0 else CountKey(s, f, ks[0]) + SumCounts(s, f, ks[1..])
  }

  function Hits<K(==)>(ks: seq<K>, v: K): nat {
    if ks == [] then 0 else (if ks[0] == v then 1 else 0) + Hits(ks[1..], v)
  }

  lemma {:induction false} HitsDistinct<K>(ks: seq<K>, v: K)
    requires NoDuplicates(ks)
    ensures Hits(ks, v) == if v in ks then 1 else 0
  {
    if ks != [] {
      HitsDistinct(ks[1..], v);
      if ks[0] == v {
        assert v !in ks[1..] by {
          forall j | 0 <= j < |ks[1..]| ensures ks[1..][j] != v {
            assert ks[1..][j] == ks[j + 1];
          }
        }
      }
    }
  }

  lemma {:induction false} SumCountsEmpty<T(!new), K>(s: seq<T>, f: T -> K, ks: seq<K>)
    requires s == []
    ensures SumCounts(s, f, ks) == 0
  {
    if ks != [] {
      SumCountsEmpty(s, f, ks[1..]);
    }
  }

  lemma {:induction false} SumCountsCons<T(!new), K>(s: seq<T>, f: T -> K, ks: seq<K>)
    requires s != []
    ensures SumCounts(s, f, ks) == Hits(ks, f(s[0])) + SumCounts(s[1..], f, ks)
  {
    if ks != [] {
      SumCountsCons(s, f, ks[1..]);
    }
  }

  /** Grouping partitions the rows: over distinct keys covering every row, the
      group sizes add up to the number of rows. */
  lemma {:induction false} SumCountsAll<T(!new), K>(s: seq<T>, f: T -> K, ks: seq<K>)
    requires NoDuplicates(ks)
    requires forall x :: x in s ==> f(x) in ks
    ensures SumCounts(s, f, ks) == |s|
  {
    if s == [] {
      SumCountsEmpty(s, f, ks);
    } else {
      SumCountsCons(s, f, ks);
      HitsDistinct(ks, f(s[0]));
      SumCountsAll(s[1..], f, ks);
    }
  }

  /** Sum of `f` over the rows of `s`. */
  function SumOf<T>(s: seq<T>, f: T -> int): int {
    if s == [] then 0 else f(s[0]) + SumOf(s[1..], f)
  }

  lemma {:induction false} SumOfCounts<T(!new), K, R>(ks: seq<K>, g: K -> R, h: R -> int, s: seq<T>, f: T -> K)
    requires forall k :: k in ks ==> h(g(k)) == CountKey(s, f, k)
    ensures SumOf(MapSeq(ks, g), h) == SumCounts(s, f, ks)
  {
    if ks != [] {
      assert MapSeq(ks, g)[1..] == MapSeq(ks[1..], g);
      SumOfCounts(ks[1..], g, h, s, f);
    }
  }

  /** The parts, in order, with `sep` between consecutive ones. */
  function JoinWith(parts: seq<string>, sep: string): string {
    if parts == [] then "" else if |parts| == 1 then parts[0] else parts[0] + sep + JoinWith(parts[1..], sep)
  }

  lemma {:induction false} DistinctCard<T>(s: seq<T>)
    requires NoDuplicates(s)
    ensures |set x | x in s| == |s|
  {
    if s != [] {
      DistinctCard(s[1..]);
      assert (set x | x in s) == {s[0]} + (set x | x in s[1..]);
      assert s[0] !in (set x | x in s[1..]) by {
        forall j | 0 <= j < |s[1..]| ensures s[1..][j] != s[0] {
          assert s[1..][j] == s[j + 1];
        }
      }
    }
  }

  /** The elements of `s`, as a set. */
  ghost function Elems<T>(s: seq<T>): set<T> {
    set x | x in s
  }

  /** A sequence has at most as many distinct elements as entries, and
      exactly as many only when it has no duplicates. */
  lemma {:induction false} ElemsCard<T>(s: seq<T>)
    ensures |Elems(s)| <= |s|
    ensures |Elems(s)| == |s| ==> NoDuplicates(s)
    ensures NoDuplicates(s) ==> |Elems(s)| == |s|
  {
    if NoDuplicates(s) {
      DistinctCard(s);
      assert Elems(s) == set x | x in s;
    }
    if s != [] {
      var t := s[1..];
      ElemsCard(t);
      assert Elems(s) == {s[0]} + Elems(t);
      if s[0] in Elems(t) {
        assert Elems(s) == Elems(t);
      } else if |Elems(s)| == |s| {
        forall i, j | 0 <= i < j < |s| ensures s[i] != s[j] {
          assert s[j] == t[j - 1];
          if i > 0 {
            assert s[i] == t[i - 1];
          }
        }
      }
    }
  }

  /** The values of column `f` over `rows`. */
  ghost function Values<T, V>(rows: seq<T>, f: T -> V): set<V> {
    set r | r in rows :: f(r)
  }

  /** The values of column `f` over the rows of group `k` under `key`. */
  ghost function GroupValues<T, K, V>(rows: seq<T>, key: T -> K, k: K, f: T -> V): set<V> {
    set r | r in rows && key(r) == k :: f(r)
  }

  /** The number of distinct values of a column is the size of its value set. */
  lemma DistinctImage<T, K(!new)>(rows: seq<T>, f: T -> K)
    ensures |Distinct(MapSeq(rows, f))| == |Values(rows, f)|
  {
    var d := Distinct(MapSeq(rows, f));
    DistinctCard(d);
    forall k ensures k in d <==> k in Values(rows, f) {
      MapSeqMember(rows, f, k);
    }
    assert (set x | x in d) == Values(rows, f);
  }

  /** The distinct values of column `f` over the group `k` of `key`: they are
      the group's value set. */
  lemma GroupImage<T(!new), K, V(!new)>(rows: seq<T>, key: T -> K, k: K, f: T -> V)
    ensures |Distinct(MapSeq(Filter(rows, KeyIs(key, k)), f))| == |GroupValues(rows, key, k, f)|
    ensures forall v :: v in Distinct(MapSeq(Filter(rows, KeyIs(key, k)), f)) <==> v in GroupValues(rows, key, k, f)
  {
    var g := Filter(rows, KeyIs(key, k));
    DistinctImage(g, f);
    var all := GroupValues(rows, key, k, f);
    forall v | v in all ensures v in Values(g, f) {
      var r :| r in rows && key(r) == k && f(r) == v;
      assert KeyIs(key, k)(r);
      assert r in g;
    }
    assert Values(g, f) == all;
    forall v ensures v in Distinct(MapSeq(g, f)) <==> v in all {
      MapSeqMember(g, f, v);
    }
  }

  lemma SubsetCardLe<T>(a: set<T>, b: set<T>)
    requires a <= b
    ensures |a| <= |b|
  {
    assert b == a + (b - a);
    assert a * (b - a) == {};
  }

  /** A subset as large as its superset is the superset. */
  lemma SubsetEqualCard<T>(a: set<T>, b: set<T>)
    requires a <= b && |a| == |b|
    ensures a == b
  {
    if a != b {
      var x :| x in b && x !in a;
      SubsetCardLe(a, b - {x});
    }
  }

  /** Concatenation of a sequence of tables. */
  function Flatten<T>(ss: seq<seq<T>>): seq<T> {
    if ss == [] then [] else ss[0] + Flatten(ss[1..])
  }

  lemma {:induction false} FlattenMember<T>(ss: seq<seq<T>>, x: T)
    ensures x in Flatten(ss) <==> exists i :: 0 <= i < |ss| && x in ss[i]
  {
    if ss != [] {
      FlattenMember(ss[1..], x);
      if x in Flatten(ss[1..]) {
        var i :| 0 <= i < |ss[1..]| && x in ss[1..][i];
        assert x in ss[i + 1];
      }
      if exists i :: 0 <= i < |ss| && x in ss[i] {
        var i :| 0 <= i < |ss| && x in ss[i];
        if i > 0 { assert x in ss[1..][i - 1]; }
      }
    }
  }

  /** Tables whose rows carry distinct keys in column `col`, and no key in two
      tables, flatten to rows with distinct keys. */
  lemma {:induction false} FlattenColumnDistinct<R, K>(tables: seq<seq<R>>, col: R -> K)
    requires forall i :: 0 <= i < |tables| ==> NoDuplicates(MapSeq(tables[i], col))
    requires forall i, j, x, y :: 0 <= i < j < |tables| && x in tables[i] && y in tables[j] ==> col(x) != col(y)
    ensures NoDuplicates(MapSeq(Flatten(tables), col))
  {
    if tables != [] {
      var head := tables[0];
      var rest := Flatten(tables[1..]);
      FlattenColumnDistinct(tables[1..], col);
      var all := Flatten(tables);
      assert all == head + rest;
      var cs := MapSeq(all, col);
      var n := |head|;
      forall i, j | 0 <= i < j < |all| ensures cs[i] != cs[j] {
        if j < n {
          assert cs[i] == MapSeq(head, col)[i] && cs[j] == MapSeq(head, col)[j];
        } else if i >= n {
          assert cs[i] == MapSeq(rest, col)[i - n] && cs[j] == MapSeq(rest, col)[j - n];
        } else {
          var y := rest[j - n];
          FlattenMember(tables[1..], y);
          var k :| 0 <= k < |tables[1..]| && y in tables[1..][k];
          assert head[i] in tables[0] && y in tables[k + 1];
        }
      }
    }
  }

  /** A row is in the per-key tables, flattened, exactly when it is in the
      table of the key of some input row. */
  lemma FlattenPerKey<T, K(!new), R>(rows: seq<T>, key: T -> K, tableOf: K -> seq<R>, x: R)
    ensures x in Flatten(MapSeq(Distinct(MapSeq(rows, key)), tableOf)) <==>
      exists r :: r in rows && x in tableOf(key(r))
  {
    var ks := Distinct(MapSeq(rows, key));
    var tables := MapSeq(ks, tableOf);
    FlattenMember(tables, x);
    if x in Flatten(tables) {
      var i :| 0 <= i < |tables| && x in tables[i];
      MapSeqMember(rows, key, ks[i]);
    }
    if exists r :: r in rows && x in tableOf(key(r)) {
      var r :| r in rows && x in tableOf(key(r));
      MapSeqMember(rows, key, key(r));
      var i :| 0 <= i < |ks| && ks[i] == key(r);
      assert x in tables[i];
    }
  }

  function Indices(n: nat): (r: seq<int>)
    ensures |r| == n && forall i :: 0 <= i < n ==> r[i] == i
  {
    seq(n, i => i)
  }

  function Max(a: int, b: int): int {
    if a >= b then a else b
  }

  predicate NoDuplicates<T(==)>(s: seq<T>) {
    forall i, j :: 0 <= i < j < |s| ==> s[i] != s[j]
  }

  /** The distinct values of `s`. */
  function Distinct<T(==,!new)>(s: seq<T>): (r: seq<T>)
    ensures forall x :: x in r <==> x in s
    ensures NoDuplicates(r)
    ensures |r| <= |s|
  {
    if s == [] then []
    else
      var t := Distinct(s[1..]);
      if s[0] in t then t else [s[0]] + t
  }

  function MapSeq<T, U>(s: seq<T>, f: T -> U): (r: seq<U>)
    ensures |r| == |s|
    ensures forall i :: 0 <= i < |s| ==> r[i] == f(s[i])
  {
    seq(|s|, i requires 0 <= i < |s| => f(s[i]))
  }

  lemma MapSeqMember<T, U>(s: seq<T>, f: T -> U, y: U)
    ensures y in MapSeq(s, f) <==> exists x :: x in s && y == f(x)
  {
    if exists x :: x in s && y == f(x) {
      var x :| x in s && y == f(x);
      var i :| 0 <= i < |s| && s[i] == x;
      assert MapSeq(s, f)[i] == y;
    }
  }

  /** Without duplicates every multiplicity is at most one. */
  lemma {:induction false} NoDuplicatesToMultiset<T>(s: seq<T>)
    requires NoDuplicates(s)
    ensures forall x :: multiset(s)[x] <= 1
  {
    if s != [] {
      var t := s[1..];
      assert NoDuplicates(t) by {
        forall i, j | 0 <= i < j < |t| ensures t[i] != t[j] {
          assert t[i] == s[i + 1] && t[j] == s[j + 1];
        }
      }
      NoDuplicatesToMultiset(t);
      assert s[0] !in t by {
        forall j | 0 <= j < |t| ensures t[j] != s[0] {
          assert t[j] == s[j + 1];
        }
      }
      assert s == [s[0]] + t;
      assert multiset(s) == multiset{s[0]} + multiset(t);
    }
  }

  /** Multiplicities of at most one leave no duplicates. */
  lemma {:induction false} MultisetToNoDuplicates<T>(s: seq<T>)
    requires forall x :: multiset(s)[x] <= 1
    ensures NoDuplicates(s)
  {
    if s != [] {
      var t := s[1..];
      assert s == [s[0]] + t;
      assert multiset(s) == multiset{s[0]} + multiset(t);
      forall x ensures multiset(t)[x] <= 1 {
        assert multiset(t)[x] <= multiset(s)[x];
      }
      MultisetToNoDuplicates(t);
      assert multiset(s)[s[0]] == multiset{s[0]}[s[0]] + multiset(t)[s[0]];
      assert multiset(t)[s[0]] == 0;
      forall i, j | 0 <= i < j < |s| ensures s[i] != s[j] {
        assert s[j] == t[j - 1] && s[j] in t;
        if i > 0 {
          assert s[i] == t[i - 1];
        }
      }
    }
  }

  lemma {:induction false} FilterSubMultiset<T(!new)>(s: seq<T>, p: T -> bool)
    ensures multiset(Filter(s, p)) <= multiset(s)
  {
    if s != [] {
      var t := s[1..];
      FilterSubMultiset(t, p);
      assert s == [s[0]] + t;
      assert multiset(s) == multiset{s[0]} + multiset(t);
      if p(s[0]) {
        assert multiset(Filter(s, p)) == multiset{s[0]} + multiset(Filter(t, p));
      } else {
        assert Filter(s, p) == Filter(t, p);
      }
    }
  }

  /** Filtering and reordering keep a sequence free of duplicates. */
  lemma NoDuplicatesSub<T>(s: seq<T>, t: seq<T>)
    requires NoDuplicates(s)
    requires multiset(t) <= multiset(s)
    ensures NoDuplicates(t)
  {
    NoDuplicatesToMultiset(s);
    forall x ensures multiset(t)[x] <= 1 {
      assert multiset(t)[x] <= multiset(s)[x];
    }
    MultisetToNoDuplicates(t);
  }

  function Sum(s: seq<int>): int {
    if s == [] then 0 else s[0] + Sum(s[1..])
  }

  /** Summing a mapped sequence is summing the map, when the two agree on `s`. */
  lemma {:induction false} SumOfPointwise<T>(s: seq<T>, f: T -> int, g: T -> int)
    requires forall x :: x in s ==> f(x) == g(x)
    ensures Sum(MapSeq(s, f)) == SumOf(s, g)
  {
    if s != [] {
      SumOfPointwise(s[1..], f, g);
      assert MapSeq(s, f)[1..] == MapSeq(s[1..], f);
    }
  }

  function SumReal(s: seq<real>): real {
    if s == [] then 0.0 else s[0] + SumReal(s[1..])
  }

  /** A row of minimum `pos` in a non-empty `s`; the first such row. */
  function MinPosRow(s: seq<Result>): (m: Result)
    requires s != []
    ensures m in s
    ensures forall y :: y in s ==> m.pos <= y.pos
  {
    if |s| == 1 then s[0]
    else
      var rest := MinPosRow(s[1..]);
      if s[0].pos <= rest.pos then s[0] else rest
  }

  /** The row predicate "the row has a smaller pos than `x`". */
  function PosBelow(x: Result): Result -> bool {
    (y: Result) => y.pos < x.pos
  }

  /** The rows of `rows` whose group (under `key`) is `k`. */
  function Group<K(==,!new)>(rows: seq<Result>, key: Result -> K, k: K): seq<Result> {
    Filter(rows, KeyIs(key, k))
  }

  /** The minimum-method rank of `x.pos` within its group under `key`: one more than
      the number of rows of that group with a smaller pos. */
  function MinRank<K(==,!new)>(x: Result, rows: seq<Result>, key: Result -> K): nat {
    1 + Count(Group(rows, key, key(x)), PosBelow(x))
  }

  /** The minimum-pos rows of each group have rank 1, and only they. */
  lemma MinRankOne<K(!new)>(x: Result, rows: seq<Result>, key: Result -> K)
    requires x in rows
    ensures MinRank(x, rows, key) == 1 <==> forall y :: y in rows && key(y) == key(x) ==> x.pos <= y.pos
  {
    var g := Group(rows, key, key(x));
    if MinRank(x, rows, key) == 1 {
      forall y | y in rows && key(y) == key(x) ensures x.pos <= y.pos {
        assert y in g;
      }
    } else {
      var y := Filter(g, PosBelow(x))[0];
      assert y in Filter(g, PosBelow(x));
    }
  }

  /** One row of minimum `pos` for each group of `rows`, one group per value of
      `key`: the rows ordered by pos, then the first row of each group kept. */
  function PickWinners<K(==,!new)>(rows: seq<Result>, key: Result -> K): (w: seq<Result>)
    ensures forall x :: x in w ==> x in rows
    ensures forall x, y :: x in w && y in rows && key(y) == key(x) ==> x.pos <= y.pos
    ensures forall y :: y in rows ==> exists i :: 0 <= i < |w| && key(w[i]) == key(y)
    ensures forall i, j :: 0 <= i < j < |w| ==> key(w[i]) != key(w[j])
    ensures |w| == |Distinct(MapSeq(rows, key))|
    ensures forall x, y :: x in w && y in w && key(x) == key(y) ==> x == y
    ensures NoDuplicates(w)
  {
    var ks := Distinct(MapSeq(rows, key));
    var w := WinnersOf(rows, key, ks);
    DistinctKeysUnique(w, key);
    WinnersCover(rows, key, ks, w);
    w
  }

  lemma WinnersCover<K(!new)>(rows: seq<Result>, key: Result -> K, ks: seq<K>, w: seq<Result>)
    requires ks == Distinct(MapSeq(rows, key))
    requires |w| == |ks| && forall i :: 0 <= i < |w| ==> key(w[i]) == ks[i]
    ensures forall y :: y in rows ==> exists i :: 0 <= i < |w| && key(w[i]) == key(y)
  {
    forall y | y in rows ensures exists i :: 0 <= i < |w| && key(w[i]) == key(y) {
      var i :| 0 <= i < |rows| && rows[i] == y;
      assert MapSeq(rows, key)[i] == key(y);
      assert key(y) in MapSeq(rows, key);
      assert key(y) in ks;
      var j :| 0 <= j < |ks| && ks[j] == key(y);
      assert key(w[j]) == key(y);
    }
  }

  lemma DistinctKeysUnique<K>(w: seq<Result>, key: Result -> K)
    requires forall i, j :: 0 <= i < j < |w| ==> key(w[i]) != key(w[j])
    ensures forall x, y :: x in w && y in w && key(x) == key(y) ==> x == y
    ensures NoDuplicates(w)
  {
    forall x, y | x in w && y in w && key(x) == key(y) ensures x == y {
      var i :| 0 <= i < |w| && w[i] == x;
      var j :| 0 <= j < |w| && w[j] == y;
    }
  }

  function WinnersOf<K(==,!new)>(rows: seq<Result>, key: Result -> K, ks: seq<K>): (w: seq<Result>)
    requires forall k :: k in ks ==> exists r :: r in rows && key(r) == k
    requires NoDuplicates(ks)
    ensures |w| == |ks|
    ensures forall i :: 0 <= i < |w| ==> w[i] in rows && key(w[i]) == ks[i]
    ensures forall x, y :: x in w && y in rows && key(y) == key(x) ==> x.pos <= y.pos
  {
    if ks == [] then []
    else
      assert ks[0] in ks;
      assert forall k :: k in ks[1..] ==> k in ks;
      GroupMinPos(rows, key, ks[0]);
      var m := MinPosRow(Group(rows, key, ks[0]));
      var rest := WinnersOf(rows, key, ks[1..]);
      ConsWinners(rows, key, ks, m, rest);
      [m] + rest
  }

  /** Prepending the winner of the first key to the winners of the others. */
  lemma ConsWinners<K(!new)>(rows: seq<Result>, key: Result -> K, ks: seq<K>, m: Result, rest: seq<Result>)
    requires ks != []
    requires m in rows && key(m) == ks[0] && forall y :: y in rows && key(y) == ks[0] ==> m.pos <= y.pos
    requires |rest| == |ks| - 1
    requires forall i :: 0 <= i < |rest| ==> rest[i] in rows && key(rest[i]) == ks[1..][i]
    requires forall x, y :: x in rest && y in rows && key(y) == key(x) ==> x.pos <= y.pos
    ensures |[m] + rest| == |ks|
    ensures forall i :: 0 <= i < |ks| ==> ([m] + rest)[i] in rows && key(([m] + rest)[i]) == ks[i]
    ensures forall x, y :: x in [m] + rest && y in rows && key(y) == key(x) ==> x.pos <= y.pos
  {
    var w := [m] + rest;
    forall i | 0 <= i < |w| ensures w[i] in rows && key(w[i]) == ks[i] {
      if i > 0 {
        assert w[i] == rest[i - 1];
      }
    }
    assert forall x :: x in w ==> x == m || x in rest;
  }

  /** The row of least `pos` of a non-empty group is a row of that group that
      no other row of the group beats. */
  lemma GroupMinPos<K(!new)>(rows: seq<Result>, key: Result -> K, k: K)
    requires exists r :: r in rows && key(r) == k
    ensures Group(rows, key, k) != []
    ensures var m := MinPosRow(Group(rows, key, k));
      m in rows && key(m) == k && forall y :: y in rows && key(y) == k ==> m.pos <= y.pos
  {
    var g := Group(rows, key, k);
    var r :| r in rows && key(r) == k;
    assert KeyIs(key, k)(r);
    assert r in g;
    forall y | y in rows && key(y) == k ensures y in g {
      assert KeyIs(key, k)(y);
    }
  }
}
