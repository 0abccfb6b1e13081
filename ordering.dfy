/** Sort keys and a sort by key: the multi-column sorts of the statistics,
    each column ascending or descending. A key is a sequence of parts compared
    lexicographically; each part says its own direction. */
module Ordering {
  import opened Tables

  datatype KeyPart =
    | IntAsc(i: int)
    | IntDesc(i: int)
    | StrAsc(s: string)
    | RealAsc(r: real)
    | RealDesc(r: real)

  type Key = seq<KeyPart>

  /** Lexicographic order on strings, character by character; a proper prefix comes first. */
  predicate StrLt(a: string, b: string) {
    if a == [] then b != []
    else if b == [] then false
    else if a[0] < b[0] then true
    else if b[0] < a[0] then false
    else StrLt(a[1..], b[1..])
  }

  function Kind(p: KeyPart): nat {
    match p
    case IntAsc(_) => 0
    case IntDesc(_) => 1
    case StrAsc(_) => 2
    case RealAsc(_) => 3
    case RealDesc(_) => 4
  }

  /** `p` strictly before `q` in the direction that the part states. */
  predicate PartLt(p: KeyPart, q: KeyPart) {
    if Kind(p) != Kind(q) then Kind(p) < Kind(q)
    else match p
      case IntAsc(i) => i < q.i
      case IntDesc(i) => q.i < i
      case StrAsc(s) => StrLt(s, q.s)
      case RealAsc(r) => r < q.r
      case RealDesc(r) => q.r < r
  }

  /** `a` may come before `b`: lexicographic on the parts. */
  predicate KeyLe(a: Key, b: Key) {
    if a == [] then true
    else if b == [] then false
    else if PartLt(a[0], b[0]) then true
    else if PartLt(b[0], a[0]) then false
    else KeyLe(a[1..], b[1..])
  }

  lemma {:induction false} KeyLeTotal(a: Key, b: Key)
    ensures KeyLe(a, b) || KeyLe(b, a)
  {
    if a != [] && b != [] && !PartLt(a[0], b[0]) && !PartLt(b[0], a[0]) {
      KeyLeTotal(a[1..], b[1..]);
    }
  }

  /** Every row may come before the next one. */
  predicate Sorted<T>(s: seq<T>, key: T -> Key) {
    forall i :: 0 < i < |s| ==> KeyLe(key(s[i - 1]), key(s[i]))
  }

  function Insert<T>(x: T, s: seq<T>, key: T -> Key): (r: seq<T>)
    requires Sorted(s, key)
    ensures Sorted(r, key)
    ensures multiset(r) == multiset(s) + multiset{x}
    ensures r[0] == x || (s != [] && r[0] == s[0])
  {
    if s == [] then [x]
    else if KeyLe(key(x), key(s[0])) then [x] + s
    else
      KeyLeTotal(key(x), key(s[0]));
      var t := Insert(x, s[1..], key);
      assert s == [s[0]] + s[1..];
      [s[0]] + t
  }

  /** `s` sorted by `key`; rows with equal keys in an unspecified order. */
  function SortBy<T>(s: seq<T>, key: T -> Key): (r: seq<T>)
    ensures Sorted(r, key)
    ensures multiset(r) == multiset(s)
    ensures |r| == |s|
  {
    if s == [] then []
    else
      assert s == [s[0]] + s[1..];
      Insert(s[0], SortBy(s[1..], key), key)
  }

  lemma {:induction false} SortByMembers<T>(s: seq<T>, key: T -> Key)
    ensures forall x :: x in SortBy(s, key) <==> x in s
  {
    var r := SortBy(s, key);
    forall x ensures x in r <==> x in s {
      assert x in r <==> x in multiset(r);
      assert x in s <==> x in multiset(s);
    }
  }

  /** A column with no repeated value keeps that property when the rows are sorted. */
  lemma SortKeepsColumnDistinct<T, K>(s: seq<T>, key: T -> Key, f: T -> K)
    requires NoDuplicates(MapSeq(s, f))
    ensures NoDuplicates(MapSeq(SortBy(s, key), f))
  {
    SortByMembers(s, key);
    var t := SortBy(s, key);
    DistinctColumnRows(s, f);
    NoDuplicatesSub(s, t);
    DistinctColumnSub(s, t, f);
  }

  /** Rows with distinct values in a column are distinct. */
  lemma DistinctColumnRows<T, K>(s: seq<T>, f: T -> K)
    requires NoDuplicates(MapSeq(s, f))
    ensures NoDuplicates(s)
  {
    var fs := MapSeq(s, f);
    forall i, j | 0 <= i < j < |s| ensures s[i] != s[j] {
      assert fs[i] == f(s[i]) && fs[j] == f(s[j]);
    }
  }

  /** Distinct rows with the members of rows with a distinct column have a distinct column. */
  lemma DistinctColumnSub<T, K>(s: seq<T>, t: seq<T>, f: T -> K)
    requires NoDuplicates(MapSeq(s, f)) && NoDuplicates(t)
    requires forall x :: x in t <==> x in s
    ensures NoDuplicates(MapSeq(t, f))
  {
    var fs := MapSeq(s, f);
    var ps := MapSeq(t, f);
    forall i, j | 0 <= i < j < |ps| ensures ps[i] != ps[j] {
      assert t[i] in s && t[j] in s;
      var a :| 0 <= a < |s| && s[a] == t[i];
      var b :| 0 <= b < |s| && s[b] == t[j];
      assert fs[a] == ps[i] && fs[b] == ps[j];
      if a < b {
        assert fs[a] != fs[b];
      } else if b < a {
        assert fs[b] != fs[a];
      }
    }
  }

  /** A row of a per-key table (one row made for each distinct key of `rows`,
      then sorted) is the row made for the key of some row. */
  lemma PerKeyMember<T, K(!new), R>(rows: seq<T>, key: T -> K, make: K -> R, sortKey: R -> Key, x: R)
    ensures x in SortBy(MapSeq(Distinct(MapSeq(rows, key)), make), sortKey) <==>
      exists r :: r in rows && x == make(key(r))
  {
    var ks := Distinct(MapSeq(rows, key));
    SortByMembers(MapSeq(ks, make), sortKey);
    MapSeqMember(ks, make, x);
    if x in MapSeq(ks, make) {
      var k :| k in ks && x == make(k);
      MapSeqMember(rows, key, k);
    }
    if exists r :: r in rows && x == make(key(r)) {
      var r :| r in rows && x == make(key(r));
      MapSeqMember(rows, key, key(r));
    }
  }

  /** When each made row carries its own key in column `col`, a row is in the
      per-key table exactly when some input row has its key and it is the row
      made for that key. */
  lemma PerKeyRows<T, K(!new), R>(rows: seq<T>, key: T -> K, make: K -> R, sortKey: R -> Key, col: R -> K, x: R)
    requires forall k :: col(make(k)) == k
    ensures x in SortBy(MapSeq(Distinct(MapSeq(rows, key)), make), sortKey) <==>
      (exists r :: r in rows && key(r) == col(x)) && x == make(col(x))
  {
    PerKeyMember(rows, key, make, sortKey, x);
    if exists r :: r in rows && x == make(key(r)) {
      var r :| r in rows && x == make(key(r));
      assert col(x) == key(r);
    }
  }

  /** Rows made one per key of a duplicate-free key list, and sorted, still
      carry pairwise distinct keys. */
  lemma MadeColumnDistinct<K, R>(ks: seq<K>, make: K -> R, sortKey: R -> Key, col: R -> K)
    requires NoDuplicates(ks)
    requires forall k :: col(make(k)) == k
    ensures NoDuplicates(MapSeq(SortBy(MapSeq(ks, make), sortKey), col))
  {
    var rs := MapSeq(ks, make);
    assert MapSeq(rs, col) == ks;
    SortKeepsColumnDistinct(rs, sortKey, col);
  }

  /** Ascending order of integers, as a sort key. */
  function IntKey(y: int): Key { [IntAsc(y)] }

  /** On a one-part ascending integer key, `KeyLe` is `<=`. */
  lemma IntAscLe(a: int, b: int)
    ensures KeyLe([IntAsc(a)], [IntAsc(b)]) <==> a <= b
  {
    assert [IntAsc(a)][1..] == [];
  }

  /** Distinct integers sorted ascending are strictly ascending. */
  lemma SortDistinctAscending(ds: seq<int>)
    requires NoDuplicates(ds)
    ensures var ys := SortBy(ds, IntKey); forall i :: 0 < i < |ys| ==> ys[i - 1] < ys[i]
  {
    var ys := SortBy(ds, IntKey);
    NoDuplicatesSub(ds, ys);
    forall i | 0 < i < |ys| ensures ys[i - 1] < ys[i] {
      assert KeyLe(IntKey(ys[i - 1]), IntKey(ys[i]));
      IntAscLe(ys[i - 1], ys[i]);
    }
  }

  lemma IntDescLe(a: int, b: int)
    ensures KeyLe([IntDesc(a)], [IntDesc(b)]) <==> a >= b
  {
    assert [IntDesc(a)][1..] == [];
  }

  lemma {:induction false} SumOfInsert<T>(x: T, s: seq<T>, key: T -> Key, f: T -> int)
    requires Sorted(s, key)
    ensures SumOf(Insert(x, s, key), f) == f(x) + SumOf(s, f)
  {
    if s != [] && !KeyLe(key(x), key(s[0])) {
      SumOfInsert(x, s[1..], key, f);
      assert ([s[0]] + Insert(x, s[1..], key))[1..] == Insert(x, s[1..], key);
    } else {
      assert ([x] + s)[1..] == s;
    }
  }

  /** Sorting does not change a column total. */
  lemma {:induction false} SumOfSortBy<T>(s: seq<T>, key: T -> Key, f: T -> int)
    ensures SumOf(SortBy(s, key), f) == SumOf(s, f)
  {
    if s != [] {
      SumOfSortBy(s[1..], key, f);
      SumOfInsert(s[0], SortBy(s[1..], key), key, f);
    }
  }
}
