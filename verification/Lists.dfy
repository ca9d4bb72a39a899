/** List idioms that several parts of rdbus lean on: the stable `std::list::sort`, the
    `std::adjacent_find` scan over a sorted copy, and counting arguments. */
module Lists {

  datatype Option<+T> = None | Some(value: T)

  datatype Result<+T, +E> = Success(value: T) | Failure(error: E)

  function Min(a: int, b: int): int {
    if a <= b then a else b
  }

  function Max(a: int, b: int): int {
    if a <= b then b else a
  }

  lemma ConcatAssociates<T>(a: seq<T>, b: seq<T>, c: seq<T>)
    ensures (a + b) + c == a + (b + c)
  {
  }

  lemma ConcatNothing<T>(a: seq<T>)
    ensures a + [] == a && [] + a == a
  {
  }

  lemma DropFirst<T>(x: T, s: seq<T>)
    ensures ([x] + s)[1..] == s
  {
  }

  lemma DropLast<T>(s: seq<T>, x: T)
    ensures (s + [x])[..|s|] == s
  {
  }

  lemma DropAll<T>(a: seq<T>, b: seq<T>)
    ensures (a + b)[|a|..] == b && (a + b)[..|a|] == a
  {
  }

  lemma CutAt<T>(s: seq<T>, k: nat)
    requires k <= |s|
    ensures s == s[..k] + s[k..]
  {
  }

  // ---------- Concatenation ----------

  function Concat<T>(parts: seq<seq<T>>): seq<T> {
    if parts == [] then [] else Concat(parts[..|parts| - 1]) + parts[|parts| - 1]
  }

  lemma ConcatAppend<T>(parts: seq<seq<T>>, part: seq<T>)
    ensures Concat(parts + [part]) == Concat(parts) + part
  {
    DropLast(parts, part);
  }

  lemma {:induction false} ConcatSplit<T>(p: seq<seq<T>>, q: seq<seq<T>>)
    ensures Concat(p + q) == Concat(p) + Concat(q)
  {
    if q == [] {
      ConcatNothing(p);
      ConcatNothing(Concat(p));
    } else {
      var n := |q| - 1;
      ConcatSplit(p, q[..n]);
      CutAt(q, n);
      assert q[n..] == [q[n]];
      ConcatAssociates(p, q[..n], [q[n]]);
      ConcatAppend(p + q[..n], q[n]);
      ConcatAppend(q[..n], q[n]);
      ConcatAssociates(Concat(p), Concat(q[..n]), q[n]);
    }
  }

  // ---------- Sorting ----------

  /** What `std::list::sort` needs of its comparator, read as "is not after". */
  ghost predicate TotalPreorder<T(!new)>(le: (T, T) -> bool) {
    && (forall x, y :: le(x, y) || le(y, x))
    && (forall x, y, z :: le(x, y) && le(y, z) ==> le(x, z))
  }

  ghost predicate SortedBy<T>(le: (T, T) -> bool, s: seq<T>) {
    forall i, j | 0 <= i < j < |s| :: le(s[i], s[j])
  }

  function Insert<T>(le: (T, T) -> bool, x: T, s: seq<T>): seq<T> {
    if s == [] || le(x, s[0]) then [x] + s else [s[0]] + Insert(le, x, s[1..])
  }

  /** A stable sort: an element goes in front of the later elements it ties with. */
  function Sort<T>(le: (T, T) -> bool, s: seq<T>): seq<T> {
    if s == [] then [] else Insert(le, s[0], Sort(le, s[1..]))
  }

  function Filter<T>(p: T -> bool, s: seq<T>): seq<T> {
    if s == [] then [] else if p(s[0]) then [s[0]] + Filter(p, s[1..]) else Filter(p, s[1..])
  }

  lemma {:induction false} InsertSorted<T(!new)>(le: (T, T) -> bool, x: T, s: seq<T>)
    requires TotalPreorder(le) && SortedBy(le, s)
    ensures SortedBy(le, Insert(le, x, s))
    ensures multiset(Insert(le, x, s)) == multiset{x} + multiset(s)
  {
    if s == [] {
    } else if le(x, s[0]) {
      assert multiset([x] + s) == multiset{x} + multiset(s);
    } else {
      InsertSorted(le, x, s[1..]);
      assert s == [s[0]] + s[1..];
      var rest := Insert(le, x, s[1..]);
      forall y | y in rest ensures le(s[0], y) {
        assert y in multiset(rest);
        if y != x {
          assert y in s[1..];
        }
      }
    }
  }

  lemma FilterCons<T>(p: T -> bool, x: T, s: seq<T>)
    ensures Filter(p, [x] + s) == if p(x) then [x] + Filter(p, s) else Filter(p, s)
  {
    DropFirst(x, s);
  }

  lemma {:induction false} InsertStable<T>(le: (T, T) -> bool, x: T, s: seq<T>, p: T -> bool)
    requires forall y, z | p(y) && p(z) && (y == x || y in s) && (z == x || z in s) :: le(y, z)
    ensures Filter(p, Insert(le, x, s)) == if p(x) then [x] + Filter(p, s) else Filter(p, s)
  {
    if s == [] || le(x, s[0]) {
      FilterCons(p, x, s);
    } else {
      assert !p(x) || !p(s[0]);
      InsertStable(le, x, s[1..], p);
      FilterCons(p, s[0], Insert(le, x, s[1..]));
    }
  }

  /** `Sort` returns a sorted permutation of its input. */
  lemma {:induction false} SortCorrect<T(!new)>(le: (T, T) -> bool, s: seq<T>)
    requires TotalPreorder(le)
    ensures SortedBy(le, Sort(le, s))
    ensures multiset(Sort(le, s)) == multiset(s)
    ensures |Sort(le, s)| == |s|
  {
    if s != [] {
      SortCorrect(le, s[1..]);
      InsertSorted(le, s[0], Sort(le, s[1..]));
      assert s == [s[0]] + s[1..];
    }
    assert |multiset(Sort(le, s))| == |multiset(s)|;
  }

  /** `Sort` keeps elements that compare equal in their original order. */
  lemma {:induction false} SortStable<T(!new)>(le: (T, T) -> bool, s: seq<T>, p: T -> bool)
    requires TotalPreorder(le)
    requires forall y, z | p(y) && p(z) :: le(y, z)
    ensures Filter(p, Sort(le, s)) == Filter(p, s)
  {
    if s != [] {
      SortStable(le, s[1..], p);
      InsertStable(le, s[0], Sort(le, s[1..]), p);
    }
  }

  lemma SortMembers<T(!new)>(le: (T, T) -> bool, s: seq<T>)
    requires TotalPreorder(le)
    ensures forall x :: x in Sort(le, s) <==> x in s
  {
    SortCorrect(le, s);
    forall x ensures x in Sort(le, s) <==> x in s {
      assert x in multiset(Sort(le, s)) <==> x in multiset(s);
    }
  }

  // ---------- Adjacent scans against all pairs ----------

  /** `std::adjacent_find` found something. */
  predicate HasAdjacent<T>(bad: (T, T) -> bool, s: seq<T>) {
    exists i | 0 <= i < |s| - 1 :: bad(s[i], s[i + 1])
  }

  ghost predicate Pairwise<T>(r: (T, T) -> bool, s: seq<T>) {
    forall i, j | 0 <= i < j < |s| :: r(s[i], s[j])
  }

  lemma PairwiseCons<T>(r: (T, T) -> bool, x: T, s: seq<T>)
    ensures Pairwise(r, [x] + s) <==> (forall y | y in s :: r(x, y)) && Pairwise(r, s)
  {
    var t := [x] + s;
    if Pairwise(r, t) {
      forall y | y in s ensures r(x, y) {
        var k :| 0 <= k < |s| && s[k] == y;
        assert r(t[0], t[k + 1]);
      }
      forall i, j | 0 <= i < j < |s| ensures r(s[i], s[j]) {
        assert r(t[i + 1], t[j + 1]);
      }
    }
  }

  lemma {:induction false} InsertPairwise<T(!new)>(le: (T, T) -> bool, r: (T, T) -> bool, x: T, s: seq<T>)
    requires forall y, z :: r(y, z) == r(z, y)
    ensures forall y :: y in Insert(le, x, s) <==> y == x || y in s
    ensures Pairwise(r, Insert(le, x, s)) <==> Pairwise(r, [x] + s)
  {
    if s != [] && !le(x, s[0]) {
      InsertPairwise(le, r, x, s[1..]);
      PairwiseCons(r, s[0], Insert(le, x, s[1..]));
      PairwiseCons(r, x, s[1..]);
      PairwiseCons(r, x, s);
      PairwiseCons(r, s[0], s[1..]);
      assert s == [s[0]] + s[1..];
    }
  }

  /** A symmetric relation holds of all pairs before sorting iff it does after. */
  lemma {:induction false} SortPairwise<T(!new)>(le: (T, T) -> bool, r: (T, T) -> bool, s: seq<T>)
    requires TotalPreorder(le)
    requires forall y, z :: r(y, z) == r(z, y)
    ensures Pairwise(r, Sort(le, s)) <==> Pairwise(r, s)
  {
    if s != [] {
      SortPairwise(le, r, s[1..]);
      InsertPairwise(le, r, s[0], Sort(le, s[1..]));
      PairwiseCons(r, s[0], Sort(le, s[1..]));
      PairwiseCons(r, s[0], s[1..]);
      SortMembers(le, s[1..]);
      assert s == [s[0]] + s[1..];
    }
  }

  /** Sorting and then comparing neighbours detects exactly the duplicates: the scan finds
      nothing iff no two elements, however far apart, are the same. */
  lemma AdjacentScanFindsDuplicates<T(!new)>(le: (T, T) -> bool, same: (T, T) -> bool, s: seq<T>)
    requires TotalPreorder(le)
    requires forall x, y :: same(x, y) <==> le(x, y) && le(y, x)
    ensures !HasAdjacent(same, Sort(le, s)) <==> forall i, j | 0 <= i < j < |s| :: !same(s[i], s[j])
  {
    var t := Sort(le, s);
    SortCorrect(le, s);
    var differ := (x, y) => !same(x, y);
    SortPairwise(le, differ, s);
    assert Pairwise(differ, t) <==> !HasAdjacent(same, t) by {
      if !HasAdjacent(same, t) {
        forall i, j | 0 <= i < j < |t| ensures differ(t[i], t[j]) {
          assert !same(t[i], t[i + 1]);
          assert le(t[i], t[i + 1]);
          assert i + 1 < j ==> le(t[i + 1], t[j]);
        }
      } else {
        var i :| 0 <= i < |t| - 1 && same(t[i], t[i + 1]);
        assert !differ(t[i], t[i + 1]);
      }
    }
  }

  // ---------- Order on names ----------

  /** `std::string`'s `<=`: lexicographic by character. */
  predicate NameLe(a: string, b: string) {
    a == [] || (b != [] && (a[0] < b[0] || (a[0] == b[0] && NameLe(a[1..], b[1..]))))
  }

  lemma {:induction false} NameLeTotal(a: string, b: string)
    ensures NameLe(a, b) || NameLe(b, a)
  {
    if a != [] && b != [] && a[0] == b[0] {
      NameLeTotal(a[1..], b[1..]);
    }
  }

  lemma {:induction false} NameLeAntisymmetric(a: string, b: string)
    requires NameLe(a, b) && NameLe(b, a)
    ensures a == b
  {
    if a != [] && b != [] {
      NameLeAntisymmetric(a[1..], b[1..]);
      assert a == [a[0]] + a[1..] && b == [b[0]] + b[1..];
    }
  }

  lemma {:induction false} NameLeTransitive(a: string, b: string, c: string)
    requires NameLe(a, b) && NameLe(b, c)
    ensures NameLe(a, c)
  {
    if a != [] && b != [] && c != [] && a[0] == b[0] == c[0] {
      NameLeTransitive(a[1..], b[1..], c[1..]);
    }
  }

  lemma NameLeReflexive(a: string)
    ensures NameLe(a, a)
  {
    NameLeTotal(a, a);
  }

  // ---------- Counting ----------

  ghost predicate Distinct<T>(s: seq<T>) {
    forall i, j | 0 <= i < j < |s| :: s[i] != s[j]
  }

  lemma {:induction false} DistinctCount<T>(s: seq<T>)
    requires Distinct(s)
    ensures |(set x | x in s)| == |s|
  {
    if s != [] {
      var n := |s| - 1;
      DistinctCount(s[..n]);
      assert (set x | x in s) == (set x | x in s[..n]) + {s[n]};
      assert s[n] !in s[..n];
    }
  }

  ghost function Below(n: nat): (r: set<int>)
    ensures |r| == n && forall k :: k in r <==> 0 <= k < n
  {
    if n == 0 then {} else Below(n - 1) + {n - 1}
  }

  lemma SubsetCount<T>(a: set<T>, b: set<T>)
    requires a <= b
    ensures |a| <= |b|
    ensures |a| == |b| ==> a == b
  {
    assert b == a + (b - a);
    assert |b| == |a| + |b - a|;
  }

  /** Pigeonhole: distinct numbers below `n` are at most `n` many, and `n` of them are all. */
  lemma Pigeonhole(s: seq<int>, n: nat)
    requires Distinct(s)
    requires forall i | 0 <= i < |s| :: 0 <= s[i] < n
    ensures |s| <= n
    ensures |s| == n ==> forall k | 0 <= k < n :: k in s
  {
    var found := set x | x in s;
    var range := Below(n);
    DistinctCount(s);
    SubsetCount(found, range);
    if |s| == n {
      forall k | 0 <= k < n ensures k in s {
        assert k in range;
      }
    }
  }
}
