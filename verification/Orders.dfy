/** Orders on strings as the C++ containers and algorithms see them: the lexicographic order of
    std::string, std::sort over it, and the ascending walk over an ordered set of strings. */
module Orders {

  /** Lexicographic "at most", character by character. */
  predicate Leq(a: string, b: string) {
    a == [] || (b != [] && (a[0] < b[0] || (a[0] == b[0] && Leq(a[1..], b[1..]))))
  }

  lemma {:induction false} LeqTotal(a: string, b: string)
    ensures Leq(a, b) || Leq(b, a)
  {
    if a != [] && b != [] && a[0] == b[0] {
      LeqTotal(a[1..], b[1..]);
    }
  }

  lemma {:induction false} LeqAntisymmetric(a: string, b: string)
    requires Leq(a, b) && Leq(b, a)
    ensures a == b
  {
    if a != [] && b != [] {
      LeqAntisymmetric(a[1..], b[1..]);
      assert a == [a[0]] + a[1..] && b == [b[0]] + b[1..];
    }
  }

  lemma {:induction false} LeqTransitive(a: string, b: string, c: string)
    requires Leq(a, b) && Leq(b, c)
    ensures Leq(a, c)
  {
    if a != [] && a[0] == b[0] && b[0] == c[0] {
      LeqTransitive(a[1..], b[1..], c[1..]);
    }
  }

  /** a is smaller than b where they first differ, at k. */
  predicate SmallerAt(a: string, b: string, k: nat) {
    k < |a| && k < |b| && a[..k] == b[..k] && a[k] < b[k]
  }

  lemma {:induction false} SmallerAtNext(a: string, b: string, k: nat)
    requires a != [] && b != [] && a[0] == b[0]
    ensures SmallerAt(a, b, k + 1) <==> SmallerAt(a[1..], b[1..], k)
    ensures !SmallerAt(a, b, 0) && (a <= b <==> a[1..] <= b[1..])
  {
    assert a == [a[0]] + a[1..] && b == [b[0]] + b[1..];
    if k < |a| - 1 && k < |b| - 1 {
      assert a[..k + 1] == [a[0]] + a[1..][..k] && b[..k + 1] == [b[0]] + b[1..][..k];
      assert a[1..][..k] == a[..k + 1][1..] && b[1..][..k] == b[..k + 1][1..];
    }
  }

  lemma {:induction false} DifferAtOnce(a: string, b: string, k: nat)
    requires a != [] && b != [] && a[0] != b[0]
    ensures SmallerAt(a, b, k) <==> k == 0 && a[0] < b[0]
    ensures !(a <= b)
  {
    if 0 < k < |a| && k < |b| { assert a[..k][0] != b[..k][0]; }
    assert a[..0] == b[..0];
  }

  /** A string comes before another when it is an initial part of it, or is smaller where they first differ. */
  lemma {:induction false} LeqIff(a: string, b: string)
    ensures Leq(a, b) <==> a <= b || exists k: nat :: SmallerAt(a, b, k)
  {
    if a != [] && b != [] {
      if a[0] == b[0] {
        LeqIff(a[1..], b[1..]);
        forall k: nat ensures SmallerAt(a, b, k + 1) <==> SmallerAt(a[1..], b[1..], k) { SmallerAtNext(a, b, k); }
        SmallerAtNext(a, b, 0);
        if k: nat :| SmallerAt(a, b, k) { assert SmallerAt(a[1..], b[1..], k - 1); }
        if k: nat :| SmallerAt(a[1..], b[1..], k) { assert SmallerAt(a, b, k + 1); }
      } else {
        forall k: nat ensures SmallerAt(a, b, k) <==> k == 0 && a[0] < b[0] { DifferAtOnce(a, b, k); }
        DifferAtOnce(a, b, 0);
      }
    }
  }

  ghost predicate Sorted(s: seq<string>) {
    forall i, j :: 0 <= i < j < |s| ==> Leq(s[i], s[j])
  }

  function Insert(x: string, s: seq<string>): seq<string> {
    if s == [] || Leq(x, s[0]) then [x] + s else [s[0]] + Insert(x, s[1..])
  }

  /** What std::sort leaves in the vector. */
  function Sort(s: seq<string>): seq<string> {
    if s == [] then [] else Insert(s[0], Sort(s[1..]))
  }

  lemma {:induction false} InsertSorts(x: string, s: seq<string>)
    requires Sorted(s)
    ensures Sorted(Insert(x, s)) && multiset(Insert(x, s)) == multiset{x} + multiset(s)
  {
    if s == [] {
    } else if Leq(x, s[0]) {
      forall k | 0 <= k < |s| ensures Leq(x, s[k]) {
        if k > 0 { LeqTransitive(x, s[0], s[k]); }
      }
    } else {
      LeqTotal(x, s[0]);
      InsertSorts(x, s[1..]);
      var r := Insert(x, s[1..]);
      assert s == [s[0]] + s[1..];
      forall k | 0 <= k < |r| ensures Leq(s[0], r[k]) {
        assert r[k] in multiset(r);
        if r[k] != x {
          var q :| 0 <= q < |s[1..]| && s[1..][q] == r[k];
          assert s[q + 1] == r[k];
        }
      }
    }
  }

  lemma {:induction false} SortSorts(s: seq<string>)
    ensures Sorted(Sort(s)) && multiset(Sort(s)) == multiset(s) && |Sort(s)| == |s|
  {
    if s != [] {
      SortSorts(s[1..]);
      InsertSorts(s[0], Sort(s[1..]));
      assert s == [s[0]] + s[1..];
      assert |multiset(Sort(s))| == |multiset(s)|;
    }
  }

  lemma {:induction false} HeadIsLeast(s: seq<string>, x: string)
    requires Sorted(s) && x in multiset(s)
    ensures Leq(s[0], x)
  {
    LeqTotal(x, x);
    var i :| 0 <= i < |s| && s[i] == x;
  }

  lemma {:induction false} SameHead(a: seq<string>, b: seq<string>)
    requires Sorted(a) && Sorted(b) && multiset(a) == multiset(b) && a != [] && b != []
    ensures a[0] == b[0]
  {
    assert a[0] in multiset(b) && b[0] in multiset(a);
    HeadIsLeast(a, b[0]);
    HeadIsLeast(b, a[0]);
    LeqAntisymmetric(a[0], b[0]);
  }

  lemma {:induction false} SameSize(a: seq<string>, b: seq<string>)
    requires multiset(a) == multiset(b)
    ensures |a| == |b|
  {
    assert |multiset(a)| == |multiset(b)|;
  }

  lemma {:induction false} SameTail(a: seq<string>, b: seq<string>)
    requires multiset(a) == multiset(b) && a != [] && b != [] && a[0] == b[0]
    ensures multiset(a[1..]) == multiset(b[1..])
  {
    assert a == [a[0]] + a[1..] && b == [b[0]] + b[1..];
    assert multiset(a[1..]) == multiset(a) - multiset{a[0]};
    assert multiset(b[1..]) == multiset(b) - multiset{b[0]};
  }

  /** A sorted arrangement of given elements is unique. */
  lemma {:induction false} SortedUnique(a: seq<string>, b: seq<string>)
    requires Sorted(a) && Sorted(b) && multiset(a) == multiset(b)
    ensures a == b
  {
    SameSize(a, b);
    if a != [] {
      SameHead(a, b);
      SameTail(a, b);
      assert Sorted(a[1..]) && Sorted(b[1..]);
      SortedUnique(a[1..], b[1..]);
    }
  }

  /** Sorting forgets arrival order, and nothing else. */
  lemma {:induction false} SortCanonical(a: seq<string>, b: seq<string>)
    ensures Sort(a) == Sort(b) <==> multiset(a) == multiset(b)
  {
    SortSorts(a);
    SortSorts(b);
    if multiset(a) == multiset(b) {
      SortedUnique(Sort(a), Sort(b));
    }
  }

  ghost predicate Distinct(s: seq<string>) {
    forall i, j :: 0 <= i < j < |s| ==> s[i] != s[j]
  }

  ghost predicate StrictlyAscending(s: seq<string>) {
    forall i, j :: 0 <= i < j < |s| ==> Leq(s[i], s[j]) && s[i] != s[j]
  }

  predicate IsMin(m: string, s: set<string>) {
    m in s && forall y :: y in s ==> Leq(m, y)
  }

  lemma {:induction false} MinExists(s: set<string>)
    requires s != {}
    ensures exists m :: IsMin(m, s)
  {
    var m :| m in s;
    LeqTotal(m, m);
    if s != {m} {
      MinExists(s - {m});
      var n :| IsMin(n, s - {m});
      LeqTotal(m, n);
      if Leq(m, n) {
        forall y | y in s ensures Leq(m, y) {
          if y != m { LeqTransitive(m, n, y); }
        }
        assert IsMin(m, s);
      } else {
        assert IsMin(n, s);
      }
    } else {
      assert IsMin(m, s);
    }
  }

  lemma {:induction false} MinUnique(s: set<string>)
    ensures forall a, b :: IsMin(a, s) && IsMin(b, s) ==> a == b
  {
    forall a, b | IsMin(a, s) && IsMin(b, s) ensures a == b {
      LeqAntisymmetric(a, b);
    }
  }

  /** The first element an ordered set of strings yields. */
  function First(s: set<string>): (m: string)
    requires s != {}
    ensures m in s && forall y :: y in s ==> Leq(m, y)
  {
    MinExists(s);
    MinUnique(s);
    assert forall a, b | IsMin(a, s) && IsMin(b, s) :: a == b;
    var m :| m in s && IsMin(m, s);
    m
  }

  /** The ascending walk over an ordered set of strings. */
  function Ascending(s: set<string>): (r: seq<string>)
    ensures StrictlyAscending(r)
    ensures forall x :: x in r <==> x in s
    ensures |r| == |s|
  {
    if s == {} then [] else
      var m := First(s);
      [m] + Ascending(s - {m})
  }

  // ---------- std::set_intersection and std::set_difference on sorted ranges ----------

  function Intersection(a: seq<string>, b: seq<string>): seq<string> {
    if a == [] || b == [] then []
    else if a[0] == b[0] then [a[0]] + Intersection(a[1..], b[1..])
    else if Leq(a[0], b[0]) then Intersection(a[1..], b)
    else Intersection(a, b[1..])
  }

  function Difference(a: seq<string>, b: seq<string>): seq<string> {
    if a == [] || b == [] then a
    else if a[0] == b[0] then Difference(a[1..], b[1..])
    else if Leq(a[0], b[0]) then [a[0]] + Difference(a[1..], b)
    else Difference(a, b[1..])
  }

  lemma {:induction false} HeadBelowIsAbsent(x: string, s: seq<string>)
    requires Sorted(s) && s != [] && Leq(x, s[0]) && x != s[0]
    ensures x !in multiset(s)
  {
    if x in multiset(s) {
      HeadIsLeast(s, x);
      LeqAntisymmetric(x, s[0]);
    }
  }

  lemma {:induction false} MergeEqualHeads(a: seq<string>, b: seq<string>, both: multiset<string>,
                                           left: multiset<string>)
    requires a != [] && b != [] && a[0] == b[0]
    requires both == multiset(a[1..]) * multiset(b[1..]) && left == multiset(a[1..]) - multiset(b[1..])
    ensures multiset{a[0]} + both == multiset(a) * multiset(b)
    ensures left == multiset(a) - multiset(b)
  {
    assert a == [a[0]] + a[1..] && b == [b[0]] + b[1..];
  }

  lemma {:induction false} MergeSkipLeft(a: seq<string>, b: seq<string>, both: multiset<string>, left: multiset<string>)
    requires a != [] && a[0] !in multiset(b)
    requires both == multiset(a[1..]) * multiset(b) && left == multiset(a[1..]) - multiset(b)
    ensures both == multiset(a) * multiset(b)
    ensures multiset{a[0]} + left == multiset(a) - multiset(b)
  {
    assert a == [a[0]] + a[1..];
  }

  lemma {:induction false} MergeSkipRight(a: seq<string>, b: seq<string>, both: multiset<string>,
                                          left: multiset<string>)
    requires b != [] && b[0] !in multiset(a)
    requires both == multiset(a) * multiset(b[1..]) && left == multiset(a) - multiset(b[1..])
    ensures both == multiset(a) * multiset(b)
    ensures left == multiset(a) - multiset(b)
  {
    assert b == [b[0]] + b[1..];
  }

  /** On sorted ranges the merge loops compute multiset intersection and difference. */
  lemma {:induction false} MergeLoopsExact(a: seq<string>, b: seq<string>)
    requires Sorted(a) && Sorted(b)
    ensures multiset(Intersection(a, b)) == multiset(a) * multiset(b)
    ensures multiset(Difference(a, b)) == multiset(a) - multiset(b)
  {
    if a != [] && b != [] {
      if a[0] == b[0] {
        MergeLoopsExact(a[1..], b[1..]);
        MergeEqualHeads(a, b, multiset(Intersection(a[1..], b[1..])), multiset(Difference(a[1..], b[1..])));
      } else if Leq(a[0], b[0]) {
        HeadBelowIsAbsent(a[0], b);
        MergeLoopsExact(a[1..], b);
        MergeSkipLeft(a, b, multiset(Intersection(a[1..], b)), multiset(Difference(a[1..], b)));
      } else {
        LeqTotal(a[0], b[0]);
        HeadBelowIsAbsent(b[0], a);
        MergeLoopsExact(a, b[1..]);
        MergeSkipRight(a, b, multiset(Intersection(a, b[1..])), multiset(Difference(a, b[1..])));
      }
    }
  }

  // ---------- heights ----------

  predicate IsLeast(m: nat, s: set<nat>) {
    m in s && forall y :: y in s ==> m <= y
  }

  lemma {:induction false} LeastExists(s: set<nat>)
    requires s != {}
    ensures exists m :: IsLeast(m, s)
  {
    var m :| m in s;
    if s == {m} {
      assert IsLeast(m, s);
    } else {
      LeastExists(s - {m});
      var n :| IsLeast(n, s - {m});
      var l := if m <= n then m else n;
      forall y | y in s ensures l <= y {
        assert y == m || y in s - {m};
      }
      assert IsLeast(l, s);
    }
  }

  function Least(s: set<nat>): (m: nat)
    requires s != {}
    ensures m in s && forall y :: y in s ==> m <= y
  {
    LeastExists(s);
    var m :| m in s && IsLeast(m, s);
    m
  }

  /** The ascending walk over an ordered set of heights. */
  function AscendingNats(s: set<nat>): (r: seq<nat>)
    ensures forall i, j :: 0 <= i < j < |r| ==> r[i] < r[j]
    ensures forall x :: x in r <==> x in s
    ensures |r| == |s|
  {
    if s == {} then [] else
      var m := Least(s);
      [m] + AscendingNats(s - {m})
  }
}
