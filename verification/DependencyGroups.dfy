/** The greedy grouping of transactions by shared contract addresses (ca/dispatchtx.cpp and
    ca/packager_dispatch.cpp run the same loop). The unordered map is visited in an arbitrary
    order, which is a parameter here. */
module DependencyGroups {
  import Orders

  /** Transaction hash to the contract addresses it depends on. */
  type Deps = map<string, seq<string>>

  predicate Shares(d: Deps, a: string, b: string)
    requires a in d && b in d
  {
    exists x :: x in d[a] && x in d[b]
  }

  /** The same transaction, or one that shares an address with it. */
  predicate Near(d: Deps, a: string, b: string) {
    a in d && b in d && (a == b || Shares(d, a, b))
  }

  /** A transaction together with every transaction that shares an address with it. */
  function Closed(d: Deps, a: string): set<string> {
    set b | b in d && Near(d, a, b)
  }

  /** Add a set to the first group it meets, or open a new group. */
  function Merge(groups: seq<set<string>>, c: set<string>): seq<set<string>> {
    if groups == [] then [c]
    else if groups[0] * c != {} then [groups[0] + c] + groups[1..]
    else [groups[0]] + Merge(groups[1..], c)
  }

  /** The grouping after visiting the given keys in the given order. */
  function Greedy(d: Deps, order: seq<string>): seq<set<string>> {
    if order == [] then []
    else Merge(Greedy(d, order[..|order| - 1]), Closed(d, order[|order| - 1]))
  }

  /** A visiting order of the map: every key exactly once. */
  ghost predicate Visits(order: seq<string>, d: Deps) {
    && (forall k :: k in order <==> k in d)
    && Orders.Distinct(order)
  }

  /** b is reached from a by at most n sharing links. */
  ghost predicate Within(d: Deps, a: string, b: string, n: nat)
    decreases n
  {
    a in d && b in d && if n == 0 then a == b else exists c :: Near(d, a, c) && Within(d, c, b, n - 1)
  }

  /** Same connected component of the sharing graph. */
  ghost predicate Connected(d: Deps, a: string, b: string) {
    exists n: nat :: Within(d, a, b, n)
  }

  ghost predicate Disjoint(groups: seq<set<string>>) {
    forall i, j :: 0 <= i < j < |groups| ==> groups[i] !! groups[j]
  }

  /** Any two transactions three links apart are also two links apart. Every component then has
      diameter at most two; a transitive sharing relation is the special case of diameter one. */
  ghost predicate ShortCuts(d: Deps) {
    forall a, b :: Within(d, a, b, 3) ==> Within(d, a, b, 2)
  }

  /** The same condition around one transaction: for it and those it shares an address with. */
  ghost predicate ShortCutsNear(d: Deps, h: string) {
    forall u, a :: Near(d, h, u) && Within(d, u, a, 3) ==> Within(d, u, a, 2)
  }

  /** Two groups hold the transaction. */
  ghost predicate Overlaps(groups: seq<set<string>>, h: string) {
    exists i, j :: 0 <= i < j < |groups| && h in groups[i] && h in groups[j]
  }

  ghost predicate TransitiveSharing(d: Deps) {
    forall a, b :: Within(d, a, b, 2) ==> Near(d, a, b)
  }

  // ---------- the sharing graph ----------

  lemma {:induction false} WithinOne(d: Deps, a: string, b: string)
    requires Near(d, a, b)
    ensures Within(d, a, b, 1)
  {
    assert Within(d, b, b, 0);
  }

  lemma {:induction false} WithinMore(d: Deps, a: string, b: string, n: nat)
    requires Within(d, a, b, n)
    ensures Within(d, a, b, n + 1)
  {
    assert Near(d, a, a);
  }

  lemma {:induction false} WithinTransitive(d: Deps, a: string, b: string, c: string, n: nat, m: nat)
    requires Within(d, a, b, n) && Within(d, b, c, m)
    ensures Within(d, a, c, n + m)
    decreases n
  {
    if n > 0 {
      var x :| Near(d, a, x) && Within(d, x, b, n - 1);
      WithinTransitive(d, x, b, c, n - 1, m);
    }
  }

  lemma {:induction false} WithinSymmetric(d: Deps, a: string, b: string, n: nat)
    requires Within(d, a, b, n)
    ensures Within(d, b, a, n)
    decreases n
  {
    if n > 0 {
      var x :| Near(d, a, x) && Within(d, x, b, n - 1);
      WithinSymmetric(d, x, b, n - 1);
      WithinOne(d, x, a);
      WithinTransitive(d, b, x, a, n - 1, 1);
    }
  }

  lemma {:induction false} OneLinkOn(d: Deps, a: string, q: string, b: string, n: nat)
    requires Near(d, q, b)
    ensures Within(d, a, q, n) ==> Within(d, a, b, n + 1)
  {
    if Within(d, a, q, n) {
      WithinOne(d, q, b);
      WithinTransitive(d, a, q, b, n, 1);
    }
  }

  lemma {:induction false} BeforeLast(d: Deps, a: string, b: string, n: nat) returns (q: string)
    requires Within(d, a, b, n + 1)
    ensures Within(d, a, q, n) && Near(d, q, b)
  {
    WithinSymmetric(d, a, b, n + 1);
    q :| Near(d, b, q) && Within(d, q, a, n);
    WithinSymmetric(d, q, a, n);
  }

  lemma {:induction false} NearConnects(d: Deps, a: string, b: string)
    requires Near(d, a, b)
    ensures Connected(d, a, b)
  {
    WithinOne(d, a, b);
  }

  lemma {:induction false} ConnectedSymmetric(d: Deps, a: string, b: string)
    requires Connected(d, a, b)
    ensures Connected(d, b, a)
  {
    var n: nat :| Within(d, a, b, n);
    WithinSymmetric(d, a, b, n);
  }

  lemma {:induction false} ConnectedTransitive(d: Deps, a: string, b: string, c: string)
    requires Connected(d, a, b) && Connected(d, b, c)
    ensures Connected(d, a, c)
  {
    var n: nat :| Within(d, a, b, n);
    var m: nat :| Within(d, b, c, m);
    WithinTransitive(d, a, b, c, n, m);
  }

  lemma {:induction false} ShortCutsShorten(d: Deps, a: string, b: string, n: nat)
    requires ShortCuts(d) && Within(d, a, b, n)
    ensures Within(d, a, b, 2)
    decreases n
  {
    if n == 0 {
      WithinMore(d, a, b, 0);
      WithinMore(d, a, b, 1);
    } else {
      var x :| Near(d, a, x) && Within(d, x, b, n - 1);
      ShortCutsShorten(d, x, b, n - 1);
    }
  }

  /** Under the short-cut condition, connected transactions have a common neighbour. */
  lemma {:induction false} ShortCutsMeet(d: Deps, a: string, b: string) returns (m: string)
    requires ShortCuts(d) && Connected(d, a, b)
    ensures Near(d, a, m) && Near(d, m, b)
  {
    var n: nat :| Within(d, a, b, n);
    ShortCutsShorten(d, a, b, n);
    m :| Near(d, a, m) && Near(d, m, b);
  }

  // ---------- what every visiting order gives ----------

  lemma {:induction false} MergeGrows(groups: seq<set<string>>, c: set<string>)
    ensures |groups| <= |Merge(groups, c)| <= |groups| + 1
    ensures forall i :: 0 <= i < |groups| ==> groups[i] <= Merge(groups, c)[i]
    ensures SomeGroupHolds(Merge(groups, c), c)
  {
    if groups == [] {
      assert c <= Merge(groups, c)[0];
    } else if groups[0] * c != {} {
      assert c <= Merge(groups, c)[0];
    } else {
      var r := Merge(groups[1..], c);
      MergeGrows(groups[1..], c);
      var i :| 0 <= i < |r| && c <= r[i];
      assert c <= Merge(groups, c)[i + 1];
    }
  }

  /** Merging touches one place only: the first group that meets c, or a new last one. */
  lemma {:induction false} MergeAt(groups: seq<set<string>>, c: set<string>) returns (k: nat)
    ensures k <= |groups| && forall i :: 0 <= i < k ==> groups[i] * c == {}
    ensures k < |groups| ==> groups[k] * c != {} && Merge(groups, c) == groups[k := groups[k] + c]
    ensures k == |groups| ==> Merge(groups, c) == groups + [c]
  {
    if groups == [] || groups[0] * c != {} {
      k := 0;
    } else {
      var j := MergeAt(groups[1..], c);
      k := j + 1;
      assert groups == [groups[0]] + groups[1..];
    }
  }

  ghost predicate SomeGroupHolds(groups: seq<set<string>>, c: set<string>) {
    exists i :: 0 <= i < |groups| && c <= groups[i]
  }

  /** Every visited transaction sits in some group together with everything it shares with. */
  lemma {:induction false} GreedyKeepsSharersTogether(d: Deps, order: seq<string>, a: string)
    requires a in order
    ensures SomeGroupHolds(Greedy(d, order), Closed(d, a))
  {
    var before, last := order[..|order| - 1], order[|order| - 1];
    var g := Greedy(d, before);
    MergeGrows(g, Closed(d, last));
    if a != last {
      assert a in before;
      GreedyKeepsSharersTogether(d, before, a);
      var i :| 0 <= i < |g| && Closed(d, a) <= g[i];
      assert Closed(d, a) <= Greedy(d, order)[i];
    }
  }

  ghost predicate InOneComponent(d: Deps, g: set<string>) {
    forall a, b :: a in g && b in g ==> Connected(d, a, b)
  }

  /** A group contains the neighbourhood of one of its members and stays inside one component. */
  ghost predicate GoodGroup(d: Deps, g: set<string>) {
    && InOneComponent(d, g)
    && exists u :: u in d && Closed(d, u) <= g
  }

  lemma {:induction false} ClosedIsGood(d: Deps, u: string)
    requires u in d
    ensures u in Closed(d, u) && GoodGroup(d, Closed(d, u))
  {
    forall a, b | a in Closed(d, u) && b in Closed(d, u) ensures Connected(d, a, b) {
      NearConnects(d, a, u);
      NearConnects(d, u, b);
      ConnectedTransitive(d, a, u, b);
    }
    assert Closed(d, u) <= Closed(d, u);
  }

  lemma {:induction false} UnionIsGood(d: Deps, g: set<string>, h: set<string>)
    requires GoodGroup(d, g) && InOneComponent(d, h) && g * h != {}
    ensures GoodGroup(d, g + h)
  {
    var x :| x in g * h;
    forall a, b | a in g + h && b in g + h ensures Connected(d, a, b) {
      ConnectedTransitive(d, a, x, b);
    }
  }

  /** No group reaches outside one connected component. */
  lemma {:induction false} GreedyStaysInComponents(d: Deps, order: seq<string>)
    requires forall a :: a in order ==> a in d
    ensures forall i :: 0 <= i < |Greedy(d, order)| ==> GoodGroup(d, Greedy(d, order)[i])
  {
    if order != [] {
      var before, last := order[..|order| - 1], order[|order| - 1];
      var g, c := Greedy(d, before), Closed(d, last);
      GreedyStaysInComponents(d, before);
      ClosedIsGood(d, last);
      var k := MergeAt(g, c);
      if k < |g| {
        UnionIsGood(d, g[k], c);
      }
    }
  }

  /** For every visiting order: two transactions that share an address are together in some group
      (in particular each transaction is in some group), and a group never leaves one connected
      component of the sharing graph. */
  lemma {:induction false} GreedyCoversAndConnects(d: Deps, order: seq<string>)
    requires Visits(order, d)
    ensures forall a, b :: Near(d, a, b) ==> SomeGroupHolds(Greedy(d, order), {a, b})
    ensures forall i, a, b ::
        0 <= i < |Greedy(d, order)| && a in Greedy(d, order)[i] && b in Greedy(d, order)[i] ==> Connected(d, a, b)
  {
    var r := Greedy(d, order);
    GreedyStaysInComponents(d, order);
    forall a, b | Near(d, a, b) ensures SomeGroupHolds(r, {a, b}) {
      GreedyKeepsSharersTogether(d, order, a);
      var i :| 0 <= i < |r| && Closed(d, a) <= r[i];
      assert {a, b} <= r[i];
    }
  }

  // ---------- when the groups are disjoint ----------

  /** No component reaches from one group into the other. */
  ghost predicate Apart(d: Deps, g: set<string>, h: set<string>) {
    forall a, b :: a in g && b in h ==> !Connected(d, a, b)
  }

  lemma {:induction false} ApartSymmetric(d: Deps, g: set<string>, h: set<string>)
    requires Apart(d, g, h)
    ensures Apart(d, h, g)
  {
    forall a, b | a in h && b in g ensures !Connected(d, a, b) {
      if Connected(d, a, b) { ConnectedSymmetric(d, a, b); }
    }
  }

  lemma {:induction false} ApartUnion(d: Deps, f: set<string>, g: set<string>, h: set<string>)
    requires Apart(d, f, g) && InOneComponent(d, h) && g * h != {}
    ensures Apart(d, f, g + h)
  {
    var x :| x in g * h;
    forall a, b | a in f && b in g + h ensures !Connected(d, a, b) {
      if b in h && Connected(d, a, b) { ConnectedTransitive(d, a, b, x); }
    }
  }

  /** Under the short-cut condition a group with a member in v's component meets v's neighbourhood. */
  lemma {:induction false} MeetsOrApart(d: Deps, g: set<string>, v: string)
    requires ShortCuts(d) && GoodGroup(d, g) && v in d
    ensures g * Closed(d, v) != {} || Apart(d, g, Closed(d, v))
  {
    if !Apart(d, g, Closed(d, v)) {
      var a, b :| a in g && b in Closed(d, v) && Connected(d, a, b);
      var u :| u in d && Closed(d, u) <= g;
      ClosedIsGood(d, u);
      NearConnects(d, b, v);
      ConnectedTransitive(d, u, a, b);
      ConnectedTransitive(d, u, b, v);
      var m := ShortCutsMeet(d, u, v);
      assert m in g * Closed(d, v);
    }
  }

  ghost predicate PairwiseApart(d: Deps, groups: seq<set<string>>) {
    forall i, j :: 0 <= i < |groups| && 0 <= j < |groups| && i != j ==> Apart(d, groups[i], groups[j])
  }

  lemma {:induction false} ShortCutsSeparate(d: Deps, order: seq<string>)
    requires ShortCuts(d) && forall a :: a in order ==> a in d
    ensures PairwiseApart(d, Greedy(d, order))
  {
    if order != [] {
      var before, v := order[..|order| - 1], order[|order| - 1];
      var g, c := Greedy(d, before), Closed(d, v);
      ShortCutsSeparate(d, before);
      GreedyStaysInComponents(d, before);
      ClosedIsGood(d, v);
      var k := MergeAt(g, c);
      if k < |g| {
        forall i | 0 <= i < |g| && i != k ensures Apart(d, g[i], g[k] + c) && Apart(d, g[k] + c, g[i]) {
          ApartUnion(d, g[i], g[k], c);
          ApartSymmetric(d, g[i], g[k] + c);
        }
      } else {
        forall i | 0 <= i < |g| ensures Apart(d, g[i], c) && Apart(d, c, g[i]) {
          MeetsOrApart(d, g[i], v);
          ApartSymmetric(d, g[i], c);
        }
      }
    }
  }

  lemma {:induction false} ApartIsDisjoint(d: Deps, order: seq<string>)
    requires forall a :: a in order ==> a in d
    requires PairwiseApart(d, Greedy(d, order))
    ensures Disjoint(Greedy(d, order))
  {
    var r := Greedy(d, order);
    GreedyStaysInComponents(d, order);
    forall i, j | 0 <= i < j < |r| ensures r[i] !! r[j] {
      assert Apart(d, r[i], r[j]) && GoodGroup(d, r[i]);
      forall x | x in r[i] ensures x !in r[j] { assert Connected(d, x, x); }
    }
  }

  lemma {:induction false} GreedyGrows(d: Deps, order: seq<string>, n: nat)
    requires n <= |order|
    ensures |Greedy(d, order[..n])| <= |Greedy(d, order)|
    ensures forall i :: 0 <= i < |Greedy(d, order[..n])| ==> Greedy(d, order[..n])[i] <= Greedy(d, order)[i]
  {
    if n == |order| {
      assert order[..n] == order;
    } else {
      var before := order[..|order| - 1];
      assert order[..n] == before[..n];
      GreedyGrows(d, before, n);
      MergeGrows(Greedy(d, before), Closed(d, order[|order| - 1]));
    }
  }

  /** A far transaction first, then u, then v, which is near both: h, near u and v, is in both groups. */
  lemma {:induction false} FarOneFirst(d: Deps, a: string, u: string, v: string, h: string)
    requires a in d && Near(d, h, u) && Near(d, h, v)
    requires Closed(d, a) * Closed(d, u) == {} && Closed(d, a) * Closed(d, v) != {}
    ensures a != u && u != v && a != v
    ensures |Greedy(d, [a, u, v])| == 2 && h in Greedy(d, [a, u, v])[0] && h in Greedy(d, [a, u, v])[1]
  {
    var na, nu, nv := Closed(d, a), Closed(d, u), Closed(d, v);
    assert h in nu && h in nv && a in na && h !in na * nu && a !in na * nu;
    assert [a, u, v][..2] == [a, u] && [a, u][..1] == [a] && [a][..0] == [];
    assert Greedy(d, [a]) == [na];
    assert Merge([na], nu) == [na] + Merge([], nu);
    assert Greedy(d, [a, u]) == [na, nu];
    assert Greedy(d, [a, u, v]) == [na + nv, nu];
  }

  lemma {:induction false} AppendDistinct(a: seq<string>, b: seq<string>)
    requires Orders.Distinct(a) && Orders.Distinct(b) && forall k :: k in a ==> k !in b
    ensures Orders.Distinct(a + b)
  {
    forall i, j | 0 <= i < j < |a + b| ensures (a + b)[i] != (a + b)[j] {
      if j >= |a| {
        assert (a + b)[j] == b[j - |a|] && b[j - |a|] in b;
        assert i < |a| ==> (a + b)[i] in a;
      }
    }
  }

  /** A visiting order that starts with three chosen keys. */
  lemma {:induction false} VisitFirst(d: Deps, a: string, b: string, c: string) returns (order: seq<string>)
    requires a in d && b in d && c in d && a != b && b != c && a != c
    ensures Visits(order, d) && |order| >= 3 && order[..3] == [a, b, c]
  {
    var rest := Orders.Ascending(d.Keys - {a, b, c});
    order := [a, b, c] + rest;
    assert Orders.Distinct([a, b, c]) && Orders.Distinct(rest);
    AppendDistinct([a, b, c], rest);
    forall k ensures k in order <==> k in d {
      assert k in order <==> k in [a, b, c] || k in rest;
      assert k in rest <==> k in d.Keys - {a, b, c};
    }
  }

  lemma {:induction false} FarOneFirstOverlaps(d: Deps, a: string, u: string, v: string, h: string)
    returns (order: seq<string>)
    requires a in d && Near(d, h, u) && Near(d, h, v)
    requires Closed(d, a) * Closed(d, u) == {} && Closed(d, a) * Closed(d, v) != {}
    ensures Visits(order, d) && Overlaps(Greedy(d, order), h)
  {
    FarOneFirst(d, a, u, v, h);
    order := VisitFirst(d, a, u, v);
    GreedyGrows(d, order, 3);
    assert h in Greedy(d, order)[0] && h in Greedy(d, order)[1];
  }

  lemma {:induction false} MeetIffWithinTwo(d: Deps, a: string, b: string)
    requires a in d && b in d
    ensures Closed(d, a) * Closed(d, b) != {} <==> Within(d, a, b, 2)
  {
    if m :| m in Closed(d, a) * Closed(d, b) {
      WithinOne(d, m, b);
    }
    if Within(d, a, b, 2) {
      var m :| Near(d, a, m) && Within(d, m, b, 1);
      assert m in Closed(d, a) * Closed(d, b);
    }
  }

  /** A transaction exactly three links from another: some visiting order leaves it in two groups. */
  lemma {:induction false} ThreeAwayOverlaps(d: Deps, h: string, a: string) returns (order: seq<string>)
    requires Within(d, h, a, 3) && !Within(d, h, a, 2)
    ensures Visits(order, d) && Overlaps(Greedy(d, order), h)
  {
    var v :| Near(d, h, v) && Within(d, v, a, 2);
    MeetIffWithinTwo(d, h, a);
    MeetIffWithinTwo(d, v, a);
    order := FarOneFirstOverlaps(d, a, h, v, h);
  }

  /** Where the condition fails around a transaction, some visiting order leaves it in two groups. */
  lemma {:induction false} LongPathNearOverlaps(d: Deps, h: string) returns (order: seq<string>)
    requires !ShortCutsNear(d, h)
    ensures Visits(order, d) && Overlaps(Greedy(d, order), h)
  {
    var u, a :| Near(d, h, u) && Within(d, u, a, 3) && !Within(d, u, a, 2);
    if Within(d, h, a, 2) {
      MeetIffWithinTwo(d, u, a);
      MeetIffWithinTwo(d, h, a);
      order := FarOneFirstOverlaps(d, a, u, h, h);
    } else if Within(d, h, a, 3) {
      order := ThreeAwayOverlaps(d, h, a);
    } else {
      var q := BeforeLast(d, u, a, 2);
      assert Within(d, h, q, 3);
      OneLinkOn(d, h, q, a, 2);
      order := ThreeAwayOverlaps(d, h, q);
    }
  }

  /** Where the short-cut condition fails, some visiting order leaves two groups that overlap. */
  lemma {:induction false} LongPathOverlaps(d: Deps, a: string, e: string) returns (order: seq<string>)
    requires Within(d, a, e, 3) && !Within(d, a, e, 2)
    ensures Visits(order, d) && !Disjoint(Greedy(d, order))
  {
    order := ThreeAwayOverlaps(d, a, e);
  }

  // ---------- when a transaction is in one group only ----------

  lemma {:induction false} ShortCutsEverywhere(d: Deps)
    ensures ShortCuts(d) <==> forall h :: h in d ==> ShortCutsNear(d, h)
  {
    forall a, b | Within(d, a, b, 3) && !Within(d, a, b, 2) ensures !ShortCutsNear(d, a) {
      assert Near(d, a, a);
    }
  }

  /** No member of the group is connected to h. */
  ghost predicate Foreign(d: Deps, g: set<string>, h: string) {
    forall x :: x in g ==> !Connected(d, x, h)
  }

  /** Only the first group of its component holds h. */
  ghost predicate FirstOnly(d: Deps, groups: seq<set<string>>, h: string) {
    forall i, j :: 0 <= i < j < |groups| && h in groups[j] ==> Foreign(d, groups[i], h)
  }

  lemma {:induction false} ForeignUnion(d: Deps, g: set<string>, c: set<string>, h: string)
    requires Foreign(d, g, h) && InOneComponent(d, c) && g * c != {}
    ensures Foreign(d, g + c, h)
  {
    var y :| y in g * c;
    forall x | x in c ensures !Connected(d, x, h) {
      if Connected(d, x, h) { ConnectedTransitive(d, y, x, h); }
    }
  }

  lemma {:induction false} ShortenNear(d: Deps, h: string, v: string, a: string, n: nat)
    requires ShortCutsNear(d, h) && Near(d, h, v) && Within(d, v, a, n)
    ensures Within(d, v, a, 2)
    decreases n
  {
    if n == 0 {
      WithinMore(d, v, a, 0);
      WithinMore(d, v, a, 1);
    } else {
      var q := BeforeLast(d, v, a, n - 1);
      ShortenNear(d, h, v, q, n - 1);
      OneLinkOn(d, v, q, a, 2);
    }
  }

  /** Around h, a group that does not meet v's neighbourhood has no member in the component. */
  lemma {:induction false} MissedIsForeign(d: Deps, g: set<string>, v: string, h: string)
    requires ShortCutsNear(d, h) && Near(d, h, v) && GoodGroup(d, g) && g * Closed(d, v) == {}
    ensures Foreign(d, g, h)
  {
    forall x | x in g ensures !Connected(d, x, h) {
      if Connected(d, x, h) {
        var u :| u in d && Closed(d, u) <= g;
        assert u in Closed(d, u);
        NearConnects(d, h, v);
        ConnectedTransitive(d, u, x, h);
        ConnectedTransitive(d, u, h, v);
        ConnectedSymmetric(d, u, v);
        var n: nat :| Within(d, v, u, n);
        ShortenNear(d, h, v, u, n);
        MeetIffWithinTwo(d, v, u);
      }
    }
  }

  lemma {:induction false} MergeKeepsFirstOnly(d: Deps, g: seq<set<string>>, v: string, h: string)
    requires ShortCutsNear(d, h) && v in d && FirstOnly(d, g, h) && forall i :: 0 <= i < |g| ==> GoodGroup(d, g[i])
    ensures FirstOnly(d, Merge(g, Closed(d, v)), h)
  {
    var c := Closed(d, v);
    var next := Merge(g, c);
    ClosedIsGood(d, v);
    var k := MergeAt(g, c);
    forall i, j | 0 <= i < j < |next| && h in next[j] ensures Foreign(d, next[i], h) {
      if i == k {
        ForeignUnion(d, g[k], c, h);
      } else if j == k && h in c {
        MissedIsForeign(d, g[i], v, h);
      }
    }
  }

  lemma {:induction false} GreedyKeepsFirstOnly(d: Deps, order: seq<string>, h: string)
    requires ShortCutsNear(d, h) && forall a :: a in order ==> a in d
    ensures FirstOnly(d, Greedy(d, order), h)
  {
    if order != [] {
      var before, v := order[..|order| - 1], order[|order| - 1];
      GreedyKeepsFirstOnly(d, before, h);
      GreedyStaysInComponents(d, before);
      MergeKeepsFirstOnly(d, Greedy(d, before), v, h);
    }
  }

  /** A transaction is in one group only, for every visiting order, exactly when neither it nor any transaction
      it shares an address with is more than two links from another one of its component. */
  lemma {:induction false} NeverOverlapsIff(d: Deps, h: string)
    requires h in d
    ensures (forall order :: Visits(order, d) ==> !Overlaps(Greedy(d, order), h)) <==> ShortCutsNear(d, h)
  {
    if ShortCutsNear(d, h) {
      forall order | Visits(order, d) ensures !Overlaps(Greedy(d, order), h) {
        GreedyKeepsFirstOnly(d, order, h);
        assert Near(d, h, h);
        NearConnects(d, h, h);
      }
    } else {
      var order := LongPathNearOverlaps(d, h);
    }
  }

  /** Four transactions, each sharing one address with the next. */
  const CHAIN: Deps := map["a" := ["1"], "b" := ["1", "2"], "c" := ["2", "3"], "e" := ["3"]]

  lemma {:induction false} ChainLinks()
    ensures Near(CHAIN, "a", "b") && Near(CHAIN, "b", "c") && Near(CHAIN, "c", "e")
    ensures forall m :: !(Near(CHAIN, "a", m) && Near(CHAIN, m, "e"))
  {
    assert "1" in CHAIN["a"] && "1" in CHAIN["b"] && "2" in CHAIN["b"] && "2" in CHAIN["c"];
    assert "3" in CHAIN["c"] && "3" in CHAIN["e"];
    assert "1"[0] != "2"[0] && "1"[0] != "3"[0] && "2"[0] != "3"[0];
    assert forall x :: x in CHAIN["a"] <==> x == "1";
    assert forall x :: x in CHAIN["e"] <==> x == "3";
    assert forall x :: x in CHAIN["b"] <==> x == "1" || x == "2";
    assert forall x :: x in CHAIN["c"] <==> x == "2" || x == "3";
    assert "a"[0] != "e"[0];
    assert !Shares(CHAIN, "a", "c") && !Shares(CHAIN, "b", "e") && !Shares(CHAIN, "a", "e");
  }

  /** On the chain some visiting order gives two groups that overlap. */
  lemma {:induction false} ChainOverlaps() returns (order: seq<string>)
    ensures !ShortCuts(CHAIN) && Visits(order, CHAIN) && !Disjoint(Greedy(CHAIN, order))
  {
    ChainLinks();
    WithinOne(CHAIN, "c", "e");
    order := LongPathOverlaps(CHAIN, "a", "e");
  }

  /** The groups are disjoint for every visiting order exactly when no two transactions of one
      component are more than two sharing links apart. */
  lemma {:induction false} AlwaysDisjointIffShortCuts(d: Deps)
    ensures (forall order :: Visits(order, d) ==> Disjoint(Greedy(d, order))) <==> ShortCuts(d)
  {
    if ShortCuts(d) {
      forall order | Visits(order, d) ensures Disjoint(Greedy(d, order)) {
        ShortCutsSeparate(d, order);
        ApartIsDisjoint(d, order);
      }
    } else {
      var a, e :| Within(d, a, e, 3) && !Within(d, a, e, 2);
      var order := LongPathOverlaps(d, a, e);
    }
  }

  /** Under the same condition each group is the whole connected component of its members. */
  lemma {:induction false} ShortCutsGiveComponents(d: Deps, order: seq<string>, i: nat, a: string)
    requires ShortCuts(d) && Visits(order, d)
    requires i < |Greedy(d, order)| && a in Greedy(d, order)[i]
    ensures forall b :: b in Greedy(d, order)[i] <==> Connected(d, a, b)
  {
    var r := Greedy(d, order);
    GreedyStaysInComponents(d, order);
    ShortCutsSeparate(d, order);
    forall b | Connected(d, a, b) ensures b in r[i] {
      GreedyKeepsSharersTogether(d, order, b);
      var j :| 0 <= j < |r| && Closed(d, b) <= r[j];
      assert b in Closed(d, b);
      assert i == j || Apart(d, r[i], r[j]);
    }
    assert GoodGroup(d, r[i]);
  }

  /** With transitive sharing the groups are pairwise disjoint and each is the sharing class of its members. */
  lemma {:induction false} TransitiveSharingGivesClasses(d: Deps, order: seq<string>)
    requires TransitiveSharing(d) && Visits(order, d)
    ensures Disjoint(Greedy(d, order))
    ensures forall i, a ::
        0 <= i < |Greedy(d, order)| && a in Greedy(d, order)[i] ==> Greedy(d, order)[i] == Closed(d, a)
  {
    forall a, b | Within(d, a, b, 3) ensures Within(d, a, b, 2) {
      var x :| Near(d, a, x) && Within(d, x, b, 2);
    }
    AlwaysDisjointIffShortCuts(d);
    var r := Greedy(d, order);
    forall i, a | 0 <= i < |r| && a in r[i] ensures r[i] == Closed(d, a) {
      ShortCutsGiveComponents(d, order, i, a);
      forall b ensures b in r[i] <==> b in Closed(d, a) {
        if Connected(d, a, b) {
          var m := ShortCutsMeet(d, a, b);
        }
        if Near(d, a, b) { NearConnects(d, a, b); }
      }
    }
  }

  // ---------- the loops ----------

  method HasDuplicate(vec1: seq<string>, vec2: seq<string>) returns (found: bool)
    ensures found <==> exists x :: x in vec1 && x in vec2
  {
    var depSet := set x | x in vec1;
    for i := 0 to |vec2|
      invariant forall j :: 0 <= j < i ==> vec2[j] !in vec1
    {
      if vec2[i] in depSet {
        return true;
      }
    }
    return false;
  }

  /** The inner pass: a key with every other key that shares an address with it. */
  method CommonKeys(deps: Deps, order: seq<string>, key: string) returns (commonKeys: set<string>)
    requires Visits(order, deps) && key in deps
    ensures commonKeys == Closed(deps, key)
  {
    commonKeys := {key};
    for m := 0 to |order|
      invariant forall k :: k in commonKeys <==> k == key || (k in order[..m] && Near(deps, key, k))
    {
      var otherKey := order[m];
      if key != otherKey {
        var shared := HasDuplicate(deps[key], deps[otherKey]);
        if shared {
          commonKeys := commonKeys + {otherKey};
        }
      }
      assert order[..m + 1] == order[..m] + [otherKey];
    }
    assert order[..|order|] == order;
  }

  /** Fold one set of common keys into the groups, in place. */
  method AddToGroups(before: seq<set<string>>, commonKeys: set<string>) returns (groups: seq<set<string>>)
    ensures groups == Merge(before, commonKeys)
  {
    groups := before;
    ghost var at := MergeAt(before, commonKeys);
    for k := 0 to |before|
      invariant groups == before && k <= at
    {
      if groups[k] * commonKeys != {} {
        groups := groups[k := groups[k] + commonKeys];
        return;
      }
    }
    groups := groups + [commonKeys];
  }

  /** The grouping loop over one visiting order of the map. */
  method GroupByDependency(deps: Deps, order: seq<string>) returns (groups: seq<set<string>>)
    requires Visits(order, deps)
    ensures groups == Greedy(deps, order)
  {
    groups := [];
    for n := 0 to |order|
      invariant groups == Greedy(deps, order[..n])
    {
      var commonKeys := CommonKeys(deps, order, order[n]);
      groups := AddToGroups(groups, commonKeys);
      assert order[..n + 1][..n] == order[..n];
    }
    assert order[..|order|] == order;
  }
}
