/** The packager's split of contract transactions into isolated and dependent ones
    (ca/packager_dispatch.cpp). */
module Packager {
  import opened DependencyGroups
  import Orders

  /** Shares an address with no other transaction. */
  predicate Isolated(d: Deps, k: string) {
    k in d && Closed(d, k) == {k}
  }

  function Restrict<T>(txs: map<string, T>, keys: set<string>): map<string, T> {
    map h | h in keys && h in txs :: txs[h]
  }

  /** The one-element groups, as one map. */
  function Independent<T>(groups: seq<set<string>>, txs: map<string, T>): map<string, T> {
    if groups == [] then map[]
    else
      var before := Independent(groups[..|groups| - 1], txs);
      var g := groups[|groups| - 1];
      if |g| == 1 then before + Restrict(txs, g) else before
  }

  /** The other groups, numbered from 1 by their place in the grouping. */
  function Dependent<T>(groups: seq<set<string>>, txs: map<string, T>): map<nat, map<string, T>> {
    if groups == [] then map[]
    else
      var before := Dependent(groups[..|groups| - 1], txs);
      var g := groups[|groups| - 1];
      if |g| == 1 then before else before[|groups| := Restrict(txs, g)]
  }

  lemma {:induction false} IndependentKeys<T>(groups: seq<set<string>>, txs: map<string, T>)
    ensures forall h :: h in Independent(groups, txs) <==>
      h in txs && exists i :: 0 <= i < |groups| && |groups[i]| == 1 && h in groups[i]
    ensures forall h :: h in Independent(groups, txs) ==> Independent(groups, txs)[h] == txs[h]
  {
    if groups != [] {
      var last := |groups| - 1;
      IndependentKeys(groups[..last], txs);
      forall h ensures h in Independent(groups, txs) <==>
        h in txs && exists i :: 0 <= i < |groups| && |groups[i]| == 1 && h in groups[i]
      {
        if i :| 0 <= i < last && |groups[i]| == 1 && h in groups[i] {
          assert groups[..last][i] == groups[i];
        }
      }
    }
  }

  lemma {:induction false} DependentAt<T>(groups: seq<set<string>>, txs: map<string, T>)
    ensures forall n :: n in Dependent(groups, txs) ==> 1 <= n <= |groups|
    ensures forall i :: 0 <= i < |groups| ==> (i + 1 in Dependent(groups, txs) <==> |groups[i]| != 1)
    ensures forall i ::
        0 <= i < |groups| && |groups[i]| != 1 ==> Dependent(groups, txs)[i + 1] == Restrict(txs, groups[i])
  {
    if groups != [] {
      var before := groups[..|groups| - 1];
      DependentAt(before, txs);
      assert forall i :: 0 <= i < |before| ==> before[i] == groups[i];
    }
  }

  predicate InSome<T>(groups: map<nat, map<string, T>>, k: string) {
    exists n :: n in groups && k in groups[n]
  }

  lemma {:induction false} SizeOne(g: set<string>, k: string)
    requires k in g
    ensures |g| == 1 <==> g == {k}
    ensures |g| >= 1
  {
    assert g == (g - {k}) + {k};
    assert |g| == |g - {k}| + 1;
  }

  /** A group holds exactly one transaction exactly when that transaction is isolated. */
  lemma {:induction false} SingletonIffIsolated(d: Deps, order: seq<string>, i: nat, k: string)
    requires Visits(order, d) && i < |Greedy(d, order)| && k in Greedy(d, order)[i]
    ensures |Greedy(d, order)[i]| == 1 <==> Isolated(d, k)
  {
    var g := Greedy(d, order)[i];
    GreedyStaysInComponents(d, order);
    var u :| u in d && Closed(d, u) <= g;
    assert u in Closed(d, u);
    SizeOne(g, k);
    assert Connected(d, k, k) && Connected(d, k, u);
    if Isolated(d, k) {
      forall b | b in g ensures b == k {
        IsolatedAlone(d, k, b);
      }
      assert g == {k};
    }
  }

  /** Nothing else is in the component of an isolated transaction. */
  lemma {:induction false} IsolatedAlone(d: Deps, k: string, b: string)
    requires Isolated(d, k) && Connected(d, k, b)
    ensures b == k
  {
    var n: nat :| Within(d, k, b, n);
    IsolatedStaysPut(d, k, b, n);
  }

  lemma {:induction false} IsolatedStaysPut(d: Deps, k: string, b: string, n: nat)
    requires Isolated(d, k) && Within(d, k, b, n)
    ensures b == k
    decreases n
  {
    if n > 0 {
      var c :| Near(d, k, c) && Within(d, c, b, n - 1);
      assert c in Closed(d, k);
      IsolatedStaysPut(d, k, b, n - 1);
    }
  }

  lemma {:induction false} GroupsAreKeys(d: Deps, order: seq<string>)
    requires Visits(order, d)
    ensures forall i, k :: 0 <= i < |Greedy(d, order)| && k in Greedy(d, order)[i] ==> k in d
  {
    var g := Greedy(d, order);
    GreedyStaysInComponents(d, order);
    forall i, k | 0 <= i < |g| && k in g[i] ensures k in d { assert Connected(d, k, k); }
  }

  lemma {:induction false} GroupOf(d: Deps, order: seq<string>, k: string) returns (i: nat)
    requires Visits(order, d) && k in d
    ensures i < |Greedy(d, order)| && k in Greedy(d, order)[i]
  {
    GreedyKeepsSharersTogether(d, order, k);
    var g := Greedy(d, order);
    i :| 0 <= i < |g| && Closed(d, k) <= g[i];
    assert k in Closed(d, k);
  }

  lemma {:induction false} IndependentExact<T>(d: Deps, txs: map<string, T>, order: seq<string>, k: string)
    requires Visits(order, d) && txs.Keys == d.Keys
    ensures k in Independent(Greedy(d, order), txs) <==> Isolated(d, k)
  {
    var g := Greedy(d, order);
    IndependentKeys(g, txs);
    GroupsAreKeys(d, order);
    if k in Independent(g, txs) {
      var i :| 0 <= i < |g| && |g[i]| == 1 && k in g[i];
      SingletonIffIsolated(d, order, i, k);
    }
    if Isolated(d, k) {
      var i := GroupOf(d, order, k);
      SingletonIffIsolated(d, order, i, k);
    }
  }

  lemma {:induction false} DependentExact<T>(d: Deps, txs: map<string, T>, order: seq<string>, k: string)
    requires Visits(order, d) && txs.Keys == d.Keys
    ensures InSome(Dependent(Greedy(d, order), txs), k) <==> k in d && !Isolated(d, k)
  {
    var g, dep := Greedy(d, order), Dependent(Greedy(d, order), txs);
    DependentAt(g, txs);
    GroupsAreKeys(d, order);
    if InSome(dep, k) {
      var n :| n in dep && k in dep[n];
      assert n - 1 + 1 in dep && dep[n] == Restrict(txs, g[n - 1]);
      SingletonIffIsolated(d, order, n - 1, k);
    }
    if k in d && !Isolated(d, k) {
      var i := GroupOf(d, order, k);
      SingletonIffIsolated(d, order, i, k);
      assert i + 1 in dep && k in dep[i + 1];
    }
  }

  lemma {:induction false} DependentBodies<T>(groups: seq<set<string>>, txs: map<string, T>)
    ensures forall n, k :: n in Dependent(groups, txs) && k in Dependent(groups, txs)[n] ==>
      k in txs && Dependent(groups, txs)[n][k] == txs[k]
  {
    DependentAt(groups, txs);
    var dep := Dependent(groups, txs);
    forall n, k | n in dep && k in dep[n] ensures k in txs && dep[n][k] == txs[k] {
      assert n - 1 + 1 in dep && dep[n] == Restrict(txs, groups[n - 1]);
    }
  }

  /** For every visiting order the non-dependent map holds exactly the isolated transactions and the
      dependent groups together hold exactly the others, each with its own transaction body. */
  lemma {:induction false} PackagerPartition<T>(d: Deps, txs: map<string, T>, order: seq<string>)
    requires Visits(order, d) && txs.Keys == d.Keys
    ensures forall k :: k in Independent(Greedy(d, order), txs) <==> Isolated(d, k)
    ensures forall k :: InSome(Dependent(Greedy(d, order), txs), k) <==> k in d && !Isolated(d, k)
    ensures forall k ::
        k in Independent(Greedy(d, order), txs) ==> k in txs && Independent(Greedy(d, order), txs)[k] == txs[k]
    ensures forall n, k :: n in Dependent(Greedy(d, order), txs) && k in Dependent(Greedy(d, order), txs)[n] ==>
      k in txs && Dependent(Greedy(d, order), txs)[n][k] == txs[k]
  {
    IndependentKeys(Greedy(d, order), txs);
    DependentBodies(Greedy(d, order), txs);
    forall k ensures k in Independent(Greedy(d, order), txs) <==> Isolated(d, k) {
      IndependentExact(d, txs, order, k);
    }
    forall k ensures InSome(Dependent(Greedy(d, order), txs), k) <==> k in d && !Isolated(d, k) {
      DependentExact(d, txs, order, k);
    }
  }

  function GroupAt<T>(groups: map<nat, map<string, T>>, n: nat): map<string, T> {
    if n in groups then groups[n] else map[]
  }

  /** Entries added group by group where none is yet. */
  function Overlay<T>(base: map<nat, map<string, T>>, added: map<nat, map<string, T>>): map<nat, map<string, T>> {
    map n | n in base.Keys + added.Keys :: GroupAt(added, n) + GroupAt(base, n)
  }

  /** emplace: what the group already holds stays. */
  function Emplace<T>(groups: map<nat, map<string, T>>, n: nat, group: map<string, T>): map<nat, map<string, T>> {
    groups[n := group + GroupAt(groups, n)]
  }

  lemma {:induction false} OverlayAt<T>(base: map<nat, map<string, T>>, added: map<nat, map<string, T>>, n: nat)
    requires n !in added
    ensures GroupAt(Overlay(base, added), n) == GroupAt(base, n)
  {
    assert map[] + GroupAt(base, n) == GroupAt(base, n);
  }

  /** A group of the caller is extended: what it already holds stays, other hashes are added. */
  lemma {:induction false} OverlayHolds<T>(base: map<nat, map<string, T>>, added: map<nat, map<string, T>>, n: nat,
                                           h: string)
    ensures var group, was, fresh_ := GroupAt(Overlay(base, added), n), GroupAt(base, n), GroupAt(added, n);
      && (h in group <==> h in was || h in fresh_)
      && (h in was ==> group[h] == was[h])
      && (h in fresh_ && h !in was ==> group[h] == fresh_[h])
  {
  }

  lemma {:induction false} OverlayNextAt<T>(base: map<nat, map<string, T>>, added: map<nat, map<string, T>>, n: nat,
                                            group: map<string, T>, k: nat)
    requires n !in added
    ensures GroupAt(Overlay(base, added[n := group]), k) ==
      if k == n then group + GroupAt(base, n) else GroupAt(Overlay(base, added), k)
  {
    if k == n {
    } else {
      assert GroupAt(added[n := group], k) == GroupAt(added, k);
    }
  }

  lemma {:induction false} SameGroups<T>(a: map<nat, map<string, T>>, b: map<nat, map<string, T>>)
    requires a.Keys == b.Keys && forall k: nat :: GroupAt(a, k) == GroupAt(b, k)
    ensures a == b
  {
    forall k | k in a ensures a[k] == b[k] {
      assert GroupAt(a, k) == GroupAt(b, k);
    }
  }

  lemma {:induction false} OverlayNext<T>(base: map<nat, map<string, T>>, added: map<nat, map<string, T>>, n: nat,
                                          group: map<string, T>)
    requires n !in added
    ensures Overlay(base, added[n := group]) == Emplace(Overlay(base, added), n, group)
  {
    var next, put := Overlay(base, added[n := group]), Emplace(Overlay(base, added), n, group);
    forall k: nat ensures GroupAt(next, k) == GroupAt(put, k) {
      OverlayNextAt(base, added, n, group, k);
      OverlayAt(base, added, n);
    }
    SameGroups(next, put);
  }

  lemma {:induction false} OverlayNothing<T>(base: map<nat, map<string, T>>)
    ensures Overlay(base, map[]) == base
  {
    forall n | n in base ensures Overlay(base, map[])[n] == base[n] {
      assert map[] + base[n] == base[n];
    }
  }

  /** On empty maps the results are the groups themselves. */
  lemma {:induction false} OverlayOnEmpty<T>(added: map<nat, map<string, T>>)
    ensures Overlay(map[], added) == added
  {
    forall n | n in added ensures Overlay(map[], added)[n] == added[n] {
      assert added[n] + map[] == added[n];
    }
  }

  lemma {:induction false} SeparateNext<T>(dependent: map<nat, map<string, T>>, nonDependent: map<string, T>,
                                           groups: seq<set<string>>, i: nat, txs: map<string, T>)
    requires i < |groups|
    ensures var group := Restrict(txs, groups[i]);
      if |groups[i]| == 1 then
        && nonDependent + Independent(groups[..i + 1], txs) == nonDependent + Independent(groups[..i], txs) + group
        && Dependent(groups[..i + 1], txs) == Dependent(groups[..i], txs)
      else
        && Independent(groups[..i + 1], txs) == Independent(groups[..i], txs)
        && Overlay(dependent, Dependent(groups[..i + 1], txs))
          == Emplace(Overlay(dependent, Dependent(groups[..i], txs)), i + 1, group)
  {
    var group := Restrict(txs, groups[i]);
    assert groups[..i + 1][..i] == groups[..i];
    if |groups[i]| == 1 {
      assert nonDependent + (Independent(groups[..i], txs) + group)
        == nonDependent + Independent(groups[..i], txs) + group;
    } else {
      DependentAt(groups[..i], txs);
      OverlayNext(dependent, Dependent(groups[..i], txs), i + 1, group);
    }
  }

  class PackDispatch<T> {
    var time: nat
    var hashDep: Deps
    var hashTx: map<string, T>

    /** Both maps are filled together, so every grouped hash has its transaction. */
    ghost predicate Valid()
      reads this
    {
      hashDep.Keys == hashTx.Keys
    }

    constructor ()
      ensures Valid() && hashDep == map[] && hashTx == map[]
    {
      time, hashDep, hashTx := 0, map[], map[];
    }

    /** The first record of a hash stays; the time is that of the last call. */
    method Add(contractHash: string, dependentContracts: seq<string>, tx: T, now: nat)
      requires Valid()
      modifies this
      ensures Valid()
      ensures hashDep == map[contractHash := dependentContracts] + old(hashDep)
      ensures hashTx == map[contractHash := tx] + old(hashTx)
      ensures time == now
    {
      time := now;
      if contractHash !in hashDep {
        hashDep := hashDep[contractHash := dependentContracts];
      }
      if contractHash !in hashTx {
        hashTx := hashTx[contractHash := tx];
      }
    }

    /** Both results are added to the caller's maps: an isolated transaction replaces an entry of its hash,
        a dependent one leaves an entry of its group and hash alone. */
    method GetDependentData(order: seq<string>, dependent: map<nat, map<string, T>>,
                            nonDependent: map<string, T>)
      returns (dependentTxs: map<nat, map<string, T>>, nonDependentTxs: map<string, T>)
      requires Valid() && Visits(order, hashDep)
      ensures dependentTxs == Overlay(dependent, Dependent(Greedy(hashDep, order), hashTx))
      ensures nonDependentTxs == nonDependent + Independent(Greedy(hashDep, order), hashTx)
    {
      var res := GroupByDependency(hashDep, order);
      GroupsAreKeys(hashDep, order);
      dependentTxs, nonDependentTxs := SeparateGroups(res, dependent, nonDependent);
    }

    /** The walk over the numbered groups. */
    method SeparateGroups(res: seq<set<string>>, dependent: map<nat, map<string, T>>, nonDependent: map<string, T>)
      returns (dependentTxs: map<nat, map<string, T>>, nonDependentTxs: map<string, T>)
      requires forall i, k :: 0 <= i < |res| && k in res[i] ==> k in hashTx
      ensures dependentTxs == Overlay(dependent, Dependent(res, hashTx))
          && nonDependentTxs == nonDependent + Independent(res, hashTx)
    {
      dependentTxs, nonDependentTxs := dependent, nonDependent;
      OverlayNothing(dependent);
      for i := 0 to |res|
        invariant dependentTxs == Overlay(dependent, Dependent(res[..i], hashTx))
        invariant nonDependentTxs == nonDependent + Independent(res[..i], hashTx)
      {
        var group := CollectGroup(res[i]);
        SeparateNext(dependent, nonDependent, res, i, hashTx);
        if |res[i]| == 1 {
          nonDependentTxs := nonDependentTxs + group;
        } else {
          dependentTxs := Emplace(dependentTxs, i + 1, group);
        }
      }
      assert res[..|res|] == res;
    }

    /** The inner walk over one group: look up each hash's transaction, which is always present. */
    method CollectGroup(hashContainer: set<string>) returns (group: map<string, T>)
      requires forall k :: k in hashContainer ==> k in hashTx
      ensures group == Restrict(hashTx, hashContainer)
    {
      var hashes := Orders.Ascending(hashContainer);
      assert forall i :: 0 <= i < |hashes| ==> hashes[i] in hashes;
      group := LookUp(hashes);
      assert (set h | h in hashes) == hashContainer;
    }

    method LookUp(hashes: seq<string>) returns (group: map<string, T>)
      requires forall i :: 0 <= i < |hashes| ==> hashes[i] in hashTx
      ensures group == Restrict(hashTx, set h | h in hashes)
    {
      group := map[];
      for j := 0 to |hashes|
        invariant group == Restrict(hashTx, set h | h in hashes[..j])
      {
        group := group[hashes[j] := hashTx[hashes[j]]];
        assert hashes[..j + 1] == hashes[..j] + [hashes[j]];
      }
      assert hashes[..|hashes|] == hashes;
    }
  }
}
