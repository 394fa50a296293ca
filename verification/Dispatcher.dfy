/** The dispatching side (ca/dispatchtx.cpp): caches of dependencies and messages, the grouped
    messages, and the split of the groups into at most eight parts. */
module Dispatcher {
  import opened DependencyGroups
  import Orders

  const PARTS := 8

  /** The cached messages of a walk over transaction hashes; a hash without a message is skipped. */
  function MessagesOf<M>(hashes: seq<string>, msgs: map<string, M>): seq<M> {
    if hashes == [] then []
    else (if hashes[0] in msgs then [msgs[hashes[0]]] else []) + MessagesOf(hashes[1..], msgs)
  }

  /** The hashes of each group in order. */
  function Walks(groups: seq<set<string>>): seq<seq<string>> {
    seq(|groups|, i requires 0 <= i < |groups| => Orders.Ascending(groups[i]))
  }

  /** The messages of each walk. */
  function Vectors<M>(walks: seq<seq<string>>, msgs: map<string, M>): seq<seq<M>> {
    seq(|walks|, i requires 0 <= i < |walks| => MessagesOf(walks[i], msgs))
  }

  function NonEmptyOnes<M>(vs: seq<seq<M>>): seq<seq<M>> {
    if vs == [] then [] else (if vs[0] == [] then [] else [vs[0]]) + NonEmptyOnes(vs[1..])
  }

  /** One vector per group; groups without any message are dropped. */
  function GroupedMessages<M>(groups: seq<set<string>>, msgs: map<string, M>): seq<seq<M>> {
    NonEmptyOnes(Vectors(Walks(groups), msgs))
  }

  function Flatten<M>(vs: seq<seq<M>>): seq<M> {
    if vs == [] then [] else vs[0] + Flatten(vs[1..])
  }

  /** Where part i starts when n groups are split: the first part also takes the remainder. */
  function Cut(n: nat, i: nat): nat {
    if i == 0 then 0 else Cut(n, i - 1) + n / PARTS + if i == 1 then n % PARTS else 0
  }

  lemma {:induction false} CutValue(n: nat, i: nat)
    ensures Cut(n, i) == if i == 0 then 0 else i * (n / PARTS) + n % PARTS
  {
    if i > 0 { CutValue(n, i - 1); }
  }

  lemma {:induction false} CutsInRange(n: nat, i: nat)
    requires i <= PARTS
    ensures Cut(n, PARTS) == n && Cut(n, i) <= n
    decreases PARTS - i
  {
    CutValue(n, PARTS);
    if i < PARTS {
      CutsInRange(n, i + 1);
    }
  }

  function Part<M>(vs: seq<seq<M>>, i: nat): seq<M>
    requires i < PARTS
  {
    CutsInRange(|vs|, i + 1);
    Flatten(vs[Cut(|vs|, i)..Cut(|vs|, i + 1)])
  }

  function Split<M>(vs: seq<seq<M>>): seq<seq<M>> {
    if |vs| <= PARTS then vs else seq(PARTS, i requires 0 <= i < PARTS => Part(vs, i))
  }

  // ---------- grouped messages ----------

  lemma {:induction false} MessagesOfIn<M>(hashes: seq<string>, msgs: map<string, M>)
    ensures forall h :: h in hashes && h in msgs ==> msgs[h] in MessagesOf(hashes, msgs)
    ensures forall m :: m in MessagesOf(hashes, msgs) ==> exists h :: h in hashes && h in msgs && msgs[h] == m
  {
    if hashes != [] {
      MessagesOfIn(hashes[1..], msgs);
    }
  }

  lemma {:induction false} InNonEmptyOnes<M>(vs: seq<seq<M>>, v: seq<M>)
    ensures v in NonEmptyOnes(vs) <==> v in vs && v != []
  {
    if vs != [] {
      InNonEmptyOnes(vs[1..], v);
      assert vs == [vs[0]] + vs[1..];
    }
  }

  /** Two cached transactions that share an address are dispatched in one vector, in every visiting order. */
  lemma {:induction false} SharersInOneVector<M>(d: Deps, order: seq<string>, msgs: map<string, M>, a: string,
                                                 b: string)
    requires Visits(order, d) && Near(d, a, b) && a in msgs && b in msgs
    ensures exists v :: v in GroupedMessages(Greedy(d, order), msgs) && msgs[a] in v && msgs[b] in v
  {
    var g := Greedy(d, order);
    GreedyCoversAndConnects(d, order);
    assert SomeGroupHolds(g, {a, b});
    var i :| 0 <= i < |g| && {a, b} <= g[i];
    assert a in g[i] && b in g[i];
    MessagesOfIn(Orders.Ascending(g[i]), msgs);
    assert Vectors(Walks(g), msgs)[i] in Vectors(Walks(g), msgs);
    InNonEmptyOnes(Vectors(Walks(g), msgs), Vectors(Walks(g), msgs)[i]);
  }

  /** A vector only carries messages of one connected component, and only of transactions whose
      dependencies are recorded: a message without a dependency record is not dispatched. */
  lemma {:induction false} VectorsStayConnected<M>(d: Deps, order: seq<string>, msgs: map<string, M>, v: seq<M>, x: M,
                                                   y: M)
    returns (a: string, b: string)
    requires Visits(order, d) && v in GroupedMessages(Greedy(d, order), msgs) && x in v && y in v
    ensures a in msgs && b in msgs && msgs[a] == x && msgs[b] == y && Connected(d, a, b)
  {
    var g := Greedy(d, order);
    GreedyCoversAndConnects(d, order);
    InNonEmptyOnes(Vectors(Walks(g), msgs), v);
    var i :| 0 <= i < |g| && Vectors(Walks(g), msgs)[i] == v;
    MessagesOfIn(Orders.Ascending(g[i]), msgs);
    a :| a in Orders.Ascending(g[i]) && a in msgs && msgs[a] == x;
    b :| b in Orders.Ascending(g[i]) && b in msgs && msgs[b] == y;
  }

  // ---------- the split ----------

  lemma {:induction false} FlattenConcat<M>(a: seq<seq<M>>, b: seq<seq<M>>)
    ensures Flatten(a + b) == Flatten(a) + Flatten(b)
  {
    if a == [] {
      assert a + b == b;
    } else {
      assert (a + b)[1..] == a[1..] + b;
      FlattenConcat(a[1..], b);
    }
  }

  lemma {:induction false} SplitPrefix<M>(vs: seq<seq<M>>, i: nat)
    requires |vs| > PARTS && i <= PARTS
    ensures Cut(|vs|, i) <= |vs| && Flatten(Split(vs)[..i]) == Flatten(vs[..Cut(|vs|, i)])
  {
    CutsInRange(|vs|, i);
    if i > 0 {
      SplitPrefix(vs, i - 1);
      FlattenNext(Split(vs), i - 1);
      var lo, hi := Cut(|vs|, i - 1), Cut(|vs|, i);
      FlattenJoin(vs, 0, lo, hi);
      assert vs[..hi] == vs[0..hi] && vs[..lo] == vs[0..lo];
    }
  }

  lemma {:induction false} FlattenNext<M>(vs: seq<seq<M>>, i: nat)
    requires i < |vs|
    ensures Flatten(vs[..i + 1]) == Flatten(vs[..i]) + vs[i]
  {
    assert vs[..i + 1] == vs[..i] + [vs[i]];
    FlattenConcat(vs[..i], [vs[i]]);
  }

  /** Splitting keeps every message, in order, and gives exactly eight parts when there are more than eight groups. */
  lemma {:induction false} SplitPreservesMessages<M>(vs: seq<seq<M>>)
    ensures Flatten(Split(vs)) == Flatten(vs)
    ensures if |vs| <= PARTS then Split(vs) == vs else |Split(vs)| == PARTS
  {
    if |vs| > PARTS {
      SplitPrefix(vs, PARTS);
      CutsInRange(|vs|, PARTS);
      assert Split(vs)[..PARTS] == Split(vs) && vs[..Cut(|vs|, PARTS)] == vs;
    }
  }

  lemma {:induction false} FindPart(n: nat, j: nat, i: nat) returns (k: nat)
    requires i <= PARTS && j < Cut(n, i)
    ensures k < i && Cut(n, k) <= j < Cut(n, k + 1)
  {
    if Cut(n, i - 1) <= j {
      k := i - 1;
    } else {
      k := FindPart(n, j, i - 1);
    }
  }

  lemma {:induction false} FlattenJoin<M>(vs: seq<seq<M>>, lo: nat, j: nat, hi: nat)
    requires lo <= j <= hi <= |vs|
    ensures Flatten(vs[lo..hi]) == Flatten(vs[lo..j]) + Flatten(vs[j..hi])
  {
    assert vs[lo..hi] == vs[lo..j] + vs[j..hi];
    FlattenConcat(vs[lo..j], vs[j..hi]);
  }

  lemma {:induction false} FlattenAround<M>(vs: seq<seq<M>>, lo: nat, j: nat, hi: nat)
    requires lo <= j < hi <= |vs|
    ensures Flatten(vs[lo..hi]) == Flatten(vs[lo..j]) + vs[j] + Flatten(vs[j + 1..hi])
  {
    FlattenJoin(vs, lo, j, hi);
    assert vs[j..hi][1..] == vs[j + 1..hi];
  }

  /** How the groups are divided: above eight of them, the first part takes an eighth and the remainder, and each
      other part the next eighth. */
  lemma {:induction false} PartsAre<M>(vs: seq<seq<M>>, k: nat)
    requires |vs| > 8 && k < 8
    ensures |Split(vs)| == 8
    ensures var size, first := |vs| / 8, |vs| / 8 + |vs| % 8;
      var lo := if k == 0 then 0 else first + (k - 1) * size;
      var hi := first + k * size;
      0 <= lo <= hi <= |vs| && Split(vs)[k] == Flatten(vs[lo..hi])
  {
    CutsInRange(|vs|, k + 1);
    CutValue(|vs|, k);
    CutValue(|vs|, k + 1);
    assert (k + 1) * (|vs| / 8) == k * (|vs| / 8) + |vs| / 8;
  }

  /** A group is never divided: it is a contiguous block of one part. */
  lemma {:induction false} SplitKeepsGroupsWhole<M>(vs: seq<seq<M>>, j: nat)
    returns (k: nat, before: seq<M>, after: seq<M>)
    requires j < |vs|
    ensures k < |Split(vs)| && Split(vs)[k] == before + vs[j] + after
  {
    if |vs| <= PARTS {
      k, before, after := j, [], [];
    } else {
      CutsInRange(|vs|, PARTS);
      k := FindPart(|vs|, j, PARTS);
      CutsInRange(|vs|, k + 1);
      var lo, hi := Cut(|vs|, k), Cut(|vs|, k + 1);
      FlattenAround(vs, lo, j, hi);
      before, after := Flatten(vs[lo..j]), Flatten(vs[j + 1..hi]);
    }
  }

  /** From the caches to the parts: cached transactions that share an address end in the same part. */
  lemma {:induction false} SharersInOnePart<M>(d: Deps, order: seq<string>, msgs: map<string, M>, a: string, b: string)
    requires Visits(order, d) && Near(d, a, b) && a in msgs && b in msgs
    ensures exists p :: p in Split(GroupedMessages(Greedy(d, order), msgs)) && msgs[a] in p && msgs[b] in p
  {
    var vs := GroupedMessages(Greedy(d, order), msgs);
    SharersInOneVector(d, order, msgs, a, b);
    var v :| v in vs && msgs[a] in v && msgs[b] in v;
    var j :| 0 <= j < |vs| && vs[j] == v;
    var k, before, after := SplitKeepsGroupsWhole(vs, j);
    assert Split(vs)[k] in Split(vs);
  }

  // ---------- how often a message is dispatched ----------

  /** The hashes of a walk that have a message. */
  function WithMessage<M>(hashes: seq<string>, msgs: map<string, M>): (r: seq<string>)
    ensures forall h :: h in r ==> h in msgs
  {
    if hashes == [] then [] else (if hashes[0] in msgs then [hashes[0]] else []) + WithMessage(hashes[1..], msgs)
  }

  /** The hashes of the walks whose messages are dispatched, in order, as often as they are. */
  function InWalks<M>(walks: seq<seq<string>>, msgs: map<string, M>): (r: seq<string>)
    ensures forall h :: h in r ==> h in msgs
  {
    if walks == [] then [] else WithMessage(walks[0], msgs) + InWalks(walks[1..], msgs)
  }

  function Dispatched<M>(groups: seq<set<string>>, msgs: map<string, M>): seq<string> {
    InWalks(Walks(groups), msgs)
  }

  function Messages<M>(hashes: seq<string>, msgs: map<string, M>): seq<M>
    requires forall h :: h in hashes ==> h in msgs
  {
    seq(|hashes|, i requires 0 <= i < |hashes| => msgs[hashes[i]])
  }

  lemma {:induction false} MessagesOfWalk<M>(hashes: seq<string>, msgs: map<string, M>)
    ensures MessagesOf(hashes, msgs) == Messages(WithMessage(hashes, msgs), msgs)
  {
    if hashes != [] {
      var first := if hashes[0] in msgs then [hashes[0]] else [];
      MessagesOfWalk(hashes[1..], msgs);
      assert Messages(first, msgs) == if hashes[0] in msgs then [msgs[hashes[0]]] else [];
    }
  }

  lemma {:induction false} FlattenNonEmpty<M>(vs: seq<seq<M>>)
    ensures Flatten(NonEmptyOnes(vs)) == Flatten(vs)
  {
    if vs != [] {
      FlattenNonEmpty(vs[1..]);
      FlattenConcat(if vs[0] == [] then [] else [vs[0]], NonEmptyOnes(vs[1..]));
      assert Flatten(if vs[0] == [] then [] else [vs[0]]) == vs[0];
    }
  }

  lemma {:induction false} VectorsTail<M>(walks: seq<seq<string>>, msgs: map<string, M>)
    requires walks != []
    ensures Vectors(walks, msgs)[0] == MessagesOf(walks[0], msgs)
        && Vectors(walks, msgs)[1..] == Vectors(walks[1..], msgs)
  {
  }

  lemma {:induction false} FlattenVectors<M>(walks: seq<seq<string>>, msgs: map<string, M>)
    ensures Flatten(Vectors(walks, msgs)) == Messages(InWalks(walks, msgs), msgs)
  {
    if walks != [] {
      FlattenVectors(walks[1..], msgs);
      VectorsTail(walks, msgs);
      MessagesOfWalk(walks[0], msgs);
    }
  }

  /** After grouping and splitting, the messages are those of the dispatched hashes, in order. */
  lemma {:induction false} PartsHoldDispatched<M>(groups: seq<set<string>>, msgs: map<string, M>)
    ensures Flatten(Split(GroupedMessages(groups, msgs))) == Messages(Dispatched(groups, msgs), msgs)
  {
    SplitPreservesMessages(GroupedMessages(groups, msgs));
    FlattenNonEmpty(Vectors(Walks(groups), msgs));
    FlattenVectors(Walks(groups), msgs);
  }

  function Bit(b: bool): nat {
    if b then 1 else 0
  }

  lemma {:induction false} TimesInWalk<M>(hashes: seq<string>, msgs: map<string, M>, h: string)
    requires Orders.Distinct(hashes)
    ensures multiset(WithMessage(hashes, msgs))[h] == Bit(h in hashes && h in msgs)
  {
    if hashes != [] {
      TimesInWalk(hashes[1..], msgs, h);
      assert hashes == [hashes[0]] + hashes[1..];
      assert hashes[0] !in hashes[1..];
    }
  }

  ghost predicate DistinctWalks(walks: seq<seq<string>>) {
    forall i :: 0 <= i < |walks| ==> Orders.Distinct(walks[i])
  }

  lemma {:induction false} TimesNext<M>(walks: seq<seq<string>>, msgs: map<string, M>, h: string)
    requires walks != [] && DistinctWalks(walks)
    ensures multiset(InWalks(walks, msgs))[h]
        == Bit(h in walks[0] && h in msgs) + multiset(InWalks(walks[1..], msgs))[h]
  {
    TimesInWalk(walks[0], msgs, h);
  }

  ghost predicate InOne(walks: seq<seq<string>>, h: string) {
    exists i :: 0 <= i < |walks| && h in walks[i]
  }

  /** Two walks meet the hash. */
  ghost predicate InTwo(walks: seq<seq<string>>, h: string) {
    exists i, j :: 0 <= i < j < |walks| && h in walks[i] && h in walks[j]
  }

  lemma {:induction false} InOneNext(walks: seq<seq<string>>, h: string)
    requires walks != []
    ensures InOne(walks, h) <==> h in walks[0] || InOne(walks[1..], h)
  {
    if i :| 0 <= i < |walks| && h in walks[i] {
      assert i == 0 || h in walks[1..][i - 1];
    }
    if i :| 0 <= i < |walks[1..]| && h in walks[1..][i] {
      assert h in walks[i + 1];
    }
  }

  lemma {:induction false} InTwoNext(walks: seq<seq<string>>, h: string)
    requires walks != []
    ensures InTwo(walks, h) <==> InTwo(walks[1..], h) || (h in walks[0] && InOne(walks[1..], h))
  {
    var rest := walks[1..];
    if i, j :| 0 <= i < j < |walks| && h in walks[i] && h in walks[j] {
      assert h in rest[j - 1] && (i == 0 || h in rest[i - 1]);
    }
    if i, j :| 0 <= i < j < |rest| && h in rest[i] && h in rest[j] {
      assert h in walks[i + 1] && h in walks[j + 1];
    }
    if h in walks[0] {
      if i :| 0 <= i < |rest| && h in rest[i] { assert h in walks[i + 1]; }
    }
  }

  /** A message is dispatched when some walk meets its hash, and more than once exactly when two do. */
  lemma {:induction false} TimesIff<M>(walks: seq<seq<string>>, msgs: map<string, M>, h: string)
    requires DistinctWalks(walks)
    ensures multiset(InWalks(walks, msgs))[h] > 0 <==> h in msgs && InOne(walks, h)
    ensures multiset(InWalks(walks, msgs))[h] > 1 <==> h in msgs && InTwo(walks, h)
  {
    if walks != [] {
      assert DistinctWalks(walks[1..]);
      TimesNext(walks, msgs, h);
      InOneNext(walks, h);
      InTwoNext(walks, h);
      TimesIff(walks[1..], msgs, h);
    }
  }

  /** The walk over a group meets its hashes, each once. */
  lemma {:induction false} WalkMeets(groups: seq<set<string>>, i: nat)
    requires i < |groups|
    ensures Orders.Distinct(Walks(groups)[i]) && forall h :: h in Walks(groups)[i] <==> h in groups[i]
  {
  }

  lemma {:induction false} InTwoIffOverlaps(groups: seq<set<string>>, h: string)
    ensures InTwo(Walks(groups), h) <==> Overlaps(groups, h)
  {
    var walks := Walks(groups);
    forall i | 0 <= i < |groups| ensures h in walks[i] <==> h in groups[i] {
      WalkMeets(groups, i);
    }
    if i, j :| 0 <= i < j < |walks| && h in walks[i] && h in walks[j] {
      assert h in groups[i] && h in groups[j];
    }
    if i, j :| 0 <= i < j < |groups| && h in groups[i] && h in groups[j] {
      assert h in walks[i] && h in walks[j];
    }
  }

  /** Every recorded hash with a message is dispatched exactly once. */
  ghost predicate EachOnce<M>(d: Deps, order: seq<string>, msgs: map<string, M>) {
    forall h :: h in d && h in msgs ==> multiset(Dispatched(Greedy(d, order), msgs))[h] == 1
  }

  /** For one visiting order, each message is dispatched exactly once if and only if the groups that share a
      hash share only hashes without a message. */
  lemma {:induction false} EachOnceIff<M>(d: Deps, order: seq<string>, msgs: map<string, M>)
    requires Visits(order, d)
    ensures EachOnce(d, order, msgs) <==> forall h :: h in d && h in msgs ==> !Overlaps(Greedy(d, order), h)
  {
    var g := Greedy(d, order);
    forall h | h in d && h in msgs ensures multiset(Dispatched(g, msgs))[h] == 1 <==> !Overlaps(g, h) {
      GreedyKeepsSharersTogether(d, order, h);
      var i :| 0 <= i < |g| && Closed(d, h) <= g[i];
      assert h in Closed(d, h) && h in g[i];
      forall k | 0 <= k < |g| ensures Orders.Distinct(Walks(g)[k]) { WalkMeets(g, k); }
      WalkMeets(g, i);
      assert h in Walks(g)[i];
      TimesIff(Walks(g), msgs, h);
      InTwoIffOverlaps(g, h);
    }
  }

  /** Each message is dispatched exactly once for every visiting order if and only if no recorded hash that has
      one, nor any hash it shares an address with, is more than two sharing links from another of its component.
      When every recorded hash has a message, that is the condition for disjoint groups. */
  lemma {:induction false} AlwaysEachOnceIffShortCuts<M>(d: Deps, msgs: map<string, M>)
    ensures (forall order :: Visits(order, d) ==> EachOnce(d, order, msgs))
       <==> forall h :: h in d && h in msgs ==> ShortCutsNear(d, h)
    ensures d.Keys <= msgs.Keys ==> ((forall h :: h in d && h in msgs ==> ShortCutsNear(d, h)) <==> ShortCuts(d))
  {
    forall order | Visits(order, d)
      ensures EachOnce(d, order, msgs) <==> forall h :: h in d && h in msgs ==> !Overlaps(Greedy(d, order), h)
    {
      EachOnceIff(d, order, msgs);
    }
    forall h | h in d
      ensures (forall order :: Visits(order, d) ==> !Overlaps(Greedy(d, order), h)) <==> ShortCutsNear(d, h)
    {
      NeverOverlapsIff(d, h);
    }
    ShortCutsEverywhere(d);
  }

  class DependencyManager<M> {
    var contractDepCache: Deps
    var contractMsgCache: map<string, M>

    constructor ()
      ensures contractDepCache == map[] && contractMsgCache == map[]
    {
      contractDepCache := map[];
      contractMsgCache := map[];
    }

    method AddContractInfo(contractHash: string, dependentContracts: seq<string>)
      modifies this`contractDepCache
      ensures contractDepCache == old(contractDepCache)[contractHash := dependentContracts]
    {
      contractDepCache := contractDepCache[contractHash := dependentContracts];
    }

    method AddMessageRequest(contractHash: string, msg: M)
      modifies this`contractMsgCache
      ensures contractMsgCache == old(contractMsgCache)[contractHash := msg]
    {
      contractMsgCache := contractMsgCache[contractHash := msg];
    }

    method ClearCaches()
      modifies this
      ensures contractDepCache == map[] && contractMsgCache == map[]
    {
      contractDepCache := map[];
      contractMsgCache := map[];
    }

    method GetDependentData(order: seq<string>) returns (groupedMsgs: seq<seq<M>>)
      requires Visits(order, contractDepCache)
      ensures groupedMsgs == GroupedMessages(Greedy(contractDepCache, order), contractMsgCache)
    {
      var groupedDeps := GroupByDependency(contractDepCache, order);
      groupedMsgs := CollectGroups(groupedDeps);
    }

    /** The outer walk over the groups. */
    method CollectGroups(groupedDeps: seq<set<string>>) returns (groupedMsgs: seq<seq<M>>)
      ensures groupedMsgs == GroupedMessages(groupedDeps, contractMsgCache)
    {
      ghost var vectors := Vectors(Walks(groupedDeps), contractMsgCache);
      groupedMsgs := [];
      assert vectors[0..] == vectors;
      for i := 0 to |groupedDeps|
        invariant NonEmptyOnes(vectors) == groupedMsgs + NonEmptyOnes(vectors[i..])
      {
        var hashes := Orders.Ascending(groupedDeps[i]);
        var msgVec := CollectMessages(hashes);
        groupedMsgs := groupedMsgs + if msgVec == [] then [] else [msgVec];
      }
    }

    /** The inner walk over one group. */
    method CollectMessages(hashes: seq<string>) returns (msgVec: seq<M>)
      ensures msgVec == MessagesOf(hashes, contractMsgCache)
    {
      msgVec := [];
      for j := 0 to |hashes|
        invariant msgVec + MessagesOf(hashes[j..], contractMsgCache) == MessagesOf(hashes, contractMsgCache)
      {
        assert hashes[j..][1..] == hashes[j + 1..];
        if hashes[j] in contractMsgCache {
          msgVec := msgVec + [contractMsgCache[hashes[j]]];
        }
      }
    }

    method GroupData(txVectors: seq<seq<M>>) returns (grouped: seq<seq<M>>)
      ensures grouped == Split(txVectors)
    {
      var size := |txVectors|;
      if size <= PARTS {
        grouped := txVectors;
      } else {
        var perPart, remain, index := size / PARTS, size % PARTS, 0;
        grouped := [];
        for i := 0 to PARTS
          invariant index == Cut(size, i)
          invariant remain == if i == 0 then size % PARTS else 0
          invariant |grouped| == i && forall k :: 0 <= k < i ==> grouped[k] == Part(txVectors, k)
        {
          CutsInRange(size, i + 1);
          var part;
          part, index := NextPart(txVectors, index, perPart, remain);
          remain := 0;
          grouped := grouped + [part];
        }
      }
    }
  }

  /** One part: its share of the vectors, and what remains of them for the first. */
  method NextPart<M>(vs: seq<seq<M>>, index: nat, perPart: nat, remain: nat) returns (part: seq<M>, next: nat)
    requires index + perPart + remain <= |vs|
    ensures next == index + perPart + remain && part == Flatten(vs[index..next])
  {
    next := index + perPart;
    part := AppendAll([], vs, index, next);
    if remain > 0 {
      var extraEnd := next + remain;
      part := AppendAll(part, vs, next, extraEnd);
      FlattenJoin(vs, index, next, extraEnd);
      next := extraEnd;
    }
  }

  /** The inner copy loop of the split. */
  method AppendAll<M>(start: seq<M>, vs: seq<seq<M>>, lo: nat, hi: nat) returns (part: seq<M>)
    requires lo <= hi <= |vs|
    ensures part == start + Flatten(vs[lo..hi])
  {
    part := start;
    for j := lo to hi
      invariant part == start + Flatten(vs[lo..j])
    {
      assert vs[lo..j + 1] == vs[lo..j] + [vs[j]];
      FlattenConcat(vs[lo..j], [vs[j]]);
      part := part + vs[j];
    }
  }
}
