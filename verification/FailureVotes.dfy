/** Failure votes on a broadcast block (ca/block_stroage.cpp): peers registered for a phase report
    failing transactions, enough reports submit a rebuild task, and the rebuilt block leaves out the
    transactions that too many reports name. */
module FailureVotes {
  import opened Counters
  import Orders
  import opened Ledger

  datatype Phase = VerifyBroadcast | Level1Broadcast

  /** One report; txs lists the transactions the peer found failing, as often as the report does. */
  datatype Status = Status(blockHash: string, id: string, status: int, txs: seq<string>)

  datatype Entry = Entry(block: Block, phase: Phase, verifyCount: nat, level1Count: nat, list: seq<Status>,
                         verifyNodes: set<string>, level1Nodes: set<string>)

  const VOTE_WINDOW := 5_000_000
  const ENTRY_LIFE := 15_000_000

  const NO_BLOCK := Block("", "", 0, 0, [])

  /** The entry made for a block with nothing registered. */
  function Blank(block: Block): Entry {
    Entry(block, VerifyBroadcast, 0, 0, [], {}, {})
  }

  /** The registrations the current phase accepts. */
  function Open(e: Entry): set<string> {
    if e.phase == VerifyBroadcast then e.verifyNodes else e.level1Nodes
  }

  function Close(e: Entry, id: string): Entry {
    if e.phase == VerifyBroadcast then e.(verifyNodes := e.verifyNodes - {id})
    else e.(level1Nodes := e.level1Nodes - {id})
  }

  /** The number of reports that submits a rebuild. */
  function Threshold(e: Entry): nat {
    if e.phase == VerifyBroadcast then e.verifyCount else 3 * e.level1Count / 4
  }

  predicate Full(e: Entry) {
    if e.phase == VerifyBroadcast then |e.list| > e.verifyCount else 4 * |e.list| > 3 * e.level1Count
  }

  function Code(m: map<string, Entry>, st: Status, now: nat): int {
    if st.status >= 0 then -1
    else if st.blockHash !in m then -2
    else
      var e := m[st.blockHash];
      if st.id !in Open(e) then (if e.phase == VerifyBroadcast then -3 else -5)
      else if Full(e) then (if e.phase == VerifyBroadcast then -4 else -6)
      else if now > e.block.time + VOTE_WINDOW then -7
      else 0
  }

  /** A report uses its registration up, whether it is counted or not. */
  function Checked(m: map<string, Entry>, st: Status): map<string, Entry> {
    if st.status < 0 && st.blockHash in m && st.id in Open(m[st.blockHash])
    then m[st.blockHash := Close(m[st.blockHash], st.id)]
    else m
  }

  function Voted(m: map<string, Entry>, st: Status, now: nat): map<string, Entry> {
    var checked := Checked(m, st);
    if Code(m, st, now) == 0 then
      var e := checked[st.blockHash];
      checked[st.blockHash := e.(list := e.list + [st])]
    else checked
  }

  /** The report that makes the count equal the threshold submits a rebuild. */
  predicate Submits(m: map<string, Entry>, st: Status, now: nat) {
    Code(m, st, now) == 0 && |m[st.blockHash].list| + 1 == Threshold(m[st.blockHash])
  }

  function Registered(m: map<string, Entry>, hash: string, block: Block, nodes: seq<string>, threshold: nat)
    : map<string, Entry>
  {
    if hash in m then m
    else m[hash := Entry(block, VerifyBroadcast, threshold, 0, [], set n | n in nodes, {})]
  }

  function Advanced(e: Entry, block: Block, nodes: set<string>): Entry {
    e.(block := block, phase := Level1Broadcast, level1Count := |nodes|, list := [],
       level1Nodes := e.level1Nodes + nodes)
  }

  function ToLevel1(m: map<string, Entry>, hash: string, block: Block, nodes: set<string>): map<string, Entry> {
    if hash in m then m[hash := Advanced(m[hash], block, nodes)] else m
  }

  predicate Dead(e: Entry, now: nat) {
    now >= e.block.time + ENTRY_LIFE
  }

  function Alive(m: map<string, Entry>, now: nat): map<string, Entry> {
    map h | h in m && !Dead(m[h], now) :: m[h]
  }

  // ---------- runs ----------

  /** What the program does not keep: registrations and counted reports of an entry, and the rebuilds
      submitted since its list was last emptied. */
  datatype History = History(registered: multiset<string>, counted: multiset<string>, tasks: nat)

  datatype State = State(entries: map<string, Entry>, history: map<string, History>)

  /** Seed: a signed block is announced. Rebuild: a submitted task looks its entry up. */
  datatype Op =
    | Seed(hash: string, block: Block)
    | AddVerify(hash: string, block: Block, nodes: seq<string>)
    | AddLevel1(hash: string, block: Block, level1: set<string>)
    | Report(st: Status, now: nat)
    | Expire(now: nat)
    | Rebuild(hash: string)

  const UNREGISTERED := History(multiset{}, multiset{}, 0)

  function Step(s: State, op: Op, threshold: nat): State {
    match op
    case Seed(hash, block) =>
      if hash in s.entries then s
      else State(s.entries[hash := Blank(block)], s.history[hash := UNREGISTERED])
    case AddVerify(hash, block, nodes) =>
      if hash in s.entries then s
      else State(Registered(s.entries, hash, block, nodes, threshold),
                 s.history[hash := History(multiset(set n | n in nodes), multiset{}, 0)])
    case AddLevel1(hash, block, nodes) =>
      if hash !in s.entries || hash !in s.history then s
      else State(ToLevel1(s.entries, hash, block, nodes),
                 s.history[hash :=
                   s.history[hash].(registered := s.history[hash].registered + multiset(nodes), tasks := 0)])
    case Report(st, now) =>
      var entries := Voted(s.entries, st, now);
      if Code(s.entries, st, now) != 0 || st.blockHash !in s.history then s.(entries := entries)
      else
        var k := s.history[st.blockHash];
        State(entries, s.history[st.blockHash :=
          k.(counted := k.counted + multiset{st.id}, tasks := k.tasks + if Submits(s.entries, st, now) then 1 else 0)])
    case Expire(now) =>
      State(Alive(s.entries, now), map h | h in s.history && h in Alive(s.entries, now) :: s.history[h])
    case Rebuild(hash) =>
      if hash in s.entries then s
      else State(s.entries[hash := Blank(NO_BLOCK)], s.history[hash := UNREGISTERED])
  }

  function Run(ops: seq<Op>, threshold: nat): State {
    if ops == [] then State(map[], map[]) else Step(Run(ops[..|ops| - 1], threshold), ops[|ops| - 1], threshold)
  }

  function One(b: bool): nat {
    if b then 1 else 0
  }

  /** Each registration is still open or was used, and each use counts at most one report. */
  ghost predicate OncePerRegistration(e: Entry, k: History) {
    forall x :: k.counted[x] + One(x in e.verifyNodes) + One(x in e.level1Nodes) <= k.registered[x]
  }

  ghost predicate DistinctIds(list: seq<Status>) {
    forall i, j :: 0 <= i < j < |list| ==> list[i].id != list[j].id
  }

  /** The current list names no peer twice, and none that could still report. */
  ghost predicate DistinctPeers(e: Entry) {
    DistinctIds(e.list) && forall i :: 0 <= i < |e.list| ==> e.list[i].id !in Open(e)
  }

  /** One task once the threshold is reached, none before; a threshold of zero is never reached. */
  ghost predicate OneTask(e: Entry, k: History) {
    k.tasks == One(0 < Threshold(e) <= |e.list|)
  }

  /** At most one report more than the phase allows is kept. */
  ghost predicate Bounded(e: Entry) {
    if e.phase == VerifyBroadcast then |e.list| <= e.verifyCount + 1 else 4 * |e.list| <= 3 * e.level1Count + 4
  }

  ghost predicate EntryOk(e: Entry, k: History) {
    OncePerRegistration(e, k) && DistinctPeers(e) && OneTask(e, k) && Bounded(e)
  }

  ghost predicate Inv(s: State) {
    s.entries.Keys == s.history.Keys && forall h :: h in s.entries ==> EntryOk(s.entries[h], s.history[h])
  }

  lemma {:induction false} VoteKeepsEntry(m: map<string, Entry>, st: Status, now: nat, k: History)
    requires Code(m, st, now) == 0 && EntryOk(m[st.blockHash], k)
    ensures EntryOk(Voted(m, st, now)[st.blockHash],
                    k.(counted := k.counted + multiset{st.id}, tasks := k.tasks + if Submits(m, st, now) then 1 else 0))
  {
    var e := m[st.blockHash];
    var closed := Close(e, st.id);
    assert Voted(m, st, now)[st.blockHash] == closed.(list := closed.list + [st]);
  }

  lemma {:induction false} VoteKeepsInv(s: State, st: Status, now: nat, threshold: nat)
    requires Inv(s)
    ensures Inv(Step(s, Report(st, now), threshold))
  {
    var next := Step(s, Report(st, now), threshold);
    if st.blockHash in s.entries {
      var h := st.blockHash;
      if Code(s.entries, st, now) == 0 {
        VoteKeepsEntry(s.entries, st, now, s.history[h]);
      } else {
      }
      forall g | g in next.entries ensures EntryOk(next.entries[g], next.history[g]) {
        assert g != h ==> next.entries[g] == s.entries[g] && next.history[g] == s.history[g];
      }
    }
  }

  lemma {:induction false} Level1KeepsInv(s: State, hash: string, block: Block, nodes: set<string>, threshold: nat)
    requires Inv(s)
    ensures Inv(Step(s, AddLevel1(hash, block, nodes), threshold))
  {
    if hash in s.entries {
      var next := Step(s, AddLevel1(hash, block, nodes), threshold);
      var e, k := next.entries[hash], next.history[hash];
      forall x ensures k.counted[x] + One(x in e.verifyNodes) + One(x in e.level1Nodes) <= k.registered[x] {
        var k0, e0 := s.history[hash], s.entries[hash];
        assert k0.counted[x] + One(x in e0.verifyNodes) + One(x in e0.level1Nodes) <= k0.registered[x];
        assert multiset(nodes)[x] == One(x in nodes);
      }
      assert EntryOk(e, k);
      forall g | g in next.entries ensures EntryOk(next.entries[g], next.history[g]) {
        assert g != hash ==> next.entries[g] == s.entries[g] && next.history[g] == s.history[g];
      }
    }
  }

  lemma {:induction false} NewEntryKeepsInv(s: State, hash: string, e: Entry, k: History)
    requires Inv(s) && e.list == [] && e.level1Nodes == {} && e.phase == VerifyBroadcast
    requires k == History(multiset(e.verifyNodes), multiset{}, 0)
    ensures Inv(State(s.entries[hash := e], s.history[hash := k]))
  {
    forall x ensures k.counted[x] + One(x in e.verifyNodes) + One(x in e.level1Nodes) <= k.registered[x] {
    }
    assert EntryOk(e, k);
  }

  lemma {:induction false} StepKeepsInv(s: State, op: Op, threshold: nat)
    requires Inv(s)
    ensures Inv(Step(s, op, threshold))
  {
    match op
    case Seed(hash, block) => NewEntryKeepsInv(s, hash, Blank(block), UNREGISTERED);
    case AddVerify(hash, block, nodes) =>
      var ns := set n | n in nodes;
      NewEntryKeepsInv(s, hash, Entry(block, VerifyBroadcast, threshold, 0, [], ns, {}),
                       History(multiset(ns), multiset{}, 0));
    case AddLevel1(hash, block, nodes) => Level1KeepsInv(s, hash, block, nodes, threshold);
    case Report(st, now) => VoteKeepsInv(s, st, now, threshold);
    case Expire(now) =>
    case Rebuild(hash) => NewEntryKeepsInv(s, hash, Blank(NO_BLOCK), UNREGISTERED);
  }

  /** In every run each registration counts at most one report, the current list names distinct peers, and
      at most one task is submitted per list, exactly when the list reaches the threshold. */
  lemma {:induction false} RunKeepsInv(ops: seq<Op>, threshold: nat)
    ensures Inv(Run(ops, threshold))
  {
    if ops != [] {
      RunKeepsInv(ops[..|ops| - 1], threshold);
      StepKeepsInv(Run(ops[..|ops| - 1], threshold), ops[|ops| - 1], threshold);
    }
  }

  /** A report is counted exactly when it reports a failure, its sender is registered for the phase and has not
      reported since, the list is not yet full, and five seconds have not passed since the block. The sender's
      registration for the phase is then gone in any case; nothing else changes. */
  lemma {:induction false} CountedIff(m: map<string, Entry>, st: Status, now: nat)
    requires st.blockHash in m
    ensures var e, f := m[st.blockHash], Voted(m, st, now)[st.blockHash];
      var verifying := e.phase.VerifyBroadcast?;
      var registered := st.status < 0 && (if verifying then st.id in e.verifyNodes else st.id in e.level1Nodes);
      var room := if verifying then |e.list| <= e.verifyCount else 4 * |e.list| <= 3 * e.level1Count;
      && f.list == (if registered && room && now <= e.block.time + 5_000_000 then e.list + [st] else e.list)
      && f.verifyNodes == (if registered && verifying then e.verifyNodes - {st.id} else e.verifyNodes)
      && f.level1Nodes == (if registered && !verifying then e.level1Nodes - {st.id} else e.level1Nodes)
      && f == e.(list := f.list, verifyNodes := f.verifyNodes, level1Nodes := f.level1Nodes)
      && Voted(m, st, now) == m[st.blockHash := f]
  {
    if Code(m, st, now) != 0 { assert Voted(m, st, now) == Checked(m, st); }
  }

  /** The codes of a report: no failure, unknown block, not registered, full list, too late. */
  lemma {:induction false} CodesMean(m: map<string, Entry>, st: Status, now: nat)
    ensures Code(m, st, now) == -1 <==> st.status >= 0
    ensures Code(m, st, now) == -2 <==> st.status < 0 && st.blockHash !in m
    ensures st.status < 0 && st.blockHash in m ==>
      var e, code := m[st.blockHash], Code(m, st, now);
      && (code == -3 <==> e.phase.VerifyBroadcast? && st.id !in e.verifyNodes)
      && (code == -5 <==> e.phase.Level1Broadcast? && st.id !in e.level1Nodes)
      && (code == -4 <==> e.phase.VerifyBroadcast? && st.id in e.verifyNodes && |e.list| > e.verifyCount)
      && (code == -6 <==> e.phase.Level1Broadcast? && st.id in e.level1Nodes && 4 * |e.list| > 3 * e.level1Count)
      && (code == -7 ==> now > e.block.time + 5_000_000)
  {
  }

  /** Expiry leaves exactly the entries of blocks not yet fifteen seconds old, unchanged. */
  lemma {:induction false} AliveIff(m: map<string, Entry>, now: nat, h: string)
    ensures h in Alive(m, now) <==> h in m && now < m[h].block.time + 15_000_000
    ensures h in Alive(m, now) ==> Alive(m, now)[h] == m[h]
  {
  }

  /** In every run the number of tasks submitted for a list is one once the list holds as many reports as the
      verify phase counts, or the truncated three quarters of the second phase, and none before. */
  lemma {:induction false} OneTaskAtThreshold(ops: seq<Op>, threshold: nat, block: string)
    requires block in Run(ops, threshold).entries
    ensures var s := Run(ops, threshold);
      var e := s.entries[block];
      var needed := if e.phase.VerifyBroadcast? then e.verifyCount else 3 * e.level1Count / 4;
      block in s.history && s.history[block].tasks == if 0 < needed <= |e.list| then 1 else 0
  {
    RunKeepsInv(ops, threshold);
  }

  // ---------- the rebuilt block ----------

  function Occurrences(hashes: seq<string>, hash: string): nat {
    if hashes == [] then 0
    else Occurrences(hashes[..|hashes| - 1], hash) + if hashes[|hashes| - 1] == hash then 1 else 0
  }

  /** How often the reports name a transaction. */
  function Votes(list: seq<Status>, hash: string): nat {
    if list == [] then 0 else Votes(list[..|list| - 1], hash) + Occurrences(list[|list| - 1].txs, hash)
  }

  /** The peers that name it. */
  function Reporters(list: seq<Status>, hash: string): set<string> {
    set i | 0 <= i < |list| && hash in list[i].txs :: list[i].id
  }

  function FailThreshold(e: Entry): nat {
    if e.phase == VerifyBroadcast then 3 * e.verifyCount / 4 else 3 * e.level1Count / 4
  }

  predicate Contract(tx: Tx) {
    tx.normal && (tx.txType == InvokeContract || tx.txType == Deploy)
  }

  predicate Rejected(e: Entry, hash: string) {
    Votes(e.list, hash) > 0 && Votes(e.list, hash) >= FailThreshold(e)
  }

  predicate Survives(e: Entry, timely: Tx -> bool, tx: Tx) {
    tx.normal && !Rejected(e, tx.hash) && timely(tx)
  }

  /** The rebuilt transactions. */
  function Survivors(e: Entry, timely: Tx -> bool, txs: seq<Tx>): seq<Tx> {
    if txs == [] then []
    else
      var n := |txs| - 1;
      Survivors(e, timely, txs[..n]) + if Survives(e, timely, txs[n]) then [txs[n]] else []
  }

  /** picks lists positions of txs in order. */
  ghost predicate Picks(picks: seq<nat>, kept: seq<Tx>, txs: seq<Tx>) {
    && |picks| == |kept|
    && (forall i, j :: 0 <= i < j < |picks| ==> picks[i] < picks[j])
    && (forall i :: 0 <= i < |picks| ==> picks[i] < |txs| && kept[i] == txs[picks[i]])
  }

  /** The rebuilt transactions are the subsequence of the old ones at exactly the surviving positions. */
  lemma {:induction false} SurvivorsAreSubsequence(e: Entry, timely: Tx -> bool, txs: seq<Tx>) returns (picks: seq<nat>)
    ensures Picks(picks, Survivors(e, timely, txs), txs)
    ensures forall k: nat :: k in picks <==> k < |txs| && Survives(e, timely, txs[k])
  {
    if txs == [] {
      picks := [];
    } else {
      var n := |txs| - 1;
      var before := SurvivorsAreSubsequence(e, timely, txs[..n]);
      picks := if Survives(e, timely, txs[n]) then before + [n] else before;
      PicksExtend(before, Survivors(e, timely, txs[..n]), txs);
      forall k: nat ensures k in picks <==> k < |txs| && Survives(e, timely, txs[k]) {
        assert k < n ==> txs[..n][k] == txs[k];
      }
    }
  }

  lemma {:induction false} PicksExtend(picks: seq<nat>, kept: seq<Tx>, txs: seq<Tx>)
    requires txs != [] && Picks(picks, kept, txs[..|txs| - 1])
    ensures Picks(picks, kept, txs) && Picks(picks + [|txs| - 1], kept + [txs[|txs| - 1]], txs)
  {
  }

  lemma {:induction false} OccursIffNamed(hashes: seq<string>, hash: string)
    ensures Occurrences(hashes, hash) > 0 <==> hash in hashes
  {
    if hashes != [] {
      OccursIffNamed(hashes[..|hashes| - 1], hash);
      assert hashes == hashes[..|hashes| - 1] + [hashes[|hashes| - 1]];
    }
  }

  ghost predicate NamesOnce(list: seq<Status>, hash: string) {
    forall i :: 0 <= i < |list| ==> Occurrences(list[i].txs, hash) <= 1
  }

  lemma {:induction false} ReportersGrow(list: seq<Status>, hash: string)
    requires list != [] && DistinctIds(list)
    ensures |Reporters(list, hash)| == |Reporters(list[..|list| - 1], hash)| + One(hash in list[|list| - 1].txs)
  {
    var before, after, last := Reporters(list[..|list| - 1], hash), Reporters(list, hash), list[|list| - 1];
    forall x ensures x in after <==> x in before || (hash in last.txs && x == last.id) {
    }
    assert last.id !in before;
    assert after == if hash in last.txs then before + {last.id} else before;
  }

  /** Votes are never fewer than the peers that cast them, and equal exactly when no report repeats the name. */
  lemma {:induction false} VotesArePeersIff(list: seq<Status>, hash: string)
    requires DistinctIds(list)
    ensures Votes(list, hash) >= |Reporters(list, hash)|
    ensures Votes(list, hash) == |Reporters(list, hash)| <==> NamesOnce(list, hash)
  {
    if list == [] {
      assert Reporters(list, hash) == {};
    } else {
      var n := |list| - 1;
      VotesArePeersIff(list[..n], hash);
      ReportersGrow(list, hash);
      OccursIffNamed(list[n].txs, hash);
      if NamesOnce(list, hash) {
        assert NamesOnce(list[..n], hash);
      } else if Occurrences(list[n].txs, hash) <= 1 {
        var i :| 0 <= i < |list| && Occurrences(list[i].txs, hash) > 1;
        assert list[..n][i] == list[i];
      }
    }
  }

  /** In every run, a transaction that enough distinct counted peers report is rejected; and where no report
      repeats its name, a rejected one was reported by that many distinct peers. */
  lemma {:induction false} RejectedByPeers(ops: seq<Op>, threshold: nat, block: string, hash: string)
    requires block in Run(ops, threshold).entries
    ensures var e := Run(ops, threshold).entries[block]; var peers := |Reporters(e.list, hash)|;
      && (peers > 0 && peers >= FailThreshold(e) ==> Rejected(e, hash))
      && (NamesOnce(e.list, hash) ==> (Rejected(e, hash) <==> peers > 0 && peers >= FailThreshold(e)))
  {
    RunKeepsInv(ops, threshold);
    VotesArePeersIff(Run(ops, threshold).entries[block].list, hash);
  }

  /** The places at which the reports name a transaction: report, and position in it. */
  function NamedAt(list: seq<Status>, hash: string): set<(nat, nat)> {
    set i: nat, j: nat | i < |list| && j < |list[i].txs| && list[i].txs[j] == hash :: (i, j)
  }

  function Places(hashes: seq<string>, hash: string): set<nat> {
    set j: nat | j < |hashes| && hashes[j] == hash
  }

  lemma {:induction false} OccurrencesArePlaces(hashes: seq<string>, hash: string)
    ensures Occurrences(hashes, hash) == |Places(hashes, hash)|
  {
    if hashes == [] {
      assert Places(hashes, hash) == {};
    } else {
      var n := |hashes| - 1;
      OccurrencesArePlaces(hashes[..n], hash);
      var before, after := Places(hashes[..n], hash), Places(hashes, hash);
      assert after == if hashes[n] == hash then before + {n} else before;
    }
  }

  function RowOf(i: nat, places: set<nat>): set<(nat, nat)> {
    set j | j in places :: (i, j)
  }

  lemma {:induction false} RowSize(i: nat, places: set<nat>)
    ensures |RowOf(i, places)| == |places|
  {
    if j :| j in places {
      RowSize(i, places - {j});
      assert RowOf(i, places) == RowOf(i, places - {j}) + {(i, j)};
    } else {
      assert RowOf(i, places) == {};
    }
  }

  lemma {:induction false} NamedNext(list: seq<Status>, hash: string)
    requires list != []
    ensures |NamedAt(list, hash)| == |NamedAt(list[..|list| - 1], hash)| + |Places(list[|list| - 1].txs, hash)|
  {
    var n := |list| - 1;
    var before, row := NamedAt(list[..n], hash), RowOf(n, Places(list[n].txs, hash));
    RowSize(n, Places(list[n].txs, hash));
    forall i: nat, j: nat ensures (i, j) in NamedAt(list, hash) <==> (i, j) in before || (i, j) in row {
      assert (i, j) in row <==> i == n && j in Places(list[n].txs, hash);
      assert i < n ==> list[..n][i] == list[i];
    }
    assert NamedAt(list, hash) == before + row && before !! row;
  }

  /** The votes counted are the places at which the reports name the transaction. */
  lemma {:induction false} VotesAreNames(list: seq<Status>, hash: string)
    ensures Votes(list, hash) == |NamedAt(list, hash)|
  {
    if list == [] {
      assert NamedAt(list, hash) == {};
    } else {
      VotesAreNames(list[..|list| - 1], hash);
      OccurrencesArePlaces(list[|list| - 1].txs, hash);
      NamedNext(list, hash);
    }
  }

  /** kept are the transactions of the block, in order, that are ordinary, timely, and named nowhere in the
      reports or in fewer places than three quarters of what the phase counts. */
  ghost predicate IsRebuilt(kept: seq<Tx>, e: Entry, timely: Tx -> bool) {
    exists picks :: Picks(picks, kept, e.block.txs) && forall k: nat :: k in picks <==>
      && k < |e.block.txs| && e.block.txs[k].normal && timely(e.block.txs[k])
      && var names := |NamedAt(e.list, e.block.txs[k].hash)|;
         names == 0 || names < 3 * (if e.phase.VerifyBroadcast? then e.verifyCount else e.level1Count) / 4
  }

  lemma {:induction false} SurvivorsAreRebuilt(e: Entry, timely: Tx -> bool)
    ensures IsRebuilt(Survivors(e, timely, e.block.txs), e, timely)
  {
    var txs := e.block.txs;
    var picks := SurvivorsAreSubsequence(e, timely, txs);
    forall k: nat | k < |txs| ensures Votes(e.list, txs[k].hash) == |NamedAt(e.list, txs[k].hash)| {
      VotesAreNames(e.list, txs[k].hash);
    }
  }

  lemma {:induction false} RebuiltHolds(kept: seq<Tx>, e: Entry, timely: Tx -> bool, tx: Tx)
    requires IsRebuilt(kept, e, timely)
    ensures tx in kept <==>
      && tx in e.block.txs && tx.normal && timely(tx)
      && var names := |NamedAt(e.list, tx.hash)|;
         names == 0 || names < 3 * (if e.phase.VerifyBroadcast? then e.verifyCount else e.level1Count) / 4
  {
    var txs := e.block.txs;
    var picks :| Picks(picks, kept, txs) && forall k: nat :: k in picks <==>
      && k < |txs| && txs[k].normal && timely(txs[k])
      && var names := |NamedAt(e.list, txs[k].hash)|;
         names == 0 || names < 3 * (if e.phase.VerifyBroadcast? then e.verifyCount else e.level1Count) / 4;
    if tx in kept {
      var i :| 0 <= i < |kept| && kept[i] == tx;
      assert picks[i] in picks;
    }
    if tx in txs {
      var k :| 0 <= k < |txs| && txs[k] == tx;
      if k in picks {
        var i :| 0 <= i < |picks| && picks[i] == k;
        assert kept[i] == tx;
      }
    }
  }

  /** In every run, a transaction that enough distinct counted peers report is not in the rebuilt block; where no
      report repeats its name, an ordinary, timely transaction of the block is in it unless that many do. */
  lemma {:induction false} PeersKeepOut(ops: seq<Op>, threshold: nat, block: string, kept: seq<Tx>,
                                        timely: Tx -> bool, tx: Tx)
    requires block in Run(ops, threshold).entries && IsRebuilt(kept, Run(ops, threshold).entries[block], timely)
    ensures var e := Run(ops, threshold).entries[block];
      var peers := |Reporters(e.list, tx.hash)|;
      var enough := 3 * (if e.phase.VerifyBroadcast? then e.verifyCount else e.level1Count) / 4;
      && (peers > 0 && peers >= enough ==> tx !in kept)
      && (NamesOnce(e.list, tx.hash) && tx in e.block.txs && tx.normal && timely(tx) ==>
          (tx in kept <==> peers == 0 || peers < enough))
  {
    var e := Run(ops, threshold).entries[block];
    RunKeepsInv(ops, threshold);
    VotesArePeersIff(e.list, tx.hash);
    VotesAreNames(e.list, tx.hash);
    RebuiltHolds(kept, e, timely, tx);
  }

  lemma {:induction false} VotesOfOne(list: seq<Status>, i: nat, hash: string)
    requires i < |list|
    ensures Votes(list, hash) >= Occurrences(list[i].txs, hash)
  {
    var n := |list| - 1;
    if i < n {
      VotesOfOne(list[..n], i, hash);
    }
  }

  /** One report that repeats a name often enough rejects the transaction, whatever the others say. */
  lemma {:induction false} OneReportCanReject(e: Entry, st: Status, hash: string)
    requires st in e.list && hash in st.txs && Occurrences(st.txs, hash) >= FailThreshold(e)
    ensures Rejected(e, hash)
  {
    var i :| 0 <= i < |e.list| && e.list[i] == st;
    VotesOfOne(e.list, i, hash);
    OccursIffNamed(st.txs, hash);
  }

  /** Such a list is reached: a block is registered with one peer, and its single report decides alone. */
  lemma {:induction false} OnePeerDecides(threshold: nat, block: Block, st: Status, now: nat, hash: string)
    requires st.status < 0 && now <= block.time + VOTE_WINDOW
    requires hash in st.txs && Occurrences(st.txs, hash) >= 3 * threshold / 4
    ensures var e := Run([AddVerify(st.blockHash, block, [st.id]), Report(st, now)], threshold).entries;
      && st.blockHash in e && FailThreshold(e[st.blockHash]) == 3 * threshold / 4
      && Reporters(e[st.blockHash].list, hash) == {st.id} && Rejected(e[st.blockHash], hash)
  {
    var ops := [AddVerify(st.blockHash, block, [st.id]), Report(st, now)];
    assert ops[..1] == [AddVerify(st.blockHash, block, [st.id])] && ops[..1][..0] == [];
    assert Run([], threshold) == State(map[], map[]);
    assert Run(ops[..1], threshold) == Step(State(map[], map[]), ops[0], threshold);
    var before := Run(ops[..1], threshold).entries;
    assert before[st.blockHash].verifyNodes == {st.id};
    assert st.id in Open(before[st.blockHash]) && Code(before, st, now) == 0;
    var e := Run(ops, threshold).entries[st.blockHash];
    assert e.list == [st] && st in e.list;
    OneReportCanReject(e, st, hash);
    assert e.list[0] == st && st.id in Reporters(e.list, hash);
  }

  // ---------- the program's loops ----------

  /** counts holds the votes of the first i reports and of the first j names of the next. */
  ghost predicate Counts(counts: map<string, nat>, list: seq<Status>, i: nat, j: nat) {
    && i <= |list| && (j > 0 ==> i < |list| && j <= |list[i].txs|)
    && (forall h :: Count(counts, h) == Votes(list[..i], h) + if j > 0 then Occurrences(list[i].txs[..j], h) else 0)
    && (forall h :: h in counts ==> counts[h] > 0)
  }

  lemma {:induction false} CountNext(counts: map<string, nat>, list: seq<Status>, i: nat, j: nat)
    requires Counts(counts, list, i, j) && i < |list| && j < |list[i].txs|
    ensures Counts(Increment(counts, list[i].txs[j]), list, i, j + 1)
  {
    var hash := list[i].txs[j];
    var next := Increment(counts, hash);
    forall h ensures Count(next, h) == Votes(list[..i], h) + Occurrences(list[i].txs[..j + 1], h) {
      assert list[i].txs[..j + 1][..j] == list[i].txs[..j];
      assert Occurrences(list[i].txs[..j], h) == 0 || j > 0;
      assert Count(next, h) == Count(counts, h) + if h == hash then 1 else 0;
    }
  }

  lemma {:induction false} CountReport(counts: map<string, nat>, list: seq<Status>, i: nat)
    requires i < |list| && Counts(counts, list, i, |list[i].txs|)
    ensures Counts(counts, list, i + 1, 0)
  {
    var n := |list[i].txs|;
    forall h ensures Count(counts, h) == Votes(list[..i + 1], h) {
      assert list[i].txs[..n] == list[i].txs;
      assert list[..i + 1][..i] == list[..i];
    }
  }

  method CountVotes(list: seq<Status>) returns (counts: map<string, nat>)
    ensures forall h :: Count(counts, h) == Votes(list, h)
    ensures forall h :: h in counts ==> counts[h] > 0
  {
    counts := map[];
    for i := 0 to |list|
      invariant Counts(counts, list, i, 0)
    {
      for j := 0 to |list[i].txs|
        invariant Counts(counts, list, i, j)
      {
        CountNext(counts, list, i, j);
        counts := Increment(counts, list[i].txs[j]);
      }
      CountReport(counts, list, i);
    }
    assert list[..|list|] == list;
  }

  /** stopped: an ordinary contract transaction ends the rebuild. */
  method KeepTransactions(e: Entry, timely: Tx -> bool) returns (stopped: bool, kept: seq<Tx>)
    ensures stopped <==> exists i :: 0 <= i < |e.block.txs| && Contract(e.block.txs[i])
    ensures !stopped ==> kept == Survivors(e, timely, e.block.txs)
  {
    var counts := CountVotes(e.list);
    var txs := e.block.txs;
    kept := [];
    for i := 0 to |txs|
      invariant kept == Survivors(e, timely, txs[..i])
      invariant forall k :: 0 <= k < i ==> !Contract(txs[k])
    {
      assert txs[..i + 1][..i] == txs[..i];
      if !txs[i].normal {
        continue;
      }
      if txs[i].txType == InvokeContract || txs[i].txType == Deploy {
        return true, kept;
      }
      assert Count(counts, txs[i].hash) == Votes(e.list, txs[i].hash);
      if txs[i].hash in counts && counts[txs[i].hash] >= FailThreshold(e) {
        continue;
      }
      if !timely(txs[i]) {
        continue;
      }
      kept := kept + [txs[i]];
    }
    assert txs[..|txs|] == txs;
    stopped := false;
  }

  /** The entries once the given ones have been looked at. */
  function Swept(m: map<string, Entry>, hashes: seq<string>, now: nat): map<string, Entry> {
    map h | h in m && !(h in hashes && Dead(m[h], now)) :: m[h]
  }

  lemma {:induction false} SweepNext(m: map<string, Entry>, hashes: seq<string>, i: nat, now: nat)
    requires i < |hashes| && hashes[i] in m && Orders.StrictlyAscending(hashes)
    ensures hashes[i] in Swept(m, hashes[..i], now)
    ensures Swept(m, hashes[..i + 1], now)
         == if Dead(m[hashes[i]], now) then Swept(m, hashes[..i], now) - {hashes[i]} else Swept(m, hashes[..i], now)
  {
    assert hashes[..i + 1] == hashes[..i] + [hashes[i]];
    assert hashes[i] !in hashes[..i];
  }

  /** The walk that erases while it advances. */
  method Sweep(m: map<string, Entry>, hashes: seq<string>, now: nat) returns (left: map<string, Entry>)
    requires Orders.StrictlyAscending(hashes) && forall i :: 0 <= i < |hashes| ==> hashes[i] in m
    ensures left == Swept(m, hashes, now)
  {
    left := m;
    for i := 0 to |hashes|
      invariant left == Swept(m, hashes[..i], now)
    {
      SweepNext(m, hashes, i, now);
      if Dead(left[hashes[i]], now) {
        left := left - {hashes[i]};
      }
    }
    assert hashes[..|hashes|] == hashes;
  }

  class BlockStorage {
    var blockStatusMap: map<string, Entry>
    const nodeThreshold: nat

    constructor (threshold: nat)
      ensures blockStatusMap == map[] && nodeThreshold == threshold
    {
      blockStatusMap := map[];
      nodeThreshold := threshold;
    }

    /** AddBlockStatus for the verify phase. */
    method AddVerifyNodes(blockHash: string, block: Block, verifyNodes: seq<string>)
      modifies this
      ensures blockStatusMap == Registered(old(blockStatusMap), blockHash, block, verifyNodes, nodeThreshold)
      ensures blockHash in old(blockStatusMap) ==> blockStatusMap == old(blockStatusMap)
      ensures blockHash !in old(blockStatusMap) ==> blockStatusMap == old(blockStatusMap)[blockHash :=
        Entry(block, VerifyBroadcast, nodeThreshold, 0, [], set n | n in verifyNodes, {})]
    {
      if blockHash !in blockStatusMap {
        var e := Blank(block).(verifyCount := nodeThreshold, verifyNodes := set n | n in verifyNodes);
        blockStatusMap := blockStatusMap[blockHash := e];
      }
    }

    /** AddBlockStatus for the second phase. */
    method AddLevel1Nodes(blockHash: string, block: Block, level1Nodes: set<string>)
      modifies this
      ensures blockStatusMap == ToLevel1(old(blockStatusMap), blockHash, block, level1Nodes)
      ensures blockHash !in old(blockStatusMap) ==> blockStatusMap == old(blockStatusMap)
      ensures blockHash in old(blockStatusMap) ==>
        var was := old(blockStatusMap);
        var e := was[blockHash];
        blockStatusMap == was[blockHash := Entry(block, Level1Broadcast, e.verifyCount, |level1Nodes|, [],
                                                 e.verifyNodes, e.level1Nodes + level1Nodes)]
    {
      if blockHash in blockStatusMap {
        var e := blockStatusMap[blockHash];
        e := e.(block := block, phase := Level1Broadcast);
        e := e.(level1Count := |level1Nodes|, list := []);
        e := e.(level1Nodes := e.level1Nodes + level1Nodes);
        blockStatusMap := blockStatusMap[blockHash := e];
      }
    }

    method CheckData(st: Status, now: nat) returns (code: int)
      modifies this
      ensures code == Code(old(blockStatusMap), st, now)
      ensures blockStatusMap == Checked(old(blockStatusMap), st)
    {
      if st.status >= 0 {
        return -1;
      }
      if st.blockHash !in blockStatusMap {
        return -2;
      }
      var e := blockStatusMap[st.blockHash];
      if e.phase == VerifyBroadcast {
        if e.verifyNodes == {} || st.id !in e.verifyNodes {
          return -3;
        }
        blockStatusMap := blockStatusMap[st.blockHash := e.(verifyNodes := e.verifyNodes - {st.id})];
        if |e.list| > e.verifyCount {
          return -4;
        }
      } else {
        if e.level1Nodes == {} || st.id !in e.level1Nodes {
          return -5;
        }
        blockStatusMap := blockStatusMap[st.blockHash := e.(level1Nodes := e.level1Nodes - {st.id})];
        if 4 * |e.list| > 3 * e.level1Count {
          return -6;
        }
      }
      if now > e.block.time + VOTE_WINDOW {
        return -7;
      }
      return 0;
    }

    /** AddBlockStatus for a report; task says that a rebuild was submitted. */
    method AddBlockStatus(st: Status, now: nat) returns (task: bool)
      modifies this
      ensures blockStatusMap == Voted(old(blockStatusMap), st, now)
      ensures task <==> Submits(old(blockStatusMap), st, now)
    {
      task := false;
      var ret := CheckData(st, now);
      if ret != 0 {
        return;
      }
      var e := blockStatusMap[st.blockHash];
      e := e.(list := e.list + [st]);
      blockStatusMap := blockStatusMap[st.blockHash := e];
      if e.phase == Level1Broadcast && |e.list| == 3 * e.level1Count / 4 {
        task := true;
      } else if e.phase == VerifyBroadcast && |e.list| == e.verifyCount {
        task := true;
      }
    }

    method CheckExpiredDelete(now: nat)
      modifies this
      ensures blockStatusMap == Alive(old(blockStatusMap), now)
    {
      var hashes := Orders.Ascending(blockStatusMap.Keys);
      assert forall i :: 0 <= i < |hashes| ==> hashes[i] in hashes;
      blockStatusMap := Sweep(blockStatusMap, hashes, now);
    }

    /** Looking the block up makes a blank entry when it is gone. kept == []: nothing is rebuilt. */
    method NewBuildBlock(blockHash: string, timely: Tx -> bool) returns (kept: seq<Tx>)
      modifies this
      ensures var m := old(blockStatusMap);
        && blockStatusMap == (if blockHash in m then m else m[blockHash := Blank(NO_BLOCK)])
        && var e := blockStatusMap[blockHash];
           if exists i :: 0 <= i < |e.block.txs| && e.block.txs[i].normal
                          && (e.block.txs[i].txType.InvokeContract? || e.block.txs[i].txType.Deploy?)
           then kept == []
           else kept == Survivors(e, timely, e.block.txs) && IsRebuilt(kept, e, timely)
    {
      if blockHash !in blockStatusMap {
        blockStatusMap := blockStatusMap[blockHash := Blank(NO_BLOCK)];
      }
      var stopped;
      stopped, kept := KeepTransactions(blockStatusMap[blockHash], timely);
      SurvivorsAreRebuilt(blockStatusMap[blockHash], timely);
      if stopped {
        kept := [];
      }
    }
  }
}
