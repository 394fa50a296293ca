/** The checkpoint kept for every thousand heights (ca/check_blocks.cpp): the node asks its peers for
    the sum hash of the next thousand and commits its own once nearly all of them report the same. */
module Checkpoints {
  import opened Counters
  import Orders

  const SPAN := 1000
  const DEPTH := 1100

  /** top is the highest checkpoint, zero when there is none. */
  datatype Store = Store(top: nat, hashes: map<nat, string>)

  /** ok: the reply parses and reports success. */
  datatype Reply = Reply(ok: bool, hash: string)

  /** One pass of the loop: the node's own sum hash, the error (-3 to -7) that ends the pass before the
      tally or 0, the replies, and how the writes go. lastReadOk: the top can be read before the commit. */
  datatype Round = Round(ownHash: string, error: int, replies: seq<Reply>, hashWritten: bool, lastReadOk: bool,
                         topWritten: bool, committed: bool)

  /** One timer call: whether the tops can be read, the local top, and the passes it gets to make. */
  datatype Env = Env(initReadOk: bool, localTopOk: bool, localTop: nat, rounds: seq<Round>)

  /** A call ends with a code, or commits in some pass, or has not ended with the passes given. */
  datatype Outcome = Stop(code: int) | Commit(i: nat) | Looping

  predicate Counts(r: Reply) {
    r.ok && r.hash != ""
  }

  function Successes(replies: seq<Reply>): nat {
    if replies == [] then 0
    else Successes(replies[..|replies| - 1]) + if Counts(replies[|replies| - 1]) then 1 else 0
  }

  function Votes(replies: seq<Reply>, hash: string): nat {
    if replies == [] then 0
    else
      var r := replies[|replies| - 1];
      Votes(replies[..|replies| - 1], hash) + if Counts(r) && r.hash == hash then 1 else 0
  }

  /** Enough replies succeed. */
  predicate Answered(replies: seq<Reply>) {
    5 * Successes(replies) >= 4 * |replies|
  }

  /** Nearly all successful replies report the hash. */
  predicate Agreed(replies: seq<Reply>, hash: string) {
    Successes(replies) > 0 && 10 * Votes(replies, hash) >= 9 * Successes(replies)
  }

  function Read(s: Store, ok: bool): nat {
    if ok then s.top else 0
  }

  function PassOutcome(s: Store, top: nat, r: Round, i: nat): Outcome {
    if r.ownHash == "" then Stop(-2)
    else if r.error != 0 then Stop(r.error)
    else if !Answered(r.replies) then Stop(-8)
    else if !Agreed(r.replies, r.ownHash) then Looping
    else if !r.hashWritten then Stop(-9)
    else if Read(s, r.lastReadOk) != top then Stop(-10)
    else if !r.topWritten then Stop(-11)
    else if !r.committed then Stop(-12)
    else Commit(i)
  }

  /** What the passes from the i-th on lead to. */
  function LoopOutcome(s: Store, top: nat, rounds: seq<Round>, i: nat): Outcome
    requires i <= |rounds|
    decreases |rounds| - i
  {
    if i == |rounds| then Looping
    else
      var o := PassOutcome(s, top, rounds[i], i);
      if o == Looping then LoopOutcome(s, top, rounds, i + 1) else o
  }

  function CallOutcome(s: Store, env: Env): Outcome {
    var top := Read(s, env.initReadOk);
    if !env.localTopOk then Stop(-1)
    else if env.localTop < top + DEPTH then Stop(0)
    else LoopOutcome(s, top, env.rounds, 0)
  }

  function Step(s: Store, env: Env): Store {
    var top := Read(s, env.initReadOk);
    match CallOutcome(s, env)
    case Commit(i) =>
      if i < |env.rounds| then Store(top + SPAN, s.hashes[top + SPAN := env.rounds[i].ownHash]) else s
    case _ => s
  }

  function Run(calls: seq<Env>): Store {
    if calls == [] then Store(0, map[]) else Step(Run(calls[..|calls| - 1]), calls[|calls| - 1])
  }

  // ---------- one call ----------

  lemma {:induction false} LoopCommits(s: Store, top: nat, rounds: seq<Round>, i: nat)
    requires i <= |rounds| && LoopOutcome(s, top, rounds, i).Commit?
    ensures var k := LoopOutcome(s, top, rounds, i).i;
      i <= k < |rounds| && PassOutcome(s, top, rounds[k], k) == Commit(k)
    decreases |rounds| - i
  {
    if PassOutcome(s, top, rounds[i], i) == Looping {
      LoopCommits(s, top, rounds, i + 1);
    }
  }

  /** The checkpoint lies 100 below the local top, carries the node's own hash, and 72% of the replies report it. */
  ghost predicate Backed(s: Store, env: Env, height: nat, hash: string) {
    && CallOutcome(s, env).Commit?
    && var k := CallOutcome(s, env).i;
    && k < |env.rounds| && height == Read(s, env.initReadOk) + SPAN && height + 100 <= env.localTop
    && hash == env.rounds[k].ownHash && hash != ""
    && 100 * Votes(env.rounds[k].replies, hash) >= 72 * |env.rounds[k].replies|
  }

  lemma {:induction false} CommitIsBacked(s: Store, env: Env)
    requires CallOutcome(s, env).Commit?
    ensures var h := Read(s, env.initReadOk) + SPAN; var next := Step(s, env);
      h in next.hashes && Backed(s, env, h, next.hashes[h])
      && next == Store(h, s.hashes[h := next.hashes[h]])
  {
    LoopCommits(s, Read(s, env.initReadOk), env.rounds, 0);
  }

  /** Neither reading of the stored top succeeds in a call that commits over an existing checkpoint. */
  ghost predicate BlindCommit(s: Store, env: Env) {
    && CallOutcome(s, env).Commit? && CallOutcome(s, env).i < |env.rounds|
    && s.top > 0 && !env.initReadOk && !env.rounds[CallOutcome(s, env).i].lastReadOk
  }

  /** A commit raises the top by exactly one span if and only if it is not blind. */
  lemma {:induction false} AdvancesIffNotBlind(s: Store, env: Env)
    requires CallOutcome(s, env).Commit?
    ensures Step(s, env).top == s.top + SPAN <==> !BlindCommit(s, env)
  {
    CommitIsBacked(s, env);
    LoopCommits(s, Read(s, env.initReadOk), env.rounds, 0);
  }

  // ---------- exactly when a call commits ----------

  /** The replies that report success with a hash. */
  function Good(replies: seq<Reply>): set<nat> {
    set i: nat | i < |replies| && replies[i].ok && replies[i].hash != ""
  }

  function GoodFor(replies: seq<Reply>, hash: string): set<nat> {
    set i: nat | i < |replies| && replies[i].ok && replies[i].hash != "" && replies[i].hash == hash
  }

  lemma {:induction false} OneMore(before: set<nat>, after: set<nat>, n: nat, added: bool)
    requires n !in before && forall i :: i in after <==> i in before || (added && i == n)
    ensures |after| == |before| + if added then 1 else 0
  {
    assert after == if added then before + {n} else before;
  }

  lemma {:induction false} GoodNext(replies: seq<Reply>)
    requires replies != []
    ensures |Good(replies)| == |Good(replies[..|replies| - 1])| + if Counts(replies[|replies| - 1]) then 1 else 0
  {
    var n := |replies| - 1;
    OneMore(Good(replies[..n]), Good(replies), n, Counts(replies[n]));
  }

  lemma {:induction false} SuccessesCount(replies: seq<Reply>)
    ensures Successes(replies) == |Good(replies)|
  {
    if replies == [] {
      assert Good(replies) == {};
    } else {
      SuccessesCount(replies[..|replies| - 1]);
      GoodNext(replies);
    }
  }

  lemma {:induction false} GoodForNext(replies: seq<Reply>, hash: string)
    requires replies != []
    ensures var r := replies[|replies| - 1];
      |GoodFor(replies, hash)|
      == |GoodFor(replies[..|replies| - 1], hash)| + if Counts(r) && r.hash == hash then 1 else 0
  {
    var n := |replies| - 1;
    OneMore(GoodFor(replies[..n], hash), GoodFor(replies, hash), n, Counts(replies[n]) && replies[n].hash == hash);
  }

  lemma {:induction false} VotesCount(replies: seq<Reply>, hash: string)
    ensures Votes(replies, hash) == |GoodFor(replies, hash)|
  {
    if replies == [] {
      assert GoodFor(replies, hash) == {};
    } else {
      VotesCount(replies[..|replies| - 1], hash);
      GoodForNext(replies, hash);
    }
  }

  /** A pass that reaches the vote: the node has a hash, no error came before, and four fifths of the replies
      succeed. */
  ghost predicate Votable(r: Round) {
    r.ownHash != "" && r.error == 0 && 5 * |Good(r.replies)| >= 4 * |r.replies|
  }

  /** At least nine tenths of the successful replies, and one at least, report the node's own hash. */
  ghost predicate Confirmed(r: Round) {
    Good(r.replies) != {} && 10 * |GoodFor(r.replies, r.ownHash)| >= 9 * |Good(r.replies)|
  }

  lemma {:induction false} PassMeans(s: Store, top: nat, r: Round, i: nat)
    ensures PassOutcome(s, top, r, i) == Looping <==> Votable(r) && !Confirmed(r)
    ensures PassOutcome(s, top, r, i).Commit? <==>
      && Votable(r) && Confirmed(r) && r.hashWritten && (if r.lastReadOk then s.top else 0) == top
      && r.topWritten && r.committed
    ensures PassOutcome(s, top, r, i).Commit? ==> PassOutcome(s, top, r, i) == Commit(i)
  {
    SuccessesCount(r.replies);
    VotesCount(r.replies, r.ownHash);
  }

  /** How a pass ends the call without a commit. */
  lemma {:induction false} StopMeans(s: Store, top: nat, r: Round, i: nat)
    ensures r.ownHash == "" ==> PassOutcome(s, top, r, i) == Stop(-2)
    ensures r.ownHash != "" && r.error != 0 ==> PassOutcome(s, top, r, i) == Stop(r.error)
    ensures r.ownHash != "" && r.error == 0 && !Votable(r) ==> PassOutcome(s, top, r, i) == Stop(-8)
    ensures Votable(r) && Confirmed(r) ==>
      && (!r.hashWritten ==> PassOutcome(s, top, r, i) == Stop(-9))
      && (r.hashWritten && (if r.lastReadOk then s.top else 0) != top ==> PassOutcome(s, top, r, i) == Stop(-10))
      && (r.hashWritten && (if r.lastReadOk then s.top else 0) == top ==>
           && (!r.topWritten ==> PassOutcome(s, top, r, i) == Stop(-11))
           && (r.topWritten && !r.committed ==> PassOutcome(s, top, r, i) == Stop(-12)))
  {
    SuccessesCount(r.replies);
    VotesCount(r.replies, r.ownHash);
  }

  /** The passes before k are voted on and confirm nothing, and pass k commits. */
  ghost predicate CommitsAt(s: Store, top: nat, rounds: seq<Round>, k: nat) {
    && k < |rounds| && (forall j :: 0 <= j < k ==> Votable(rounds[j]) && !Confirmed(rounds[j]))
    && Votable(rounds[k]) && Confirmed(rounds[k]) && rounds[k].hashWritten
    && (if rounds[k].lastReadOk then s.top else 0) == top && rounds[k].topWritten && rounds[k].committed
  }

  lemma {:induction false} LoopCommitsIff(s: Store, top: nat, rounds: seq<Round>, i: nat, k: nat)
    requires i <= |rounds| && forall j :: 0 <= j < i ==> Votable(rounds[j]) && !Confirmed(rounds[j])
    ensures LoopOutcome(s, top, rounds, i) == Commit(k) <==> i <= k && CommitsAt(s, top, rounds, k)
    decreases |rounds| - i
  {
    if i < |rounds| {
      PassMeans(s, top, rounds[i], i);
      if PassOutcome(s, top, rounds[i], i) == Looping { LoopCommitsIff(s, top, rounds, i + 1, k); }
    }
  }

  /** A call commits in a pass if and only if the local top is known and 1100 above the checkpoint that was read,
      that pass confirms the node's own hash and all its writes succeed over the same checkpoint, and every pass
      before was voted on without a confirmation. */
  lemma {:induction false} CommitsIff(s: Store, env: Env, k: nat)
    ensures var top := if env.initReadOk then s.top else 0;
      CallOutcome(s, env) == Commit(k) <==>
        env.localTopOk && env.localTop >= top + 1100 && CommitsAt(s, top, env.rounds, k)
  {
    LoopCommitsIff(s, Read(s, env.initReadOk), env.rounds, 0, k);
  }

  // ---------- runs ----------

  /** Every committed hash was backed in the call that wrote it. */
  lemma {:induction false} EveryHashIsBacked(calls: seq<Env>, height: nat) returns (n: nat)
    requires height in Run(calls).hashes
    ensures n < |calls| && Backed(Run(calls[..n]), calls[n], height, Run(calls).hashes[height])
  {
    var m := |calls| - 1;
    var before := Run(calls[..m]);
    if CallOutcome(before, calls[m]).Commit? {
      CommitIsBacked(before, calls[m]);
    }
    if CallOutcome(before, calls[m]).Commit? && height == Read(before, calls[m].initReadOk) + SPAN {
      n := m;
    } else {
      n := EveryHashIsBacked(calls[..m], height);
      assert calls[..m][..n] == calls[..n];
    }
  }

  ghost predicate NoBlindCommit(calls: seq<Env>) {
    forall n :: 0 <= n < |calls| ==> !BlindCommit(Run(calls[..n]), calls[n])
  }

  /** The n-th call commits nothing, or raises the top by one span. */
  ghost predicate AdvancesAt(calls: seq<Env>, n: nat)
    requires n < |calls|
  {
    CallOutcome(Run(calls[..n]), calls[n]).Commit? ==> Run(calls[..n + 1]).top == Run(calls[..n]).top + SPAN
  }

  lemma {:induction false} AdvancesAtIff(calls: seq<Env>, n: nat)
    requires n < |calls|
    ensures AdvancesAt(calls, n) <==> !BlindCommit(Run(calls[..n]), calls[n])
  {
    assert calls[..n + 1][..n] == calls[..n];
    if CallOutcome(Run(calls[..n]), calls[n]).Commit? {
      AdvancesIffNotBlind(Run(calls[..n]), calls[n]);
    }
  }

  /** Every commit of a run raises the top by one span if and only if none is blind. */
  lemma {:induction false} RunAdvancesIff(calls: seq<Env>)
    ensures (forall n :: 0 <= n < |calls| ==> AdvancesAt(calls, n)) <==> NoBlindCommit(calls)
  {
    forall n | 0 <= n < |calls| ensures AdvancesAt(calls, n) <==> !BlindCommit(Run(calls[..n]), calls[n]) {
      AdvancesAtIff(calls, n);
    }
  }

  /** The stored checkpoints are exactly those at 1000, 2000, up to the top. */
  ghost predicate Exact(s: Store) {
    && s.top % SPAN == 0
    && forall h: nat :: h in s.hashes <==> h % SPAN == 0 && 0 < h <= s.top
  }

  /** A blind commit over more than one span: the top falls back below stored checkpoints. */
  ghost predicate FallsBack(s: Store, env: Env) {
    BlindCommit(s, env) && s.top > SPAN
  }

  lemma {:induction false} BlindCommitAt(s: Store, env: Env)
    requires BlindCommit(s, env)
    ensures Step(s, env).top == SPAN && Step(s, env).hashes.Keys == s.hashes.Keys + {SPAN}
  {
    CommitIsBacked(s, env);
    AdvancesIffNotBlind(s, env);
  }

  /** A call keeps the stored checkpoints exact if and only if it does not fall back. */
  lemma {:induction false} StepExactIff(s: Store, env: Env)
    requires Exact(s)
    ensures Exact(Step(s, env)) <==> !FallsBack(s, env)
  {
    if BlindCommit(s, env) {
      BlindCommitAt(s, env);
      assert s.top in s.hashes;
    } else if CallOutcome(s, env).Commit? {
      AdvancesIffNotBlind(s, env);
    }
  }

  /** Two failed readings in one call take the top back to 1000, below a checkpoint that stays stored. */
  lemma {:induction false} BlindCommitRegresses(s: Store, env: Env)
    requires Exact(s) && s.top > SPAN && BlindCommit(s, env)
    ensures Step(s, env).top == SPAN && s.top in Step(s, env).hashes && !Exact(Step(s, env))
  {
    BlindCommitAt(s, env);
    StepExactIff(s, env);
    assert s.top in s.hashes;
  }

  ghost predicate NeverFallsBack(calls: seq<Env>) {
    forall n :: 0 <= n < |calls| ==> !FallsBack(Run(calls[..n]), calls[n])
  }

  lemma {:induction false} NoFallBackKeepsExact(calls: seq<Env>)
    requires NeverFallsBack(calls)
    ensures Exact(Run(calls))
  {
    if calls != [] {
      var m := |calls| - 1;
      forall n | 0 <= n < m ensures !FallsBack(Run(calls[..m][..n]), calls[..m][n]) {
        assert calls[..m][..n] == calls[..n];
      }
      NoFallBackKeepsExact(calls[..m]);
      StepExactIff(Run(calls[..m]), calls[m]);
    }
  }

  ghost predicate AlwaysExact(calls: seq<Env>) {
    forall n :: 0 <= n <= |calls| ==> Exact(Run(calls[..n]))
  }

  /** From an empty store, the checkpoints are exactly 1000, 2000, up to the top throughout a run if and only
      if no call falls back. */
  lemma {:induction false} CheckpointsExact(calls: seq<Env>)
    ensures AlwaysExact(calls) <==> NeverFallsBack(calls)
  {
    if NeverFallsBack(calls) {
      forall n | 0 <= n <= |calls| ensures Exact(Run(calls[..n])) {
        forall m | 0 <= m < n ensures !FallsBack(Run(calls[..n][..m]), calls[..n][m]) {
          assert calls[..n][..m] == calls[..m];
        }
        NoFallBackKeepsExact(calls[..n]);
      }
    } else {
      var n :| 0 <= n < |calls| && FallsBack(Run(calls[..n]), calls[n]);
      assert calls[..n + 1][..n] == calls[..n];
      if Exact(Run(calls[..n])) {
        StepExactIff(Run(calls[..n]), calls[n]);
      }
    }
  }

  /** A timer call with one pass in which one peer confirms the node's own hash. */
  function OnePass(readOk: bool, hash: string): Env {
    Env(readOk, true, 5000, [Round(hash, 0, [Reply(true, hash)], true, readOk, true, true)])
  }

  lemma {:induction false} OnePassCommits(s: Store, readOk: bool, hash: string)
    requires hash != "" && s.top + DEPTH <= 5000
    ensures CallOutcome(s, OnePass(readOk, hash)) == Commit(0)
    ensures Step(s, OnePass(readOk, hash)) == Store(Read(s, readOk) + SPAN, s.hashes[Read(s, readOk) + SPAN := hash])
  {
    var env := OnePass(readOk, hash);
    var replies := env.rounds[0].replies;
    assert replies[..0] == [];
    assert Successes(replies) == 1 && Votes(replies, hash) == 1;
    assert LoopOutcome(s, Read(s, readOk), env.rounds, 0) == Commit(0);
  }

  /** Two good calls and one with both readings failed: the top is 1000 again, below the checkpoint at 2000. */
  lemma {:induction false} FallBackIsReached(calls: seq<Env>)
    requires calls == [OnePass(true, "x"), OnePass(true, "y"), OnePass(false, "z")]
    ensures Run(calls) == Store(1000, map[1000 := "z", 2000 := "y"]) && FallsBack(Run(calls[..2]), calls[2])
        && !Exact(Run(calls))
  {
    assert calls[..2][..1] == calls[..1] && calls[..1][..0] == [];
    OnePassCommits(Run([]), true, "x");
    assert Run(calls[..1]) == Store(1000, map[1000 := "x"]);
    OnePassCommits(Run(calls[..1]), true, "y");
    assert Run(calls[..2]) == Store(2000, map[1000 := "x", 2000 := "y"]);
    OnePassCommits(Run(calls[..2]), false, "z");
    assert 2000 in Run(calls).hashes;
  }

  // ---------- the tally ----------

  lemma {:induction false} VotesAddUp(replies: seq<Reply>, a: string, b: string)
    requires a != b
    ensures Votes(replies, a) + Votes(replies, b) <= Successes(replies)
  {
    if replies != [] {
      VotesAddUp(replies[..|replies| - 1], a, b);
    }
  }

  /** A hash that nearly all report is the one with the most votes. */
  lemma {:induction false} AgreedIsMost(replies: seq<Reply>, winner: string, hash: string)
    requires Votes(replies, winner) >= Votes(replies, hash)
    ensures Agreed(replies, hash) ==> winner == hash
  {
    if winner != hash {
      VotesAddUp(replies, winner, hash);
    }
  }

  method Tally(replies: seq<Reply>) returns (counts: map<string, nat>, success: nat)
    ensures success == Successes(replies)
    ensures forall h :: Count(counts, h) == Votes(replies, h)
    ensures forall h :: h in counts ==> counts[h] > 0
  {
    counts, success := map[], 0;
    for i := 0 to |replies|
      invariant success == Successes(replies[..i])
      invariant forall h :: Count(counts, h) == Votes(replies[..i], h)
      invariant forall h :: h in counts ==> counts[h] > 0
    {
      assert replies[..i + 1][..i] == replies[..i];
      if !replies[i].ok {
        continue;
      }
      if replies[i].hash == "" {
        continue;
      }
      counts := Increment(counts, replies[i].hash);
      success := success + 1;
    }
    assert replies[..|replies|] == replies;
  }

  /** The first hash, in key order, with the most votes. */
  method MaxElement(counts: map<string, nat>) returns (found: bool, winner: string)
    ensures found <==> counts != map[]
    ensures found ==> winner in counts && forall h :: h in counts ==> counts[h] <= counts[winner]
    ensures found ==> forall h :: h in counts && counts[h] == counts[winner] ==> Orders.Leq(winner, h)
  {
    var keys := Orders.Ascending(counts.Keys);
    if keys == [] {
      assert counts.Keys == {};
      return false, "";
    }
    found := true;
    assert forall k :: 0 <= k < |keys| ==> keys[k] in keys;
    ghost var at;
    winner, at := FirstMax(counts, keys);
    forall h | h in counts
      ensures counts[h] <= counts[winner] && (counts[h] == counts[winner] ==> Orders.Leq(winner, h))
    {
      var k :| 0 <= k < |keys| && keys[k] == h;
      LaterIsAbove(keys, at, k);
    }
  }

  lemma {:induction false} LaterIsAbove(keys: seq<string>, at: nat, k: nat)
    requires Orders.StrictlyAscending(keys) && at < |keys| && k < |keys|
    ensures at <= k ==> Orders.Leq(keys[at], keys[k])
  {
    Orders.LeqTotal(keys[k], keys[k]);
  }

  method FirstMax(counts: map<string, nat>, keys: seq<string>) returns (winner: string, ghost at: nat)
    requires keys != [] && forall k :: 0 <= k < |keys| ==> keys[k] in counts
    ensures at < |keys| && winner == keys[at]
    ensures forall k :: 0 <= k < |keys| ==> counts[keys[k]] <= counts[winner]
    ensures forall k :: 0 <= k < at ==> counts[keys[k]] < counts[winner]
  {
    winner, at := keys[0], 0;
    for i := 1 to |keys|
      invariant at < i && winner == keys[at]
      invariant forall k :: 0 <= k < i ==> counts[keys[k]] <= counts[winner]
      invariant forall k :: 0 <= k < at ==> counts[keys[k]] < counts[winner]
    {
      if counts[winner] < counts[keys[i]] {
        winner, at := keys[i], i;
      }
    }
  }

  /** -8: too few succeed; otherwise agreed says that the replies settle on the node's own hash. */
  method Consensus(replies: seq<Reply>, ownHash: string) returns (code: int, agreed: bool)
    requires ownHash != ""
    ensures code == if Answered(replies) then 0 else -8
    ensures code == 0 ==> (agreed <==> Agreed(replies, ownHash))
  {
    agreed := false;
    var counts, success := Tally(replies);
    if 5 * success < 4 * |replies| {
      return -8, false;
    }
    code := 0;
    var found, winner := MaxElement(counts);
    if found {
      assert Count(counts, winner) == Votes(replies, winner) && Count(counts, ownHash) == Votes(replies, ownHash);
      AgreedIsMost(replies, winner, ownHash);
      VotesNeedSuccess(replies, winner);
      if 10 * counts[winner] >= 9 * success {
        if winner == ownHash {
          agreed := true;
        }
      }
    } else {
      assert Count(counts, ownHash) == Votes(replies, ownHash);
    }
  }

  lemma {:induction false} VotesNeedSuccess(replies: seq<Reply>, hash: string)
    ensures Votes(replies, hash) <= Successes(replies)
  {
    if replies != [] {
      VotesNeedSuccess(replies[..|replies| - 1], hash);
    }
  }

  // ---------- the program ----------

  class CheckBlocks {
    var db: Store
    var topBlockHeight: nat
    var tempTopHeight: nat
    var tempTopHash: string
    var isRunning: bool

    constructor ()
      ensures db == Store(0, map[]) && topBlockHeight == 0 && !isRunning
    {
      db := Store(0, map[]);
      topBlockHeight, tempTopHeight, tempTopHash, isRunning := 0, 0, "", false;
    }

    method Init(readOk: bool)
      modifies this
      ensures db == old(db) && isRunning == old(isRunning)
      ensures topBlockHeight == Read(db, readOk) && tempTopHeight == 0 && tempTopHash == ""
    {
      topBlockHeight := db.top;
      if !readOk {
        topBlockHeight := 0;
      }
      tempTopHeight, tempTopHash := 0, "";
    }

    /** 1: the passes given do not end the call. */
    method ToCheck(env: Env) returns (code: int)
      modifies this
      ensures old(isRunning) ==> code == 0 && db == old(db) && isRunning
      ensures !old(isRunning) ==> db == Step(old(db), env) && !isRunning
      ensures !old(isRunning) ==> match CallOutcome(old(db), env)
        case Stop(c) => code == c
        case Commit(_) => code == 0
        case Looping => code == 1
    {
      if isRunning {
        return 0;
      }
      isRunning := true;
      Init(env.initReadOk);
      if !env.localTopOk {
        code := -1;
      } else if topBlockHeight == 0 && env.localTop < DEPTH {
        code := 0;
      } else if env.localTop < topBlockHeight + DEPTH {
        code := 0;
      } else {
        code := CheckLoop(env.rounds);
      }
      isRunning := false;
    }

    method CheckLoop(rounds: seq<Round>) returns (code: int)
      modifies this
      ensures topBlockHeight == old(topBlockHeight)
      ensures match LoopOutcome(old(db), old(topBlockHeight), rounds, 0)
        case Stop(c) => code == c && db == old(db)
        case Looping => code == 1 && db == old(db)
        case Commit(i) =>
          && code == 0 && i < |rounds|
          && db == Store(topBlockHeight + SPAN, old(db).hashes[topBlockHeight + SPAN := rounds[i].ownHash])
    {
      for i := 0 to |rounds|
        invariant db == old(db) && topBlockHeight == old(topBlockHeight)
        invariant LoopOutcome(db, topBlockHeight, rounds, 0) == LoopOutcome(db, topBlockHeight, rounds, i)
      {
        var r := rounds[i];
        if r.ownHash == "" {
          return -2;
        }
        tempTopHeight, tempTopHash := topBlockHeight + SPAN, r.ownHash;
        if r.error != 0 {
          return r.error;
        }
        var agreed;
        code, agreed := Consensus(r.replies, tempTopHash);
        if code != 0 {
          return;
        }
        if agreed {
          if !r.hashWritten {
            return -9;
          }
          var lastHeight := if r.lastReadOk then db.top else 0;
          if lastHeight != tempTopHeight - SPAN {
            return -10;
          }
          if !r.topWritten {
            return -11;
          }
          if !r.committed {
            return -12;
          }
          db := Store(tempTopHeight, db.hashes[tempTopHeight := tempTopHash]);
          return 0;
        }
      }
      return 1;
    }
  }
}
