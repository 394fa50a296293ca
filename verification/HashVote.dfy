/** Comparing block hashes with the peers before a sync (ca/sync_block.cpp,
    getSyncBlockHashVerification): a tally of who holds which block, then one verdict per block. */
module HashVote {
  import Orders
  import opened Ledger

  /** A block as the peers name it: its height and the first characters of its hash. */
  datatype Claim = Claim(height: nat, prefix: string)

  /** ok: the reply parses and carries code 0. Entries that do not split in two are left out already. */
  datatype Reply = Reply(ok: bool, node: string, claims: seq<Claim>)

  datatype Store = Store(hashesAt: map<nat, seq<string>>, blocks: map<string, Block>)

  type Tally = map<nat, map<string, set<string>>>

  const PREFIX_LENGTH := 8
  const ROLLBACK_AGE := 15_000_000

  /** The name under which the node itself votes for the blocks it holds. */
  const SELF := "temp"

  function Prefix(hash: string): string {
    if |hash| <= PREFIX_LENGTH then hash else hash[..PREFIX_LENGTH]
  }

  function HashesAt(store: Store, h: nat): seq<string> {
    if h in store.hashesAt then store.hashesAt[h] else []
  }

  predicate Local(store: Store, c: Claim) {
    exists i :: 0 <= i < |HashesAt(store, c.height)| && Prefix(HashesAt(store, c.height)[i]) == c.prefix
  }

  /** The peers that claim a block. */
  function Holders(replies: seq<Reply>, c: Claim): set<string> {
    set i | 0 <= i < |replies| && replies[i].ok && c in replies[i].claims :: replies[i].node
  }

  predicate ReportedHeight(replies: seq<Reply>, h: nat) {
    exists i, j :: 0 <= i < |replies| && replies[i].ok && 0 <= j < |replies[i].claims|
      && replies[i].claims[j].height == h
  }

  /** Peers, and the node itself where it holds a block at a height some peer reported. */
  function Voters(replies: seq<Reply>, store: Store, c: Claim): set<string> {
    Holders(replies, c) + if ReportedHeight(replies, c.height) && Local(store, c) then {SELF} else {}
  }

  /** The truncated 0.51 share of the replies and the node itself. */
  function QuorumSize(replies: seq<Reply>): nat {
    51 * (|replies| + 1) / 100
  }

  // ---------- the tally ----------

  function VotesFor(t: Tally, c: Claim): set<string> {
    if c.height in t && c.prefix in t[c.height] then t[c.height][c.prefix] else {}
  }

  predicate Listed(t: Tally, c: Claim) {
    c.height in t && c.prefix in t[c.height]
  }

  function Record(t: Tally, c: Claim, node: string): Tally {
    var row := if c.height in t then t[c.height] else map[];
    t[c.height := row[c.prefix := VotesFor(t, c) + {node}]]
  }

  lemma {:induction false} RecordAddsOneVote(t: Tally, c: Claim, node: string, d: Claim)
    ensures VotesFor(Record(t, c, node), d) == VotesFor(t, d) + if d == c then {node} else {}
    ensures Listed(Record(t, c, node), d) <==> Listed(t, d) || d == c
    ensures d.height in Record(t, c, node) <==> d.height in t || d.height == c.height
  {
  }

  /** The tally after the first i replies and the first j claims of the next. */
  ghost predicate Tallied(t: Tally, replies: seq<Reply>, i: nat, j: nat) {
    && i <= |replies| && (j > 0 ==> i < |replies| && replies[i].ok && j <= |replies[i].claims|)
    && (forall c :: VotesFor(t, c) == HoldersSoFar(replies, i, j, c))
    && (forall c :: Listed(t, c) <==> VotesFor(t, c) != {})
    && (forall h: nat :: h in t <==> HeightSoFar(replies, i, j, h))
  }

  function HoldersSoFar(replies: seq<Reply>, i: nat, j: nat, c: Claim): set<string>
    requires i <= |replies| && (j > 0 ==> i < |replies| && j <= |replies[i].claims|)
  {
    Holders(replies[..i], c) + if j > 0 && c in replies[i].claims[..j] then {replies[i].node} else {}
  }

  predicate HeightSoFar(replies: seq<Reply>, i: nat, j: nat, h: nat)
    requires i <= |replies| && (j > 0 ==> i < |replies| && j <= |replies[i].claims|)
  {
    ReportedHeight(replies[..i], h) || (j > 0 && exists k :: 0 <= k < j && replies[i].claims[k].height == h)
  }

  lemma {:induction false} TallyClaim(t: Tally, replies: seq<Reply>, i: nat, j: nat)
    requires Tallied(t, replies, i, j) && i < |replies| && replies[i].ok && j < |replies[i].claims|
    ensures Tallied(Record(t, replies[i].claims[j], replies[i].node), replies, i, j + 1)
  {
    var c, node := replies[i].claims[j], replies[i].node;
    var next := Record(t, c, node);
    assert replies[i].claims[..j + 1] == replies[i].claims[..j] + [c];
    forall d
      ensures VotesFor(next, d) == HoldersSoFar(replies, i, j + 1, d)
      ensures Listed(next, d) <==> VotesFor(next, d) != {}
    {
      RecordAddsOneVote(t, c, node, d);
    }
    forall h: nat ensures h in next <==> HeightSoFar(replies, i, j + 1, h) {
      RecordAddsOneVote(t, c, node, Claim(h, ""));
      assert h == c.height ==> replies[i].claims[j].height == h;
    }
  }

  lemma {:induction false} TallyReply(t: Tally, replies: seq<Reply>, i: nat, j: nat)
    requires Tallied(t, replies, i, j) && i < |replies| && j == (if replies[i].ok then |replies[i].claims| else 0)
    ensures Tallied(t, replies, i + 1, 0)
  {
    if j > 0 { assert replies[i].claims[..j] == replies[i].claims; }
    forall c ensures VotesFor(t, c) == HoldersSoFar(replies, i + 1, 0, c) {
    }
    forall h: nat ensures h in t <==> HeightSoFar(replies, i + 1, 0, h) {
    }
  }

  method TallyReplies(replies: seq<Reply>) returns (t: Tally)
    ensures forall c :: VotesFor(t, c) == Holders(replies, c)
    ensures forall c :: Listed(t, c) <==> VotesFor(t, c) != {}
    ensures forall h: nat :: h in t <==> ReportedHeight(replies, h)
  {
    t := map[];
    for i := 0 to |replies|
      invariant Tallied(t, replies, i, 0)
    {
      var n := if replies[i].ok then |replies[i].claims| else 0;
      for j := 0 to n
        invariant Tallied(t, replies, i, j)
      {
        TallyClaim(t, replies, i, j);
        t := Record(t, replies[i].claims[j], replies[i].node);
      }
      TallyReply(t, replies, i, n);
    }
    assert replies[..|replies|] == replies;
  }

  /** The node's own votes after the first i heights and the first j hashes of the next. */
  predicate OwnVote(store: Store, heights: seq<nat>, i: nat, j: nat, c: Claim)
    requires i <= |heights| && (j > 0 ==> i < |heights| && j <= |HashesAt(store, heights[i])|)
  {
    || (c.height in heights[..i] && Local(store, c))
    || (j > 0 && c.height == heights[i] && exists k :: 0 <= k < j && Prefix(HashesAt(store, c.height)[k]) == c.prefix)
  }

  ghost predicate WithOwn(t: Tally, replies: seq<Reply>, store: Store, heights: seq<nat>, i: nat, j: nat) {
    && i <= |heights| && (j > 0 ==> i < |heights| && j <= |HashesAt(store, heights[i])|)
    && (forall c :: VotesFor(t, c) == Holders(replies, c) + if OwnVote(store, heights, i, j, c) then {SELF} else {})
    && (forall c :: Listed(t, c) <==> VotesFor(t, c) != {})
    && (forall h: nat :: h in t <==> h in heights)
  }

  lemma {:induction false} RecordOwn(t: Tally, replies: seq<Reply>, store: Store, heights: seq<nat>, i: nat, j: nat)
    requires WithOwn(t, replies, store, heights, i, j) && i < |heights| && j < |HashesAt(store, heights[i])|
    ensures WithOwn(Record(t, Claim(heights[i], Prefix(HashesAt(store, heights[i])[j])), SELF),
                    replies, store, heights, i, j + 1)
  {
    var c := Claim(heights[i], Prefix(HashesAt(store, heights[i])[j]));
    var next := Record(t, c, SELF);
    forall d
      ensures VotesFor(next, d) == Holders(replies, d) + if OwnVote(store, heights, i, j + 1, d) then {SELF} else {}
      ensures Listed(next, d) <==> VotesFor(next, d) != {}
    {
      RecordAddsOneVote(t, c, SELF, d);
    }
    forall h: nat ensures h in next <==> h in heights {
      RecordAddsOneVote(t, c, SELF, Claim(h, ""));
    }
  }

  lemma {:induction false} NextHeightOwn(t: Tally, replies: seq<Reply>, store: Store, heights: seq<nat>, i: nat)
    requires i < |heights| && WithOwn(t, replies, store, heights, i, |HashesAt(store, heights[i])|)
    ensures WithOwn(t, replies, store, heights, i + 1, 0)
  {
    var n := |HashesAt(store, heights[i])|;
    forall c ensures OwnVote(store, heights, i, n, c) <==> OwnVote(store, heights, i + 1, 0, c) {
      assert heights[..i + 1] == heights[..i] + [heights[i]];
    }
  }

  method AddOwnVotes(tally: Tally, replies: seq<Reply>, store: Store, heights: seq<nat>) returns (t: Tally)
    requires forall c :: VotesFor(tally, c) == Holders(replies, c)
    requires forall c :: Listed(tally, c) <==> VotesFor(tally, c) != {}
    requires forall h: nat :: h in tally <==> h in heights
    requires forall h: nat :: h in heights <==> ReportedHeight(replies, h)
    ensures forall c :: VotesFor(t, c) == Voters(replies, store, c)
    ensures forall c :: Listed(t, c) <==> VotesFor(t, c) != {}
    ensures forall h: nat :: h in t <==> h in heights
  {
    t := tally;
    for i := 0 to |heights|
      invariant WithOwn(t, replies, store, heights, i, 0)
    {
      for j := 0 to |HashesAt(store, heights[i])|
        invariant WithOwn(t, replies, store, heights, i, j)
      {
        RecordOwn(t, replies, store, heights, i, j);
        t := Record(t, Claim(heights[i], Prefix(HashesAt(store, heights[i])[j])), SELF);
      }
      NextHeightOwn(t, replies, store, heights, i);
    }
    assert heights[..|heights|] == heights;
  }

  // ---------- one verdict per listed block ----------

  /** What the walk over the tally has collected. */
  datatype Verdict = Verdict(requests: seq<Claim>, nodeIds: set<string>, rollback: set<Block>)

  const NOTHING := Verdict([], {}, {})

  /** clock gives the time read when a block is judged. */
  datatype Setting = Setting(store: Store, quorum: nat, clock: Claim -> nat)

  function FirstMatch(hashes: seq<string>, prefix: string): string {
    if hashes == [] then ""
    else if Prefix(hashes[0]) == prefix then hashes[0]
    else FirstMatch(hashes[1..], prefix)
  }

  /** An ordered set of blocks holds one block per height and time: a later one is dropped. */
  function AddBlock(b: Block, rollback: set<Block>): set<Block> {
    if exists a :: a in rollback && a.height == b.height && a.time == b.time then rollback else rollback + {b}
  }

  predicate Expired(s: Setting, c: Claim) {
    var hash := FirstMatch(HashesAt(s.store, c.height), c.prefix);
    hash in s.store.blocks && s.store.blocks[hash].time + ROLLBACK_AGE < s.clock(c)
  }

  function Narrow(nodeIds: set<string>, votes: set<string>): set<string> {
    if nodeIds == {} then votes else nodeIds * votes
  }

  function Judge(s: Setting, c: Claim, votes: set<string>, v: Verdict): Verdict {
    if |votes| >= s.quorum then
      if Local(s.store, c) then v
      else Verdict(v.requests + [c], Narrow(v.nodeIds, votes), v.rollback)
    else if !Local(s.store, c) || !Expired(s, c) then v
    else v.(rollback := AddBlock(s.store.blocks[FirstMatch(HashesAt(s.store, c.height), c.prefix)], v.rollback))
  }

  function JudgeAll(s: Setting, t: Tally, cs: seq<Claim>): Verdict {
    if cs == [] then NOTHING
    else
      var n := |cs| - 1;
      Judge(s, cs[n], VotesFor(t, cs[n]), JudgeAll(s, t, cs[..n]))
  }

  function Row(h: nat, prefixes: seq<string>): seq<Claim> {
    seq(|prefixes|, i requires 0 <= i < |prefixes| => Claim(h, prefixes[i]))
  }

  /** The blocks of the given heights in the order of the two nested maps. */
  function Candidates(t: Tally, heights: seq<nat>): seq<Claim> {
    if heights == [] then []
    else
      var h := heights[|heights| - 1];
      Candidates(t, heights[..|heights| - 1]) + if h in t then Row(h, Orders.Ascending(t[h].Keys)) else []
  }

  lemma {:induction false} CandidatesAreListed(t: Tally, heights: seq<nat>, c: Claim)
    ensures c in Candidates(t, heights) <==> c.height in heights && Listed(t, c)
  {
    if heights != [] {
      var n := |heights| - 1;
      CandidatesAreListed(t, heights[..n], c);
      assert heights == heights[..n] + [heights[n]];
      if heights[n] in t {
        var prefixes := Orders.Ascending(t[heights[n]].Keys);
        var row := Row(heights[n], prefixes);
        assert c in row <==> c.height == heights[n] && c.prefix in prefixes by {
          if c.height == heights[n] && c.prefix in prefixes {
            var k :| 0 <= k < |prefixes| && prefixes[k] == c.prefix;
            assert row[k] == c;
          }
        }
      }
    }
  }

  /** The order of the nested maps: by height, then by prefix, nothing twice. */
  ghost predicate Precedes(a: Claim, b: Claim) {
    a.height < b.height || (a.height == b.height && a.prefix != b.prefix && Orders.Leq(a.prefix, b.prefix))
  }

  ghost predicate InOrder(cs: seq<Claim>) {
    forall i, j :: 0 <= i < j < |cs| ==> Precedes(cs[i], cs[j])
  }

  lemma {:induction false} CandidatesInOrder(t: Tally, heights: seq<nat>)
    requires forall i, j :: 0 <= i < j < |heights| ==> heights[i] < heights[j]
    ensures InOrder(Candidates(t, heights))
  {
    if heights != [] {
      var n := |heights| - 1;
      CandidatesInOrder(t, heights[..n]);
      var row := if heights[n] in t then Row(heights[n], Orders.Ascending(t[heights[n]].Keys)) else [];
      forall x, y | x in Candidates(t, heights[..n]) && y in row ensures Precedes(x, y) {
        CandidatesAreListed(t, heights[..n], x);
      }
    }
  }

  /** The requests keep the order of the walk, so none is listed twice. */
  lemma {:induction false} RequestsInOrder(s: Setting, t: Tally, cs: seq<Claim>)
    requires InOrder(cs)
    ensures InOrder(JudgeAll(s, t, cs).requests)
  {
    if cs != [] {
      var n := |cs| - 1;
      RequestsInOrder(s, t, cs[..n]);
      var before := JudgeAll(s, t, cs[..n]).requests;
      forall x, y | x in before && y in [cs[n]] ensures Precedes(x, y) {
        RequestsExact(s, t, cs[..n], x);
        var k :| 0 <= k < n && cs[..n][k] == x;
        assert cs[k] == x;
      }
    }
  }

  // ---------- what the walk collects ----------

  ghost predicate Requestable(s: Setting, t: Tally, c: Claim) {
    |VotesFor(t, c)| >= s.quorum && !Local(s.store, c)
  }

  ghost predicate ToRollBack(s: Setting, t: Tally, c: Claim) {
    |VotesFor(t, c)| < s.quorum && Local(s.store, c) && Expired(s, c)
  }

  /** The stored block a claim stands for. */
  function BlockOf(s: Setting, c: Claim): Block
    requires Expired(s, c)
  {
    s.store.blocks[FirstMatch(HashesAt(s.store, c.height), c.prefix)]
  }

  lemma {:induction false} RequestsExact(s: Setting, t: Tally, cs: seq<Claim>, c: Claim)
    ensures c in JudgeAll(s, t, cs).requests <==> c in cs && Requestable(s, t, c)
  {
    if cs != [] {
      var n := |cs| - 1;
      RequestsExact(s, t, cs[..n], c);
      assert cs == cs[..n] + [cs[n]];
    }
  }

  ghost predicate Condemned(s: Setting, t: Tally, cs: seq<Claim>, b: Block) {
    exists c :: c in cs && ToRollBack(s, t, c) && b == BlockOf(s, c)
  }

  ghost predicate Represented(rollback: set<Block>, b: Block) {
    exists a :: a in rollback && a.height == b.height && a.time == b.time
  }

  /** Only condemned blocks are rolled back, and each condemned block at least by a twin of its height and time. */
  lemma {:induction false} RollbackExact(s: Setting, t: Tally, cs: seq<Claim>, b: Block)
    ensures b in JudgeAll(s, t, cs).rollback ==> Condemned(s, t, cs, b)
    ensures Condemned(s, t, cs, b) ==> Represented(JudgeAll(s, t, cs).rollback, b)
  {
    if cs != [] {
      var n := |cs| - 1;
      RollbackExact(s, t, cs[..n], b);
      var before, after := JudgeAll(s, t, cs[..n]).rollback, JudgeAll(s, t, cs).rollback;
      if Represented(before, b) {
        var a :| a in before && a.height == b.height && a.time == b.time;
        assert a in after;
      }
      if ToRollBack(s, t, cs[n]) && b == BlockOf(s, cs[n]) {
        assert after == AddBlock(b, before);
        assert b in before + {b};
      }
    }
  }

  // ---------- who is asked for the requested blocks ----------

  /** The peer holds every one of the given blocks. */
  ghost predicate HoldsAll(replies: seq<Reply>, cs: seq<Claim>, node: string) {
    forall i :: 0 <= i < |cs| ==> node in Holders(replies, cs[i])
  }

  function NarrowAll(replies: seq<Reply>, cs: seq<Claim>): set<string> {
    if cs == [] then {} else Narrow(NarrowAll(replies, cs[..|cs| - 1]), Holders(replies, cs[|cs| - 1]))
  }

  /** The requested blocks are not local, so only peers vote for them. */
  ghost predicate PeersVote(s: Setting, t: Tally, replies: seq<Reply>) {
    forall c :: !Local(s.store, c) ==> VotesFor(t, c) == Holders(replies, c)
  }

  lemma {:induction false} NodesAreNarrowed(s: Setting, t: Tally, replies: seq<Reply>, cs: seq<Claim>)
    requires PeersVote(s, t, replies)
    ensures JudgeAll(s, t, cs).nodeIds == NarrowAll(replies, JudgeAll(s, t, cs).requests)
  {
    if cs != [] {
      var n := |cs| - 1;
      NodesAreNarrowed(s, t, replies, cs[..n]);
      var before := JudgeAll(s, t, cs[..n]).requests;
      assert (before + [cs[n]])[..|before|] == before;
    }
  }

  /** Anyone who holds all requested blocks stays in the running set. */
  lemma {:induction false} HoldersStay(replies: seq<Reply>, cs: seq<Claim>, node: string)
    requires cs != [] && HoldsAll(replies, cs, node)
    ensures node in NarrowAll(replies, cs)
  {
    var n := |cs| - 1;
    if n > 0 {
      assert HoldsAll(replies, cs[..n], node);
      HoldersStay(replies, cs[..n], node);
    }
  }

  /** The running set is never empty before the last block: the guard that starts it afresh fires once only. */
  ghost predicate NeverReseeded(replies: seq<Reply>, cs: seq<Claim>) {
    forall k :: 0 < k < |cs| ==> NarrowAll(replies, cs[..k]) != {}
  }

  lemma {:induction false} NarrowedHoldAll(replies: seq<Reply>, cs: seq<Claim>, node: string)
    requires cs != [] && NeverReseeded(replies, cs)
    ensures node in NarrowAll(replies, cs) <==> HoldsAll(replies, cs, node)
  {
    var n := |cs| - 1;
    if HoldsAll(replies, cs, node) {
      HoldersStay(replies, cs, node);
    }
    if n > 0 && node in NarrowAll(replies, cs) {
      forall k | 0 < k < n ensures NarrowAll(replies, cs[..n][..k]) != {} {
        assert cs[..n][..k] == cs[..k];
      }
      assert NarrowAll(replies, cs[..n]) != {};
      NarrowedHoldAll(replies, cs[..n], node);
      forall i | 0 <= i < |cs| ensures node in Holders(replies, cs[i]) {
        assert i < n ==> cs[..n][i] == cs[i];
      }
    }
  }

  ghost predicate NodesExact(replies: seq<Reply>, cs: seq<Claim>) {
    forall node :: node in NarrowAll(replies, cs) <==> HoldsAll(replies, cs, node)
  }

  lemma {:induction false} NeverReseededIsExact(replies: seq<Reply>, cs: seq<Claim>)
    requires cs != [] && NeverReseeded(replies, cs)
    ensures NodesExact(replies, cs)
  {
    forall node ensures node in NarrowAll(replies, cs) <==> HoldsAll(replies, cs, node) {
      NarrowedHoldAll(replies, cs, node);
    }
  }

  /** A peer that holds everything keeps the running set from emptying. */
  lemma {:induction false} HolderPreventsReseeding(replies: seq<Reply>, cs: seq<Claim>, node: string)
    requires HoldsAll(replies, cs, node)
    ensures NeverReseeded(replies, cs)
  {
    forall k | 0 < k < |cs| ensures NarrowAll(replies, cs[..k]) != {} {
      assert HoldsAll(replies, cs[..k], node);
      HoldersStay(replies, cs[..k], node);
    }
  }

  ghost predicate SomeoneHoldsAll(replies: seq<Reply>, cs: seq<Claim>) {
    exists node :: HoldsAll(replies, cs, node)
  }

  /** The running set is exact if and only if some peer holds everything or the set ends empty. A set that
      does not end empty is exact if and only if some peer holds everything, that is, if and only if it was
      never started afresh. */
  lemma {:induction false} NodesExactIff(replies: seq<Reply>, cs: seq<Claim>)
    requires cs != []
    ensures NodesExact(replies, cs) <==> SomeoneHoldsAll(replies, cs) || NarrowAll(replies, cs) == {}
    ensures NarrowAll(replies, cs) != {} ==> (NodesExact(replies, cs) <==> SomeoneHoldsAll(replies, cs))
    ensures NarrowAll(replies, cs) != {} ==> (SomeoneHoldsAll(replies, cs) <==> NeverReseeded(replies, cs))
    ensures SomeoneHoldsAll(replies, cs) ==> NarrowAll(replies, cs) != {}
  {
    if node :| HoldsAll(replies, cs, node) {
      HolderPreventsReseeding(replies, cs, node);
      NeverReseededIsExact(replies, cs);
      HoldersStay(replies, cs, node);
    } else if NarrowAll(replies, cs) != {} {
      var node :| node in NarrowAll(replies, cs);
      if NeverReseeded(replies, cs) { NarrowedHoldAll(replies, cs, node); }
    }
  }

  // ---------- the walk ----------

  /** The stored hash the node wants to look up for a rollback is empty. */
  predicate Nameless(s: Setting, votes: set<string>, c: Claim) {
    |votes| < s.quorum && Local(s.store, c) && FirstMatch(HashesAt(s.store, c.height), c.prefix) == ""
  }

  /** -6: the block to look up is nameless. */
  method JudgeOne(s: Setting, c: Claim, votes: set<string>, before: Verdict) returns (ret: int, v: Verdict)
    ensures ret == if Nameless(s, votes, c) then -6 else 0
    ensures ret == 0 ==> v == Judge(s, c, votes, before)
  {
    v := before;
    if |votes| >= s.quorum {
      if Local(s.store, c) {
        return 0, v;
      }
      v := Verdict(v.requests + [c], Narrow(v.nodeIds, votes), v.rollback);
    } else {
      if !Local(s.store, c) {
        return 0, v;
      }
      var hash := FirstMatch(HashesAt(s.store, c.height), c.prefix);
      if hash == "" {
        return -6, v;
      }
      if hash in s.store.blocks && s.store.blocks[hash].time + ROLLBACK_AGE < s.clock(c) {
        v := v.(rollback := AddBlock(s.store.blocks[hash], v.rollback));
      }
    }
    return 0, v;
  }

  lemma {:induction false} MatchIsLocal(hashes: seq<string>, prefix: string)
    requires exists i :: 0 <= i < |hashes| && Prefix(hashes[i]) == prefix
    ensures FirstMatch(hashes, prefix) in hashes && Prefix(FirstMatch(hashes, prefix)) == prefix
  {
    if Prefix(hashes[0]) != prefix {
      var i :| 0 <= i < |hashes| && Prefix(hashes[i]) == prefix;
      assert hashes[1..][i - 1] == hashes[i];
      MatchIsLocal(hashes[1..], prefix);
    }
  }

  /** Only the empty prefix can be nameless. */
  lemma {:induction false} NamelessIsEmpty(s: Setting, votes: set<string>, c: Claim)
    requires Nameless(s, votes, c)
    ensures c.prefix == "" && "" in HashesAt(s.store, c.height)
  {
    MatchIsLocal(HashesAt(s.store, c.height), c.prefix);
  }

  lemma {:induction false} JudgeNext(s: Setting, t: Tally, done: seq<Claim>, h: nat, prefixes: seq<string>, j: nat)
    requires j < |prefixes|
    ensures JudgeAll(s, t, done + Row(h, prefixes[..j + 1]))
         == Judge(s, Claim(h, prefixes[j]), VotesFor(t, Claim(h, prefixes[j])),
                   JudgeAll(s, t, done + Row(h, prefixes[..j])))
  {
    var cs, c := done + Row(h, prefixes[..j]), Claim(h, prefixes[j]);
    assert done + Row(h, prefixes[..j + 1]) == cs + [c];
    assert (cs + [c])[..|cs|] == cs;
  }

  /** Some listed block of the height is nameless. */
  predicate Broken(s: Setting, t: Tally, h: nat) {
    Listed(t, Claim(h, "")) && Nameless(s, VotesFor(t, Claim(h, "")), Claim(h, ""))
  }

  /** The loop over a row meets the nameless block where its prefix is empty. */
  lemma {:induction false} BrokenAt(s: Setting, t: Tally, h: nat, prefix: string)
    requires h in t && prefix in t[h]
    ensures Nameless(s, t[h][prefix], Claim(h, prefix)) <==> prefix == "" && Broken(s, t, h)
  {
    if Nameless(s, t[h][prefix], Claim(h, prefix)) {
      NamelessIsEmpty(s, t[h][prefix], Claim(h, prefix));
    }
  }

  method JudgeRow(s: Setting, t: Tally, h: nat, ghost done: seq<Claim>, before: Verdict) returns (ret: int, v: Verdict)
    requires h in t && before == JudgeAll(s, t, done)
    ensures ret == if Broken(s, t, h) then -6 else 0
    ensures ret == 0 ==> v == JudgeAll(s, t, done + Row(h, Orders.Ascending(t[h].Keys)))
  {
    var prefixes := Orders.Ascending(t[h].Keys);
    assert forall p :: p in prefixes <==> p in t[h];
    ret, v := JudgePrefixes(s, t, h, prefixes, done, before);
  }

  method JudgePrefixes(s: Setting, t: Tally, h: nat, prefixes: seq<string>, ghost done: seq<Claim>, before: Verdict)
    returns (ret: int, v: Verdict)
    requires h in t && before == JudgeAll(s, t, done)
    requires forall p :: p in prefixes <==> p in t[h]
    ensures ret == if Broken(s, t, h) then -6 else 0
    ensures ret == 0 ==> v == JudgeAll(s, t, done + Row(h, prefixes))
  {
    v := before;
    assert done + Row(h, prefixes[..0]) == done;
    for j := 0 to |prefixes|
      invariant v == JudgeAll(s, t, done + Row(h, prefixes[..j]))
      invariant Broken(s, t, h) ==> "" !in prefixes[..j]
    {
      assert prefixes[j] in prefixes && prefixes[..j + 1] == prefixes[..j] + [prefixes[j]];
      BrokenAt(s, t, h, prefixes[j]);
      JudgeNext(s, t, done, h, prefixes, j);
      ret, v := JudgeOne(s, Claim(h, prefixes[j]), t[h][prefixes[j]], v);
      if ret != 0 {
        return;
      }
    }
    assert prefixes[..|prefixes|] == prefixes;
    ret := 0;
  }

  lemma {:induction false} CandidatesNext(t: Tally, heights: seq<nat>, i: nat)
    requires i < |heights| && heights[i] in t
    ensures Candidates(t, heights[..i + 1])
        == Candidates(t, heights[..i]) + Row(heights[i], Orders.Ascending(t[heights[i]].Keys))
  {
    assert heights[..i + 1][..i] == heights[..i];
  }

  /** The walk passes a height. */
  predicate Clear(s: Setting, t: Tally, failing: set<nat>, h: nat) {
    h !in failing && !Broken(s, t, h)
  }

  /** All heights before the i-th are passed. */
  ghost predicate Arrives(s: Setting, t: Tally, failing: set<nat>, heights: seq<nat>, i: nat) {
    i < |heights| && forall k :: 0 <= k < i ==> Clear(s, t, failing, heights[k])
  }

  /** How the walk ends from the i-th height on. -5: the node's hashes there cannot be read again; -6: a
      block there is nameless. */
  function WalkCode(s: Setting, t: Tally, failing: set<nat>, heights: seq<nat>, i: nat): int
    requires i <= |heights|
    decreases |heights| - i
  {
    if i == |heights| then 0
    else if heights[i] in failing then -5
    else if Broken(s, t, heights[i]) then -6
    else WalkCode(s, t, failing, heights, i + 1)
  }

  /** The walk ends at the first height it cannot pass. */
  lemma {:induction false} WalkCodeAt(s: Setting, t: Tally, failing: set<nat>, heights: seq<nat>, i: nat, stop: nat)
    requires i <= stop < |heights| && !Clear(s, t, failing, heights[stop])
    requires forall k :: i <= k < stop ==> Clear(s, t, failing, heights[k])
    ensures WalkCode(s, t, failing, heights, i) == if heights[stop] in failing then -5 else -6
    decreases stop - i
  {
    if i < stop {
      assert Clear(s, t, failing, heights[i]);
      WalkCodeAt(s, t, failing, heights, i + 1, stop);
    }
  }

  lemma {:induction false} WalkCodeStops(s: Setting, t: Tally, failing: set<nat>, heights: seq<nat>, i: nat)
    returns (stop: nat)
    requires i <= |heights| && WalkCode(s, t, failing, heights, i) != 0
    requires forall k :: 0 <= k < i ==> Clear(s, t, failing, heights[k])
    ensures Arrives(s, t, failing, heights, stop) && !Clear(s, t, failing, heights[stop])
    decreases |heights| - i
  {
    if Clear(s, t, failing, heights[i]) {
      stop := WalkCodeStops(s, t, failing, heights, i + 1);
    } else {
      stop := i;
    }
  }

  lemma {:induction false} WalkCodeMeans(s: Setting, t: Tally, failing: set<nat>, heights: seq<nat>, code: int)
    requires code == WalkCode(s, t, failing, heights, 0)
    ensures code == 0 || code == -5 || code == -6
    ensures code == 0 <==> forall k :: 0 <= k < |heights| ==> Clear(s, t, failing, heights[k])
    ensures code == -5 <==> exists i: nat :: Arrives(s, t, failing, heights, i) && heights[i] in failing
    ensures code == -6
        <==> exists i: nat :: Arrives(s, t, failing, heights, i) && heights[i] !in failing && Broken(s, t, heights[i])
  {
    forall i: nat | Arrives(s, t, failing, heights, i) && !Clear(s, t, failing, heights[i])
      ensures code == if heights[i] in failing then -5 else -6
    {
      WalkCodeAt(s, t, failing, heights, 0, i);
    }
    if code != 0 {
      var stop := WalkCodeStops(s, t, failing, heights, 0);
      assert code == if heights[stop] in failing then -5 else -6;
    } else {
      AllClear(s, t, failing, heights, 0);
    }
  }

  lemma {:induction false} AllClear(s: Setting, t: Tally, failing: set<nat>, heights: seq<nat>, i: nat)
    requires i <= |heights| && WalkCode(s, t, failing, heights, i) == 0
    ensures forall k :: i <= k < |heights| ==> Clear(s, t, failing, heights[k])
    decreases |heights| - i
  {
    if i < |heights| {
      AllClear(s, t, failing, heights, i + 1);
    }
  }

  method Walk(s: Setting, t: Tally, heights: seq<nat>, failing: set<nat>) returns (ret: int, v: Verdict)
    requires forall i :: 0 <= i < |heights| ==> heights[i] in t
    ensures ret == WalkCode(s, t, failing, heights, 0)
    ensures ret == 0 ==> v == JudgeAll(s, t, Candidates(t, heights))
  {
    v := NOTHING;
    for i := 0 to |heights|
      invariant v == JudgeAll(s, t, Candidates(t, heights[..i]))
      invariant WalkCode(s, t, failing, heights, 0) == WalkCode(s, t, failing, heights, i)
    {
      if heights[i] in failing {
        return -5, v;
      }
      CandidatesNext(t, heights, i);
      ret, v := JudgeRow(s, t, heights[i], Candidates(t, heights[..i]), v);
      if ret != 0 {
        return;
      }
    }
    assert heights[..|heights|] == heights;
    ret := 0;
  }

  // ---------- the whole comparison ----------

  /** A stored block at a reported height that too few vote for and that is older than the age limit. */
  ghost predicate Stale(replies: seq<Reply>, s: Setting, c: Claim) {
    ReportedHeight(replies, c.height) && |Voters(replies, s.store, c)| < s.quorum && Local(s.store, c) && Expired(s, c)
  }

  ghost predicate Wanted(replies: seq<Reply>, s: Setting, c: Claim) {
    Holders(replies, c) != {} && |Holders(replies, c)| >= s.quorum && !Local(s.store, c)
  }

  ghost predicate IsFinalTally(t: Tally, replies: seq<Reply>, store: Store) {
    && (forall c :: VotesFor(t, c) == Voters(replies, store, c))
    && (forall c :: Listed(t, c) <==> VotesFor(t, c) != {})
  }

  lemma {:induction false} RequestsAreWanted(s: Setting, t: Tally, heights: seq<nat>, replies: seq<Reply>, c: Claim)
    requires IsFinalTally(t, replies, s.store) && forall h: nat :: h in t ==> h in heights
    ensures c in JudgeAll(s, t, Candidates(t, heights)).requests <==> Wanted(replies, s, c)
  {
    RequestsExact(s, t, Candidates(t, heights), c);
    CandidatesAreListed(t, heights, c);
    assert VotesFor(t, c) == Voters(replies, s.store, c);
  }

  lemma {:induction false} StaleIsToRollBack(s: Setting, t: Tally, heights: seq<nat>, replies: seq<Reply>, c: Claim)
    requires IsFinalTally(t, replies, s.store) && forall h: nat :: h in heights <==> ReportedHeight(replies, h)
    ensures c in Candidates(t, heights) && ToRollBack(s, t, c) <==> Stale(replies, s, c)
  {
    CandidatesAreListed(t, heights, c);
    assert VotesFor(t, c) == Voters(replies, s.store, c);
  }

  lemma {:induction false} RolledBackAreStale(s: Setting, t: Tally, heights: seq<nat>, replies: seq<Reply>, b: Block)
    requires IsFinalTally(t, replies, s.store) && forall h: nat :: h in heights <==> ReportedHeight(replies, h)
    ensures b in JudgeAll(s, t, Candidates(t, heights)).rollback
        ==> exists c :: Stale(replies, s, c) && b == BlockOf(s, c)
    ensures (exists c :: Stale(replies, s, c) && b == BlockOf(s, c))
        ==> Represented(JudgeAll(s, t, Candidates(t, heights)).rollback, b)
  {
    var cs := Candidates(t, heights);
    RollbackExact(s, t, cs, b);
    if Condemned(s, t, cs, b) {
      var c :| c in cs && ToRollBack(s, t, c) && b == BlockOf(s, c);
      StaleIsToRollBack(s, t, heights, replies, c);
    }
    if exists c :: Stale(replies, s, c) && b == BlockOf(s, c) {
      var c :| Stale(replies, s, c) && b == BlockOf(s, c);
      StaleIsToRollBack(s, t, heights, replies, c);
      assert Condemned(s, t, cs, b);
    }
  }

  /** Requested, in order: exactly the blocks a quorum of peers holds and the node does not. Rolled back: only stale
      stored blocks, and every stale one or a twin of its height and time. nodes: the peers to ask. */
  ghost predicate IsVerdict(replies: seq<Reply>, s: Setting, requests: seq<Claim>, nodes: set<string>,
                            rollback: set<Block>)
  {
    && (forall c :: c in requests <==> Wanted(replies, s, c))
    && (forall b :: b in rollback ==> exists c :: Stale(replies, s, c) && b == BlockOf(s, c))
    && (forall c :: Stale(replies, s, c) ==> Represented(rollback, BlockOf(s, c)))
    && nodes == NarrowAll(replies, requests) - {SELF} && InOrder(requests)
  }

  predicate SomeFails(replies: seq<Reply>, failing: set<nat>) {
    exists h :: h in failing && ReportedHeight(replies, h)
  }

  /** At a reported height the node would have to roll back a block whose stored hash is empty. */
  ghost predicate Unnamed(replies: seq<Reply>, s: Setting, h: nat) {
    Nameless(s, Voters(replies, s.store, Claim(h, "")), Claim(h, ""))
  }

  ghost predicate Passes(replies: seq<Reply>, s: Setting, failing: set<nat>, h: nat) {
    h !in failing && !Unnamed(replies, s, h)
  }

  /** The comparison gets as far as this reported height: all lower ones can be read again and are named. */
  ghost predicate Reaches(replies: seq<Reply>, s: Setting, failing: set<nat>, h: nat) {
    && ReportedHeight(replies, h)
    && forall g: nat :: g < h && ReportedHeight(replies, g) ==> Passes(replies, s, failing, g)
  }

  /** -4 and -5: the node's hashes at a reported height cannot be read, at first or again; -6: a block to roll
      back is unnamed. The last two are met in order of height. */
  method GetSyncBlockHashVerification(replies: seq<Reply>, store: Store, clock: Claim -> nat, failing: set<nat>,
                                      failingAgain: set<nat>)
    returns (ret: int, requests: seq<Claim>, nodes: set<string>, rollback: set<Block>)
    ensures ret == -4 || ret == -5 || ret == -6 || ret == 0
    ensures ret == -4 <==> SomeFails(replies, failing)
    ensures var s := Setting(store, QuorumSize(replies), clock);
      && (ret == -5 <==> ret != -4 && exists h: nat :: Reaches(replies, s, failingAgain, h) && h in failingAgain)
      && (ret == -6 <==>
        ret != -4 && exists h: nat ::
          Reaches(replies, s, failingAgain, h) && h !in failingAgain && Unnamed(replies, s, h))
    ensures ret != 0 ==> requests == [] && nodes == {} && rollback == {}
    ensures ret == 0 ==> !SomeFails(replies, failingAgain)
    ensures ret == 0 ==> IsVerdict(replies, Setting(store, QuorumSize(replies), clock), requests, nodes, rollback)
  {
    requests, nodes, rollback := [], {}, {};
    var t := TallyReplies(replies);
    var heights := Orders.AscendingNats(t.Keys);
    assert forall h: nat :: h in heights <==> ReportedHeight(replies, h);
    var unreadable := MeetsAny(heights, failing);
    if unreadable {
      return -4, [], {}, {};
    }
    ret, requests, nodes, rollback :=
      Compare(Setting(store, QuorumSize(replies), clock), t, heights, replies, failingAgain);
  }

  method MeetsAny(heights: seq<nat>, failing: set<nat>) returns (found: bool)
    ensures found <==> exists h :: h in failing && h in heights
  {
    for i := 0 to |heights|
      invariant forall k :: 0 <= k < i ==> heights[k] !in failing
    {
      if heights[i] in failing {
        return true;
      }
    }
    return false;
  }

  method Compare(s: Setting, tally: Tally, heights: seq<nat>, replies: seq<Reply>, failing: set<nat>)
    returns (ret: int, requests: seq<Claim>, nodes: set<string>, rollback: set<Block>)
    requires forall c :: VotesFor(tally, c) == Holders(replies, c)
    requires forall c :: Listed(tally, c) <==> VotesFor(tally, c) != {}
    requires forall h: nat :: h in tally <==> h in heights
    requires forall h: nat :: h in heights <==> ReportedHeight(replies, h)
    requires forall i, j :: 0 <= i < j < |heights| ==> heights[i] < heights[j]
    ensures ret == -5 || ret == -6 || ret == 0
    ensures ret == -5 <==> exists h: nat :: Reaches(replies, s, failing, h) && h in failing
    ensures ret == -6 <==> exists h: nat :: Reaches(replies, s, failing, h) && h !in failing && Unnamed(replies, s, h)
    ensures ret != 0 ==> requests == [] && nodes == {} && rollback == {}
    ensures ret == 0 ==> !SomeFails(replies, failing)
    ensures ret == 0 ==> IsVerdict(replies, s, requests, nodes, rollback)
  {
    requests, nodes, rollback := [], {}, {};
    var t := AddOwnVotes(tally, replies, s.store, heights);
    var v;
    ret, v := Walk(s, t, heights, failing);
    WalkCodeMeans(s, t, failing, heights, ret);
    WalkStopsAsReached(s, t, heights, replies, failing);
    if ret != 0 {
      return;
    }
    requests, nodes, rollback := v.requests, v.nodeIds - {SELF}, v.rollback;
    WalkGivesVerdict(s, t, heights, replies, v);
  }

  lemma {:induction false} ClearIffPasses(s: Setting, t: Tally, heights: seq<nat>, replies: seq<Reply>,
                                          failing: set<nat>, k: nat)
    requires IsFinalTally(t, replies, s.store) && forall h: nat :: h in heights <==> ReportedHeight(replies, h)
    requires k < |heights|
    ensures ReportedHeight(replies, heights[k])
    ensures Clear(s, t, failing, heights[k]) <==> Passes(replies, s, failing, heights[k])
  {
    assert heights[k] in heights;
  }

  lemma {:induction false} ReachingArrives(s: Setting, t: Tally, heights: seq<nat>, replies: seq<Reply>,
                                           failing: set<nat>, i: nat)
    requires IsFinalTally(t, replies, s.store) && forall h: nat :: h in heights <==> ReportedHeight(replies, h)
    requires forall i, j :: 0 <= i < j < |heights| ==> heights[i] < heights[j]
    requires i < |heights| && Reaches(replies, s, failing, heights[i])
    ensures Arrives(s, t, failing, heights, i)
  {
    forall k | 0 <= k < i ensures Clear(s, t, failing, heights[k]) {
      ClearIffPasses(s, t, heights, replies, failing, k);
    }
  }

  lemma {:induction false} WalkStopsAsReached(s: Setting, t: Tally, heights: seq<nat>, replies: seq<Reply>,
                                              failing: set<nat>)
    requires IsFinalTally(t, replies, s.store) && forall h: nat :: h in heights <==> ReportedHeight(replies, h)
    requires forall i, j :: 0 <= i < j < |heights| ==> heights[i] < heights[j]
    ensures (exists i: nat :: Arrives(s, t, failing, heights, i) && heights[i] in failing)
       <==> (exists h: nat :: Reaches(replies, s, failing, h) && h in failing)
    ensures (exists i: nat :: Arrives(s, t, failing, heights, i) && heights[i] !in failing && Broken(s, t, heights[i]))
       <==> (exists h: nat :: Reaches(replies, s, failing, h) && h !in failing && Unnamed(replies, s, h))
    ensures (forall k :: 0 <= k < |heights| ==> Clear(s, t, failing, heights[k])) ==> !SomeFails(replies, failing)
  {
    forall i: nat | i < |heights|
      ensures Arrives(s, t, failing, heights, i) <==> Reaches(replies, s, failing, heights[i])
      ensures Broken(s, t, heights[i]) <==> Unnamed(replies, s, heights[i])
    {
      if Reaches(replies, s, failing, heights[i]) { ReachingArrives(s, t, heights, replies, failing, i); }
      assert heights[i] in heights;
    }
    forall h: nat | ReportedHeight(replies, h) ensures exists i: nat :: i < |heights| && heights[i] == h {
      assert h in heights;
    }
  }

  lemma {:induction false} WalkGivesVerdict(s: Setting, t: Tally, heights: seq<nat>, replies: seq<Reply>, v: Verdict)
    requires IsFinalTally(t, replies, s.store) && forall h: nat :: h in t <==> h in heights
    requires forall h: nat :: h in heights <==> ReportedHeight(replies, h)
    requires forall i, j :: 0 <= i < j < |heights| ==> heights[i] < heights[j]
    requires v == JudgeAll(s, t, Candidates(t, heights))
    ensures IsVerdict(replies, s, v.requests, v.nodeIds - {SELF}, v.rollback)
  {
    NodesAreNarrowed(s, t, replies, Candidates(t, heights));
    CandidatesInOrder(t, heights);
    RequestsInOrder(s, t, Candidates(t, heights));
    forall c ensures c in v.requests <==> Wanted(replies, s, c) {
      RequestsAreWanted(s, t, heights, replies, c);
    }
    forall b ensures b in v.rollback ==> exists c :: Stale(replies, s, c) && b == BlockOf(s, c) {
      RolledBackAreStale(s, t, heights, replies, b);
    }
    forall c | Stale(replies, s, c) ensures Represented(v.rollback, BlockOf(s, c)) {
      RolledBackAreStale(s, t, heights, replies, BlockOf(s, c));
    }
  }

  /** A block is stored at the height under the first eight characters of its hash. */
  ghost predicate StoredAs(store: Store, c: Claim, hash: string) {
    c.height in store.hashesAt && hash in store.hashesAt[c.height]
      && c.prefix == (if |hash| <= 8 then hash else hash[..8])
  }

  /** The peers whose successful replies name the block. */
  ghost predicate Names(replies: seq<Reply>, c: Claim, node: string) {
    exists i :: 0 <= i < |replies| && replies[i].ok && c in replies[i].claims && replies[i].node == node
  }

  lemma {:induction false} LocalIffStored(store: Store, c: Claim)
    ensures Local(store, c) <==> exists hash :: StoredAs(store, c, hash)
  {
    if i :| 0 <= i < |HashesAt(store, c.height)| && Prefix(HashesAt(store, c.height)[i]) == c.prefix {
      assert StoredAs(store, c, HashesAt(store, c.height)[i]);
    }
    if hash :| StoredAs(store, c, hash) {
      var i :| 0 <= i < |HashesAt(store, c.height)| && HashesAt(store, c.height)[i] == hash;
    }
  }

  /** What a verdict asks for: a block is requested exactly when the node holds no block of that height and prefix,
      and the peers that name it are at least one and at least the truncated 51% of the replies and the node. */
  lemma {:induction false} RequestedIff(replies: seq<Reply>, s: Setting, requests: seq<Claim>, nodes: set<string>,
                                        rollback: set<Block>, c: Claim, who: set<string>)
    requires s.quorum == QuorumSize(replies) && IsVerdict(replies, s, requests, nodes, rollback)
    requires forall node :: node in who <==> Names(replies, c, node)
    ensures c in requests <==>
      && who != {} && 100 * (|who| + 1) > 51 * (|replies| + 1) && forall hash :: !StoredAs(s.store, c, hash)
  {
    LocalIffStored(s.store, c);
    assert who == Holders(replies, c);
  }

  /** What is rolled back is stored under its claim, older than fifteen seconds, and named by fewer than that share,
      the node counted. */
  lemma {:induction false} RolledBackOnlyIf(replies: seq<Reply>, s: Setting, requests: seq<Claim>, nodes: set<string>,
                                            rollback: set<Block>, b: Block) returns (c: Claim, hash: string)
    requires s.quorum == QuorumSize(replies) && IsVerdict(replies, s, requests, nodes, rollback) && b in rollback
    ensures StoredAs(s.store, c, hash) && hash in s.store.blocks && s.store.blocks[hash] == b
    ensures b.time + 15_000_000 < s.clock(c)
    ensures 100 * (|Holders(replies, c) + {SELF}| + 1) <= 51 * (|replies| + 1)
  {
    c :| Stale(replies, s, c) && b == BlockOf(s, c);
    hash := FirstMatch(HashesAt(s.store, c.height), c.prefix);
    FirstMatchIsStored(HashesAt(s.store, c.height), c.prefix);
  }

  /** The other way, with distinct prefixes at a height: a stored block of a reported height that is older than fifteen
      seconds and named by fewer than that share is rolled back, or a twin of its height and time is. */
  lemma {:induction false} RolledBackIf(replies: seq<Reply>, s: Setting, requests: seq<Claim>, nodes: set<string>,
                                        rollback: set<Block>, h: nat, k: nat)
    requires s.quorum == QuorumSize(replies) && IsVerdict(replies, s, requests, nodes, rollback)
    requires h in s.store.hashesAt && k < |s.store.hashesAt[h]| && s.store.hashesAt[h][k] in s.store.blocks
    requires UniquePrefixes(s.store.hashesAt[h])
    requires ReportedHeight(replies, h)
    ensures var hash := s.store.hashesAt[h][k]; var b, c := s.store.blocks[hash], Claim(h, Prefix(hash));
      100 * (|Holders(replies, c) + {SELF}| + 1) <= 51 * (|replies| + 1) && b.time + 15_000_000 < s.clock(c) ==>
        exists x :: x in rollback && x.height == b.height && x.time == b.time
  {
    assert HashesAt(s.store, h) == s.store.hashesAt[h];
    EveryStaleBlockIsJudged(replies, s, h, k);
    var hash := s.store.hashesAt[h][k];
    var c := Claim(h, Prefix(hash));
    if Stale(replies, s, c) { assert Represented(rollback, BlockOf(s, c)); }
  }

  lemma {:induction false} FirstMatchIsStored(hashes: seq<string>, prefix: string)
    requires exists i :: 0 <= i < |hashes| && Prefix(hashes[i]) == prefix
    ensures FirstMatch(hashes, prefix) in hashes && Prefix(FirstMatch(hashes, prefix)) == prefix
  {
    if Prefix(hashes[0]) != prefix {
      var i :| 0 <= i < |hashes| && Prefix(hashes[i]) == prefix;
      assert hashes[1..][i - 1] == hashes[i];
      FirstMatchIsStored(hashes[1..], prefix);
    }
  }

  // ---------- starting afresh ----------

  lemma {:induction false} HoldersOfTwo(replies: seq<Reply>, c: Claim)
    requires |replies| == 2 && replies[0].ok && replies[1].ok
    ensures Holders(replies, c) == (if c in replies[0].claims then {replies[0].node} else {})
                                 + (if c in replies[1].claims then {replies[1].node} else {})
  {
    assert c in replies[0].claims ==> replies[0].node in Holders(replies, c);
    assert c in replies[1].claims ==> replies[1].node in Holders(replies, c);
  }

  /** No stored block, one vote is the quorum: every claimed block is requested, and none is rolled back. */
  lemma {:induction false} TwoRepliesVerdict(replies: seq<Reply>, s: Setting, cs: seq<Claim>)
    requires |replies| == 2 && replies[0].ok && replies[1].ok && s.store == Store(map[], map[]) && s.quorum == 1
    requires InOrder(cs) && forall c :: c in cs <==> c in replies[0].claims || c in replies[1].claims
    ensures IsVerdict(replies, s, cs, NarrowAll(replies, cs) - {SELF}, {})
  {
    forall c ensures c in cs <==> Wanted(replies, s, c) {
      HoldersOfTwo(replies, c);
    }
  }

  lemma {:induction false} MisleadingNarrowing(replies: seq<Reply>, a: Claim, b: Claim, c: Claim)
    requires replies == [Reply(true, "alice", [a, c]), Reply(true, "bob", [b])] && a != b && b != c
    ensures NarrowAll(replies, [a, b, c]) == {"alice"} && "alice" !in Holders(replies, b)
    ensures |Holders(replies, a)| >= 1 && |Holders(replies, b)| >= 1 && |Holders(replies, c)| >= 1
  {
    var cs := [a, b, c];
    HoldersOfTwo(replies, a);
    HoldersOfTwo(replies, b);
    HoldersOfTwo(replies, c);
    assert cs[..2] == [a, b] && [a, b][..1] == [a] && [a][..0] == [];
    assert NarrowAll(replies, []) == {};
    assert NarrowAll(replies, [a]) == {"alice"};
    assert "alice"[0] != "bob"[0] && NarrowAll(replies, [a, b]) == {};
  }

  /** Two peers, three blocks that are all requested: the one peer left to ask does not hold the second. */
  lemma {:induction false} StartingAfreshMisleads(clock: Claim -> nat) returns (replies: seq<Reply>, cs: seq<Claim>)
    ensures |cs| == 3 && forall i :: 0 <= i < 3 ==> |Holders(replies, cs[i])| >= QuorumSize(replies)
    ensures IsVerdict(replies, Setting(Store(map[], map[]), QuorumSize(replies), clock), cs, {"alice"}, {})
    ensures NarrowAll(replies, cs) == {"alice"} && !HoldsAll(replies, cs, "alice")
  {
    var a, b, c := Claim(7, "a"), Claim(7, "b"), Claim(7, "c");
    replies := [Reply(true, "alice", [a, c]), Reply(true, "bob", [b])];
    cs := [a, b, c];
    MisleadingNarrowing(replies, a, b, c);
    assert "alice" !in Holders(replies, cs[1]);
    NamesInOrder(a, b, c);
    TwoRepliesVerdict(replies, Setting(Store(map[], map[]), QuorumSize(replies), clock), cs);
    AliceIsNotTheNode();
  }

  lemma {:induction false} NamesInOrder(a: Claim, b: Claim, c: Claim)
    requires a == Claim(7, "a") && b == Claim(7, "b") && c == Claim(7, "c")
    ensures InOrder([a, b, c])
  {
    assert Precedes(a, b) && Precedes(b, c) && Precedes(a, c);
  }

  lemma {:induction false} AliceIsNotTheNode()
    ensures {"alice"} - {SELF} == {"alice"}
  {
    assert "temp"[0] != "alice"[0];
  }

  // ---------- what the caller can rely on ----------

  /** Hashes name their blocks, and the height index agrees with them. */
  ghost predicate Consistent(store: Store) {
    forall h: nat, x :: x in HashesAt(store, h) && x in store.blocks
      ==> store.blocks[x].hash == x && store.blocks[x].height == h
  }

  ghost predicate UniquePrefixes(hashes: seq<string>) {
    forall i, j :: 0 <= i < j < |hashes| ==> Prefix(hashes[i]) != Prefix(hashes[j])
  }

  /** A stale block is stored, below the quorum and past the age limit under its own name, and so never requested. */
  lemma {:induction false} RolledBackNeverRequested(replies: seq<Reply>, s: Setting, c: Claim)
    requires Consistent(s.store) && Stale(replies, s, c)
    ensures var b := BlockOf(s, c);
      && c == Claim(b.height, Prefix(b.hash)) && b.hash in HashesAt(s.store, b.height)
      && |Voters(replies, s.store, c)| < s.quorum && b.time + ROLLBACK_AGE < s.clock(c)
      && !Wanted(replies, s, Claim(b.height, Prefix(b.hash)))
  {
    MatchIsLocal(HashesAt(s.store, c.height), c.prefix);
  }

  /** With distinct prefixes at a height, a claim stands for the one stored block it names. */
  lemma {:induction false} ClaimNamesItsBlock(hashes: seq<string>, k: nat)
    requires UniquePrefixes(hashes) && k < |hashes|
    ensures FirstMatch(hashes, Prefix(hashes[k])) == hashes[k]
  {
    if k > 0 {
      assert hashes[1..][k - 1] == hashes[k];
      assert UniquePrefixes(hashes[1..]);
      ClaimNamesItsBlock(hashes[1..], k - 1);
    }
  }

  /** With distinct prefixes, every stored block below the quorum and past the age limit is judged stale. */
  lemma {:induction false} EveryStaleBlockIsJudged(replies: seq<Reply>, s: Setting, h: nat, k: nat)
    requires k < |HashesAt(s.store, h)| && UniquePrefixes(HashesAt(s.store, h)) && ReportedHeight(replies, h)
    requires HashesAt(s.store, h)[k] in s.store.blocks
    ensures var x := HashesAt(s.store, h)[k]; var c := Claim(h, Prefix(x));
      Stale(replies, s, c) <==>
        |Holders(replies, c) + {SELF}| < s.quorum && s.store.blocks[x].time + ROLLBACK_AGE < s.clock(c)
    ensures var x := HashesAt(s.store, h)[k]; var c := Claim(h, Prefix(x));
      Stale(replies, s, c) ==> BlockOf(s, c) == s.store.blocks[x]
  {
    ClaimNamesItsBlock(HashesAt(s.store, h), k);
    assert Local(s.store, Claim(h, Prefix(HashesAt(s.store, h)[k])));
  }

  /** If some peer other than SELF holds all requested blocks, the peers returned are exactly those that do. */
  lemma {:induction false} NodesHoldEverything(replies: seq<Reply>, requests: seq<Claim>, nodes: set<string>,
                                               peer: string, node: string)
    requires requests != [] && nodes == NarrowAll(replies, requests) - {SELF}
    requires HoldsAll(replies, requests, peer) && peer != SELF
    ensures peer in nodes && (node in nodes <==> node != SELF && HoldsAll(replies, requests, node))
  {
    assert SomeoneHoldsAll(replies, requests);
    NodesExactIff(replies, requests);
  }
}
