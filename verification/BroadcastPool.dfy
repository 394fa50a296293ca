/** The pool of broadcast blocks (ca/block_helper.cpp, AddBroadcastBlock; order of
    ca/block_helper.h): an arriving block is weighed against the first pooled block it conflicts with. */
module BroadcastPool {
  import opened Ledger
  import opened Checker

  /** The order of the pool: by height, then by time. */
  predicate Before(a: Block, b: Block) {
    if a.height == b.height then a.time < b.time else a.height < b.height
  }

  ghost predicate Ordered(pool: seq<Block>) {
    forall i, j :: 0 <= i < j < |pool| ==> Before(pool[i], pool[j])
  }

  /** std::set::insert: nothing happens when an equivalent block (same height and time) is present. */
  function SetInsert(pool: seq<Block>, b: Block): seq<Block> {
    if pool == [] || Before(b, pool[0]) then [b] + pool
    else if Before(pool[0], b) then [pool[0]] + SetInsert(pool[1..], b)
    else pool
  }

  /** Where the walk over the pool stops: the first block that conflicts with b, or the end. */
  function FirstConflict(pool: seq<Block>, b: Block): (i: nat)
    ensures i <= |pool| && forall k :: 0 <= k < i ==> !BlocksConflict(pool[k], b)
    ensures i < |pool| ==> BlocksConflict(pool[i], b)
  {
    if pool == [] || BlocksConflict(pool[0], b) then 0 else 1 + FirstConflict(pool[1..], b)
  }

  predicate Discards(pool: seq<Block>, b: Block) {
    var i := FirstConflict(pool, b);
    i < |pool| && ((pool[i].height == b.height && pool[i].time <= b.time) || pool[i].height < b.height)
  }

  /** What the store and the contract check say about an arriving block. */
  datatype ContractCheck = NotContract | CheckFailed | WaitsForContract | ContractReady

  datatype Surroundings = Surroundings(topKnown: bool, top: nat, prevSaved: bool, contract: ContractCheck)

  datatype Verdict = Drop | Admit | Pend

  function Judge(b: Block, s: Surroundings): Verdict {
    if !s.topKnown || s.contract.CheckFailed? || s.contract.WaitsForContract? then Drop
    else if !s.prevSaved then Pend
    else if b.height <= s.top + 1000 then Admit
    else Drop
  }

  /** pool: the ordered set; arrivals: the same blocks in order of admission. */
  datatype State = State(pool: seq<Block>, arrivals: seq<Block>, seen: map<string, (bool, nat)>)

  function Without(s: seq<Block>, b: Block): seq<Block> {
    if s == [] then [] else if s[0] == b then s[1..] else [s[0]] + Without(s[1..], b)
  }

  function Evict(s: State, b: Block): State {
    var i := FirstConflict(s.pool, b);
    if i == |s.pool| then s
    else s.(pool := s.pool[..i] + s.pool[i + 1..], arrivals := Without(s.arrivals, s.pool[i]))
  }

  function Place(s: State, b: Block): State {
    var p := SetInsert(s.pool, b);
    if |p| == |s.pool| then s else s.(pool := p, arrivals := s.arrivals + [b])
  }

  /** The state in which the arriving block has been noted and not yet weighed. */
  function Noted(s: State, b: Block, status: bool): State {
    s.(seen := s.seen[b.hash := (status, b.time)])
  }

  function Arrive(s: State, b: Block, status: bool, doubleSpent: set<string>, env: Surroundings): State {
    if b.hash in s.seen then
      if status then Noted(s, b, status) else s
    else if b.hash in doubleSpent then s
    else
      var s1 := Noted(s, b, status);
      if Discards(s1.pool, b) then s1
      else
        var s2 := Evict(s1, b);
        if Judge(b, env).Admit? then Place(s2, b) else s2
  }

  /** The clean-up at the end of a processing round. */
  function Flush(s: State, now: nat): State {
    State([], [], map h | h in s.seen && !(now >= s.seen[h].1 + 60 * 1000000) :: s.seen[h])
  }

  datatype Event =
    | ArriveEvent(b: Block, status: bool, doubleSpent: set<string>, env: Surroundings)
    | FlushEvent(now: nat)

  function Step(s: State, e: Event): State {
    match e
    case ArriveEvent(b, status, doubleSpent, env) => Arrive(s, b, status, doubleSpent, env)
    case FlushEvent(now) => Flush(s, now)
  }

  const INITIAL := State([], [], map[])

  function Run(events: seq<Event>): State {
    if events == [] then INITIAL else Step(Run(events[..|events| - 1]), events[|events| - 1])
  }

  // ---------- the invariant ----------

  /** Of two conflicting pooled blocks, the one earlier in the pool order arrived later. */
  ghost predicate LaterArrivalIsEarlier(arrivals: seq<Block>) {
    forall i, j :: 0 <= i < j < |arrivals| && BlocksConflict(arrivals[i], arrivals[j])
      ==> Before(arrivals[j], arrivals[i])
  }

  ghost predicate Inv(s: State) {
    && Ordered(s.pool)
    && multiset(s.pool) == multiset(s.arrivals)
    && LaterArrivalIsEarlier(s.arrivals)
    && forall b :: b in s.pool ==> b.hash in s.seen
  }

  lemma {:induction false} SetInsertContent(pool: seq<Block>, b: Block)
    ensures if |SetInsert(pool, b)| == |pool| then SetInsert(pool, b) == pool
            else multiset(SetInsert(pool, b)) == multiset(pool) + multiset{b}
  {
    if pool != [] && !Before(b, pool[0]) && Before(pool[0], b) {
      SetInsertContent(pool[1..], b);
      assert pool == [pool[0]] + pool[1..];
    }
  }

  lemma {:induction false} SetInsertMembers(pool: seq<Block>, b: Block, x: Block)
    ensures x in SetInsert(pool, b) ==> x in pool || x == b
    ensures x in pool ==> x in SetInsert(pool, b)
    ensures |SetInsert(pool, b)| != |pool| ==> b in SetInsert(pool, b)
  {
    SetInsertContent(pool, b);
    assert x in SetInsert(pool, b) <==> x in multiset(SetInsert(pool, b));
    assert b in SetInsert(pool, b) <==> b in multiset(SetInsert(pool, b));
    assert x in pool <==> x in multiset(pool);
  }

  lemma {:induction false} SetInsertOrdered(pool: seq<Block>, b: Block)
    requires Ordered(pool)
    ensures Ordered(SetInsert(pool, b))
  {
    if pool != [] {
      if Before(b, pool[0]) {
        assert forall k :: 0 < k < |pool| ==> Before(pool[0], pool[k]);
      } else if Before(pool[0], b) {
        SetInsertOrdered(pool[1..], b);
        var r := SetInsert(pool[1..], b);
        forall k | 0 <= k < |r| ensures Before(pool[0], r[k]) {
          SetInsertMembers(pool[1..], b, r[k]);
        }
      }
    }
  }

  lemma {:induction false} WithoutContent(s: seq<Block>, c: Block)
    requires c in s
    ensures multiset(Without(s, c)) == multiset(s) - multiset{c}
  {
    assert s == [s[0]] + s[1..];
    if s[0] != c {
      WithoutContent(s[1..], c);
    }
  }

  lemma {:induction false} WithoutKeepsOrder(s: seq<Block>, c: Block)
    requires LaterArrivalIsEarlier(s)
    ensures LaterArrivalIsEarlier(Without(s, c))
    ensures forall x :: x in Without(s, c) ==> x in s
  {
    if s != [] && s[0] != c {
      WithoutKeepsOrder(s[1..], c);
      var r := Without(s[1..], c);
      forall j | 0 <= j < |r| && BlocksConflict(s[0], r[j]) ensures Before(r[j], s[0]) {
        assert r[j] in r && r[j] in s[1..];
        var k :| 0 <= k < |s[1..]| && s[1..][k] == r[j];
        assert s[k + 1] == r[j];
      }
    }
  }

  /** When the arriving block is not discarded, every conflicting block left in the pool is later than it. */
  lemma {:induction false} SurvivorsAreLater(s: State, b: Block)
    requires Ordered(s.pool) && !Discards(s.pool, b)
    ensures forall x :: x in Evict(s, b).pool && BlocksConflict(x, b) ==> Before(b, x)
  {
    var i := FirstConflict(s.pool, b);
    forall x | x in Evict(s, b).pool && BlocksConflict(x, b) ensures Before(b, x) {
      var k :| 0 <= k < |s.pool| && s.pool[k] == x && k != i;
      assert i < k && Before(s.pool[i], s.pool[k]);
    }
  }

  lemma {:induction false} EvictedArrivals(pool: seq<Block>, arrivals: seq<Block>, i: nat)
    requires i < |pool| && multiset(pool) == multiset(arrivals)
    ensures multiset(pool[..i] + pool[i + 1..]) == multiset(Without(arrivals, pool[i]))
  {
    RemovedContent(pool, i);
    assert pool[i] in multiset(arrivals);
    WithoutContent(arrivals, pool[i]);
  }

  lemma {:induction false} EvictKeepsInv(s: State, b: Block)
    requires Inv(s)
    ensures Inv(Evict(s, b))
  {
    var i := FirstConflict(s.pool, b);
    if i < |s.pool| {
      var left, arrivals := s.pool[..i] + s.pool[i + 1..], Without(s.arrivals, s.pool[i]);
      EvictedArrivals(s.pool, s.arrivals, i);
      WithoutKeepsOrder(s.arrivals, s.pool[i]);
      assert Evict(s, b) == s.(pool := left, arrivals := arrivals);
    }
  }

  lemma {:induction false} RemovedContent(pool: seq<Block>, i: nat)
    requires i < |pool|
    ensures multiset(pool[..i] + pool[i + 1..]) == multiset(pool) - multiset{pool[i]}
    ensures pool[i] in multiset(pool)
  {
    assert pool == pool[..i] + [pool[i]] + pool[i + 1..];
  }

  lemma {:induction false} PlaceKeepsInv(s: State, b: Block)
    requires Inv(s) && b.hash in s.seen
    requires forall x :: x in s.pool && BlocksConflict(x, b) ==> Before(b, x)
    ensures Inv(Place(s, b))
  {
    SetInsertOrdered(s.pool, b);
    SetInsertContent(s.pool, b);
    var t := Place(s, b);
    if t != s {
      forall i, j | 0 <= i < j < |t.arrivals| && BlocksConflict(t.arrivals[i], t.arrivals[j])
        ensures Before(t.arrivals[j], t.arrivals[i])
      {
        if j == |s.arrivals| {
          assert t.arrivals[i] in multiset(s.arrivals);
          assert t.arrivals[i] in s.pool;
        }
      }
      forall x | x in t.pool ensures x.hash in t.seen {
        SetInsertMembers(s.pool, b, x);
      }
    }
  }

  lemma {:induction false} StepKeepsInv(s: State, e: Event)
    requires Inv(s)
    ensures Inv(Step(s, e))
  {
    if Weighed(s, e) {
      var s1 := Noted(s, e.b, e.status);
      EvictKeepsInv(s1, e.b);
      SurvivorsAreLater(s1, e.b);
      PlaceKeepsInv(Evict(s1, e.b), e.b);
    }
  }

  /** In every reachable state. */
  lemma {:induction false} RunKeepsInv(events: seq<Event>)
    ensures Inv(Run(events))
  {
    if events != [] {
      RunKeepsInv(events[..|events| - 1]);
      StepKeepsInv(Run(events[..|events| - 1]), events[|events| - 1]);
    }
  }

  // ---------- when the pool stays conflict-free ----------

  ghost predicate ConflictFree(pool: seq<Block>) {
    forall x, y :: x in pool && y in pool && x != y ==> !BlocksConflict(x, y)
  }

  /** b conflicts with two different pooled blocks. */
  ghost predicate ConflictsTwice(pool: seq<Block>, b: Block) {
    exists x, y :: x in pool && y in pool && x != y && BlocksConflict(x, b) && BlocksConflict(y, b)
  }

  lemma {:induction false} EvictRemovesFirst(s: State, b: Block, x: Block)
    requires Ordered(s.pool)
    ensures x in Evict(s, b).pool <==> Left(s, b, x)
  {
    var i := FirstConflict(s.pool, b);
    if x in s.pool && i < |s.pool| && x != s.pool[i] {
      var k :| 0 <= k < |s.pool| && s.pool[k] == x;
      assert k < i ==> s.pool[..i][k] == x;
      assert k > i ==> s.pool[i + 1..][k - i - 1] == x;
    }
    if i < |s.pool| {
      assert forall k :: 0 <= k < |s.pool| && k != i ==> Before(s.pool[k], s.pool[i]) || Before(s.pool[i], s.pool[k]);
    }
  }

  lemma {:induction false} AdmittedPool(s: State, b: Block, x: Block)
    requires Ordered(s.pool) && b in Place(Evict(s, b), b).pool
    ensures x in Place(Evict(s, b), b).pool <==> x == b || Left(s, b, x)
  {
    EvictRemovesFirst(s, b, x);
    SetInsertMembers(Evict(s, b).pool, b, x);
  }

  /** Every pooled block the walk did not stop at is still there. */
  ghost predicate Left(s: State, b: Block, x: Block) {
    x in s.pool && (FirstConflict(s.pool, b) < |s.pool| ==> x != s.pool[FirstConflict(s.pool, b)])
  }

  lemma {:induction false} TwoConflictsLeaveOne(s: State, b: Block) returns (z: Block)
    requires ConflictsTwice(s.pool, b)
    ensures Left(s, b, z) && BlocksConflict(z, b)
  {
    var i := FirstConflict(s.pool, b);
    var x, y :| x in s.pool && y in s.pool && x != y && BlocksConflict(x, b) && BlocksConflict(y, b);
    z := if i < |s.pool| && x == s.pool[i] then y else x;
  }

  /** A block admitted to a conflict-free pool leaves it conflict-free exactly when it conflicted
      with at most one pooled block: only one conflicting block is ever evicted. */
  lemma {:induction false} AdmissionConflictFreeIff(s: State, b: Block)
    requires Inv(s) && ConflictFree(s.pool) && b !in s.pool && !Discards(s.pool, b)
    requires b in Place(Evict(s, b), b).pool
    ensures ConflictFree(Place(Evict(s, b), b).pool) <==> !ConflictsTwice(s.pool, b)
  {
    var p := Place(Evict(s, b), b).pool;
    forall x ensures x in p <==> x == b || Left(s, b, x) {
      AdmittedPool(s, b, x);
    }
    if ConflictsTwice(s.pool, b) {
      var z := TwoConflictsLeaveOne(s, b);
      assert z in p && b in p && z != b;
    } else {
      forall x | x in p && x != b ensures !BlocksConflict(x, b) && !BlocksConflict(b, x) {
      }
    }
  }

  /** An unknown block that is not discarded: the walk may evict for it. */
  predicate Weighed(s: State, e: Event) {
    e.ArriveEvent? && e.b.hash !in s.seen && e.b.hash !in e.doubleSpent && !Discards(s.pool, e.b)
  }

  /** The event puts a block into the pool. */
  ghost predicate Admits(s: State, e: Event) {
    && Weighed(s, e)
    && Judge(e.b, e.env).Admit? && e.b in Place(Evict(Noted(s, e.b, e.status), e.b), e.b).pool
  }

  /** The admitted block conflicted with two pooled blocks. */
  ghost predicate AdmitsDoubly(s: State, e: Event) {
    Admits(s, e) && ConflictsTwice(s.pool, e.b)
  }

  lemma {:induction false} OtherwiseOnlyLess(s: State, e: Event)
    requires Inv(s) && !Admits(s, e)
    ensures forall x :: x in Step(s, e).pool ==> x in s.pool
  {
    if Weighed(s, e) {
      var t := Noted(s, e.b, e.status);
      forall x ensures x in Evict(t, e.b).pool ==> x in s.pool { EvictRemovesFirst(t, e.b, x); }
      SetInsertMembers(Evict(t, e.b).pool, e.b, e.b);
    }
  }

  lemma {:induction false} StepConflictFreeIff(s: State, e: Event)
    requires Inv(s) && ConflictFree(s.pool)
    ensures ConflictFree(Step(s, e).pool) <==> !AdmitsDoubly(s, e)
  {
    if Admits(s, e) {
      AdmissionConflictFreeIff(Noted(s, e.b, e.status), e.b);
    } else {
      OtherwiseOnlyLess(s, e);
    }
  }

  /** Every block admitted in the run conflicted with at most one pooled block. */
  ghost predicate AdmitsSingly(events: seq<Event>) {
    forall n :: 0 <= n < |events| ==> !AdmitsDoubly(Run(events[..n]), events[n])
  }

  ghost predicate AlwaysConflictFree(events: seq<Event>) {
    forall n :: 0 <= n <= |events| ==> ConflictFree(Run(events[..n]).pool)
  }

  lemma {:induction false} PrefixAdmitsSingly(events: seq<Event>, m: nat)
    requires AdmitsSingly(events) && m <= |events|
    ensures AdmitsSingly(events[..m])
  {
    forall n | 0 <= n < m ensures !AdmitsDoubly(Run(events[..m][..n]), events[..m][n]) {
      assert events[..m][..n] == events[..n];
    }
  }

  lemma {:induction false} SinglyKeepsConflictFree(events: seq<Event>)
    requires AdmitsSingly(events)
    ensures ConflictFree(Run(events).pool)
  {
    if events != [] {
      var m := |events| - 1;
      PrefixAdmitsSingly(events, m);
      SinglyKeepsConflictFree(events[..m]);
      RunKeepsInv(events[..m]);
      StepConflictFreeIff(Run(events[..m]), events[m]);
    }
  }

  lemma {:induction false} DoublyBreaksConflictFree(events: seq<Event>, n: nat)
    requires n < |events| && AdmitsDoubly(Run(events[..n]), events[n])
    ensures !ConflictFree(Run(events[..n]).pool) || !ConflictFree(Run(events[..n + 1]).pool)
  {
    assert events[..n + 1][..n] == events[..n];
    RunKeepsInv(events[..n]);
    if ConflictFree(Run(events[..n]).pool) {
      StepConflictFreeIff(Run(events[..n]), events[n]);
    }
  }

  /** The pool is pairwise conflict-free throughout a run if and only if every block it admits conflicted
      with at most one pooled block. */
  lemma {:induction false} AlwaysConflictFreeIff(events: seq<Event>)
    ensures AlwaysConflictFree(events) <==> AdmitsSingly(events)
  {
    if AdmitsSingly(events) {
      forall n | 0 <= n <= |events| ensures ConflictFree(Run(events[..n]).pool) {
        PrefixAdmitsSingly(events, n);
        SinglyKeepsConflictFree(events[..n]);
      }
    } else {
      var n :| 0 <= n < |events| && AdmitsDoubly(Run(events[..n]), events[n]);
      DoublyBreaksConflictFree(events, n);
    }
  }

  // ---------- a run that does not stay conflict-free ----------

  /** Three blocks of one height, the last to arrive the earliest; it conflicts with both others. */
  ghost predicate Contested(x: Block, y: Block, b: Block) {
    && x.height == y.height == b.height && b.time < x.time < y.time
    && x.hash != y.hash && x.hash != b.hash && y.hash != b.hash
    && BlocksConflict(x, b) && BlocksConflict(y, b) && !BlocksConflict(x, y)
  }

  function Arrival(b: Block): Event {
    ArriveEvent(b, false, {}, Surroundings(true, b.height, true, NotContract))
  }

  lemma {:induction false} SecondArrival(s: State, x: Block, y: Block)
    requires s.pool == [x] && y.hash !in s.seen && !BlocksConflict(x, y) && Before(x, y)
    ensures Step(s, Arrival(y)).pool == [x, y] && Step(s, Arrival(y)).seen == s.seen[y.hash := (false, y.time)]
  {
    assert [x][1..] == [] && FirstConflict([x], y) == 1 + FirstConflict([x][1..], y);
    assert SetInsert([x], y) == [x] + SetInsert([x][1..], y);
  }

  lemma {:induction false} ThirdArrival(s: State, x: Block, y: Block, b: Block)
    requires s.pool == [x, y] && b.hash !in s.seen && Contested(x, y, b)
    ensures Step(s, Arrival(b)).pool == [b, y] && Admits(s, Arrival(b))
  {
    assert FirstConflict([x, y], b) == 0;
    assert [x, y][..0] + [x, y][1..] == [y];
    assert SetInsert([y], b) == [b] + [y];
  }

  /** All three arrive: only the first conflicting block is evicted, and the pool keeps the other conflict. */
  lemma {:induction false} ContestedRun(x: Block, y: Block, b: Block)
    requires Contested(x, y, b)
    ensures var events := [Arrival(x), Arrival(y), Arrival(b)];
      Run(events).pool == [b, y] && !ConflictFree(Run(events).pool) && AdmitsDoubly(Run(events[..2]), events[2])
  {
    var events := [Arrival(x), Arrival(y), Arrival(b)];
    assert events[..2][..1] == events[..1] == [Arrival(x)] && events[..1][..0] == [];
    assert Run(events[..1]) == Step(Run([]), Arrival(x));
    SecondArrival(Run(events[..1]), x, y);
    assert Run(events[..2]) == Step(Run(events[..1]), Arrival(y));
    ThirdArrival(Run(events[..2]), x, y, b);
    assert Run(events) == Step(Run(events[..2]), Arrival(b));
    assert b in [b, y] && y in [b, y] && x in [x, y] && y in [x, y];
    if !BlocksConflict(b, y) { BlocksConflictSymmetric(y, b); }
  }

  /** A block with one transaction per given output, each spending it alone. */
  function SpendingBlock(hash: string, time: nat, outputs: seq<string>): Block {
    Block(hash, "", 1, time, seq(|outputs|, i requires 0 <= i < |outputs| => OneInput(Vin("", "a", [outputs[i]]))))
  }

  lemma {:induction false} OneInputsConflictIff(g: string, h: string)
    ensures Conflict(OneInput(Vin("", "a", [g])), OneInput(Vin("", "a", [h]))) <==> g == h
  {
    var v, w := Vin("", "a", [g]), Vin("", "a", [h]);
    OneInputKeys(v, g, true);
    OneInputKeys(w, h, true);
    var k, l := InputKey(v, g, "MM", true), InputKey(w, h, "MM", true);
    assert k == g + "_a_MM" && l == h + "_a_MM";
    assert |g| == |h| && k == l ==> g == k[..|g|] == l[..|h|] == h;
    assert k in TxKeys(OneInput(v), true);
    assert k == l ==> |g| == |h|;
  }

  lemma {:induction false} SpendingBlocksConflictIff(a: Block, b: Block, hs: seq<string>, gs: seq<string>)
    requires a == SpendingBlock(a.hash, a.time, hs) && b == SpendingBlock(b.hash, b.time, gs)
    ensures BlocksConflict(a, b) <==> exists h :: h in hs && h in gs
  {
    if i, j :| 0 <= i < |a.txs| && 0 <= j < |b.txs| && TxsClash(a.txs[i], b.txs[j]) {
      OneInputsConflictIff(hs[i], gs[j]);
      assert hs[i] in hs && hs[i] in gs;
    }
    if h :| h in hs && h in gs {
      var i :| 0 <= i < |hs| && hs[i] == h;
      var j :| 0 <= j < |gs| && gs[j] == h;
      OneInputsConflictIff(h, h);
      assert TxsClash(a.txs[i], b.txs[j]);
    }
  }

  /** Such blocks exist: with any two outputs and any three names. */
  lemma {:induction false} ContestedExists(g: string, h: string, x: string, y: string, b: string)
    requires g != h && x != y && x != b && y != b
    ensures Contested(SpendingBlock(x, 2, [g]), SpendingBlock(y, 3, [h]), SpendingBlock(b, 1, [g, h]))
  {
    var first, second, third := SpendingBlock(x, 2, [g]), SpendingBlock(y, 3, [h]), SpendingBlock(b, 1, [g, h]);
    SpendingBlocksConflictIff(first, third, [g], [g, h]);
    SpendingBlocksConflictIff(second, third, [h], [g, h]);
    SpendingBlocksConflictIff(first, second, [g], [h]);
    assert g in [g] && g in [g, h] && h in [h] && h in [g, h];
  }

  // ---------- evictions that admit nothing ----------

  ghost predicate Twin(pool: seq<Block>, b: Block) {
    exists c :: c in pool && c.height == b.height && c.time == b.time
  }

  /** An ordered set refuses a block exactly when it holds one of the same height and time. */
  lemma {:induction false} RefusedIffTwin(pool: seq<Block>, b: Block)
    requires Ordered(pool)
    ensures |SetInsert(pool, b)| == |pool| <==> Twin(pool, b)
  {
    if pool == [] {
    } else if Before(b, pool[0]) {
      forall c | c in pool ensures !(c.height == b.height && c.time == b.time) {
        var k :| 0 <= k < |pool| && pool[k] == c;
        assert k > 0 ==> Before(pool[0], pool[k]);
      }
    } else if Before(pool[0], b) {
      RefusedIffTwin(pool[1..], b);
      assert pool == [pool[0]] + pool[1..];
      if Twin(pool, b) {
        var c :| c in pool && c.height == b.height && c.time == b.time;
        assert c in pool[1..];
      }
    } else {
      assert pool[0] in pool;
    }
  }

  /** The pool loses a block and the arriving block is not in it afterwards. */
  ghost predicate LosesOnly(s: State, e: Event)
    requires e.ArriveEvent?
  {
    e.b !in Step(s, e).pool && exists x :: x in s.pool && x !in Step(s, e).pool
  }

  lemma {:induction false} PlacedIffNoTwin(s: State, b: Block)
    requires Ordered(s.pool) && b !in s.pool
    ensures b in Place(s, b).pool <==> !Twin(s.pool, b)
  {
    RefusedIffTwin(s.pool, b);
    SetInsertMembers(s.pool, b, b);
  }

  /** A conflicting block is evicted for an arrival that is not admitted if and only if the arrival is
      weighed, conflicts, and then is dropped, made to wait, or refused for a twin of its height and time. */
  lemma {:induction false} LosesOnlyIff(s: State, e: Event)
    requires Inv(s) && e.ArriveEvent?
    ensures LosesOnly(s, e) <==>
      && Weighed(s, e) && FirstConflict(s.pool, e.b) < |s.pool|
      && (!Judge(e.b, e.env).Admit? || Twin(Evict(s, e.b).pool, e.b))
  {
    if !Weighed(s, e) {
      assert Step(s, e).pool == s.pool;
    } else {
      var t := Noted(s, e.b, e.status);
      EvictKeepsInv(t, e.b);
      forall x ensures x in Evict(t, e.b).pool <==> Left(s, e.b, x) { EvictRemovesFirst(t, e.b, x); }
      PlacedIffNoTwin(Evict(t, e.b), e.b);
      forall x
        ensures x in Evict(t, e.b).pool ==> x in Place(Evict(t, e.b), e.b).pool
      {
        SetInsertMembers(Evict(t, e.b).pool, e.b, x);
      }
      if Twin(Evict(t, e.b).pool, e.b) { RefusedIffTwin(Evict(t, e.b).pool, e.b); }
      var i := FirstConflict(s.pool, e.b);
      if i < |s.pool| { assert s.pool[i] in s.pool && !Left(s, e.b, s.pool[i]); }
    }
  }

  // ---------- what an arrival does ----------

  /** Some pooled block that conflicts with b is not later than b. */
  ghost predicate Beaten(pool: seq<Block>, b: Block) {
    exists c :: c in pool && BlocksConflict(c, b) && !Before(b, c)
  }

  /** x is the earliest pooled block that conflicts with b. */
  ghost predicate EarliestConflict(pool: seq<Block>, b: Block, x: Block) {
    && x in pool && BlocksConflict(x, b)
    && forall c :: c in pool && BlocksConflict(c, b) ==> c == x || Before(x, c)
  }

  /** The block may join the pool: the top is known, contracts are in order, the previous block is stored and
      the block is at most a thousand heights above the top. */
  predicate Welcome(b: Block, env: Surroundings) {
    && env.topKnown && (env.contract.NotContract? || env.contract.ContractReady?)
    && env.prevSaved && b.height <= env.top + 1000
  }

  lemma {:induction false} FirstIsEarliest(pool: seq<Block>, b: Block, x: Block)
    requires Ordered(pool)
    ensures EarliestConflict(pool, b, x) <==> FirstConflict(pool, b) < |pool| && x == pool[FirstConflict(pool, b)]
  {
    var i := FirstConflict(pool, b);
    if i < |pool| {
      forall c | c in pool && BlocksConflict(c, b) ensures c == pool[i] || Before(pool[i], c) {
        var k :| 0 <= k < |pool| && pool[k] == c;
        assert i <= k;
      }
      assert pool[i] in pool && EarliestConflict(pool, b, pool[i]);
    } else if x in pool {
      var k :| 0 <= k < |pool| && pool[k] == x;
    }
  }

  lemma {:induction false} BeatenIffDiscards(pool: seq<Block>, b: Block)
    requires Ordered(pool)
    ensures Beaten(pool, b) <==> Discards(pool, b)
  {
    var i := FirstConflict(pool, b);
    if Beaten(pool, b) {
      var c :| c in pool && BlocksConflict(c, b) && !Before(b, c);
      var k :| 0 <= k < |pool| && pool[k] == c;
      assert i <= k;
    }
    if Discards(pool, b) { assert pool[i] in pool; }
  }

  /** A known block, one known to be double-spent, and one that a conflicting pooled block not later than it
      beats, leave the pool as it is. */
  lemma {:induction false} BeatenLeavesPool(s: State, b: Block, status: bool, doubleSpent: set<string>,
                                            env: Surroundings)
    requires Inv(s) && (b.hash in s.seen || b.hash in doubleSpent || Beaten(s.pool, b))
    ensures Arrive(s, b, status, doubleSpent, env).pool == s.pool
  {
    BeatenIffDiscards(s.pool, b);
  }

  /** Any other block costs the pool exactly the earliest block it conflicts with, and is in the pool afterwards
      exactly when it is welcome and none of the blocks that stay has its height and time. */
  lemma {:induction false} ArrivalExact(s: State, b: Block, status: bool, doubleSpent: set<string>, env: Surroundings,
                                        x: Block)
    requires Inv(s) && b.hash !in s.seen && b.hash !in doubleSpent && !Beaten(s.pool, b)
    ensures var pool := Arrive(s, b, status, doubleSpent, env).pool;
      && (x != b ==> (x in pool <==> x in s.pool && !EarliestConflict(s.pool, b, x)))
      && (b in pool <==> Welcome(b, env) && forall c ::
            c in s.pool && c.height == b.height && c.time == b.time ==> EarliestConflict(s.pool, b, c))
  {
    var s1 := Noted(s, b, status);
    var s2 := Evict(s1, b);
    BeatenIffDiscards(s.pool, b);
    EvictKeepsInv(s1, b);
    forall y ensures y in s2.pool <==> y in s.pool && !EarliestConflict(s.pool, b, y) {
      EvictRemovesFirst(s1, b, y);
      FirstIsEarliest(s.pool, b, y);
    }
    PlacedIffNoTwin(s2, b);
    SetInsertMembers(s2.pool, b, x);
    SetInsertMembers(s2.pool, b, b);
  }

  /** A block is made to wait exactly when it is new, beaten by none, only its previous block is missing, and the
      top is known and contracts are in order. */
  lemma {:induction false} WaitsIff(s: State, b: Block, status: bool, doubleSpent: set<string>, env: Surroundings)
    requires Inv(s)
    ensures Weighed(s, ArriveEvent(b, status, doubleSpent, env)) && Judge(b, env).Pend? <==>
      && b.hash !in s.seen && b.hash !in doubleSpent && !Beaten(s.pool, b)
      && env.topKnown && (env.contract.NotContract? || env.contract.ContractReady?) && !env.prevSaved
  {
    BeatenIffDiscards(s.pool, b);
  }

  /** After an arrival the hash is seen; a first arrival files its status and time, a later one only a success. */
  lemma {:induction false} SeenAfterArrival(s: State, b: Block, status: bool, doubleSpent: set<string>,
                                            env: Surroundings)
    ensures Arrive(s, b, status, doubleSpent, env).seen ==
      if (if b.hash in s.seen then status else b.hash !in doubleSpent)
      then s.seen[b.hash := (status, b.time)]
      else s.seen
  {
  }

  // ---------- the class ----------

  class BlockHelper {
    var broadcastBlocks: seq<Block>
    var duplicateChecker: map<string, (bool, nat)>
    ghost var arrivals: seq<Block>

    ghost function View(): State
      reads this
    {
      State(broadcastBlocks, arrivals, duplicateChecker)
    }

    constructor ()
      ensures View() == INITIAL && Inv(View())
    {
      broadcastBlocks, duplicateChecker, arrivals := [], map[], [];
    }

    /** pending reports that the block was handed to the pending pool instead. */
    method AddBroadcastBlock(block: Block, status: bool, doubleSpendBlocks: set<string>, env: Surroundings)
      returns (pending: bool)
      requires Inv(View())
      modifies this
      ensures Inv(View()) && View() == Arrive(old(View()), block, status, doubleSpendBlocks, env)
      ensures pending
          <==> Weighed(old(View()), ArriveEvent(block, status, doubleSpendBlocks, env)) && Judge(block, env).Pend?
    {
      StepKeepsInv(View(), ArriveEvent(block, status, doubleSpendBlocks, env));
      pending := false;
      if block.hash in duplicateChecker {
        if status {
          duplicateChecker := duplicateChecker[block.hash := (status, block.time)];
        }
        return;
      }
      if block.hash in doubleSpendBlocks {
        return;
      }
      duplicateChecker := duplicateChecker[block.hash := (status, block.time)];
      var discarded := Arbitrate(block);
      if discarded {
        return;
      }
      if !env.topKnown {
        return;
      }
      if env.contract.CheckFailed? {
        return;
      }
      if env.contract.NotContract? || env.contract.ContractReady? {
        if env.prevSaved {
          if block.height <= env.top + 1000 {
            Insert(block);
          }
        } else {
          pending := true;
        }
      }
    }

    /** The walk over the ordered pool: give way to the first conflicting block, or evict it. */
    method Arbitrate(block: Block) returns (discarded: bool)
      modifies this`broadcastBlocks, this`arrivals
      ensures discarded == Discards(old(broadcastBlocks), block)
      ensures View() == if discarded then old(View()) else Evict(old(View()), block)
    {
      ghost var first := FirstConflict(broadcastBlocks, block);
      for it := 0 to |broadcastBlocks|
        invariant View() == old(View()) && it <= first
      {
        var curr := broadcastBlocks[it];
        var hit, _ := CheckBlockConflict(curr, block);
        if hit {
          if (curr.height == block.height && curr.time <= block.time) || curr.height < block.height {
            return true;
          }
          arrivals := Without(arrivals, curr);
          broadcastBlocks := broadcastBlocks[..it] + broadcastBlocks[it + 1..];
          return false;
        }
      }
      return false;
    }

    method Insert(block: Block)
      modifies this`broadcastBlocks, this`arrivals
      ensures View() == Place(old(View()), block)
    {
      SetInsertContent(broadcastBlocks, block);
      var p := SetInsert(broadcastBlocks, block);
      if |p| != |broadcastBlocks| {
        arrivals := arrivals + [block];
      }
      broadcastBlocks := p;
    }

    /** doubleSpendBlocks maps the hash of a block known to be double-spent to its time. */
    method EndOfRound(now: nat, doubleSpendBlocks: map<string, nat>) returns (left: map<string, nat>)
      requires Inv(View())
      modifies this
      ensures Inv(View()) && View() == Flush(old(View()), now)
      ensures broadcastBlocks == []
      ensures var was := old(duplicateChecker);
        duplicateChecker == map h | h in was && now < was[h].1 + 60 * 1000000 :: was[h]
      ensures left ==
        map h | h in doubleSpendBlocks && now < doubleSpendBlocks[h] + 30 * 1000000 :: doubleSpendBlocks[h]
    {
      left := map h | h in doubleSpendBlocks && !(now >= doubleSpendBlocks[h] + 30 * 1000000) :: doubleSpendBlocks[h];
      broadcastBlocks := [];
      arrivals := [];
      duplicateChecker :=
        map h | h in duplicateChecker && !(now >= duplicateChecker[h].1 + 60 * 1000000) :: duplicateChecker[h];
    }
  }
}
