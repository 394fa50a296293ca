/** Which kind of sync each round of the sync thread runs (ca/sync_block.cpp, ThreadStart), and the
    requests that steer it. A round is one step; requests arrive between rounds. */
module SyncScheduler {

  const FAST_ROUNDS := 5
  const ZERO_FAILURES := 2
  const HEIGHT_COUNT := 100

  /** The file-level flags and counters. */
  datatype Flags = Flags(runFastSync: bool, runFastSyncCount: nat, syncFailHeight: nat, executeNewSync: bool,
                         initialSyncStartHeight: nat, runZeroSyncCount: nat)

  /** What a round finds and how its sync ends. selfHeight: the stored top; behind: the chain is so far
      ahead that a sync from zero is due; fastFailed: the fast sync asks to be repeated from failedAt. */
  datatype Env = Env(selfHeight: nat, behind: bool, fastFailed: bool, failedAt: nat, zeroStatus: int, newStatus: int)

  datatype Round = Fast(start: nat) | FromZero(status: int) | New(start: nat, end: nat, status: int)

  datatype Event = FastRequest(height: nat) | NewRequest(height: nat) | RunRound(env: Env)

  const IDLE := Flags(false, 0, 0, false, 0, 0)

  function SetFast(f: Flags, height: nat): Flags {
    f.(runFastSync := true, syncFailHeight := height)
  }

  function Min(a: nat, b: nat): nat {
    if a <= b then a else b
  }

  function SetNew(f: Flags, height: nat): Flags {
    f.(executeNewSync := true,
       initialSyncStartHeight := if f.initialSyncStartHeight == 0 then height
                                 else Min(f.initialSyncStartHeight, height))
  }

  /** A pending fast sync gives way after five in a row and to a new-sync request. */
  function Prepared(f: Flags): Flags {
    if (f.runFastSyncCount >= FAST_ROUNDS && f.runFastSync) || f.executeNewSync
    then f.(runFastSync := false, runFastSyncCount := 0)
    else f
  }

  /** The height a new sync starts from. */
  function Base(f: Flags, env: Env): nat {
    if f.syncFailHeight != 0 then f.syncFailHeight else env.selfHeight
  }

  function Below(h: nat): nat {
    if h > HEIGHT_COUNT then h - HEIGHT_COUNT else 1
  }

  /** What an outstanding request starts from: never above the base. */
  function Requested(f: Flags, env: Env): nat {
    Min(f.initialSyncStartHeight, Base(f, env))
  }

  function Chosen(f: Flags, env: Env): Round {
    if f.runFastSync then Fast(if f.syncFailHeight > env.selfHeight then env.selfHeight + 1 else f.syncFailHeight)
    else if env.behind && !f.executeNewSync && f.runZeroSyncCount <= ZERO_FAILURES then FromZero(env.zeroStatus)
    else
      var from := if f.executeNewSync then Requested(f, env) else Base(f, env);
      New(Below(from), from + HEIGHT_COUNT, env.newStatus)
  }

  function Finished(f: Flags, env: Env): Flags {
    match Chosen(f, env)
    case Fast(_) =>
      f.(runFastSyncCount := f.runFastSyncCount + 1, runFastSync := env.fastFailed,
         syncFailHeight := if env.fastFailed then env.failedAt else f.syncFailHeight)
    case FromZero(status) => if status == 0 then f else f.(runZeroSyncCount := f.runZeroSyncCount + 1)
    case New(_, _, status) =>
      if status < 0 then
        f.(initialSyncStartHeight := if f.executeNewSync then Requested(f, env) else f.initialSyncStartHeight,
           syncFailHeight := 0, runFastSync := false)
      else if status == 0 then Flags(false, f.runFastSyncCount, 0, false, 0, 0)
      else f.(initialSyncStartHeight := if f.executeNewSync then Requested(f, env) else f.initialSyncStartHeight)
  }

  // ---------- runs ----------

  /** outstanding: the heights requested since the last successful new sync. */
  datatype State = State(flags: Flags, outstanding: set<nat>, rounds: seq<Round>)

  predicate Succeeded(r: Round) {
    r.New? && r.status == 0
  }

  predicate ZeroFailed(r: Round) {
    r.FromZero? && r.status != 0
  }

  function Step(s: State, e: Event): State {
    match e
    case FastRequest(height) => s.(flags := SetFast(s.flags, height))
    case NewRequest(height) => s.(flags := SetNew(s.flags, height), outstanding := s.outstanding + {height})
    case RunRound(env) =>
      var f := Prepared(s.flags);
      var r := Chosen(f, env);
      State(Finished(f, env), if Succeeded(r) then {} else s.outstanding, s.rounds + [r])
  }

  function Run(events: seq<Event>): State {
    if events == [] then State(IDLE, {}, []) else Step(Run(events[..|events| - 1]), events[|events| - 1])
  }

  /** The fast rounds at the end. */
  function FastStreak(rounds: seq<Round>): nat {
    if rounds == [] || !rounds[|rounds| - 1].Fast? then 0 else 1 + FastStreak(rounds[..|rounds| - 1])
  }

  /** The from-zero failures since the last successful new sync. */
  function ZeroFailures(rounds: seq<Round>): nat {
    if rounds == [] || Succeeded(rounds[|rounds| - 1]) then 0
    else ZeroFailures(rounds[..|rounds| - 1]) + if ZeroFailed(rounds[|rounds| - 1]) then 1 else 0
  }

  ghost predicate Inv(s: State) {
    && FastStreak(s.rounds) <= s.flags.runFastSyncCount <= FAST_ROUNDS
    && ZeroFailures(s.rounds) == s.flags.runZeroSyncCount <= ZERO_FAILURES + 1
    && (s.flags.executeNewSync <==> s.outstanding != {})
  }

  /** What one more round does to the two tallies. */
  lemma {:induction false} TalliesGrow(rounds: seq<Round>, r: Round)
    ensures FastStreak(rounds + [r]) == if r.Fast? then 1 + FastStreak(rounds) else 0
    ensures ZeroFailures(rounds + [r]) ==
      if Succeeded(r) then 0 else ZeroFailures(rounds) + if ZeroFailed(r) then 1 else 0
  {
    assert (rounds + [r])[..|rounds|] == rounds;
  }

  lemma {:induction false} RoundKeepsInv(s: State, env: Env)
    requires Inv(s)
    ensures Inv(Step(s, RunRound(env)))
  {
    TalliesGrow(s.rounds, Chosen(Prepared(s.flags), env));
  }

  lemma {:induction false} StepKeepsInv(s: State, e: Event)
    requires Inv(s)
    ensures Inv(Step(s, e))
  {
    match e
    case FastRequest(height) =>
    case NewRequest(height) => assert height in Step(s, e).outstanding;
    case RunRound(env) => RoundKeepsInv(s, env);
  }

  lemma {:induction false} RunKeepsInv(events: seq<Event>)
    ensures Inv(Run(events))
  {
    if events != [] {
      RunKeepsInv(events[..|events| - 1]);
      StepKeepsInv(Run(events[..|events| - 1]), events[|events| - 1]);
    }
  }

  /** The first k rounds of a run are the rounds of some earlier moment. */
  lemma {:induction false} EarlierMoment(events: seq<Event>, k: nat) returns (n: nat)
    requires k <= |Run(events).rounds|
    ensures n <= |events| && Run(events[..n]).rounds == Run(events).rounds[..k]
  {
    if k == |Run(events).rounds| {
      n := |events|;
      assert events[..n] == events;
    } else {
      var before := events[..|events| - 1];
      n := EarlierMoment(before, k);
      assert before[..n] == events[..n];
    }
  }

  lemma {:induction false} AllFastMeansStreak(rounds: seq<Round>, i: nat)
    requires i <= |rounds| && forall j :: i <= j < |rounds| ==> rounds[j].Fast?
    ensures FastStreak(rounds) >= |rounds| - i
  {
    if i < |rounds| {
      AllFastMeansStreak(rounds[..|rounds| - 1], i);
    }
  }

  /** Of any six consecutive rounds at least one is no fast sync. */
  lemma {:induction false} NoSixFastRounds(events: seq<Event>, i: nat)
    requires i + FAST_ROUNDS < |Run(events).rounds|
    ensures exists j :: i <= j <= i + FAST_ROUNDS && !Run(events).rounds[j].Fast?
  {
    var rounds := Run(events).rounds;
    var n := EarlierMoment(events, i + FAST_ROUNDS + 1);
    RunKeepsInv(events[..n]);
    if forall j :: i <= j <= i + FAST_ROUNDS ==> rounds[j].Fast? {
      AllFastMeansStreak(rounds[..i + FAST_ROUNDS + 1], i);
    }
  }

  function CountZeroFailures(rounds: seq<Round>): nat {
    if rounds == [] then 0
    else CountZeroFailures(rounds[..|rounds| - 1]) + if ZeroFailed(rounds[|rounds| - 1]) then 1 else 0
  }

  lemma {:induction false} FailuresAddUp(rounds: seq<Round>, i: nat)
    requires i <= |rounds| && forall j :: i <= j < |rounds| ==> !Succeeded(rounds[j])
    ensures ZeroFailures(rounds) >= CountZeroFailures(rounds[i..])
  {
    if i < |rounds| {
      FailuresAddUp(rounds[..|rounds| - 1], i);
      assert rounds[i..][..|rounds| - i - 1] == rounds[..|rounds| - 1][i..];
    }
  }

  /** Between two successful new syncs, syncs from zero fail at most three times. */
  lemma {:induction false} AtMostThreeZeroFailures(events: seq<Event>, i: nat, k: nat)
    requires i <= k <= |Run(events).rounds|
    requires forall j :: i <= j < k ==> !Succeeded(Run(events).rounds[j])
    ensures CountZeroFailures(Run(events).rounds[i..k]) <= ZERO_FAILURES + 1
  {
    var rounds := Run(events).rounds;
    var n := EarlierMoment(events, k);
    RunKeepsInv(events[..n]);
    FailuresAddUp(rounds[..k], i);
    assert rounds[..k][i..] == rounds[i..k];
  }

  // ---------- outstanding requests ----------

  function NextRound(s: State, env: Env): Round {
    Chosen(Prepared(s.flags), env)
  }

  /** The round is a new sync from at or below every outstanding positive height. */
  ghost predicate StartsLow(r: Round, outstanding: set<nat>) {
    r.New? && forall h :: h in outstanding && h > 0 ==> r.start <= h
  }

  /** The next round starts low whatever it finds, and still does after any fast request. */
  ghost predicate NextRoundStartsLow(s: State) {
    s.outstanding != {} ==> forall env, height: nat :: StartsLowAfter(s, env, height)
  }

  ghost predicate StartsLowAfter(s: State, env: Env, height: nat) {
    StartsLow(NextRound(s, env), s.outstanding)
      && StartsLow(NextRound(Step(s, FastRequest(height)), env), s.outstanding)
  }

  /** The remembered start is at most one window above each outstanding positive height. */
  ghost predicate StartIsLow(s: State) {
    forall h :: h in s.outstanding && h > 0 ==> s.flags.initialSyncStartHeight <= h + HEIGHT_COUNT
  }

  lemma {:induction false} LowStartIsEnough(s: State, env: Env)
    requires Inv(s) && StartIsLow(s) && s.outstanding != {}
    ensures StartsLow(NextRound(s, env), s.outstanding)
  {
  }

  lemma {:induction false} NextRoundStartsLowIff(s: State)
    requires Inv(s)
    ensures NextRoundStartsLow(s) <==> StartIsLow(s)
  {
    if StartIsLow(s) && s.outstanding != {} {
      forall env, height: nat
        ensures StartsLowAfter(s, env, height)
      {
        LowStartIsEnough(s, env);
        LowStartIsEnough(Step(s, FastRequest(height)), env);
      }
    } else if !StartIsLow(s) {
      var h :| h in s.outstanding && h > 0 && s.flags.initialSyncStartHeight > h + HEIGHT_COUNT;
      var env := Env(s.flags.initialSyncStartHeight, false, false, 0, 0, 0);
      assert NextRound(Step(s, FastRequest(0)), env).start > h;
      assert !StartsLowAfter(s, env, 0);
    }
  }

  /** A request meets a remembered start of zero, which it replaces, although a much lower one is outstanding. */
  ghost predicate Lapse(s: State, e: Event) {
    e.NewRequest? && s.flags.initialSyncStartHeight == 0 && exists h ::
      h in s.outstanding && h > 0 && h + HEIGHT_COUNT < e.height
  }

  /** One step keeps the start low if and only if it is no lapse. */
  lemma {:induction false} StepKeepsStartLowIff(s: State, e: Event)
    requires Inv(s) && StartIsLow(s)
    ensures StartIsLow(Step(s, e)) <==> !Lapse(s, e)
  {
    var next := Step(s, e);
    match e
    case FastRequest(height) =>
    case NewRequest(height) =>
      if Lapse(s, e) {
        var h :| h in s.outstanding && h > 0 && h + HEIGHT_COUNT < e.height;
        assert h in next.outstanding;
      } else {
        forall h | h in next.outstanding && h > 0 ensures next.flags.initialSyncStartHeight <= h + HEIGHT_COUNT {
        }
      }
    case RunRound(env) =>
      forall h | h in next.outstanding && h > 0 ensures next.flags.initialSyncStartHeight <= h + HEIGHT_COUNT {
        assert h in s.outstanding;
      }
  }

  ghost predicate NoLapse(events: seq<Event>) {
    forall n :: 0 <= n < |events| ==> !Lapse(Run(events[..n]), events[n])
  }

  ghost predicate AlwaysStartsLow(events: seq<Event>) {
    forall n :: 0 <= n <= |events| ==> NextRoundStartsLow(Run(events[..n]))
  }

  lemma {:induction false} NoLapseKeepsStartLow(events: seq<Event>)
    requires NoLapse(events)
    ensures StartIsLow(Run(events))
  {
    if events != [] {
      var before := events[..|events| - 1];
      forall n | 0 <= n < |before| ensures !Lapse(Run(before[..n]), before[n]) {
        assert before[..n] == events[..n] && before[n] == events[n];
      }
      NoLapseKeepsStartLow(before);
      RunKeepsInv(before);
      StepKeepsStartLowIff(Run(before), events[|events| - 1]);
    }
  }

  lemma {:induction false} FirstLapse(events: seq<Event>) returns (n: nat)
    requires !NoLapse(events)
    ensures n < |events| && NoLapse(events[..n]) && Lapse(Run(events[..n]), events[n])
  {
    var m :| 0 <= m < |events| && Lapse(Run(events[..m]), events[m]);
    if NoLapse(events[..m]) {
      n := m;
    } else {
      n := FirstLapse(events[..m]);
      assert events[..m][..n] == events[..n] && events[..m][n] == events[n];
    }
  }

  /** While requests are outstanding every round is a new sync that starts at or below each of them, whatever
      it finds, if and only if no request of the run is a lapse. */
  lemma {:induction false} AlwaysStartsLowIffNoLapse(events: seq<Event>)
    ensures AlwaysStartsLow(events) <==> NoLapse(events)
  {
    if NoLapse(events) {
      forall n | 0 <= n <= |events| ensures NextRoundStartsLow(Run(events[..n])) {
        forall m | 0 <= m < n ensures !Lapse(Run(events[..n][..m]), events[..n][m]) {
          assert events[..n][..m] == events[..m];
        }
        NoLapseKeepsStartLow(events[..n]);
        RunKeepsInv(events[..n]);
        NextRoundStartsLowIff(Run(events[..n]));
      }
    } else {
      var n := FirstLapse(events);
      var s := Run(events[..n]);
      NoLapseKeepsStartLow(events[..n]);
      RunKeepsInv(events[..n]);
      StepKeepsStartLowIff(s, events[n]);
      assert events[..n + 1][..n] == events[..n];
      RunKeepsInv(events[..n + 1]);
      NextRoundStartsLowIff(Run(events[..n + 1]));
      assert !NextRoundStartsLow(Run(events[..n + 1]));
    }
  }

  /** Nothing in the run is at height zero: no requested height and no base of a round. */
  ghost predicate Positive(s: State, e: Event) {
    match e
    case FastRequest(_) => true
    case NewRequest(height) => height > 0
    case RunRound(env) => Base(s.flags, env) > 0
  }

  ghost predicate AllPositive(events: seq<Event>) {
    forall n :: 0 <= n < |events| ==> Positive(Run(events[..n]), events[n])
  }

  lemma {:induction false} PositiveStart(events: seq<Event>)
    requires AllPositive(events)
    ensures Run(events).outstanding != {} ==> Run(events).flags.initialSyncStartHeight > 0
  {
    if events != [] {
      var n := |events| - 1;
      forall m | 0 <= m < n ensures Positive(Run(events[..n][..m]), events[..n][m]) {
        assert events[..n][..m] == events[..m];
      }
      PositiveStart(events[..n]);
      RunKeepsInv(events[..n]);
      assert Positive(Run(events[..n]), events[n]);
    }
  }

  /** Without height zero every round starts at or below what is outstanding. */
  lemma {:induction false} PositiveRunsStartLow(events: seq<Event>)
    requires AllPositive(events)
    ensures AlwaysStartsLow(events)
  {
    forall n | 0 <= n < |events| ensures !Lapse(Run(events[..n]), events[n]) {
      forall m | 0 <= m < n ensures Positive(Run(events[..n][..m]), events[..n][m]) {
        assert events[..n][..m] == events[..m];
      }
      PositiveStart(events[..n]);
    }
    AlwaysStartsLowIffNoLapse(events);
  }

  /** A request for height zero lets a later one overwrite the start: the round leaves height 50 out. */
  lemma {:induction false} HeightZeroForgets(env: Env)
    requires env.selfHeight > 1000
    ensures var events := [NewRequest(50), NewRequest(0), NewRequest(1000)];
      50 in Run(events).outstanding && NextRound(Run(events), env) == New(900, 1100, env.newStatus)
  {
    var events := [NewRequest(50), NewRequest(0), NewRequest(1000)];
    assert events[..2] == [NewRequest(50), NewRequest(0)];
    assert [NewRequest(50), NewRequest(0)][..1] == [NewRequest(50)];
    assert [NewRequest(50)][..0] == [];
    assert Run([]) == State(IDLE, {}, []);
    assert Run([NewRequest(50)]).flags.initialSyncStartHeight == 50;
    assert Run(events[..2]).flags.initialSyncStartHeight == 0;
  }

  // ---------- requests above the window ----------

  /** The window of the round holds every outstanding positive height. */
  ghost predicate Holds(r: Round, outstanding: set<nat>) {
    r.New? && forall h :: h in outstanding && h > 0 ==> r.start <= h <= r.end
  }

  /** Where the next new sync for outstanding requests is centred. */
  function Centre(s: State, env: Env): nat {
    Requested(Prepared(s.flags), env)
  }

  /** A positive height more than one window away from the centre. */
  predicate Far(h: nat, centre: nat) {
    h > 0 && (h + HEIGHT_COUNT < centre || centre + HEIGHT_COUNT < h)
  }

  /** The next window holds every outstanding positive height if and only if each is within one window of
      the centre; when the start is low, if and only if none is more than one window above it. */
  lemma {:induction false} WindowHoldsIff(s: State, env: Env)
    requires Inv(s) && s.outstanding != {}
    ensures Holds(NextRound(s, env), s.outstanding) <==> forall h :: h in s.outstanding ==> !Far(h, Centre(s, env))
    ensures StartIsLow(s) ==> (Holds(NextRound(s, env), s.outstanding) <==>
      forall h :: h in s.outstanding && h > 0 ==> h <= Centre(s, env) + HEIGHT_COUNT)
  {
    var c, r := Centre(s, env), NextRound(s, env);
    assert r.New? && r.start == Below(c) && r.end == c + HEIGHT_COUNT;
    forall h | h in s.outstanding && h > 0
      ensures r.start <= h <= r.end <==> !Far(h, c)
      ensures StartIsLow(s) ==> c <= h + HEIGHT_COUNT
    {
    }
  }

  /** The step drops a request although the window of its round did not hold it. */
  ghost predicate Loses(s: State, e: Event) {
    e.RunRound? && Succeeded(NextRound(s, e.env)) && s.outstanding != {} && !Holds(NextRound(s, e.env), s.outstanding)
  }

  /** A round drops requests it did not hold if and only if it succeeds while some outstanding positive height
      is more than one window away from the centre. */
  lemma {:induction false} LosesIff(s: State, env: Env)
    requires Inv(s)
    ensures Loses(s, RunRound(env)) <==> env.newStatus == 0 && exists h :: h in s.outstanding && Far(h, Centre(s, env))
    ensures Loses(s, RunRound(env)) ==> Step(s, RunRound(env)).outstanding == {}
  {
    if s.outstanding != {} {
      WindowHoldsIff(s, env);
      assert NextRound(s, env).New? && NextRound(s, env).status == env.newStatus;
    }
  }

  /** The n-th event is a round that succeeds with a window that holds the height. */
  ghost predicate Synced(events: seq<Event>, n: nat, h: nat)
    requires n < |events| && events[n].RunRound?
  {
    var r := NextRound(Run(events[..n]), events[n].env);
    Succeeded(r) && r.start <= h <= r.end
  }

  /** The i-th request still waits, or a later round has synced its height. */
  ghost predicate Kept(events: seq<Event>, i: nat)
    requires i < |events| && events[i].NewRequest?
  {
    || events[i].height in Run(events).outstanding
    || exists n :: i < n < |events| && events[n].RunRound? && Synced(events, n, events[i].height)
  }

  /** No request for a positive height is ever dropped unsynced. */
  ghost predicate AlwaysKept(events: seq<Event>) {
    forall m, i :: 0 <= i < m <= |events| && events[i].NewRequest? && events[i].height > 0 ==> Kept(events[..m], i)
  }

  /** A round succeeds while an outstanding height is far from its centre. */
  ghost predicate Overreaches(s: State, e: Event) {
    e.RunRound? && e.env.newStatus == 0 && exists h :: h in s.outstanding && Far(h, Centre(s, e.env))
  }

  ghost predicate NeverOverreaches(events: seq<Event>) {
    forall n :: 0 <= n < |events| ==> !Overreaches(Run(events[..n]), events[n])
  }

  lemma {:induction false} SyncedEarlier(events: seq<Event>, m: nat, n: nat, h: nat)
    requires n < m <= |events| && events[n].RunRound?
    ensures Synced(events[..m], n, h) <==> Synced(events, n, h)
  {
    assert events[..m][..n] == events[..n];
  }

  /** One more event keeps a request unless it is a success that overreaches. */
  lemma {:induction false} OneMoreKeeps(events: seq<Event>, i: nat)
    requires i < |events| - 1 && events[i].NewRequest? && events[i].height > 0 && Kept(events[..|events| - 1], i)
    requires !Overreaches(Run(events[..|events| - 1]), events[|events| - 1])
    ensures Kept(events, i)
  {
    var last, h := |events| - 1, events[i].height;
    var s, e := Run(events[..last]), events[last];
    if h !in s.outstanding {
      var n :| i < n < last && events[n].RunRound? && Synced(events[..last], n, h);
      SyncedEarlier(events, last, n, h);
    } else if e.RunRound? && Succeeded(NextRound(s, e.env)) {
      RunKeepsInv(events[..last]);
      LosesIff(s, e.env);
      assert Synced(events, last, h);
    }
  }

  lemma {:induction false} NoOverreachKeeps(events: seq<Event>, i: nat)
    requires NeverOverreaches(events) && i < |events| && events[i].NewRequest? && events[i].height > 0
    ensures Kept(events, i)
  {
    var last := |events| - 1;
    if i < last {
      var before := events[..last];
      forall n | 0 <= n < last ensures !Overreaches(Run(before[..n]), before[n]) {
        assert before[..n] == events[..n];
      }
      NoOverreachKeeps(before, i);
      OneMoreKeeps(events, i);
    }
  }

  /** What is outstanding was requested after the last success. */
  lemma {:induction false} LastRequest(events: seq<Event>, h: nat) returns (i: nat)
    requires h in Run(events).outstanding
    ensures i < |events| && events[i] == NewRequest(h)
    ensures forall n :: i < n < |events| && events[n].RunRound? ==> !Synced(events, n, h)
  {
    var last := |events| - 1;
    var before, e := events[..last], events[last];
    if e == NewRequest(h) {
      i := last;
    } else {
      i := LastRequest(before, h);
      forall n | i < n < |events| && events[n].RunRound? ensures !Synced(events, n, h) {
        if n < last { SyncedEarlier(events, last, n, h); }
      }
    }
  }

  lemma {:induction false} OverreachDrops(events: seq<Event>, n: nat)
    requires n < |events| && Overreaches(Run(events[..n]), events[n])
    ensures !AlwaysKept(events)
  {
    var s, e := Run(events[..n]), events[n];
    var h :| h in s.outstanding && Far(h, Centre(s, e.env));
    var i := LastRequest(events[..n], h);
    var upTo := events[..n + 1];
    assert upTo[..n] == events[..n];
    RunKeepsInv(events[..n]);
    LosesIff(s, e.env);
    WindowMisses(s, e.env, h);
    forall k | i < k < n + 1 && upTo[k].RunRound? ensures !Synced(upTo, k, h) {
      if k < n { SyncedEarlier(upTo, n, k, h); }
    }
    assert !Kept(upTo, i);
  }

  lemma {:induction false} WindowMisses(s: State, env: Env, h: nat)
    requires Inv(s) && h in s.outstanding && Far(h, Centre(s, env))
    ensures var r := NextRound(s, env); r.New? && !(r.start <= h <= r.end)
  {
  }

  /** Throughout a run every request for a positive height waits until a success has synced its height if and
      only if no round succeeds while an outstanding height is more than one window away from its centre. */
  lemma {:induction false} AlwaysKeptIff(events: seq<Event>)
    ensures AlwaysKept(events) <==> NeverOverreaches(events)
  {
    if NeverOverreaches(events) {
      forall m, i | 0 <= i < m <= |events| && events[i].NewRequest? && events[i].height > 0
        ensures Kept(events[..m], i)
      {
        forall n | 0 <= n < m ensures !Overreaches(Run(events[..m][..n]), events[..m][n]) {
          assert events[..m][..n] == events[..n];
        }
        NoOverreachKeeps(events[..m], i);
      }
    } else {
      var n :| 0 <= n < |events| && Overreaches(Run(events[..n]), events[n]);
      OverreachDrops(events, n);
    }
  }

  /** Requests for 50 and 1000: the round asks for heights up to 150, succeeds, and drops both. */
  lemma {:induction false} HighRequestIsLost(env: Env)
    requires env.selfHeight > 2000 && env.newStatus == 0
    ensures var events := [NewRequest(50), NewRequest(1000), RunRound(env)]; var before := Run(events[..2]);
      && AllPositive(events) && before.outstanding == {50, 1000} && NextRound(before, env) == New(1, 150, 0)
      && !AlwaysKept(events) && Run(events).outstanding == {} && !Run(events).flags.executeNewSync
  {
    var events := [NewRequest(50), NewRequest(1000), RunRound(env)];
    assert events[..2][..1] == events[..1] == [NewRequest(50)] && events[..1][..0] == events[..0] == [];
    assert Run([]) == State(IDLE, {}, []);
    assert Run(events[..1]) == Step(Run([]), NewRequest(50));
    assert Run(events[..2]) == Step(Run(events[..1]), NewRequest(1000));
    assert Run(events) == Step(Run(events[..2]), RunRound(env));
    assert 1000 in Run(events[..2]).outstanding && Far(1000, Centre(Run(events[..2]), env));
    OverreachDrops(events, 2);
    forall n | 0 <= n < 3 ensures Positive(Run(events[..n]), events[n]) {
      assert n == 0 || n == 1 || n == 2;
    }
  }

  // ---------- which round runs, and from where ----------

  /** With nothing requested, a new sync asks for exactly the positive heights within one window of its base: the
      failing height when there is one, and the node's own height otherwise. */
  lemma {:induction false} UnrequestedWindow(events: seq<Event>, env: Env, h: nat)
    requires Run(events).outstanding == {} && NextRound(Run(events), env).New? && h > 0
    ensures var failing := Run(events).flags.syncFailHeight;
      var base := if failing != 0 then failing else env.selfHeight;
      var r := NextRound(Run(events), env);
      r.start <= h <= r.end <==> base <= h + 100 && h <= base + 100
  {
    RunKeepsInv(events);
  }

  /** A fast sync starts at the failing height, or just above the node's own when that lies beyond it. */
  lemma {:induction false} FastStart(events: seq<Event>, env: Env)
    requires NextRound(Run(events), env).Fast?
    ensures var failing := Run(events).flags.syncFailHeight;
      NextRound(Run(events), env).start == if failing > env.selfHeight then env.selfHeight + 1 else failing
  {
  }

  /** The event asks for a fast sync: a request, or a fast sync that wants to be repeated. */
  predicate Asks(s: State, e: Event) {
    e.FastRequest? || (e.RunRound? && NextRound(s, e.env).Fast? && e.env.fastFailed)
  }

  ghost predicate AsksFast(events: seq<Event>, n: nat) {
    n < |events| && Asks(Run(events[..n]), events[n])
  }

  function AskedHeight(e: Event): nat {
    match e
    case FastRequest(height) => height
    case NewRequest(_) => 0
    case RunRound(env) => env.failedAt
  }

  /** The n-th event is the last to ask for a fast sync, and no round ran since. */
  ghost predicate FastPendingSince(events: seq<Event>, n: nat) {
    AsksFast(events, n) && forall m :: n < m < |events| ==> !events[m].RunRound?
  }

  ghost predicate FastPending(events: seq<Event>) {
    exists n: nat :: FastPendingSince(events, n)
  }

  /** The fast syncs since the last round that ran in place of a pending one or for a request. */
  ghost function FastTally(events: seq<Event>): nat {
    if events == [] then 0
    else
      var before, e := events[..|events| - 1], events[|events| - 1];
      if !e.RunRound? then FastTally(before)
      else if NextRound(Run(before), e.env).Fast? then FastTally(before) + 1
      else if FastPending(before) || Run(before).outstanding != {} then 0
      else FastTally(before)
  }

  lemma {:induction false} AsksFastEarlier(events: seq<Event>, n: nat, k: nat)
    requires k <= |events|
    ensures AsksFast(events[..k], n) <==> AsksFast(events, n) && n < k
  {
    if n < k { assert events[..k][..n] == events[..n]; }
  }

  lemma {:induction false} FastPendingNext(events: seq<Event>)
    requires events != []
    ensures var k := |events| - 1;
      FastPending(events) <==> AsksFast(events, k) || (!events[k].RunRound? && FastPending(events[..k]))
  {
    var k := |events| - 1;
    forall n: nat ensures AsksFast(events[..k], n) <==> AsksFast(events, n) && n < k { AsksFastEarlier(events, n, k); }
    if n: nat :| FastPendingSince(events, n) {
      assert n == k || FastPendingSince(events[..k], n);
    }
    if !events[k].RunRound? {
      if n: nat :| FastPendingSince(events[..k], n) { assert FastPendingSince(events, n); }
    }
    if AsksFast(events, k) { assert FastPendingSince(events, k); }
  }

  lemma {:induction false} FastFlagNext(s: State, e: Event)
    ensures Step(s, e).flags.runFastSync <==> Asks(s, e) || (!e.RunRound? && s.flags.runFastSync)
  {
  }

  lemma {:induction false} FastCountNext(s: State, e: Event)
    requires Inv(s)
    ensures Step(s, e).flags.runFastSyncCount ==
      if !e.RunRound? then s.flags.runFastSyncCount
      else if NextRound(s, e.env).Fast? then s.flags.runFastSyncCount + 1
      else if s.flags.runFastSync || s.outstanding != {} then 0
      else s.flags.runFastSyncCount
  {
  }

  /** The flag says that a fast sync is pending, and the counter how many ran. */
  lemma {:induction false} FastFlagsMean(events: seq<Event>)
    ensures Run(events).flags.runFastSync <==> FastPending(events)
    ensures Run(events).flags.runFastSyncCount == FastTally(events)
  {
    if events == [] {
      assert !FastPending(events);
    } else {
      var k := |events| - 1;
      var s := Run(events[..k]);
      FastFlagsMean(events[..k]);
      FastPendingNext(events);
      RunKeepsInv(events[..k]);
      FastFlagNext(s, events[k]);
      FastCountNext(s, events[k]);
    }
  }

  /** A fast sync runs if and only if one is pending, nothing is requested, and fewer than five ran in a row of
      pending ones; a sync from zero if and only if no fast sync runs, the chain is far ahead, nothing is requested,
      and at most two syncs from zero failed since the last success. */
  lemma {:induction false} KindOfRound(events: seq<Event>, env: Env)
    ensures NextRound(Run(events), env).Fast? <==>
      FastPending(events) && Run(events).outstanding == {} && FastTally(events) < 5
    ensures NextRound(Run(events), env).FromZero? <==>
      && !NextRound(Run(events), env).Fast? && env.behind && Run(events).outstanding == {}
      && ZeroFailures(Run(events).rounds) <= 2
  {
    RunKeepsInv(events);
    FastFlagsMean(events);
  }

  /** A new sync that does not end with a positive status ends what was asked for. */
  predicate Ends(s: State, e: Event) {
    e.RunRound? && NextRound(s, e.env).New? && e.env.newStatus <= 0
  }

  ghost predicate EndsFailing(events: seq<Event>, n: nat) {
    n < |events| && Ends(Run(events[..n]), events[n])
  }

  lemma {:induction false} FailingHeightNext(s: State, e: Event)
    ensures Step(s, e).flags.syncFailHeight ==
      if Asks(s, e) then AskedHeight(e) else if Ends(s, e) then 0 else s.flags.syncFailHeight
  {
  }

  ghost predicate LastAsked(events: seq<Event>, n: nat) {
    AsksFast(events, n) && forall m: nat :: n < m ==> !AsksFast(events, m) && !EndsFailing(events, m)
  }

  lemma {:induction false} EndsFailingEarlier(events: seq<Event>, n: nat, k: nat)
    requires k <= |events|
    ensures EndsFailing(events[..k], n) <==> EndsFailing(events, n) && n < k
  {
    if n < k { assert events[..k][..n] == events[..n]; }
  }

  lemma {:induction false} LastAskedNext(events: seq<Event>, n: nat)
    requires events != []
    ensures var k := |events| - 1;
      LastAsked(events, n) <==>
        if AsksFast(events, k) then n == k else LastAsked(events[..k], n) && !EndsFailing(events, k)
  {
    var k := |events| - 1;
    forall m: nat
      ensures AsksFast(events[..k], m) <==> AsksFast(events, m) && m < k
      ensures EndsFailing(events[..k], m) <==> EndsFailing(events, m) && m < k
    {
      AsksFastEarlier(events, m, k);
      EndsFailingEarlier(events, m, k);
    }
    assert forall m: nat :: AsksFast(events, m) || EndsFailing(events, m) ==> m <= k;
  }

  lemma {:induction false} FailingHeightAt(events: seq<Event>, n: nat)
    requires LastAsked(events, n)
    ensures Run(events).flags.syncFailHeight == AskedHeight(events[n])
  {
    var k := |events| - 1;
    LastAskedNext(events, n);
    FailingHeightNext(Run(events[..k]), events[k]);
    if n < k { FailingHeightAt(events[..k], n); }
  }

  lemma {:induction false} NoFailingHeight(events: seq<Event>)
    ensures Run(events).flags.syncFailHeight == 0 || exists n: nat :: LastAsked(events, n)
  {
    if events != [] {
      var k := |events| - 1;
      FailingHeightNext(Run(events[..k]), events[k]);
      if AsksFast(events, k) {
        LastAskedNext(events, k);
      } else if !EndsFailing(events, k) {
        NoFailingHeight(events[..k]);
        if n: nat :| LastAsked(events[..k], n) { LastAskedNext(events, n); }
      }
    }
  }

  /** The failing height is the one last asked for, unless a new sync has ended it since; then there is none. */
  lemma {:induction false} FailingHeightMeans(events: seq<Event>)
    ensures forall n: nat :: LastAsked(events, n) ==> Run(events).flags.syncFailHeight == AskedHeight(events[n])
    ensures (forall n: nat :: !LastAsked(events, n)) ==> Run(events).flags.syncFailHeight == 0
  {
    NoFailingHeight(events);
    forall n: nat | LastAsked(events, n) ensures Run(events).flags.syncFailHeight == AskedHeight(events[n]) {
      FailingHeightAt(events, n);
    }
  }

  /** The requests, and the bases of the rounds run for them, since the last success. */
  ghost function Anchors(events: seq<Event>): set<nat> {
    if events == [] then {}
    else NextAnchors(Anchors(events[..|events| - 1]), Run(events[..|events| - 1]), events[|events| - 1])
  }

  function NextAnchors(anchors: set<nat>, s: State, e: Event): set<nat> {
    match e
    case FastRequest(_) => anchors
    case NewRequest(height) => anchors + {height}
    case RunRound(env) =>
      if s.outstanding == {} then anchors
      else if env.newStatus == 0 then {}
      else anchors + {if s.flags.syncFailHeight != 0 then s.flags.syncFailHeight else env.selfHeight}
  }

  ghost predicate IsLeast(h: nat, anchors: set<nat>) {
    h in anchors && forall a :: a in anchors ==> h <= a
  }

  ghost predicate Remembers(s: State, anchors: set<nat>) {
    && s.outstanding <= anchors
    && if s.outstanding == {} then s.flags.initialSyncStartHeight == 0 && anchors == {}
       else IsLeast(s.flags.initialSyncStartHeight, anchors)
  }

  lemma {:induction false} LeastOf(h: nat, anchors: set<nat>, a: nat)
    requires anchors == {} || IsLeast(h, anchors)
    ensures IsLeast(if anchors == {} then a else Min(h, a), anchors + {a})
  {
  }

  lemma {:induction false} RoundRemembers(s: State, env: Env, anchors: set<nat>)
    requires Inv(s) && Remembers(s, anchors)
    ensures Remembers(Step(s, RunRound(env)), NextAnchors(anchors, s, RunRound(env)))
  {
    if s.outstanding != {} && env.newStatus != 0 {
      LeastOf(s.flags.initialSyncStartHeight, anchors, Base(s.flags, env));
      assert Step(s, RunRound(env)).flags.initialSyncStartHeight
          == Min(s.flags.initialSyncStartHeight, Base(s.flags, env));
    }
  }

  lemma {:induction false} StepRemembers(s: State, e: Event, anchors: set<nat>)
    requires Inv(s) && Remembers(s, anchors)
    requires Positive(s, e) && (s.outstanding != {} ==> s.flags.initialSyncStartHeight > 0)
    ensures Remembers(Step(s, e), NextAnchors(anchors, s, e))
  {
    match e
    case FastRequest(_) =>
    case NewRequest(height) => LeastOf(s.flags.initialSyncStartHeight, anchors, height);
    case RunRound(env) => RoundRemembers(s, env, anchors);
  }

  /** Without height zero, the remembered start is the least of the requests and of the bases of the rounds run
      for them; with nothing requested there is none. */
  lemma {:induction false} RememberedStartIsLeast(events: seq<Event>)
    requires AllPositive(events)
    ensures Remembers(Run(events), Anchors(events))
  {
    if events != [] {
      var k := |events| - 1;
      forall m | 0 <= m < k ensures Positive(Run(events[..k][..m]), events[..k][m]) {
        assert events[..k][..m] == events[..m];
      }
      RememberedStartIsLeast(events[..k]);
      PositiveStart(events[..k]);
      RunKeepsInv(events[..k]);
      StepRemembers(Run(events[..k]), events[k], Anchors(events[..k]));
    }
  }

  // ---------- the program ----------

  class SyncBlock {
    var runFastSync: bool
    var runFastSyncCount: nat
    var syncFailHeight: nat
    var executeNewSync: bool
    var initialSyncStartHeight: nat
    var runZeroSyncCount: nat

    ghost function Contents(): Flags
      reads this
    {
      Flags(runFastSync, runFastSyncCount, syncFailHeight, executeNewSync, initialSyncStartHeight, runZeroSyncCount)
    }

    constructor ()
      ensures Contents() == IDLE
    {
      runFastSync, runFastSyncCount, syncFailHeight := false, 0, 0;
      executeNewSync, initialSyncStartHeight, runZeroSyncCount := false, 0, 0;
    }

    method SetFastSync(syncStartHeight: nat)
      modifies this
      ensures Contents() == SetFast(old(Contents()), syncStartHeight)
    {
      runFastSync := true;
      syncFailHeight := syncStartHeight;
    }

    method SetNewSyncHeight(height: nat)
      modifies this
      ensures Contents() == SetNew(old(Contents()), height)
    {
      executeNewSync := true;
      if initialSyncStartHeight == 0 {
        initialSyncStartHeight := height;
      }
      if initialSyncStartHeight > height {
        initialSyncStartHeight := height;
      }
    }

    /** One pass of the thread's loop. */
    method RunOnce(env: Env) returns (round: Round)
      modifies this
      ensures round == Chosen(Prepared(old(Contents())), env)
      ensures Contents() == Finished(Prepared(old(Contents())), env)
    {
      if runFastSyncCount >= FAST_ROUNDS {
        if runFastSync {
          runFastSyncCount := 0;
          runFastSync := false;
        }
      }
      if executeNewSync {
        runFastSyncCount := 0;
        runFastSync := false;
      }
      if runFastSync {
        runFastSyncCount := runFastSyncCount + 1;
        var start := syncFailHeight;
        if start > env.selfHeight {
          start := env.selfHeight + 1;
        }
        round := Fast(start);
        runFastSync := false;
        if env.fastFailed {
          syncFailHeight := env.failedAt;
          runFastSync := true;
        }
      } else {
        var fromZero := env.behind;
        if executeNewSync || runZeroSyncCount > ZERO_FAILURES {
          fromZero := false;
        }
        if fromZero {
          round := FromZero(env.zeroStatus);
          if env.zeroStatus != 0 {
            runZeroSyncCount := runZeroSyncCount + 1;
          }
        } else {
          round := RunNewSync(env);
        }
      }
    }

    method RunNewSync(env: Env) returns (round: Round)
      requires !runFastSync
      requires executeNewSync || runZeroSyncCount > ZERO_FAILURES || !env.behind
      modifies this
      ensures round == Chosen(old(Contents()), env)
      ensures Contents() == Finished(old(Contents()), env)
    {
      var selfHeight := env.selfHeight;
      if syncFailHeight != 0 {
        selfHeight := syncFailHeight;
      }
      var start, end := 1, selfHeight + HEIGHT_COUNT;
      if selfHeight > HEIGHT_COUNT {
        start := selfHeight - HEIGHT_COUNT;
      }
      if executeNewSync {
        if initialSyncStartHeight > selfHeight {
          initialSyncStartHeight := selfHeight;
        }
        start := if initialSyncStartHeight > HEIGHT_COUNT then initialSyncStartHeight - HEIGHT_COUNT else 1;
        end := initialSyncStartHeight + HEIGHT_COUNT;
      }
      round := New(start, end, env.newStatus);
      if env.newStatus < 0 {
        syncFailHeight := 0;
        runFastSync := false;
      }
      if env.newStatus == 0 {
        runZeroSyncCount := 0;
        executeNewSync := false;
        initialSyncStartHeight := 0;
        syncFailHeight := 0;
        runFastSync := false;
      }
    }
  }
}
