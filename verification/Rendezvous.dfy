/** The request/reply rendezvous (common/global_data.cpp): replies to a message id are collected
    until enough arrived. Calls run concurrently; each step below is one critical section, and a
    call that found its entry keeps the reference even after the id is erased. */
module Rendezvous {

  /** A reply with its sender; the program keeps the payload only. */
  datatype Reply = Reply(sender: string, payload: string)

  /** registrations counts how often each responder was registered, which the program does not keep. */
  datatype Entry = Entry(msgId: string, retNum: nat, data: seq<Reply>, resIds: set<string>,
                         registrations: multiset<string>)

  /** The guarded state: ids to entries, and every entry ever made (a shared pointer is its index). */
  datatype Shared = Shared(table: map<string, nat>, entries: seq<Entry>)

  // ---------- the critical sections ----------

  /** std::map::insert: an id already present keeps its entry. */
  function Create(m: Shared, id: string, retNum: nat): Shared {
    Shared(if id in m.table then m.table else m.table[id := |m.entries|],
           m.entries + [Entry(id, retNum, [], {}, multiset{})])
  }

  function Register(m: Shared, ref: nat, res: string): Shared
    requires ref < |m.entries|
  {
    var e := m.entries[ref];
    m.(entries := m.entries[ref := e.(resIds := e.resIds + {res}, registrations := e.registrations + multiset{res})])
  }

  /** A reply counts only while its sender is registered, and uses the registration up. */
  function Deliver(m: Shared, ref: nat, reply: Reply): Shared
    requires ref < |m.entries|
  {
    var e := m.entries[ref];
    if reply.sender !in e.resIds then m
    else m.(entries := m.entries[ref := e.(resIds := e.resIds - {reply.sender}, data := e.data + [reply])])
  }

  function Erase(m: Shared, id: string): Shared {
    m.(table := m.table - {id})
  }

  // ---------- interleavings ----------

  /** Where a thread stands between the critical sections of its call. */
  datatype Pc =
    | Idle
    | Registering(ref: nat, res: string)
    | Delivering(ref: nat, reply: Reply)
    | Waiting(id: string, ref: nat)
    | Sleeping(id: string, ref: nat)
    | Copied(id: string, ref: nat, data: seq<Reply>)

  /** What one WaitData call returned. */
  datatype Result = Result(id: string, ref: nat, data: seq<Reply>, ok: bool)

  datatype State = State(shared: Shared, pcs: map<nat, Pc>, results: seq<Result>)

  datatype Action =
    | CreateWait(id: string, retNum: nat)
    | StartAddResNode(t: nat, id: string, res: string)
    | StartDataToAdd(t: nat, id: string, reply: Reply)
    | StartWaitData(t: nat, id: string)
    | Continue(t: nat)

  function PcOf(s: State, t: nat): Pc {
    if t in s.pcs then s.pcs[t] else Idle
  }

  function MoveTo(s: State, t: nat, pc: Pc): State {
    s.(pcs := s.pcs[t := pc])
  }

  /** A call begins with a lookup; when the id is unknown it returns false at once. */
  function Lookup(s: State, t: nat, id: string, next: nat -> Pc): State {
    if PcOf(s, t).Idle? && id in s.shared.table then MoveTo(s, t, next(s.shared.table[id])) else s
  }

  function Advance(s: State, t: nat): State {
    match PcOf(s, t)
    case Idle => s
    case Registering(ref, res) =>
      if ref < |s.shared.entries| then MoveTo(s, t, Idle).(shared := Register(s.shared, ref, res)) else s
    case Delivering(ref, reply) =>
      if ref < |s.shared.entries| then MoveTo(s, t, Idle).(shared := Deliver(s.shared, ref, reply)) else s
    case Waiting(id, ref) =>
      if ref >= |s.shared.entries| then s
      else if |s.shared.entries[ref].data| < s.shared.entries[ref].retNum then MoveTo(s, t, Sleeping(id, ref))
      else MoveTo(s, t, Copied(id, ref, s.shared.entries[ref].data))
    case Sleeping(id, ref) =>
      if ref < |s.shared.entries| then MoveTo(s, t, Copied(id, ref, s.shared.entries[ref].data)) else s
    case Copied(id, ref, data) =>
      if ref >= |s.shared.entries| then s
      else MoveTo(s, t, Idle).(
        shared := Erase(s.shared, id),
        results := s.results + [Result(id, ref, data, |data| >= s.shared.entries[ref].retNum)])
  }

  function Step(s: State, a: Action): State {
    match a
    case CreateWait(id, retNum) => s.(shared := Create(s.shared, id, retNum))
    case StartAddResNode(t, id, res) => Lookup(s, t, id, (ref: nat) => Registering(ref, res))
    case StartDataToAdd(t, id, reply) => Lookup(s, t, id, (ref: nat) => Delivering(ref, reply))
    case StartWaitData(t, id) => Lookup(s, t, id, (ref: nat) => Waiting(id, ref))
    case Continue(t) => Advance(s, t)
  }

  const INITIAL := State(Shared(map[], []), map[], [])

  function Run(actions: seq<Action>): State {
    if actions == [] then INITIAL else Step(Run(actions[..|actions| - 1]), actions[|actions| - 1])
  }

  // ---------- the invariant ----------

  function Senders(data: seq<Reply>): multiset<string> {
    if data == [] then multiset{} else Senders(data[..|data| - 1]) + multiset{data[|data| - 1].sender}
  }

  /** Replies counted and registrations still open never exceed the registrations made. */
  ghost predicate Accounted(e: Entry) {
    Senders(e.data) + multiset(e.resIds) <= e.registrations
  }

  /** The data a waiter took is an initial part of what its entry collected. */
  ghost predicate TakenFrom(data: seq<Reply>, m: Shared, id: string, ref: nat) {
    ref < |m.entries| && m.entries[ref].msgId == id && data <= m.entries[ref].data
  }

  ghost predicate PcOk(m: Shared, pc: Pc) {
    match pc
    case Idle => true
    case Registering(ref, res) => ref < |m.entries|
    case Delivering(ref, reply) => ref < |m.entries|
    case Waiting(id, ref) => TakenFrom([], m, id, ref)
    case Sleeping(id, ref) => TakenFrom([], m, id, ref)
    case Copied(id, ref, data) => TakenFrom(data, m, id, ref)
  }

  ghost predicate ResultOk(m: Shared, r: Result) {
    TakenFrom(r.data, m, r.id, r.ref) && r.ok == (|r.data| >= m.entries[r.ref].retNum)
  }

  ghost predicate Inv(s: State) {
    && (forall id :: id in s.shared.table ==> TakenFrom([], s.shared, id, s.shared.table[id]))
    && AllAccounted(s.shared)
    && (forall t :: t in s.pcs ==> PcOk(s.shared, s.pcs[t]))
    && (forall r :: r in s.results ==> ResultOk(s.shared, r))
  }

  /** Every entry of the next state extends the one before. */
  ghost predicate Grows(m: Shared, n: Shared) {
    && |m.entries| <= |n.entries|
    && forall i :: 0 <= i < |m.entries| ==>
      n.entries[i].msgId == m.entries[i].msgId && n.entries[i].retNum == m.entries[i].retNum
        && m.entries[i].data <= n.entries[i].data
      && m.entries[i].registrations <= n.entries[i].registrations
  }

  lemma {:induction false} GrowthKeepsPcs(m: Shared, n: Shared)
    requires Grows(m, n)
    ensures forall pc :: PcOk(m, pc) ==> PcOk(n, pc)
    ensures forall r :: ResultOk(m, r) ==> ResultOk(n, r)
    ensures forall data, id, ref :: TakenFrom(data, m, id, ref) ==> TakenFrom(data, n, id, ref)
  {
  }

  lemma {:induction false} RegisterAccounted(e: Entry, res: string)
    requires Accounted(e)
    ensures Accounted(e.(resIds := e.resIds + {res}, registrations := e.registrations + multiset{res}))
  {
    assert multiset(e.resIds + {res}) <= multiset(e.resIds) + multiset{res};
  }

  lemma {:induction false} DeliverAccounted(e: Entry, reply: Reply)
    requires Accounted(e) && reply.sender in e.resIds
    ensures Accounted(e.(resIds := e.resIds - {reply.sender}, data := e.data + [reply]))
  {
    assert (e.data + [reply])[..|e.data|] == e.data;
    assert multiset(e.resIds - {reply.sender}) + multiset{reply.sender} == multiset(e.resIds);
  }

  ghost predicate AllAccounted(m: Shared) {
    forall i :: 0 <= i < |m.entries| ==> Accounted(m.entries[i])
  }

  lemma {:induction false} RegisterGrows(m: Shared, ref: nat, res: string)
    requires ref < |m.entries| && AllAccounted(m)
    ensures Grows(m, Register(m, ref, res)) && AllAccounted(Register(m, ref, res))
  {
    RegisterAccounted(m.entries[ref], res);
  }

  lemma {:induction false} DeliverGrows(m: Shared, ref: nat, reply: Reply)
    requires ref < |m.entries| && AllAccounted(m)
    ensures Grows(m, Deliver(m, ref, reply)) && AllAccounted(Deliver(m, ref, reply))
  {
    if reply.sender in m.entries[ref].resIds {
      DeliverAccounted(m.entries[ref], reply);
    }
  }

  /** What the shared state becomes when a call advances. */
  function SharedAfter(m: Shared, pc: Pc): Shared {
    match pc
    case Registering(ref, res) => if ref < |m.entries| then Register(m, ref, res) else m
    case Delivering(ref, reply) => if ref < |m.entries| then Deliver(m, ref, reply) else m
    case Copied(id, ref, data) => if ref < |m.entries| then Erase(m, id) else m
    case _ => m
  }

  lemma {:induction false} AdvanceShared(s: State, t: nat)
    ensures Advance(s, t).shared == SharedAfter(s.shared, PcOf(s, t))
  {
  }

  ghost predicate TableShrinks(m: Shared, n: Shared) {
    n.table.Keys <= m.table.Keys && forall id :: id in n.table ==> n.table[id] == m.table[id]
  }

  /** No entry loses data, and the table only loses ids. */
  lemma {:induction false} AdvanceGrows(s: State, t: nat)
    requires AllAccounted(s.shared)
    ensures Grows(s.shared, Advance(s, t).shared) && AllAccounted(Advance(s, t).shared)
    ensures TableShrinks(s.shared, Advance(s, t).shared) && |Advance(s, t).shared.entries| == |s.shared.entries|
  {
    AdvanceShared(s, t);
    match PcOf(s, t)
    case Registering(ref, res) =>
      if ref < |s.shared.entries| { RegisterGrows(s.shared, ref, res); }
    case Delivering(ref, reply) =>
      if ref < |s.shared.entries| { DeliverGrows(s.shared, ref, reply); }
    case _ =>
  }

  lemma {:induction false} AdvanceKeepsInv(s: State, t: nat)
    requires Inv(s)
    ensures Inv(Advance(s, t))
  {
    AdvanceGrows(s, t);
    GrowthKeepsPcs(s.shared, Advance(s, t).shared);
    assert PcOk(s.shared, PcOf(s, t));
  }

  lemma {:induction false} StepKeepsInv(s: State, a: Action)
    requires Inv(s)
    ensures Inv(Step(s, a))
  {
    match a
    case CreateWait(id, retNum) => CreateKeepsInv(s, id, retNum);
    case Continue(t) => AdvanceKeepsInv(s, t);
    case _ =>
  }

  lemma {:induction false} CreateKeepsInv(s: State, id: string, retNum: nat)
    requires Inv(s)
    ensures Inv(s.(shared := Create(s.shared, id, retNum)))
  {
    var n := Create(s.shared, id, retNum);
    GrowthKeepsPcs(s.shared, n);
    assert Accounted(n.entries[|s.shared.entries|]);
    assert n.entries[|s.shared.entries|].msgId == id;
  }

  /** In every reachable state replies are accounted for and every reference and result is sound. */
  lemma {:induction false} RunKeepsInv(actions: seq<Action>)
    ensures Inv(Run(actions))
  {
    if actions == [] {
      assert Run(actions) == INITIAL;
    } else {
      var n := |actions| - 1;
      RunKeepsInv(actions[..n]);
      StepKeepsInv(Run(actions[..n]), actions[n]);
    }
  }

  // ---------- what a result means ----------

  lemma {:induction false} SendersPrefix(data: seq<Reply>, n: nat)
    requires n <= |data|
    ensures Senders(data[..n]) <= Senders(data)
  {
    if n < |data| {
      SendersPrefix(data[..|data| - 1], n);
      assert data[..|data| - 1][..n] == data[..n];
    } else {
      assert data[..n] == data;
    }
  }

  lemma {:induction false} SendersSize(data: seq<Reply>)
    ensures |Senders(data)| == |data|
    ensures forall r :: r in data ==> r.sender in Senders(data)
  {
    if data != [] {
      SendersSize(data[..|data| - 1]);
      assert data == data[..|data| - 1] + [data[|data| - 1]];
    }
  }

  /** Over every interleaving: no responder's replies are counted more often than it was registered,
      and the result is true exactly when the returned replies reach the requested number. */
  lemma {:induction false} ResultsAreAccounted(actions: seq<Action>, r: Result)
    requires r in Run(actions).results
    ensures r.ref < |Run(actions).shared.entries|
    ensures Run(actions).shared.entries[r.ref].msgId == r.id
    ensures Senders(r.data) <= Run(actions).shared.entries[r.ref].registrations
    ensures r.ok <==> |r.data| >= Run(actions).shared.entries[r.ref].retNum
  {
    RunKeepsInv(actions);
    var e := Run(actions).shared.entries[r.ref];
    assert r.data == e.data[..|r.data|];
    SendersPrefix(e.data, |r.data|);
    assert Accounted(e);
  }

  // ---------- when no responder counts twice ----------

  /** Each responder has answered at most once, or may still answer for the first time. */
  ghost predicate OnceEach(e: Entry) {
    forall x :: Senders(e.data)[x] + (if x in e.resIds then 1 else 0) <= 1
  }

  ghost predicate OnceAt(s: State, ref: nat) {
    SharedOnce(s.shared, ref)
  }

  /** A responder is registered that has already answered. */
  ghost predicate Again(s: State, a: Action, ref: nat) {
    && a.Continue? && PcOf(s, a.t).Registering? && PcOf(s, a.t).ref == ref && ref < |s.shared.entries|
    && PcOf(s, a.t).res in Senders(s.shared.entries[ref].data)
  }

  lemma {:induction false} RegisterOnceIff(e: Entry, res: string)
    requires OnceEach(e)
    ensures OnceEach(e.(resIds := e.resIds + {res}, registrations := e.registrations + multiset{res}))
        <==> res !in Senders(e.data)
  {
    var next := e.(resIds := e.resIds + {res}, registrations := e.registrations + multiset{res});
    forall x ensures x != res ==> Senders(next.data)[x] + (if x in next.resIds then 1 else 0) <= 1 {
      assert Senders(e.data)[x] + (if x in e.resIds then 1 else 0) <= 1;
    }
    assert res in next.resIds;
  }

  lemma {:induction false} DeliverOnce(e: Entry, reply: Reply)
    requires OnceEach(e) && reply.sender in e.resIds
    ensures OnceEach(e.(resIds := e.resIds - {reply.sender}, data := e.data + [reply]))
  {
    var next := e.(resIds := e.resIds - {reply.sender}, data := e.data + [reply]);
    assert next.data[..|e.data|] == e.data;
    assert Senders(next.data) == Senders(e.data) + multiset{reply.sender};
    forall x ensures Senders(next.data)[x] + (if x in next.resIds then 1 else 0) <= 1 {
      assert Senders(e.data)[x] + (if x in e.resIds then 1 else 0) <= 1;
    }
  }

  ghost predicate SharedOnce(m: Shared, ref: nat) {
    ref < |m.entries| ==> OnceEach(m.entries[ref])
  }

  lemma {:induction false} RegisterSharedOnceIff(m: Shared, k: nat, res: string, ref: nat)
    requires SharedOnce(m, ref) && k < |m.entries|
    ensures SharedOnce(Register(m, k, res), ref) <==> !(k == ref && res in Senders(m.entries[ref].data))
  {
    if k == ref { RegisterOnceIff(m.entries[ref], res); }
  }

  lemma {:induction false} DeliverSharedOnce(m: Shared, k: nat, reply: Reply, ref: nat)
    requires SharedOnce(m, ref) && k < |m.entries|
    ensures SharedOnce(Deliver(m, k, reply), ref)
  {
    if k == ref && reply.sender in m.entries[ref].resIds { DeliverOnce(m.entries[ref], reply); }
  }

  lemma {:induction false} AdvanceOnceIff(s: State, t: nat, ref: nat)
    requires OnceAt(s, ref)
    ensures OnceAt(Advance(s, t), ref) <==> !Again(s, Continue(t), ref)
  {
    AdvanceShared(s, t);
    match PcOf(s, t)
    case Registering(k, res) =>
      if k < |s.shared.entries| { RegisterSharedOnceIff(s.shared, k, res, ref); }
    case Delivering(k, reply) =>
      if k < |s.shared.entries| { DeliverSharedOnce(s.shared, k, reply, ref); }
    case _ =>
  }

  lemma {:induction false} StepOnceIff(s: State, a: Action, ref: nat)
    requires OnceAt(s, ref)
    ensures OnceAt(Step(s, a), ref) <==> !Again(s, a, ref)
  {
    match a
    case CreateWait(id, retNum) => assert OnceEach(Entry(id, retNum, [], {}, multiset{}));
    case Continue(t) => AdvanceOnceIff(s, t, ref);
    case _ =>
  }

  ghost predicate NeverAgain(actions: seq<Action>, ref: nat) {
    forall n :: 0 <= n < |actions| ==> !Again(Run(actions[..n]), actions[n], ref)
  }

  ghost predicate AlwaysOnce(actions: seq<Action>, ref: nat) {
    forall n :: 0 <= n <= |actions| ==> OnceAt(Run(actions[..n]), ref)
  }

  lemma {:induction false} PrefixNeverAgain(actions: seq<Action>, ref: nat, k: nat)
    requires NeverAgain(actions, ref) && k <= |actions|
    ensures NeverAgain(actions[..k], ref)
  {
    forall n | 0 <= n < k ensures !Again(Run(actions[..k][..n]), actions[..k][n], ref) {
      assert actions[..k][..n] == actions[..n];
    }
  }

  lemma {:induction false} NeverAgainKeepsOnce(actions: seq<Action>, ref: nat)
    requires NeverAgain(actions, ref)
    ensures OnceAt(Run(actions), ref)
  {
    if actions != [] {
      var m := |actions| - 1;
      PrefixNeverAgain(actions, ref, m);
      NeverAgainKeepsOnce(actions[..m], ref);
      StepOnceIff(Run(actions[..m]), actions[m], ref);
    }
  }

  lemma {:induction false} AgainBreaksOnce(actions: seq<Action>, ref: nat, n: nat)
    requires n < |actions| && Again(Run(actions[..n]), actions[n], ref)
    ensures !OnceAt(Run(actions[..n]), ref) || !OnceAt(Run(actions[..n + 1]), ref)
  {
    assert actions[..n + 1][..n] == actions[..n];
    if OnceAt(Run(actions[..n]), ref) {
      StepOnceIff(Run(actions[..n]), actions[n], ref);
    }
  }

  /** Over every interleaving, no responder of an entry counts twice or may come to count twice if and only
      if none is registered with it after it answered. */
  lemma {:induction false} AlwaysOnceIffNeverAgain(actions: seq<Action>, ref: nat)
    ensures AlwaysOnce(actions, ref) <==> NeverAgain(actions, ref)
  {
    if NeverAgain(actions, ref) {
      forall n | 0 <= n <= |actions| ensures OnceAt(Run(actions[..n]), ref) {
        PrefixNeverAgain(actions, ref, n);
        NeverAgainKeepsOnce(actions[..n], ref);
      }
    } else {
      var n :| 0 <= n < |actions| && Again(Run(actions[..n]), actions[n], ref);
      AgainBreaksOnce(actions, ref, n);
    }
  }

  lemma {:induction false} OnceEachIsASet(m: multiset<string>) returns (s: set<string>)
    requires forall x :: m[x] <= 1
    ensures multiset(s) == m && |s| == |m|
  {
    s := set x | x in m;
    assert multiset(s) == m;
    SetSize(s);
  }

  lemma {:induction false} SetSize(s: set<string>)
    ensures |multiset(s)| == |s|
  {
    if x :| x in s {
      SetSize(s - {x});
      assert multiset(s) == multiset(s - {x}) + multiset{x};
    }
  }

  /** While no responder is registered after it answered, a true result means that at least the requested
      number of distinct registered responders answered, however often each was registered before. */
  lemma {:induction false} TrueMeansEnoughResponders(actions: seq<Action>, r: Result) returns (who: set<string>)
    requires r in Run(actions).results && r.ok && NeverAgain(actions, r.ref)
    ensures r.ref < |Run(actions).shared.entries| && |who| >= Run(actions).shared.entries[r.ref].retNum
    ensures forall x :: x in who ==> x in Run(actions).shared.entries[r.ref].registrations
    ensures multiset(who) == Senders(r.data)
  {
    ResultsAreAccounted(actions, r);
    SendersSize(r.data);
    NeverAgainKeepsOnce(actions, r.ref);
    RunKeepsInv(actions);
    var e := Run(actions).shared.entries[r.ref];
    assert r.data == e.data[..|r.data|];
    SendersPrefix(e.data, |r.data|);
    forall x ensures Senders(r.data)[x] <= 1 {
      assert Senders(e.data)[x] + (if x in e.resIds then 1 else 0) <= 1;
    }
    who := OnceEachIsASet(Senders(r.data));
  }

  lemma {:induction false} RunGrows(actions: seq<Action>, n: nat)
    requires n <= |actions|
    ensures Grows(Run(actions[..n]).shared, Run(actions).shared)
  {
    if n == |actions| {
      assert actions[..n] == actions;
    } else {
      var init := actions[..|actions| - 1];
      assert init[..n] == actions[..n];
      RunGrows(init, n);
      RunKeepsInv(init);
      StepGrows(Run(init), actions[|actions| - 1]);
    }
  }

  lemma {:induction false} StepGrows(s: State, a: Action)
    requires AllAccounted(s.shared)
    ensures Grows(s.shared, Step(s, a).shared)
  {
    if a.Continue? { AdvanceGrows(s, a.t); }
  }

  lemma {:induction false} AgainRegistersTwice(s: State, a: Action, ref: nat)
    requires AllAccounted(s.shared) && Again(s, a, ref)
    ensures ref < |Step(s, a).shared.entries| && Step(s, a).shared.entries[ref].registrations[PcOf(s, a.t).res] >= 2
  {
    assert Accounted(s.shared.entries[ref]);
    AdvanceShared(s, a.t);
  }

  lemma {:induction false} AgainShows(actions: seq<Action>, ref: nat, n: nat) returns (x: string)
    requires n < |actions| && Again(Run(actions[..n]), actions[n], ref)
    ensures ref < |Run(actions).shared.entries| && Run(actions).shared.entries[ref].registrations[x] >= 2
  {
    var s := Run(actions[..n]);
    x := PcOf(s, actions[n].t).res;
    assert actions[..n + 1][..n] == actions[..n];
    RunKeepsInv(actions[..n]);
    AgainRegistersTwice(s, actions[n], ref);
    RunGrows(actions, n + 1);
  }

  /** In particular, when each responder is registered once in the whole run. */
  lemma {:induction false} RegisteredOnceIsNeverAgain(actions: seq<Action>, ref: nat)
    requires ref < |Run(actions).shared.entries|
    requires forall x :: Run(actions).shared.entries[ref].registrations[x] <= 1
    ensures NeverAgain(actions, ref)
  {
    forall n | 0 <= n < |actions| ensures !Again(Run(actions[..n]), actions[n], ref) {
      if Again(Run(actions[..n]), actions[n], ref) {
        var x := AgainShows(actions, ref, n);
      }
    }
  }

  /** One responder is registered and answers, all in one thread. */
  function RegisterAndAnswer(id: string, peer: string, text: string): seq<Action> {
    [StartAddResNode(0, id, peer), Continue(0), StartDataToAdd(0, id, Reply(peer, text)), Continue(0)]
  }

  lemma {:induction false} RegisterAndAnswerSteps(before: seq<Action>, id: string, peer: string, text: string)
    requires var s := Run(before);
      PcOf(s, 0).Idle? && id in s.shared.table && s.shared.table[id] < |s.shared.entries|
    ensures var s := Run(before);
      var u := Run(before + RegisterAndAnswer(id, peer, text));
      var ref := s.shared.table[id];
      && PcOf(u, 0).Idle? && u.results == s.results
      && u.shared == Deliver(Register(s.shared, ref, peer), ref, Reply(peer, text))
  {
    var a := RegisterAndAnswer(id, peer, text);
    RunNext(before, a[0]);
    RunNext(before + [a[0]], a[1]);
    RunNext(before + [a[0]] + [a[1]], a[2]);
    RunNext(before + [a[0]] + [a[1]] + [a[2]], a[3]);
    assert before + a == before + [a[0]] + [a[1]] + [a[2]] + [a[3]];
  }

  /** An id is created for two replies, and one peer is registered and answers twice. */
  function TwoAnswers(id: string, peer: string, x: string, y: string): seq<Action> {
    [CreateWait(id, 2)] + RegisterAndAnswer(id, peer, x) + RegisterAndAnswer(id, peer, y)
  }

  lemma {:induction false} CreateFirst(id: string)
    ensures var s := Run([CreateWait(id, 2)]);
      s.shared == Shared(map[id := 0], [Entry(id, 2, [], {}, multiset{})]) && s.results == [] && PcOf(s, 0).Idle?
  {
    assert [CreateWait(id, 2)][..0] == [];
  }

  lemma {:induction false} TwoAnswersAreTaken(id: string, peer: string, x: string, y: string)
    ensures var s := Run(TwoAnswers(id, peer, x, y));
      && s.shared.table == map[id := 0] && |s.shared.entries| == 1 && s.results == [] && PcOf(s, 0).Idle?
      && s.shared.entries[0].retNum == 2 && s.shared.entries[0].data == [Reply(peer, x), Reply(peer, y)]
  {
    CreateFirst(id);
    RegisterAndAnswerSteps([CreateWait(id, 2)], id, peer, x);
    RegisterAndAnswerSteps([CreateWait(id, 2)] + RegisterAndAnswer(id, peer, x), id, peer, y);
  }

  lemma {:induction false} WaitTakesAll(before: seq<Action>, id: string)
    requires var s := Run(before);
      && PcOf(s, 0).Idle? && id in s.shared.table && s.shared.table[id] < |s.shared.entries|
      && |s.shared.entries[s.shared.table[id]].data| >= s.shared.entries[s.shared.table[id]].retNum
    ensures var s := Run(before); var ref := s.shared.table[id];
      Run(before + [StartWaitData(0, id)] + [Continue(0)] + [Continue(0)]).results
      == s.results + [Result(id, ref, s.shared.entries[ref].data, true)]
  {
    RunNext(before, StartWaitData(0, id));
    RunNext(before + [StartWaitData(0, id)], Continue(0));
    RunNext(before + [StartWaitData(0, id)] + [Continue(0)], Continue(0));
  }

  /** A peer that is registered again after it answered: a wait for two succeeds on its two replies. */
  lemma {:induction false} ReRegistrationCountsTwice(id: string, peer: string, x: string, y: string)
    ensures Run(TwoAnswers(id, peer, x, y) + [StartWaitData(0, id)] + [Continue(0)] + [Continue(0)]).results
         == [Result(id, 0, [Reply(peer, x), Reply(peer, y)], true)]
  {
    TwoAnswersAreTaken(id, peer, x, y);
    WaitTakesAll(TwoAnswers(id, peer, x, y), id);
  }

  // ---------- after the wait has ended ----------

  /** The step ends a wait on the id. */
  predicate Ends(s: State, a: Action, id: string) {
    a.Continue? && PcOf(s, a.t).Copied? && PcOf(s, a.t).id == id && PcOf(s, a.t).ref < |s.shared.entries|
  }

  /** An id is known after a step exactly when the step creates it, or it was known and the step does not end it. */
  lemma {:induction false} KnownAfterStepIff(s: State, a: Action, id: string)
    ensures id in Step(s, a).shared.table
        <==> (a.CreateWait? && a.id == id) || (id in s.shared.table && !Ends(s, a, id))
  {
    if a.Continue? { AdvanceShared(s, a.t); }
  }

  ghost predicate EndsAt(actions: seq<Action>, m: nat, id: string) {
    m < |actions| && Ends(Run(actions[..m]), actions[m], id)
  }

  ghost predicate CreatesAt(actions: seq<Action>, n: nat, id: string) {
    n < |actions| && actions[n].CreateWait? && actions[n].id == id
  }

  /** The id was created in the n-th step and no wait on it ended since. */
  ghost predicate OpenSince(actions: seq<Action>, id: string, n: nat) {
    CreatesAt(actions, n, id) && forall m: nat :: n < m ==> !EndsAt(actions, m, id)
  }

  lemma {:induction false} AtInit(actions: seq<Action>, m: nat, id: string)
    requires actions != []
    ensures var k := |actions| - 1;
      && (EndsAt(actions, m, id)
        <==> EndsAt(actions[..k], m, id) || (m == k && Ends(Run(actions[..k]), actions[k], id)))
      && (CreatesAt(actions, m, id)
        <==> CreatesAt(actions[..k], m, id) || (m == k && actions[k].CreateWait? && actions[k].id == id))
  {
    var k := |actions| - 1;
    if m < k {
      assert actions[..k][..m] == actions[..m] && actions[..k][m] == actions[m];
    }
  }

  lemma {:induction false} OpenSinceGrows(actions: seq<Action>, id: string, n: nat)
    requires actions != []
    ensures var k := |actions| - 1;
      OpenSince(actions, id, n) <==>
        (n == k && actions[k].CreateWait? && actions[k].id == id)
          || (OpenSince(actions[..k], id, n) && !Ends(Run(actions[..k]), actions[k], id))
  {
    var k := |actions| - 1;
    AtInit(actions, n, id);
    forall m: nat
      ensures EndsAt(actions, m, id)
          <==> EndsAt(actions[..k], m, id) || (m == k && Ends(Run(actions[..k]), actions[k], id))
    {
      AtInit(actions, m, id);
    }
    assert EndsAt(actions, k, id) <==> Ends(Run(actions[..k]), actions[k], id);
  }

  /** Over every interleaving, and however often ids repeat, calls on an id find it exactly when it was
      created and no wait on it has ended since. */
  lemma {:induction false} KnownIffOpen(actions: seq<Action>, id: string)
    ensures id in Run(actions).shared.table <==> exists n: nat :: OpenSince(actions, id, n)
  {
    if actions != [] {
      var k := |actions| - 1;
      KnownIffOpen(actions[..k], id);
      KnownAfterStepIff(Run(actions[..k]), actions[k], id);
      forall n: nat ensures OpenSince(actions, id, n) <==>
        (n == k && actions[k].CreateWait? && actions[k].id == id)
          || (OpenSince(actions[..k], id, n) && !Ends(Run(actions[..k]), actions[k], id))
      {
        OpenSinceGrows(actions, id, n);
      }
      if n: nat :| OpenSince(actions[..k], id, n) {
        assert OpenSince(actions, id, n) || Ends(Run(actions[..k]), actions[k], id);
      }
      assert OpenSince(actions, id, k) || !(actions[k].CreateWait? && actions[k].id == id);
    }
  }

  ghost predicate NotCreated(actions: seq<Action>, id: string) {
    forall i :: 0 <= i < |actions| ==> !(actions[i].CreateWait? && actions[i].id == id)
  }

  lemma {:induction false} RunNext(actions: seq<Action>, a: Action)
    ensures Run(actions + [a]) == Step(Run(actions), a)
  {
    assert (actions + [a])[..|actions|] == actions;
  }

  lemma {:induction false} UnknownNext(actions: seq<Action>, a: Action, id: string)
    requires id !in Run(actions).shared.table && !(a.CreateWait? && a.id == id)
    ensures id !in Run(actions + [a]).shared.table
  {
    RunNext(actions, a);
    KnownAfterStepIff(Run(actions), a, id);
  }

  lemma {:induction false} LastApart(before: seq<Action>, between: seq<Action>)
    requires between != []
    ensures before + between == before + between[..|between| - 1] + [between[|between| - 1]]
  {
  }

  lemma {:induction false} StaysUnknown(before: seq<Action>, between: seq<Action>, id: string)
    requires id !in Run(before).shared.table && NotCreated(between, id)
    ensures id !in Run(before + between).shared.table
  {
    if between == [] {
      assert before + between == before;
    } else {
      var n := |between| - 1;
      StaysUnknown(before, between[..n], id);
      UnknownNext(before + between[..n], between[n], id);
      LastApart(before, between);
    }
  }

  /** Once a wait on an id has ended, no call on it finds it until the same id is created again: whatever else
      happens in between, the call changes nothing and returns false. */
  lemma {:induction false} NoCallAfterTheEnd(before: seq<Action>, end: Action, between: seq<Action>, id: string,
                                             call: Action)
    requires Ends(Run(before), end, id) && NotCreated(between, id)
    requires (call.StartAddResNode? || call.StartDataToAdd? || call.StartWaitData?) && call.id == id
    ensures id !in Run(before + [end] + between).shared.table
    ensures Step(Run(before + [end] + between), call) == Run(before + [end] + between)
  {
    RunNext(before, end);
    KnownAfterStepIff(Run(before), end, id);
    StaysUnknown(before + [end], between, id);
  }

  // ---------- what is collected ----------

  /** The step registers a responder with an entry. */
  predicate Registers(s: State, a: Action, ref: nat, res: string) {
    a.Continue? && PcOf(s, a.t) == Registering(ref, res)
  }

  /** The step delivers a reply of a responder to an entry. */
  predicate Answers(s: State, a: Action, ref: nat, res: string) {
    a.Continue? && PcOf(s, a.t).Delivering? && PcOf(s, a.t).ref == ref && PcOf(s, a.t).reply.sender == res
  }

  ghost predicate RegistersAt(actions: seq<Action>, n: nat, ref: nat, res: string) {
    n < |actions| && Registers(Run(actions[..n]), actions[n], ref, res)
  }

  ghost predicate AnswersAt(actions: seq<Action>, n: nat, ref: nat, res: string) {
    n < |actions| && Answers(Run(actions[..n]), actions[n], ref, res)
  }

  /** The responder was registered in the n-th step and has delivered nothing since. */
  ghost predicate RegisteredSince(actions: seq<Action>, n: nat, ref: nat, res: string) {
    RegistersAt(actions, n, ref, res) && forall m: nat :: n < m ==> !AnswersAt(actions, m, ref, res)
  }

  ghost predicate Registered(actions: seq<Action>, ref: nat, res: string) {
    exists n: nat :: RegisteredSince(actions, n, ref, res)
  }

  lemma {:induction false} OpenNext(s: State, a: Action, ref: nat, res: string)
    requires ref < |s.shared.entries|
    ensures ref < |Step(s, a).shared.entries|
    ensures res in Step(s, a).shared.entries[ref].resIds
       <==> Registers(s, a, ref, res) || (res in s.shared.entries[ref].resIds && !Answers(s, a, ref, res))
  {
    if a.Continue? { AdvanceShared(s, a.t); }
  }

  lemma {:induction false} StepsEarlier(actions: seq<Action>, n: nat, k: nat, ref: nat, res: string)
    requires k <= |actions|
    ensures RegistersAt(actions[..k], n, ref, res) <==> RegistersAt(actions, n, ref, res) && n < k
    ensures AnswersAt(actions[..k], n, ref, res) <==> AnswersAt(actions, n, ref, res) && n < k
  {
    if n < k { assert actions[..k][..n] == actions[..n]; }
  }

  lemma {:induction false} RegisteredSinceNext(actions: seq<Action>, n: nat, ref: nat, res: string)
    requires actions != []
    ensures var k := |actions| - 1;
      RegisteredSince(actions, n, ref, res) <==>
        if n == k then RegistersAt(actions, k, ref, res)
        else RegisteredSince(actions[..k], n, ref, res) && !AnswersAt(actions, k, ref, res)
  {
    var k := |actions| - 1;
    forall m: nat
      ensures RegistersAt(actions[..k], m, ref, res) <==> RegistersAt(actions, m, ref, res) && m < k
      ensures AnswersAt(actions[..k], m, ref, res) <==> AnswersAt(actions, m, ref, res) && m < k
    {
      StepsEarlier(actions, m, k, ref, res);
    }
    assert forall m: nat :: m > k ==> !AnswersAt(actions, m, ref, res);
  }

  lemma {:induction false} RegisteredNext(actions: seq<Action>, ref: nat, res: string)
    requires actions != []
    ensures var k := |actions| - 1;
      Registered(actions, ref, res) <==>
        RegistersAt(actions, k, ref, res) || (Registered(actions[..k], ref, res) && !AnswersAt(actions, k, ref, res))
  {
    var k := |actions| - 1;
    RegisteredSinceNext(actions, k, ref, res);
    if n: nat :| RegisteredSince(actions, n, ref, res) { RegisteredSinceNext(actions, n, ref, res); }
    if n: nat :| RegisteredSince(actions[..k], n, ref, res) { RegisteredSinceNext(actions, n, ref, res); }
  }

  /** An entry that is not there yet has no steps of its own. */
  lemma {:induction false} NoStepsBefore(actions: seq<Action>, ref: nat, res: string)
    requires ref >= |Run(actions).shared.entries|
    ensures !Registered(actions, ref, res)
  {
    forall n: nat ensures !RegistersAt(actions, n, ref, res) {
      if n < |actions| {
        RunKeepsInv(actions[..n]);
        RunGrows(actions, n);
      }
    }
  }

  /** Over every interleaving a responder is registered with an entry exactly when a step registered it and it has
      delivered nothing to the entry since. */
  lemma {:induction false} OpenIffRegistered(actions: seq<Action>, ref: nat, res: string)
    requires ref < |Run(actions).shared.entries|
    ensures res in Run(actions).shared.entries[ref].resIds <==> Registered(actions, ref, res)
  {
    var k := |actions| - 1;
    var s := Run(actions[..k]);
    RegisteredNext(actions, ref, res);
    if ref < |s.shared.entries| {
      OpenIffRegistered(actions[..k], ref, res);
      OpenNext(s, actions[k], ref, res);
    } else {
      NoStepsBefore(actions[..k], ref, res);
      RunKeepsInv(actions[..k]);
      StepGrowsBy(s, actions[k]);
    }
  }

  /** Only a creation adds an entry, and that is empty. */
  lemma {:induction false} StepGrowsBy(s: State, a: Action)
    ensures |Step(s, a).shared.entries| == |s.shared.entries| + if a.CreateWait? then 1 else 0
    ensures a.CreateWait?
        ==> Step(s, a).shared.entries == s.shared.entries + [Entry(a.id, a.retNum, [], {}, multiset{})]
  {
    if a.Continue? { AdvanceShared(s, a.t); }
  }

  lemma {:induction false} CollectNext(s: State, a: Action, ref: nat)
    requires ref < |s.shared.entries|
    ensures ref < |Step(s, a).shared.entries|
    ensures Step(s, a).shared.entries[ref].data ==
      if a.Continue? && PcOf(s, a.t).Delivering? && PcOf(s, a.t).ref == ref
         && PcOf(s, a.t).reply.sender in s.shared.entries[ref].resIds
      then s.shared.entries[ref].data + [PcOf(s, a.t).reply]
      else s.shared.entries[ref].data
  {
    if a.Continue? { AdvanceShared(s, a.t); }
  }

  /** Over every interleaving a delivered reply is collected, after those before it and also beyond the number asked
      for, exactly when its sender was registered with the entry and has delivered nothing since. No other step
      changes what an entry has collected. */
  lemma {:induction false} CollectedIff(actions: seq<Action>, a: Action, ref: nat)
    requires ref < |Run(actions).shared.entries|
    ensures ref < |Run(actions + [a]).shared.entries|
    ensures var s := Run(actions);
      Run(actions + [a]).shared.entries[ref].data ==
        if a.Continue? && PcOf(s, a.t).Delivering? && PcOf(s, a.t).ref == ref
           && Registered(actions, ref, PcOf(s, a.t).reply.sender)
        then s.shared.entries[ref].data + [PcOf(s, a.t).reply]
        else s.shared.entries[ref].data
  {
    RunNext(actions, a);
    CollectNext(Run(actions), a, ref);
    if a.Continue? && PcOf(Run(actions), a.t).Delivering? {
      OpenIffRegistered(actions, ref, PcOf(Run(actions), a.t).reply.sender);
    }
  }

  /** A known id leads to the entry made by the step that created it when it was unknown: no wait on it has ended
      since, and the entry keeps the number of replies asked for then. */
  lemma {:induction false} FoundEntry(actions: seq<Action>, id: string) returns (n: nat)
    requires id in Run(actions).shared.table
    ensures OpenSince(actions, id, n) && id !in Run(actions[..n]).shared.table
    ensures var s := Run(actions);
      var ref := s.shared.table[id];
      && ref == |Run(actions[..n]).shared.entries| < |s.shared.entries|
      && s.shared.entries[ref].msgId == id && s.shared.entries[ref].retNum == actions[n].retNum
  {
    var k := |actions| - 1;
    var s := Run(actions[..k]);
    KnownAfterStepIff(s, actions[k], id);
    RunKeepsInv(actions[..k]);
    StepGrows(s, actions[k]);
    StepGrowsBy(s, actions[k]);
    if id in s.shared.table {
      n := FoundEntry(actions[..k], id);
      assert actions[..k][..n] == actions[..n];
      OpenSinceGrows(actions, id, n);
      TableNext(s, actions[k], id);
    } else {
      n := k;
      OpenSinceGrows(actions, id, k);
    }
  }

  lemma {:induction false} TableNext(s: State, a: Action, id: string)
    requires id in s.shared.table && id in Step(s, a).shared.table
    ensures Step(s, a).shared.table[id] == s.shared.table[id]
    ensures !Ends(s, a, id)
  {
    KnownAfterStepIff(s, a, id);
    if a.Continue? { AdvanceShared(s, a.t); }
  }

  ghost predicate CopiedWhole(actions: seq<Action>, n: nat, ref: nat, data: seq<Reply>) {
    && n <= |actions| && ref < |Run(actions[..n]).shared.entries|
    && data == Run(actions[..n]).shared.entries[ref].data
  }

  lemma {:induction false} CopiedWholeLater(actions: seq<Action>, k: nat, n: nat, ref: nat, data: seq<Reply>)
    requires k <= |actions| && CopiedWhole(actions[..k], n, ref, data)
    ensures CopiedWhole(actions, n, ref, data)
  {
    assert actions[..k][..n] == actions[..n];
  }

  /** What a waiter has copied is everything its entry had collected at some moment of the run. */
  lemma {:induction false} CopyIsWhole(actions: seq<Action>, t: nat) returns (n: nat)
    requires PcOf(Run(actions), t).Copied?
    ensures var pc := PcOf(Run(actions), t); CopiedWhole(actions, n, pc.ref, pc.data)
  {
    var k := |actions| - 1;
    var s := Run(actions[..k]);
    if PcOf(s, t) == PcOf(Run(actions), t) {
      n := CopyIsWhole(actions[..k], t);
      CopiedWholeLater(actions, k, n, PcOf(s, t).ref, PcOf(s, t).data);
    } else {
      n := k;
    }
  }

  /** Over every interleaving each result holds everything its entry had collected at some moment of the run. */
  lemma {:induction false} ResultIsWhole(actions: seq<Action>, r: Result) returns (n: nat)
    requires r in Run(actions).results
    ensures CopiedWhole(actions, n, r.ref, r.data)
  {
    var k := |actions| - 1;
    var s, a := Run(actions[..k]), actions[k];
    if r in s.results {
      n := ResultIsWhole(actions[..k], r);
    } else {
      n := CopyIsWhole(actions[..k], a.t);
    }
    CopiedWholeLater(actions, k, n, r.ref, r.data);
  }

  // ---------- the class: one method per critical section ----------

  class GlobalDataManager {
    var table: map<string, nat>
    var entries: seq<Entry>

    function View(): Shared
      reads this
    {
      Shared(table, entries)
    }

    constructor ()
      ensures View() == Shared(map[], [])
    {
      table, entries := map[], [];
    }

    method CreateWait(id: string, retNum: nat)
      modifies this
      ensures View() == Create(old(View()), id, retNum)
    {
      if id !in table {
        table := table[id := |entries|];
      }
      entries := entries + [Entry(id, retNum, [], {}, multiset{})];
    }

    /** The lookup every call starts with, under the table lock. */
    method Find(id: string) returns (found: bool, ref: nat)
      ensures found <==> id in table
      ensures found ==> ref == table[id]
    {
      if id !in table {
        return false, 0;
      }
      return true, table[id];
    }

    /** The second half of AddResNode, under the entry's lock. */
    method InsertRes(ref: nat, res: string)
      requires ref < |entries|
      modifies this`entries
      ensures View() == Register(old(View()), ref, res)
    {
      var e := entries[ref];
      entries := entries[ref := e.(resIds := e.resIds + {res}, registrations := e.registrations + multiset{res})];
    }

    /** The second half of waitDataToAdd, under the entry's lock. */
    method PushData(ref: nat, reply: Reply) returns (accepted: bool, notify: bool)
      requires ref < |entries|
      modifies this`entries
      ensures View() == Deliver(old(View()), ref, reply)
      ensures accepted <==> reply.sender in old(entries)[ref].resIds
      ensures notify <==> accepted && |entries[ref].data| >= entries[ref].retNum
    {
      var e := entries[ref];
      if reply.sender !in e.resIds {
        return false, false;
      }
      entries := entries[ref := e.(resIds := e.resIds - {reply.sender}, data := e.data + [reply])];
      return true, |entries[ref].data| >= e.retNum;
    }

    /** The copy WaitData makes after it was woken, timed out, or found enough data. */
    method CopyData(ref: nat) returns (data: seq<Reply>, ok: bool)
      requires ref < |entries|
      ensures data == entries[ref].data && ok == (|data| >= entries[ref].retNum)
    {
      data := entries[ref].data;
      ok := true;
      if |data| < entries[ref].retNum {
        ok := false;
      }
    }

    method EraseId(id: string)
      modifies this`table
      ensures View() == Erase(old(View()), id)
    {
      if id in table {
        table := table - {id};
      }
    }
  }
}
