/** The two transaction pools (ca/transaction_cache.cpp): admission by the conflict test, removal and
    clearing, and what the double-spend report says about a block built from a pool. */
module TransactionPool {
  import opened Ledger
  import opened Checker
  import opened DoubleSpendReport

  /** A pooled transaction with the height it carries (node height or utxo height, by its kind). */
  datatype Entity = Entity(tx: Tx, height: nat)

  predicate ConflictFree(pool: seq<Entity>) {
    forall i, j :: 0 <= i < j < |pool| ==> !Conflict(pool[i].tx, pool[j].tx)
  }

  function TxsOf(pool: seq<Entity>): (txs: seq<Tx>)
    ensures |txs| == |pool| && forall i :: 0 <= i < |pool| ==> txs[i] == pool[i].tx
  {
    seq(|pool|, i requires 0 <= i < |pool| => pool[i].tx)
  }

  const BUILD_THRESHOLD := 1_000_000

  // ---------- the pools as a state machine ----------

  datatype State = State(transactions: seq<Entity>, contracts: seq<Entity>)

  datatype Op =
    | AddOp(tx: Tx, nodeHeight: nat, utxoHeight: nat)
    | RemoveContractsOp(hashes: set<string>)
    | ClearTransactionsOp
    | ClearContractsOp

  predicate IsContract(tx: Tx) {
    tx.txType.InvokeContract? || tx.txType.Deploy?
  }

  predicate Clashes(tx: Tx, pool: seq<Entity>) {
    exists i :: 0 <= i < |pool| && Conflict(pool[i].tx, tx)
  }

  lemma {:induction false} ClashesOverTxs(tx: Tx, pool: seq<Entity>)
    ensures Clashes(tx, pool) <==> exists i :: 0 <= i < |TxsOf(pool)| && Conflict(TxsOf(pool)[i], tx)
  {
    if i :| 0 <= i < |pool| && Conflict(pool[i].tx, tx) {
      assert Conflict(TxsOf(pool)[i], tx);
    }
    if i :| 0 <= i < |pool| && Conflict(TxsOf(pool)[i], tx) {
      assert Conflict(pool[i].tx, tx);
    }
  }

  function Keep(pool: seq<Entity>, hashes: set<string>): seq<Entity> {
    if pool == [] then []
    else (if pool[0].tx.hash in hashes then [] else [pool[0]]) + Keep(pool[1..], hashes)
  }

  function Step(s: State, op: Op): State {
    match op
    case AddOp(tx, nodeHeight, utxoHeight) =>
      if IsContract(tx) then
        if Clashes(tx, s.contracts) then s else s.(contracts := s.contracts + [Entity(tx, nodeHeight)])
      else
        if Clashes(tx, s.transactions) then s
        else s.(transactions := s.transactions + [Entity(tx, if tx.txType.Fund? then nodeHeight else utxoHeight)])
    case RemoveContractsOp(hashes) => s.(contracts := Keep(s.contracts, hashes))
    case ClearTransactionsOp => s.(transactions := [])
    case ClearContractsOp => s.(contracts := [])
  }

  function Run(s: State, ops: seq<Op>): State {
    if ops == [] then s else Step(Run(s, ops[..|ops| - 1]), ops[|ops| - 1])
  }

  lemma {:induction false} KeepIsSubsequence(pool: seq<Entity>, hashes: set<string>)
    ensures forall e :: e in Keep(pool, hashes) <==> e in pool && e.tx.hash !in hashes
    ensures ConflictFree(pool) ==> ConflictFree(Keep(pool, hashes))
  {
    if pool != [] {
      KeepIsSubsequence(pool[1..], hashes);
      if ConflictFree(pool) {
        var rest := Keep(pool[1..], hashes);
        forall j | 0 <= j < |rest| ensures !Conflict(pool[0].tx, rest[j].tx) {
          assert rest[j] in pool[1..];
        }
      }
    }
  }

  /** Removal looks at each entry by itself and keeps the order. */
  lemma {:induction false} KeepAdds(a: seq<Entity>, b: seq<Entity>, hashes: set<string>)
    ensures Keep(a + b, hashes) == Keep(a, hashes) + Keep(b, hashes)
  {
    if a == [] {
      assert a + b == b;
    } else {
      var head, x, y := if a[0].tx.hash in hashes then [] else [a[0]], Keep(a[1..], hashes), Keep(b, hashes);
      KeepAdds(a[1..], b, hashes);
      KeepHead(a, b, hashes);
      assert head + (x + y) == (head + x) + y;
    }
  }

  lemma {:induction false} KeepHead(a: seq<Entity>, b: seq<Entity>, hashes: set<string>)
    requires a != []
    ensures Keep(a + b, hashes) == (if a[0].tx.hash in hashes then [] else [a[0]]) + Keep(a[1..] + b, hashes)
  {
    assert (a + b)[1..] == a[1..] + b;
  }

  lemma {:induction false} KeepOne(e: Entity, hashes: set<string>)
    ensures Keep([e], hashes) == if e.tx.hash in hashes then [] else [e]
  {
    assert [e][1..] == [];
  }

  lemma {:induction false} StepKeepsConflictFree(s: State, op: Op)
    requires ConflictFree(s.transactions) && ConflictFree(s.contracts)
    ensures ConflictFree(Step(s, op).transactions) && ConflictFree(Step(s, op).contracts)
  {
    if op.RemoveContractsOp? {
      KeepIsSubsequence(s.contracts, op.hashes);
    }
  }

  /** After any sequence of additions, removals and clears, each pool is pairwise conflict-free. */
  lemma {:induction false} RunStaysConflictFree(ops: seq<Op>)
    ensures ConflictFree(Run(State([], []), ops).transactions) && ConflictFree(Run(State([], []), ops).contracts)
  {
    if ops != [] {
      RunStaysConflictFree(ops[..|ops| - 1]);
      StepKeepsConflictFree(Run(State([], []), ops[..|ops| - 1]), ops[|ops| - 1]);
    }
  }

  // ---------- a block built from a pool ----------

  /** All inputs are spent by key holders, not by contracts. */
  predicate NoContractInput(tx: Tx) {
    forall i, j :: 0 <= i < |tx.utxos| && 0 <= j < |tx.utxos[i].vins| ==> tx.utxos[i].vins[j].contractAddr == ""
  }

  predicate SpendsOnce(tx: Tx) {
    var keys := TxKeys(tx, false);
    forall p, q :: 0 <= p < q < |keys| ==> keys[p] != keys[q]
  }

  lemma {:induction false} VinsKeysAgree(vs: seq<Vin>, currency: string)
    requires forall j :: 0 <= j < |vs| ==> vs[j].contractAddr == ""
    ensures VinsKeys(vs, currency, true) == VinsKeys(vs, currency, false)
  {
    if vs != [] {
      VinsKeysAgree(vs[..|vs| - 1], currency);
      var v := vs[|vs| - 1];
      assert VinKeys(v, currency, true) == VinKeys(v, currency, false);
    }
  }

  lemma {:induction false} UtxosKeysAgree(us: seq<Utxo>)
    requires forall i, j :: 0 <= i < |us| && 0 <= j < |us[i].vins| ==> us[i].vins[j].contractAddr == ""
    ensures UtxosKeys(us, true) == UtxosKeys(us, false)
  {
    if us != [] {
      var init := us[..|us| - 1];
      forall i, j | 0 <= i < |init| && 0 <= j < |init[i].vins| ensures init[i].vins[j].contractAddr == "" {
        assert init[i] == us[i];
      }
      UtxosKeysAgree(init);
      VinsKeysAgree(us[|us| - 1].vins, us[|us| - 1].assetType);
    }
  }

  /** Without contract inputs the conflict test and the report use the same keys. */
  lemma {:induction false} KeysAgree(tx: Tx)
    requires NoContractInput(tx)
    ensures TxKeys(tx, true) == TxKeys(tx, false)
  {
    UtxosKeysAgree(tx.utxos);
  }

  /** Which transaction a use belongs to. */
  lemma {:induction false} OwnerOf(txs: seq<Tx>, p: nat) returns (i: nat, r: nat)
    requires p < |Uses(txs)|
    ensures i < |txs| && r < |TxKeys(txs[i], false)| && p == |Uses(txs[..i])| + r
    ensures Uses(txs)[p] == Use(TxKeys(txs[i], false)[r], txs[i])
  {
    var init := txs[..|txs| - 1];
    if p < |Uses(init)| {
      i, r := OwnerOf(init, p);
      assert init[..i] == txs[..i];
    } else {
      i, r := |txs| - 1, p - |Uses(init)|;
    }
  }

  predicate ShareKey(tx1: Tx, tx2: Tx) {
    exists k :: k in TxKeys(tx1, false) && k in TxKeys(tx2, false)
  }

  /** No transaction repeats a key and no two share one. */
  ghost predicate Separate(txs: seq<Tx>) {
    && (forall i :: 0 <= i < |txs| ==> SpendsOnce(txs[i]))
    && (forall i, j :: 0 <= i < j < |txs| ==> !ShareKey(txs[i], txs[j]))
  }

  lemma {:induction false} NoDoubleUseIffSeparate(txs: seq<Tx>)
    ensures NoDoubleUse(Uses(txs)) <==> Separate(txs)
  {
    if !NoDoubleUse(Uses(txs)) {
      DoubleUseHasOwners(txs);
    } else if i, j :| 0 <= i < j < |txs| && ShareKey(txs[i], txs[j]) {
      var k :| k in TxKeys(txs[i], false) && k in TxKeys(txs[j], false);
      var p, q := TwoUsesOf(txs, i, j, k);
    } else if i :| 0 <= i < |txs| && !SpendsOnce(txs[i]) {
      OwnRepeatIsDoubleUse(txs, i);
    }
  }

  lemma {:induction false} DoubleUseHasOwners(txs: seq<Tx>)
    requires !NoDoubleUse(Uses(txs))
    ensures !Separate(txs)
  {
    var uses := Uses(txs);
    var p, q :| 0 <= p < q < |uses| && uses[p].key == uses[q].key;
    var i, r := OwnerOf(txs, p);
    var j, s := OwnerOf(txs, q);
    if i == j {
      assert !SpendsOnce(txs[i]);
    } else {
      var k := uses[p].key;
      assert k in TxKeys(txs[i], false) && k in TxKeys(txs[j], false);
      assert ShareKey(txs[i], txs[j]) && ShareKey(txs[j], txs[i]);
    }
  }

  lemma {:induction false} OwnRepeatIsDoubleUse(txs: seq<Tx>, i: nat)
    requires i < |txs| && !SpendsOnce(txs[i])
    ensures !NoDoubleUse(Uses(txs))
  {
    var keys := TxKeys(txs[i], false);
    var r, s :| 0 <= r < s < |keys| && keys[r] == keys[s];
    UsesAt(txs, i, r);
    UsesAt(txs, i, s);
  }

  lemma {:induction false} UsesAt(txs: seq<Tx>, i: nat, r: nat)
    requires i < |txs| && r < |TxKeys(txs[i], false)|
    ensures |Uses(txs[..i])| + r < |Uses(txs)|
        && Uses(txs)[|Uses(txs[..i])| + r] == Use(TxKeys(txs[i], false)[r], txs[i])
  {
    var init := txs[..|txs| - 1];
    if i < |txs| - 1 {
      UsesAt(init, i, r);
      assert init[..i] == txs[..i];
    }
  }

  /** The report on a block built from a conflict-free pool without contract inputs: empty if no
      transaction repeats a key, and, when no exempt type is pooled, only then. */
  lemma {:induction false} BuiltBlockReport(pool: seq<Entity>, report: seq<Tx>)
    requires ConflictFree(pool) && forall i :: 0 <= i < |pool| ==> NoContractInput(pool[i].tx)
    requires IsReport(report, Uses(TxsOf(pool)))
    ensures (forall i :: 0 <= i < |pool| ==> SpendsOnce(pool[i].tx)) ==> report == []
    ensures NoneExempt(Uses(TxsOf(pool))) && report == [] ==> forall i :: 0 <= i < |pool| ==> SpendsOnce(pool[i].tx)
  {
    var txs := TxsOf(pool);
    NoDoubleUseIffSeparate(txs);
    ConflictFreeIsUnshared(pool);
    assert forall i :: 0 <= i < |pool| ==> txs[i] == pool[i].tx;
    ReportEmptyIffQuiet(report, Uses(txs));
    if NoneExempt(Uses(txs)) {
      QuietIffNoDoubleUse(Uses(txs));
    }
    if NoDoubleUse(Uses(txs)) {
      NoDoubleUseIsQuiet(Uses(txs));
    }
  }

  /** Without exempt types, the report on a block is empty exactly when no transaction repeats a key and no
      two share one, contract inputs included. */
  lemma {:induction false} BuiltBlockEmptyIff(pool: seq<Entity>, report: seq<Tx>)
    requires IsReport(report, Uses(TxsOf(pool))) && NoneExempt(Uses(TxsOf(pool)))
    ensures report == [] <==> Separate(TxsOf(pool))
  {
    NoDoubleUseIffSeparate(TxsOf(pool));
    ReportExact(report, Uses(TxsOf(pool)));
  }

  // ---------- exactly when the report on a conflict-free pool is empty ----------

  /** For well-named transactions, a shared report key is an output of one address and currency that both spend,
      through whatever inputs. */
  lemma {:induction false} SharesIffSameOutput(tx1: Tx, tx2: Tx)
    requires AllWellNamed(tx1) && AllWellNamed(tx2)
    ensures ShareKey(tx1, tx2) <==> exists o, q ::
      SpendsAs(tx1, o) && SpendsAs(tx2, q) && o.output == q.output && o.addr == q.addr && o.currency == q.currency
  {
    if k :| k in TxKeys(tx1, false) && k in TxKeys(tx2, false) {
      var v, g, c := KeyHasSpent(tx1, false, k);
      var w, h, d := KeyHasSpent(tx2, false, k);
      SameReportKeyIff(v, g, c, w, h, d);
      assert ByInput(v, g, c).output == ByInput(w, h, d).output;
    }
    if o, q :| SpendsAs(tx1, o) && SpendsAs(tx2, q)
               && o.output == q.output && o.addr == q.addr && o.currency == q.currency {
      var v := SpentHasKey(tx1, false, o);
      var w := SpentHasKey(tx2, false, q);
      SameReportKeyIff(v, o.output, o.currency, w, q.output, q.currency);
      assert InputKey(v, o.output, o.currency, false) in TxKeys(tx2, false);
    }
  }

  /** Some input that a contract spends has this key in the report. */
  ghost predicate ContractKey(tx: Tx, k: string) {
    exists i: nat, j: nat, p: nat :: Spends(tx, i, j, p) && tx.utxos[i].vins[j].contractAddr != ""
      && KeyOf(tx, i, j, p, false) == k
  }

  /** An output a contract spends in tx1 has a report key of tx2. */
  ghost predicate Escapes(tx1: Tx, tx2: Tx) {
    exists k :: ContractKey(tx1, k) && k in TxKeys(tx2, false)
  }

  lemma {:induction false} ContractKeyIsKey(tx: Tx, k: string)
    requires ContractKey(tx, k)
    ensures k in TxKeys(tx, false)
  {
    TxKeyAt(tx, false, k);
  }

  /** The two key forms coincide except for inputs that a contract spends. */
  lemma {:induction false} OtherKeysCoincide(tx: Tx, k: string)
    requires k in TxKeys(tx, false) && !ContractKey(tx, k)
    ensures k in TxKeys(tx, true)
  {
    TxKeyAt(tx, false, k);
    var i: nat, j: nat, p: nat :| Spends(tx, i, j, p) && KeyOf(tx, i, j, p, false) == k;
    assert KeyOf(tx, i, j, p, true) == k;
    TxKeyAt(tx, true, k);
  }

  /** Between two transactions without a conflict, sharing a report key means that a contract's input escapes. */
  lemma {:induction false} SharesIffEscapes(tx1: Tx, tx2: Tx)
    requires !Conflict(tx1, tx2)
    ensures ShareKey(tx1, tx2) <==> Escapes(tx1, tx2) || Escapes(tx2, tx1)
  {
    if k :| k in TxKeys(tx1, false) && k in TxKeys(tx2, false) {
      if !ContractKey(tx1, k) && !ContractKey(tx2, k) {
        OtherKeysCoincide(tx1, k);
        OtherKeysCoincide(tx2, k);
      }
    }
    if k :| ContractKey(tx1, k) && k in TxKeys(tx2, false) { ContractKeyIsKey(tx1, k); }
    if k :| ContractKey(tx2, k) && k in TxKeys(tx1, false) { ContractKeyIsKey(tx2, k); }
  }

  ghost predicate NothingEscapes(pool: seq<Entity>) {
    forall i, j :: 0 <= i < |pool| && 0 <= j < |pool| && i != j ==> !Escapes(pool[i].tx, pool[j].tx)
  }

  lemma {:induction false} SeparateIffNothingEscapes(pool: seq<Entity>)
    requires ConflictFree(pool)
    ensures Separate(TxsOf(pool)) <==> (forall i :: 0 <= i < |pool| ==> SpendsOnce(pool[i].tx)) && NothingEscapes(pool)
  {
    var txs := TxsOf(pool);
    assert forall i :: 0 <= i < |pool| ==> txs[i] == pool[i].tx;
    forall i, j | 0 <= i < j < |pool|
      ensures ShareKey(txs[i], txs[j]) <==> Escapes(pool[i].tx, pool[j].tx) || Escapes(pool[j].tx, pool[i].tx)
    {
      SharesIffEscapes(pool[i].tx, pool[j].tx);
    }
  }

  /** The report on a block built from a conflict-free pool without exempt types is empty if and only if no
      transaction repeats a key and no output that a contract spends in one has a report key of another. */
  lemma {:induction false} PoolReportEmptyIff(pool: seq<Entity>, report: seq<Tx>)
    requires ConflictFree(pool) && NoneExempt(Uses(TxsOf(pool))) && IsReport(report, Uses(TxsOf(pool)))
    ensures report == [] <==> (forall i :: 0 <= i < |pool| ==> SpendsOnce(pool[i].tx)) && NothingEscapes(pool)
  {
    BuiltBlockEmptyIff(pool, report);
    SeparateIffNothingEscapes(pool);
  }

  lemma {:induction false} NoDoubleUseIsQuiet(uses: seq<Use>)
    requires NoDoubleUse(uses)
    ensures Quiet(uses)
  {
    if k :| |Counted(uses, k)| > 1 {
      TwoEntriesTwoUses(uses, k);
    }
  }

  lemma {:induction false} ConflictFreeIsUnshared(pool: seq<Entity>)
    requires ConflictFree(pool) && forall i :: 0 <= i < |pool| ==> NoContractInput(pool[i].tx)
    ensures forall i, j :: 0 <= i < j < |pool| ==> !ShareKey(TxsOf(pool)[i], TxsOf(pool)[j])
  {
    forall i, j | 0 <= i < j < |pool| ensures !ShareKey(TxsOf(pool)[i], TxsOf(pool)[j]) {
      KeysAgree(pool[i].tx);
      KeysAgree(pool[j].tx);
      assert !Conflict(pool[i].tx, pool[j].tx);
    }
  }

  /** Contract c spends output h of address a, and so does the key holder. */
  function EscapePool(h: string, a: string, c: string): seq<Entity> {
    [Entity(OneInput(Vin(c, a, [h])), 0), Entity(OneInput(Vin("", a, [h])), 0)]
  }

  lemma {:induction false} EscapePoolKeys(h: string, a: string, c: string)
    requires c != ""
    ensures !Conflict(OneInput(Vin(c, a, [h])), OneInput(Vin("", a, [h])))
    ensures ShareKey(OneInput(Vin(c, a, [h])), OneInput(Vin("", a, [h])))
  {
    var v, w := Vin(c, a, [h]), Vin("", a, [h]);
    OneInputKeys(v, h, true);
    OneInputKeys(w, h, true);
    assert |InputKey(w, h, "MM", true)| > |h|;
    OneInputKeys(v, h, false);
    OneInputKeys(w, h, false);
    assert InputKey(v, h, "MM", false) in TxKeys(OneInput(w), false);
  }

  /** With a contract input the two tests disagree: two transactions spend the same output, pass the
      conflict test into one pool, and a key of the block built from the pool has two counted
      spenders, so that every report on it is non-empty. */
  lemma {:induction false} ContractInputEscapesConflictTest(h: string, a: string, c: string)
    requires c != ""
    ensures ConflictFree(EscapePool(h, a, c)) && !Quiet(Uses(TxsOf(EscapePool(h, a, c))))
  {
    EscapePoolKeys(h, a, c);
    var txs := TxsOf(EscapePool(h, a, c));
    SharedIsContested(txs, 0, 1);
  }

  /** That pool is reached: both transactions are added, in turn, to an empty pool. */
  lemma {:induction false} EscapePoolIsReached(h: string, a: string, c: string)
    requires c != ""
    ensures var ops := [AddOp(OneInput(Vin(c, a, [h])), 0, 0), AddOp(OneInput(Vin("", a, [h])), 0, 0)];
      Run(State([], []), ops) == State(EscapePool(h, a, c), [])
  {
    var v, w := OneInput(Vin(c, a, [h])), OneInput(Vin("", a, [h]));
    var ops := [AddOp(v, 0, 0), AddOp(w, 0, 0)];
    EscapePoolKeys(h, a, c);
    assert ops[..1] == [AddOp(v, 0, 0)] && ops[..1][..0] == [];
    assert Run(State([], []), ops[..1]) == Step(State([], []), ops[0]);
    assert Run(State([], []), ops[..1]).transactions == [Entity(v, 0)];
    assert !Clashes(w, [Entity(v, 0)]);
  }

  lemma {:induction false} SharedIsContested(txs: seq<Tx>, i: nat, j: nat)
    requires i < j < |txs| && ShareKey(txs[i], txs[j])
    requires forall t :: t in txs ==> !Exempt(t.txType)
    ensures !Quiet(Uses(txs))
  {
    UsesHaveTxs(txs);
    NoDoubleUseIffSeparate(txs);
    QuietIffNoDoubleUse(Uses(txs));
  }

  // ---------- the class ----------

  class TransactionCache {
    var transactionCache: seq<Entity>
    var contractCache: seq<Entity>

    function View(): State
      reads this
    {
      State(transactionCache, contractCache)
    }

    ghost predicate Valid()
      reads this
    {
      ConflictFree(transactionCache) && ConflictFree(contractCache)
    }

    constructor ()
      ensures Valid() && View() == State([], [])
    {
      transactionCache, contractCache := [], [];
    }

    /** 0 when pooled; -1 or -2 when it conflicts with the contract or the ordinary pool. notify wakes the
        builder once the ordinary pool is full. */
    method AddCache(tx: Tx, nodeHeight: nat, utxoHeight: nat) returns (ret: int, notify: bool)
      requires Valid()
      modifies this
      ensures Valid() && View() == Step(old(View()), AddOp(tx, nodeHeight, utxoHeight))
      ensures ret == if IsContract(tx) then (if Clashes(tx, old(contractCache)) then -1 else 0)
                     else (if Clashes(tx, old(transactionCache)) then -2 else 0)
      ensures contractCache == old(contractCache) +
        if (tx.txType.InvokeContract? || tx.txType.Deploy?)
           && forall i :: 0 <= i < |old(contractCache)| ==> !Conflict(old(contractCache)[i].tx, tx)
        then [Entity(tx, nodeHeight)] else []
      ensures transactionCache == old(transactionCache) +
        if !tx.txType.InvokeContract? && !tx.txType.Deploy?
           && forall i :: 0 <= i < |old(transactionCache)| ==> !Conflict(old(transactionCache)[i].tx, tx)
        then [Entity(tx, if tx.txType.Fund? then nodeHeight else utxoHeight)] else []
      ensures notify <==> ret == 0 && !IsContract(tx) && |transactionCache| >= 1_000_000
    {
      notify := false;
      StepKeepsConflictFree(View(), AddOp(tx, nodeHeight, utxoHeight));
      if tx.txType.InvokeContract? || tx.txType.Deploy? {
        var hit := CheckConflictWithPool(tx, TxsOf(contractCache));
        ClashesOverTxs(tx, contractCache);
        if hit {
          return -1, false;
        }
        contractCache := contractCache + [Entity(tx, nodeHeight)];
      } else {
        var hit := CheckConflictWithPool(tx, TxsOf(transactionCache));
        ClashesOverTxs(tx, transactionCache);
        if hit {
          return -2, false;
        }
        if tx.txType.Fund? {
          transactionCache := transactionCache + [Entity(tx, nodeHeight)];
        } else {
          transactionCache := transactionCache + [Entity(tx, utxoHeight)];
        }
        if |transactionCache| >= BUILD_THRESHOLD {
          notify := true;
        }
      }
      ret := 0;
    }

    method RemoveContractsCacheRequest(hashes: set<string>)
      requires Valid()
      modifies this`contractCache
      ensures Valid() && View() == Step(old(View()), RemoveContractsOp(hashes))
    {
      StepKeepsConflictFree(View(), RemoveContractsOp(hashes));
      contractCache := EraseByHash(contractCache, hashes);
    }

    method ClearTransactions()
      requires Valid()
      modifies this`transactionCache
      ensures Valid() && View() == Step(old(View()), ClearTransactionsOp)
    {
      transactionCache := [];
    }

    method ClearContracts()
      requires Valid()
      modifies this`contractCache
      ensures Valid() && View() == Step(old(View()), ClearContractsOp)
    {
      contractCache := [];
    }
  }

  /** The erase loop. */
  method EraseByHash(pool: seq<Entity>, hashes: set<string>) returns (kept: seq<Entity>)
    ensures kept == Keep(pool, hashes)
  {
    kept := [];
    for i := 0 to |pool|
      invariant Keep(pool, hashes) == kept + Keep(pool[i..], hashes)
    {
      KeepNext(pool, hashes, i, kept);
      if pool[i].tx.hash !in hashes {
        kept := kept + [pool[i]];
      }
    }
  }

  lemma {:induction false} KeepNext(pool: seq<Entity>, hashes: set<string>, i: nat, kept: seq<Entity>)
    requires i < |pool|
    ensures kept + Keep(pool[i..], hashes)
         == (if pool[i].tx.hash in hashes then kept else kept + [pool[i]]) + Keep(pool[i + 1..], hashes)
  {
    assert pool[i..][1..] == pool[i + 1..];
  }
}
