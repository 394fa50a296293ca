/** The block-level report of double spends (ca/checker.cpp): every input key collects the
    transactions that spend it, and all but the earliest of each are reported. */
module DoubleSpendReport {
  import opened Ledger
  import opened Checker
  import Orders

  datatype Use = Use(key: string, tx: Tx)

  function TxUses(tx: Tx): seq<Use> {
    var keys := TxKeys(tx, false);
    seq(|keys|, i requires 0 <= i < |keys| => Use(keys[i], tx))
  }

  /** Every spending of a key in a block, in the order of the walk. */
  function Uses(txs: seq<Tx>): seq<Use> {
    if txs == [] then [] else Uses(txs[..|txs| - 1]) + TxUses(txs[|txs| - 1])
  }

  /** The guard as it is parsed: "key present" only qualifies the unstake case. */
  predicate Skipped(t: TxType, present: bool) {
    (present && t.Unstake?) || t.Undelegate? || t.UnLock?
  }

  predicate Exempt(t: TxType) {
    t.Unstake? || t.Undelegate? || t.UnLock?
  }

  /** The spenders of one key that the report looks at. */
  function Counted(uses: seq<Use>, k: string): seq<Tx> {
    if uses == [] then []
    else
      var before, u := Counted(uses[..|uses| - 1], k), uses[|uses| - 1];
      if u.key == k && !Skipped(u.tx.txType, before != []) then before + [u.tx] else before
  }

  function AddUse(pool: map<string, seq<Tx>>, u: Use): map<string, seq<Tx>> {
    if Skipped(u.tx.txType, u.key in pool) then pool
    else pool[u.key := (if u.key in pool then pool[u.key] else []) + [u.tx]]
  }

  function Pool(uses: seq<Use>): map<string, seq<Tx>> {
    if uses == [] then map[] else AddUse(Pool(uses[..|uses| - 1]), uses[|uses| - 1])
  }

  lemma {:induction false} PoolIsCounted(uses: seq<Use>)
    ensures forall k :: k in Pool(uses) <==> Counted(uses, k) != []
    ensures forall k :: k in Pool(uses) ==> Pool(uses)[k] == Counted(uses, k)
  {
    if uses != [] {
      PoolIsCounted(uses[..|uses| - 1]);
    }
  }

  /** picks lists the positions of the entries among the uses, in order. */
  ghost predicate EntriesAt(picks: seq<nat>, entries: seq<Tx>, uses: seq<Use>) {
    && |picks| == |entries|
    && (forall i, j :: 0 <= i < j < |picks| ==> picks[i] < picks[j])
    && (forall i :: 0 <= i < |picks| ==> picks[i] < |uses| && entries[i] == uses[picks[i]].tx)
  }

  /** The use counts for its key: it belongs to no undelegate or unlock transaction, and to an unstake transaction
      only when no other transaction has used the key before. */
  ghost predicate CountsAt(uses: seq<Use>, k: string, p: nat) {
    && p < |uses| && uses[p].key == k && !uses[p].tx.txType.Undelegate? && !uses[p].tx.txType.UnLock?
    && (uses[p].tx.txType.Unstake? ==> forall q :: 0 <= q < p && uses[q].key == k ==>
          uses[q].tx.txType.Undelegate? || uses[q].tx.txType.UnLock?)
  }

  lemma {:induction false} NoneCountedIff(uses: seq<Use>, k: string)
    ensures Counted(uses, k) == [] <==> forall q :: 0 <= q < |uses| && uses[q].key == k ==>
      uses[q].tx.txType.Undelegate? || uses[q].tx.txType.UnLock?
  {
    if uses != [] {
      var n := |uses| - 1;
      NoneCountedIff(uses[..n], k);
      assert forall q :: 0 <= q < n ==> uses[..n][q] == uses[q];
    }
  }

  lemma {:induction false} CountsAtEarlier(uses: seq<Use>, k: string, p: nat, n: nat)
    requires n <= |uses|
    ensures CountsAt(uses[..n], k, p) <==> CountsAt(uses, k, p) && p < n
  {
  }

  /** The counted spenders of a key are those of its uses that count, in the order of the walk. */
  lemma {:induction false} CountedAre(uses: seq<Use>, k: string) returns (picks: seq<nat>)
    ensures EntriesAt(picks, Counted(uses, k), uses)
    ensures forall p: nat :: p in picks <==> CountsAt(uses, k, p)
  {
    if uses == [] {
      picks := [];
    } else {
      var n := |uses| - 1;
      var before := CountedAre(uses[..n], k);
      NoneCountedIff(uses[..n], k);
      assert uses[..n] + [uses[n]] == uses;
      picks := if CountsAt(uses, k, n) then before + [n] else before;
      EntriesExtend(before, Counted(uses[..n], k), uses);
      forall p: nat ensures p in picks <==> CountsAt(uses, k, p) { CountsAtEarlier(uses, k, p, n); }
    }
  }

  lemma {:induction false} EntriesExtend(picks: seq<nat>, entries: seq<Tx>, uses: seq<Use>)
    requires uses != [] && EntriesAt(picks, entries, uses[..|uses| - 1])
    ensures EntriesAt(picks, entries, uses) && EntriesAt(picks + [|uses| - 1], entries + [uses[|uses| - 1].tx], uses)
  {
  }

  ghost predicate TimeOrdered(r: seq<Tx>) {
    forall i, j :: 0 <= i < j < |r| ==> r[i].time <= r[j].time
  }

  /** A time-ordered arrangement; std::sort may leave entries of equal time in any order. */
  ghost predicate Arranges(r: seq<Tx>, s: seq<Tx>) {
    multiset(r) == multiset(s) && TimeOrdered(r)
  }

  /** Everything but the first entry of each key, key by key. */
  function Tails(keys: seq<string>, arr: map<string, seq<Tx>>): seq<Tx> {
    if keys == [] then []
    else
      var k := keys[|keys| - 1];
      Tails(keys[..|keys| - 1], arr) + if k in arr && |arr[k]| > 1 then arr[k][1..] else []
  }

  ghost predicate ArrangesAll(arr: map<string, seq<Tx>>, uses: seq<Use>) {
    arr.Keys == Pool(uses).Keys && forall k :: k in arr ==> Arranges(arr[k], Counted(uses, k))
  }

  /** A possible outcome of the report on a block with these uses. */
  ghost predicate IsReport(report: seq<Tx>, uses: seq<Use>) {
    exists arr :: ArrangesAll(arr, uses) && report == Tails(Orders.Ascending(arr.Keys), arr)
  }

  /** No key is spent twice, not even by one transaction. */
  ghost predicate NoDoubleUse(uses: seq<Use>) {
    forall p, q :: 0 <= p < q < |uses| ==> uses[p].key != uses[q].key
  }

  /** No key has two counted spenders. */
  ghost predicate Quiet(uses: seq<Use>) {
    forall k :: |Counted(uses, k)| <= 1
  }

  ghost predicate NoneExempt(uses: seq<Use>) {
    forall p :: 0 <= p < |uses| ==> !Exempt(uses[p].tx.txType)
  }

  // ---------- what the report contains ----------

  lemma {:induction false} TailsContent(keys: seq<string>, arr: map<string, seq<Tx>>)
    requires forall k :: k in keys ==> k in arr
    ensures forall k, x :: k in keys && |arr[k]| > 1 && x in arr[k][1..] ==> x in Tails(keys, arr)
    ensures forall x :: x in Tails(keys, arr) ==> exists k :: k in keys && |arr[k]| > 1 && x in arr[k][1..]
    ensures Tails(keys, arr) == [] <==> forall k :: k in keys ==> |arr[k]| <= 1
  {
    if keys != [] {
      var init := keys[..|keys| - 1];
      TailsContent(init, arr);
      assert keys == init + [keys[|keys| - 1]];
    }
  }

  lemma {:induction false} ArrangedSize(r: seq<Tx>, s: seq<Tx>)
    requires Arranges(r, s)
    ensures |r| == |s|
  {
    assert |multiset(r)| == |multiset(s)|;
  }

  /** The report is empty exactly when no key has two counted spenders. */
  lemma {:induction false} ReportEmptyIffQuiet(report: seq<Tx>, uses: seq<Use>)
    requires IsReport(report, uses)
    ensures report == [] <==> Quiet(uses)
  {
    var arr :| ArrangesAll(arr, uses) && report == Tails(Orders.Ascending(arr.Keys), arr);
    TailsContent(Orders.Ascending(arr.Keys), arr);
    PoolIsCounted(uses);
    forall k | k in arr ensures |arr[k]| == |Counted(uses, k)| { ArrangedSize(arr[k], Counted(uses, k)); }
  }

  /** Nothing else is reported: a reported transaction is a counted spender of a contested key. */
  lemma {:induction false} ReportedIsContested(report: seq<Tx>, uses: seq<Use>, x: Tx) returns (k: string)
    requires IsReport(report, uses) && x in report
    ensures |Counted(uses, k)| > 1 && x in Counted(uses, k)
  {
    var arr :| ArrangesAll(arr, uses) && report == Tails(Orders.Ascending(arr.Keys), arr);
    TailsContent(Orders.Ascending(arr.Keys), arr);
    PoolIsCounted(uses);
    k :| k in Orders.Ascending(arr.Keys) && |arr[k]| > 1 && x in arr[k][1..];
    ArrangedSize(arr[k], Counted(uses, k));
    assert x in multiset(arr[k]);
  }

  lemma {:induction false} TailHasOne(a: seq<Tx>, x: Tx, y: Tx)
    requires multiset{x, y} <= multiset(a)
    ensures |a| > 1 && (x in a[1..] || y in a[1..])
  {
    assert |multiset{x, y}| <= |multiset(a)|;
    assert a == [a[0]] + a[1..];
    assert multiset(a) == multiset{a[0]} + multiset(a[1..]);
    assert x in multiset(a[1..]) || y in multiset(a[1..]);
  }

  /** Of two entries of one key at least one is reported. */
  lemma {:induction false} OneOfTwoReported(report: seq<Tx>, uses: seq<Use>, k: string, x: Tx, y: Tx)
    requires IsReport(report, uses) && multiset{x, y} <= multiset(Counted(uses, k))
    ensures x in report || y in report
  {
    var arr :| ArrangesAll(arr, uses) && report == Tails(Orders.Ascending(arr.Keys), arr);
    PoolIsCounted(uses);
    TailHasOne(Counted(uses, k), x, y);
    assert k in arr && Arranges(arr[k], Counted(uses, k));
    TailHasOne(arr[k], x, y);
    TailsContent(Orders.Ascending(arr.Keys), arr);
    assert k in Orders.Ascending(arr.Keys);
  }

  lemma {:induction false} OneUseOneEntry(uses: seq<Use>, p: nat)
    requires p < |uses| && !Exempt(uses[p].tx.txType)
    ensures uses[p].tx in multiset(Counted(uses, uses[p].key))
  {
    if p < |uses| - 1 {
      OneUseOneEntry(uses[..|uses| - 1], p);
    } else {
    }
  }

  /** Two uses of one key by spenders of other types than the exempt ones are both counted. */
  lemma {:induction false} TwoUsesTwoEntries(uses: seq<Use>, p: nat, q: nat)
    requires p < q < |uses| && uses[p].key == uses[q].key
    requires !Exempt(uses[p].tx.txType) && !Exempt(uses[q].tx.txType)
    ensures multiset{uses[p].tx, uses[q].tx} <= multiset(Counted(uses, uses[p].key))
  {
    if q < |uses| - 1 {
      TwoUsesTwoEntries(uses[..|uses| - 1], p, q);
    } else {
      OneUseOneEntry(uses[..q], p);
    }
  }

  lemma {:induction false} TwoEntriesTwoUses(uses: seq<Use>, k: string)
    requires |Counted(uses, k)| > 1
    ensures !NoDoubleUse(uses)
  {
    var init, last := uses[..|uses| - 1], |uses| - 1;
    if |Counted(init, k)| > 1 {
      TwoEntriesTwoUses(init, k);
      var p, q :| 0 <= p < q < |init| && init[p].key == init[q].key;
      assert uses[p].key == uses[q].key;
    } else {
      var p := EntryHasUse(init, k);
      assert uses[p].key == uses[last].key;
    }
  }

  lemma {:induction false} EntryHasUse(uses: seq<Use>, k: string) returns (p: nat)
    requires Counted(uses, k) != []
    ensures p < |uses| && uses[p].key == k
  {
    p := |uses| - 1;
    if uses[p].key != k {
      p := EntryHasUse(uses[..p], k);
    }
  }

  /** Without unstake, undelegate and unlock transactions, the report is empty exactly when no key is spent twice. */
  lemma {:induction false} ReportExact(report: seq<Tx>, uses: seq<Use>)
    requires IsReport(report, uses) && NoneExempt(uses)
    ensures report == [] <==> NoDoubleUse(uses)
  {
    ReportEmptyIffQuiet(report, uses);
    QuietIffNoDoubleUse(uses);
  }

  lemma {:induction false} QuietIffNoDoubleUse(uses: seq<Use>)
    requires NoneExempt(uses)
    ensures Quiet(uses) <==> NoDoubleUse(uses)
  {
    if !Quiet(uses) {
      var k :| |Counted(uses, k)| > 1;
      TwoEntriesTwoUses(uses, k);
    }
    if p, q :| 0 <= p < q < |uses| && uses[p].key == uses[q].key {
      TwoUsesTwoEntries(uses, p, q);
      assert |multiset{uses[p].tx, uses[q].tx}| <= |multiset(Counted(uses, uses[p].key))|;
    }
  }

  // ---------- removing what was reported ----------

  lemma {:induction false} UseOf(txs: seq<Tx>, i: nat, k: string) returns (p: nat)
    requires i < |txs| && k in TxKeys(txs[i], false)
    ensures |Uses(txs[..i])| <= p < |Uses(txs[..i + 1])| <= |Uses(txs)| && Uses(txs)[p] == Use(k, txs[i])
  {
    var keys := TxKeys(txs[i], false);
    var j :| 0 <= j < |keys| && keys[j] == k;
    p := |Uses(txs[..i])| + j;
    UsesStep(txs, i);
    assert Uses(txs[..i + 1])[p] == TxUses(txs[i])[j];
    UsesPrefix(txs, i + 1);
  }

  /** The uses of the first transactions come first. */
  lemma {:induction false} UsesPrefix(txs: seq<Tx>, n: nat)
    requires n <= |txs|
    ensures Uses(txs[..n]) <= Uses(txs)
  {
    if n == |txs| {
      assert txs[..n] == txs;
    } else {
      assert txs[..n] == txs[..|txs| - 1][..n];
      UsesPrefix(txs[..|txs| - 1], n);
    }
  }

  lemma {:induction false} TwoUsesOf(txs: seq<Tx>, i: nat, j: nat, k: string) returns (p: nat, q: nat)
    requires i < j < |txs| && k in TxKeys(txs[i], false) && k in TxKeys(txs[j], false)
    ensures p < q < |Uses(txs)| && Uses(txs)[p] == Use(k, txs[i]) && Uses(txs)[q] == Use(k, txs[j])
  {
    p := UseOf(txs, i, k);
    q := UseOf(txs, j, k);
    assert txs[..j][..i + 1] == txs[..i + 1];
    UsesPrefix(txs[..j], i + 1);
  }

  /** Of two spenders of a key, neither of an exempt type, at least one is reported: removing every reported
      transaction leaves at most one of them. */
  lemma {:induction false} RemovalSeparates(txs: seq<Tx>, report: seq<Tx>, i: nat, j: nat, k: string)
    requires i < j < |txs| && k in TxKeys(txs[i], false) && k in TxKeys(txs[j], false)
    requires IsReport(report, Uses(txs)) && !Exempt(txs[i].txType) && !Exempt(txs[j].txType)
    ensures txs[i] in report || txs[j] in report
  {
    var p, q := TwoUsesOf(txs, i, j, k);
    TwoUsesTwoEntries(Uses(txs), p, q);
    OneOfTwoReported(report, Uses(txs), k, txs[i], txs[j]);
  }

  // ---------- exactly which transaction types the report handles ----------

  function Types(txs: seq<Tx>): seq<TxType> {
    seq(|txs|, i requires 0 <= i < |txs| => txs[i].txType)
  }

  lemma {:induction false} UsesHaveTxs(txs: seq<Tx>)
    ensures forall p :: 0 <= p < |Uses(txs)| ==> Uses(txs)[p].tx in txs
  {
    if txs != [] {
      UsesHaveTxs(txs[..|txs| - 1]);
    }
  }

  const TWICE_SPENT := [Utxo("MM", [Vin("", "addr", ["h", "h"])])]

  /** A block of the given types in which only transaction i spends anything, and that twice. */
  function Spender(types: seq<TxType>, i: nat): seq<Tx> {
    seq(|types|, j requires 0 <= j < |types| => Tx("", true, types[j], 0, if i == j then TWICE_SPENT else []))
  }

  lemma {:induction false} TwiceSpentKeys(tx: Tx)
    requires tx.utxos == TWICE_SPENT
    ensures exists k :: TxUses(tx) == [Use(k, tx), Use(k, tx)]
  {
    var v := Vin("", "addr", ["h", "h"]);
    var k := InputKey(v, "h", "MM", false);
    assert VinKeys(v, "MM", false) == [k, k];
    assert [v][..0] == [] && VinsKeys([v], "MM", false) == [k, k];
    assert TWICE_SPENT[..0] == [] && UtxosKeys(TWICE_SPENT, false) == [k, k];
    assert TxUses(tx) == [Use(k, tx), Use(k, tx)];
  }

  lemma {:induction false} UsesStep(txs: seq<Tx>, n: nat)
    requires n < |txs|
    ensures Uses(txs[..n + 1]) == Uses(txs[..n]) + TxUses(txs[n])
  {
    assert txs[..n + 1][..n] == txs[..n];
  }

  ghost predicate OnlyUses(txs: seq<Tx>, i: nat) {
    forall j :: 0 <= j < |txs| && j != i ==> TxUses(txs[j]) == []
  }

  lemma {:induction false} UsesBefore(txs: seq<Tx>, i: nat, n: nat)
    requires n <= i < |txs| && OnlyUses(txs, i)
    ensures Uses(txs[..n]) == []
  {
    if n > 0 {
      UsesBefore(txs, i, n - 1);
      UsesStep(txs, n - 1);
    }
  }

  lemma {:induction false} UsesAfter(txs: seq<Tx>, i: nat, n: nat)
    requires i < n <= |txs| && OnlyUses(txs, i)
    ensures Uses(txs[..n]) == TxUses(txs[i])
  {
    UsesStep(txs, n - 1);
    if n == i + 1 {
      UsesBefore(txs, i, i);
    } else {
      UsesAfter(txs, i, n - 1);
    }
  }

  lemma {:induction false} SpenderUses(types: seq<TxType>, i: nat)
    requires i < |types|
    ensures Uses(Spender(types, i)) == TxUses(Spender(types, i)[i])
  {
    var txs := Spender(types, i);
    forall j | 0 <= j < |txs| && j != i ensures TxUses(txs[j]) == [] {
      assert txs[j].utxos == [];
    }
    UsesAfter(txs, i, |txs|);
    assert txs[..|txs|] == txs;
  }

  /** The report decides "a key is spent twice" on all blocks with the given transaction types
      exactly when none of the types is unstake, undelegate or unlock. */
  lemma {:induction false} ExactIffNoExemptType(types: seq<TxType>)
    ensures (forall txs :: Types(txs) == types ==> (Quiet(Uses(txs)) <==> NoDoubleUse(Uses(txs))))
       <==> (forall i :: 0 <= i < |types| ==> !Exempt(types[i]))
  {
    if i :| 0 <= i < |types| && Exempt(types[i]) {
      var txs := Spender(types, i);
      assert Types(txs) == types;
      SpenderUses(types, i);
      TwiceSpentKeys(txs[i]);
      var uses := Uses(txs);
      assert uses[0].key == uses[1].key;
      ExemptTwiceIsQuiet(uses);
    } else {
      forall txs: seq<Tx> | Types(txs) == types ensures Quiet(Uses(txs)) <==> NoDoubleUse(Uses(txs)) {
        UsesHaveTxs(txs);
        assert forall j :: 0 <= j < |txs| ==> txs[j].txType == Types(txs)[j];
        QuietIffNoDoubleUse(Uses(txs));
      }
    }
  }

  lemma {:induction false} ExemptTwiceIsQuiet(uses: seq<Use>)
    requires |uses| == 2 && uses[0] == uses[1] && Exempt(uses[0].tx.txType)
    ensures Quiet(uses)
  {
    forall k ensures |Counted(uses, k)| <= 1 {
      assert uses[..1][..0] == [];
      assert |Counted(uses[..1], k)| <= 1;
    }
  }

  // ---------- the loops ----------

  function InsertByTime(x: Tx, s: seq<Tx>): seq<Tx> {
    if s == [] || x.time <= s[0].time then [x] + s else [s[0]] + InsertByTime(x, s[1..])
  }

  lemma {:induction false} InsertByTimeKeeps(x: Tx, s: seq<Tx>)
    ensures multiset(InsertByTime(x, s)) == multiset{x} + multiset(s)
  {
    if s != [] && x.time > s[0].time {
      InsertByTimeKeeps(x, s[1..]);
      assert s == [s[0]] + s[1..];
    }
  }

  lemma {:induction false} InsertByTimeOrders(x: Tx, s: seq<Tx>)
    requires TimeOrdered(s)
    ensures TimeOrdered(InsertByTime(x, s))
    ensures InsertByTime(x, s)[0] == x || (s != [] && InsertByTime(x, s)[0] == s[0])
  {
    if s != [] && x.time > s[0].time {
      InsertByTimeOrders(x, s[1..]);
      var r := InsertByTime(x, s[1..]);
      assert r[0].time >= s[0].time;
      assert forall i :: 0 < i < |r| ==> r[0].time <= r[i].time;
    }
  }

  lemma {:induction false} SortNext(s: seq<Tx>, i: nat, r: seq<Tx>)
    requires i < |s| && TimeOrdered(r) && multiset(r) == multiset(s[..i])
    ensures TimeOrdered(InsertByTime(s[i], r)) && multiset(InsertByTime(s[i], r)) == multiset(s[..i + 1])
  {
    InsertByTimeOrders(s[i], r);
    InsertByTimeKeeps(s[i], r);
    assert s[..i + 1] == s[..i] + [s[i]];
  }

  method SortByTime(s: seq<Tx>) returns (r: seq<Tx>)
    ensures Arranges(r, s)
  {
    r := [];
    for i := 0 to |s|
      invariant TimeOrdered(r) && multiset(r) == multiset(s[..i])
    {
      SortNext(s, i, r);
      r := InsertByTime(s[i], r);
    }
    assert s[..|s|] == s;
  }

  lemma {:induction false} PoolStep(earlier: seq<Use>, own: seq<Use>, j: nat)
    requires j < |own|
    ensures Pool(earlier + own[..j + 1]) == AddUse(Pool(earlier + own[..j]), own[j])
  {
    var before := earlier + own[..j];
    assert earlier + own[..j + 1] == before + [own[j]];
    assert (before + [own[j]])[..|before|] == before;
  }

  /** Enter every key of one transaction, in the order of the walk. */
  method AddTx(before: map<string, seq<Tx>>, tx: Tx, ghost earlier: seq<Use>) returns (pool: map<string, seq<Tx>>)
    requires before == Pool(earlier)
    ensures pool == Pool(earlier + TxUses(tx))
  {
    var keys := CollectKeys(tx, false);
    ghost var own := TxUses(tx);
    pool := before;
    assert earlier + own[..0] == earlier;
    for j := 0 to |keys|
      invariant pool == Pool(earlier + own[..j])
    {
      PoolStep(earlier, own, j);
      pool := AddUse(pool, Use(keys[j], tx));
    }
    assert own[..|keys|] == own;
  }

  method BuildPool(txs: seq<Tx>) returns (pool: map<string, seq<Tx>>)
    ensures pool == Pool(Uses(txs))
  {
    pool := map[];
    for i := 0 to |txs|
      invariant pool == Pool(Uses(txs[..i]))
    {
      pool := AddTx(pool, txs[i], Uses(txs[..i]));
      assert txs[..i + 1][..i] == txs[..i];
    }
    assert txs[..|txs|] == txs;
  }

  /** Sort each contested key's spenders and report all but the first. */
  method ReportLaterSpenders(pool: map<string, seq<Tx>>) returns (report: seq<Tx>, ghost arr: map<string, seq<Tx>>)
    requires forall k :: k in pool ==> pool[k] != []
    ensures arr.Keys == pool.Keys && forall k :: k in arr ==> Arranges(arr[k], pool[k])
    ensures report == Tails(Orders.Ascending(pool.Keys), arr)
  {
    var keys := Orders.Ascending(pool.Keys);
    assert Orders.Distinct(keys) && forall k :: k in keys <==> k in pool;
    report, arr := ReportInOrder(keys, pool);
  }

  method ReportInOrder(keys: seq<string>, pool: map<string, seq<Tx>>)
    returns (report: seq<Tx>, ghost arr: map<string, seq<Tx>>)
    requires Orders.Distinct(keys) && forall k :: k in keys ==> k in pool && pool[k] != []
    ensures arr.Keys == (set k | k in keys) && forall k :: k in arr ==> Arranges(arr[k], pool[k])
    ensures report == Tails(keys, arr)
  {
    report, arr := [], map[];
    for i := 0 to |keys|
      invariant ArrangesKeys(arr, keys[..i], pool)
      invariant report == Tails(keys[..i], arr)
    {
      var k := keys[i];
      var sorted := pool[k];
      if |sorted| > 1 {
        sorted := SortByTime(sorted);
        ArrangedSize(sorted, pool[k]);
        report := report + sorted[1..];
      }
      ArrangeNext(arr, keys, i, pool, sorted);
      TailsStep(keys[..i], k, sorted, arr);
      arr := arr[k := sorted];
    }
    assert keys[..|keys|] == keys;
  }

  lemma {:induction false} ArrangeNext(arr: map<string, seq<Tx>>, keys: seq<string>, i: nat,
                                       pool: map<string, seq<Tx>>, sorted: seq<Tx>)
    requires i < |keys| && Orders.Distinct(keys) && ArrangesKeys(arr, keys[..i], pool)
    requires keys[i] in pool && Arranges(sorted, pool[keys[i]])
    ensures keys[i] !in keys[..i] && keys[..i + 1] == keys[..i] + [keys[i]]
    ensures ArrangesKeys(arr[keys[i] := sorted], keys[..i + 1], pool)
  {
    assert keys[..i + 1] == keys[..i] + [keys[i]];
    assert keys[i] !in keys[..i];
  }

  ghost predicate ArrangesKeys(arr: map<string, seq<Tx>>, keys: seq<string>, pool: map<string, seq<Tx>>) {
    && (forall k :: k in arr <==> k in keys)
    && (forall k :: k in arr ==> k in pool && Arranges(arr[k], pool[k]))
  }

  lemma {:induction false} TailsStep(keys: seq<string>, k: string, sorted: seq<Tx>, arr: map<string, seq<Tx>>)
    requires k !in keys && forall q :: q in keys ==> q in arr
    ensures Tails(keys + [k], arr[k := sorted]) == Tails(keys, arr) + if |sorted| > 1 then sorted[1..] else []
  {
    TailsSame(keys, arr, arr[k := sorted]);
    assert (keys + [k])[..|keys|] == keys;
  }

  /** The report, with the arrangement the sort happened to give each key: each contested key keeps
      one entry of least time and reports the others. */
  method CheckConflict(block: Block) returns (report: seq<Tx>, ghost arr: map<string, seq<Tx>>)
    ensures ArrangesAll(arr, Uses(block.txs)) && report == Tails(Orders.Ascending(arr.Keys), arr)
    ensures IsReport(report, Uses(block.txs))
    ensures forall k, x :: k in arr && x in Counted(Uses(block.txs), k) ==> arr[k] != [] && arr[k][0].time <= x.time
  {
    var pool := BuildPool(block.txs);
    PoolIsCounted(Uses(block.txs));
    report, arr := ReportLaterSpenders(pool);
    forall k, x | k in arr && x in Counted(Uses(block.txs), k) ensures arr[k] != [] && arr[k][0].time <= x.time {
      FirstIsLeast(arr[k], Counted(Uses(block.txs), k), x);
    }
  }

  lemma {:induction false} FirstIsLeast(r: seq<Tx>, s: seq<Tx>, x: Tx)
    requires Arranges(r, s) && x in s
    ensures r != [] && r[0].time <= x.time
  {
    assert x in multiset(s) && x in multiset(r);
    var i :| 0 <= i < |r| && r[i] == x;
  }

  lemma {:induction false} TailsSame(keys: seq<string>, arr: map<string, seq<Tx>>, other: map<string, seq<Tx>>)
    requires forall k :: k in keys ==> k in arr && k in other && arr[k] == other[k]
    ensures Tails(keys, arr) == Tails(keys, other)
  {
    if keys != [] {
      assert keys[|keys| - 1] in keys;
      TailsSame(keys[..|keys| - 1], arr, other);
    }
  }
}
